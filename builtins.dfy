/** The small part of Python's semantics that the script relies on:
    exceptions, `str.split(":")`, `int(str)`, `int(float)`, the `[::-1]`
    slice, and the `*` and `+` operators on ints and strings. */
module Builtins {

  /** The exceptions the modelled code can raise. */
  datatype PyError =
    | FormatException    // the `Exception("time has to be in the format (h:)m:s")`
    | ValueError         // `int(s)` on a string that is not an integer literal
    | TypeError          // an operator applied to operands of mismatched types
    | ZeroDivisionError  // `i % 0`

  /** A Python computation: a value, or an exception in flight. */
  datatype Result<+T> = Ok(value: T) | Raised(error: PyError) {
    predicate IsFailure() {
      Raised?
    }

    function PropagateFailure<U>(): Result<U>
      requires Raised?
    {
      Raised(error)
    }

    function Extract(): T
      requires Ok?
    {
      value
    }
  }

  /** A non-negative frame rate, as reported by the video decoder. */
  type Fps = r: real | r >= 0.0

  // ---------------------------------------------------------------------
  // int(x) for a float x: truncation toward zero

  function Trunc(x: real): (r: int)
    ensures x >= 0.0 ==> 0 <= r && r as real <= x < r as real + 1.0
    ensures x < 0.0 ==> r <= 0 && r as real - 1.0 < x <= r as real
  {
    if x >= 0.0 then x.Floor else -((-x).Floor)
  }

  // ---------------------------------------------------------------------
  // str.split(":")

  /** Number of colons in `s`. */
  function Colons(s: string): nat
  {
    if |s| == 0 then 0 else (if s[0] == ':' then 1 else 0) + Colons(s[1..])
  }

  /** `":".join(parts)`, the inverse of `Split`. */
  function Join(parts: seq<string>): string
    requires |parts| >= 1
  {
    if |parts| == 1 then parts[0] else parts[0] + ":" + Join(parts[1..])
  }

  /** `s.split(":")`: the maximal colon-free pieces of `s`, empty ones included. */
  function Split(s: string): (parts: seq<string>)
    ensures |parts| == Colons(s) + 1
    ensures forall i :: 0 <= i < |parts| ==> ':' !in parts[i]
    ensures Join(parts) == s
  {
    if |s| == 0 then [""]
    else
      var rest := Split(s[1..]);
      if s[0] == ':' then
        [""] + rest
      else
        var parts := [[s[0]] + rest[0]] + rest[1..];
        assert parts[1..] == rest[1..];
        parts
  }

  lemma {:induction false} SplitColonFree(a: string)
    requires ':' !in a
    ensures Split(a) == [a]
    decreases |a|
  {
    if |a| > 0 {
      SplitColonFree(a[1..]);
      assert [a[0]] + a[1..] == a;
    }
  }

  lemma {:induction false} SplitAfterPiece(a: string, t: string)
    requires ':' !in a
    ensures Split(a + ":" + t) == [a] + Split(t)
    decreases |a|
  {
    var s := a + ":" + t;
    if |a| == 0 {
      assert s[0] == ':' && s[1..] == t;
    } else {
      assert s[0] == a[0] && s[1..] == a[1..] + ":" + t;
      SplitAfterPiece(a[1..], t);
      assert [a[0]] + a[1..] == a;
    }
  }

  /** Splitting a join of colon-free pieces gives the pieces back. */
  lemma {:induction false} SplitJoin(parts: seq<string>)
    requires |parts| >= 1
    requires forall i :: 0 <= i < |parts| ==> ':' !in parts[i]
    ensures Split(Join(parts)) == parts
    decreases |parts|
  {
    if |parts| == 1 {
      SplitColonFree(parts[0]);
    } else {
      SplitJoin(parts[1..]);
      SplitAfterPiece(parts[0], Join(parts[1..]));
      assert [parts[0]] + parts[1..] == parts;
    }
  }

  // ---------------------------------------------------------------------
  // int(s) for a string s: an optional '-' followed by decimal digits

  predicate IsDigit(c: char) {
    '0' <= c <= '9'
  }

  predicate IsDigits(s: string) {
    |s| > 0 && forall i :: 0 <= i < |s| ==> IsDigit(s[i])
  }

  /** The value of a digit string, read most significant digit first. */
  function DigitsValue(s: string): nat
    requires forall i :: 0 <= i < |s| ==> IsDigit(s[i])
  {
    if |s| == 0 then 0
    else
      assert IsDigit(s[|s| - 1]);
      DigitsValue(s[..|s| - 1]) * 10 + (s[|s| - 1] as int - '0' as int)
  }

  function ParseInt(s: string): Result<int>
  {
    if |s| > 0 && s[0] == '-' then
      if IsDigits(s[1..]) then Ok(0 - DigitsValue(s[1..]) as int) else Raised(ValueError)
    else if IsDigits(s) then Ok(DigitsValue(s))
    else Raised(ValueError)
  }

  /** `str(n)` for a natural number. */
  function ShowNat(n: nat): (s: string)
    ensures IsDigits(s)
  {
    var d := [(n % 10 + '0' as int) as char];
    if n < 10 then d else ShowNat(n / 10) + d
  }

  /** `str(n)`. */
  function ShowInt(n: int): string
  {
    if n < 0 then "-" + ShowNat(-n) else ShowNat(n)
  }

  lemma {:induction false} DigitsValueShowNat(n: nat)
    ensures DigitsValue(ShowNat(n)) == n
  {
    var s := ShowNat(n);
    if n >= 10 {
      DigitsValueShowNat(n / 10);
      assert s[..|s| - 1] == ShowNat(n / 10);
    }
  }

  /** `int(str(n)) == n`. */
  lemma ParseShowInt(n: int)
    ensures ParseInt(ShowInt(n)) == Ok(n)
  {
    if n < 0 {
      DigitsValueShowNat(-n);
      assert ShowInt(n)[1..] == ShowNat(-n);
    } else {
      DigitsValueShowNat(n);
    }
  }

  // ---------------------------------------------------------------------
  // Python's `*` and `+` on ints and strings

  datatype PyValue = Int(i: int) | Str(s: string)

  /** `s * n`: `s` repeated `n` times, empty when `n <= 0`. */
  function Repeat(s: string, n: int): string
    decreases n
  {
    if n <= 0 then "" else s + Repeat(s, n - 1)
  }

  function Mul(a: PyValue, b: PyValue): Result<PyValue>
  {
    match (a, b)
    case (Int(x), Int(y)) => Ok(Int(x * y))
    case (Str(x), Int(y)) => Ok(Str(Repeat(x, y)))
    case (Int(x), Str(y)) => Ok(Str(Repeat(y, x)))
    case (Str(_), Str(_)) => Raised(TypeError)
  }

  function Add(a: PyValue, b: PyValue): Result<PyValue>
  {
    match (a, b)
    case (Int(x), Int(y)) => Ok(Int(x + y))
    case (Str(x), Str(y)) => Ok(Str(x + y))
    case _ => Raised(TypeError)
  }

  // ---------------------------------------------------------------------
  // s[::-1]

  function Reverse<T>(s: seq<T>): seq<T>
  {
    if |s| == 0 then [] else [s[|s| - 1]] + Reverse(s[..|s| - 1])
  }

  lemma {:induction false} ReverseAt<T>(s: seq<T>, k: nat)
    requires k < |s|
    ensures |Reverse(s)| == |s|
    ensures Reverse(s)[k] == s[|s| - 1 - k]
    decreases |s|
  {
    if k > 0 {
      ReverseAt(s[..|s| - 1], k - 1);
    } else if |s| > 1 {
      ReverseAt(s[..|s| - 1], 0);
    } else {
      assert Reverse(s[..0]) == [];
    }
  }

  lemma ReverseLength<T>(s: seq<T>)
    ensures |Reverse(s)| == |s|
  {
    if |s| > 0 {
      ReverseAt(s, 0);
    }
  }

  /** Reversing twice gives back the original order. */
  lemma ReverseReverse<T>(s: seq<T>)
    ensures Reverse(Reverse(s)) == s
  {
    ReverseLength(s);
    ReverseLength(Reverse(s));
    forall k | 0 <= k < |s|
      ensures Reverse(Reverse(s))[k] == s[k]
    {
      ReverseAt(Reverse(s), k);
      ReverseAt(s, |s| - 1 - k);
    }
  }
}
