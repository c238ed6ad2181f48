/** `reduceFrames`: thins a frame list by keeping one frame in every `cull`. */
module Reduce {
  import opened Builtins

  type Pos = n: int | n >= 1 witness 1

  /** `ceil(n / c)`, counted by repeated subtraction. */
  function CeilDiv(n: nat, c: Pos): nat
    decreases n
  {
    if n == 0 then 0 else 1 + CeilDiv(if n <= c then 0 else n - c, c)
  }

  lemma MulNonneg(a: nat, b: nat)
    ensures a * b >= 0
  {
  }

  /** `CeilDiv(n, c)` is the ceiling of `n / c`: the least `m` with `n <= m * c`. */
  lemma {:induction false} CeilDivIsCeiling(n: nat, c: Pos)
    ensures n <= CeilDiv(n, c) * c
    ensures n > 0 ==> (CeilDiv(n, c) - 1) * c < n
    decreases n
  {
    if n > c {
      CeilDivIsCeiling(n - c, c);
      assert CeilDiv(n, c) * c == c + CeilDiv(n - c, c) * c;
    } else if n > 0 {
      assert CeilDiv(n, c) == 1;
    }
  }

  /** One more frame: the count of kept frames grows exactly when the new
      index is the next multiple of `c`. */
  lemma {:induction false} CeilDivSucc(i: nat, c: Pos)
    ensures CeilDiv(i + 1, c) == CeilDiv(i, c) + (if i == CeilDiv(i, c) * c then 1 else 0)
    decreases i
  {
    if i > c {
      CeilDivSucc(i - c, c);
      assert CeilDiv(i, c) * c == c + CeilDiv(i - c, c) * c;
    } else if i == c {
      assert CeilDiv(1, c) == 1;
    } else if i > 0 {
      MulNonneg(c - i, 1);
    }
  }

  /** Reference definition of the stride: the first frame, then the stride of
      what is left after dropping `c` frames. */
  function Strided<T>(s: seq<T>, c: Pos): seq<T>
    decreases |s|
  {
    if |s| == 0 then [] else [s[0]] + Strided(s[if c <= |s| then c else |s|..], c)
  }

  /** The stride keeps `ceil(|s| / c)` frames. */
  lemma {:induction false} StridedLength<T>(s: seq<T>, c: Pos)
    ensures |Strided(s, c)| == CeilDiv(|s|, c)
    decreases |s|
  {
    if |s| > 0 {
      if c < |s| {
        StridedLength(s[c..], c);
      } else {
        StridedLength(s[|s|..], c);
      }
    }
  }

  /** The k-th frame kept is frame `k * c`. */
  lemma {:induction false} StridedAt<T>(s: seq<T>, c: Pos, k: nat)
    requires k < |Strided(s, c)|
    ensures k * c < |s| && Strided(s, c)[k] == s[k * c]
    decreases |s|
  {
    var rest := s[if c <= |s| then c else |s|..];
    assert Strided(s, c) == [s[0]] + Strided(rest, c);
    if k > 0 {
      StridedAt(rest, c, k - 1);
      assert |rest| > 0 && c <= |s| && rest == s[c..];
      assert k * c == (k - 1) * c + c;
      assert rest[(k - 1) * c] == s[k * c];
    }
  }

  /** With `cull = 1` the frames come back unchanged. */
  lemma StridedOne<T>(s: seq<T>)
    ensures Strided(s, 1) == s
  {
    StridedLength(s, 1);
    forall k | 0 <= k < |s|
      ensures Strided(s, 1)[k] == s[k]
    {
      StridedAt(s, 1, k);
    }
  }

  /** Ten frames culled by 3 keep frames 0, 3, 6 and 9: four frames, not
      `int(10 / 3)`. */
  lemma TenFramesCulledByThree<T>(s: seq<T>)
    requires |s| == 10
    ensures Strided(s, 3) == [s[0], s[3], s[6], s[9]]
  {
    StridedLength(s, 3);
    assert CeilDiv(10, 3) == 1 + CeilDiv(7, 3) == 2 + CeilDiv(4, 3) == 3 + CeilDiv(1, 3) == 4;
    StridedAt(s, 3, 0);
    StridedAt(s, 3, 1);
    StridedAt(s, 3, 2);
    StridedAt(s, 3, 3);
  }

  lemma MulMono(a: int, b: int, c: Pos)
    requires a <= b
    ensures a * c <= b * c
  {
    MulNonneg(b - a, c);
    assert b * c - a * c == (b - a) * c;
  }

  /** A non-zero multiple of `d` is at least `|d|` away from zero. */
  lemma NoSmallMultiple(x: int, d: int)
    requires x != 0 && d != 0
    ensures x * d <= -(if d < 0 then -d else d) || x * d >= (if d < 0 then -d else d)
  {
    if x > 0 && d > 0 {
      MulNonneg(x - 1, d);
      assert (x - 1) * d == x * d - d;
    } else if x > 0 {
      MulNonneg(x - 1, -d);
      assert (x - 1) * -d == d - x * d;
    } else if d > 0 {
      MulNonneg(-x - 1, d);
      assert (-x - 1) * d == -(x * d) - d;
    } else {
      MulNonneg(-x - 1, -d);
      assert (-x - 1) * -d == x * d + d;
    }
  }

  /** `i % d == 0` when `i` is a multiple of `d`. */
  lemma MultipleMod(i: int, q: int, d: int)
    requires d != 0 && i == q * d
    ensures i % d == 0
  {
    var p, r := i / d, i % d;
    assert i == p * d + r;
    var x := q - p;
    assert x * d == r;
    if x != 0 {
      NoSmallMultiple(x, d);
      assert false;
    }
  }

  /** Inside the window `(m - 1) * c < i <= m * c`, the index `i` is divisible
      by `cull` (of magnitude `c`) exactly when it is the window's top `m * c`. */
  lemma ModZeroInWindow(i: nat, cull: int, c: Pos, m: nat)
    requires c == (if cull < 0 then -cull else cull)
    requires i <= m * c && (i > 0 ==> (m - 1) * c < i) && (i == 0 ==> m == 0)
    ensures i % cull == 0 <==> i == m * c
  {
    if i == m * c {
      var q: int := if cull < 0 then 0 - m else m;
      assert q * cull == m * c;
      MultipleMod(i, q, cull);
    }
    if i % cull == 0 {
      var q := i / cull;
      assert i == q * cull;
      var p := if cull < 0 then -q else q;
      assert p * c == q * cull;
      if p < m {
        MulMono(p, m - 1, c);
        assert false;
      }
      if p > m {
        MulMono(m + 1, p, c);
        assert false;
      }
    }
  }

  lemma BelowCeil(k: nat, n: nat, c: Pos)
    requires k < CeilDiv(n, c)
    ensures k * c < n
  {
    CeilDivIsCeiling(n, c);
    MulNonneg(CeilDiv(n, c) - 1 - k, c);
    assert (CeilDiv(n, c) - 1) * c == (CeilDiv(n, c) - 1 - k) * c + k * c;
  }

  /** `reduceFrames(frames, cull)`: keeps the frames whose index is divisible
      by `cull`; with `cull == 0` the first `i % cull` raises. */
  method ReduceFrames<T>(frames: seq<T>, cull: int) returns (r: Result<seq<T>>)
    ensures cull == 0 ==> r == (if frames == [] then Ok([]) else Raised(ZeroDivisionError))
    ensures cull != 0 ==> r == Ok(Strided(frames, if cull < 0 then -cull else cull))
  {
    var c: Pos := if cull == 0 then 1 else if cull < 0 then -cull else cull;
    var result := [];
    for i := 0 to |frames|
      invariant cull == 0 ==> i == 0
      invariant |result| == CeilDiv(i, c)
      invariant forall k :: 0 <= k < |result| ==> k * c < i && result[k] == frames[k * c]
    {
      if cull == 0 {
        return Raised(ZeroDivisionError);
      }
      CeilDivIsCeiling(i, c);
      CeilDivSucc(i, c);
      ModZeroInWindow(i, cull, c, CeilDiv(i, c));
      if i % cull == 0 {
        result := result + [frames[i]];
      }
      forall k | 0 <= k < CeilDiv(i + 1, c)
        ensures k * c < i + 1
      {
        BelowCeil(k, i + 1, c);
      }
    }
    if cull != 0 {
      StridedLength(frames, c);
      forall k | 0 <= k < |result|
        ensures result[k] == Strided(frames, c)[k]
      {
        StridedAt(frames, c, k);
      }
      assert result == Strided(frames, c);
    }
    return Ok(result);
  }
}
