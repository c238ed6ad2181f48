/** `calculateStart`: parses a `(h:)m:s` start time and turns it into the
    index of the first frame and the offset in seconds. */
module Timestamp {
  import opened Builtins

  /** The pair `calculateStart` returns: the start frame index and the offset in seconds. */
  datatype Start = Start(frame: int, seconds: int)

  /** `(int(seconds * fps), seconds)`. */
  function StartAt(seconds: int, fps: Fps): Start
  {
    Start(Trunc(seconds as real * fps), seconds)
  }

  /** The value `seconds` holds after the `if`/`elif` on the number of
      components: `0 + (int(m) * 60 + int(s))` for two components, and for three
      `0 + (h * 60 * 60 + m * 60 + s)` evaluated on the component STRINGS. */
  function Seconds(parts: seq<string>): Result<PyValue>
    requires |parts| == 2 || |parts| == 3
  {
    var seconds := Int(0);
    if |parts| == 2 then
      var m :- ParseInt(parts[0]);
      var s :- ParseInt(parts[1]);
      Add(seconds, Int(m * 60 + s))
    else
      var h60 :- Mul(Str(parts[0]), Int(60));
      var h3600 :- Mul(h60, Int(60));
      var m60 :- Mul(Str(parts[1]), Int(60));
      var hm :- Add(h3600, m60);
      var hms :- Add(hm, Str(parts[2]));
      Add(seconds, hms)
  }

  /** `calculateStart(startString, fps)` as written. */
  function CalculateStart(startString: string, fps: Fps): (r: Result<Start>)
    ensures Colons(startString) == 0 || Colons(startString) > 2 ==> r == Raised(FormatException)
    ensures Colons(startString) == 2 ==> r == Raised(TypeError)
    ensures r.Ok? ==> Colons(startString) == 1 && r.value == StartAt(r.value.seconds, fps)
  {
    var parts := Split(startString);
    if |parts| == 1 || |parts| > 3 then
      Raised(FormatException)
    else
      var seconds :- Seconds(parts);
      match seconds
      case Int(n) => Ok(StartAt(n, fps))
      case Str(_) => Raised(TypeError)  // `str * float`
  }

  /** The parser with every component converted by `int()`, as the
      three-component form evidently intends. */
  function CalculateStartCorrected(startString: string, fps: Fps): (r: Result<Start>)
    ensures Colons(startString) == 0 || Colons(startString) > 2 ==> r == Raised(FormatException)
    ensures r.Ok? ==> (Colons(startString) == 1 || Colons(startString) == 2) && r.value == StartAt(r.value.seconds, fps)
    ensures r.Raised? ==> r.error == FormatException || r.error == ValueError
  {
    var parts := Split(startString);
    if |parts| == 1 || |parts| > 3 then
      Raised(FormatException)
    else if |parts| == 2 then
      var m :- ParseInt(parts[0]);
      var s :- ParseInt(parts[1]);
      Ok(StartAt(m * 60 + s, fps))
    else
      var h :- ParseInt(parts[0]);
      var m :- ParseInt(parts[1]);
      var s :- ParseInt(parts[2]);
      Ok(StartAt(h * 3600 + m * 60 + s, fps))
  }

  lemma SplitTwo(a: string, b: string)
    requires ':' !in a && ':' !in b
    ensures Split(a + ":" + b) == [a, b]
  {
    SplitJoin([a, b]);
  }

  lemma SplitThree(a: string, b: string, c: string)
    requires ':' !in a && ':' !in b && ':' !in c
    ensures Split(a + ":" + b + ":" + c) == [a, b, c]
  {
    SplitAfterPiece(a, b + ":" + c);
    SplitTwo(b, c);
    assert a + ":" + b + ":" + c == a + ":" + (b + ":" + c);
  }

  lemma ShowIntColonFree(n: int)
    ensures ':' !in ShowInt(n)
  {
    if n < 0 {
      assert ShowInt(n) == "-" + ShowNat(-n);
    }
  }

  /** A two-component `m:s` string: both parts go through `int()`, and the
      result is `(int((m*60+s)*fps), m*60+s)`, or a ValueError. */
  lemma MinutesSeconds(a: string, b: string, fps: Fps)
    requires ':' !in a && ':' !in b
    ensures ParseInt(a).Ok? && ParseInt(b).Ok? ==>
      CalculateStart(a + ":" + b, fps) == Ok(StartAt(ParseInt(a).value * 60 + ParseInt(b).value, fps))
    ensures !(ParseInt(a).Ok? && ParseInt(b).Ok?) ==>
      CalculateStart(a + ":" + b, fps) == Raised(ValueError)
  {
    SplitTwo(a, b);
  }

  /** `calculateStart(str(m) + ":" + str(s), fps)` for any integers `m`, `s`. */
  lemma MinutesSecondsOf(m: int, s: int, fps: Fps)
    ensures CalculateStart(ShowInt(m) + ":" + ShowInt(s), fps) == Ok(StartAt(m * 60 + s, fps))
  {
    ShowIntColonFree(m);
    ShowIntColonFree(s);
    ParseShowInt(m);
    ParseShowInt(s);
    MinutesSeconds(ShowInt(m), ShowInt(s), fps);
  }

  /** `"1:30"` at 30 fps starts at frame 2700, 90 seconds in. */
  lemma OneThirtyAtThirtyFps()
    ensures CalculateStart("1:30", 30.0) == Ok(Start(2700, 90))
  {
    MinutesSecondsOf(1, 30, 30.0);
    assert ShowInt(1) + ":" + ShowInt(30) == "1:30";
  }

  /** `"10:00"` at 30 fps: frame 18000, 600 seconds in. */
  lemma TenMinutesAtThirtyFps()
    ensures CalculateStart("10:00", 30.0) == Ok(Start(18000, 600))
  {
    assert DigitsValue("10") == 10 by {
      assert "10"[..1] == "1";
    }
    assert DigitsValue("00") == 0 by {
      assert "00"[..1] == "0";
    }
    assert "10" + ":" + "00" == "10:00";
    MinutesSeconds("10", "00", 30.0);
    assert StartAt(600, 30.0) == Start(18000, 600);
  }

  /** Every three-component string raises a TypeError: its parts stay
      strings and `0 + str` fails. */
  lemma ThreeComponentsRaise(h: string, m: string, s: string, fps: Fps)
    requires ':' !in h && ':' !in m && ':' !in s
    ensures CalculateStart(h + ":" + m + ":" + s, fps) == Raised(TypeError)
  {
    SplitThree(h, m, s);
  }

  /** The corrected parser reads any colon-free `h:m:s` (zero-padded parts
      included) as `int(h)*3600 + int(m)*60 + int(s)` seconds, or raises a
      ValueError when some part is not an integer. */
  lemma HoursMinutesSecondsCorrected(h: string, m: string, s: string, fps: Fps)
    requires ':' !in h && ':' !in m && ':' !in s
    ensures ParseInt(h).Ok? && ParseInt(m).Ok? && ParseInt(s).Ok? ==>
      CalculateStartCorrected(h + ":" + m + ":" + s, fps)
        == Ok(StartAt(ParseInt(h).value * 3600 + ParseInt(m).value * 60 + ParseInt(s).value, fps))
    ensures !(ParseInt(h).Ok? && ParseInt(m).Ok? && ParseInt(s).Ok?) ==>
      CalculateStartCorrected(h + ":" + m + ":" + s, fps) == Raised(ValueError)
  {
    SplitThree(h, m, s);
  }

  /** `"0:01:30"`, which the parser as written rejects with a TypeError,
      starts 90 seconds in under the corrected parser. */
  lemma ZeroOneThirtyCorrected()
    ensures CalculateStartCorrected("0:01:30", 30.0) == Ok(Start(2700, 90))
  {
    assert ParseInt("0") == Ok(0);
    assert ParseInt("01") == Ok(1) by {
      assert "01"[..1] == "0";
    }
    assert ParseInt("30") == Ok(30) by {
      assert "30"[..1] == "3";
    }
    assert "0" + ":" + "01" + ":" + "30" == "0:01:30";
    HoursMinutesSecondsCorrected("0", "01", "30", 30.0);
    assert StartAt(90, 30.0) == Start(2700, 90);
  }

  /** The parser as written raises a TypeError on `"0:01:30"`. */
  lemma ZeroOneThirtyRaises()
    ensures CalculateStart("0:01:30", 30.0) == Raised(TypeError)
  {
    assert "0" + ":" + "01" + ":" + "30" == "0:01:30";
    ThreeComponentsRaise("0", "01", "30", 30.0);
  }

  /** For canonical spellings `str(h):str(m):str(s)`. */
  lemma CorrectedHoursMinutesSeconds(h: int, m: int, s: int, fps: Fps)
    ensures CalculateStartCorrected(ShowInt(h) + ":" + ShowInt(m) + ":" + ShowInt(s), fps)
         == Ok(StartAt(h * 3600 + m * 60 + s, fps))
  {
    ShowIntColonFree(h);
    ShowIntColonFree(m);
    ShowIntColonFree(s);
    ParseShowInt(h);
    ParseShowInt(m);
    ParseShowInt(s);
    HoursMinutesSecondsCorrected(ShowInt(h), ShowInt(m), ShowInt(s), fps);
  }

  /** The correction only changes three-component strings. */
  lemma CorrectedAgreesElsewhere(startString: string, fps: Fps)
    requires Colons(startString) != 2
    ensures CalculateStartCorrected(startString, fps) == CalculateStart(startString, fps)
  {
    var parts := Split(startString);
    if |parts| == 2 {
      var m, s := ParseInt(parts[0]), ParseInt(parts[1]);
      if m.Ok? && s.Ok? {
        var r := Ok(StartAt(m.value * 60 + s.value, fps));
        assert CalculateStartCorrected(startString, fps) == r;
        assert Seconds(parts) == Ok(Int(m.value * 60 + s.value));
        assert CalculateStart(startString, fps) == r;
      } else {
        assert CalculateStartCorrected(startString, fps) == Raised(ValueError);
        assert Seconds(parts) == Raised(ValueError);
        assert CalculateStart(startString, fps) == Raised(ValueError);
      }
    }
  }
}
