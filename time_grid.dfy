/** `normalizeToStep(timeHHMM, 15)`: snaps an "H:M" text to the nearest
    multiple of 15 minutes and prints it back as "HH:MM". The backend
    controller, the creation form and the reservation card carry the same
    function text, and every caller passes a step of 15; this module is the
    one definition all three use. */
module TimeGrid {
  import opened JsValues
  import opened JsStrings

  /** The grid the whole application uses, in minutes. */
  const Step: int := 15

  /** What `"H:M".split(':').map(Number)` gives for one position. */
  datatype Part = Num(n: int) | NotANumber | Absent

  /** The i-th piece of the split, read with `Number`, or `undefined` (`Absent`) when
      there is no such piece. */
  function PartAt(pieces: seq<string>, i: nat): (p: Part)
    ensures p.Absent? <==> i >= |pieces|
  {
    if i < |pieces| then
      match ToNumber(pieces[i])
      case Int(n) => Num(n)
      case NaN => NotANumber
    else Absent
  }

  /** `Math.round(total / 15) * 15`: `Math.round` rounds halves up, i.e.
      it is `floor(x + 1/2)`. The result is the multiple of 15 at most half
      a step away, ties going up. */
  function RoundToStep(total: int): (r: int)
    ensures r % Step == 0
    ensures 2 * r - Step <= 2 * total < 2 * r + Step
  {
    ((2 * total + Step) / (2 * Step)) * Step
  }

  /** JavaScript's `a % 60`: the remainder takes the sign of the dividend. */
  function Rem60(a: int): (r: int)
    ensures -60 < r < 60
    ensures a >= 0 ==> r >= 0
    ensures a < 0 ==> r <= 0
  {
    if a >= 0 then a % 60 else -((-a) % 60)
  }

  /** The printed form `${hh}:${mm}` of a rounded minute count, with
      `hh = String(Math.floor(rounded / 60)).padStart(2, '0')` and
      `mm = String(rounded % 60).padStart(2, '0')`. */
  function ClockText(rounded: int): string {
    PadStart2(IntToString(rounded / 60)) + ":" + PadStart2(IntToString(Rem60(rounded)))
  }

  /** `${NaN}:${NaN}`, what a time without ':' turns into. */
  const NaNClock: string := "NaN:NaN"

  /** `normalizeToStep(time, 15)`; `None` stands for `null`. */
  function NormalizeToStep(time: string): Option<string> {
    if time == "" then None
    else
      var pieces := Split(time, ':');
      FromParts(PartAt(pieces, 0), PartAt(pieces, 1))
  }

  /** The part of `normalizeToStep` after the split: a NaN hour or minute
      gives null, an undefined minute poisons the sum, otherwise the sum is
      rounded and printed. */
  function FromParts(h: Part, m: Part): Option<string>
    requires !h.Absent?
  {
    if h.NotANumber? || m.NotANumber? then None
    else if m.Absent? then Some(NaNClock)
    else Some(ClockText(RoundToStep(h.n * 60 + m.n)))
  }

  // ---------------------------------------------------------------------
  // rounding
  // ---------------------------------------------------------------------

  function Abs(x: int): nat {
    if x < 0 then -x else x
  }

  /** The rounded value is a grid point nearest to the total, and at most
      7 minutes away from it. */
  lemma RoundIsNearest(total: int, k: int)
    ensures Abs(total - RoundToStep(total)) <= Abs(total - k * Step)
    ensures Abs(total - RoundToStep(total)) <= 7
  {
  }

  /** A grid point is left where it is. */
  lemma RoundOfMultiple(total: int)
    requires total % Step == 0
    ensures RoundToStep(total) == total
  {
    RoundIsNearest(total, total / Step);
  }

  // ---------------------------------------------------------------------
  // parsing
  // ---------------------------------------------------------------------

  lemma DigitsHaveNoColon(s: string)
    requires AllDigits(s)
    ensures ':' !in s
  {
    forall i | 0 <= i < |s| ensures s[i] != ':' {
      assert IsDigit(s[i]);
    }
  }

  /** Two texts without ':' joined by one ':' split back into the two. */
  lemma SplitClock(hs: string, ms: string)
    requires ':' !in hs && ':' !in ms
    ensures Split(hs + ":" + ms, ':') == [hs, ms]
  {
    SplitAtFirst(hs, ':', ms);
    SplitNoSeparator(ms, ':');
    assert hs + ":" + ms == hs + [':'] + ms;
  }

  /** A text that splits into two numbers is read as hours and minutes. */
  lemma NormalizeOfParts(time: string, hs: string, ms: string, h: int, m: int)
    requires Split(time, ':') == [hs, ms]
    requires ToNumber(hs) == Int(h) && ToNumber(ms) == Int(m)
    ensures NormalizeToStep(time) == Some(ClockText(RoundToStep(h * 60 + m)))
  {
    var pieces := Split(time, ':');
    assert PartAt(pieces, 0) == Num(h);
    assert PartAt(pieces, 1) == Num(m);
    FromNumbers(h, m);
  }

  lemma FromNumbers(h: int, m: int)
    ensures FromParts(Num(h), Num(m)) == Some(ClockText(RoundToStep(h * 60 + m)))
  {
  }

  /** Two runs of digits joined by ':' are read as hours and minutes. */
  lemma NormalizeOfDigits(hs: string, ms: string, h: nat, m: nat)
    requires |hs| >= 1 && AllDigits(hs) && |ms| >= 1 && AllDigits(ms)
    requires DigitsValue(hs) == h && DigitsValue(ms) == m
    ensures NormalizeToStep(hs + ":" + ms) == Some(ClockText(RoundToStep(h * 60 + m)))
  {
    assert Split(hs + ":" + ms, ':') == [hs, ms] by {
      DigitsHaveNoColon(hs);
      DigitsHaveNoColon(ms);
      SplitClock(hs, ms);
    }
    assert ToNumber(hs) == Int(h) by { ToNumberOfDigits(hs); }
    assert ToNumber(ms) == Int(m) by { ToNumberOfDigits(ms); }
    NormalizeOfParts(hs + ":" + ms, hs, ms, h, m);
  }

  /** A number without ':' leaves the minutes undefined (not NaN), so it
      passes the NaN test and comes out as "NaN:NaN". */
  lemma NumberWithoutColon(time: string)
    requires |time| >= 1 && AllDigits(time)
    ensures NormalizeToStep(time) == Some(NaNClock)
  {
    DigitsHaveNoColon(time);
    SplitNoSeparator(time, ':');
    ToNumberOfDigits(time);
  }

  /** The missing time and "NaN:NaN" itself both give null. */
  lemma NullCases()
    ensures NormalizeToStep("") == None
    ensures NormalizeToStep(NaNClock) == None
  {
    var nan := "NaN";
    assert Split(NaNClock, ':') == [nan, nan] by {
      assert NaNClock == nan + ":" + nan;
      SplitClock(nan, nan);
    }
    NaNText(nan);
  }

  /** `Number("NaN")` is NaN. */
  lemma NaNText(nan: string)
    requires nan == "NaN"
    ensures ToNumber(nan) == JsStrings.NaN
  {
    assert nan[0] == 'N' && nan[|nan| - 1] == 'N';
    assert !IsSpace('N') && !IsDigit('N');
    TrimFixed(nan);
    assert !AllDigits(nan);
  }

  // ---------------------------------------------------------------------
  // printing and idempotence
  // ---------------------------------------------------------------------

  /** Reading a printed non-negative clock back gives the same minutes. */
  lemma ClockTextReadsBack(r: int)
    requires r >= 0
    ensures NormalizeToStep(ClockText(r)) == Some(ClockText(RoundToStep(r)))
  {
    var h, m := r / 60, r % 60;
    var hs, ms := PadStart2(NatToString(h)), PadStart2(NatToString(m));
    calc {
      NormalizeToStep(ClockText(r));
      { ClockTextOfNatural(r, h, m); }
      NormalizeToStep(hs + ":" + ms);
      { PaddedValue(h); PaddedValue(m); NormalizeOfDigits(hs, ms, h, m); }
      Some(ClockText(RoundToStep(h * 60 + m)));
      { assert h * 60 + m == r; }
      Some(ClockText(RoundToStep(r)));
    }
  }

  /** For a non-negative count the clock text is two zero-padded digit runs. */
  lemma ClockTextOfNatural(r: int, h: nat, m: nat)
    requires r >= 0 && h == r / 60 && m == r % 60
    ensures ClockText(r) == PadStart2(NatToString(h)) + ":" + PadStart2(NatToString(m))
  {
  }

  /** A printed non-negative count splits back into its hours and minutes. */
  lemma ClockTextParts(r: int)
    requires r >= 0
    ensures Split(ClockText(r), ':') == [PadStart2(NatToString(r / 60)), PadStart2(NatToString(r % 60))]
    ensures PartAt(Split(ClockText(r), ':'), 0) == Num(r / 60)
    ensures PartAt(Split(ClockText(r), ':'), 1) == Num(r % 60)
  {
    var h, m := r / 60, r % 60;
    var hs, ms := PadStart2(NatToString(h)), PadStart2(NatToString(m));
    ClockTextOfNatural(r, h, m);
    PaddedValue(h);
    PaddedValue(m);
    DigitsHaveNoColon(hs);
    DigitsHaveNoColon(ms);
    SplitClock(hs, ms);
    ToNumberOfDigits(hs);
    ToNumberOfDigits(ms);
  }

  /** On counts below 100 hours, string `<` on the printed clocks is the
      order of the counts: "HH:MM" texts sort chronologically. */
  lemma ClockOrder(r1: int, r2: int)
    requires 0 <= r1 < 6000 && 0 <= r2 < 6000
    ensures Less(ClockText(r1), ClockText(r2)) <==> r1 < r2
  {
    ClockTextOrder(r1, r2);
    MinutesOrder(r1, r2);
  }

  /** The printed clocks compare hours first, then minutes. */
  lemma ClockTextOrder(r1: int, r2: int)
    requires 0 <= r1 < 6000 && 0 <= r2 < 6000
    ensures Less(ClockText(r1), ClockText(r2)) <==> r1 / 60 < r2 / 60 || (r1 / 60 == r2 / 60 && r1 % 60 < r2 % 60)
  {
    var h1, m1, h2, m2 := r1 / 60, r1 % 60, r2 / 60, r2 % 60;
    var hs1, ms1 := PadStart2(NatToString(h1)), PadStart2(NatToString(m1));
    var hs2, ms2 := PadStart2(NatToString(h2)), PadStart2(NatToString(m2));
    ClockTextOfNatural(r1, h1, m1);
    ClockTextOfNatural(r2, h2, m2);
    PaddedOrder(h1, h2);
    PaddedOrder(m1, m2);
    PairOrder(hs1, ms1, hs2, ms2);
  }

  /** "HH:MM" texts with two-character hours compare hours first. */
  lemma PairOrder(hs1: string, ms1: string, hs2: string, ms2: string)
    requires |hs1| == 2 && |hs2| == 2
    ensures Less(hs1 + ":" + ms1, hs2 + ":" + ms2) <==> Less(hs1, hs2) || (hs1 == hs2 && Less(ms1, ms2))
  {
    assert hs1 + ":" + ms1 == hs1 + (":" + ms1) && hs2 + ":" + ms2 == hs2 + (":" + ms2);
    LessConcat(hs1, hs2, ":" + ms1, ":" + ms2);
    LessSamePrefix(":", ms1, ms2);
    LessIrreflexive(hs1);
  }

  /** Minute counts compare as their (hours, minutes) pairs. */
  lemma MinutesOrder(r1: int, r2: int)
    requires 0 <= r1 && 0 <= r2
    ensures r1 < r2 <==> r1 / 60 < r2 / 60 || (r1 / 60 == r2 / 60 && r1 % 60 < r2 % 60)
  {
  }

  /** A non-negative grid point is a fixed point. */
  lemma GridPointIsFixed(r: int)
    requires r >= 0 && r % Step == 0
    ensures NormalizeToStep(ClockText(r)) == Some(ClockText(r))
  {
    ClockTextReadsBack(r);
    RoundOfMultiple(r);
  }

  /** A printed negative count starts with '-'. */
  lemma NegativeClockText(r: int)
    requires r < 0
    ensures ClockText(r)[0] == '-'
  {
    var hours := IntToString(r / 60);
    assert hours == "-" + NatToString(-(r / 60));
    assert PadStart2(hours) == hours;
  }

  /** Normalising an already normalised time changes nothing, as long as it
      is a real clock: neither "NaN:NaN" nor a negative time. */
  lemma NormalizeIdempotent(time: string, x: string)
    requires NormalizeToStep(time) == Some(x)
    requires x != NaNClock && x[0] != '-'
    ensures NormalizeToStep(x) == Some(x)
  {
    var r := ResultIsClock(time);
    if r < 0 {
      NegativeClockText(r);
    }
    GridPointIsFixed(r);
  }

  /** Every result other than "NaN:NaN" is the text of a grid point. */
  lemma ResultIsClock(time: string) returns (r: int)
    requires NormalizeToStep(time).Some? && NormalizeToStep(time) != Some(NaNClock)
    ensures r % Step == 0 && NormalizeToStep(time) == Some(ClockText(r))
  {
    var pieces := Split(time, ':');
    var h, m := PartAt(pieces, 0), PartAt(pieces, 1);
    assert NormalizeToStep(time) == FromParts(h, m);
    r := PartsAreClock(h, m);
  }

  lemma PartsAreClock(h: Part, m: Part) returns (r: int)
    requires !h.Absent? && FromParts(h, m).Some? && FromParts(h, m) != Some(NaNClock)
    ensures r % Step == 0 && FromParts(h, m) == Some(ClockText(r))
  {
    r := RoundToStep(h.n * 60 + m.n);
  }

  // ---------------------------------------------------------------------
  // reading back a printed clock of any sign
  // ---------------------------------------------------------------------

  /** The minute count a printed clock reads back as: its hour number
      times 60 plus its minute number. A negative count with minutes loses
      an hour, since its hour is floored and its minutes are truncated. */
  function ReadBack(r: int): (b: int)
    ensures r >= 0 || Rem60(r) == 0 ==> b == r
    ensures r < 0 && Rem60(r) != 0 ==> b == r - 60
  {
    (r / 60) * 60 + Rem60(r)
  }

  /** A padded `String(i)` reads back as `i` and has no ':'. */
  lemma PaddedIntReads(i: int)
    ensures ToNumber(PadStart2(IntToString(i))) == Int(i)
    ensures ':' !in PadStart2(IntToString(i))
  {
    if i < 0 {
      NegativeTextReads(i);
    } else {
      PaddedValue(i);
      ToNumberOfDigits(PadStart2(NatToString(i)));
      DigitsHaveNoColon(PadStart2(NatToString(i)));
    }
  }

  /** A printed clock of any sign splits into its padded hour and minute
      texts, which read as its hour and minute numbers. */
  lemma ClockTextSplits(r: int)
    ensures Split(ClockText(r), ':') == [PadStart2(IntToString(r / 60)), PadStart2(IntToString(Rem60(r)))]
    ensures ToNumber(PadStart2(IntToString(r / 60))) == Int(r / 60)
    ensures ToNumber(PadStart2(IntToString(Rem60(r)))) == Int(Rem60(r))
  {
    PaddedIntReads(r / 60);
    PaddedIntReads(Rem60(r));
    SplitClock(PadStart2(IntToString(r / 60)), PadStart2(IntToString(Rem60(r))));
  }

  /** Normalising a printed clock of any sign rounds what it reads back as. */
  lemma NormalizeClockText(r: int)
    ensures NormalizeToStep(ClockText(r)) == Some(ClockText(RoundToStep(ReadBack(r))))
  {
    var h, m := r / 60, Rem60(r);
    ClockTextSplits(r);
    NormalizeOfParts(ClockText(r), PadStart2(IntToString(h)), PadStart2(IntToString(m)), h, m);
  }

  /** Different minute counts print as different clocks. */
  lemma ClockTextInjective(a: int, b: int)
    ensures ClockText(a) == ClockText(b) ==> a == b
  {
    if ClockText(a) == ClockText(b) {
      ClockTextSplits(a);
      ClockTextSplits(b);
      assert Int(a / 60) == Int(b / 60) && Int(Rem60(a)) == Int(Rem60(b));
      SameReading(a, b);
    }
  }

  /** The hour and the truncated minutes determine the count. */
  lemma SameReading(a: int, b: int)
    requires a / 60 == b / 60 && Rem60(a) == Rem60(b)
    ensures a == b
  {
    Rem60Euclid(a);
    Rem60Euclid(b);
    assert a == 60 * (a / 60) + a % 60;
    assert b == 60 * (b / 60) + b % 60;
  }

  /** JavaScript's remainder in terms of the Euclidean one: they differ by
      60 exactly when the count is negative and not a whole hour. */
  lemma Rem60Euclid(a: int)
    ensures Rem60(a) == if a >= 0 || a % 60 == 0 then a % 60 else a % 60 - 60
  {
    if a < 0 {
      var q, m := a / 60, a % 60;
      assert a == 60 * q + m && 0 <= m < 60;
      if m == 0 {
        assert -a == 60 * -q;
        assert (-a) % 60 == 0;
      } else {
        assert -a == 60 * (-q - 1) + (60 - m);
        assert (-a) % 60 == 60 - m;
      }
    }
  }

  /** A count that reads back as itself after one read-back already did. */
  lemma ReadBackSettles(r: int)
    ensures ReadBack(ReadBack(r)) == ReadBack(r) ==> ReadBack(r) == r
  {
    if r < 0 && Rem60(r) != 0 {
      assert Rem60(r - 60) == Rem60(r);
    }
  }

  /** A grid point is a fixed point exactly when it is not negative or is
      a whole number of hours ("-1:00" stays "-1:00"); a negative one with
      minutes drifts an hour further down on every normalisation. */
  lemma GridPointNormalizes(r: int)
    requires r % Step == 0
    ensures r >= 0 || Rem60(r) == 0 ==> NormalizeToStep(ClockText(r)) == Some(ClockText(r))
    ensures r < 0 && Rem60(r) != 0 ==>
      NormalizeToStep(ClockText(r)) == Some(ClockText(r - 60)) && ClockText(r - 60) != ClockText(r)
  {
    var b := GridReadBack(r);
    if r < 0 && Rem60(r) != 0 {
      ClockTextInjective(r - 60, r);
    }
  }

  /** A grid point reads back as a grid point that rounding leaves alone. */
  lemma GridReadBack(r: int) returns (b: int)
    requires r % Step == 0
    ensures b == ReadBack(r) && b % Step == 0
    ensures NormalizeToStep(ClockText(r)) == Some(ClockText(b))
  {
    b := ReadBack(r);
    if r >= 0 || Rem60(r) == 0 {
      assert b == r;
    } else {
      assert b == r - 60;
    }
    RoundOfMultiple(b);
    NormalizeClockText(r);
  }

  /** "-1:00" is its own normalisation. */
  lemma MinusOneHourIsFixed(text: string)
    requires text == "-1:00"
    ensures NormalizeToStep(text) == Some(text)
  {
    GridPointNormalizes(-60);
    MinusOneHourText(text);
  }

  lemma MinusOneHourText(text: string)
    requires text == "-1:00"
    ensures ClockText(-60) == text
  {
    assert -60 / 60 == -1 && Rem60(-60) == 0;
    var hh, mm := IntToString(-1), IntToString(0);
    assert hh == "-1" by { NatText(1, "1"); }
    assert mm == "0";
    assert PadStart2(hh) + ":" + PadStart2(mm) == text;
  }

  /** A result of the normaliser that is not itself a fixed point never
      normalises onto one: "NaN:NaN" goes to null, and a negative time with
      minutes drifts to another time that drifts again. So the fixed point a
      result reaches, if any, is the result itself. */
  lemma ResultReachesGridOnlyIfFixed(time: string, x: string, s: string)
    requires NormalizeToStep(time) == Some(x)
    requires NormalizeToStep(x) == Some(s) && NormalizeToStep(s) == Some(s)
    ensures s == x
  {
    NullCases();
    var r := ResultIsClock(time);
    var t := GridReadBack(r);
    var u := GridReadBack(t);
    ClockTextInjective(u, t);
    ReadBackSettles(r);
  }

  /** `Number(String(i))` is `i`, and `String(i)` has no ':'. */
  lemma IntTextReads(i: int)
    ensures ToNumber(IntToString(i)) == Int(i)
    ensures ':' !in IntToString(i)
  {
    if i < 0 {
      NegativeTextReads(i);
    } else {
      ToNumberOfDigits(IntToString(i));
      DigitsHaveNoColon(IntToString(i));
    }
  }

  lemma NegativeTextReads(i: int)
    requires i < 0
    ensures ToNumber(IntToString(i)) == Int(i)
    ensures ':' !in IntToString(i)
  {
    var d := NatToString(-i);
    assert IntToString(i) == "-" + d;
    SignedDigitsRead(IntToString(i), d);
  }

  /** A minus sign followed by digits has no ':' and reads as the negated
      value. */
  lemma SignedDigitsRead(s: string, d: string)
    requires |d| >= 1 && AllDigits(d) && s == "-" + d
    ensures ToNumber(s) == Int(-(DigitsValue(d) as int))
    ensures ':' !in s
  {
    SignedDigitsValue(s, d);
    DigitsHaveNoColon(d);
    forall k | 0 <= k < |s| ensures s[k] != ':' {
      if k > 0 { assert s[k] == d[k - 1]; }
    }
  }

  lemma SignedDigitsValue(s: string, d: string)
    requires |d| >= 1 && AllDigits(d) && s == "-" + d
    ensures ToNumber(s) == Int(-(DigitsValue(d) as int))
  {
    assert s[1..] == d && s[0] == '-';
    ToNumberOfNegative(s);
  }

  /** Signed hour and minute texts are read as their values. */
  lemma NormalizeOfInts(h: int, m: int)
    ensures NormalizeToStep(IntToString(h) + ":" + IntToString(m))
         == Some(ClockText(RoundToStep(h * 60 + m)))
  {
    IntTextReads(h);
    IntTextReads(m);
    SplitClock(IntToString(h), IntToString(m));
    NormalizeOfParts(IntToString(h) + ":" + IntToString(m), IntToString(h), IntToString(m), h, m);
  }

  /** A time without ':' is not idempotent: it becomes "NaN:NaN", which then
      becomes null. */
  lemma NoColonNotIdempotent(time: string)
    requires time == "930"
    ensures NormalizeToStep(time) == Some(NaNClock)
    ensures NormalizeToStep(NaNClock) == None
  {
    assert AllDigits(time);
    NumberWithoutColon(time);
    NullCases();
  }

  /** A negative time is not idempotent: "-1:50" becomes "-1:-15" ... */
  lemma NegativeDrifts(first: string, second: string)
    requires first == "-1:50" && second == "-1:-15"
    ensures NormalizeToStep(first) == Some(second)
  {
    SignedText(first, -1, 50, "1", "50");
    SignedText(second, -1, -15, "1", "15");
    assert RoundToStep(-1 * 60 + 50) == -15;
    assert -15 / 60 == -1 && Rem60(-15) == -15;
    DriftStep(first, -1, 50, -15, second);
  }

  /** ... and "-1:-15" becomes "-2:-15". */
  lemma NegativeDriftsAgain(second: string, third: string)
    requires second == "-1:-15" && third == "-2:-15"
    ensures NormalizeToStep(second) == Some(third)
  {
    SignedText(second, -1, -15, "1", "15");
    SignedText(third, -2, -15, "2", "15");
    assert RoundToStep(-1 * 60 - 15) == -75;
    assert -75 / 60 == -2 && Rem60(-75) == -15;
    DriftStep(second, -1, -15, -75, third);
  }

  /** A time written as two signed integers normalises to the text of
      their rounded total, whatever their sign. */
  lemma DriftStep(text: string, h: int, m: int, r: int, result: string)
    requires text == IntToString(h) + ":" + IntToString(m)
    requires RoundToStep(h * 60 + m) == r
    requires result == IntToString(r / 60) + ":" + IntToString(Rem60(r))
    requires |IntToString(r / 60)| >= 2 && |IntToString(Rem60(r))| >= 2
    ensures NormalizeToStep(text) == Some(result)
  {
    NormalizeOfInts(h, m);
  }

  /** A short text such as "-1:50" read as its hour and minute numbers
      (a negative hour, and a minute of either sign). */
  lemma SignedText(text: string, h: int, m: int, hd: string, md: string)
    requires || (text == "-1:50" && h == -1 && m == 50 && hd == "1" && md == "50")
             || (text == "-1:-15" && h == -1 && m == -15 && hd == "1" && md == "15")
             || (text == "-2:-15" && h == -2 && m == -15 && hd == "2" && md == "15")
    ensures text == IntToString(h) + ":" + IntToString(m)
  {
    NatText(-h, hd);
    NatText(if m < 0 then -m else m, md);
  }

  /** The decimal texts of the few numbers the drift examples print. */
  lemma NatText(n: nat, s: string)
    requires (n == 1 && s == "1") || (n == 2 && s == "2") || (n == 15 && s == "15") || (n == 50 && s == "50")
    ensures NatToString(n) == s
  {
    if n >= 10 {
      assert NatToString(n) == NatToString(n / 10) + [DigitChar(n % 10)];
    }
  }

  /** Worked examples of snapping to the nearest quarter hour. */
  lemma QuarterHourExamples(hs: string, ms: string, expected: string)
    requires || (hs == "09" && ms == "07" && expected == "09:00")
             || (hs == "09" && ms == "08" && expected == "09:15")
             || (hs == "09" && ms == "53" && expected == "10:00")
    ensures NormalizeToStep(hs + ":" + ms) == Some(expected)
  {
    if ms == "07" {
      Example(hs, ms, 9, 7, 540, expected);
    } else if ms == "08" {
      Example(hs, ms, 9, 8, 555, expected);
    } else {
      Example(hs, ms, 9, 53, 600, expected);
    }
  }

  /** There is no clamp at midnight: the last minutes of the day print as
      "24:00". */
  lemma MidnightIsNotClamped(hs: string, ms: string, expected: string)
    requires || (hs == "23" && ms == "53" && expected == "24:00")
             || (hs == "23" && ms == "59" && expected == "24:00")
    ensures NormalizeToStep(hs + ":" + ms) == Some(expected)
  {
    if ms == "53" {
      Example(hs, ms, 23, 53, 1440, expected);
    } else {
      Example(hs, ms, 23, 59, 1440, expected);
    }
  }

  lemma Example(hs: string, ms: string, h: nat, m: nat, r: nat, expected: string)
    requires h < 100 && m < 100 && r / 60 < 100
    requires hs == [DigitChar(h / 10), DigitChar(h % 10)]
    requires ms == [DigitChar(m / 10), DigitChar(m % 10)]
    requires RoundToStep(h * 60 + m) == r
    requires expected == [DigitChar(r / 60 / 10), DigitChar(r / 60 % 10), ':', DigitChar(r % 60 / 10), DigitChar(r % 60 % 10)]
    ensures NormalizeToStep(hs + ":" + ms) == Some(expected)
  {
    var a, b, c, d := DigitChar(r / 60 / 10), DigitChar(r / 60 % 10), DigitChar(r % 60 / 10), DigitChar(r % 60 % 10);
    calc {
      NormalizeToStep(hs + ":" + ms);
      { TwoDigits(h); TwoDigits(m); PaddedValue(h); PaddedValue(m); NormalizeOfDigits(hs, ms, h, m); }
      Some(ClockText(r));
      { ClockTextOfNatural(r, r / 60, r % 60); }
      Some(PadStart2(NatToString(r / 60)) + ":" + PadStart2(NatToString(r % 60)));
      { TwoDigits(r / 60); TwoDigits(r % 60); }
      Some([a, b] + ":" + [c, d]);
      { assert [a, b] + ":" + [c, d] == [a, b, ':', c, d]; }
      Some(expected);
    }
  }
}
