/** `get_nice_duration` (app.py): a whole number of seconds printed as "H:M:S" with every
    part padded to at least two digits; the digit count `_get_n_digits` it pads by is
    Text.DigitCount. */
module Duration {
  import opened Common
  import opened Text

  /** The three parts get_nice_duration splits a number of seconds into. */
  datatype Clock = Clock(hours: int, minutes: int, seconds: int)

  /** The only failure: `math.log10` rejects the negative hour count of a negative input. */
  datatype DurationError = MathDomainError

  /** Python's `//` and `%` by a positive constant floor; Dafny's Euclidean `/` and `%`
      agree with them for a positive divisor, negative dividends included. */
  function ToClock(total: int): (c: Clock)
    ensures c.hours * 3600 + c.minutes * 60 + c.seconds == total
    ensures 0 <= c.minutes < 60 && 0 <= c.seconds < 60
    ensures c.hours < 0 <==> total < 0
  {
    Clock(total / 3600, total % 3600 / 60, total % 3600 % 60)
  }

  /** One part: printed as it is when it has two or more digits, else behind one "0". */
  function Pad(part: int): (r: Option<string>)
    ensures r.None? <==> part < 0
    ensures 0 <= part < 10 ==> r == Some(['0', DigitChar(part)])
    ensures part >= 10 ==> r == Some(Show(part))
  {
    match DigitCount(part)
    case None => None
    case Some(d) =>
      if d >= 2 then Some(Show(part))
      else
        assert "0" + Show(part) == ['0', DigitChar(part)];
        Some("0" + Show(part))
  }

  /** get_nice_duration on the whole seconds `int(_seconds)` gives. */
  function NiceDuration(total: int): (r: Result<string, DurationError>)
    ensures r.Success? <==> total >= 0
  {
    var c := ToClock(total);
    match Pad(c.hours)
    case None => Failure(MathDomainError)
    case Some(h) => Success(h + ":" + Pad(c.minutes).value + ":" + Pad(c.seconds).value)
  }

  /** Reading "H:M:S" back into seconds, each part a non-empty digit string as `int()`
      accepts it; the partner of NiceDuration. */
  function ParseDuration(s: string): Option<int>
  {
    var parts := Split(s, ":");
    if |parts| == 3 && parts[0] != [] && parts[1] != [] && parts[2] != []
      && AllDigits(parts[0]) && AllDigits(parts[1]) && AllDigits(parts[2])
    then Some(Read(parts[0]) * 3600 + Read(parts[1]) * 60 + Read(parts[2]))
    else None
  }

  /** A padded part is at least two digits long, holds no ':' and reads back as the part;
      only a part below 10 starts with '0'. */
  lemma PadReadsBack(part: nat)
    ensures var p := Pad(part).value;
      && |p| >= 2 && AllDigits(p) && Read(p) == part
      && (|p| == 2 <== part < 10)
      && (p[0] == '0' <==> part < 10)
  {
    var p := Pad(part).value;
    if part < 10 {
      assert p == "0" + Show(part);
      ReadLeadingZero(Show(part));
    } else {
      var s := Show(part);
      assert |s| >= 2 by { DigitCountIsLength(part); }
    }
    ReadShow(part);
  }

  /** The output is three digit strings joined by ':', each at least two long and
      reading back as the hours, minutes and seconds. */
  lemma {:induction false} NiceDurationParts(total: int)
    requires total >= 0
    ensures var c, parts := ToClock(total), Split(NiceDuration(total).value, ":");
      && parts == [Pad(c.hours).value, Pad(c.minutes).value, Pad(c.seconds).value]
      && Read(parts[0]) == c.hours && Read(parts[1]) == c.minutes && Read(parts[2]) == c.seconds
  {
    var c := ToClock(total);
    PadReadsBack(c.hours);
    PadReadsBack(c.minutes);
    PadReadsBack(c.seconds);
    SplitThree(Pad(c.hours).value, Pad(c.minutes).value, Pad(c.seconds).value);
  }

  lemma SplitThree(h: string, m: string, s: string)
    requires AllDigits(h) && AllDigits(m) && AllDigits(s)
    ensures Split(h + ":" + m + ":" + s, ":") == [h, m, s]
  {
    assert h + ":" + m + ":" + s == h + ":" + (m + ":" + s);
    SplitAfter(h, ":", m + ":" + s);
    SplitAfter(m, ":", s);
    SplitNone(s, ":");
  }

  /** Reading the formatted duration back yields the seconds it was made from. */
  lemma NiceDurationRoundTrip(total: int)
    requires total >= 0
    ensures ParseDuration(NiceDuration(total).value) == Some(total)
  {
    NiceDurationParts(total);
  }

  /** Worked examples: zero, one hour one minute one second, and a hundred hours. */
  lemma NiceDurationExamples()
    ensures NiceDuration(0) == Success("00:00:00")
    ensures NiceDuration(3661) == Success("01:01:01")
    ensures NiceDuration(360000) == Success("100:00:00")
    ensures NiceDuration(-1) == Failure(MathDomainError)
  {
    assert DigitChar(0) == '0' && DigitChar(1) == '1';
    assert ToClock(0) == Clock(0, 0, 0);
    assert Pad(0) == Some("00");
    assert ToClock(3661) == Clock(1, 1, 1);
    assert Pad(1) == Some("01");
    assert ToClock(360000) == Clock(100, 0, 0);
    assert Show(1) == "1";
    assert Show(10) == Show(1) + "0" == "10";
    assert Show(100) == Show(10) + "0" == "100";
    assert Pad(100) == Some("100");
    assert "00" + ":" + "00" + ":" + "00" == "00:00:00";
    assert "01" + ":" + "01" + ":" + "01" == "01:01:01";
    assert "100" + ":" + "00" + ":" + "00" == "100:00:00";
  }
}
