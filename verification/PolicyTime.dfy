/** Time-of-day windows: reading and writing the bounds, and the test against the clock. */
module PolicyTime {
  import opened Text

  const MINUTES := 1440

  // ---- layouts ----

  /** The pieces of the layouts "15:04:05.999999", "15:04:05" and "15:04". */
  datatype Chunk = Hour | Minute | Second | Fraction | Colon

  function Layout(seconds: seq<Chunk>): seq<Chunk> {
    [Hour] + ([Colon, Minute] + seconds)
  }

  const Micros: seq<Chunk> := [Colon, Second, Fraction]
  const Seconds: seq<Chunk> := [Colon, Second]

  const Layouts: seq<seq<Chunk>> := [Layout(Micros), Layout(Seconds), Layout([])]

  datatype Clock = Clock(hour: nat, minute: nat)

  predicate DigitAt(v: string, i: nat) {
    i < |v| && IsDigit(v[i])
  }

  /** One or two digits at the front, exactly two when `fixed`; and what follows. */
  function GetNum(v: string, fixed: bool): Option<(nat, string)> {
    if !DigitAt(v, 0) then None
    else if DigitAt(v, 1) then Some((DigitValue(v[0]) * 10 + DigitValue(v[1]), v[2..]))
    else if fixed then None
    else Some((DigitValue(v[0]), v[1..]))
  }

  predicate HasFraction(v: string) {
    |v| >= 2 && (v[0] == '.' || v[0] == ',') && IsDigit(v[1])
  }

  function SkipDigits(v: string): string {
    if DigitAt(v, 0) then SkipDigits(v[1..]) else v
  }

  function SkipFraction(v: string): string {
    if HasFraction(v) then SkipDigits(v[1..]) else v
  }

  /** time.Parse: a number out of range or text left over is an error, and a fraction
      after the seconds is taken even where the layout has none. */
  function ParseLayout(layout: seq<Chunk>, v: string, t: Clock): Option<Clock>
    decreases |layout|
  {
    if layout == [] then
      if v == "" then Some(t) else None
    else
      var rest := layout[1..];
      match layout[0]
      case Colon => if v != "" && v[0] == ':' then ParseLayout(rest, v[1..], t) else None
      case Hour =>
        (match GetNum(v, false)
         case None => None
         case Some(n) => if n.0 >= 24 then None else ParseLayout(rest, n.1, t.(hour := n.0)))
      case Minute =>
        (match GetNum(v, true)
         case None => None
         case Some(n) => if n.0 >= 60 then None else ParseLayout(rest, n.1, t.(minute := n.0)))
      case Second =>
        (match GetNum(v, true)
         case None => None
         case Some(n) =>
           if n.0 >= 60 then None
           else if rest != [] && rest[0] == Fraction then ParseLayout(rest, n.1, t)
           else ParseLayout(rest, SkipFraction(n.1), t))
      case Fraction => ParseLayout(rest, SkipFraction(v), t)
  }

  function FirstMatch(layouts: seq<seq<Chunk>>, v: string): Option<nat>
    decreases |layouts|
  {
    if layouts == [] then None
    else
      match ParseLayout(layouts[0], v, Clock(0, 0))
      case Some(t) => Some(t.hour * 60 + t.minute)
      case None => FirstMatch(layouts[1..], v)
  }

  /** Minutes since midnight. */
  function ParsePolicyTime(v: string): Option<nat> {
    var trimmed := TrimSpace(v);
    if trimmed == "" then None else FirstMatch(Layouts, trimmed)
  }

  // ---- what is accepted ----

  function TwoDigits(n: nat): (s: string)
    requires n < 100
    ensures |s| == 2 && AllDigits(s)
  {
    [Digit(n / 10), Digit(n % 10)]
  }

  predicate HourText(s: string, h: nat) {
    h < 24 && (s == TwoDigits(h) || (h < 10 && s == [Digit(h)]))
  }

  predicate FractionText(s: string) {
    s == "" || (|s| >= 2 && (s[0] == '.' || s[0] == ',') && AllDigits(s[1..]))
  }

  predicate SecondsText(s: string) {
    s == "" || (|s| >= 3 && s[0] == ':' && exists n: nat :: n < 60 && s[1..3] == TwoDigits(n) && FractionText(s[3..]))
  }

  /** H:MM or HH:MM, optionally with seconds, which may carry a fraction of any length. */
  ghost predicate TimeText(v: string, minutes: nat) {
    exists hour, tail :: TimeParts(v, minutes, hour, tail)
  }

  ghost predicate TimeParts(v: string, minutes: nat, hour: string, tail: string) {
    && minutes < MINUTES && HourText(hour, minutes / 60) && SecondsText(tail)
    && v == hour + ":" + TwoDigits(minutes % 60) + tail
  }

  // -- everything of that form is read back --

  lemma GetNumTwo(n: nat, rest: string, fixed: bool)
    requires n < 100
    ensures GetNum(TwoDigits(n) + rest, fixed) == Some((n, rest))
  {
    var v := TwoDigits(n) + rest;
    assert v[0] == Digit(n / 10) && v[1] == Digit(n % 10) && v[2..] == rest;
  }

  lemma GetNumHour(hour: string, h: nat, rest: string)
    requires HourText(hour, h) && rest != "" && rest[0] == ':'
    ensures GetNum(hour + rest, false) == Some((h, rest))
  {
    if hour == TwoDigits(h) {
      GetNumTwo(h, rest, false);
    } else {
      assert (hour + rest)[1] == ':' && (hour + rest)[1..] == rest;
    }
  }

  lemma {:induction false} SkipAllDigits(s: string)
    ensures SkipDigits(s) == "" <==> AllDigits(s)
  {
    if DigitAt(s, 0) {
      SkipAllDigits(s[1..]);
      assert s == [s[0]] + s[1..];
    }
  }

  lemma FractionSkipped(s: string)
    requires FractionText(s)
    ensures SkipFraction(s) == ""
  {
    if s != "" {
      assert IsDigit(s[1..][0]);
      SkipAllDigits(s[1..]);
    }
  }

  lemma ParsesMinute(rest: seq<Chunk>, n: nat, tail: string, t: Clock)
    requires n < 60
    ensures ParseLayout([Colon, Minute] + rest, ":" + TwoDigits(n) + tail, t) == ParseLayout(rest, tail, t.(minute := n))
  {
    var v := ":" + TwoDigits(n) + tail;
    assert v[1..] == TwoDigits(n) + tail;
    GetNumTwo(n, tail, true);
    assert ([Colon, Minute] + rest)[1..] == [Minute] + rest && ([Minute] + rest)[1..] == rest;
  }

  lemma ParsesFraction(rest: seq<Chunk>, tail: string, t: Clock)
    requires rest == [] || rest == [Fraction]
    ensures ParseLayout(rest, if rest == [] then SkipFraction(tail) else tail, t) == if SkipFraction(tail) == "" then Some(t) else None
  {
    if rest == [Fraction] {
      assert rest[1..] == [];
      assert ParseLayout(rest, tail, t) == ParseLayout([], SkipFraction(tail), t);
    }
  }

  /** What follows the minutes is read as seconds exactly when it is. */
  lemma ParsesSeconds(rest: seq<Chunk>, v: string, t: Clock)
    requires rest == [] || rest == [Fraction]
    ensures ParseLayout([Colon, Second] + rest, v, t) == if v != "" && SecondsText(v) then Some(t) else None
  {
    assert ([Colon, Second] + rest)[1..] == [Second] + rest && ([Second] + rest)[1..] == rest;
    if v != "" && SecondsText(v) {
      var n: nat :| n < 60 && v[1..3] == TwoDigits(n) && FractionText(v[3..]);
      assert v[1..] == TwoDigits(n) + v[3..];
      GetNumTwo(n, v[3..], true);
      FractionSkipped(v[3..]);
      ParsesFraction(rest, v[3..], t);
    } else if v != "" && v[0] == ':' && GetNum(v[1..], true).Some? && GetNum(v[1..], true).value.0 < 60 {
      GetNumSound(v[1..], true);
      var n := GetNum(v[1..], true).value;
      assert v[1..3] == TwoDigits(n.0) && v[3..] == n.1;
      ParsesFraction(rest, n.1, t);
      assert SkipFraction(n.1) != "" by { if SkipFraction(n.1) == "" { FractionSound(n.1); } }
    }
  }

  lemma ParsesTail(tail: string, t: Clock)
    ensures ParseLayout(Micros, tail, t) == ParseLayout(Seconds, tail, t) == if tail != "" && SecondsText(tail) then Some(t) else None
    ensures ParseLayout([], tail, t) == if tail == "" then Some(t) else None
  {
    ParsesSeconds([Fraction], tail, t);
    ParsesSeconds([], tail, t);
    assert [Colon, Second] + [Fraction] == Micros && [Colon, Second] + [] == Seconds;
  }

  lemma ParsesHour(rest: seq<Chunk>, hour: string, h: nat, tail: string, t: Clock)
    requires HourText(hour, h) && tail != "" && tail[0] == ':'
    ensures ParseLayout([Hour] + rest, hour + tail, t) == ParseLayout(rest, tail, t.(hour := h))
  {
    GetNumHour(hour, h, tail);
    assert ([Hour] + rest)[1..] == rest;
  }

  /** Up to the minutes all layouts agree. */
  lemma ParsesFront(rest: seq<Chunk>, v: string, minutes: nat, hour: string, tail: string)
    requires TimeParts(v, minutes, hour, tail)
    ensures ParseLayout(Layout(rest), v, Clock(0, 0)) ==
            ParseLayout(rest, tail, Clock(minutes / 60, minutes % 60))
  {
    var mid := ":" + TwoDigits(minutes % 60) + tail;
    assert v == hour + mid;
    ParsesHour([Colon, Minute] + rest, hour, minutes / 60, mid, Clock(0, 0));
    ParsesMinute(rest, minutes % 60, tail, Clock(minutes / 60, 0));
  }

  function Minutes(t: Option<Clock>): Option<nat> {
    if t.None? then None else Some(t.value.hour * 60 + t.value.minute)
  }

  function Read(seconds: seq<Chunk>, v: string): Option<nat> {
    Minutes(ParseLayout(Layout(seconds), v, Clock(0, 0)))
  }

  lemma FirstMatchOf(v: string)
    ensures FirstMatch(Layouts, v) ==
            if Read(Micros, v).Some? then Read(Micros, v)
            else if Read(Seconds, v).Some? then Read(Seconds, v)
            else Read([], v)
  {
    assert Layouts[1..] == [Layout(Seconds), Layout([])] && Layouts[1..][1..] == [Layout([])];
    assert FirstMatch([Layout([])], v) == Read([], v);
    assert FirstMatch([Layout(Seconds), Layout([])], v) == if Read(Seconds, v).Some? then Read(Seconds, v) else Read([], v);
  }

  lemma ReadParts(v: string, minutes: nat, hour: string, tail: string)
    requires TimeParts(v, minutes, hour, tail)
    ensures Read(Micros, v) == Read(Seconds, v) == if tail != "" then Some(minutes) else None
    ensures tail == "" ==> Read([], v) == Some(minutes)
  {
    ParsesFront(Micros, v, minutes, hour, tail);
    ParsesFront(Seconds, v, minutes, hour, tail);
    ParsesFront([], v, minutes, hour, tail);
    ParsesTail(tail, Clock(minutes / 60, minutes % 60));
  }

  lemma TimeTextParses(v: string, minutes: nat)
    requires TimeText(v, minutes)
    ensures FirstMatch(Layouts, v) == Some(minutes)
  {
    var hour, tail :| TimeParts(v, minutes, hour, tail);
    FirstMatchOf(v);
    ReadParts(v, minutes, hour, tail);
  }

  // -- and nothing else is --

  lemma DigitOfValue(c: char)
    requires IsDigit(c)
    ensures Digit(DigitValue(c)) == c
  {
  }

  lemma GetNumSound(v: string, fixed: bool)
    requires GetNum(v, fixed).Some?
    ensures var n := GetNum(v, fixed).value;
            n.0 < 100 && (v == TwoDigits(n.0) + n.1 || (!fixed && n.0 < 10 && v == [Digit(n.0)] + n.1))
  {
    DigitOfValue(v[0]);
    if DigitAt(v, 1) {
      DigitOfValue(v[1]);
    }
  }

  lemma HourSound(rest: seq<Chunk>, v: string) returns (hour: string, h: nat, tail: string)
    requires ParseLayout([Hour] + rest, v, Clock(0, 0)).Some?
    ensures HourText(hour, h) && v == hour + tail
    ensures ParseLayout(rest, tail, Clock(h, 0)) == ParseLayout([Hour] + rest, v, Clock(0, 0))
  {
    assert ([Hour] + rest)[1..] == rest;
    GetNumSound(v, false);
    var n := GetNum(v, false).value;
    h, tail := n.0, n.1;
    hour := if v == TwoDigits(n.0) + n.1 then TwoDigits(n.0) else [Digit(n.0)];
  }

  lemma MinuteSound(rest: seq<Chunk>, v: string, t: Clock) returns (m: nat, tail: string)
    requires ParseLayout([Colon, Minute] + rest, v, t).Some?
    ensures m < 60 && v == ":" + TwoDigits(m) + tail
    ensures ParseLayout(rest, tail, t.(minute := m)) == ParseLayout([Colon, Minute] + rest, v, t)
  {
    assert ([Colon, Minute] + rest)[1..] == [Minute] + rest && ([Minute] + rest)[1..] == rest;
    GetNumSound(v[1..], true);
    var n := GetNum(v[1..], true).value;
    m, tail := n.0, n.1;
    assert v == ":" + v[1..];
  }

  lemma FractionSound(v: string)
    requires SkipFraction(v) == ""
    ensures FractionText(v)
  {
    if HasFraction(v) {
      SkipAllDigits(v[1..]);
    }
  }

  lemma FromParts(hour: string, h: nat, m: nat, tail: string)
    requires HourText(hour, h) && m < 60 && SecondsText(tail)
    ensures TimeText(hour + (":" + TwoDigits(m) + tail), h * 60 + m)
  {
    var v := hour + (":" + TwoDigits(m) + tail);
    assert v == hour + ":" + TwoDigits(m) + tail;
    assert TimeParts(v, h * 60 + m, hour, tail);
  }

  lemma ReadSound(seconds: seq<Chunk>, v: string)
    requires (seconds == [] || seconds == Seconds || seconds == Micros) && Read(seconds, v).Some?
    ensures TimeText(v, Read(seconds, v).value)
  {
    var hour, h, mid := HourSound([Colon, Minute] + seconds, v);
    var m, tail := MinuteSound(seconds, mid, Clock(h, 0));
    ParsesTail(tail, Clock(h, m));
    FromParts(hour, h, m, tail);
    assert v == hour + (":" + TwoDigits(m) + tail);
  }

  lemma ParsedIsTimeText(v: string)
    requires FirstMatch(Layouts, v).Some?
    ensures TimeText(v, FirstMatch(Layouts, v).value)
  {
    FirstMatchOf(v);
    if Read(Micros, v).Some? {
      ReadSound(Micros, v);
    } else if Read(Seconds, v).Some? {
      ReadSound(Seconds, v);
    } else {
      ReadSound([], v);
    }
  }

  /** The reader accepts exactly the times of day, and reads hour and minute. */
  lemma ParsesExactly(v: string, minutes: nat)
    ensures ParsePolicyTime(v) == Some(minutes) <==> TimeText(TrimSpace(v), minutes)
  {
    var trimmed := TrimSpace(v);
    if TimeText(trimmed, minutes) {
      TimeTextParses(trimmed, minutes);
    } else if trimmed != "" && FirstMatch(Layouts, trimmed) == Some(minutes) {
      ParsedIsTimeText(trimmed);
    }
  }

  lemma TrimmedParses(v: string, minutes: nat)
    requires TrimSpace(v) == v && TimeText(v, minutes)
    ensures ParsePolicyTime(v) == Some(minutes)
  {
    ParsesExactly(v, minutes);
  }

  // ---- writing ----

  /** The remainder that truncates towards zero. */
  function Rem(a: int, b: int): int
    requires b > 0
  {
    if a >= 0 then a % b else -((-a) % b)
  }

  function FormatPolicyTime(minutes: int): string {
    var m := Rem(Rem(minutes, MINUTES) + MINUTES, MINUTES);
    assert 0 <= m < MINUTES;
    TwoDigits(m / 60) + ":" + TwoDigits(m % 60)
  }

  lemma WrapsLikeClock(minutes: int)
    ensures Rem(Rem(minutes, MINUTES) + MINUTES, MINUTES) == minutes % MINUTES
  {
    if minutes < 0 {
      var k := -minutes;
      assert k == k / MINUTES * MINUTES + k % MINUTES;
      if k % MINUTES == 0 {
        assert minutes == -(k / MINUTES) * MINUTES;
      } else {
        assert minutes == (-(k / MINUTES) - 1) * MINUTES + (MINUTES - k % MINUTES);
      }
    }
  }

  /** Every number of minutes is written as the time of day it falls on. */
  lemma FormatParses(minutes: int)
    ensures ParsePolicyTime(FormatPolicyTime(minutes)) == Some(minutes % MINUTES)
  {
    WrapsLikeClock(minutes);
    var m: nat := minutes % MINUTES;
    var v := FormatPolicyTime(minutes);
    TrimNothing(v);
    assert TimeParts(v, m, TwoDigits(m / 60), "");
    TrimmedParses(v, m);
  }

  function SixDigits(n: nat): (s: string)
    requires n < 1000000
    ensures |s| == 6 && AllDigits(s)
  {
    TwoDigits(n / 10000) + TwoDigits(n / 100 % 100) + TwoDigits(n % 100)
  }

  function DbSeconds(second: nat, micros: nat): (s: string)
    requires second < 60 && micros < 1000000
    ensures |s| == 10 && IsDigit(s[9])
  {
    ":" + TwoDigits(second) + ("." + SixDigits(micros))
  }

  /** A TIME value as the driver renders it. */
  function DbText(minutes: nat, second: nat, micros: nat): string
    requires minutes < MINUTES && second < 60 && micros < 1000000
  {
    TwoDigits(minutes / 60) + (":" + TwoDigits(minutes % 60) + DbSeconds(second, micros))
  }

  lemma DbTextParses(minutes: nat, second: nat, micros: nat)
    requires minutes < MINUTES && second < 60 && micros < 1000000
    ensures ParsePolicyTime(DbText(minutes, second, micros)) == Some(minutes)
  {
    DbTextTrimmed(minutes, second, micros);
    DbTextIsTime(minutes, second, micros);
    TrimmedParses(DbText(minutes, second, micros), minutes);
  }

  lemma DbTextIsTime(minutes: nat, second: nat, micros: nat)
    requires minutes < MINUTES && second < 60 && micros < 1000000
    ensures TimeText(DbText(minutes, second, micros), minutes)
  {
    var hour := TwoDigits(minutes / 60);
    MicrosText(second, micros);
    assert HourText(hour, minutes / 60);
    FromParts(hour, minutes / 60, minutes % 60, DbSeconds(second, micros));
  }

  lemma DbTextTrimmed(minutes: nat, second: nat, micros: nat)
    requires minutes < MINUTES && second < 60 && micros < 1000000
    ensures TrimSpace(DbText(minutes, second, micros)) == DbText(minutes, second, micros)
  {
    var v := DbText(minutes, second, micros);
    assert v[|v| - 1] == DbSeconds(second, micros)[9];
    TrimNothing(v);
  }

  lemma MicrosText(second: nat, micros: nat)
    requires second < 60 && micros < 1000000
    ensures SecondsText(DbSeconds(second, micros))
  {
    var frac := "." + SixDigits(micros);
    var tail := ":" + TwoDigits(second) + frac;
    assert frac[1..] == SixDigits(micros) && FractionText(frac);
    assert tail[1..3] == TwoDigits(second) && tail[3..] == frac;
  }

  /** normalisePolicyTime, on a present value. */
  function Normalise(v: string): string {
    match ParsePolicyTime(v)
    case None => v
    case Some(m) => FormatPolicyTime(m)
  }

  lemma ParsedIsOfDay(v: string, m: nat)
    requires ParsePolicyTime(v) == Some(m)
    ensures m < MINUTES
  {
    ParsesExactly(v, m);
    var hour, tail :| TimeParts(TrimSpace(v), m, hour, tail);
  }

  lemma NormalisedText(v: string, m: nat)
    requires ParsePolicyTime(v) == Some(m)
    ensures Normalise(v) == FormatPolicyTime(m) && ParsePolicyTime(FormatPolicyTime(m)) == Some(m)
  {
    ParsedIsOfDay(v, m);
    FormatParses(m);
    assert m % MINUTES == m;
  }

  /** Normalising keeps what the value means, and does nothing the second time. */
  lemma NormaliseKeepsMeaning(v: string)
    ensures ParsePolicyTime(Normalise(v)) == ParsePolicyTime(v) && Normalise(Normalise(v)) == Normalise(v)
  {
    if ParsePolicyTime(v).Some? {
      var m := ParsePolicyTime(v).value;
      NormalisedText(v, m);
      NormalisedText(FormatPolicyTime(m), m);
    }
  }

  // ---- validation ----

  datatype Validated = NoWindow | Window(start: string, end: string) | BadStart | BadEnd

  function Given(v: Option<string>): string {
    if v.None? then "" else TrimSpace(v.value)
  }

  function ValidateWindow(start: Option<string>, end: Option<string>): Validated {
    var s, e := Given(start), Given(end);
    if s == "" && e == "" then NoWindow
    else if s == "" then BadStart
    else if e == "" then BadEnd
    else if ParsePolicyTime(s).None? then BadStart
    else if ParsePolicyTime(e).None? then BadEnd
    else Window(FormatPolicyTime(ParsePolicyTime(s).value), FormatPolicyTime(ParsePolicyTime(e).value))
  }

  lemma {:induction false} TrimTwice(v: string)
    ensures TrimSpace(TrimSpace(v)) == TrimSpace(v)
  {
    var t := TrimSpace(v);
    if t != "" {
      TrimNothing(t);
    }
  }

  /** No window is given when both bounds are absent or blank; otherwise the first bound
      that is no time of day is named, the start before the end. */
  lemma ValidateExactly(start: Option<string>, end: Option<string>)
    ensures var r := ValidateWindow(start, end);
            var noStart := start.None? || AllCut(start.value, IsSpace);
            var noEnd := end.None? || AllCut(end.value, IsSpace);
            var badStart := noStart || ParsePolicyTime(start.value).None?;
            var badEnd := noEnd || ParsePolicyTime(end.value).None?;
            && (r == NoWindow <==> noStart && noEnd)
            && (r == BadStart <==> !(noStart && noEnd) && badStart && (noStart || !noEnd))
            && (r.Window? <==> !badStart && !badEnd)
  {
    if start.Some? {
      BlankIff(start.value);
      TrimTwice(start.value);
    }
    if end.Some? {
      BlankIff(end.value);
      TrimTwice(end.value);
    }
  }

  /** A window is accepted exactly when both bounds are times of day, and then what is
      stored, rendered by the database with any seconds, and read again is what was
      written; half a window is refused. */
  lemma WindowSurvives(start: string, end: string, second: nat, micros: nat)
    requires second < 60 && micros < 1000000
    ensures var r := ValidateWindow(Some(start), Some(end));
            var s, e := ParsePolicyTime(start), ParsePolicyTime(end);
            && (r.Window? <==> s.Some? && e.Some?)
            && (r.Window? ==>
                  && ParsePolicyTime(r.start) == s && ParsePolicyTime(r.end) == e
                  && s.value < MINUTES && e.value < MINUTES
                  && ParsePolicyTime(Normalise(DbText(s.value, second, micros))) == s
                  && ParsePolicyTime(Normalise(DbText(e.value, second, micros))) == e)
            && (ValidateWindow(Some(start), None).Window? == ValidateWindow(None, Some(end)).Window? == false)
  {
    TrimTwice(start);
    TrimTwice(end);
    var s, e := ParsePolicyTime(start), ParsePolicyTime(end);
    if s.Some? && e.Some? {
      BoundSurvives(start, s.value, second, micros);
      BoundSurvives(end, e.value, second, micros);
    }
  }

  lemma BoundSurvives(v: string, minutes: nat, second: nat, micros: nat)
    requires ParsePolicyTime(v) == Some(minutes) && second < 60 && micros < 1000000
    ensures minutes < MINUTES && ParsePolicyTime(FormatPolicyTime(minutes)) == Some(minutes)
    ensures ParsePolicyTime(Normalise(DbText(minutes, second, micros))) == Some(minutes)
  {
    ParsedIsOfDay(v, minutes);
    FormatParses(minutes);
    DbTextParses(minutes, second, micros);
    NormaliseKeepsMeaning(DbText(minutes, second, micros));
  }

  // ---- the window test ----

  predicate InWindow(now: nat, start: nat, end: nat) {
    if start <= end then now >= start && now < end else now >= start || now < end
  }

  /** The two branches are one arc of the clock face; so opposite windows partition the
      day, and equal bounds admit no time at all. */
  lemma WindowIsArc(now: nat, start: nat, end: nat)
    requires now < MINUTES && start < MINUTES && end < MINUTES
    ensures InWindow(now, start, end) <==> (now - start) % MINUTES < (end - start) % MINUTES
    ensures start != end ==> (InWindow(now, start, end) <==> !InWindow(now, end, start))
    ensures start == end ==> !InWindow(now, start, end)
  {
    assert (now - start) % MINUTES == if now >= start then now - start else now - start + MINUTES;
    assert (end - start) % MINUTES == if end >= start then end - start else end - start + MINUTES;
  }
}
