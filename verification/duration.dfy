/** `format_duration` (main.py:50-59): a number of seconds as text such as
    "2 days 1 hour 5 minutes", or "less than a minute". Seconds are whole
    seconds; negative amounts are allowed, as in Python, where `divmod` by a
    positive divisor floors (Dafny's `/` and `%` agree with it there). */
module Duration {
  import opened Base
  import opened Text

  const SecondsPerMinute: int := 60
  const MinutesPerHour: int := 60
  const HoursPerDay: int := 24

  /** The outcome of the three `divmod` steps, including the discarded seconds. */
  datatype Breakdown = Breakdown(days: int, hours: int, minutes: int, seconds: int)

  /** Hours, minutes and seconds each within their clock range. */
  predicate Normalised(b: Breakdown)
  {
    0 <= b.hours < HoursPerDay && 0 <= b.minutes < MinutesPerHour && 0 <= b.seconds < SecondsPerMinute
  }

  /** The number of seconds a breakdown stands for. */
  function Total(b: Breakdown): int
  {
    b.days * 86400 + b.hours * 3600 + b.minutes * 60 + b.seconds
  }

  /** The `divmod` chain of `format_duration`: whole minutes, then hours, then days. */
  function Decompose(s: int): (b: Breakdown)
    ensures Normalised(b)
    ensures Total(b) == s
  {
    var minutes := s / SecondsPerMinute;
    var hours := minutes / MinutesPerHour;
    assert s == minutes * 60 + s % 60;
    assert minutes == hours * 60 + minutes % 60;
    assert hours == (hours / 24) * 24 + hours % 24;
    Breakdown(hours / HoursPerDay, hours % HoursPerDay, minutes % MinutesPerHour, s % SecondsPerMinute)
  }

  /** There is only one normalised breakdown of a number of seconds. */
  lemma DecomposeUnique(s: int, b: Breakdown)
    requires Normalised(b) && Total(b) == s
    ensures b == Decompose(s)
  {
    var m := b.days * 1440 + b.hours * 60 + b.minutes;
    assert s == m * 60 + b.seconds;
    assert s / 60 == m && s % 60 == b.seconds;
    var h := b.days * 24 + b.hours;
    assert m == h * 60 + b.minutes;
    assert m / 60 == h && m % 60 == b.minutes;
    assert h / 24 == b.days && h % 24 == b.hours;
  }

  // ---------------------------------------------------------------- the components that are shown

  datatype Unit = Day | Hour | Minute

  /** One shown component, such as the `3` days of "3 days". */
  datatype Part = Part(count: int, unit: Unit)

  function Rank(u: Unit): nat
  {
    match u
    case Day => 0
    case Hour => 1
    case Minute => 2
  }

  function UnitSeconds(u: Unit): int
  {
    match u
    case Day => 86400
    case Hour => 3600
    case Minute => 60
  }

  /** Every component non-zero, units in the order days, hours, minutes, each at most once,
      and hours and minutes within their clock range. */
  predicate Canonical(ps: seq<Part>)
  {
    && (forall i :: 0 <= i < |ps| ==> ps[i].count != 0)
    && (forall i, j :: 0 <= i < j < |ps| ==> Rank(ps[i].unit) < Rank(ps[j].unit))
    && (forall i :: 0 <= i < |ps| && ps[i].unit == Hour ==> 0 < ps[i].count < HoursPerDay)
    && (forall i :: 0 <= i < |ps| && ps[i].unit == Minute ==> 0 < ps[i].count < MinutesPerHour)
  }

  /** The number of seconds the shown components add up to. */
  function PartsTotal(ps: seq<Part>): int
  {
    if |ps| == 0 then 0 else ps[0].count * UnitSeconds(ps[0].unit) + PartsTotal(ps[1..])
  }

  /** The `if days: / if hours: / if minutes:` appends of `format_duration`. */
  function FromBreakdown(b: Breakdown): seq<Part>
  {
    (if b.days != 0 then [Part(b.days, Day)] else [])
    + (if b.hours != 0 then [Part(b.hours, Hour)] else [])
    + (if b.minutes != 0 then [Part(b.minutes, Minute)] else [])
  }

  /** The components `format_duration` shows for `s` seconds. */
  function Parts(s: int): seq<Part>
  {
    FromBreakdown(Decompose(s))
  }

  /** The count of the component with unit `u`, or zero when it is not shown. */
  function CountOf(ps: seq<Part>, u: Unit): int
  {
    if |ps| == 0 then 0 else if ps[0].unit == u then ps[0].count else CountOf(ps[1..], u)
  }

  lemma {:induction false} CanonicalTail(ps: seq<Part>)
    requires Canonical(ps) && |ps| > 0
    ensures Canonical(ps[1..])
    ensures forall i :: 0 <= i < |ps| - 1 ==> Rank(ps[0].unit) < Rank(ps[1..][i].unit)
  {
    forall i | 0 <= i < |ps| - 1
      ensures Rank(ps[0].unit) < Rank(ps[1..][i].unit)
    {
      assert ps[1..][i] == ps[i + 1];
    }
  }

  lemma {:induction false} CountOfAbsent(ps: seq<Part>, u: Unit)
    requires forall i :: 0 <= i < |ps| ==> ps[i].unit != u
    ensures CountOf(ps, u) == 0
  {
    if |ps| > 0 {
      assert forall i :: 0 <= i < |ps| - 1 ==> ps[1..][i] == ps[i + 1];
      CountOfAbsent(ps[1..], u);
    }
  }

  /** The first component of canonical components outranks all the others. */
  lemma CanonicalHead(ps: seq<Part>)
    requires Canonical(ps) && |ps| > 0
    ensures Canonical(ps[1..])
    ensures forall u :: Rank(u) <= Rank(ps[0].unit) ==> CountOf(ps[1..], u) == 0
    ensures ps[0].unit == Minute ==> |ps| == 1
  {
    CanonicalTail(ps);
    var tail := ps[1..];
    forall u | Rank(u) <= Rank(ps[0].unit) ensures CountOf(tail, u) == 0 {
      CountOfAbsent(tail, u);
    }
  }

  /** Showing a breakdown with a non-zero leading count puts that component first. */
  lemma FromBreakdownDays(d: int, h: int, m: int, sec: int)
    requires d != 0
    ensures FromBreakdown(Breakdown(d, h, m, sec)) == [Part(d, Day)] + FromBreakdown(Breakdown(0, h, m, sec))
  {
  }

  lemma FromBreakdownHours(h: int, m: int, sec: int)
    requires h != 0
    ensures FromBreakdown(Breakdown(0, h, m, sec)) == [Part(h, Hour)] + FromBreakdown(Breakdown(0, 0, m, sec))
  {
  }

  /** Reading the counts back out of canonical components and showing them again gives the same components. */
  lemma {:induction false} CanonicalFromCounts(ps: seq<Part>, sec: int)
    requires Canonical(ps)
    ensures FromBreakdown(Breakdown(CountOf(ps, Day), CountOf(ps, Hour), CountOf(ps, Minute), sec)) == ps
  {
    if |ps| > 0 {
      var p, tail := ps[0], ps[1..];
      CanonicalHead(ps);
      CanonicalFromCounts(tail, sec);
      var h, m := CountOf(tail, Hour), CountOf(tail, Minute);
      assert ps == [p] + tail;
      assert p.count != 0;
      match p.unit
      case Day =>
        assert CountOf(tail, Day) == 0;
        assert CountOf(ps, Day) == p.count && CountOf(ps, Hour) == h && CountOf(ps, Minute) == m;
        FromBreakdownDays(p.count, h, m, sec);
      case Hour =>
        assert CountOf(tail, Day) == 0 && CountOf(tail, Hour) == 0;
        assert CountOf(ps, Day) == 0 && CountOf(ps, Hour) == p.count && CountOf(ps, Minute) == m;
        FromBreakdownHours(p.count, m, sec);
      case Minute =>
        assert CountOf(ps, Day) == 0 && CountOf(ps, Hour) == 0 && CountOf(ps, Minute) == p.count;
        assert FromBreakdown(Breakdown(0, 0, p.count, sec)) == [p];
    }
  }

  /** What canonical components add up to, in terms of their counts. */
  lemma {:induction false} CanonicalTotal(ps: seq<Part>)
    requires Canonical(ps)
    ensures PartsTotal(ps) == CountOf(ps, Day) * 86400 + CountOf(ps, Hour) * 3600 + CountOf(ps, Minute) * 60
    ensures 0 <= CountOf(ps, Hour) < HoursPerDay && 0 <= CountOf(ps, Minute) < MinutesPerHour
  {
    if |ps| > 0 {
      CanonicalHead(ps);
      CanonicalTotal(ps[1..]);
    }
  }

  /** The shown components are canonical and add up to `s` less its leftover seconds. */
  lemma PartsMeaning(s: int)
    ensures Canonical(Parts(s))
    ensures PartsTotal(Parts(s)) == s - s % SecondsPerMinute
    ensures Parts(s) == [] <==> 0 <= s < SecondsPerMinute
  {
    var b := Decompose(s);
    var ps := Parts(s);
    assert PartsTotal([Part(b.minutes, Minute)]) == b.minutes * 60;
    assert PartsTotal([Part(b.hours, Hour)] + (if b.minutes != 0 then [Part(b.minutes, Minute)] else []))
        == b.hours * 3600 + b.minutes * 60 by {
      var t := [Part(b.hours, Hour)] + (if b.minutes != 0 then [Part(b.minutes, Minute)] else []);
      assert t[1..] == (if b.minutes != 0 then [Part(b.minutes, Minute)] else []);
    }
    var hm := (if b.hours != 0 then [Part(b.hours, Hour)] else []) + (if b.minutes != 0 then [Part(b.minutes, Minute)] else []);
    assert PartsTotal(hm) == b.hours * 3600 + b.minutes * 60;
    if b.days != 0 {
      assert ps == [Part(b.days, Day)] + hm;
      assert ps[1..] == hm;
    } else {
      assert ps == hm;
    }
  }

  /** Any canonical components adding up to `s` less its leftover seconds are the shown ones. */
  lemma PartsUnique(s: int, ps: seq<Part>)
    requires Canonical(ps)
    requires PartsTotal(ps) == s - s % SecondsPerMinute
    ensures ps == Parts(s)
  {
    var b := Breakdown(CountOf(ps, Day), CountOf(ps, Hour), CountOf(ps, Minute), s % SecondsPerMinute);
    CanonicalFromCounts(ps, s % SecondsPerMinute);
    CanonicalTotal(ps);
    DecomposeUnique(s, b);
  }

  // ---------------------------------------------------------------- the text

  const LessThanAMinute: string := "less than a minute"

  function UnitName(u: Unit): string
  {
    match u
    case Day => "day"
    case Hour => "hour"
    case Minute => "minute"
  }

  /** The unit as written after a count: singular exactly when the count is 1. */
  function UnitWord(p: Part): string
  {
    UnitName(p.unit) + (if p.count != 1 then "s" else "")
  }

  /** One component as `format_duration` writes it, such as "3 days". */
  function RenderPart(p: Part): string
  {
    IntToDecimal(p.count) + " " + UnitWord(p)
  }

  function RenderParts(ps: seq<Part>): (words: seq<string>)
    ensures |words| == |ps|
  {
    if |ps| == 0 then [] else [RenderPart(ps[0])] + RenderParts(ps[1..])
  }

  /** The text `format_duration` returns for `s` whole seconds. */
  function Format(s: int): string
  {
    var joined := Join(RenderParts(Parts(s)), " ");
    if joined == "" then LessThanAMinute else joined
  }

  // ---------------------------------------------------------------- reading the text back

  /** The unit a word names and whether it is the plural form. */
  function ParseUnitWord(w: string): Option<(Unit, bool)>
  {
    if w == "day" then Some((Day, false)) else if w == "days" then Some((Day, true))
    else if w == "hour" then Some((Hour, false)) else if w == "hours" then Some((Hour, true))
    else if w == "minute" then Some((Minute, false)) else if w == "minutes" then Some((Minute, true))
    else None
  }

  /** Reads count/unit word pairs, accepting a unit only in the number the count calls for. */
  function ParseWords(ws: seq<string>): Option<seq<Part>>
    decreases |ws|
  {
    if |ws| == 0 then Some([])
    else if |ws| == 1 then None
    else
      match (ParseInt(ws[0]), ParseUnitWord(ws[1]), ParseWords(ws[2..]))
      case (Some(n), Some((u, plural)), Some(rest)) =>
        if plural == (n != 1) then Some([Part(n, u)] + rest) else None
      case _ => None
  }

  /** An independent reading of a duration text back into its components. */
  function ParseDuration(text: string): Option<seq<Part>>
  {
    if text == LessThanAMinute then Some([]) else ParseWords(SplitOn(text, ' '))
  }

  /** The words of the rendered components: count, unit, count, unit, ... */
  function PartWords(ps: seq<Part>): (ws: seq<string>)
    ensures |ws| == 2 * |ps|
    ensures forall i :: 0 <= i < |ws| ==> ' ' !in ws[i]
  {
    if |ps| == 0 then [] else [IntToDecimal(ps[0].count), UnitWord(ps[0])] + PartWords(ps[1..])
  }

  lemma {:induction false} RenderedWords(ps: seq<Part>)
    requires |ps| > 0
    ensures Join(RenderParts(ps), " ") == Join(PartWords(ps), " ")
    decreases |ps|
  {
    var ws := PartWords(ps);
    assert ws[1..] == [UnitWord(ps[0])] + PartWords(ps[1..]);
    assert ws[2..] == PartWords(ps[1..]);
    if |ps| > 1 {
      RenderedWords(ps[1..]);
      assert RenderParts(ps)[1..] == RenderParts(ps[1..]);
    }
  }

  /** Shown components begin with the first count's numeral. */
  lemma RenderedStart(ps: seq<Part>)
    requires |ps| > 0
    ensures Join(RenderParts(ps), " ")[0] == IntToDecimal(ps[0].count)[0]
  {
    var rp := RenderParts(ps);
    assert rp[0] == RenderPart(ps[0]);
    assert Join(rp, " ")[0] == rp[0][0];
  }

  lemma UnitWordRoundTrip(p: Part)
    ensures ParseUnitWord(UnitWord(p)) == Some((p.unit, p.count != 1))
  {
    match p.unit
    case Day => if p.count == 1 { assert UnitWord(p) == "day"; } else { assert UnitWord(p) == "days"; }
    case Hour => if p.count == 1 { assert UnitWord(p) == "hour"; } else { assert UnitWord(p) == "hours"; }
    case Minute => if p.count == 1 { assert UnitWord(p) == "minute"; } else { assert UnitWord(p) == "minutes"; }
  }

  lemma {:induction false} ParsePartWords(ps: seq<Part>)
    ensures ParseWords(PartWords(ps)) == Some(ps)
    decreases |ps|
  {
    if |ps| > 0 {
      var ws := PartWords(ps);
      IntRoundTrip(ps[0].count);
      assert ws[0] == IntToDecimal(ps[0].count) && ws[1] == UnitWord(ps[0]);
      UnitWordRoundTrip(ps[0]);
      assert ws[2..] == PartWords(ps[1..]);
      ParsePartWords(ps[1..]);
      assert [ps[0]] + ps[1..] == ps;
    }
  }

  /** "less than a minute" is shown exactly when `s` is under a minute and not negative. */
  lemma FormatLessThanAMinute(s: int)
    ensures Format(s) == LessThanAMinute <==> 0 <= s < SecondsPerMinute
  {
    PartsMeaning(s);
    var ps := Parts(s);
    if |ps| > 0 {
      RenderedStart(ps);
      var joined := Join(RenderParts(ps), " ");
      assert joined[0] != 'l';
    }
  }

  /** The text reads back as exactly the shown components: non-zero ones only, days before hours
      before minutes, separated by single spaces, each unit singular exactly when its count is 1. */
  lemma FormatRoundTrip(s: int)
    ensures ParseDuration(Format(s)) == Some(Parts(s))
  {
    FormatLessThanAMinute(s);
    var ps := Parts(s);
    if |ps| > 0 {
      RenderedWords(ps);
      SplitOnJoin(PartWords(ps), ' ');
      ParsePartWords(ps);
    }
  }
}
