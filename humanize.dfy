/**
 * `minutesToHuman`: a duration in seconds rendered as "<n> <label>" fragments
 * for whole days, hours and minutes, leaving out every unit whose count is zero.
 * The unit labels come from the localisation layer and are a parameter here.
 */
module Humanize {
  import opened Sequences

  datatype Unit = Days | Hours | Minutes

  /** The localisation callback: the label of a unit for a given count. */
  type Label = (Unit, nat) -> string

  const MinutesPerDay: nat := 1440
  const MinutesPerHour: nat := 60
  const HoursPerDay: nat := 24
  const SecondsPerMinute: nat := 60

  predicate IsDigit(c: char)
  {
    '0' <= c <= '9'
  }

  function DigitChar(d: nat): (c: char)
    requires d < 10
    ensures IsDigit(c)
  {
    "0123456789"[d]
  }

  function DigitValue(c: char): (d: nat)
    requires IsDigit(c)
    ensures d < 10
  {
    (c as int - '0' as int) as nat
  }

  predicate AllDigits(s: string)
  {
    forall i :: 0 <= i < |s| ==> IsDigit(s[i])
  }

  /** The decimal notation of a count, as PHP writes an integer into a string. */
  function Decimal(n: nat): (r: string)
    ensures |r| > 0 && AllDigits(r)
    ensures r[0] == '0' ==> n == 0
    decreases n
  {
    if n < 10 then [DigitChar(n)] else Decimal(n / 10) + [DigitChar(n % 10)]
  }

  /** Reads a string of digits back as a number. */
  function DecimalValue(s: string): nat
    requires AllDigits(s)
  {
    if s == [] then 0 else DecimalValue(DropLast(s)) * 10 + DigitValue(Last(s))
  }

  lemma {:induction false} DecimalRoundTrip(n: nat)
    ensures DecimalValue(Decimal(n)) == n
    decreases n
  {
    var r := Decimal(n);
    if n < 10 {
      assert DropLast(r) == [];
    } else {
      DecimalRoundTrip(n / 10);
      assert DropLast(r) == Decimal(n / 10);
      assert DigitValue(DigitChar(n % 10)) == n % 10;
    }
  }

  /** Whole days, the hours left over within a day, and the minutes left over within an hour. */
  datatype Parts = Parts(days: nat, hours: nat, minutes: nat)

  lemma DaysFromHours(total: nat)
    ensures (total / MinutesPerHour) / HoursPerDay == total / MinutesPerDay
  {
    var q, r := total / MinutesPerDay, total % MinutesPerDay;
    assert total == q * 1440 + r;
    assert total == (q * 24 + r / 60) * 60 + r % 60;
    assert total / 60 == q * 24 + r / 60;
  }

  /** The parts of `seconds`, truncated to whole minutes first (PHP's `%` truncates to an integer). */
  function PartsOf(seconds: nat): (p: Parts)
    ensures p.days * MinutesPerDay + p.hours * MinutesPerHour + p.minutes == seconds / SecondsPerMinute
    ensures p.hours < HoursPerDay && p.minutes < MinutesPerHour
  {
    var total := seconds / SecondsPerMinute;
    DaysFromHours(total);
    Parts(total / MinutesPerDay, (total / MinutesPerHour) % HoursPerDay, total % MinutesPerHour)
  }

  /** The decomposition into days, hours and minutes is the only one with those bounds. */
  lemma PartsUnique(seconds: nat, p: Parts)
    requires p.days * MinutesPerDay + p.hours * MinutesPerHour + p.minutes == seconds / SecondsPerMinute
    requires p.hours < HoursPerDay && p.minutes < MinutesPerHour
    ensures p == PartsOf(seconds)
  {
    var total := seconds / SecondsPerMinute;
    var q := PartsOf(seconds);
    assert total == (p.days * 24 + p.hours) * 60 + p.minutes;
    assert total == (q.days * 24 + q.hours) * 60 + q.minutes;
    assert p.days * 24 + p.hours == q.days * 24 + q.hours;
  }

  /** "<n> <label>" for one unit. */
  function Fragment(n: nat, unit: Unit, lang: Label): string
  {
    Decimal(n) + " " + lang(unit, n)
  }

  /** The fragment of one unit followed by `sep`, or nothing when the count is zero. */
  function Piece(n: nat, unit: Unit, lang: Label, sep: string): string
  {
    if n > 0 then Fragment(n, unit, lang) + sep else ""
  }

  /** The text `minutesToHuman` returns: days and hours each followed by a space, minutes last. */
  function Humanized(seconds: nat, lang: Label): (r: string)
    ensures r != "" ==> IsDigit(r[0])
    ensures var p := PartsOf(seconds);
      var lead := if p.days > 0 then p.days else if p.hours > 0 then p.hours else p.minutes;
      lead > 0 ==> |Decimal(lead)| <= |r| && r[..|Decimal(lead)|] == Decimal(lead)
  {
    var p := PartsOf(seconds);
    var lead := if p.days > 0 then p.days else if p.hours > 0 then p.hours else p.minutes;
    var d, h, m := Piece(p.days, Days, lang, " "), Piece(p.hours, Hours, lang, " "), Piece(p.minutes, Minutes, lang, "");
    var r := d + h + m;
    var unit := if p.days > 0 then Days else if p.hours > 0 then Hours else Minutes;
    var rest := if p.days > 0 then h + m else if p.hours > 0 then m else "";
    var sep := if p.days == 0 && p.hours == 0 then "" else " ";
    assert lead > 0 ==> r == Decimal(lead) + (" " + lang(unit, lead) + sep + rest);
    r
  }

  /** `minutesToHuman`: builds the text by successive appends of the day, hour and minute fragments. */
  method MinutesToHuman(seconds: nat, lang: Label) returns (r: string)
    ensures r == Humanized(seconds, lang)
  {
    var minutes := seconds / SecondsPerMinute;
    var d := minutes / MinutesPerDay;
    var h := (minutes / MinutesPerHour) % HoursPerDay;
    var m := minutes % MinutesPerHour;
    assert Parts(d, h, m) == PartsOf(seconds);
    r := "";
    if d > 0 {
      r := r + Decimal(d) + " " + lang(Days, d) + " ";
    }
    assert r == Piece(d, Days, lang, " ");
    if h > 0 {
      r := r + Decimal(h) + " " + lang(Hours, h) + " ";
    }
    assert r == Piece(d, Days, lang, " ") + Piece(h, Hours, lang, " ");
    if m > 0 {
      r := r + Decimal(m) + " " + lang(Minutes, m);
    }
  }

  /** Nothing is shown exactly when the duration is under one minute. */
  lemma HumanizedEmptyIff(seconds: nat, lang: Label)
    ensures Humanized(seconds, lang) == "" <==> seconds < SecondsPerMinute
  {
    var p := PartsOf(seconds);
    if seconds >= SecondsPerMinute {
      assert seconds / SecondsPerMinute > 0;
      assert p.days > 0 || p.hours > 0 || p.minutes > 0;
      assert |Humanized(seconds, lang)| > 0 by {
        if p.days > 0 { assert |Piece(p.days, Days, lang, " ")| > 0; }
        else if p.hours > 0 { assert |Piece(p.hours, Hours, lang, " ")| > 0; }
        else { assert |Piece(p.minutes, Minutes, lang, "")| > 0; }
      }
    }
  }

  /** A label that does not end the text with a space of its own. */
  predicate LabelEndsWord(s: string)
  {
    |s| > 0 && Last(s) != ' '
  }

  /**
   * The text ends with a space exactly when there are no leftover minutes but
   * some days or hours, given that the minutes label does not end with a space.
   */
  lemma HumanizedTrailingSpace(seconds: nat, lang: Label)
    requires PartsOf(seconds).minutes > 0 ==> LabelEndsWord(lang(Minutes, PartsOf(seconds).minutes))
    ensures var r, p := Humanized(seconds, lang), PartsOf(seconds);
      (|r| > 0 && Last(r) == ' ') <==> (p.minutes == 0 && (p.days > 0 || p.hours > 0))
  {
    var p := PartsOf(seconds);
    var r := Humanized(seconds, lang);
    var front := Piece(p.days, Days, lang, " ") + Piece(p.hours, Hours, lang, " ");
    assert r == front + Piece(p.minutes, Minutes, lang, "");
    if p.minutes > 0 {
      var tail := Fragment(p.minutes, Minutes, lang);
      assert r == front + tail;
      assert Last(r) == Last(lang(Minutes, p.minutes));
    } else if p.hours > 0 {
      assert r == Piece(p.days, Days, lang, " ") + Fragment(p.hours, Hours, lang) + " ";
    } else if p.days > 0 {
      assert r == Fragment(p.days, Days, lang) + " ";
    } else {
      assert r == "";
    }
  }

  /** 90000 seconds are one day and one hour: two fragments, each followed by a space. */
  lemma Humanized90000(lang: Label)
    ensures Humanized(90000, lang) == "1 " + lang(Days, 1) + " 1 " + lang(Hours, 1) + " "
  {
    assert PartsOf(90000) == Parts(1, 1, 0);
    assert Decimal(1) == "1";
  }
}
