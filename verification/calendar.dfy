/**
 Calendar values as the script handles them: the tweet timestamp (a naive
 date and time of day, to the second), the calendar date of a table row,
 chronological comparison, and the American `%m/%d/%Y` rendering the script
 uses both to match rows and to write correction lines.
 */
module Calendar {
  import opened Text

  datatype Date = Date(year: nat, month: nat, day: nat)

  datatype DateTime = DateTime(date: Date, hour: nat, minute: nat, second: nat)

  /** Chronological order of dates: year, then month, then day. */
  predicate DateBefore(a: Date, b: Date)
  {
    if a.year != b.year then a.year < b.year
    else if a.month != b.month then a.month < b.month
    else a.day < b.day
  }

  /** Chronological order of timestamps: the date, then hour, minute and second. */
  predicate Before(a: DateTime, b: DateTime)
  {
    if a.date != b.date then DateBefore(a.date, b.date)
    else if a.hour != b.hour then a.hour < b.hour
    else if a.minute != b.minute then a.minute < b.minute
    else a.second < b.second
  }

  /** `Before` is a strict total order, so "at or after" is its complement. */
  lemma BeforeIsStrictTotalOrder(a: DateTime, b: DateTime, c: DateTime)
    ensures !Before(a, a)
    ensures Before(a, b) ==> !Before(b, a)
    ensures Before(a, b) && Before(b, c) ==> Before(a, c)
    ensures a == b || Before(a, b) || Before(b, a)
  {
  }

  /** The script's `myfile_date_format`, `%m/%d/%Y`, rendered for a date. */
  function FormatUS(d: Date): string
  {
    Pad2(d.month) + "/" + Pad2(d.day) + "/" + ShowNat(d.year)
  }

  /** In `a + "/" + b` with `a` all digits, the first slash is right after `a`. */
  lemma FirstSlash(a: string, b: string)
    requires AllDigits(a)
    ensures (a + "/" + b)[|a|] == '/'
    ensures forall i :: 0 <= i < |a| ==> (a + "/" + b)[i] != '/'
  {
  }

  /** Two slash-separated strings whose first fields are digit strings split the same way. */
  lemma SplitAtSlash(a: string, b: string, c: string, d: string)
    requires AllDigits(a) && AllDigits(c)
    requires a + "/" + b == c + "/" + d
    ensures a == c && b == d
  {
    var s := a + "/" + b;
    FirstSlash(a, b);
    FirstSlash(c, d);
    assert |a| == |c|;
    assert a == s[..|a|];
    assert c == (c + "/" + d)[..|c|];
    assert b == s[|a| + 1..];
    assert d == (c + "/" + d)[|c| + 1..];
  }

  /**
   Distinct dates render differently, so comparing rendered dates (as the
   script does) is the same as comparing the dates themselves.
   */
  lemma FormatUSInjective(x: Date, y: Date)
    ensures FormatUS(x) == FormatUS(y) <==> x == y
  {
    if FormatUS(x) == FormatUS(y) {
      var mx, dx, yx := Pad2(x.month), Pad2(x.day), ShowNat(x.year);
      var my, dy, yy := Pad2(y.month), Pad2(y.day), ShowNat(y.year);
      assert FormatUS(x) == mx + "/" + (dx + "/" + yx);
      assert FormatUS(y) == my + "/" + (dy + "/" + yy);
      SplitAtSlash(mx, dx + "/" + yx, my, dy + "/" + yy);
      SplitAtSlash(dx, yx, dy, yy);
      Pad2RoundTrip(x.month);
      Pad2RoundTrip(y.month);
      Pad2RoundTrip(x.day);
      Pad2RoundTrip(y.day);
      ShowNatRoundTrip(x.year);
      ShowNatRoundTrip(y.year);
    }
  }
}
