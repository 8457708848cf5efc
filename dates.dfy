/**
 * The birthday display transform of the home page: the stored `YYYY-MM-DD` value
 * of the date input shown as `DD/MM/YYYY`.
 */
module Dates {
  import opened Text

  /** `formatDateToDDMMYYYY`: the three `-`-separated parts in reverse order, joined by `/`. */
  function FormatDateToDDMMYYYY(dateString: string): (r: string)
    ensures dateString == [] ==> r == []
  {
    if dateString == [] then []
    else
      var parts := Split(dateString, '-');
      if |parts| != 3 then dateString
      else parts[2] + "/" + parts[1] + "/" + parts[0]
  }

  /** A stored `year-month-day` value is shown as `day/month/year`. */
  lemma FormatDateOfIso(year: string, month: string, day: string)
    requires '-' !in year && '-' !in month && '-' !in day
    ensures FormatDateToDDMMYYYY(year + "-" + month + "-" + day) == day + "/" + month + "/" + year
  {
    SplitOfDate(year, month, day);
  }

  /** Three parts without `-`, joined by `-`, split back into those parts. */
  lemma SplitOfDate(year: string, month: string, day: string)
    requires '-' !in year && '-' !in month && '-' !in day
    ensures Split(year + "-" + month + "-" + day, '-') == [year, month, day]
  {
    var rest := month + "-" + day;
    assert year + "-" + month + "-" + day == year + ['-'] + rest;
    SplitAtFirst(year, '-', rest);
    SplitAtFirst(month, '-', day);
    assert IndexOf(day, '-').None?;
  }

  /** Any value without exactly two `-` is shown as it is. */
  lemma FormatDatePassThrough(s: string)
    requires Count(s, '-') != 2
    ensures FormatDateToDDMMYYYY(s) == s
  {
  }

  /** The display form has the length of the stored value, and holds no `-` when the value had exactly two. */
  lemma FormatDateShape(s: string)
    ensures |FormatDateToDDMMYYYY(s)| == |s|
    ensures Count(s, '-') == 2 ==> '-' !in FormatDateToDDMMYYYY(s)
  {
    var parts := Split(s, '-');
    if s != [] && |parts| == 3 {
      JoinSplit(s, '-');
      JoinOfThree(parts, '-');
      NoDashInDisplay(parts[2], parts[1], parts[0]);
    }
  }

  lemma JoinOfThree(parts: seq<string>, c: char)
    requires |parts| == 3
    ensures Join(parts, c) == parts[0] + [c] + (parts[1] + [c] + parts[2])
  {
    assert parts[1..][1..] == [parts[2]];
    assert Join(parts[1..], c) == parts[1] + [c] + parts[2];
  }

  lemma NoDashInDisplay(a: string, b: string, c: string)
    requires '-' !in a && '-' !in b && '-' !in c
    ensures '-' !in a + "/" + b + "/" + c
  {
    var r := a + "/" + b + "/" + c;
    forall i | 0 <= i < |r| ensures r[i] != '-' {
      if i < |a| {
        assert r[i] == a[i];
      } else if |a| < i < |a| + 1 + |b| {
        assert r[i] == b[i - |a| - 1];
      } else if i > |a| + 1 + |b| {
        assert r[i] == c[i - |a| - |b| - 2];
      }
    }
  }

  /** Formatting an already formatted value changes nothing. */
  lemma FormatDateIdempotent(s: string)
    ensures FormatDateToDDMMYYYY(FormatDateToDDMMYYYY(s)) == FormatDateToDDMMYYYY(s)
  {
    var r := FormatDateToDDMMYYYY(s);
    if r != s {
      FormatDateShape(s);
      CountZero(r, '-');
    }
  }
}
