/** The analysis queries of `run_sql_queries` (extraction.py:99-107) over the
    `user_history` table, whose rows are the records of the extraction in
    insertion order.

    SQLite evaluates a GROUP BY on an unindexed table by sorting the rows
    on the group key, so the groups come out in ascending key order; a
    DISTINCT on a plain scan keeps the first row of each value in scan
    order. The model fixes both orders that way. */
module Queries {
  import opened Wrappers
  import opened Chars
  import opened Timestamps
  import opened Extraction
  import opened TextOrder
  import opened Chronology

  /** One row of a `GROUP BY key` query with `COUNT(*)`. */
  datatype Group = Group(key: string, count: nat)

  // ---------------------------------------------------------------------
  // Keys in ascending order, each once

  predicate Ascending(ks: seq<string>) {
    forall i, j :: 0 <= i < j < |ks| ==> Below(ks[i], ks[j])
  }

  /** Places `k` among sorted keys, unless it is already there. */
  function InsertKey(k: string, ks: seq<string>): (r: seq<string>)
    requires Ascending(ks)
    ensures Ascending(r)
    ensures forall x :: x in r <==> x == k || x in ks
    decreases |ks|
  {
    if ks == [] then [k]
    else if k == ks[0] then ks
    else if Below(k, ks[0]) then
      assert forall j :: 0 < j < |ks| ==> Below(k, ks[j]) by {
        forall j | 0 < j < |ks| ensures Below(k, ks[j]) {
          BelowTransitive(k, ks[0], ks[j]);
        }
      }
      [k] + ks
    else
      BelowTotal(k, ks[0]);
      assert forall x :: x in ks[1..] ==> Below(ks[0], x);
      [ks[0]] + InsertKey(k, ks[1..])
  }

  /** The different keys, ascending: the groups of a GROUP BY. */
  function SortedKeys(keys: seq<string>): (r: seq<string>)
    ensures Ascending(r)
    ensures forall x :: x in r <==> x in keys
    decreases |keys|
  {
    if keys == [] then []
    else InsertKey(keys[|keys| - 1], SortedKeys(keys[..|keys| - 1]))
  }

  // ---------------------------------------------------------------------
  // GROUP BY with COUNT(*)

  /** A row for each of `ks`, with its number of occurrences in `m`. */
  function CountRows(ks: seq<string>, m: multiset<string>): (r: seq<Group>)
    ensures |r| == |ks|
    ensures forall i :: 0 <= i < |ks| ==> r[i].key == ks[i] && r[i].count == m[ks[i]]
    decreases |ks|
  {
    if ks == [] then [] else [Group(ks[0], m[ks[0]])] + CountRows(ks[1..], m)
  }

  /** `SELECT key, COUNT(*) ... GROUP BY key` over the keys of the rows:
      one row per different key, in ascending key order, counting the rows
      that have that key. */
  function GroupCount(keys: seq<string>): (r: seq<Group>)
    ensures forall i, j :: 0 <= i < j < |r| ==> Below(r[i].key, r[j].key)
    ensures forall i :: 0 <= i < |r| ==> r[i].key in keys && r[i].count == multiset(keys)[r[i].key]
    ensures forall k :: k in keys ==> exists i :: 0 <= i < |r| && r[i].key == k
  {
    var ks := SortedKeys(keys);
    var r := CountRows(ks, multiset(keys));
    assert forall k :: k in keys ==> exists i :: 0 <= i < |r| && r[i].key == k by {
      forall k | k in keys ensures exists i :: 0 <= i < |r| && r[i].key == k {
        var i :| 0 <= i < |ks| && ks[i] == k;
        assert r[i].key == k;
      }
    }
    r
  }

  /** The sum of the counts of some groups. */
  function Total(gs: seq<Group>): nat
    decreases |gs|
  {
    if gs == [] then 0 else gs[0].count + Total(gs[1..])
  }

  /** Every row lands in exactly one group: the counts add up to the
      number of rows. */
  lemma GroupCountTotal(keys: seq<string>)
    ensures Total(GroupCount(keys)) == |keys|
  {
    var ks := SortedKeys(keys);
    assert forall i, j :: 0 <= i < j < |ks| ==> ks[i] != ks[j] by {
      forall i, j | 0 <= i < j < |ks| ensures ks[i] != ks[j] {
        BelowIrreflexive(ks[i]);
      }
    }
    CountsCover(ks, keys);
  }

  lemma {:induction false} CountsCover(ks: seq<string>, keys: seq<string>)
    requires forall i, j :: 0 <= i < j < |ks| ==> ks[i] != ks[j]
    requires forall k :: k in keys ==> k in ks
    ensures Total(CountRows(ks, multiset(keys))) == |keys|
    decreases |keys|
  {
    if keys == [] {
      NoCounts(ks);
    } else {
      var init, last := keys[..|keys| - 1], keys[|keys| - 1];
      assert keys == init + [last];
      assert forall k :: k in init ==> k in keys;
      CountsCover(ks, init);
      CountOneMore(ks, multiset(init), last);
    }
  }

  lemma {:induction false} NoCounts(ks: seq<string>)
    ensures Total(CountRows(ks, multiset{})) == 0
    decreases |ks|
  {
    if ks != [] {
      NoCounts(ks[1..]);
    }
  }

  /** One more row with key `x` adds one to the total if `x` has a group. */
  lemma {:induction false} CountOneMore(ks: seq<string>, m: multiset<string>, x: string)
    requires forall i, j :: 0 <= i < j < |ks| ==> ks[i] != ks[j]
    ensures Total(CountRows(ks, m + multiset{x})) == Total(CountRows(ks, m)) + (if x in ks then 1 else 0)
    decreases |ks|
  {
    if ks != [] {
      assert forall i, j :: 0 <= i < j < |ks[1..]| ==> ks[1..][i] != ks[1..][j] by {
        forall i, j | 0 <= i < j < |ks[1..]| ensures ks[1..][i] != ks[1..][j] {
          assert ks[1..][i] == ks[i + 1] && ks[1..][j] == ks[j + 1];
        }
      }
      CountOneMore(ks[1..], m, x);
      assert x in ks <==> x == ks[0] || x in ks[1..];
      if x == ks[0] {
        assert x !in ks[1..];
      }
    }
  }

  // ---------------------------------------------------------------------
  // ORDER BY count DESC

  predicate ByCountDescending(gs: seq<Group>) {
    forall i, j :: 0 <= i < j < |gs| ==> gs[i].count >= gs[j].count
  }

  /** Places a group before the first one with a count not above its own. */
  function InsertByCount(g: Group, gs: seq<Group>): seq<Group>
    decreases |gs|
  {
    if gs == [] || g.count >= gs[0].count then [g] + gs
    else [gs[0]] + InsertByCount(g, gs[1..])
  }

  /** `ORDER BY count DESC`: the groups, the largest counts first. */
  function RankByCount(gs: seq<Group>): seq<Group>
    decreases |gs|
  {
    if gs == [] then [] else InsertByCount(gs[0], RankByCount(gs[1..]))
  }

  /** Inserting adds the group and nothing else. */
  lemma {:induction false} InsertMembers(g: Group, gs: seq<Group>)
    ensures multiset(InsertByCount(g, gs)) == multiset(gs) + multiset{g}
    decreases |gs|
  {
    if gs != [] && g.count < gs[0].count {
      InsertMembers(g, gs[1..]);
      assert gs == [gs[0]] + gs[1..];
    }
  }

  /** Inserting into descending groups keeps them descending. */
  lemma {:induction false} InsertSorted(g: Group, gs: seq<Group>)
    requires ByCountDescending(gs)
    ensures ByCountDescending(InsertByCount(g, gs))
    decreases |gs|
  {
    if gs != [] && g.count < gs[0].count {
      var rest := InsertByCount(g, gs[1..]);
      InsertSorted(g, gs[1..]);
      InsertMembers(g, gs[1..]);
      forall x | x in rest ensures x.count <= gs[0].count {
        assert x in multiset(rest);
      }
    }
  }

  /** Ranking puts the groups in descending order of count. */
  lemma {:induction false} RankSorted(gs: seq<Group>)
    ensures ByCountDescending(RankByCount(gs))
    decreases |gs|
  {
    if gs != [] {
      RankSorted(gs[1..]);
      InsertSorted(gs[0], RankByCount(gs[1..]));
    }
  }

  /** Ranking keeps the groups, each as often as it was there. */
  lemma {:induction false} RankMembers(gs: seq<Group>)
    ensures multiset(RankByCount(gs)) == multiset(gs)
    decreases |gs|
  {
    if gs != [] {
      RankMembers(gs[1..]);
      InsertMembers(gs[0], RankByCount(gs[1..]));
      assert gs == [gs[0]] + gs[1..];
    }
  }

  // ---------------------------------------------------------------------
  // The table and its columns

  /** The rows as the extraction stores them: every date a canonical
      timestamp of a valid calendar date. */
  predicate Stored(rows: seq<Record>) {
    forall i :: 0 <= i < |rows| ==> IsCanonical(rows[i].date) && Valid(ParseCanonical(rows[i].date))
  }

  /** The records of a successful extraction are such rows. */
  lemma ExtractionStored(lines: seq<string>)
    requires Extract(lines).Success?
    ensures Stored(Extract(lines).value)
  {
    ExtractedRecords(lines);
    var rows := Extract(lines).value;
    forall i | 0 <= i < |rows|
      ensures IsCanonical(rows[i].date) && Valid(ParseCanonical(rows[i].date))
    {
      assert rows[i] in rows;
    }
  }

  function Emails(rows: seq<Record>): seq<string>
  {
    seq(|rows|, i requires 0 <= i < |rows| => rows[i].email)
  }

  /** `date(date)` on a stored timestamp: its calendar day as `YYYY-MM-DD`. */
  function Day(s: string): (r: string)
    requires IsCanonical(s) && Valid(ParseCanonical(s))
    ensures r == DateText(ParseCanonical(s))
  {
    var t := ParseCanonical(s);
    CanonicalRoundTrip(s);
    DateLayout(t);
    assert s == DateText(t) + " " + ClockText(t);
    s[..10]
  }

  /** `strftime('%Y-%m', date)` on a stored timestamp. */
  function Month(s: string): (r: string)
    requires IsCanonical(s) && Valid(ParseCanonical(s))
    ensures r == Pad4(ParseCanonical(s).year) + "-" + Pad2(ParseCanonical(s).month)
  {
    var t := ParseCanonical(s);
    CanonicalRoundTrip(s);
    DateLayout(t);
    assert s == DateText(t) + " " + ClockText(t);
    assert s[..7] == DateText(t)[..7];
    assert DateText(t)[..7] == Pad4(t.year) + "-" + Pad2(t.month);
    s[..7]
  }

  /** The month of a timestamp is the first seven characters of its day. */
  lemma MonthOfDay(s: string)
    requires IsCanonical(s) && Valid(ParseCanonical(s))
    ensures Month(s) == Day(s)[..7]
  {
  }

  /** Days sort as text in calendar order. */
  lemma DayOrder(a: string, b: string)
    requires IsCanonical(a) && Valid(ParseCanonical(a))
    requires IsCanonical(b) && Valid(ParseCanonical(b))
    ensures Below(Day(a), Day(b)) <==> DayBefore(ParseCanonical(a), ParseCanonical(b))
  {
    var x, y := Day(a), Day(b);
    assert x == a[..10] && y == b[..10];
    assert x[0..4] == a[0..4] && x[5..7] == a[5..7] && x[8..10] == a[8..10];
    assert y[0..4] == b[0..4] && y[5..7] == b[5..7] && y[8..10] == b[8..10];
    DatePartOrder(x, y);
    assert x[10..] == [] && y[10..] == [];
  }

  /** Months sort as text in calendar order. */
  lemma MonthOrder(a: string, b: string)
    requires IsCanonical(a) && Valid(ParseCanonical(a))
    requires IsCanonical(b) && Valid(ParseCanonical(b))
    ensures Below(Month(a), Month(b)) <==> MonthBefore(ParseCanonical(a), ParseCanonical(b))
  {
    var x, y := Month(a), Month(b);
    assert x == a[..7] && y == b[..7];
    assert x[0..4] == a[0..4] && x[5..7] == a[5..7];
    assert y[0..4] == b[0..4] && y[5..7] == b[5..7];
    assert x[0..] == x && y[0..] == y;
    FieldThen(x, y, 0, 4);
    LastField(x, y, 5);
  }

  function Days(rows: seq<Record>): seq<string>
    requires Stored(rows)
  {
    seq(|rows|, i requires 0 <= i < |rows| => Day(rows[i].date))
  }

  function Months(rows: seq<Record>): seq<string>
    requires Stored(rows)
  {
    seq(|rows|, i requires 0 <= i < |rows| => Month(rows[i].date))
  }

  // ---------------------------------------------------------------------
  // 1. Unique Emails: SELECT DISTINCT email

  /** The different values, each at the place of its first occurrence. */
  function Distinct(xs: seq<string>): (r: seq<string>)
    ensures forall i, j :: 0 <= i < j < |r| ==> r[i] != r[j]
    ensures forall x :: x in r <==> x in xs
    decreases |xs|
  {
    if xs == [] then []
    else
      var r := Distinct(xs[..|xs| - 1]);
      if xs[|xs| - 1] in r then r else r + [xs[|xs| - 1]]
  }

  /** Distinct is never longer than its input, and exactly as long when the
      input has no repeated value. */
  lemma {:induction false} DistinctLength(xs: seq<string>)
    ensures |Distinct(xs)| <= |xs|
    ensures |Distinct(xs)| == |xs| <==> forall i, j :: 0 <= i < j < |xs| ==> xs[i] != xs[j]
    decreases |xs|
  {
    if xs != [] {
      var n := |xs| - 1;
      var init, last := xs[..n], xs[n];
      DistinctLength(init);
      if last in init {
        var k :| 0 <= k < n && init[k] == last;
        assert xs[k] == xs[n];
      } else if |Distinct(init)| == n {
        forall i, j | 0 <= i < j < |xs| ensures xs[i] != xs[j] {
          if j < n {
            assert xs[i] == init[i] && xs[j] == init[j];
          } else {
            assert xs[i] == init[i];
          }
        }
      } else {
        var i, j :| 0 <= i < j < n && init[i] == init[j];
        assert xs[i] == xs[j];
      }
    }
  }

  /** Distinct keeps the order of first occurrences. */
  lemma {:induction false} DistinctOrder(xs: seq<string>)
    ensures forall i, j :: 0 <= i < j < |Distinct(xs)| ==>
      IndexOf(xs, Distinct(xs)[i]).value < IndexOf(xs, Distinct(xs)[j]).value
    decreases |xs|
  {
    if xs != [] {
      var init, last := xs[..|xs| - 1], xs[|xs| - 1];
      DistinctOrder(init);
      forall x | x in init ensures IndexOf(xs, x) == IndexOf(init, x) {
        IndexOfPrefix(init, last, x);
      }
      if last !in init {
        IndexOfLast(init, last);
      }
    }
  }

  /** Appending does not move the first occurrence of what was there. */
  lemma {:induction false} IndexOfPrefix(xs: seq<string>, y: string, x: string)
    requires x in xs
    ensures IndexOf(xs + [y], x) == IndexOf(xs, x)
    decreases |xs|
  {
    assert (xs + [y])[0] == xs[0];
    if xs[0] != x {
      assert (xs + [y])[1..] == xs[1..] + [y];
      IndexOfPrefix(xs[1..], y, x);
    }
  }

  /** A new value first occurs where it is appended. */
  lemma IndexOfLast(xs: seq<string>, y: string)
    requires y !in xs
    ensures IndexOf(xs + [y], y) == Some(|xs|)
  {
    var i := IndexOf(xs + [y], y).value;
    assert (xs + [y])[|xs|] == y;
  }

  function UniqueEmails(rows: seq<Record>): (r: seq<string>)
    ensures forall i, j :: 0 <= i < j < |r| ==> r[i] != r[j]
    ensures forall e :: e in r <==> exists i :: 0 <= i < |rows| && rows[i].email == e
  {
    var es := Emails(rows);
    assert forall e :: e in es <==> exists i :: 0 <= i < |rows| && rows[i].email == e by {
      forall e | e in es ensures exists i :: 0 <= i < |rows| && rows[i].email == e {
        var i :| 0 <= i < |es| && es[i] == e;
        assert rows[i].email == e;
      }
      forall e, i | 0 <= i < |rows| && rows[i].email == e ensures e in es {
        assert es[i] == e;
      }
    }
    Distinct(es)
  }

  // ---------------------------------------------------------------------
  // 2. Emails per Day: SELECT date(date) AS day, COUNT(*) ... GROUP BY day

  function EmailsPerDay(rows: seq<Record>): seq<Group>
    requires Stored(rows)
  {
    GroupCount(Days(rows))
  }

  /** One row per day with email, in calendar order, counting the emails
      of that day; the counts add up to the number of emails. */
  lemma EmailsPerDayCounts(rows: seq<Record>)
    requires Stored(rows)
    ensures var r := EmailsPerDay(rows);
      && (forall i, j :: 0 <= i < j < |r| ==> Below(r[i].key, r[j].key))
      && (forall i :: 0 <= i < |r| ==> r[i].count == multiset(Days(rows))[r[i].key] > 0)
      && (forall k :: 0 <= k < |rows| ==> exists i :: 0 <= i < |r| && r[i].key == Day(rows[k].date))
      && Total(r) == TotalEmails(rows)
  {
    GroupCountTotal(Days(rows));
    var r := EmailsPerDay(rows);
    forall k | 0 <= k < |rows|
      ensures exists i :: 0 <= i < |r| && r[i].key == Day(rows[k].date)
    {
      assert Days(rows)[k] in Days(rows);
    }
  }

  // ---------------------------------------------------------------------
  // 3. First and Last Email per User:
  //    SELECT email, MIN(date), MAX(date) ... GROUP BY email

  datatype Span = Span(email: string, first: string, last: string)

  /** The dates of the rows of one sender, in table order. */
  function DatesOf(rows: seq<Record>, e: string): (r: seq<string>)
    ensures forall x :: x in r <==> exists i :: 0 <= i < |rows| && rows[i].email == e && rows[i].date == x
    decreases |rows|
  {
    if rows == [] then []
    else
      var rest := DatesOf(rows[1..], e);
      assert forall x :: x in rest <==> exists i :: 1 <= i < |rows| && rows[i].email == e && rows[i].date == x by {
        forall x | x in rest
          ensures exists i :: 1 <= i < |rows| && rows[i].email == e && rows[i].date == x
        {
          var i :| 0 <= i < |rows[1..]| && rows[1..][i].email == e && rows[1..][i].date == x;
          assert rows[i + 1] == rows[1..][i];
        }
        forall x, i | 1 <= i < |rows| && rows[i].email == e && rows[i].date == x
          ensures x in rest
        {
          assert rows[1..][i - 1] == rows[i];
        }
      }
      (if rows[0].email == e then [rows[0].date] else []) + rest
  }

  /** MIN: the value that sorts first. */
  function Least(xs: seq<string>): (m: string)
    requires xs != []
    ensures m in xs && forall x :: x in xs ==> AtMost(m, x)
    decreases |xs|
  {
    if |xs| == 1 then xs[0]
    else
      var m := Least(xs[1..]);
      assert forall x :: x in xs ==> x == xs[0] || x in xs[1..];
      BelowTotal(xs[0], m);
      if AtMost(xs[0], m) then
        assert forall x :: x in xs[1..] ==> AtMost(xs[0], x) by {
          forall x | x in xs[1..] ensures AtMost(xs[0], x) {
            AtMostTransitive(xs[0], m, x);
          }
        }
        xs[0]
      else m
  }

  /** MAX: the value that sorts last. */
  function Greatest(xs: seq<string>): (m: string)
    requires xs != []
    ensures m in xs && forall x :: x in xs ==> AtMost(x, m)
    decreases |xs|
  {
    if |xs| == 1 then xs[0]
    else
      var m := Greatest(xs[1..]);
      assert forall x :: x in xs ==> x == xs[0] || x in xs[1..];
      BelowTotal(xs[0], m);
      if AtMost(m, xs[0]) then
        assert forall x :: x in xs[1..] ==> AtMost(x, xs[0]) by {
          forall x | x in xs[1..] ensures AtMost(x, xs[0]) {
            AtMostTransitive(x, m, xs[0]);
          }
        }
        xs[0]
      else m
  }

  function FirstAndLast(rows: seq<Record>): seq<Span> {
    var es := SortedKeys(Emails(rows));
    seq(|es|, i requires 0 <= i < |es| =>
      var e := es[i];
      assert e in Emails(rows);
      var k :| 0 <= k < |rows| && rows[k].email == e;
      assert rows[k].date in DatesOf(rows, e);
      var ds := DatesOf(rows, e);
      Span(e, Least(ds), Greatest(ds)))
  }

  /** Some row of the table is from `e`. */
  predicate HasSender(rows: seq<Record>, e: string) {
    exists k :: 0 <= k < |rows| && rows[k].email == e
  }

  /** One row per sender, in ascending order of address. */
  lemma FirstAndLastSenders(rows: seq<Record>)
    ensures var r := FirstAndLast(rows);
      && (forall i, j :: 0 <= i < j < |r| ==> Below(r[i].email, r[j].email))
      && (forall i :: 0 <= i < |r| ==> HasSender(rows, r[i].email))
      && (forall e :: HasSender(rows, e) ==> exists i :: 0 <= i < |r| && r[i].email == e)
  {
    var r := FirstAndLast(rows);
    var es := SortedKeys(Emails(rows));
    forall e | HasSender(rows, e)
      ensures exists i :: 0 <= i < |r| && r[i].email == e
    {
      var k :| 0 <= k < |rows| && rows[k].email == e;
      assert Emails(rows)[k] in Emails(rows);
      assert e in es;
      var i :| 0 <= i < |es| && es[i] == e;
      assert r[i].email == e;
    }
    forall i | 0 <= i < |r|
      ensures HasSender(rows, r[i].email)
    {
      assert es[i] in Emails(rows);
    }
  }

  /** A sender's first and last dates are dates of that sender's rows, and
      every date of the sender lies between them. */
  lemma FirstAndLastBounds(rows: seq<Record>)
    ensures var r := FirstAndLast(rows);
      forall i :: 0 <= i < |r| ==>
        && r[i].first in DatesOf(rows, r[i].email)
        && r[i].last in DatesOf(rows, r[i].email)
        && AtMost(r[i].first, r[i].last)
        && forall k :: 0 <= k < |rows| && rows[k].email == r[i].email ==>
             AtMost(r[i].first, rows[k].date) && AtMost(rows[k].date, r[i].last)
  {
    var r := FirstAndLast(rows);
    forall i | 0 <= i < |r|
      ensures AtMost(r[i].first, r[i].last)
    {
      AtMostTransitive(r[i].first, r[i].last, r[i].last);
    }
    forall i, k | 0 <= i < |r| && 0 <= k < |rows| && rows[k].email == r[i].email
      ensures AtMost(r[i].first, rows[k].date) && AtMost(rows[k].date, r[i].last)
    {
      assert rows[k].date in DatesOf(rows, r[i].email);
    }
  }

  /** On stored rows, MIN and MAX of the date text are the sender's
      earliest and latest email. */
  lemma FirstAndLastInTime(rows: seq<Record>)
    requires Stored(rows)
    ensures var r := FirstAndLast(rows);
      forall i, k :: 0 <= i < |r| && 0 <= k < |rows| && rows[k].email == r[i].email ==>
        && IsCanonical(r[i].first) && IsCanonical(r[i].last)
        && !Before(ParseCanonical(rows[k].date), ParseCanonical(r[i].first))
        && !Before(ParseCanonical(r[i].last), ParseCanonical(rows[k].date))
  {
    var r := FirstAndLast(rows);
    FirstAndLastBounds(rows);
    forall i, k | 0 <= i < |r| && 0 <= k < |rows| && rows[k].email == r[i].email
      ensures && IsCanonical(r[i].first) && IsCanonical(r[i].last)
              && !Before(ParseCanonical(rows[k].date), ParseCanonical(r[i].first))
              && !Before(ParseCanonical(r[i].last), ParseCanonical(rows[k].date))
    {
      var ds := DatesOf(rows, r[i].email);
      var f :| 0 <= f < |rows| && rows[f].email == r[i].email && rows[f].date == r[i].first;
      var l :| 0 <= l < |rows| && rows[l].email == r[i].email && rows[l].date == r[i].last;
      var d := rows[k].date;
      TimestampOrder(d, r[i].first);
      TimestampOrder(r[i].last, d);
      BelowAsymmetricOrEqual(r[i].first, d);
      BelowAsymmetricOrEqual(d, r[i].last);
    }
  }

  lemma BelowAsymmetricOrEqual(a: string, b: string)
    requires AtMost(a, b)
    ensures !Below(b, a)
  {
    if a == b {
      BelowIrreflexive(a);
    } else {
      BelowAsymmetric(a, b);
    }
  }

  // ---------------------------------------------------------------------
  // 4. Emails per Domain:
  //    SELECT substr(email, instr(email, '@') + 1) AS domain, COUNT(*) ... GROUP BY domain

  /** `instr(s, c)`: the 1-based position of the first `c`, 0 if none. */
  function Instr(s: string, c: char): (p: nat)
    ensures p <= |s|
    ensures p == 0 <==> c !in s
    ensures p > 0 ==> s[p - 1] == c && c !in s[..p - 1]
    decreases |s|
  {
    if s == [] then 0
    else if s[0] == c then 1
    else
      var p := Instr(s[1..], c);
      if p == 0 then 0
      else
        assert s[..p] == [s[0]] + s[1..][..p - 1];
        p + 1
  }

  /** `substr(s, y)` for a start `y >= 1`: from the `y`-th character on. */
  function Substr(s: string, y: nat): string
    requires y >= 1
  {
    if y - 1 <= |s| then s[y - 1..] else []
  }

  /** The domain is what follows the first `@`, or the whole address when
      there is none. */
  function Domain(email: string): (d: string)
    ensures '@' !in email ==> d == email
    ensures forall i :: 0 <= i < |email| && email[i] == '@' && '@' !in email[..i] ==> d == email[i + 1..]
  {
    Substr(email, Instr(email, '@') + 1)
  }

  function Domains(rows: seq<Record>): seq<string>
  {
    seq(|rows|, i requires 0 <= i < |rows| => Domain(rows[i].email))
  }

  function EmailsPerDomain(rows: seq<Record>): seq<Group> {
    GroupCount(Domains(rows))
  }

  /** One row per domain, in ascending order, counting the emails from that
      domain; the counts add up to the number of emails. */
  lemma EmailsPerDomainCounts(rows: seq<Record>)
    ensures var r := EmailsPerDomain(rows);
      && (forall i, j :: 0 <= i < j < |r| ==> Below(r[i].key, r[j].key))
      && (forall i :: 0 <= i < |r| ==> r[i].count == multiset(Domains(rows))[r[i].key] > 0)
      && (forall k :: 0 <= k < |rows| ==> exists i :: 0 <= i < |r| && r[i].key == Domain(rows[k].email))
      && Total(r) == TotalEmails(rows)
  {
    GroupCountTotal(Domains(rows));
    var r := EmailsPerDomain(rows);
    forall k | 0 <= k < |rows|
      ensures exists i :: 0 <= i < |r| && r[i].key == Domain(rows[k].email)
    {
      assert Domains(rows)[k] in Domains(rows);
    }
  }

  // ---------------------------------------------------------------------
  // 5. Total Number of Emails: SELECT COUNT(*)

  function TotalEmails(rows: seq<Record>): nat {
    |rows|
  }

  /** The number of emails is at least the number of senders, and equal to
      it exactly when no sender has sent two of them. */
  lemma TotalEmailsCounts(rows: seq<Record>)
    ensures |UniqueEmails(rows)| <= TotalEmails(rows)
    ensures |UniqueEmails(rows)| == TotalEmails(rows) <==>
      forall i, j :: 0 <= i < j < |rows| ==> rows[i].email != rows[j].email
  {
    var es := Emails(rows);
    DistinctLength(es);
    assert UniqueEmails(rows) == Distinct(es);
    assert forall i :: 0 <= i < |rows| ==> es[i] == rows[i].email;
  }

  // ---------------------------------------------------------------------
  // 6. Emails Count by Month:
  //    SELECT strftime('%Y-%m', date) AS month, COUNT(*) ... GROUP BY month

  function EmailsPerMonth(rows: seq<Record>): seq<Group>
    requires Stored(rows)
  {
    GroupCount(Months(rows))
  }

  /** One row per month with email, in calendar order, counting the emails
      of that month; the counts add up to the number of emails. */
  lemma EmailsPerMonthCounts(rows: seq<Record>)
    requires Stored(rows)
    ensures var r := EmailsPerMonth(rows);
      && (forall i, j :: 0 <= i < j < |r| ==> Below(r[i].key, r[j].key))
      && (forall i :: 0 <= i < |r| ==> r[i].count == multiset(Months(rows))[r[i].key] > 0)
      && (forall k :: 0 <= k < |rows| ==> exists i :: 0 <= i < |r| && r[i].key == Month(rows[k].date))
      && Total(r) == TotalEmails(rows)
  {
    GroupCountTotal(Months(rows));
    var r := EmailsPerMonth(rows);
    forall k | 0 <= k < |rows|
      ensures exists i :: 0 <= i < |r| && r[i].key == Month(rows[k].date)
    {
      assert Months(rows)[k] in Months(rows);
    }
  }

  // ---------------------------------------------------------------------
  // 7. Email Frequency Ranking:
  //    SELECT email, COUNT(*) AS count ... GROUP BY email ORDER BY count DESC

  function FrequencyRanking(rows: seq<Record>): seq<Group> {
    RankByCount(GroupCount(Emails(rows)))
  }

  /** The per-sender counts, the busiest sender first. */
  lemma FrequencyRankingOrder(rows: seq<Record>)
    ensures var r := FrequencyRanking(rows);
      && ByCountDescending(r)
      && multiset(r) == multiset(GroupCount(Emails(rows)))
      && (forall i :: 0 <= i < |r| ==> r[i].count == multiset(Emails(rows))[r[i].key] > 0)
      && Total(r) == TotalEmails(rows)
  {
    var g := GroupCount(Emails(rows));
    var r := FrequencyRanking(rows);
    RankSorted(g);
    RankMembers(g);
    forall i | 0 <= i < |r|
      ensures r[i].count == multiset(Emails(rows))[r[i].key] > 0
    {
      assert r[i] in multiset(g);
    }
    GroupCountTotal(Emails(rows));
    RankTotal(g);
  }

  /** Ranking does not change the total of the counts. */
  lemma {:induction false} RankTotal(gs: seq<Group>)
    ensures Total(RankByCount(gs)) == Total(gs)
    decreases |gs|
  {
    if gs != [] {
      RankTotal(gs[1..]);
      InsertTotal(gs[0], RankByCount(gs[1..]));
    }
  }

  lemma {:induction false} InsertTotal(g: Group, gs: seq<Group>)
    ensures Total(InsertByCount(g, gs)) == g.count + Total(gs)
    decreases |gs|
  {
    if gs != [] && g.count < gs[0].count {
      InsertTotal(g, gs[1..]);
      assert ([gs[0]] + InsertByCount(g, gs[1..]))[1..] == InsertByCount(g, gs[1..]);
    } else {
      assert ([g] + gs)[1..] == gs;
    }
  }

  // ---------------------------------------------------------------------
  // 8. Most Active Day:
  //    SELECT date(date) AS day, COUNT(*) AS count ... GROUP BY day
  //    ORDER BY count DESC LIMIT 1

  function MostActiveDay(rows: seq<Record>): Option<Group>
    requires Stored(rows)
  {
    var ranked := RankByCount(EmailsPerDay(rows));
    if ranked == [] then None else Some(ranked[0])
  }

  /** No row on an empty table; otherwise a day of the table with no other
      day having more emails. */
  lemma MostActiveDayIsBusiest(rows: seq<Record>)
    requires Stored(rows)
    ensures MostActiveDay(rows).None? <==> rows == []
    ensures MostActiveDay(rows).Some? ==>
      var g := MostActiveDay(rows).value;
      && g in EmailsPerDay(rows)
      && g.count == multiset(Days(rows))[g.key] > 0
      && forall h :: h in EmailsPerDay(rows) ==> h.count <= g.count
  {
    var days := EmailsPerDay(rows);
    RankedFirst(days);
    if rows != [] {
      assert Days(rows)[0] in Days(rows);
    }
  }

  /** The first of the ranked groups is one of them with the largest count. */
  lemma RankedFirst(gs: seq<Group>)
    ensures RankByCount(gs) == [] <==> gs == []
    ensures RankByCount(gs) != [] ==>
      RankByCount(gs)[0] in gs && forall h :: h in gs ==> h.count <= RankByCount(gs)[0].count
  {
    var ranked := RankByCount(gs);
    RankSorted(gs);
    RankMembers(gs);
    assert |ranked| == |multiset(ranked)| == |multiset(gs)| == |gs|;
    if ranked != [] {
      assert ranked[0] in multiset(gs);
      forall h | h in gs ensures h.count <= ranked[0].count {
        assert h in multiset(ranked);
        var j :| 0 <= j < |ranked| && ranked[j] == h;
      }
    }
  }
}
