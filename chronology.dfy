/** Time order of dates, and why the stored text of a timestamp sorts as
    the time it stands for: every field has a fixed width, is zero-padded
    and comes before the smaller ones. */
module Chronology {
  import opened Chars
  import opened TextOrder
  import opened Timestamps

  /** `t` falls in an earlier month than `u`. */
  predicate MonthBefore(t: DateTime, u: DateTime) {
    t.year < u.year || (t.year == u.year && t.month < u.month)
  }

  /** `t` falls on an earlier day than `u`. */
  predicate DayBefore(t: DateTime, u: DateTime) {
    MonthBefore(t, u) || (t.year == u.year && t.month == u.month && t.day < u.day)
  }

  /** `t` is an earlier second than `u`. */
  predicate Before(t: DateTime, u: DateTime) {
    || DayBefore(t, u)
    || (&& t.year == u.year && t.month == u.month && t.day == u.day
        && (|| t.hour < u.hour
            || (t.hour == u.hour && (t.minute < u.minute || (t.minute == u.minute && t.second < u.second)))))
  }

  /** Two canonical timestamps sort as text in the order of their times. */
  lemma TimestampOrder(a: string, b: string)
    requires IsCanonical(a) && IsCanonical(b)
    ensures Below(a, b) <==> Before(ParseCanonical(a), ParseCanonical(b))
  {
    DatePartOrder(a, b);
    BelowConcat([a[10]], a[11..], [b[10]], b[11..]);
    BelowIrreflexive([a[10]]);
    assert a[10..] == [a[10]] + a[11..] && b[10..] == [b[10]] + b[11..];
    var x, y := a[11..], b[11..];
    assert x[0..2] == a[11..13] && x[3..5] == a[14..16] && x[6..8] == a[17..19];
    assert y[0..2] == b[11..13] && y[3..5] == b[14..16] && y[6..8] == b[17..19];
    ClockPartOrder(x, y);
  }

  /** Text that starts with a `YYYY-MM-DD` date. */
  predicate DateFirst(s: string) {
    && |s| >= 10
    && AllDigits(s[0..4]) && s[4] == '-' && AllDigits(s[5..7]) && s[7] == '-' && AllDigits(s[8..10])
  }

  /** Texts of one length that start with a date compare on the year, the
      month and the day, then on the rest. */
  lemma DatePartOrder(a: string, b: string)
    requires |a| == |b| && DateFirst(a) && DateFirst(b)
    ensures var y, m, d := DigitsValue(a[0..4]), DigitsValue(a[5..7]), DigitsValue(a[8..10]);
      var y', m', d' := DigitsValue(b[0..4]), DigitsValue(b[5..7]), DigitsValue(b[8..10]);
      Below(a, b) <==>
        y < y' || (y == y' && (m < m' || (m == m' && (d < d' || (d == d' && Below(a[10..], b[10..]))))))
  {
    assert a[0..] == a && b[0..] == b;
    FieldThen(a, b, 0, 4);
    FieldThen(a, b, 5, 2);
    assert a[8..] == a[8..10] + a[10..] && b[8..] == b[8..10] + b[10..];
    BelowConcat(a[8..10], a[10..], b[8..10], b[10..]);
    DigitsOrder(a[8..10], b[8..10]);
  }

  /** `HH:MM:SS` texts compare on the hour, the minute, then the second. */
  lemma ClockPartOrder(a: string, b: string)
    requires |a| == |b| == 8
    requires AllDigits(a[0..2]) && a[2] == ':' && AllDigits(a[3..5]) && a[5] == ':' && AllDigits(a[6..8])
    requires AllDigits(b[0..2]) && b[2] == ':' && AllDigits(b[3..5]) && b[5] == ':' && AllDigits(b[6..8])
    ensures var h, m, s := DigitsValue(a[0..2]), DigitsValue(a[3..5]), DigitsValue(a[6..8]);
      var h', m', s' := DigitsValue(b[0..2]), DigitsValue(b[3..5]), DigitsValue(b[6..8]);
      Below(a, b) <==> h < h' || (h == h' && (m < m' || (m == m' && s < s')))
  {
    assert a[0..] == a && b[0..] == b;
    FieldThen(a, b, 0, 2);
    FieldThen(a, b, 3, 2);
    LastField(a, b, 6);
  }

  /** A digit field of width `w` at `k`, then one separator character the
      two strings share: they compare on the value of the field first. */
  lemma FieldThen(a: string, b: string, k: nat, w: nat)
    requires k + w < |a| == |b| && a[k + w] == b[k + w]
    requires AllDigits(a[k..k + w]) && AllDigits(b[k..k + w])
    ensures var v, u := DigitsValue(a[k..k + w]), DigitsValue(b[k..k + w]);
      Below(a[k..], b[k..]) <==> v < u || (v == u && Below(a[k + w + 1..], b[k + w + 1..]))
  {
    assert a[k..] == a[k..k + w] + ([a[k + w]] + a[k + w + 1..]);
    assert b[k..] == b[k..k + w] + ([b[k + w]] + b[k + w + 1..]);
    BelowConcat(a[k..k + w], [a[k + w]] + a[k + w + 1..], b[k..k + w], [b[k + w]] + b[k + w + 1..]);
    BelowConcat([a[k + w]], a[k + w + 1..], [b[k + w]], b[k + w + 1..]);
    BelowIrreflexive([a[k + w]]);
    DigitsOrder(a[k..k + w], b[k..k + w]);
  }

  /** The last two characters, a digit field. */
  lemma LastField(a: string, b: string, k: nat)
    requires k + 2 == |a| == |b|
    requires AllDigits(a[k..k + 2]) && AllDigits(b[k..k + 2])
    ensures Below(a[k..], b[k..]) <==> DigitsValue(a[k..k + 2]) < DigitsValue(b[k..k + 2])
  {
    assert a[k..] == a[k..k + 2] && b[k..] == b[k..k + 2];
    DigitsOrder(a[k..k + 2], b[k..k + 2]);
  }
}
