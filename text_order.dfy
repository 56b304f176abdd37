/** The order in which SQLite compares TEXT values under its default BINARY
    collation: byte by byte on the UTF-8 encoding, a proper prefix first.
    UTF-8 keeps the order of code points, so on characters it is the
    lexicographic order of their code points. */
module TextOrder {
  import opened Chars

  /** `a` sorts strictly before `b`. */
  predicate Below(a: string, b: string)
    decreases |a|
  {
    if a == [] then b != []
    else b != [] && (if a[0] == b[0] then Below(a[1..], b[1..]) else a[0] < b[0])
  }

  predicate AtMost(a: string, b: string) {
    a == b || Below(a, b)
  }

  lemma {:induction false} BelowIrreflexive(a: string)
    ensures !Below(a, a)
    decreases |a|
  {
    if a != [] {
      BelowIrreflexive(a[1..]);
    }
  }

  lemma {:induction false} BelowTransitive(a: string, b: string, c: string)
    requires Below(a, b) && Below(b, c)
    ensures Below(a, c)
    decreases |a|
  {
    if a != [] && a[0] == b[0] && b[0] == c[0] {
      BelowTransitive(a[1..], b[1..], c[1..]);
    }
  }

  /** Any two different strings are ordered one way or the other. */
  lemma {:induction false} BelowTotal(a: string, b: string)
    ensures a == b || Below(a, b) || Below(b, a)
    decreases |a|
  {
    if a != [] && b != [] && a[0] == b[0] {
      BelowTotal(a[1..], b[1..]);
      if a[1..] == b[1..] {
        assert a == [a[0]] + a[1..] && b == [b[0]] + b[1..];
      }
    }
  }

  lemma BelowAsymmetric(a: string, b: string)
    requires Below(a, b)
    ensures !Below(b, a)
  {
    if Below(b, a) {
      BelowTransitive(a, b, a);
      BelowIrreflexive(a);
    }
  }

  lemma AtMostTransitive(a: string, b: string, c: string)
    requires AtMost(a, b) && AtMost(b, c)
    ensures AtMost(a, c)
  {
    if a != b && b != c {
      BelowTransitive(a, b, c);
    }
  }

  /** Strings that start with parts of the same length compare on those
      parts first, then on what follows. */
  lemma {:induction false} BelowConcat(x: string, r: string, y: string, q: string)
    requires |x| == |y|
    ensures Below(x + r, y + q) <==> Below(x, y) || (x == y && Below(r, q))
    decreases |x|
  {
    if x == [] {
      assert x + r == r && y + q == q;
    } else {
      assert (x + r)[0] == x[0] && (y + q)[0] == y[0];
      assert (x + r)[1..] == x[1..] + r && (y + q)[1..] == y[1..] + q;
      BelowConcat(x[1..], r, y[1..], q);
      if x[0] == y[0] && x[1..] == y[1..] {
        assert x == [x[0]] + x[1..] && y == [y[0]] + y[1..];
      }
    }
  }

  /** Digit strings of one width sort as their values do. */
  lemma {:induction false} DigitsOrder(x: string, y: string)
    requires |x| == |y| && AllDigits(x) && AllDigits(y)
    ensures Below(x, y) <==> DigitsValue(x) < DigitsValue(y)
    ensures x == y <==> DigitsValue(x) == DigitsValue(y)
    decreases |x|
  {
    if x != [] {
      var n := |x| - 1;
      var x', y' := x[..n], y[..n];
      assert x == x' + [x[n]] && y == y' + [y[n]];
      DigitsOrder(x', y');
      BelowConcat(x', [x[n]], y', [y[n]]);
      assert [x[n]][1..] == [] && [y[n]][1..] == [];
      assert Below([x[n]], [y[n]]) <==> x[n] < y[n];
    }
  }
}
