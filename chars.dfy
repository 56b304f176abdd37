/** Character classes, positional matching and fixed-width decimal text. */
module Chars {

  /** Python's `\s` on ASCII text: the space, the controls \t \n \v \f \r,
      and the separators U+001C..U+001F, which `str.isspace` also counts. */
  predicate IsSpace(c: char) {
    c == ' ' || ('\t' <= c <= '\r') || ('\U{1C}' <= c <= '\U{1F}')
  }

  /** Python's `\w` on ASCII text. */
  predicate IsWord(c: char) {
    ('a' <= c <= 'z') || ('A' <= c <= 'Z') || ('0' <= c <= '9') || c == '_'
  }

  /** Python's `\d` on ASCII text. */
  predicate IsDigit(c: char) {
    '0' <= c <= '9'
  }

  /** The character classes the separator pattern uses: `\s`, `\S`, `\w`, `\d`. */
  datatype CharClass = Space | NonSpace | Word | Digit

  predicate InClass(c: char, cls: CharClass) {
    match cls
    case Space => IsSpace(c)
    case NonSpace => !IsSpace(c)
    case Word => IsWord(c)
    case Digit => IsDigit(c)
  }

  predicate AllIn(s: string, cls: CharClass) {
    forall i :: 0 <= i < |s| ==> InClass(s[i], cls)
  }

  predicate AllDigits(s: string) {
    forall i :: 0 <= i < |s| ==> IsDigit(s[i])
  }

  /** No character is both a space and in another class. */
  lemma SpaceExcludesOthers(c: char, c1: CharClass, c2: CharClass)
    requires (c1 == Space) != (c2 == Space) && InClass(c, c2)
    ensures !InClass(c, c1)
  {
  }

  /** `x` occurs in `s` starting at position `p`. */
  predicate StartsAt(s: string, p: nat, x: string) {
    p + |x| <= |s| && s[p..p + |x|] == x
  }

  /** `x + y` occurs at `p` exactly when `x` does and `y` follows it. */
  lemma StartsAtConcat(s: string, p: nat, x: string, y: string)
    ensures StartsAt(s, p, x + y) <==> StartsAt(s, p, x) && StartsAt(s, p + |x|, y)
  {
    if StartsAt(s, p, x + y) {
      assert (x + y)[..|x|] == x;
      assert (x + y)[|x|..] == y;
      assert s[p..p + |x|] == s[p..p + |x| + |y|][..|x|];
      assert s[p + |x|..p + |x| + |y|] == s[p..p + |x| + |y|][|x|..];
    }
    if StartsAt(s, p, x) && StartsAt(s, p + |x|, y) {
      assert s[p..p + |x| + |y|] == s[p..p + |x|] + s[p + |x|..p + |x| + |y|];
    }
  }

  /** End of the longest run of at most `n` characters of class `cls` that
      begins at `k`: what a greedy `\s+`, `\S+`, `\w{3}` or `\d{1,2}` consumes
      before any backtracking. */
  function RunEnd(s: string, k: nat, cls: CharClass, n: nat): (e: nat)
    requires k <= |s|
    ensures k <= e <= |s| && e <= k + n
    ensures forall j :: k <= j < e ==> InClass(s[j], cls)
    ensures e == k + n || e == |s| || !InClass(s[e], cls)
    decreases n
  {
    if n > 0 && k < |s| && InClass(s[k], cls) then RunEnd(s, k + 1, cls, n - 1) else k
  }

  /** The run end is the only position with those three properties. */
  lemma RunEndAt(s: string, k: nat, cls: CharClass, n: nat, e: nat)
    requires k <= e <= |s| && e <= k + n
    requires forall j :: k <= j < e ==> InClass(s[j], cls)
    requires e == k + n || e == |s| || !InClass(s[e], cls)
    ensures RunEnd(s, k, cls, n) == e
  {
  }

  function DigitValue(c: char): (n: nat)
    requires IsDigit(c)
    ensures n < 10
  {
    c as int - '0' as int
  }

  function DigitChar(n: nat): (c: char)
    requires n < 10
    ensures IsDigit(c) && DigitValue(c) == n
  {
    ('0' as int + n) as char
  }

  /** The value of a decimal digit string, as Python's `int()` reads it
      (leading zeros allowed). */
  function DigitsValue(s: string): nat
    requires AllDigits(s)
    decreases |s|
  {
    if s == [] then 0 else 10 * DigitsValue(s[..|s| - 1]) + DigitValue(s[|s| - 1])
  }

  lemma DigitsValue2(t: string)
    requires |t| == 2 && AllDigits(t)
    ensures DigitsValue(t) == 10 * DigitValue(t[0]) + DigitValue(t[1])
  {
    assert t[..1][..0] == [];
    assert DigitsValue(t[..1]) == DigitValue(t[0]);
  }

  lemma DigitsValue4(t: string)
    requires |t| == 4 && AllDigits(t)
    ensures DigitsValue(t) == 1000 * DigitValue(t[0]) + 100 * DigitValue(t[1]) + 10 * DigitValue(t[2]) + DigitValue(t[3])
  {
    assert t[..3][..2] == t[..2];
    DigitsValue2(t[..2]);
  }

  /** Two-digit zero-padded decimal, as `%02d` (strftime's %m %d %H %M %S). */
  function Pad2(n: nat): string
    requires n < 100
  {
    [DigitChar(n / 10), DigitChar(n % 10)]
  }

  /** Four-digit zero-padded decimal (strftime's %Y). */
  function Pad4(n: nat): string
    requires n < 10000
  {
    [DigitChar(n / 1000), DigitChar(n / 100 % 10), DigitChar(n / 10 % 10), DigitChar(n % 10)]
  }

  /** Reading back a padded number gives the number. */
  lemma Pad2Value(n: nat)
    requires n < 100
    ensures |Pad2(n)| == 2 && AllDigits(Pad2(n)) && DigitsValue(Pad2(n)) == n
  {
    DigitsValue2(Pad2(n));
  }

  lemma Pad4Value(n: nat)
    requires n < 10000
    ensures |Pad4(n)| == 4 && AllDigits(Pad4(n)) && DigitsValue(Pad4(n)) == n
  {
    var p := Pad4(n);
    DigitsValue4(p);
    assert DigitValue(p[0]) == n / 1000 && DigitValue(p[1]) == n / 100 % 10;
    assert DigitValue(p[2]) == n / 10 % 10 && DigitValue(p[3]) == n % 10;
    Decimal4(n);
  }

  lemma Decimal4(n: nat)
    requires n < 10000
    ensures n == 1000 * (n / 1000) + 100 * (n / 100 % 10) + 10 * (n / 10 % 10) + n % 10
  {
    var q1 := n / 10;
    var q2 := q1 / 10;
    assert n == 10 * q1 + n % 10;
    assert q1 == 10 * q2 + q1 % 10;
    assert n / 100 == q2;
    assert q2 == 10 * (q2 / 10) + q2 % 10;
    assert n / 1000 == q2 / 10;
  }

  /** Padding the value of a digit string of the padded width gives the string back. */
  lemma ValuePad2(t: string)
    requires |t| == 2 && AllDigits(t)
    ensures DigitsValue(t) < 100 && Pad2(DigitsValue(t)) == t
  {
    DigitsValue2(t);
  }

  lemma ValuePad4(t: string)
    requires |t| == 4 && AllDigits(t)
    ensures DigitsValue(t) < 10000 && Pad4(DigitsValue(t)) == t
  {
    DigitsValue4(t);
    DecimalDigits4(DigitValue(t[0]), DigitValue(t[1]), DigitValue(t[2]), DigitValue(t[3]));
  }

  lemma DecimalDigits4(a: nat, b: nat, c: nat, d: nat)
    requires a < 10 && b < 10 && c < 10 && d < 10
    ensures var n := 1000 * a + 100 * b + 10 * c + d;
      n / 1000 == a && n / 100 % 10 == b && n / 10 % 10 == c && n % 10 == d
  {
    var n := 1000 * a + 100 * b + 10 * c + d;
    assert n / 10 == 100 * a + 10 * b + c;
    assert n / 100 == 10 * a + b;
  }

  /** ASCII lower-casing, as `str.lower` on English names. */
  function Lower(c: char): char {
    if 'A' <= c <= 'Z' then (c as int + 32) as char else c
  }

  /** `str.lower` on ASCII text. */
  function LowerCase(s: string): string {
    seq(|s|, i requires 0 <= i < |s| => Lower(s[i]))
  }
}
