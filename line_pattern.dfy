/** The separator pattern of extraction.py:16-18,
      From (\S+) (\w{3}\s+\w{3}\s+\d{1,2}\s+\d{2}:\d{2}:\d{2}\s+\d{4})
    and `pattern.search(line)` (extraction.py:23).

    The pattern is a plain concatenation of literals and counted character
    classes, written down atom by atom in Separator. A regular expression of
    that kind matches at a position exactly when the text there splits into
    consecutive pieces, one per atom (PiecesAt). Python's backtracking never
    has a real choice to make for this pattern: each variable-width atom is
    followed by an atom that cannot begin with a character the first could
    still take (Greedy). So taking each atom greedily, without backtracking
    (Scan), finds the match whenever there is one, and the split is unique
    (ScanSound, ScanComplete). */
module LinePattern {
  import opened Wrappers
  import opened Chars

  /** A literal, or a character class repeated `lo` to `hi` times (`hi` is
      None for `+`). */
  datatype Atom = Lit(text: string) | Rep(cls: CharClass, lo: nat, hi: Option<nat>)

  /** From (\S+) (\w{3}\s+\w{3}\s+\d{1,2}\s+\d{2}:\d{2}:\d{2}\s+\d{4}) */
  const Separator: seq<Atom> := [
    Lit("From "), Rep(NonSpace, 1, None), Lit(" "),
    Rep(Word, 3, Some(3)), Rep(Space, 1, None),
    Rep(Word, 3, Some(3)), Rep(Space, 1, None),
    Rep(Digit, 1, Some(2)), Rep(Space, 1, None),
    Rep(Digit, 2, Some(2)), Lit(":"), Rep(Digit, 2, Some(2)), Lit(":"), Rep(Digit, 2, Some(2)),
    Rep(Space, 1, None), Rep(Digit, 4, Some(4))]

  /** `p` is text the atom `a` matches. */
  predicate Fits(p: string, a: Atom) {
    match a
    case Lit(t) => p == t
    case Rep(cls, lo, hi) => lo <= |p| && (hi.None? || |p| <= hi.value) && AllIn(p, cls)
  }

  /** `s` holds, from position `k` on, the pieces `ps`, one after the other,
      each matched by the corresponding atom: the regular-expression meaning
      of "the atoms match at `k`". */
  predicate PiecesAt(s: string, k: nat, ps: seq<string>, atoms: seq<Atom>)
    decreases atoms
  {
    && |ps| == |atoms|
    && (atoms != [] ==>
          && Fits(ps[0], atoms[0]) && StartsAt(s, k, ps[0])
          && PiecesAt(s, k + |ps[0]|, ps[1..], atoms[1..]))
  }

  /** Where a greedy attempt at `a` from `k` ends, if it succeeds. */
  function AtomEnd(s: string, k: nat, a: Atom): (r: Option<nat>)
    requires k <= |s|
    ensures r.Some? ==> k <= r.value <= |s|
  {
    match a
    case Lit(t) => if StartsAt(s, k, t) then Some(k + |t|) else None
    case Rep(cls, lo, hi) =>
      var e := RunEnd(s, k, cls, if hi.Some? then hi.value else |s| - k);
      if e - k >= lo then Some(e) else None
  }

  /** The atoms tried greedily from `k`, one after the other, without backtracking. */
  function Scan(s: string, k: nat, atoms: seq<Atom>): (r: Option<seq<string>>)
    requires k <= |s|
    decreases atoms
  {
    if atoms == [] then Some([]) else
    match AtomEnd(s, k, atoms[0])
    case None => None
    case Some(e) =>
      match Scan(s, e, atoms[1..])
      case None => None
      case Some(rest) => Some([s[k..e]] + rest)
  }

  // ---------------------------------------------------------------------
  // When greedy scanning is exact

  predicate NonEmpty(a: Atom) {
    match a
    case Lit(t) => |t| > 0
    case Rep(_, lo, _) => lo > 0
  }

  predicate Fixed(a: Atom) {
    a.Lit? || a.hi == Some(a.lo)
  }

  /** Whatever `b` matches begins with a character `a` cannot take, unless
      `a` has a fixed width anyway. */
  predicate Stops(a: Atom, b: Atom) {
    || Fixed(a)
    || (b.Lit? && |b.text| > 0 && !InClass(b.text[0], a.cls))
    || (b.Rep? && b.lo > 0 && (a.cls == Space) != (b.cls == Space))
  }

  predicate Greedy(atoms: seq<Atom>) {
    && (forall j :: 0 <= j < |atoms| ==> NonEmpty(atoms[j]))
    && (|atoms| > 0 ==> Fixed(atoms[|atoms| - 1]))
    && (forall j :: 0 <= j < |atoms| - 1 ==> Stops(atoms[j], atoms[j + 1]))
  }

  lemma SeparatorIsGreedy()
    ensures Greedy(Separator)
  {
    var a := Separator;
    assert forall j :: 0 <= j < |a| ==> NonEmpty(a[j]);
    assert Fixed(a[|a| - 1]);
    forall j | 0 <= j < |a| - 1
      ensures Stops(a[j], a[j + 1])
    {
      if !Fixed(a[j]) {
        assert j in {1, 4, 6, 7, 8, 14};
      }
    }
  }

  /** What the scanner finds is a match. */
  lemma {:induction false} ScanSound(s: string, k: nat, atoms: seq<Atom>)
    requires k <= |s|
    requires Scan(s, k, atoms).Some?
    ensures PiecesAt(s, k, Scan(s, k, atoms).value, atoms)
    decreases atoms
  {
    if atoms != [] {
      var e := AtomEnd(s, k, atoms[0]).value;
      var ps := Scan(s, k, atoms).value;
      ScanSound(s, e, atoms[1..]);
      AtomEndFits(s, k, atoms[0]);
      assert ps[0] == s[k..e] && ps[1..] == Scan(s, e, atoms[1..]).value;
    }
  }

  /** What a greedy attempt takes is text the atom matches. */
  lemma AtomEndFits(s: string, k: nat, a: Atom)
    requires k <= |s| && AtomEnd(s, k, a).Some?
    ensures var e := AtomEnd(s, k, a).value;
      Fits(s[k..e], a) && StartsAt(s, k, s[k..e])
  {
    var e := AtomEnd(s, k, a).value;
    match a
    case Lit(t) =>
    case Rep(cls, lo, hi) =>
      assert AllIn(s[k..e], cls);
  }

  /** For greedy atoms the scanner finds every match, so a match is unique. */
  lemma {:induction false} ScanComplete(s: string, k: nat, ps: seq<string>, atoms: seq<Atom>)
    requires k <= |s|
    requires Greedy(atoms) && PiecesAt(s, k, ps, atoms)
    ensures Scan(s, k, atoms) == Some(ps)
    decreases atoms
  {
    if atoms != [] {
      var p := ps[0];
      var e := k + |p|;
      AtomEndAt(s, k, ps, atoms);
      assert Greedy(atoms[1..]) by {
        forall j | 0 <= j < |atoms| - 2
          ensures Stops(atoms[1..][j], atoms[1..][j + 1])
        {
          assert Stops(atoms[j + 1], atoms[j + 2]);
        }
      }
      ScanComplete(s, e, ps[1..], atoms[1..]);
      assert s[k..e] == p;
      assert [p] + ps[1..] == ps;
    }
  }

  /** The greedy attempt at the first atom ends where the first piece does. */
  lemma AtomEndAt(s: string, k: nat, ps: seq<string>, atoms: seq<Atom>)
    requires k <= |s|
    requires atoms != [] && Greedy(atoms) && PiecesAt(s, k, ps, atoms)
    ensures AtomEnd(s, k, atoms[0]) == Some(k + |ps[0]|)
  {
    var p := ps[0];
    var e := k + |p|;
    match atoms[0]
    case Lit(t) =>
    case Rep(cls, lo, hi) =>
      var n := if hi.Some? then hi.value else |s| - k;
      forall j | k <= j < e
        ensures InClass(s[j], cls)
      {
        assert s[j] == p[j - k];
      }
      if !Fixed(atoms[0]) {
        // the next piece starts right after this one, with a character the
        // class cannot take
        var q := ps[1];
        assert Stops(atoms[0], atoms[1]) && NonEmpty(atoms[1]);
        assert |q| > 0;
        assert StartsAt(s, e, q);
        assert s[e] == q[0];
        if atoms[1].Rep? {
          SpaceExcludesOthers(q[0], cls, atoms[1].cls);
        }
      }
      RunEndAt(s, k, cls, n, e);
  }

  // ---------------------------------------------------------------------
  // The two groups

  /** The second group, split where the pattern splits it. */
  datatype RawDate = RawDate(
    weekday: string, gap1: string,
    month: string, gap2: string,
    day: string, gap3: string,
    hour: string, minute: string, second: string, gap4: string,
    year: string)

  /** The second group as the pattern reads it, piece by piece. */
  function DatePieces(d: RawDate): seq<string> {
    [d.weekday, d.gap1, d.month, d.gap2, d.day, d.gap3,
     d.hour, ":", d.minute, ":", d.second, d.gap4, d.year]
  }

  /** The text of the second group: its pieces one after the other. */
  function Text(d: RawDate): string {
    Concat(DatePieces(d))
  }

  /** The field shapes the pattern demands: `\w{3}`, `\s+`, `\w{3}`, `\s+`,
      `\d{1,2}`, `\s+`, `\d{2}:\d{2}:\d{2}`, `\s+`, `\d{4}`. */
  predicate WellShaped(d: RawDate) {
    && |d.weekday| == 3 && AllIn(d.weekday, Word)
    && |d.gap1| > 0 && AllIn(d.gap1, Space)
    && |d.month| == 3 && AllIn(d.month, Word)
    && |d.gap2| > 0 && AllIn(d.gap2, Space)
    && 1 <= |d.day| <= 2 && AllDigits(d.day)
    && |d.gap3| > 0 && AllIn(d.gap3, Space)
    && |d.hour| == 2 && AllDigits(d.hour)
    && |d.minute| == 2 && AllDigits(d.minute)
    && |d.second| == 2 && AllDigits(d.second)
    && |d.gap4| > 0 && AllIn(d.gap4, Space)
    && |d.year| == 4 && AllDigits(d.year)
  }

  function DateOf(ps: seq<string>): RawDate
    requires |ps| == |Separator|
  {
    RawDate(ps[3], ps[4], ps[5], ps[6], ps[7], ps[8], ps[9], ps[11], ps[13], ps[14], ps[15])
  }

  /** A successful `search`: where the match starts and the pieces it splits into. */
  datatype LineMatch = LineMatch(start: nat, pieces: seq<string>) {
    predicate In(s: string) {
      PiecesAt(s, start, pieces, Separator)
    }
  }

  /** The pattern, tried at position `i` (Python's `pattern.match(s, i)`). */
  function MatchAt(s: string, i: nat): (r: Option<LineMatch>)
    requires i <= |s|
  {
    match Scan(s, i, Separator)
    case None => None
    case Some(ps) => Some(LineMatch(i, ps))
  }

  /** `pattern.search(s)` from position `i` on: the match at the leftmost
      position where there is one. */
  function SearchFrom(s: string, i: nat): (r: Option<LineMatch>)
    requires i <= |s|
    ensures r.Some? ==> i <= r.value.start <= |s| && r.value.In(s)
    ensures forall j, ps ::
      i <= j <= |s| && (r.Some? ==> j < r.value.start) ==> !PiecesAt(s, j, ps, Separator)
    decreases |s| - i
  {
    MatchAtExact(s, i);
    if MatchAt(s, i).Some? then MatchAt(s, i)
    else if i == |s| then None
    else SearchFrom(s, i + 1)
  }

  /** SearchFrom finds nothing only where there is nothing to find. */
  lemma NoMatchBefore(s: string, i: nat, j: nat, ps: seq<string>)
    requires i <= j <= |s|
    requires SearchFrom(s, i).Some? ==> j < SearchFrom(s, i).value.start
    ensures !PiecesAt(s, j, ps, Separator)
  {
  }

  function Search(s: string): (r: Option<LineMatch>) {
    SearchFrom(s, 0)
  }

  lemma MatchAtExact(s: string, i: nat)
    requires i <= |s|
    ensures MatchAt(s, i).Some? ==> MatchAt(s, i).value.start == i && MatchAt(s, i).value.In(s)
    ensures MatchAt(s, i).None? ==> forall ps :: !PiecesAt(s, i, ps, Separator)
  {
    if MatchAt(s, i).Some? {
      ScanSound(s, i, Separator);
    }
    forall ps | PiecesAt(s, i, ps, Separator)
      ensures MatchAt(s, i).Some?
    {
      SeparatorIsGreedy();
      ScanComplete(s, i, ps, Separator);
    }
  }

  // ---------------------------------------------------------------------
  // What a match says about the line

  /** The first piece fits the first atom, and the rest follow it. */
  lemma PiecesHead(s: string, k: nat, ps: seq<string>, atoms: seq<Atom>)
    requires PiecesAt(s, k, ps, atoms) && atoms != []
    ensures |ps| == |atoms| && Fits(ps[0], atoms[0]) && StartsAt(s, k, ps[0])
    ensures PiecesAt(s, k + |ps[0]|, ps[1..], atoms[1..])
  {
  }

  lemma {:induction false} PiecesFit(s: string, k: nat, ps: seq<string>, atoms: seq<Atom>)
    requires PiecesAt(s, k, ps, atoms)
    ensures forall j :: 0 <= j < |atoms| ==> Fits(ps[j], atoms[j])
    decreases atoms
  {
    if atoms != [] {
      PiecesFit(s, k + |ps[0]|, ps[1..], atoms[1..]);
      forall j | 1 <= j < |atoms|
        ensures Fits(ps[j], atoms[j])
      {
        assert ps[1..][j - 1] == ps[j] && atoms[1..][j - 1] == atoms[j];
      }
    }
  }

  /** Pieces that fit the separator give date fields of the demanded shapes. */
  lemma DateShape(ps: seq<string>)
    requires |ps| == |Separator|
    requires forall j :: 0 <= j < |Separator| ==> Fits(ps[j], Separator[j])
    ensures WellShaped(DateOf(ps))
  {
    assert Fits(ps[3], Rep(Word, 3, Some(3)));
    assert Fits(ps[4], Rep(Space, 1, None));
    assert Fits(ps[5], Rep(Word, 3, Some(3)));
    assert Fits(ps[6], Rep(Space, 1, None));
    assert Fits(ps[7], Rep(Digit, 1, Some(2)));
    assert Fits(ps[8], Rep(Space, 1, None));
    assert Fits(ps[9], Rep(Digit, 2, Some(2)));
    assert Fits(ps[11], Rep(Digit, 2, Some(2)));
    assert Fits(ps[13], Rep(Digit, 2, Some(2)));
    assert Fits(ps[14], Rep(Space, 1, None));
    assert Fits(ps[15], Rep(Digit, 4, Some(4)));
  }

  /** Pieces for a literal followed by `\S+`. */
  lemma LeadingPieces(s: string, k: nat, ps: seq<string>, atoms: seq<Atom>, lead: string, n: nat)
    requires PiecesAt(s, k, ps, atoms) && |atoms| >= 3 && n == |lead|
    requires atoms[0] == Lit(lead) && atoms[1] == Rep(NonSpace, 1, None) && atoms[2] == Lit(" ")
    ensures StartsAt(s, k, lead)
    ensures |ps[1]| > 0 && AllIn(ps[1], NonSpace) && StartsAt(s, k + n, ps[1])
    ensures StartsAt(s, k, lead + ps[1] + " ")
  {
    PiecesHead(s, k, ps, atoms);
    RunThenSpace(s, k + n, ps[1..], atoms[1..]);
    StartsAtConcat(s, k, lead, ps[1]);
    StartsAtConcat(s, k, lead + ps[1], " ");
  }

  /** A run without whitespace, then a literal space. */
  lemma RunThenSpace(s: string, k: nat, ps: seq<string>, atoms: seq<Atom>)
    requires PiecesAt(s, k, ps, atoms) && |atoms| >= 2
    requires atoms[0] == Rep(NonSpace, 1, None) && atoms[1] == Lit(" ")
    ensures |ps[0]| > 0 && AllIn(ps[0], NonSpace) && StartsAt(s, k, ps[0])
    ensures StartsAt(s, k + |ps[0]|, " ")
  {
    PiecesHead(s, k, ps, atoms);
    PiecesHead(s, k + |ps[0]|, ps[1..], atoms[1..]);
  }

  /** A match starts with "From ", then the sender: a non-empty run without
      whitespace, with a space on either side, so the longest such run at
      that place. */
  lemma MatchSender(s: string, m: LineMatch)
    requires m.In(s)
    ensures |m.pieces| == |Separator|
    ensures StartsAt(s, m.start, "From ")
    ensures var email := m.pieces[1];
      && |email| > 0 && AllIn(email, NonSpace)
      && StartsAt(s, m.start + 5, email)
      && StartsAt(s, m.start, "From " + email + " ")
  {
    SeparatorLead();
    LeadingPieces(s, m.start, m.pieces, Separator, "From ", 5);
  }

  lemma SeparatorLead()
    ensures |Separator| == 16
    ensures Separator[0] == Lit("From ") && Separator[1] == Rep(NonSpace, 1, None) && Separator[2] == Lit(" ")
  {
  }

  /** The date fields of a match have the shapes the pattern demands. */
  lemma MatchDate(s: string, m: LineMatch)
    requires m.In(s)
    ensures |m.pieces| == |Separator| && WellShaped(DateOf(m.pieces))
  {
    PiecesFit(s, m.start, m.pieces, Separator);
    DateShape(m.pieces);
  }

  // ---------------------------------------------------------------------
  // Lines built from pieces

  /** The pieces written one after the other. */
  function Concat(ps: seq<string>): string
    decreases |ps|
  {
    if ps == [] then [] else ps[0] + Concat(ps[1..])
  }

  /** Pieces that each fit their atom, written out, match at the place
      where they are written, whatever comes before and after. */
  lemma {:induction false} ConcatPieces(pre: string, ps: seq<string>, atoms: seq<Atom>, rest: string)
    requires |ps| == |atoms| && forall j :: 0 <= j < |ps| ==> Fits(ps[j], atoms[j])
    ensures PiecesAt(pre + Concat(ps) + rest, |pre|, ps, atoms)
    decreases |ps|
  {
    if ps != [] {
      var s := pre + Concat(ps) + rest;
      assert s == (pre + ps[0]) + Concat(ps[1..]) + rest;
      assert s[|pre|..|pre| + |ps[0]|] == ps[0];
      ConcatPieces(pre + ps[0], ps[1..], atoms[1..], rest);
    }
  }

  lemma ConcatPiecesAtStart(ps: seq<string>, atoms: seq<Atom>, rest: string)
    requires |ps| == |atoms| && forall j :: 0 <= j < |ps| ==> Fits(ps[j], atoms[j])
    ensures PiecesAt(Concat(ps) + rest, 0, ps, atoms)
  {
    ConcatPieces([], ps, atoms, rest);
    assert [] + Concat(ps) == Concat(ps);
  }

  /** A line that holds the pattern at its very start: `search` finds that
      match. */
  lemma SearchAtStart(s: string, ps: seq<string>)
    requires PiecesAt(s, 0, ps, Separator)
    ensures Search(s) == Some(LineMatch(0, ps))
  {
    SeparatorIsGreedy();
    ScanComplete(s, 0, ps, Separator);
  }

  /** The pieces of `From <email> <date>`. */
  function LinePieces(email: string, d: RawDate): seq<string> {
    ["From ", email, " "] + DatePieces(d)
  }

  lemma DatePiecesFit(d: RawDate)
    requires WellShaped(d)
    ensures forall j :: 0 <= j < |DatePieces(d)| ==> Fits(DatePieces(d)[j], Separator[j + 3])
  {
  }

  lemma LinePiecesFit(email: string, d: RawDate)
    requires |email| > 0 && AllIn(email, NonSpace) && WellShaped(d)
    ensures |LinePieces(email, d)| == |Separator|
    ensures forall j :: 0 <= j < |Separator| ==> Fits(LinePieces(email, d)[j], Separator[j])
    ensures DateOf(LinePieces(email, d)) == d
  {
    var ps := LinePieces(email, d);
    DatePiecesFit(d);
    forall j | 0 <= j < |Separator|
      ensures Fits(ps[j], Separator[j])
    {
      if j >= 3 {
        assert ps[j] == DatePieces(d)[j - 3];
      }
    }
  }

  lemma {:induction false} ConcatAppend(xs: seq<string>, ys: seq<string>)
    ensures Concat(xs + ys) == Concat(xs) + Concat(ys)
    decreases |xs|
  {
    if xs == [] {
      assert xs + ys == ys;
    } else {
      assert (xs + ys)[0] == xs[0] && (xs + ys)[1..] == xs[1..] + ys;
      ConcatAppend(xs[1..], ys);
    }
  }

  lemma LineText(email: string, d: RawDate)
    ensures Concat(LinePieces(email, d)) == "From " + email + " " + Text(d)
  {
    var lead := ["From ", email, " "];
    ConcatAppend(lead, DatePieces(d));
    assert lead[1..] == [email, " "] && [email, " "][1..] == [" "] && [" "][1..] == [];
    assert Concat([" "]) == " ";
    assert Concat([email, " "]) == email + " ";
    assert Concat(lead) == "From " + (email + " ");
  }

  /** The pieces of `From <sender> <date>` fit the pattern where the line
      starts. */
  lemma SeparatorLinePieces(email: string, d: RawDate, rest: string)
    requires |email| > 0 && AllIn(email, NonSpace) && WellShaped(d)
    ensures PiecesAt("From " + email + " " + Text(d) + rest, 0, LinePieces(email, d), Separator)
  {
    var ps := LinePieces(email, d);
    LinePiecesFit(email, d);
    LineText(email, d);
    ConcatPiecesAtStart(ps, Separator, rest);
  }

  /** A line that starts with `From <sender> <date>` matches right there,
      and the groups are that sender and that date. */
  lemma SeparatorLineMatch(email: string, d: RawDate, rest: string)
    requires |email| > 0 && AllIn(email, NonSpace) && WellShaped(d)
    ensures Search("From " + email + " " + Text(d) + rest) == Some(LineMatch(0, LinePieces(email, d)))
    ensures LinePieces(email, d)[1] == email && DateOf(LinePieces(email, d)) == d
  {
    SeparatorLinePieces(email, d, rest);
    SearchAtStart("From " + email + " " + Text(d) + rest, LinePieces(email, d));
  }
}
