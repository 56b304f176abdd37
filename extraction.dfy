/** `extract_and_transform` (extraction.py:10-35): every line of the log is
    searched for a separator; a line that has one gives a record of the
    sender and the date in canonical form, a line that has none is skipped,
    and a date that neither format parses aborts the whole extraction. */
module Extraction {
  import opened Wrappers
  import opened Chars
  import opened LinePattern
  import opened Timestamps

  /** `{"email": email, "date": formatted_date}` */
  datatype Record = Record(email: string, date: string)

  /** Lines 28-33: parse with the format of line 29, on ValueError with the
      format of line 31, and write the result with `strftime`. An error of
      the second attempt is not caught. */
  function TransformDate(d: RawDate): (r: Result<string, DateError>)
    requires WellShaped(d)
    ensures r.Success? <==> NamesKnown(d) && Valid(Fields(d))
    ensures r.Success? ==> IsCanonical(r.value) && ParseCanonical(r.value) == Fields(d)
  {
    FormatsCompileAlike(PrimaryFormat);
    FormatsCompileAlike(FallbackFormat);
    var parsed :=
      match Strptime(d, PrimaryFormat)
      case Success(t) => Success(t)
      case Failure(_) => Strptime(d, FallbackFormat);
    match parsed
    case Success(t) =>
      StrftimeRoundTrip(t);
      Success(Strftime(t))
    case Failure(e) => Failure(e)
  }

  /** The second format never rescues a date the first one rejected: the
      outcome, error included, is that of the first attempt. */
  lemma FallbackNeverRescues(d: RawDate)
    requires WellShaped(d)
    ensures (FormatsCompileAlike(PrimaryFormat); FormatsCompileAlike(FallbackFormat);
      && Strptime(d, FallbackFormat) == Strptime(d, PrimaryFormat)
      && (TransformDate(d).Failure? ==> TransformDate(d).error == Strptime(d, PrimaryFormat).error))
  {
  }

  /** How wide the whitespace between the fields is makes no difference. */
  lemma GapsIgnored(d: RawDate, e: RawDate)
    requires WellShaped(d) && WellShaped(e)
    requires d.weekday == e.weekday && d.month == e.month && d.day == e.day
    requires d.hour == e.hour && d.minute == e.minute && d.second == e.second && d.year == e.year
    ensures ParseDate(d) == ParseDate(e)
  {
    assert NamesKnown(d) == NamesKnown(e);
    assert InPatternRanges(d) == InPatternRanges(e);
    if NamesKnown(d) {
      assert Fields(d) == Fields(e);
    }
    ParseDateErrors(d);
    ParseDateErrors(e);
  }

  /** What one line contributes: nothing, a record, or the error that
      aborts the extraction. */
  type Outcome = Option<Result<Record, DateError>>

  /** The record or the error of a line whose leftmost match is `m`. */
  function MatchRecord(line: string, m: LineMatch): (r: Result<Record, DateError>)
    requires m.In(line)
    ensures |m.pieces| == |Separator| && WellShaped(DateOf(m.pieces))
    ensures r.Success? <==> NamesKnown(DateOf(m.pieces)) && Valid(Fields(DateOf(m.pieces)))
    ensures r.Success? ==>
      && r.value.email == m.pieces[1] && |r.value.email| > 0 && AllIn(r.value.email, NonSpace)
      && IsCanonical(r.value.date) && Valid(ParseCanonical(r.value.date))
      && r.value.date == Strftime(Fields(DateOf(m.pieces)))
  {
    MatchSender(line, m);
    MatchDate(line, m);
    match TransformDate(DateOf(m.pieces))
    case Success(date) =>
      CanonicalRoundTrip(date);
      Success(Record(m.pieces[1], date))
    case Failure(e) => Failure(e)
  }

  /** One iteration of the loop (lines 23-34). */
  function ProcessLine(line: string): (r: Outcome) {
    match Search(line)
    case None => None
    case Some(m) => Some(MatchRecord(line, m))
  }

  /** A line is skipped only when the pattern matches nowhere in it. */
  lemma SkippedLines(line: string)
    requires ProcessLine(line).None?
    ensures forall j, ps :: 0 <= j <= |line| ==> !PiecesAt(line, j, ps, Separator)
  {
    assert SearchFrom(line, 0).None?;
    forall j, ps | 0 <= j <= |line|
      ensures !PiecesAt(line, j, ps, Separator)
    {
      NoMatchBefore(line, 0, j, ps);
    }
  }

  /** A line gives an outcome only when the pattern matches in it, and the
      outcome comes from the leftmost match. */
  lemma MatchedLines(line: string)
    requires ProcessLine(line).Some?
    ensures Search(line).Some?
    ensures var m := Search(line).value;
      && m.start <= |line| && PiecesAt(line, m.start, m.pieces, Separator)
      && (forall j, ps :: 0 <= j < m.start ==> !PiecesAt(line, j, ps, Separator))
      && ProcessLine(line) == Some(MatchRecord(line, m))
  {
  }

  /** A separator line as a mailbox writer puts it down, `From <sender>`
      followed by the date in `ctime` layout and anything after it, gives
      the record of that sender and that moment in canonical form. The
      weekday written on the line is not checked against the date. */
  lemma SeparatorLineRecord(email: string, t: DateTime, weekday: string, month: string, rest: string)
    requires |email| > 0 && AllIn(email, NonSpace) && Valid(t)
    requires LowerCase(weekday) in WeekdayNames && LowerCase(month) == MonthNames[t.month - 1]
    ensures ProcessLine("From " + email + " " + Text(CtimeDate(t, weekday, month)) + rest)
            == Some(Success(Record(email, Strftime(t))))
  {
    var d := CtimeDate(t, weekday, month);
    var line := "From " + email + " " + Text(d) + rest;
    SeparatorLineMatch(email, d, rest);
    ParseCtime(t, weekday, month);
    CanonicalRoundTrip(TransformDate(d).value);
  }

  /** The outcome of every line, in file order. */
  function Outcomes(lines: seq<string>): seq<Outcome>
  {
    seq(|lines|, i requires 0 <= i < |lines| => ProcessLine(lines[i]))
  }

  /** The loop's result over the outcomes so far: the first error, or the
      list of records appended in order. */
  function Collect(outs: seq<Outcome>): (r: Result<seq<Record>, DateError>)
    decreases |outs|
  {
    if outs == [] then Success([])
    else
      match Collect(outs[..|outs| - 1])
      case Failure(e) => Failure(e)
      case Success(out) =>
        match outs[|outs| - 1]
        case None => Success(out)
        case Some(Failure(e)) => Failure(e)
        case Some(Success(rec)) => Success(out + [rec])
  }

  /** What `extract_and_transform` returns for `lines`, or the error it raises. */
  function Extract(lines: seq<string>): (r: Result<seq<Record>, DateError>) {
    Collect(Outcomes(lines))
  }

  /** Lines 19-35: the loop that appends one record per matching line. */
  method ExtractAndTransform(lines: seq<string>) returns (r: Result<seq<Record>, DateError>)
    ensures r == Extract(lines)
  {
    var transformed: seq<Record> := [];
    var i := 0;
    while i < |lines|
      invariant 0 <= i <= |lines|
      invariant Collect(Outcomes(lines)[..i]) == Success(transformed)
    {
      CollectStep(Outcomes(lines), i);
      match ProcessLine(lines[i]) {
        case None =>
        case Some(Failure(e)) =>
          FailurePersists(Outcomes(lines), i + 1);
          return Failure(e);
        case Some(Success(rec)) =>
          transformed := transformed + [rec];
      }
      i := i + 1;
    }
    assert Outcomes(lines)[..i] == Outcomes(lines);
    return Success(transformed);
  }

  /** One more outcome. */
  lemma CollectStep(outs: seq<Outcome>, i: nat)
    requires i < |outs|
    ensures Collect(outs[..i + 1]) ==
      match Collect(outs[..i])
      case Failure(e) => Failure(e)
      case Success(out) =>
        match outs[i]
        case None => Success(out)
        case Some(Failure(e)) => Failure(e)
        case Some(Success(rec)) => Success(out + [rec])
  {
    assert outs[..i + 1][..i] == outs[..i];
  }

  /** Once a prefix fails, so does every longer one, with the same error. */
  lemma {:induction false} FailurePersists(outs: seq<Outcome>, n: nat)
    requires n <= |outs| && Collect(outs[..n]).Failure?
    ensures Collect(outs) == Collect(outs[..n])
    decreases |outs| - n
  {
    if n < |outs| {
      assert outs[..n + 1][..n] == outs[..n];
      FailurePersists(outs, n + 1);
    } else {
      assert outs[..n] == outs;
    }
  }

  // ---------------------------------------------------------------------
  // What the extraction returns, line by line

  predicate IsFailure(o: Outcome) {
    o.Some? && o.value.Failure?
  }

  /** The records among the outcomes, in order, one per record. */
  function RecordsOf(outs: seq<Outcome>): seq<Record>
    decreases |outs|
  {
    if outs == [] then []
    else
      (match outs[0]
       case Some(Success(rec)) => [rec]
       case _ => [])
      + RecordsOf(outs[1..])
  }

  /** The number of outcomes that are not None: lines holding a separator. */
  function Matching(outs: seq<Outcome>): nat
    decreases |outs|
  {
    if outs == [] then 0
    else (if outs[0].Some? then 1 else 0) + Matching(outs[1..])
  }

  /** The loop succeeds exactly when no line fails, and then returns the
      records of the matching lines in file order. */
  lemma {:induction false} CollectSucceeds(outs: seq<Outcome>)
    ensures Collect(outs).Success? <==> forall i :: 0 <= i < |outs| ==> !IsFailure(outs[i])
    ensures Collect(outs).Success? ==> Collect(outs).value == RecordsOf(outs)
    decreases |outs|
  {
    if outs != [] {
      var init, last := outs[..|outs| - 1], outs[|outs| - 1];
      CollectSucceeds(init);
      RecordsAppend(init, last);
      assert init + [last] == outs;
      assert forall i :: 0 <= i < |init| ==> init[i] == outs[i];
    }
  }

  lemma {:induction false} RecordsAppend(outs: seq<Outcome>, o: Outcome)
    ensures RecordsOf(outs + [o]) == RecordsOf(outs) + RecordsOf([o])
    decreases |outs|
  {
    if outs == [] {
      assert [] + [o] == [o];
    } else {
      var longer := outs + [o];
      assert longer[0] == outs[0];
      assert longer[1..] == outs[1..] + [o];
      RecordsAppend(outs[1..], o);
      calc {
        RecordsOf(longer);
        RecordsOf([outs[0]]) + RecordsOf(outs[1..] + [o]);
        RecordsOf([outs[0]]) + (RecordsOf(outs[1..]) + RecordsOf([o]));
        (RecordsOf([outs[0]]) + RecordsOf(outs[1..])) + RecordsOf([o]);
        { RecordsCons(outs); }
        RecordsOf(outs) + RecordsOf([o]);
      }
    }
  }

  lemma RecordsCons(outs: seq<Outcome>)
    requires outs != []
    ensures RecordsOf(outs) == RecordsOf([outs[0]]) + RecordsOf(outs[1..])
  {
    assert [outs[0]][1..] == [];
  }

  /** When the loop fails, its error is that of the first failing line. */
  lemma {:induction false} CollectFailsAtFirst(outs: seq<Outcome>)
    requires Collect(outs).Failure?
    ensures exists i :: && 0 <= i < |outs|
                        && outs[i] == Some(Failure(Collect(outs).error))
                        && forall j :: 0 <= j < i ==> !IsFailure(outs[j])
    decreases |outs|
  {
    var init, last := outs[..|outs| - 1], outs[|outs| - 1];
    assert forall i :: 0 <= i < |init| ==> init[i] == outs[i];
    if Collect(init).Failure? {
      CollectFailsAtFirst(init);
      var i :| && 0 <= i < |init|
               && init[i] == Some(Failure(Collect(init).error))
               && forall j :: 0 <= j < i ==> !IsFailure(init[j]);
      assert outs[i] == Some(Failure(Collect(outs).error));
    } else {
      CollectSucceeds(init);
      assert outs[|outs| - 1] == Some(Failure(Collect(outs).error));
    }
  }

  /** Each matching line gives one record and no other line gives any. */
  lemma {:induction false} RecordsCount(outs: seq<Outcome>)
    requires forall i :: 0 <= i < |outs| ==> !IsFailure(outs[i])
    ensures |RecordsOf(outs)| == Matching(outs) <= |outs|
    decreases |outs|
  {
    if outs != [] {
      RecordsCount(outs[1..]);
    }
  }

  /** Every record is the record of some line, and records keep the order
      of their lines. */
  lemma {:induction false} RecordsFromLines(outs: seq<Outcome>)
    ensures forall k :: 0 <= k < |RecordsOf(outs)| ==> Some(Success(RecordsOf(outs)[k])) in outs
    decreases |outs|
  {
    if outs != [] {
      RecordsFromLines(outs[1..]);
      forall k | 0 <= k < |RecordsOf(outs)|
        ensures Some(Success(RecordsOf(outs)[k])) in outs
      {
        var first := match outs[0] case Some(Success(rec)) => [rec] case _ => [];
        if k >= |first| {
          assert RecordsOf(outs)[k] == RecordsOf(outs[1..])[k - |first|];
          assert Some(Success(RecordsOf(outs)[k])) in outs[1..];
        }
      }
    }
  }

  // ---------------------------------------------------------------------
  // The same, stated for the lines of a log

  /** The extraction succeeds exactly when no line fails, and then returns
      the records of the matching lines in file order, one per line. */
  lemma ExtractSucceeds(lines: seq<string>)
    ensures Extract(lines).Success? <==>
      forall i :: 0 <= i < |lines| ==> !IsFailure(ProcessLine(lines[i]))
    ensures Extract(lines).Success? ==>
      Extract(lines).value == RecordsOf(Outcomes(lines))
      && |Extract(lines).value| == Matching(Outcomes(lines)) <= |lines|
  {
    var outs := Outcomes(lines);
    assert forall i :: 0 <= i < |lines| ==> outs[i] == ProcessLine(lines[i]);
    CollectSucceeds(outs);
    if Extract(lines).Success? {
      RecordsCount(outs);
    }
  }

  /** When the extraction fails, it raises the error of the first failing line. */
  lemma ExtractFailsAtFirst(lines: seq<string>)
    requires Extract(lines).Failure?
    ensures exists i :: && 0 <= i < |lines|
                        && ProcessLine(lines[i]) == Some(Failure(Extract(lines).error))
                        && forall j :: 0 <= j < i ==> !IsFailure(ProcessLine(lines[j]))
  {
    var outs := Outcomes(lines);
    assert forall i :: 0 <= i < |lines| ==> outs[i] == ProcessLine(lines[i]);
    CollectFailsAtFirst(outs);
  }

  /** Every record comes from a line of the log: its sender is the first
      group of that line's leftmost match, non-empty and without whitespace,
      and its date is valid and canonical. */
  lemma ExtractedRecords(lines: seq<string>)
    requires Extract(lines).Success?
    ensures forall rec :: rec in Extract(lines).value ==>
      exists i :: && 0 <= i < |lines| && Search(lines[i]).Some?
                  && rec.email == Search(lines[i]).value.pieces[1]
                  && |rec.email| > 0 && AllIn(rec.email, NonSpace)
                  && IsCanonical(rec.date) && Valid(ParseCanonical(rec.date))
                  && MatchRecord(lines[i], Search(lines[i]).value) == Success(rec)
  {
    var outs := Outcomes(lines);
    CollectSucceeds(outs);
    RecordsFromLines(outs);
    forall rec | rec in Extract(lines).value
      ensures exists i :: && 0 <= i < |lines| && Search(lines[i]).Some?
                          && rec.email == Search(lines[i]).value.pieces[1]
                          && |rec.email| > 0 && AllIn(rec.email, NonSpace)
                          && IsCanonical(rec.date) && Valid(ParseCanonical(rec.date))
                          && MatchRecord(lines[i], Search(lines[i]).value) == Success(rec)
    {
      var k :| 0 <= k < |RecordsOf(outs)| && RecordsOf(outs)[k] == rec;
      var i :| 0 <= i < |outs| && outs[i] == Some(Success(rec));
      var m := Search(lines[i]).value;
      assert MatchRecord(lines[i], m) == Success(rec);
    }
  }
}
