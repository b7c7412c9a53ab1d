/** `parseTrainers`: a two-state machine over the lines of the trainer table. While
    seeking, a line matching the record-open pattern starts a record with brace
    depth 1; while collecting, every line joins the body and moves the depth by its
    `{` count minus its `}` count, and the record is finished when the depth is
    exactly 0. The file read is replaced by the sequence of lines it would return. */
module Scanner {
  import opened Text
  import opened Wrappers
  import opened Patterns
  import opened Trainers

  /** The loop variables of `parseTrainers`: `collecting`, `brace_count`,
      `body_lines` and `identifier`. */
  datatype ScanState = ScanState(collecting: bool, depth: int, body: seq<string>, identifier: string)

  /** The state before the first line and after every finished record. */
  const Idle := ScanState(false, 0, [], "")

  /** How much a line moves the brace depth: its `{` count minus its `}` count. */
  function Delta(line: string): int {
    Count(line, '{') as int - Count(line, '}') as int
  }

  /** The summed `Delta` of some lines. */
  function Net(lines: seq<string>): int {
    if |lines| == 0 then 0 else Net(lines[..|lines| - 1]) + Delta(lines[|lines| - 1])
  }

  /** One iteration of the loop over the lines, as the state it leaves. While
      seeking, an opening line starts a record at depth 1 (other braces on that
      line are not counted) and is not part of the body; any other line is
      skipped. While collecting, every line, an opening one included, joins the
      body and moves the depth; at depth exactly 0 everything is reset. */
  function Next(st: ScanState, line: string): (r: ScanState)
    ensures !st.collecting && StartMatch(line).Some? ==>
              r == ScanState(true, 1, [], StartMatch(line).value)
    ensures !st.collecting && StartMatch(line).None? ==> r == st
    ensures st.collecting && st.depth + Delta(line) != 0 ==>
              r == ScanState(true, st.depth + Delta(line), st.body + [line], st.identifier)
    ensures st.collecting && st.depth + Delta(line) == 0 ==> r == Idle
  {
    if !st.collecting then
      match StartMatch(line)
      case Some(id) => ScanState(true, 1, [], id)
      case None => st
    else
      var depth := st.depth + Delta(line);
      if depth == 0 then Idle
      else ScanState(true, depth, st.body + [line], st.identifier)
  }

  /** The records one iteration appends: the finished record when the line brings
      the depth of a record being collected to exactly 0, nothing otherwise. */
  function Finished(st: ScanState, line: string): (out: seq<Trainer>)
    ensures |out| <= 1
    ensures |out| == 1 <==> st.collecting && st.depth + Delta(line) == 0
  {
    if st.collecting && st.depth + Delta(line) == 0
    then [MakeTrainer(st.identifier, Concat(st.body + [line]))]
    else []
  }

  /** Where the loop over some lines ends, and the records it appended. */
  datatype Scan = Scan(state: ScanState, records: seq<Trainer>)

  /** The loop from state `st` over `lines`: the state it ends in and the records it
      appends, in the order their closing lines come. */
  function Run(st: ScanState, lines: seq<string>): Scan
    decreases |lines|
  {
    if |lines| == 0 then Scan(st, [])
    else
      var rest := Run(Next(st, lines[0]), lines[1..]);
      Scan(rest.state, Finished(st, lines[0]) + rest.records)
  }

  /** `parseTrainers(filePath)`, given the lines of the file. Every entry needs its
      own opening line, so there are at most as many entries as lines on which the
      record-open pattern matches. */
  function ParseTrainers(lines: seq<string>): (trainers: seq<Trainer>)
    ensures |trainers| <= Openings(lines)
  {
    RunBound(Idle, lines);
    Run(Idle, lines).records
  }

  /** `parseTrainers` as the source writes it: one pass over the lines, updating
      the loop variables and appending each finished record. */
  method ParseTrainersLoop(lines: seq<string>) returns (trainers: seq<Trainer>)
    ensures trainers == ParseTrainers(lines)
  {
    trainers := [];
    var collecting := false;
    var depth := 0;
    var body: seq<string> := [];
    var identifier := "";
    for i := 0 to |lines|
      invariant Run(Idle, lines[..i]) == Scan(ScanState(collecting, depth, body, identifier), trainers)
    {
      var line := lines[i];
      ghost var st := ScanState(collecting, depth, body, identifier);
      RunSnoc(Idle, lines[..i], line);
      assert lines[..i + 1] == lines[..i] + [line];
      if !collecting {
        var m := StartMatch(line);
        if m.Some? {
          collecting := true;
          identifier := m.value;
          depth := 1;
          body := [];
        }
      } else {
        body := body + [line];
        depth := depth + Count(line, '{');
        depth := depth - Count(line, '}');
        if depth == 0 {
          trainers := trainers + [MakeTrainer(identifier, Concat(body))];
          collecting := false;
          depth := 0;
          body := [];
          identifier := "";
        }
      }
      assert ScanState(collecting, depth, body, identifier) == Next(st, line);
    }
    assert lines[..|lines|] == lines;
  }

  // ---------------------------------------------------------------------------
  // Composition

  /** Running over `a + b` is running over `a`, then over `b` from where `a` ended. */
  lemma {:induction false} RunAppend(st: ScanState, a: seq<string>, b: seq<string>)
    ensures Run(st, a + b).state == Run(Run(st, a).state, b).state
    ensures Run(st, a + b).records == Run(st, a).records + Run(Run(st, a).state, b).records
    decreases |a|
  {
    if |a| == 0 {
      assert a + b == b;
    } else {
      var st1 := Next(st, a[0]);
      var rest := a[1..];
      assert (a + b)[0] == a[0];
      assert (a + b)[1..] == rest + b;
      RunAppend(st1, rest, b);
      var x, y := Run(st1, rest), Run(Run(st1, rest).state, b);
      AppendAssoc(Finished(st, a[0]), x.records, y.records);
    }
  }

  lemma AppendAssoc<T>(x: seq<T>, y: seq<T>, z: seq<T>)
    ensures x + (y + z) == (x + y) + z
  {
  }

  lemma RunSnoc(st: ScanState, a: seq<string>, line: string)
    ensures Run(st, a + [line]).state == Next(Run(st, a).state, line)
    ensures Run(st, a + [line]).records == Run(st, a).records + Finished(Run(st, a).state, line)
  {
    RunAppend(st, a, [line]);
    var s1 := Run(st, a).state;
    assert [line][1..] == [];
    assert Run(s1, [line]).records == Finished(s1, line) + [];
  }

  /** Records come out in source order and are never taken back: the records of a
      prefix of the file are a prefix of the records of the whole file. */
  lemma ParsePrefix(a: seq<string>, b: seq<string>)
    ensures ParseTrainers(a) <= ParseTrainers(a + b)
  {
    RunAppend(Idle, a, b);
  }

  /** After a finished record everything is reset: when the lines `a` leave the
      scanner idle, the records of the lines `b` after them depend on `b` alone. */
  lemma ParseSplit(a: seq<string>, b: seq<string>)
    requires Run(Idle, a).state == Idle
    ensures ParseTrainers(a + b) == ParseTrainers(a) + ParseTrainers(b)
  {
    RunAppend(Idle, a, b);
  }

  // ---------------------------------------------------------------------------
  // The state invariant

  /** What the loop variables always satisfy between lines: while seeking they hold
      their reset values, and while collecting the depth is 1 plus the net braces of
      the lines collected so far, and is not 0. */
  predicate Consistent(st: ScanState) {
    if st.collecting then st.depth == 1 + Net(st.body) && st.depth != 0
    else st == Idle
  }

  lemma NetSnoc(lines: seq<string>, line: string)
    ensures Net(lines + [line]) == Net(lines) + Delta(line)
  {
    assert (lines + [line])[..|lines|] == lines;
  }

  /** Every step keeps the loop variables consistent. */
  lemma NextConsistent(st: ScanState, line: string)
    requires Consistent(st)
    ensures Consistent(Next(st, line))
  {
    if st.collecting {
      NetSnoc(st.body, line);
    }
  }

  /** So does every run from a consistent state, the initial one included. */
  lemma {:induction false} RunConsistent(st: ScanState, lines: seq<string>)
    requires Consistent(st)
    ensures Consistent(Run(st, lines).state)
    decreases |lines|
  {
    if |lines| > 0 {
      NextConsistent(st, lines[0]);
      RunConsistent(Next(st, lines[0]), lines[1..]);
    }
  }

  // ---------------------------------------------------------------------------
  // Records

  /** The depth after the first `k` lines of a body whose opening line set it to 1. */
  function DepthAfter(body: seq<string>, k: nat): int
    requires k <= |body|
  {
    1 + Net(body[..k])
  }

  /** Lines that keep a record open: the depth never comes back to 0 on them. */
  predicate StaysOpen(body: seq<string>) {
    forall k: nat :: 0 < k <= |body| ==> DepthAfter(body, k) != 0
  }

  /** A record body that the scanner closes on its last line and not before. */
  predicate ClosesExactly(body: seq<string>) {
    && |body| > 0
    && StaysOpen(body[..|body| - 1])
    && DepthAfter(body, |body|) == 0
  }

  lemma DepthAfterPrefix(body: seq<string>, k: nat, n: nat)
    requires k <= n <= |body|
    ensures DepthAfter(body[..n], k) == DepthAfter(body, k)
  {
    assert body[..n][..k] == body[..k];
  }

  lemma StaysOpenPrefix(body: seq<string>, n: nat)
    requires StaysOpen(body)
    requires n <= |body|
    ensures StaysOpen(body[..n])
  {
    forall k: nat | 0 < k <= n
      ensures DepthAfter(body[..n], k) != 0
    {
      DepthAfterPrefix(body, k, n);
    }
  }

  /** One more line that leaves the depth off 0 joins the record being collected. */
  lemma CollectStep(id: string, front: seq<string>, last: string)
    requires Run(ScanState(true, 1, [], id), front) == Scan(ScanState(true, 1 + Net(front), front, id), [])
    requires 1 + Net(front) + Delta(last) != 0
    ensures Run(ScanState(true, 1, [], id), front + [last])
            == Scan(ScanState(true, 1 + Net(front + [last]), front + [last], id), [])
  {
    var mid := ScanState(true, 1 + Net(front), front, id);
    NetSnoc(front, last);
    assert Next(mid, last) == ScanState(true, 1 + Net(front + [last]), front + [last], id);
    assert Finished(mid, last) == [];
    RunSnoc(ScanState(true, 1, [], id), front, last);
  }

  /** While the depth stays off 0, a record being collected takes in every line and
      nothing is appended. */
  lemma {:induction false} CollectOpen(id: string, body: seq<string>)
    requires StaysOpen(body)
    ensures Run(ScanState(true, 1, [], id), body)
            == Scan(ScanState(true, 1 + Net(body), body, id), [])
    decreases |body|
  {
    if |body| > 0 {
      var n := |body| - 1;
      var front := body[..n];
      StaysOpenPrefix(body, n);
      CollectOpen(id, front);
      assert front + [body[n]] == body;
      NetSnoc(front, body[n]);
      assert body[..|body|] == body;
      assert DepthAfter(body, |body|) != 0;
      CollectStep(id, front, body[n]);
    }
  }

  /** A record whose opening line names `id` and whose body closes on its last line
      becomes exactly one entry, built from `id` and the body lines joined, and
      leaves the scanner as it was at the start. */
  lemma OneRecord(opener: string, body: seq<string>)
    requires StartMatch(opener).Some?
    requires ClosesExactly(body)
    ensures Run(Idle, [opener] + body)
            == Scan(Idle, [MakeTrainer(StartMatch(opener).value, Concat(body))])
  {
    var id := StartMatch(opener).value;
    var n := |body| - 1;
    var front := body[..n];
    var last := body[n];
    var open := ScanState(true, 1, [], id);
    CollectOpen(id, front);
    var mid := ScanState(true, 1 + Net(front), front, id);
    assert front + [last] == body;
    NetSnoc(front, last);
    assert body[..|body|] == body;
    assert mid.depth + Delta(last) == 0;
    assert Next(mid, last) == Idle;
    assert Finished(mid, last) == [MakeTrainer(id, Concat(body))];
    RunSnoc(open, front, last);
    assert Run(open, body) == Scan(Idle, [MakeTrainer(id, Concat(body))]);
    assert Next(Idle, opener) == open;
    assert Finished(Idle, opener) == [];
    assert ([opener] + body)[0] == opener;
    assert ([opener] + body)[1..] == body;
  }

  /** A record that never closes yields nothing: the scanner ends still collecting
      it, and its lines are never turned into an entry. */
  lemma UnclosedRecord(opener: string, body: seq<string>)
    requires StartMatch(opener).Some?
    requires StaysOpen(body)
    ensures ParseTrainers([opener] + body) == []
    ensures Run(Idle, [opener] + body).state.collecting
  {
    CollectOpen(StartMatch(opener).value, body);
    assert ([opener] + body)[0] == opener;
    assert ([opener] + body)[1..] == body;
  }

  /** Lines where no record opens. */
  predicate NoOpening(lines: seq<string>) {
    forall k :: 0 <= k < |lines| ==> StartMatch(lines[k]).None?
  }

  /** Text between records is skipped: lines without an opening leave the scanner
      idle and yield nothing. */
  lemma {:induction false} GapSkipped(gap: seq<string>)
    requires NoOpening(gap)
    ensures Run(Idle, gap) == Scan(Idle, [])
    decreases |gap|
  {
    if |gap| > 0 {
      assert NoOpening(gap[1..]) by {
        forall k | 0 <= k < |gap[1..]| ensures StartMatch(gap[1..][k]).None? {
          assert gap[1..][k] == gap[k + 1];
        }
      }
      GapSkipped(gap[1..]);
    }
  }

  /** A record laid out in the file: some lines where nothing opens, the opening
      line, and the body that closes it. */
  datatype Record = Record(gap: seq<string>, opener: string, body: seq<string>)

  predicate WellFormed(r: Record) {
    NoOpening(r.gap) && StartMatch(r.opener).Some? && ClosesExactly(r.body)
  }

  /** The lines of one record, gap first. */
  function RecordLines(r: Record): seq<string> {
    r.gap + [r.opener] + r.body
  }

  /** The lines of a sequence of records, in order. */
  function Lines(rs: seq<Record>): seq<string> {
    if |rs| == 0 then [] else RecordLines(rs[0]) + Lines(rs[1..])
  }

  /** The entry a well-formed record stands for. */
  function Entry(r: Record): Trainer
    requires WellFormed(r)
  {
    MakeTrainer(StartMatch(r.opener).value, Concat(r.body))
  }

  function Entries(rs: seq<Record>): seq<Trainer>
    requires forall k :: 0 <= k < |rs| ==> WellFormed(rs[k])
  {
    if |rs| == 0 then [] else [Entry(rs[0])] + Entries(rs[1..])
  }

  /** The lines of one record, gap included, yield its entry and leave the scanner
      idle. */
  lemma RecordRun(r: Record)
    requires WellFormed(r)
    ensures Run(Idle, RecordLines(r)) == Scan(Idle, [Entry(r)])
  {
    assert RecordLines(r) == r.gap + ([r.opener] + r.body);
    GapSkipped(r.gap);
    OneRecord(r.opener, r.body);
    RunAppend(Idle, r.gap, [r.opener] + r.body);
  }

  /** A file made of well-formed records, each preceded by text where nothing opens,
      parses to one entry per record, in the order of the records. */
  lemma {:induction false} ParseRecords(rs: seq<Record>)
    requires forall k :: 0 <= k < |rs| ==> WellFormed(rs[k])
    ensures ParseTrainers(Lines(rs)) == Entries(rs)
    decreases |rs|
  {
    if |rs| > 0 {
      var r := rs[0];
      var tail := rs[1..];
      var one := RecordLines(r);
      assert WellFormed(r);
      RecordRun(r);
      assert forall k :: 0 <= k < |tail| ==> WellFormed(tail[k]) by {
        forall k | 0 <= k < |tail| ensures WellFormed(tail[k]) {
          assert tail[k] == rs[k + 1];
        }
      }
      ParseRecords(tail);
      ParseSplit(one, Lines(tail));
      assert Entries(rs) == [Entry(r)] + Entries(tail);
    }
  }

  /** In particular such a file yields exactly as many entries as it has records. */
  lemma ParseRecordsCount(rs: seq<Record>)
    requires forall k :: 0 <= k < |rs| ==> WellFormed(rs[k])
    ensures |ParseTrainers(Lines(rs))| == |rs|
  {
    ParseRecords(rs);
    EntriesLength(rs);
  }

  lemma {:induction false} EntriesLength(rs: seq<Record>)
    requires forall k :: 0 <= k < |rs| ==> WellFormed(rs[k])
    ensures |Entries(rs)| == |rs|
    decreases |rs|
  {
    if |rs| > 0 {
      var tail := rs[1..];
      assert forall k :: 0 <= k < |tail| ==> WellFormed(tail[k]) by {
        forall k | 0 <= k < |tail| ensures WellFormed(tail[k]) {
          assert tail[k] == rs[k + 1];
        }
      }
      EntriesLength(tail);
    }
  }

  // ---------------------------------------------------------------------------
  // Output bound

  /** The number of lines where the record-open pattern matches. */
  function Openings(lines: seq<string>): nat {
    if |lines| == 0 then 0
    else (if StartMatch(lines[0]).Some? then 1 else 0) + Openings(lines[1..])
  }

  /** Every entry needs its own opening line: a run appends at most one entry per
      opening line, plus one for a record already open when it starts. */
  lemma {:induction false} RunBound(st: ScanState, lines: seq<string>)
    ensures |Run(st, lines).records| <= Openings(lines) + (if st.collecting then 1 else 0)
    decreases |lines|
  {
    if |lines| > 0 {
      RunBound(Next(st, lines[0]), lines[1..]);
    }
  }
}
