/**
 * The FASTA reader of fp.py (`process_fasta`): lines are stitched into
 * records under the most recent header, and each record is offered to a
 * fresh registry in file order. The file is given as its list of lines.
 */
module Fasta {
  import opened Text
  import opened Lists
  import opened Registry

  /** One record offered to `add_seq`: its descriptor and its stitched sequence. */
  datatype Record = Record(descriptor: string, sequence: string)

  /** A stripped line: a header with the descriptor it sets, or sequence text. */
  datatype Row = Header(descriptor: string) | Data(text: string)

  /**
   * `row.strip()`, then `startswith(">")` decides; a header's descriptor is
   * the rest of the row, stripped again.
   */
  function Classify(line: string): Row {
    var row := Strip(line);
    if StartsWith(row, ">") then Header(Strip(RemovePrefix(row, ">"))) else Data(row)
  }

  /** The rows of a file. */
  function Rows(lines: seq<string>): (rows: seq<Row>)
    ensures |rows| == |lines|
    ensures forall i :: 0 <= i < |lines| ==> rows[i] == Classify(lines[i])
  {
    seq(|lines|, i requires 0 <= i < |lines| => Classify(lines[i]))
  }

  /**
   * The line loop from row `n`, with `cur` stitched so far under descriptor
   * `d`: the records it submits. Sequence text extends the record and, unless
   * it is on the last line, moves on; otherwise a non-empty record is
   * submitted, and a header sets the next descriptor.
   */
  function ScanFrom(rows: seq<Row>, n: nat, cur: string, d: string): seq<Record>
    requires n <= |rows|
    decreases |rows| - n
  {
    if n == |rows| then []
    else match rows[n]
      case Data(t) =>
        if n != |rows| - 1 then ScanFrom(rows, n + 1, cur + t, d)
        else (if cur + t != "" then [Record(d, cur + t)] else []) + ScanFrom(rows, n + 1, "", d)
      case Header(h) =>
        (if cur != "" then [Record(d, cur)] else []) + ScanFrom(rows, n + 1, "", h)
  }

  /** The records `process_fasta` submits, in file order. */
  function Records(lines: seq<string>): seq<Record> {
    ScanFrom(Rows(lines), 0, "", "")
  }

  // ---------------------------------------------------------------------------
  // Reference definition: a record per header block

  /** The text of the rows from `n` up to the next header, stitched together. */
  function Body(rows: seq<Row>, n: nat): string
    requires n <= |rows|
    decreases |rows| - n
  {
    if n == |rows| || rows[n].Header? then "" else rows[n].text + Body(rows, n + 1)
  }

  /** Index of the first header from `n` on, or the number of rows. */
  function NextHeader(rows: seq<Row>, n: nat): (h: nat)
    requires n <= |rows|
    ensures n <= h <= |rows|
    ensures h < |rows| ==> rows[h].Header?
    decreases |rows| - n
  {
    if n == |rows| || rows[n].Header? then n else NextHeader(rows, n + 1)
  }

  /**
   * The blocks of the rows from `n`: the text before the next header belongs
   * to `d` (after `pending`), and every header starts a block of its own; a
   * block whose stitched text is empty gives no record.
   */
  function BlocksFrom(rows: seq<Row>, n: nat, pending: string, d: string): seq<Record>
    requires n <= |rows|
    decreases |rows| - n
  {
    var body := pending + Body(rows, n);
    var h := NextHeader(rows, n);
    (if body != "" then [Record(d, body)] else [])
    + (if h == |rows| then [] else BlocksFrom(rows, h + 1, "", rows[h].descriptor))
  }

  /** Blocks of a file: the text before any header goes under the empty descriptor. */
  function Blocks(lines: seq<string>): seq<Record> {
    BlocksFrom(Rows(lines), 0, "", "")
  }

  /** Sequence text joins the pending block. */
  lemma BlocksAtData(rows: seq<Row>, n: nat, pending: string, d: string)
    requires n < |rows| && rows[n].Data?
    ensures BlocksFrom(rows, n, pending, d) == BlocksFrom(rows, n + 1, pending + rows[n].text, d)
  {
    var t := rows[n].text;
    assert pending + t + Body(rows, n + 1) == pending + (t + Body(rows, n + 1));
  }

  /** At a header, the line loop and the blocks both close the pending record. */
  lemma ScanAtHeader(rows: seq<Row>, n: nat, cur: string, d: string)
    requires n < |rows| && rows[n].Header?
    requires ScanFrom(rows, n + 1, "", rows[n].descriptor) == BlocksFrom(rows, n + 1, "", rows[n].descriptor)
    ensures ScanFrom(rows, n, cur, d) == BlocksFrom(rows, n, cur, d)
  {
    var h := rows[n].descriptor;
    var emitted := if cur != "" then [Record(d, cur)] else [];
    assert ScanFrom(rows, n, cur, d) == emitted + ScanFrom(rows, n + 1, "", h);
    assert BlocksFrom(rows, n, cur, d) == emitted + BlocksFrom(rows, n + 1, "", h) by {
      assert Body(rows, n) == "" && NextHeader(rows, n) == n;
      assert cur + Body(rows, n) == cur;
    }
  }

  /** Sequence text on the last line: the line loop closes the record as the end of the blocks does. */
  lemma ScanAtLastData(rows: seq<Row>, n: nat, cur: string, d: string)
    requires n == |rows| - 1 && rows[n].Data?
    ensures ScanFrom(rows, n, cur, d) == BlocksFrom(rows, n + 1, cur + rows[n].text, d)
  {
    var t := rows[n].text;
    assert Body(rows, n + 1) == "" && NextHeader(rows, n + 1) == n + 1;
    assert cur + t + "" == cur + t;
  }

  /**
   * The line loop, with its special case for the last line, submits exactly
   * one record per block with non-empty text: the end of the file closes the
   * last record just as a header does.
   */
  lemma {:induction false} ScanIsBlocks(rows: seq<Row>, n: nat, cur: string, d: string)
    requires n <= |rows|
    requires n < |rows| || cur == ""
    ensures ScanFrom(rows, n, cur, d) == BlocksFrom(rows, n, cur, d)
    decreases |rows| - n
  {
    if n < |rows| {
      if rows[n].Header? {
        ScanIsBlocks(rows, n + 1, "", rows[n].descriptor);
        ScanAtHeader(rows, n, cur, d);
      } else {
        var t := rows[n].text;
        BlocksAtData(rows, n, cur, d);
        if n != |rows| - 1 {
          ScanIsBlocks(rows, n + 1, cur + t, d);
          assert ScanFrom(rows, n, cur, d) == ScanFrom(rows, n + 1, cur + t, d);
        } else {
          ScanAtLastData(rows, n, cur, d);
        }
      }
    }
  }

  /** Every block record has non-empty text. */
  lemma {:induction false} BlocksNonEmpty(rows: seq<Row>, n: nat, pending: string, d: string)
    requires n <= |rows|
    ensures forall r :: r in BlocksFrom(rows, n, pending, d) ==> r.sequence != ""
    decreases |rows| - n
  {
    var h := NextHeader(rows, n);
    if h < |rows| {
      BlocksNonEmpty(rows, h + 1, "", rows[h].descriptor);
    }
  }

  /**
   * `process_fasta` submits one record per header block with non-empty text,
   * in file order; text before any header goes under the empty descriptor;
   * no submitted record is empty.
   */
  lemma RecordsAreBlocks(lines: seq<string>)
    ensures Records(lines) == Blocks(lines)
    ensures forall r :: r in Records(lines) ==> r.sequence != ""
  {
    ScanIsBlocks(Rows(lines), 0, "", "");
    BlocksNonEmpty(Rows(lines), 0, "", "");
  }

  /** Sequence text before the last line: the line loop moves on with the text stitched. */
  lemma ScanContinue(rows: seq<Row>, n: nat, cur: string, d: string, done: seq<Record>, goal: seq<Record>)
    requires n < |rows| - 1 && rows[n].Data?
    requires done + ScanFrom(rows, n, cur, d) == goal
    ensures done + ScanFrom(rows, n + 1, cur + rows[n].text, d) == goal
  {
  }

  /**
   * A header or the last line: the line loop closes the pending record, if
   * any, and starts afresh under the next descriptor.
   */
  lemma ScanClose(rows: seq<Row>, n: nat, cur: string, d: string, done: seq<Record>, goal: seq<Record>)
    requires n < |rows| && (rows[n].Header? || n == |rows| - 1)
    requires done + ScanFrom(rows, n, cur, d) == goal
    ensures var text := if rows[n].Data? then cur + rows[n].text else cur;
      var next := if rows[n].Header? then rows[n].descriptor else d;
      (done + if text != "" then [Record(d, text)] else []) + ScanFrom(rows, n + 1, "", next) == goal
  {
    var text := if rows[n].Data? then cur + rows[n].text else cur;
    var next := if rows[n].Header? then rows[n].descriptor else d;
    var emitted := if text != "" then [Record(d, text)] else [];
    assert ScanFrom(rows, n, cur, d) == emitted + ScanFrom(rows, n + 1, "", next);
    assert done + (emitted + ScanFrom(rows, n + 1, "", next)) == (done + emitted) + ScanFrom(rows, n + 1, "", next);
  }

  // ---------------------------------------------------------------------------
  // What the registry ends up with

  /** The normalised sequence of each record, in order. */
  function Normalised(rs: seq<Record>): (ss: seq<string>)
    ensures |ss| == |rs| && forall i :: 0 <= i < |rs| ==> ss[i] == Normalise(rs[i].sequence)
  {
    seq(|rs|, i requires 0 <= i < |rs| => Normalise(rs[i].sequence))
  }

  /** The valid sequences among `ss`, in order. */
  function KeepValid(ss: seq<string>): seq<string>
    decreases |ss|
  {
    if ss == [] then []
    else KeepValid(ss[..|ss| - 1]) + (if ValidSeq(ss[|ss| - 1]) then [ss[|ss| - 1]] else [])
  }

  /** The number of sequences among `ss` that are not valid. */
  function CountInvalid(ss: seq<string>): nat
    decreases |ss|
  {
    if ss == [] then 0
    else CountInvalid(ss[..|ss| - 1]) + (if ValidSeq(ss[|ss| - 1]) then 0 else 1)
  }

  /**
   * Every sequence is either counted invalid or kept, and the kept ones are
   * exactly the valid ones.
   */
  lemma {:induction false} KeepValidSplit(ss: seq<string>)
    ensures CountInvalid(ss) + |KeepValid(ss)| == |ss|
    ensures forall x :: x in KeepValid(ss) <==> x in ss && ValidSeq(x)
    decreases |ss|
  {
    if ss != [] {
      var init := ss[..|ss| - 1];
      assert ss == init + [ss[|ss| - 1]];
      KeepValidSplit(init);
    }
  }

  /** The registry content after the records `rs`: each valid sequence once, in order. */
  function Gathered(rs: seq<Record>): (r: seq<string>)
    ensures forall x :: x in r ==> ValidSeq(x)
  {
    var ss := Normalised(rs);
    KeepValidSplit(ss);
    AppendNewElements([], KeepValid(ss));
    AppendNew([], KeepValid(ss))
  }

  /**
   * The registry of `process_fasta` holds each valid sequence once, in order
   * of first appearance, and nothing else; the invalid count and the valid
   * sequences account for every record.
   */
  lemma GatheredShape(rs: seq<Record>)
    ensures Gathered(rs) == Firsts(KeepValid(Normalised(rs)))
    ensures NoDup(Gathered(rs))
    ensures forall x :: x in Gathered(rs) <==> x in Normalised(rs) && ValidSeq(x)
    ensures CountInvalid(Normalised(rs)) + |KeepValid(Normalised(rs))| == |rs|
  {
    var vs := KeepValid(Normalised(rs));
    assert NoDup<string>([]);
    assert [] + vs == vs;
    AppendNewIsFirsts([], vs);
    AppendNewNoDup([], vs);
    AppendNewElements([], vs);
    KeepValidSplit(Normalised(rs));
  }

  /** One more record: its sequence is gathered when valid and new; an invalid one is counted. */
  lemma {:induction false} GatheredSnoc(rs: seq<Record>, r: Record)
    ensures var s := Normalise(r.sequence);
      && Gathered(rs + [r]) == (if ValidSeq(s) && s !in Gathered(rs) then Gathered(rs) + [s] else Gathered(rs))
      && CountInvalid(Normalised(rs + [r])) == CountInvalid(Normalised(rs)) + (if ValidSeq(s) then 0 else 1)
  {
    var s := Normalise(r.sequence);
    var ss, ss' := Normalised(rs), Normalised(rs + [r]);
    assert ss' == ss + [s];
    assert ss'[..|ss|] == ss && ss'[|ss|] == s;
    var vs := KeepValid(ss);
    if ValidSeq(s) {
      assert KeepValid(ss') == vs + [s];
      AppendNewSnoc([], vs, s);
    } else {
      assert KeepValid(ss') == vs + [];
      assert vs + [] == vs;
    }
  }

  /** The registry after `add_seq` on each record in turn, starting from `t`. */
  ghost function AddRecords(t: Table, rs: seq<Record>): Table
    decreases |rs|
  {
    if rs == [] then t
    else
      var r := rs[|rs| - 1];
      AddStep(AddRecords(t, rs[..|rs| - 1]), r.descriptor, r.sequence)
  }

  /** The stripped descriptor of each record, in order. */
  function Names(rs: seq<Record>): (ns: seq<string>)
    ensures |ns| == |rs|
    decreases |rs|
  {
    if rs == [] then [] else Names(rs[..|rs| - 1]) + [Strip(rs[|rs| - 1].descriptor)]
  }

  /**
   * Every descriptor of `t` is one of `names`, and a descriptor that is one
   * of `names` holds the sequence at the same position of `vals`.
   */
  ghost predicate NamedBy(t: Table, names: seq<string>, vals: seq<string>)
    requires |names| == |vals|
  {
    && |t.order| == |t.values|
    && (forall j :: 0 <= j < |t.order| ==> t.order[j] in names)
    && (forall i, j :: 0 <= i < |names| && 0 <= j < |t.order| && names[i] == t.order[j] ==>
          t.values[j] == vals[i])
  }

  /**
   * A new name with its value, whether or not the registry took it: the
   * registry as it was, or with the name and value appended.
   */
  lemma NamedBySnoc(t: Table, names: seq<string>, vals: seq<string>, name: string, s: string, stored: bool)
    requires |names| == |vals| && NamedBy(t, names, vals) && name !in names
    ensures var t' := if stored then Table(t.order + [name], t.values + [s]) else t;
      NamedBy(t', names + [name], vals + [s])
  {
    var names', vals' := names + [name], vals + [s];
    assert forall i :: 0 <= i < |names| ==> names'[i] == names[i] && vals'[i] == vals[i];
    if stored {
      var t' := Table(t.order + [name], t.values + [s]);
      assert forall j :: 0 <= j < |t.order| ==> t'.order[j] == t.order[j] && t'.order[j] != name;
      forall i, j | 0 <= i < |names'| && 0 <= j < |t'.order| && names'[i] == t'.order[j]
        ensures t'.values[j] == vals'[i]
      {
        if j == |t.order| {
          assert i == |names|;
        } else {
          assert i < |names|;
        }
      }
    }
  }

  /** A sequence offered under a new non-empty name is stored, if at all, under that name. */
  lemma NamedByStep(t: Table, names: seq<string>, vals: seq<string>, dscrptr: string, sequence: string)
    requires |names| == |vals| && NamedBy(t, names, vals)
    requires Strip(dscrptr) != "" && Strip(dscrptr) !in names
    ensures NamedBy(AddStep(t, dscrptr, sequence), names + [Strip(dscrptr)], vals + [Normalise(sequence)])
  {
    var name, s := Strip(dscrptr), Normalise(sequence);
    var stored := s !in t.values && ValidSeq(s);
    if stored {
      assert name !in t.order;
      AddStepKeepsName(t, dscrptr, sequence);
    }
    NamedBySnoc(t, names, vals, name, s, stored);
  }

  /** One more record adds its normalised sequence. */
  lemma NormalisedSnoc(rs: seq<Record>, r: Record)
    ensures Normalised(rs + [r]) == Normalised(rs) + [Normalise(r.sequence)]
  {
    var all := rs + [r];
    assert forall i :: 0 <= i < |rs| ==> all[i] == rs[i];
  }

  /**
   * When the records have distinct non-empty descriptors, none is renamed:
   * every descriptor of the registry is a record's own, and a record whose
   * descriptor is present is stored under it with its own normalised sequence.
   */
  lemma {:induction false} AddRecordsKeepNames(rs: seq<Record>)
    requires DistinctNames(Names(rs))
    ensures NamedBy(AddRecords(Table([], []), rs), Names(rs), Normalised(rs))
    decreases |rs|
  {
    if rs != [] {
      var init, r := rs[..|rs| - 1], rs[|rs| - 1];
      var before := AddRecords(Table([], []), init);
      var ns, vs := Names(init), Normalised(init);
      var name, v := Strip(r.descriptor), Normalise(r.sequence);
      assert Names(rs) == ns + [name];
      assert Normalised(rs) == vs + [v] by {
        assert init + [r] == rs;
        NormalisedSnoc(init, r);
      }
      assert DistinctNames(ns) && name !in ns && name != "" by {
        DistinctNamesSnoc(ns, name);
      }
      assert NamedBy(before, ns, vs) by {
        AddRecordsKeepNames(init);
      }
      assert NamedBy(AddStep(before, r.descriptor, r.sequence), ns + [name], vs + [v]) by {
        NamedByStep(before, ns, vs, r.descriptor, r.sequence);
      }
    }
  }

  /**
   * `add_seq` on the next record: a record is counted invalid exactly when its
   * normalised sequence is not valid, and a valid sequence not yet stored is
   * appended to the stored ones.
   */
  method Submit(seqs: Seqs, r: Record, ghost stored: seq<string>) returns (res: AddResult)
    requires seqs.Valid() && ValuesOf(seqs.order, seqs.seqs) == stored
    requires forall x :: x in stored ==> ValidSeq(x)
    modifies seqs
    ensures seqs.Valid()
    ensures seqs.structures == old(seqs.structures) && seqs.accessions == old(seqs.accessions)
    ensures res == Invalid <==> !ValidSeq(Normalise(r.sequence))
    ensures Table(seqs.order, ValuesOf(seqs.order, seqs.seqs)) == AddStep(Table(old(seqs.order), ValuesOf(old(seqs.order), old(seqs.seqs))), r.descriptor, r.sequence)
    ensures ValuesOf(seqs.order, seqs.seqs)
      == if ValidSeq(Normalise(r.sequence)) && Normalise(r.sequence) !in stored
         then stored + [Normalise(r.sequence)] else stored
  {
    res := seqs.AddSeq(r.descriptor, r.sequence);
  }

  /**
   * The end of a record: a non-empty stitched sequence goes to `add_seq`
   * under the current descriptor, and the invalid count goes up exactly
   * when its sequence is not valid; an empty one is skipped.
   */
  method EndOfRecord(seqs: Seqs, dscrptr: string, cur: string, ghost done: seq<Record>, invalid: nat)
    returns (count: nat, ghost done': seq<Record>)
    requires seqs.Valid() && ValuesOf(seqs.order, seqs.seqs) == Gathered(done)
    requires invalid == CountInvalid(Normalised(done))
    requires Table(seqs.order, ValuesOf(seqs.order, seqs.seqs)) == AddRecords(Table([], []), done)
    modifies seqs
    ensures seqs.Valid()
    ensures seqs.structures == old(seqs.structures) && seqs.accessions == old(seqs.accessions)
    ensures done' == done + if cur != "" then [Record(dscrptr, cur)] else []
    ensures Table(seqs.order, ValuesOf(seqs.order, seqs.seqs)) == AddRecords(Table([], []), done')
    ensures ValuesOf(seqs.order, seqs.seqs) == Gathered(done')
    ensures count == CountInvalid(Normalised(done'))
  {
    count, done' := invalid, done;
    if cur != "" {
      var record := Record(dscrptr, cur);
      GatheredSnoc(done, record);
      var res := Submit(seqs, record, Gathered(done));
      if res == Invalid {
        count := count + 1;
      }
      done' := done + [record];
      assert done'[..|done'| - 1] == done;
    } else {
      assert done + [] == done;
    }
  }

  /**
   * One turn of the line loop of `process_fasta`, on the stripped line `row`
   * at index `n`: sequence text is stitched on and, unless the line is the last one, the
   * loop moves on; otherwise the pending record ends and a header sets the
   * next descriptor. The records submitted so far, followed by those the rest
   * of the loop submits, stay the records of the whole file.
   */
  method ReadLine(seqs: Seqs, row: Row, last: bool, cur: string, dscrptr: string, invalid: nat,
                  ghost rows: seq<Row>, ghost n: nat, ghost done: seq<Record>, ghost goal: seq<Record>)
    returns (cur': string, dscrptr': string, invalid': nat, ghost done': seq<Record>)
    requires n < |rows| && rows[n] == row && last == (n == |rows| - 1)
    requires seqs.Valid() && ValuesOf(seqs.order, seqs.seqs) == Gathered(done)
    requires invalid == CountInvalid(Normalised(done))
    requires Table(seqs.order, ValuesOf(seqs.order, seqs.seqs)) == AddRecords(Table([], []), done)
    requires done + ScanFrom(rows, n, cur, dscrptr) == goal
    modifies seqs
    ensures seqs.Valid()
    ensures seqs.structures == old(seqs.structures) && seqs.accessions == old(seqs.accessions)
    ensures n + 1 < |rows| || cur' == ""
    ensures done' + ScanFrom(rows, n + 1, cur', dscrptr') == goal
    ensures Table(seqs.order, ValuesOf(seqs.order, seqs.seqs)) == AddRecords(Table([], []), done')
    ensures ValuesOf(seqs.order, seqs.seqs) == Gathered(done')
    ensures invalid' == CountInvalid(Normalised(done'))
  {
    cur', dscrptr', invalid', done' := cur, dscrptr, invalid, done;
    if row.Data? {
      cur' := cur' + row.text;
      if !last {
        ScanContinue(rows, n, cur, dscrptr, done, goal);
        return;
      }
    }
    ScanClose(rows, n, cur, dscrptr, done, goal);
    invalid', done' := EndOfRecord(seqs, dscrptr, cur', done, invalid);
    cur' := "";
    if row.Header? {
      dscrptr' := row.descriptor;
    }
  }

  /**
   * `process_fasta`: a fresh registry receives the records in file order; the
   * invalid count is the number of records whose sequence is not valid
   * (duplicates are not counted), and the registry holds each valid sequence
   * once, in order of first appearance, with no annotations.
   */
  method ProcessFasta(lines: seq<string>) returns (seqs: Seqs, invalid: nat)
    ensures fresh(seqs) && seqs.Valid()
    ensures invalid == CountInvalid(Normalised(Records(lines)))
    ensures ValuesOf(seqs.order, seqs.seqs) == Gathered(Records(lines))
    ensures Table(seqs.order, ValuesOf(seqs.order, seqs.seqs)) == AddRecords(Table([], []), Records(lines))
    ensures seqs.structures == map[] && seqs.accessions == map[]
  {
    seqs := new Seqs();
    var cur := "";
    var dscrptr := "";
    invalid := 0;
    ghost var done: seq<Record> := [];
    ghost var goal := Records(lines);
    ghost var rows := Rows(lines);
    for n := 0 to |lines|
      invariant fresh(seqs) && seqs.Valid()
      invariant seqs.structures == map[] && seqs.accessions == map[]
      invariant n < |lines| || cur == ""
      invariant done + ScanFrom(rows, n, cur, dscrptr) == goal
      invariant ValuesOf(seqs.order, seqs.seqs) == Gathered(done)
      invariant Table(seqs.order, ValuesOf(seqs.order, seqs.seqs)) == AddRecords(Table([], []), done)
      invariant invalid == CountInvalid(Normalised(done))
    {
      var row := Classify(lines[n]);
      cur, dscrptr, invalid, done := ReadLine(seqs, row, n == |lines| - 1, cur, dscrptr, invalid,
                                              rows, n, done, goal);
    }
    assert |rows| == |lines| && ScanFrom(rows, |rows|, cur, dscrptr) == [];
    assert done == done + [] == goal;
  }
}
