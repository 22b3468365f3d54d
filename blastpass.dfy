/**
 * The two passes of bl.py over a BLAST result: `extractseq`, which builds a
 * registry from the query sequences, and `process`, which attaches to each
 * registered query the PDB identifiers and UniProt accessions of its
 * accepted hits.
 */
module BlastPass {
  import opened Common
  import opened Text
  import opened Lists
  import opened Registry
  import opened Blast
  import opened UniProtMapping

  // ---------------------------------------------------------------------------
  // `process`

  /** The two annotation dictionaries of a registry. */
  datatype Annotations = Annotations(structures: map<string, seq<string>>, accessions: map<string, seq<string>>)

  /** What one report of the BLAST result does in `process`. */
  datatype Step =
    | Unmatched                                                   // counted, nothing written
    | Annotate(key: string, pdbs: seq<string>, accessions: seq<string>)
    | Halt(conversion: Conversion)                                // the UniProt conversion exits

  /** How `process` ends: the count of unmatched queries, or an exit during conversion. */
  datatype ProcessResult = Counted(skipped: nat) | Stopped(conversion: Conversion)

  /**
   * One report, against the registry contents `order`, `m`, `useqs`: a query
   * sequence that is not registered verbatim is unmatched; otherwise its
   * accessions (if any) are converted, which may exit; then the descriptor and
   * sequence must verify against the registry.
   */
  function ReportStep(order: seq<string>, m: map<string, string>, useqs: set<string>,
                      r: Report, svc: UniProt): (step: Step)
    ensures step.Halt? <==>
      r.querySeq in useqs && Evidence(r.hits, r.queryLen).accessions != []
      && !Convert(Evidence(r.hits, r.queryLen).accessions, svc).Converted?
    ensures step.Unmatched? <==>
      r.querySeq !in useqs || (!step.Halt? && VerifiedKey(order, m, r.title, r.querySeq) == "")
    ensures step.Annotate? ==>
      && step.key == VerifiedKey(order, m, r.title, r.querySeq)
      && step.pdbs == Evidence(r.hits, r.queryLen).pdbs
      && step.accessions == (var e := Evidence(r.hits, r.queryLen).accessions;
                              if e == [] then [] else Convert(e, svc).accessions)
  {
    if r.querySeq !in useqs then Unmatched
    else
      var e := Evidence(r.hits, r.queryLen);
      var conv := if e.accessions == [] then Converted([]) else Convert(e.accessions, svc);
      if !conv.Converted? then Halt(conv)
      else
        var key := VerifiedKey(order, m, r.title, r.querySeq);
        if key == "" then Unmatched else Annotate(key, e.pdbs, conv.accessions)
  }

  /** The writes of `add_accessions` and `add_structures` for an annotating step. */
  function Apply(ann: Annotations, step: Step): Annotations {
    if !step.Annotate? then ann
    else Annotations(
      if |step.pdbs| > 1 then ann.structures[step.key := step.pdbs] else ann.structures,
      if step.accessions != [] then ann.accessions[step.key := step.accessions] else ann.accessions)
  }

  /** The steps of all reports, against one registry content (which `process` never changes). */
  function Steps(order: seq<string>, m: map<string, string>, useqs: set<string>,
                 reports: seq<Report>, svc: UniProt): (steps: seq<Step>)
    ensures |steps| == |reports|
    ensures forall i :: 0 <= i < |reports| ==> steps[i] == ReportStep(order, m, useqs, reports[i], svc)
  {
    seq(|reports|, i requires 0 <= i < |reports| => ReportStep(order, m, useqs, reports[i], svc))
  }

  /** The report loop of `process` from annotations `ann` with `c` queries counted so far. */
  function Run(ann: Annotations, steps: seq<Step>, c: nat): (ProcessResult, Annotations)
    decreases |steps|
  {
    if steps == [] then (Counted(c), ann)
    else if steps[0].Halt? then (Stopped(steps[0].conversion), ann)
    else Run(Apply(ann, steps[0]), steps[1..], if steps[0].Unmatched? then c + 1 else c)
  }

  /** The number of unmatched steps. */
  function CountUnmatched(steps: seq<Step>): nat
    decreases |steps|
  {
    if steps == [] then 0 else (if steps[0].Unmatched? then 1 else 0) + CountUnmatched(steps[1..])
  }

  /**
   * The loop completes exactly when no step halts, and then returns the number
   * of unmatched steps on top of the starting count.
   */
  lemma {:induction false} RunCounts(ann: Annotations, steps: seq<Step>, c: nat)
    ensures var res := Run(ann, steps, c).0;
      && (res.Counted? <==> forall i :: 0 <= i < |steps| ==> !steps[i].Halt?)
      && (res.Counted? ==> res.skipped == c + CountUnmatched(steps))
    decreases |steps|
  {
    if steps != [] && !steps[0].Halt? {
      RunCounts(Apply(ann, steps[0]), steps[1..], if steps[0].Unmatched? then c + 1 else c);
      assert forall i :: 1 <= i < |steps| ==> steps[i] == steps[1..][i - 1];
    }
  }

  /** When the loop stops, it is with the conversion of the first halting step. */
  lemma {:induction false} RunStops(ann: Annotations, steps: seq<Step>, c: nat)
    ensures var res := Run(ann, steps, c).0;
      res.Stopped? ==> exists i :: 0 <= i < |steps| && steps[i] == Halt(res.conversion)
                         && forall j :: 0 <= j < i ==> !steps[j].Halt?
    decreases |steps|
  {
    if steps != [] && !steps[0].Halt? {
      RunStops(Apply(ann, steps[0]), steps[1..], if steps[0].Unmatched? then c + 1 else c);
      var res := Run(ann, steps, c).0;
      if res.Stopped? {
        var i :| 0 <= i < |steps[1..]| && steps[1..][i] == Halt(res.conversion)
          && forall j :: 0 <= j < i ==> !steps[1..][j].Halt?;
        assert steps[i + 1] == steps[1..][i];
        assert forall j :: 1 <= j < i + 1 ==> steps[j] == steps[1..][j - 1];
      }
    }
  }

  /** An annotating step names a registered descriptor and carries a tagged PDB list. */
  predicate StepWithin(m: map<string, string>, step: Step) {
    step.Annotate? ==> step.key in m && step.pdbs != [] && step.pdbs[0] == PDB_TAG
  }

  /** Every step `process` can take writes within the registry. */
  lemma ReportStepWithin(order: seq<string>, m: map<string, string>, useqs: set<string>, r: Report, svc: UniProt)
    requires forall i :: 0 <= i < |order| ==> order[i] != ""
    ensures StepWithin(m, ReportStep(order, m, useqs, r, svc))
  {
    if ReportStep(order, m, useqs, r, svc).Annotate? {
      ResolveFirstMatch(order, m, PatternBase(Strip(r.title)), Normalise(r.querySeq));
      EvidenceShape(r.hits, r.queryLen);
    }
  }

  /** Annotations are written only under registered descriptors, only tagged or non-empty lists. */
  predicate WritesWithin(m: map<string, string>, before: Annotations, after: Annotations) {
    && (forall k :: k in after.structures && (k !in before.structures || after.structures[k] != before.structures[k])
          ==> k in m && Tagged(after.structures[k]))
    && (forall k :: k in after.accessions && (k !in before.accessions || after.accessions[k] != before.accessions[k])
          ==> k in m && after.accessions[k] != [])
    && (forall k :: k in before.structures ==> k in after.structures)
    && (forall k :: k in before.accessions ==> k in after.accessions)
  }

  /** Steps that write within the registry keep the whole loop within it. */
  lemma {:induction false} RunWrites(m: map<string, string>, ann: Annotations, steps: seq<Step>, c: nat)
    requires forall i :: 0 <= i < |steps| ==> StepWithin(m, steps[i])
    ensures WritesWithin(m, ann, Run(ann, steps, c).1)
    decreases |steps|
  {
    if steps != [] && !steps[0].Halt? {
      assert StepWithin(m, steps[0]);
      assert WritesWithin(m, ann, Apply(ann, steps[0]));
      RunWrites(m, Apply(ann, steps[0]), steps[1..], if steps[0].Unmatched? then c + 1 else c);
    }
  }

  /** `process` on the registry contents `order`, `m`, `useqs` and annotations `ann`. */
  function ProcessSpec(order: seq<string>, m: map<string, string>, useqs: set<string>, ann: Annotations,
                       reports: seq<Report>, svc: UniProt): (ProcessResult, Annotations)
  {
    Run(ann, Steps(order, m, useqs, reports, svc), 0)
  }

  /**
   * `process` exits exactly when some report's conversion fails, with the
   * first such failure; otherwise it returns the number of reports that are
   * unmatched. Whether it completes or exits, it writes only under registered
   * descriptors, writes PDB lists tagged "pdb" and non-empty accession lists,
   * and removes nothing.
   */
  lemma ProcessOutcome(order: seq<string>, m: map<string, string>, useqs: set<string>, ann: Annotations,
                       reports: seq<Report>, svc: UniProt)
    requires forall i :: 0 <= i < |order| ==> order[i] != ""
    ensures var (res, after) := ProcessSpec(order, m, useqs, ann, reports, svc);
      var steps := Steps(order, m, useqs, reports, svc);
      && (res.Counted? <==> forall i :: 0 <= i < |reports| ==> !steps[i].Halt?)
      && (res.Counted? ==> res.skipped == CountUnmatched(steps))
      && (res.Stopped? ==> exists i :: 0 <= i < |reports| && steps[i] == Halt(res.conversion)
                             && forall j :: 0 <= j < i ==> !steps[j].Halt?)
      && WritesWithin(m, ann, after)
  {
    var steps := Steps(order, m, useqs, reports, svc);
    RunCounts(ann, steps, 0);
    RunStops(ann, steps, 0);
    forall i | 0 <= i < |steps| ensures StepWithin(m, steps[i]) {
      ReportStepWithin(order, m, useqs, reports[i], svc);
    }
    RunWrites(m, ann, steps, 0);
  }

  /**
   * `process`: the registry's descriptors and sequences are left alone, and the
   * result and annotations are those of the report loop.
   */
  method Process(seqs: Seqs, reports: seq<Report>, svc: UniProt) returns (r: ProcessResult)
    requires seqs.Valid()
    modifies seqs
    ensures seqs.Valid()
    ensures seqs.order == old(seqs.order) && seqs.seqs == old(seqs.seqs) && seqs.useqs == old(seqs.useqs)
    ensures (r, Annotations(seqs.structures, seqs.accessions))
         == ProcessSpec(old(seqs.order), old(seqs.seqs), old(seqs.useqs),
                        Annotations(old(seqs.structures), old(seqs.accessions)), reports, svc)
  {
    ghost var order, m, useqs := seqs.order, seqs.seqs, seqs.useqs;
    ghost var steps := Steps(order, m, useqs, reports, svc);
    ghost var goal := Run(Annotations(seqs.structures, seqs.accessions), steps, 0);
    var c := 0;
    for i := 0 to |reports|
      invariant seqs.Valid()
      invariant seqs.order == order && seqs.seqs == m && seqs.useqs == useqs
      invariant Run(Annotations(seqs.structures, seqs.accessions), steps[i..], c) == goal
    {
      var rep := reports[i];
      assert steps[i..][0] == steps[i] && steps[i..][1..] == steps[i + 1..];
      ghost var step := steps[i];
      ghost var before := Annotations(seqs.structures, seqs.accessions);
      if rep.querySeq !in seqs.useqs {
        c := c + 1;
        continue;
      }
      var e := GatherEvidence(rep.hits, rep.queryLen);
      var accessions := e.accessions;
      if |accessions| > 0 {
        var conv := ConvertToUniprot(accessions, svc);
        if !conv.Converted? {
          return Stopped(conv);
        }
        accessions := conv.accessions;
      }
      var ok := seqs.AddAccessions(rep.title, accessions, rep.querySeq, true);
      if !ok {
        c := c + 1;
        continue;
      }
      EvidenceShape(rep.hits, rep.queryLen);
      var _ := seqs.AddStructures(rep.title, e.pdbs, rep.querySeq, true);
      assert Annotations(seqs.structures, seqs.accessions)
          == Apply(before, step);
    }
    assert steps[|reports|..] == [];
    return Counted(c);
  }

  // ---------------------------------------------------------------------------
  // `extractseq`

  /** The normalised query sequences of the reports, in order. */
  function Queries(reports: seq<Report>): (qs: seq<string>)
    ensures |qs| == |reports|
    ensures forall i :: 0 <= i < |reports| ==> qs[i] == Normalise(reports[i].querySeq)
  {
    seq(|reports|, i requires 0 <= i < |reports| => Normalise(reports[i].querySeq))
  }

  /** Every sequence is valid and none repeats an earlier one. */
  predicate Registrable(qs: seq<string>) {
    forall i :: 0 <= i < |qs| ==> ValidSeq(qs[i]) && qs[i] !in qs[..i]
  }

  /** A prefix one longer: the shorter prefix and the next element. */
  lemma PrefixSnoc(qs: seq<string>, i: nat)
    requires i < |qs|
    ensures qs[..i + 1] == qs[..i] + [qs[i]]
  {
  }

  /** One more valid, new sequence keeps the prefix registrable. */
  lemma RegistrableSnoc(qs: seq<string>, i: nat)
    requires i < |qs| && Registrable(qs[..i])
    requires ValidSeq(qs[i]) && qs[i] !in qs[..i]
    ensures Registrable(qs[..i + 1])
  {
    assert forall j :: 0 <= j <= i ==> qs[..i + 1][..j] == qs[..j];
  }

  /**
   * The descriptor `add_seq` stores a new sequence under when it is offered
   * under `title` and the registry holds the descriptors `order`.
   */
  ghost function Descriptor(order: seq<string>, title: string): string {
    FreeCandidate(KeySet(order), StartDescriptor(title, |order|))
  }

  /** The descriptors after the first `n` queries, when each of them is stored. */
  ghost function Descriptors(reports: seq<Report>, n: nat): (ds: seq<string>)
    requires n <= |reports|
    ensures |ds| == n
  {
    if n == 0 then [] else var ds := Descriptors(reports, n - 1); ds + [Descriptor(ds, reports[n - 1].title)]
  }

  /** The stripped query titles, in order. */
  function Titles(reports: seq<Report>): (ts: seq<string>)
    ensures |ts| == |reports| && forall i :: 0 <= i < |reports| ==> ts[i] == Strip(reports[i].title)
  {
    seq(|reports|, i requires 0 <= i < |reports| => Strip(reports[i].title))
  }

  /**
   * When the titles, stripped, are distinct and non-empty, no title is
   * renamed: the first `n` queries are stored under the first `n` stripped
   * titles, in report order, which is how `process` finds each report's
   * query again.
   */
  lemma {:induction false} DescriptorsKeepTitles(reports: seq<Report>, n: nat)
    requires n <= |reports| && DistinctNames(Titles(reports))
    ensures Descriptors(reports, n) == Titles(reports)[..n]
  {
    if n > 0 {
      var ts := Titles(reports);
      DescriptorsKeepTitles(reports, n - 1);
      DistinctNamesAt(ts, n - 1);
      DescriptorKeepsTitle(ts[..n - 1], reports[n - 1].title);
      PrefixSnoc(ts, n - 1);
    }
  }

  /** A title that, stripped, is not empty and not taken is the descriptor. */
  lemma DescriptorKeepsTitle(order: seq<string>, title: string)
    requires Strip(title) != "" && Strip(title) !in order
    ensures Descriptor(order, title) == Strip(title)
  {
    var keys, start := KeySet(order), StartDescriptor(title, |order|);
    assert AllTaken(keys, start, 0) && Candidate(start, 0) == start && start !in keys;
    NewDescriptorUnique(keys, start, FreeCandidate(keys, start), start);
  }

  /**
   * The registry after the first `i` queries of `reports`, each stored: their
   * normalised sequences `qs[..i]`, all valid and distinct, under the
   * descriptors `add_seq` picks for them, and no annotations.
   */
  ghost predicate Extracted(seqs: Seqs, reports: seq<Report>, qs: seq<string>, i: nat)
    reads seqs
  {
    && seqs.Valid() && i <= |reports| && i <= |qs|
    && ValuesOf(seqs.order, seqs.seqs) == qs[..i] && Registrable(qs[..i])
    && seqs.order == Descriptors(reports, i)
    && seqs.structures == map[] && seqs.accessions == map[]
  }

  /**
   * `extractseq`: a fresh registry receives every query in turn; the pass
   * succeeds (no exit) exactly when every normalised query sequence is valid
   * and new, and the registry then holds exactly those sequences, in report
   * order, under the descriptors `add_seq` picks, with no annotations.
   */
  method ExtractSeq(reports: seq<Report>) returns (seqs: Seqs, ok: bool)
    ensures fresh(seqs) && seqs.Valid()
    ensures ok <==> Registrable(Queries(reports))
    ensures ok ==> ValuesOf(seqs.order, seqs.seqs) == Queries(reports)
    ensures ok ==> seqs.order == Descriptors(reports, |reports|)
    ensures seqs.structures == map[] && seqs.accessions == map[]
  {
    ghost var qs := Queries(reports);
    seqs := new Seqs();
    for i := 0 to |reports|
      invariant fresh(seqs) && Extracted(seqs, reports, qs, i)
    {
      var added := AddQuery(seqs, reports, i, qs);
      if !added {
        return seqs, false;
      }
    }
    assert qs[..|reports|] == qs;
    return seqs, true;
  }

  /** `add_seq` on a report's query under its title, as far as `extractseq` needs it. */
  method Offer(seqs: Seqs, r: Report) returns (res: AddResult)
    requires seqs.Valid()
    modifies seqs
    ensures seqs.Valid()
    ensures seqs.structures == old(seqs.structures) && seqs.accessions == old(seqs.accessions)
    ensures var s := Normalise(r.querySeq);
      && (res == Added <==> ValidSeq(s) && s !in ValuesOf(old(seqs.order), old(seqs.seqs)))
      && (res == Added ==> ValuesOf(seqs.order, seqs.seqs) == ValuesOf(old(seqs.order), old(seqs.seqs)) + [s])
    ensures seqs.order == if res == Added then old(seqs.order) + [Descriptor(old(seqs.order), r.title)] else old(seqs.order)
  {
    res := seqs.AddSeq(r.title, r.querySeq);
  }

  /** The body of the loop of `extractseq`: `add_seq` on the next query. */
  method AddQuery(seqs: Seqs, reports: seq<Report>, i: nat, ghost qs: seq<string>) returns (added: bool)
    requires i < |reports| && qs == Queries(reports) && Extracted(seqs, reports, qs, i)
    modifies seqs
    ensures added <==> ValidSeq(qs[i]) && qs[i] !in qs[..i]
    ensures added ==> Extracted(seqs, reports, qs, i + 1)
    ensures seqs.Valid()
    ensures seqs.structures == map[] && seqs.accessions == map[]
  {
    var res := Offer(seqs, reports[i]);
    added := res == Added;
    if added {
      PrefixSnoc(qs, i);
      RegistrableSnoc(qs, i);
    }
  }
}
