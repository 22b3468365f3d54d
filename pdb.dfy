/**
 * The PDB reconciliation pass of pd.py (`uniprot_to_pdb`): for every
 * descriptor with UniProt accessions, search the RCSB PDB for entries
 * referencing them and extend the descriptor's PDB list.
 *
 * The search is an oracle from accession to answer.
 */
module PdbSearch {
  import opened Text
  import opened Lists
  import opened Registry

  /** The answer to one search: HTTP 204 (no entries), or the identifiers of `result_set`. */
  datatype SearchAnswer = NoResults | Identifiers(ids: seq<string>)

  /** The PDB identifiers of a result set: each identifier up to its first '_'. */
  function EntryIds(ids: seq<string>): (r: seq<string>)
    ensures |r| == |ids| && forall i :: 0 <= i < |ids| ==> r[i] == BeforeFirst(ids[i], '_')
  {
    seq(|ids|, i requires 0 <= i < |ids| => BeforeFirst(ids[i], '_'))
  }

  /** The list the pass starts from: the stored list when it is a PDB list, else a bare tag. */
  function PdbSeed(structures: map<string, seq<string>>, k: string): (seed: seq<string>)
    ensures seed != [] && seed[0] == PDB_TAG
    ensures k in structures && structures[k] != [] && structures[k][0] == PDB_TAG ==> seed == structures[k]
    ensures !(k in structures && structures[k] != [] && structures[k][0] == PDB_TAG) ==> seed == [PDB_TAG]
  {
    if k in structures && structures[k] != [] && structures[k][0] == PDB_TAG then structures[k] else [PDB_TAG]
  }

  /** The accession loop: search each accession in turn, stopping at the first empty answer. */
  function GatherPdbs(pdbs: seq<string>, accs: seq<string>, search: string -> SearchAnswer): seq<string>
    decreases |accs|
  {
    if accs == [] then pdbs
    else match search(accs[0])
      case NoResults => pdbs
      case Identifiers(ids) => GatherPdbs(AppendNew(pdbs, EntryIds(ids)), accs[1..], search)
  }

  /** Index of the first accession whose search finds nothing, or the number of accessions. */
  function FirstNoResults(accs: seq<string>, search: string -> SearchAnswer): (i: nat)
    ensures i <= |accs|
    ensures forall j :: 0 <= j < i ==> search(accs[j]).Identifiers?
    ensures i < |accs| ==> search(accs[i]).NoResults?
    decreases |accs|
  {
    if accs == [] || search(accs[0]).NoResults? then 0 else 1 + FirstNoResults(accs[1..], search)
  }

  /** Reference list: the PDB identifiers of all answers for `accs`, in order (empty answers add none). */
  function FoundIds(accs: seq<string>, search: string -> SearchAnswer): seq<string>
    decreases |accs|
  {
    if accs == [] then []
    else
      (match search(accs[0]) case NoResults => [] case Identifiers(ids) => EntryIds(ids))
      + FoundIds(accs[1..], search)
  }

  /**
   * The accession loop appends, once each and in order, the identifiers found
   * for the accessions before the first empty answer; the accessions after it
   * are not searched.
   */
  lemma {:induction false} GatherPdbsFound(pdbs: seq<string>, accs: seq<string>, search: string -> SearchAnswer)
    ensures GatherPdbs(pdbs, accs, search)
         == AppendNew(pdbs, FoundIds(accs[..FirstNoResults(accs, search)], search))
    decreases |accs|
  {
    var k := FirstNoResults(accs, search);
    if accs == [] || search(accs[0]).NoResults? {
      assert accs[..k] == [];
    } else {
      var ids := search(accs[0]).ids;
      GatherPdbsFound(AppendNew(pdbs, EntryIds(ids)), accs[1..], search);
      assert accs[..k][0] == accs[0] && accs[..k][1..] == accs[1..][..k - 1];
      AppendNewConcat(pdbs, EntryIds(ids), FoundIds(accs[1..][..k - 1], search));
    }
  }

  /**
   * One descriptor's new list keeps the seed (the stored PDB list, or the bare
   * tag) as its prefix and is tagged "pdb"; it holds nothing else than the
   * seed and identifiers found before the first empty answer, and adds no
   * duplicates.
   */
  lemma PdbEntryShape(structures: map<string, seq<string>>, k: string, accs: seq<string>,
                      search: string -> SearchAnswer)
    ensures var seed := PdbSeed(structures, k);
      var found := FoundIds(accs[..FirstNoResults(accs, search)], search);
      var r := GatherPdbs(seed, accs, search);
      && r == AppendNew(seed, found)
      && |seed| <= |r| && r[..|seed|] == seed && r[0] == PDB_TAG
      && (forall x :: x in r <==> x in seed || x in found)
      && (NoDup(seed) ==> NoDup(r))
  {
    var seed := PdbSeed(structures, k);
    var found := FoundIds(accs[..FirstNoResults(accs, search)], search);
    GatherPdbsFound(seed, accs, search);
    AppendNewElements(seed, found);
    if NoDup(seed) {
      AppendNewNoDup(seed, found);
    }
  }

  /** The list written for descriptor `k`, whose accessions are `accs`. */
  function PdbEntry(structures: map<string, seq<string>>, k: string, accs: seq<string>,
                    search: string -> SearchAnswer): seq<string>
  {
    GatherPdbs(PdbSeed(structures, k), accs, search)
  }

  /** `add_structures(k, pdbs, verify=False)` stores only a list with at least one identifier. */
  predicate PdbWritten(s0: map<string, seq<string>>, acc: map<string, seq<string>>, k: string,
                       search: string -> SearchAnswer)
  {
    k in acc && |PdbEntry(s0, k, acc[k], search)| > 1
  }

  /** The structure map once the descriptors in `done` have been visited. */
  function PdbPassed(s0: map<string, seq<string>>, acc: map<string, seq<string>>, done: set<string>,
                     search: string -> SearchAnswer): map<string, seq<string>>
  {
    map k | k in s0.Keys + (set k | k in done && PdbWritten(s0, acc, k, search)) ::
      if k in done && PdbWritten(s0, acc, k, search) then PdbEntry(s0, k, acc[k], search) else s0[k]
  }

  /** A descriptor not yet visited still has its original entry. */
  lemma PdbPassedUnvisited(s0: map<string, seq<string>>, acc: map<string, seq<string>>, done: set<string>,
                           k: string, search: string -> SearchAnswer)
    requires k !in done
    ensures PdbSeed(PdbPassed(s0, acc, done, search), k) == PdbSeed(s0, k)
  {
  }

  /** Visiting one more descriptor writes its entry, when there is something to write. */
  lemma PdbPassedStep(s0: map<string, seq<string>>, acc: map<string, seq<string>>, done: set<string>,
                      k: string, search: string -> SearchAnswer)
    requires k in acc && k !in done
    ensures var before := PdbPassed(s0, acc, done, search);
      var e := PdbEntry(s0, k, acc[k], search);
      PdbPassed(s0, acc, done + {k}, search) == if |e| > 1 then before[k := e] else before
  {
  }

  /**
   * After the whole pass: a descriptor without accessions keeps its entry (or
   * its absence); a descriptor with accessions gets its new PDB list when that
   * holds an identifier, and keeps its entry otherwise; every written list is
   * tagged "pdb".
   */
  lemma PdbPassEffect(s0: map<string, seq<string>>, acc: map<string, seq<string>>, search: string -> SearchAnswer)
    ensures var s := PdbPassed(s0, acc, acc.Keys, search);
      && (forall k :: k !in acc ==> (k in s <==> k in s0) && (k in s0 ==> s[k] == s0[k]))
      && (forall k :: k in acc && |PdbEntry(s0, k, acc[k], search)| > 1 ==> k in s && s[k] == PdbEntry(s0, k, acc[k], search))
      && (forall k :: k in acc && |PdbEntry(s0, k, acc[k], search)| <= 1 ==> (k in s <==> k in s0) && (k in s0 ==> s[k] == s0[k]))
      && (forall k :: k in s ==> k in s0 || Tagged(s[k]))
  {
    forall k | k in acc && |PdbEntry(s0, k, acc[k], search)| > 1
      ensures PdbEntry(s0, k, acc[k], search)[0] == PDB_TAG
    {
      PdbEntryShape(s0, k, acc[k], search);
    }
  }

  /** The accession loop of `uniprot_to_pdb` for one descriptor. */
  method CollectPdbs(seed: seq<string>, accs: seq<string>, search: string -> SearchAnswer) returns (pdbs: seq<string>)
    ensures pdbs == GatherPdbs(seed, accs, search)
  {
    pdbs := seed;
    for i := 0 to |accs|
      invariant GatherPdbs(pdbs, accs[i..], search) == GatherPdbs(seed, accs, search)
    {
      assert accs[i..][0] == accs[i] && accs[i..][1..] == accs[i + 1..];
      var answer := search(accs[i]);
      if answer.NoResults? {
        return;
      }
      var ids := answer.ids;
      ghost var before := pdbs;
      for j := 0 to |ids|
        invariant AppendNew(pdbs, EntryIds(ids)[j..]) == AppendNew(before, EntryIds(ids))
      {
        var p := BeforeFirst(ids[j], '_');
        assert EntryIds(ids)[j..][0] == p && EntryIds(ids)[j..][1..] == EntryIds(ids)[j + 1..];
        if p !in pdbs {
          pdbs := pdbs + [p];
        }
      }
      assert EntryIds(ids)[|ids|..] == [];
    }
    assert accs[|accs|..] == [];
  }

  /** The stored PDB list of descriptor `k`, when there is one, as `uniprot_to_pdb` seeds from it. */
  method SeedFor(seqs: Seqs, k: string) returns (seed: seq<string>)
    requires seqs.Valid()
    ensures seed == PdbSeed(seqs.structures, k)
  {
    var existing := seqs.GetStructures(k);
    if existing.None? || existing.value == [] || existing.value[0] != PDB_TAG {
      seed := [PDB_TAG];
    } else {
      seed := existing.value;
    }
  }

  /**
   * `uniprot_to_pdb`: descriptors, sequences and accessions are left alone,
   * and the structure map becomes the one of the whole pass. Descriptors are
   * visited in an unspecified order; each reads and writes only its own entry.
   */
  method UniprotToPdb(seqs: Seqs, search: string -> SearchAnswer)
    requires seqs.Valid()
    modifies seqs
    ensures seqs.Valid()
    ensures seqs.order == old(seqs.order) && seqs.seqs == old(seqs.seqs) && seqs.useqs == old(seqs.useqs)
    ensures seqs.accessions == old(seqs.accessions)
    ensures seqs.structures == PdbPassed(old(seqs.structures), old(seqs.accessions), old(seqs.accessions).Keys, search)
  {
    ghost var s0, acc := seqs.structures, seqs.accessions;
    var todo := seqs.accessions.Keys;
    while todo != {}
      invariant seqs.Valid()
      invariant seqs.order == old(seqs.order) && seqs.seqs == old(seqs.seqs) && seqs.useqs == old(seqs.useqs)
      invariant seqs.accessions == acc && todo <= acc.Keys
      invariant seqs.structures == PdbPassed(s0, acc, acc.Keys - todo, search)
      decreases |todo|
    {
      var k :| k in todo;
      ghost var done := acc.Keys - todo;
      PdbPassedUnvisited(s0, acc, done, k, search);
      PdbPassedStep(s0, acc, done, k, search);
      ReconcileEntry(seqs, k, search);
      todo := todo - {k};
      assert acc.Keys - todo == done + {k};
    }
    assert acc.Keys - todo == acc.Keys;
  }

  /** The body of the descriptor loop of `uniprot_to_pdb`: one descriptor's search and write. */
  method ReconcileEntry(seqs: Seqs, k: string, search: string -> SearchAnswer)
    requires seqs.Valid() && k in seqs.accessions
    modifies seqs
    ensures seqs.Valid()
    ensures seqs.order == old(seqs.order) && seqs.seqs == old(seqs.seqs) && seqs.useqs == old(seqs.useqs)
    ensures seqs.accessions == old(seqs.accessions)
    ensures var e := PdbEntry(old(seqs.structures), k, old(seqs.accessions)[k], search);
      seqs.structures == if |e| > 1 then old(seqs.structures)[k := e] else old(seqs.structures)
  {
    var pdbs := SeedFor(seqs, k);
    pdbs := CollectPdbs(pdbs, seqs.accessions[k], search);
    PdbEntryShape(seqs.structures, k, seqs.accessions[k], search);
    var _ := seqs.AddStructures(k, pdbs, "", false);
  }
}
