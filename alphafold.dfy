/**
 * The AlphaFold fallback pass of af.py (`from_uniprot`): every descriptor
 * with UniProt accessions but no stored structures gets the EBI AlphaFold
 * models predicted for its accessions.
 *
 * The prediction service is an oracle from accession to answer.
 */
module AlphaFold {
  import opened Registry

  /** The answer to one prediction request: HTTP 404, or the `cifUrl` of the first model. */
  datatype Prediction = NotFound | Model(cifUrl: string)

  /** The accession loop: one model locator per accession, stopping at the first 404. */
  function GatherModels(structures: seq<string>, accs: seq<string>, predict: string -> Prediction): seq<string>
    decreases |accs|
  {
    if accs == [] then structures
    else match predict(accs[0])
      case NotFound => structures
      case Model(url) => GatherModels(structures + [url], accs[1..], predict)
  }

  /** Index of the first accession without a model, or the number of accessions. */
  function FirstNotFound(accs: seq<string>, predict: string -> Prediction): (i: nat)
    ensures i <= |accs|
    ensures forall j :: 0 <= j < i ==> predict(accs[j]).Model?
    ensures i < |accs| ==> predict(accs[i]).NotFound?
    decreases |accs|
  {
    if accs == [] || predict(accs[0]).NotFound? then 0 else 1 + FirstNotFound(accs[1..], predict)
  }

  /**
   * The accession loop appends, in accession order, the locator of every
   * accession before the first one without a model, and nothing else.
   */
  lemma {:induction false} GatherModelsFound(structures: seq<string>, accs: seq<string>, predict: string -> Prediction)
    ensures var n := FirstNotFound(accs, predict);
      var r := GatherModels(structures, accs, predict);
      && |r| == |structures| + n
      && r[..|structures|] == structures
      && forall j :: 0 <= j < n ==> r[|structures| + j] == predict(accs[j]).cifUrl
    decreases |accs|
  {
    if accs != [] && predict(accs[0]).Model? {
      var url := predict(accs[0]).cifUrl;
      GatherModelsFound(structures + [url], accs[1..], predict);
      var r := GatherModels(structures, accs, predict);
      assert r[..|structures| + 1][..|structures|] == r[..|structures|];
      forall j | 1 <= j < FirstNotFound(accs, predict)
        ensures r[|structures| + j] == predict(accs[j]).cifUrl
      {
        assert accs[1..][j - 1] == accs[j];
        assert |structures + [url]| + (j - 1) == |structures| + j;
      }
    }
  }

  /**
   * The list built for a descriptor whose accessions are `accs`: the tag, then
   * the locators of the accessions before the first 404, in order.
   */
  function AfEntry(accs: seq<string>, predict: string -> Prediction): (r: seq<string>)
    ensures r != [] && r[0] == AF_TAG
    ensures |r| == FirstNotFound(accs, predict) + 1
    ensures forall j :: 0 <= j < FirstNotFound(accs, predict) ==> r[j + 1] == predict(accs[j]).cifUrl
  {
    GatherModelsFound([AF_TAG], accs, predict);
    GatherModels([AF_TAG], accs, predict)
  }

  /** A descriptor is written when it has accessions, no structures, and at least one model. */
  predicate AfWritten(s0: map<string, seq<string>>, acc: map<string, seq<string>>, k: string,
                      predict: string -> Prediction)
  {
    k in acc && k !in s0 && |AfEntry(acc[k], predict)| > 1
  }

  /** The structure map once the descriptors in `done` have been visited. */
  function AfPassed(s0: map<string, seq<string>>, acc: map<string, seq<string>>, done: set<string>,
                    predict: string -> Prediction): map<string, seq<string>>
  {
    map k | k in s0.Keys + (set k | k in done && AfWritten(s0, acc, k, predict)) ::
      if k in s0 then s0[k] else AfEntry(acc[k], predict)
  }

  /** After the whole pass, every descriptor that had structures keeps them. */
  lemma AfPassKeeps(s0: map<string, seq<string>>, acc: map<string, seq<string>>, predict: string -> Prediction)
    ensures var s := AfPassed(s0, acc, acc.Keys, predict);
      forall k :: k in s0 ==> k in s && s[k] == s0[k]
  {
  }

  /**
   * After the whole pass, a descriptor without structures has some exactly
   * when it has accessions and the first of them has a model; they are then
   * "EBI-AF" followed by the locators of the accessions before the first 404.
   */
  lemma AfPassFills(s0: map<string, seq<string>>, acc: map<string, seq<string>>, predict: string -> Prediction)
    ensures var s := AfPassed(s0, acc, acc.Keys, predict);
      forall k :: k !in s0 ==>
        && (k in s <==> k in acc && FirstNotFound(acc[k], predict) > 0)
        && (k in s ==> s[k] == AfEntry(acc[k], predict))
  {
  }

  /** A descriptor not yet visited has its original entry, or none. */
  lemma AfPassedUnvisited(s0: map<string, seq<string>>, acc: map<string, seq<string>>, done: set<string>,
                          k: string, predict: string -> Prediction)
    requires k !in done
    ensures (k in AfPassed(s0, acc, done, predict)) == (k in s0)
    ensures k in s0 ==> AfPassed(s0, acc, done, predict)[k] == s0[k]
  {
  }

  /** Visiting one more descriptor writes its entry when it had none and a model was found. */
  lemma AfPassedStep(s0: map<string, seq<string>>, acc: map<string, seq<string>>, done: set<string>,
                     k: string, predict: string -> Prediction)
    requires k in acc && k !in done
    ensures var before := AfPassed(s0, acc, done, predict);
      var e := AfEntry(acc[k], predict);
      AfPassed(s0, acc, done + {k}, predict) == if k !in s0 && |e| > 1 then before[k := e] else before
  {
  }

  /** The accession loop of `from_uniprot` for one descriptor. */
  method CollectModels(accs: seq<string>, predict: string -> Prediction) returns (structures: seq<string>)
    ensures structures == AfEntry(accs, predict)
  {
    structures := [AF_TAG];
    for i := 0 to |accs|
      invariant GatherModels(structures, accs[i..], predict) == AfEntry(accs, predict)
    {
      assert accs[i..][0] == accs[i] && accs[i..][1..] == accs[i + 1..];
      var answer := predict(accs[i]);
      if answer.NotFound? {
        return;
      }
      structures := structures + [answer.cifUrl];
    }
    assert accs[|accs|..] == [];
  }

  /** The body of the descriptor loop of `from_uniprot`: skip, or predict and write. */
  method FallbackEntry(seqs: Seqs, k: string, predict: string -> Prediction)
    requires seqs.Valid() && k in seqs.accessions
    modifies seqs
    ensures seqs.Valid()
    ensures seqs.order == old(seqs.order) && seqs.seqs == old(seqs.seqs) && seqs.useqs == old(seqs.useqs)
    ensures seqs.accessions == old(seqs.accessions)
    ensures var e := AfEntry(old(seqs.accessions)[k], predict);
      seqs.structures == if k !in old(seqs.structures) && |e| > 1 then old(seqs.structures)[k := e]
                         else old(seqs.structures)
  {
    var existing := seqs.GetStructures(k);
    if existing.Some? && existing.value != [] {
      return;
    }
    var structures := CollectModels(seqs.accessions[k], predict);
    var _ := seqs.AddStructures(k, structures, "", false);
  }

  /**
   * `from_uniprot`: descriptors, sequences and accessions are left alone, and
   * the structure map becomes the one of the whole pass. Descriptors are
   * visited in an unspecified order; each reads and writes only its own entry.
   */
  method FromUniprot(seqs: Seqs, predict: string -> Prediction)
    requires seqs.Valid()
    modifies seqs
    ensures seqs.Valid()
    ensures seqs.order == old(seqs.order) && seqs.seqs == old(seqs.seqs) && seqs.useqs == old(seqs.useqs)
    ensures seqs.accessions == old(seqs.accessions)
    ensures seqs.structures == AfPassed(old(seqs.structures), old(seqs.accessions), old(seqs.accessions).Keys, predict)
  {
    ghost var s0, acc := seqs.structures, seqs.accessions;
    var todo := seqs.accessions.Keys;
    while todo != {}
      invariant seqs.Valid()
      invariant seqs.order == old(seqs.order) && seqs.seqs == old(seqs.seqs) && seqs.useqs == old(seqs.useqs)
      invariant seqs.accessions == acc && todo <= acc.Keys
      invariant seqs.structures == AfPassed(s0, acc, acc.Keys - todo, predict)
      decreases |todo|
    {
      var k :| k in todo;
      ghost var done := acc.Keys - todo;
      AfPassedUnvisited(s0, acc, done, k, predict);
      AfPassedStep(s0, acc, done, k, predict);
      FallbackEntry(seqs, k, predict);
      todo := todo - {k};
      assert acc.Keys - todo == done + {k};
    }
    assert acc.Keys - todo == acc.Keys;
  }
}
