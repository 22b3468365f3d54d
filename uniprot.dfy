/**
 * The UniProt identifier mapping of bl.py (`_convert_to_uniprot`): one mapping
 * job per source databank, a status poll per job, and the merge of the
 * primary accessions the jobs return.
 *
 * The service is an oracle: what each submission returns, the status answers
 * of each job in turn, and the result entries of each job.
 */
module UniProtMapping {
  import opened Common
  import opened Text
  import opened Lists

  /** `DBS`: the databanks the accession numbers are mapped from, in order. */
  const DBS: seq<string> := ["EMBL-GenBank-DDBJ_CDS", "RefSeq_Protein"]

  /**
   * The mapping service. `submit(db, ids)` is the job id answered to a POST
   * from `db` with the comma-joined `ids`; `statuses(job)` is the `jobStatus`
   * field of each successive status answer (None when it is absent, which
   * means the job is done); `results(job)` is the `to.primaryAccession` of each
   * result entry (None when the entry lacks it).
   */
  datatype UniProt = UniProt(
    submit: (string, string) -> string,
    statuses: string -> seq<Option<string>>,
    results: string -> seq<Option<string>>)

  /** How the conversion ends. */
  datatype Conversion =
    | Converted(accessions: seq<string>)
    | UniProtFailed(status: string)   // "Unexpected error from UniProt."
    | StillRunning                    // every status answer so far said NEW or RUNNING

  /** A status that makes the poll sleep and ask again. */
  predicate Running(status: Option<string>) {
    status == Some("NEW") || status == Some("RUNNING")
  }

  /** Index of the first status answer that is not NEW or RUNNING, or the number of answers. */
  function FirstSettled(answers: seq<Option<string>>): (k: nat)
    ensures k <= |answers|
    ensures forall i :: 0 <= i < k ==> Running(answers[i])
    ensures k < |answers| ==> !Running(answers[k])
    decreases |answers|
  {
    if answers == [] || !Running(answers[0]) then 0 else 1 + FirstSettled(answers[1..])
  }

  /** The poll of one job: None when it finished, otherwise how the conversion stops. */
  function JobStop(answers: seq<Option<string>>): (r: Option<Conversion>)
    ensures r.None? <==> (var k := FirstSettled(answers); k < |answers| && answers[k].None?)
    ensures r.Some? ==> !r.value.Converted?
  {
    var k := FirstSettled(answers);
    if k == |answers| then Some(StillRunning)
    else if answers[k].None? then None
    else Some(UniProtFailed(answers[k].value))
  }

  /** The polls of all jobs in order: the first job that does not finish stops the conversion. */
  function AwaitAll(jobs: seq<string>, svc: UniProt): (r: Option<Conversion>)
    ensures r.None? <==> forall i :: 0 <= i < |jobs| ==> JobStop(svc.statuses(jobs[i])).None?
    ensures r.Some? ==> !r.value.Converted?
    decreases |jobs|
  {
    if jobs == [] then None
    else if JobStop(svc.statuses(jobs[0])).Some? then JobStop(svc.statuses(jobs[0]))
    else AwaitAll(jobs[1..], svc)
  }

  /** The present entries of a result list, in order. */
  function Present(entries: seq<Option<string>>): (r: seq<string>)
    ensures forall x :: x in r <==> Some(x) in entries
    decreases |entries|
  {
    if entries == [] then []
    else (if entries[0].Some? then [entries[0].value] else []) + Present(entries[1..])
  }

  /** The accessions all jobs return, job after job. */
  function Returned(jobs: seq<string>, svc: UniProt): seq<string>
    decreases |jobs|
  {
    if jobs == [] then [] else Present(svc.results(jobs[0])) + Returned(jobs[1..], svc)
  }

  /** The job ids: one submission per databank, in the order of `DBS`. */
  function Jobs(a: seq<string>, svc: UniProt): (jobs: seq<string>)
    ensures |jobs| == |DBS|
    ensures forall i :: 0 <= i < |DBS| ==> jobs[i] == svc.submit(DBS[i], Join(a, ','))
  {
    seq(|DBS|, i requires 0 <= i < |DBS| => svc.submit(DBS[i], Join(a, ',')))
  }

  /** `_convert_to_uniprot(a)`. */
  function Convert(a: seq<string>, svc: UniProt): Conversion {
    var jobs := Jobs(a, svc);
    match AwaitAll(jobs, svc)
    case Some(stop) => stop
    case None => Converted(AppendNew([], Returned(jobs, svc)))
  }

  /**
   * The conversion succeeds exactly when every job finishes; it then yields
   * each returned accession once, in order of first appearance, and nothing else.
   */
  lemma ConvertResult(a: seq<string>, svc: UniProt)
    ensures var jobs := Jobs(a, svc);
      && (Convert(a, svc).Converted? <==> forall i :: 0 <= i < |jobs| ==> JobStop(svc.statuses(jobs[i])).None?)
      && (Convert(a, svc).Converted? ==>
            var r := Convert(a, svc).accessions;
            && r == Firsts(Returned(jobs, svc))
            && NoDup(r)
            && forall x :: x in r <==> x in Returned(jobs, svc))
  {
    var jobs := Jobs(a, svc);
    assert NoDup<string>([]);
    AppendNewIsFirsts([], Returned(jobs, svc));
    AppendNewNoDup([], Returned(jobs, svc));
    AppendNewElements([], Returned(jobs, svc));
    assert [] + Returned(jobs, svc) == Returned(jobs, svc);
  }

  /** The status loop of one job. */
  method PollJob(answers: seq<Option<string>>) returns (r: Option<Conversion>)
    ensures r == JobStop(answers)
  {
    var i := 0;
    while i < |answers|
      invariant 0 <= i <= FirstSettled(answers)
    {
      var status := answers[i];
      if status == Some("NEW") || status == Some("RUNNING") {
        i := i + 1;
      } else if status.None? {
        return None;
      } else {
        return Some(UniProtFailed(status.value));
      }
    }
    return Some(StillRunning);
  }

  /** `_convert_to_uniprot`: submit, poll every job, then merge the results. */
  method ConvertToUniprot(a: seq<string>, svc: UniProt) returns (r: Conversion)
    ensures r == Convert(a, svc)
  {
    var accessions: seq<string> := [];
    var jobIds: seq<string> := [];
    var ids := Join(a, ',');
    for d := 0 to |DBS|
      invariant jobIds == Jobs(a, svc)[..d]
    {
      jobIds := jobIds + [svc.submit(DBS[d], ids)];
    }
    assert jobIds == Jobs(a, svc);
    for j := 0 to |jobIds|
      invariant AwaitAll(jobIds[j..], svc) == AwaitAll(jobIds, svc)
    {
      assert jobIds[j..][0] == jobIds[j] && jobIds[j..][1..] == jobIds[j + 1..];
      var stop := PollJob(svc.statuses(jobIds[j]));
      if stop.Some? {
        return stop.value;
      }
    }
    for j := 0 to |jobIds|
      invariant AppendNew(accessions, Returned(jobIds[j..], svc)) == AppendNew([], Returned(jobIds, svc))
    {
      assert jobIds[j..][0] == jobIds[j] && jobIds[j..][1..] == jobIds[j + 1..];
      var entries := svc.results(jobIds[j]);
      AppendNewConcat(accessions, Present(entries), Returned(jobIds[j + 1..], svc));
      ghost var before := accessions;
      for e := 0 to |entries|
        invariant AppendNew(accessions, Present(entries[e..])) == AppendNew(before, Present(entries))
      {
        assert entries[e..][0] == entries[e] && entries[e..][1..] == entries[e + 1..];
        ghost var rest := Present(entries[e + 1..]);
        if entries[e].Some? {
          assert ([entries[e].value] + rest)[1..] == rest;
          if entries[e].value !in accessions {
            accessions := accessions + [entries[e].value];
          }
        } else {
          assert [] + rest == rest;
        }
      }
      assert entries[|entries|..] == [];
    }
    assert jobIds[|jobIds|..] == [];
    return Converted(accessions);
  }
}
