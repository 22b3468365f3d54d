/**
 * BLAST processing of bl.py: the hit filter, the classification of status
 * pages, the polling state machine of `run`, and the harvesting of PDB
 * identifiers and accessions from the accepted hits of one query.
 *
 * The JSON result is given as datatypes; the status pages as a sequence.
 */
module Blast {
  import opened Common
  import opened Text
  import opened Lists
  import opened Registry

  // ---------------------------------------------------------------------------
  // The BLAST result (JSON2_S), as far as the program reads it

  /** The first high-scoring pair of a hit: `hit["hsps"][0]`. */
  datatype Hsp = Hsp(identity: int, gaps: int, alignLen: int, hseq: string, qseq: string)

  /** One entry of `hit["description"]`. */
  datatype Description = Description(id: string, accession: string)

  datatype Hit = Hit(hsp: Hsp, descriptions: seq<Description>)

  /** `report["report"]["results"]["search"]`: query title, sequence, length and hits. */
  datatype Report = Report(title: string, querySeq: string, queryLen: int, hits: seq<Hit>)

  // ---------------------------------------------------------------------------
  // Hit filter (`_checkhit`)

  /** `IDENT`: identity plus gaps must reach this fraction of the alignment length. */
  const IDENT := 1
  /** `COV` = 0.9, as the fraction COV_NUM / COV_DEN. */
  const COV_NUM := 9
  const COV_DEN := 10
  /** `GAPS`: the largest number of gap runs allowed in either aligned sequence. */
  const GAPS := 1

  /** `len(re.findall(r"-+", s))`: the number of maximal runs of '-'. */
  function GapRuns(s: string): nat
    decreases |s|
  {
    if s == [] then 0
    else
      var init := s[..|s| - 1];
      GapRuns(init) + (if s[|s| - 1] == '-' && (init == [] || init[|init| - 1] != '-') then 1 else 0)
  }

  /** Reference definition: every position between two dashes is a dash. */
  predicate DashesContiguous(s: string) {
    forall i, j :: 0 <= i < j < |s| && s[i] == '-' && s[j] == '-' ==>
      forall k :: i < k < j ==> s[k] == '-'
  }

  /** No run at all exactly when there is no dash. */
  lemma {:induction false} NoGapRuns(s: string)
    ensures GapRuns(s) == 0 <==> '-' !in s
    decreases |s|
  {
    if s != [] {
      var init := s[..|s| - 1];
      NoGapRuns(init);
      assert s == init + [s[|s| - 1]];
      if init != [] && GapRuns(init) == 0 {
        assert init[|init| - 1] in init;
      }
    }
  }

  /** At most one run exactly when the dashes form one contiguous block. */
  lemma {:induction false} GapRunsContiguous(s: string)
    ensures GapRuns(s) <= 1 <==> DashesContiguous(s)
    decreases |s|
  {
    if s != [] {
      var init, c := s[..|s| - 1], s[|s| - 1];
      GapRunsContiguous(init);
      assert s == init + [c];
      assert forall i :: 0 <= i < |init| ==> s[i] == init[i];
      if c != '-' {
        assert DashesContiguous(s) <==> DashesContiguous(init);
      } else if init != [] && init[|init| - 1] == '-' {
        if DashesContiguous(init) {
          forall i, j | 0 <= i < j < |s| && s[i] == '-' && s[j] == '-'
            ensures forall k :: i < k < j ==> s[k] == '-'
          {
            if j == |s| - 1 && i < |init| - 1 {
              assert forall k :: i < k < |init| - 1 ==> init[k] == '-';
            }
          }
        }
      } else {
        NoGapRuns(init);
      }
    }
  }

  /**
   * `_checkhit`: identity plus gaps covers the alignment, the alignment covers
   * more than 90% of the query, and the gaps (if any) form at most one run in
   * each aligned sequence.
   */
  function CheckHit(hit: Hit, qLen: int): (ok: bool)
    ensures ok <==>
      && hit.hsp.identity + hit.hsp.gaps >= hit.hsp.alignLen
      && 10 * hit.hsp.alignLen > 9 * qLen
      && (hit.hsp.gaps == 0 || (DashesContiguous(hit.hsp.hseq) && DashesContiguous(hit.hsp.qseq)))
  {
    var hsp := hit.hsp;
    GapRunsContiguous(hsp.hseq);
    GapRunsContiguous(hsp.qseq);
    && hsp.identity + hsp.gaps >= hsp.alignLen * IDENT
    && COV_DEN * hsp.alignLen > COV_NUM * qLen
    && (hsp.gaps == 0 || (GapRuns(hsp.hseq) <= GAPS && GapRuns(hsp.qseq) <= GAPS))
  }

  // ---------------------------------------------------------------------------
  // Status pages (`_outcome`)

  const WAITING := 1
  const FAILED := 2
  const UNKNOWN := 3
  const READY := 4
  const UNRECOGNISED := -1

  /** The line `re.search(r"\s+Status=<word>\n", page)` looks for. */
  function StatusLine(word: string): string {
    "Status=" + word + "\n"
  }

  /** `re.search(r"\s+" + pat, s)`: `pat` occurs right after a whitespace character. */
  function FoundAfterSpace(s: string, pat: string): bool
    decreases |s|
  {
    if |s| < |pat| + 1 then false
    else (IsSpace(s[0]) && s[1..|pat| + 1] == pat) || FoundAfterSpace(s[1..], pat)
  }

  /** `pat` occurs at `j + 1` in `s`, right after the whitespace character `s[j]`. */
  ghost predicate AfterSpaceAt(s: string, pat: string, j: int) {
    0 <= j && j + 1 + |pat| <= |s| && IsSpace(s[j]) && s[j + 1..j + 1 + |pat|] == pat
  }

  /** Reference definition: some occurrence of `pat` is preceded by whitespace. */
  ghost predicate OccursAfterSpace(s: string, pat: string) {
    exists j :: AfterSpaceAt(s, pat, j)
  }

  /** Occurrences in the tail of `s` are the later occurrences in `s`, shifted by one. */
  lemma ShiftAt(s: string, pat: string, j: int)
    requires |s| >= 1 && j >= 0
    ensures AfterSpaceAt(s[1..], pat, j) <==> AfterSpaceAt(s, pat, j + 1)
  {
    if 0 <= j && j + 1 + |pat| <= |s| - 1 {
      assert s[1..][j] == s[j + 1];
      assert s[1..][j + 1..j + 1 + |pat|] == s[j + 2..j + 2 + |pat|];
    }
  }

  lemma {:induction false} FoundAfterSpaceIff(s: string, pat: string)
    ensures FoundAfterSpace(s, pat) <==> OccursAfterSpace(s, pat)
    decreases |s|
  {
    if |s| >= |pat| + 1 {
      var t := s[1..];
      FoundAfterSpaceIff(t, pat);
      var here := IsSpace(s[0]) && s[1..|pat| + 1] == pat;
      assert here <==> AfterSpaceAt(s, pat, 0);
      if OccursAfterSpace(t, pat) {
        var j :| AfterSpaceAt(t, pat, j);
        ShiftAt(s, pat, j);
      }
      if OccursAfterSpace(s, pat) && !here {
        var j :| AfterSpaceAt(s, pat, j);
        ShiftAt(s, pat, j - 1);
      }
    } else {
      assert !OccursAfterSpace(s, pat);
    }
  }

  /** The page reports status `word`. */
  ghost predicate HasStatus(page: string, word: string) {
    OccursAfterSpace(page, StatusLine(word))
  }

  /** `_outcome`: the first of WAITING, FAILED, UNKNOWN and READY found decides. */
  function Outcome(page: string): int {
    if FoundAfterSpace(page, StatusLine("WAITING")) then WAITING
    else if FoundAfterSpace(page, StatusLine("FAILED")) then FAILED
    else if FoundAfterSpace(page, StatusLine("UNKNOWN")) then UNKNOWN
    else if FoundAfterSpace(page, StatusLine("READY")) then READY
    else UNRECOGNISED
  }

  /**
   * `_outcome` reads the page by its status lines: WAITING, FAILED, UNKNOWN and
   * READY are checked in this order and the first present one decides; a page
   * with none of them is unrecognised.
   */
  lemma OutcomeStatus(page: string)
    ensures var code := Outcome(page);
      && (code == WAITING <==> HasStatus(page, "WAITING"))
      && (code == FAILED <==> !HasStatus(page, "WAITING") && HasStatus(page, "FAILED"))
      && (code == UNKNOWN <==>
            !HasStatus(page, "WAITING") && !HasStatus(page, "FAILED") && HasStatus(page, "UNKNOWN"))
      && (code == READY <==>
            !HasStatus(page, "WAITING") && !HasStatus(page, "FAILED") && !HasStatus(page, "UNKNOWN")
            && HasStatus(page, "READY"))
      && (code == UNRECOGNISED <==>
            !HasStatus(page, "WAITING") && !HasStatus(page, "FAILED") && !HasStatus(page, "UNKNOWN")
            && !HasStatus(page, "READY"))
  {
    FoundAfterSpaceIff(page, StatusLine("WAITING"));
    FoundAfterSpaceIff(page, StatusLine("FAILED"));
    FoundAfterSpaceIff(page, StatusLine("UNKNOWN"));
    FoundAfterSpaceIff(page, StatusLine("READY"));
  }

  // ---------------------------------------------------------------------------
  // The polling loop of `run`

  /** How the polling loop ends: break on READY, exit otherwise. */
  datatype PollResult =
    | Finished
    | Failed(rid: string)     // "BLAST (ID: '<rid>') failed"
    | Expired(rid: string)    // "BLAST (ID: '<rid>') expired", also for Status=UNKNOWN
    | UnknownError            // "Unknown error retrieving BLAST output"
    | StillWaiting            // every answer so far said WAITING

  /** Index of the first status page that is not WAITING, or the number of pages. */
  function FirstDecided(pages: seq<string>): (k: nat)
    ensures k <= |pages|
    ensures forall i :: 0 <= i < k ==> Outcome(pages[i]) == WAITING
    ensures k < |pages| ==> Outcome(pages[k]) != WAITING
    decreases |pages|
  {
    if pages == [] || Outcome(pages[0]) != WAITING then 0 else 1 + FirstDecided(pages[1..])
  }

  /** What a decided (not WAITING) status code ends the loop with. */
  function Verdict(rid: string, code: int): PollResult
    requires code != WAITING
  {
    if code == FAILED then Failed(rid)
    else if code == UNKNOWN then Expired(rid)
    else if code == READY then Finished
    else UnknownError
  }

  /** The delays slept before each status request: 10, 20, 30, ... */
  function Delays(n: nat): (r: seq<int>)
    ensures |r| == n && forall i :: 0 <= i < n ==> r[i] == 10 * (i + 1)
  {
    seq(n, i => 10 * (i + 1))
  }

  /**
   * The polling loop, given the status pages the server answers in turn.
   * `sleeps` is the sequence of `time.sleep` arguments: first the estimated
   * time `rtoe`, then one delay per request, starting at 10 and growing by 10
   * after every WAITING.
   */
  method PollBlast(rid: string, rtoe: int, pages: seq<string>) returns (r: PollResult, sleeps: seq<int>)
    ensures var k := FirstDecided(pages);
      && r == (if k == |pages| then StillWaiting else Verdict(rid, Outcome(pages[k])))
      && sleeps == [rtoe] + Delays(if k == |pages| then k else k + 1)
  {
    var delay := 10;
    sleeps := [rtoe];
    var i := 0;
    while i < |pages|
      invariant 0 <= i <= FirstDecided(pages)
      invariant delay == 10 * (i + 1)
      invariant sleeps == [rtoe] + Delays(i)
    {
      sleeps := sleeps + [delay];
      var code := Outcome(pages[i]);
      if code == WAITING {
        delay := delay + 10;
      } else if code == FAILED {
        return Failed(rid), sleeps;
      } else if code == UNKNOWN {
        return Expired(rid), sleeps;
      } else if code == READY {
        return Finished, sleeps;
      } else {
        return UnknownError, sleeps;
      }
      i := i + 1;
    }
    return StillWaiting, sleeps;
  }

  // ---------------------------------------------------------------------------
  // Harvesting identifiers from accepted hits (`_acc_pdb_from_hit`)

  /** The PDB identifiers and accession numbers gathered for one query so far. */
  datatype Harvest = Harvest(pdbs: seq<string>, accessions: seq<string>)

  /** A description of a PDB entry: its id starts with "pdb|". */
  predicate IsPdbEntry(d: Description) {
    StartsWith(d.id, "pdb|")
  }

  /** The PDB identifier of a PDB description: its accession without the chain suffix. */
  function PdbId(d: Description): string {
    BeforeFirst(d.accession, '_')
  }

  /**
   * The description loop of `_acc_pdb_from_hit` from the state `h`, with `flag`
   * saying whether this hit may still contribute an accession.
   */
  function HarvestFrom(h: Harvest, ds: seq<Description>, flag: bool): Harvest
    decreases |ds|
  {
    if ds == [] then h
    else if IsPdbEntry(ds[0]) then
      var p := PdbId(ds[0]);
      HarvestFrom(h.(pdbs := if p in h.pdbs then h.pdbs else h.pdbs + [p]), ds[1..], flag)
    else if flag && ds[0].accession !in h.accessions then
      HarvestFrom(h.(accessions := h.accessions + [ds[0].accession]), ds[1..], false)
    else HarvestFrom(h, ds[1..], flag)
  }

  /** Reference list: the PDB identifiers of the PDB descriptions, in order. */
  function PdbIds(ds: seq<Description>): seq<string>
    decreases |ds|
  {
    if ds == [] then []
    else (if IsPdbEntry(ds[0]) then [PdbId(ds[0])] else []) + PdbIds(ds[1..])
  }

  /** Reference list: the accessions of the descriptions that are not PDB entries. */
  function OtherAccessions(ds: seq<Description>): seq<string>
    decreases |ds|
  {
    if ds == [] then []
    else (if IsPdbEntry(ds[0]) then [] else [ds[0].accession]) + OtherAccessions(ds[1..])
  }

  /** Index of the first non-PDB description whose accession is not yet `known`, or |ds|. */
  function FirstNewAccession(known: seq<string>, ds: seq<Description>): (i: nat)
    ensures i <= |ds|
    ensures i < |ds| ==> !IsPdbEntry(ds[i]) && ds[i].accession !in known
    ensures forall j :: 0 <= j < i ==> IsPdbEntry(ds[j]) || ds[j].accession in known
    decreases |ds|
  {
    if ds == [] || (!IsPdbEntry(ds[0]) && ds[0].accession !in known) then 0
    else 1 + FirstNewAccession(known, ds[1..])
  }

  /** PDB identifiers are gathered exactly as `AppendNew` gathers them. */
  lemma {:induction false} HarvestPdbs(h: Harvest, ds: seq<Description>, flag: bool)
    ensures HarvestFrom(h, ds, flag).pdbs == AppendNew(h.pdbs, PdbIds(ds))
    decreases |ds|
  {
    if ds != [] {
      if IsPdbEntry(ds[0]) {
        var p := PdbId(ds[0]);
        HarvestPdbs(h.(pdbs := if p in h.pdbs then h.pdbs else h.pdbs + [p]), ds[1..], flag);
        assert ([p] + PdbIds(ds[1..]))[1..] == PdbIds(ds[1..]);
      } else if flag && ds[0].accession !in h.accessions {
        HarvestPdbs(h.(accessions := h.accessions + [ds[0].accession]), ds[1..], false);
        assert PdbIds(ds) == [] + PdbIds(ds[1..]) == PdbIds(ds[1..]);
      } else {
        HarvestPdbs(h, ds[1..], flag);
        assert PdbIds(ds) == [] + PdbIds(ds[1..]) == PdbIds(ds[1..]);
      }
    }
  }

  /** Once the hit has given its accession, no other is taken. */
  lemma {:induction false} HarvestSpent(h: Harvest, ds: seq<Description>)
    ensures HarvestFrom(h, ds, false).accessions == h.accessions
    decreases |ds|
  {
    if ds != [] {
      if IsPdbEntry(ds[0]) {
        var p := PdbId(ds[0]);
        HarvestSpent(h.(pdbs := if p in h.pdbs then h.pdbs else h.pdbs + [p]), ds[1..]);
      } else {
        HarvestSpent(h, ds[1..]);
      }
    }
  }

  /**
   * One hit adds at most one accession: the first one of a non-PDB description
   * that is not already known.
   */
  lemma {:induction false} HarvestAccession(h: Harvest, ds: seq<Description>)
    ensures var i := FirstNewAccession(h.accessions, ds);
      HarvestFrom(h, ds, true).accessions
        == h.accessions + (if i < |ds| then [ds[i].accession] else [])
    decreases |ds|
  {
    if ds != [] {
      if IsPdbEntry(ds[0]) {
        var p := PdbId(ds[0]);
        HarvestAccession(h.(pdbs := if p in h.pdbs then h.pdbs else h.pdbs + [p]), ds[1..]);
      } else if ds[0].accession !in h.accessions {
        HarvestSpent(h.(accessions := h.accessions + [ds[0].accession]), ds[1..]);
      } else {
        HarvestAccession(h, ds[1..]);
      }
    }
  }

  /** The accession a hit gives comes from one of its non-PDB descriptions. */
  lemma {:induction false} NewAccessionOffered(known: seq<string>, ds: seq<Description>)
    ensures var i := FirstNewAccession(known, ds);
      i < |ds| ==> ds[i].accession in OtherAccessions(ds)
    decreases |ds|
  {
    if ds != [] && !(!IsPdbEntry(ds[0]) && ds[0].accession !in known) {
      NewAccessionOffered(known, ds[1..]);
    }
  }

  /** `_acc_pdb_from_hit` on one hit, updating the lists of its query. */
  method AccPdbFromHit(h: Harvest, hit: Hit) returns (r: Harvest)
    ensures r == HarvestFrom(h, hit.descriptions, true)
  {
    var pdbs, accessions := h.pdbs, h.accessions;
    var flag := true;
    var ds := hit.descriptions;
    var i := 0;
    while i < |ds|
      invariant 0 <= i <= |ds|
      invariant HarvestFrom(Harvest(pdbs, accessions), ds[i..], flag) == HarvestFrom(h, ds, true)
    {
      var d := ds[i];
      assert ds[i..][0] == d && ds[i..][1..] == ds[i + 1..];
      if StartsWith(d.id, "pdb|") {
        var p := BeforeFirst(d.accession, '_');
        if p !in pdbs {
          pdbs := pdbs + [p];
        }
      } else if flag {
        if d.accession !in accessions {
          accessions := accessions + [d.accession];
          flag := false;
        }
      }
      i := i + 1;
    }
    return Harvest(pdbs, accessions);
  }

  // ---------------------------------------------------------------------------
  // The hit loop of `process`

  /** The hit loop from the state `h`: accepted hits are harvested, others skipped. */
  function EvidenceFrom(h: Harvest, hits: seq<Hit>, qLen: int): Harvest
    decreases |hits|
  {
    if hits == [] then h
    else
      EvidenceFrom(if CheckHit(hits[0], qLen) then HarvestFrom(h, hits[0].descriptions, true) else h,
                   hits[1..], qLen)
  }

  /** What `process` gathers for one query: it starts from `["pdb"]` and `[]`. */
  function Evidence(hits: seq<Hit>, qLen: int): Harvest {
    EvidenceFrom(Harvest([PDB_TAG], []), hits, qLen)
  }

  /** Reference list: the PDB identifiers of all accepted hits, in order. */
  function AcceptedPdbIds(hits: seq<Hit>, qLen: int): seq<string>
    decreases |hits|
  {
    if hits == [] then []
    else (if CheckHit(hits[0], qLen) then PdbIds(hits[0].descriptions) else []) + AcceptedPdbIds(hits[1..], qLen)
  }

  /** Reference list: the non-PDB accessions of all accepted hits, in order. */
  function AcceptedAccessions(hits: seq<Hit>, qLen: int): seq<string>
    decreases |hits|
  {
    if hits == [] then []
    else (if CheckHit(hits[0], qLen) then OtherAccessions(hits[0].descriptions) else [])
         + AcceptedAccessions(hits[1..], qLen)
  }

  /** The number of accepted hits. */
  function AcceptedCount(hits: seq<Hit>, qLen: int): nat
    decreases |hits|
  {
    if hits == [] then 0 else (if CheckHit(hits[0], qLen) then 1 else 0) + AcceptedCount(hits[1..], qLen)
  }

  /** Over all hits, the PDB list is the start list extended by every new identifier of an accepted hit. */
  lemma {:induction false} EvidencePdbs(h: Harvest, hits: seq<Hit>, qLen: int)
    ensures EvidenceFrom(h, hits, qLen).pdbs == AppendNew(h.pdbs, AcceptedPdbIds(hits, qLen))
    decreases |hits|
  {
    if hits != [] {
      var ids := if CheckHit(hits[0], qLen) then PdbIds(hits[0].descriptions) else [];
      var h' := if CheckHit(hits[0], qLen) then HarvestFrom(h, hits[0].descriptions, true) else h;
      if CheckHit(hits[0], qLen) {
        HarvestPdbs(h, hits[0].descriptions, true);
      }
      assert h'.pdbs == AppendNew(h.pdbs, ids);
      EvidencePdbs(h', hits[1..], qLen);
      AppendNewConcat(h.pdbs, ids, AcceptedPdbIds(hits[1..], qLen));
    }
  }

  /**
   * Over all hits, accessions are only ever appended, stay duplicate-free,
   * number at most one per accepted hit, and come from accepted hits.
   */
  lemma {:induction false} EvidenceAccessions(h: Harvest, hits: seq<Hit>, qLen: int)
    requires NoDup(h.accessions)
    ensures var r := EvidenceFrom(h, hits, qLen).accessions;
      && |h.accessions| <= |r| <= |h.accessions| + AcceptedCount(hits, qLen)
      && r[..|h.accessions|] == h.accessions
      && NoDup(r)
      && forall x :: x in r ==> x in h.accessions || x in AcceptedAccessions(hits, qLen)
    decreases |hits|
  {
    if hits != [] {
      var h' := if CheckHit(hits[0], qLen) then HarvestFrom(h, hits[0].descriptions, true) else h;
      var offered := if CheckHit(hits[0], qLen) then OtherAccessions(hits[0].descriptions) else [];
      if CheckHit(hits[0], qLen) {
        HarvestAccession(h, hits[0].descriptions);
        NewAccessionOffered(h.accessions, hits[0].descriptions);
      }
      assert |h'.accessions| <= |h.accessions| + (if CheckHit(hits[0], qLen) then 1 else 0);
      assert h'.accessions[..|h.accessions|] == h.accessions;
      assert NoDup(h'.accessions);
      assert forall x :: x in h'.accessions ==> x in h.accessions || x in offered;
      EvidenceAccessions(h', hits[1..], qLen);
      var r := EvidenceFrom(h', hits[1..], qLen).accessions;
      assert r[..|h'.accessions|][..|h.accessions|] == r[..|h.accessions|];
      assert AcceptedAccessions(hits, qLen) == offered + AcceptedAccessions(hits[1..], qLen);
    }
  }

  /**
   * For one query: the structure list is tagged "pdb" and then holds, once
   * each, the identifiers of the accepted hits in order of first appearance;
   * the accession list is duplicate-free, holds at most one accession per
   * accepted hit, and only accessions of accepted hits.
   */
  lemma EvidenceShape(hits: seq<Hit>, qLen: int)
    ensures var e := Evidence(hits, qLen);
      && e.pdbs == AppendNew([PDB_TAG], AcceptedPdbIds(hits, qLen))
      && e.pdbs != [] && e.pdbs[0] == PDB_TAG && NoDup(e.pdbs)
      && (forall p :: p in e.pdbs ==> p == PDB_TAG || p in AcceptedPdbIds(hits, qLen))
      && NoDup(e.accessions) && |e.accessions| <= AcceptedCount(hits, qLen)
      && (forall x :: x in e.accessions ==> x in AcceptedAccessions(hits, qLen))
  {
    EvidencePdbs(Harvest([PDB_TAG], []), hits, qLen);
    AppendNewElements([PDB_TAG], AcceptedPdbIds(hits, qLen));
    AppendNewNoDup([PDB_TAG], AcceptedPdbIds(hits, qLen));
    EvidenceAccessions(Harvest([PDB_TAG], []), hits, qLen);
  }

  /** The hit loop of `process` for one query. */
  method GatherEvidence(hits: seq<Hit>, qLen: int) returns (e: Harvest)
    ensures e == Evidence(hits, qLen)
  {
    e := Harvest([PDB_TAG], []);
    var i := 0;
    while i < |hits|
      invariant 0 <= i <= |hits|
      invariant EvidenceFrom(e, hits[i..], qLen) == Evidence(hits, qLen)
    {
      assert hits[i..][0] == hits[i] && hits[i..][1..] == hits[i + 1..];
      if CheckHit(hits[i], qLen) {
        e := AccPdbFromHit(e, hits[i]);
      }
      i := i + 1;
    }
  }
}
