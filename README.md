# PySeqSt core, modelled in Dafny

PySeqSt collects protein sequences from a FASTA file or a BLAST result into a
registry. For each sequence it gathers the PDB entries of near-identical BLAST
hits and the UniProt accessions those hits map to. It then extends the
registry's structure lists with further PDB entries found for those accessions
(RCSB search), or with EBI AlphaFold models when no structure is known.

The Dafny project models the following.

- **The `Seqs` registry** (`registry.dfy`, module `Registry`) is a class over:
  - the ordered descriptors;
  - the descriptor-to-sequence map;
  - the set of unique sequences;
  - the structure map;
  - the accession map.

  Its invariant `Seqs.Valid` says that:
  - keys are unique and are exactly the ordered descriptors;
  - the sequence set is the set of stored values;
  - no two descriptors share a sequence;
  - stored sequences are valid and descriptors are non-empty;
  - stored structure lists are tagged and hold a reference;
  - stored accession lists are non-empty.

  The module also holds:
  - the renaming loop of `add_seq`, proved to terminate and to choose the first free candidate `d`, `d_2`, `d_3`, …;
  - the descriptor verification scan;
  - the two guarded writers;
  - `get_fasta`, against a reference join of records.
- **The BLAST processing of bl.py** (`blast.dfy`, `uniprot.dfy`, `blastpass.dfy`):
  - the hit filter, with gap runs proved equivalent to "dashes are contiguous";
  - status-page classification;
  - the polling state machine with its growing delays;
  - harvesting PDB identifiers and accessions from accepted hits;
  - the UniProt conversion, with its polls and its order-preserving, duplicate-free merge;
  - the two passes `extractseq` and `process`.
- **The reconciliation passes** `uniprot_to_pdb` (`pdb.dfy`) and `from_uniprot` (`alphafold.dfy`).
  - Each is a class-level method proved equal to a map-level specification of the whole pass.
  - Lemmas state what the pass does to each descriptor.
- **The FASTA reader** `process_fasta` (`fasta.dfy`).
  - The line loop, with its last-line special case, is proved to submit exactly one record per header block with non-empty text.
  - The registry it builds holds each valid sequence once, in first-seen order.
  - The invalid count accounts for every invalid record.

Remote services are modelled as inputs:
- the BLAST status pages are a sequence of answers;
- the UniProt service is a datatype of functions: submission, successive statuses, results;
- the RCSB search and the AlphaFold lookup are functions from accession to answer.

Dictionaries are Dafny maps; insertion order matters only for `_seqs`, and is kept as a separate `order` sequence. Strings are `seq<char>`.

## Model

| member | source | states |
|---|---|---|
| Registry.Seqs.constructor | seq.py:7-20 | A new registry is empty and satisfies the registry invariant. |
| Registry.Seqs.AddSeq | seq.py:63-101 | Returns 2 exactly when the normalised sequence is already stored, and returns 1 exactly when it is new and invalid; in both cases nothing changes. On 0 it stores the sequence under the first free candidate descriptor, appends that descriptor to the order and adds the sequence to the set. The values in key order grow by exactly the new sequence, and annotations are untouched. The descriptors and values in order change as the registry-level rule `AddStep` says. |
| Registry.AddStepKeepsName | seq.py:69-95 | By the `add_seq` rule, a new valid sequence offered under a descriptor that, stripped, is non-empty and not taken is appended under that stripped descriptor, unrenamed. |
| Registry.AddStepUnnamed | seq.py:76-95 | By the `add_seq` rule, a new valid sequence offered under a blank descriptor is appended under `seq_<n+1>`, `n` the number stored, when that is not taken. |
| Registry.FreeExists | seq.py:80-90 | Whatever the keys, some candidate of the renaming loop is free, so the loop always settles on a descriptor. |
| Registry.Seqs.Store | seq.py:92-95 | Storing a new valid sequence under a free non-empty descriptor keeps the invariant and appends the sequence to the values in key order. |
| Registry.FreeDescriptor | seq.py:80-90 | The renaming loop terminates. It returns a non-empty descriptor that is not a key and is the first untaken candidate, the one `AddStep` uses. |
| Registry.CandidateChain | seq.py:81-90 | After n ≥ 1 collisions the candidate is the root followed by `_` and a number that has grown by one per collision. |
| Registry.NextOfNumbered | seq.py:83-88 | Renaming `root_m` gives `root_<m+1>`. |
| Registry.SuffixSequence | seq.py:77-90 | When `d`, `d_2`, …, `d_k` are taken and `d_<k+1>` is free, adding under `d` chooses exactly `d_<k+1>`. |
| Registry.NewDescriptorUnique | seq.py:81-90 | The chosen descriptor is determined by the keys and the starting candidate. |
| Registry.RenameBound | seq.py:81-90 | Only boundedly many candidates can be taken, so the `while True` loop ends. |
| Registry.CandidateBound | seq.py:81-90 | A numbered candidate no longer than `len` characters has a number below 10 to the power `len`. |
| Registry.ValidIsNormal | seq.py:144-150 | A sequence accepted by `_validate_seq` is its own strip-and-upper, is non-empty and has no newline. |
| Registry.StoredAdd | seq.py:92-95 | Adding a new valid sequence under a new descriptor keeps the store consistent: unique keys, set equal to values, no shared sequence. |
| Registry.StoredValues | seq.py:14-16 | In a consistent store the sequence set is exactly the set of stored values, and the values in key order are pairwise distinct. |
| Registry.ValuesOfAdd | seq.py:93 | Storing under a new key appends the sequence to the values in key order. |
| Registry.Seqs.VerifyDescriptor | seq.py:152-173 | Returns the result of the scan specification `Resolve`, over the keys in insertion order. |
| Registry.ResolveFirstMatch | seq.py:166-173 | The scan returns `""` exactly when no key matches the base with an optional `_digits` suffix and holds the normalised sequence. Otherwise it returns the first such key in order. |
| Registry.ResolveFindsEntry | seq.py:166-173 | Because no two entries share a sequence, a matching entry holding the sequence is found wherever it sits in the order. |
| Registry.Seqs.AddAccessions | seq.py:22-34 | Verification failure returns False and changes nothing. Otherwise it returns True and replaces the list of the verified (or given) descriptor, only when the new list is non-empty. |
| Registry.Seqs.SetAccessions | seq.py:32-33 | An empty list leaves the accession map unchanged; a non-empty one replaces the entry. |
| Registry.Seqs.AddStructures | seq.py:36-61 | Verification failure returns False with no change, before any tag check. Otherwise an empty list or an unknown tag raises ValueError with no change; else it returns True and stores the list only when it has more than one element. |
| Registry.Seqs.SetStructures | seq.py:58-60 | A bare tag leaves the structure map unchanged; a longer tagged list replaces the entry. |
| Registry.Seqs.GetFasta | seq.py:126-132 | Returns `>d\ns` per entry in insertion order, joined by single newlines, with no trailing newline (`""` when empty). |
| Registry.FastaLinesJoin | seq.py:129-131 | The accumulated text is the joined records plus one final newline. |
| Registry.FastaLinesStripped | seq.py:132 | Stripping trailing newlines from the accumulated text leaves exactly the joined records, since stored sequences do not end in a newline. |
| Registry.FastaJoinSnoc | seq.py:130-131 | One more entry adds a newline and its record to the joined text. |
| Registry.Seqs.GetSeq | seq.py:134-137 | Present exactly for stored descriptors, and then a stored, valid sequence. |
| Registry.Seqs.GetStructures | seq.py:139-142 | Present exactly for descriptors with structures, and then a tagged list. |
| Blast.CheckHit | bl.py:55-67 | True iff identity plus gaps reach the alignment length, 10·alignLen > 9·queryLen, and either there are no gaps or the dashes of both aligned sequences are contiguous. |
| Blast.GapRunsContiguous | bl.py:64-65 | Counting maximal `-` runs gives at most one exactly when all dashes form one contiguous block. |
| Blast.NoGapRuns | bl.py:64-65 | There is no gap run exactly when there is no dash. |
| Blast.FoundAfterSpaceIff | bl.py:269-276 | The scan for a pattern after whitespace succeeds iff some occurrence of the pattern is preceded by a whitespace character. |
| Blast.OutcomeStatus | bl.py:267-277 | WAITING, FAILED, UNKNOWN and READY are checked in this order; the first status line present decides 1, 2, 3 or 4, and -1 when none is present. |
| Blast.FirstDecided | bl.py:169-191 | Indexes the first status page that is not WAITING; every earlier page is WAITING. |
| Blast.PollBlast | bl.py:163-191 | The loop ends with the verdict of the first non-WAITING page: READY finishes, FAILED fails, UNKNOWN expires, anything else is an unknown error. It is still waiting if every page is WAITING. The sleeps are the estimated time, then 10, 20, 30, … with one per request. |
| Blast.FirstNewAccession | bl.py:81-86 | Indexes the first non-PDB description whose accession is not yet known; every earlier one is a PDB entry or known. |
| Blast.HarvestPdbs | bl.py:76-79 | The PDB identifiers (accession before the first `_`) of `pdb|` descriptions are appended in order, each only once. |
| Blast.HarvestAccession | bl.py:72-86 | A hit adds at most one accession: the first non-PDB one not already listed. |
| Blast.HarvestSpent | bl.py:82-86 | Once the flag is cleared, no further accession is taken from the hit. |
| Blast.NewAccessionOffered | bl.py:81-86 | The accession taken comes from a non-PDB description of the hit. |
| Blast.AccPdbFromHit | bl.py:69-86 | The description loop computes the harvest specification `HarvestFrom` for the hit. |
| Blast.EvidencePdbs | bl.py:103-110 | Over all hits, the PDB list is the start list extended, once each, by the identifiers of the accepted hits. |
| Blast.EvidenceAccessions | bl.py:103-110 | Over all hits, accessions are only appended and stay duplicate-free. There is at most one per accepted hit, and each comes from an accepted hit. |
| Blast.EvidenceShape | bl.py:101-110 | For one query, the structure list is tagged "pdb", duplicate-free, and holds only identifiers of accepted hits in first-seen order. The accession list is duplicate-free, has at most one entry per accepted hit, and only their accessions. |
| Blast.GatherEvidence | bl.py:101-110 | The hit loop computes the per-query harvest specification `Evidence`. |
| UniProtMapping.FirstSettled | bl.py:229-239 | Indexes the first status that is not NEW or RUNNING. |
| UniProtMapping.JobStop | bl.py:229-239 | A job finishes exactly when its first settled status is absent; a present one fails the conversion, and no settled status leaves it running. |
| UniProtMapping.AwaitAll | bl.py:228-239 | The polls succeed exactly when every job finishes; a stop is never a conversion result. |
| UniProtMapping.Present | bl.py:246-251 | Keeps exactly the entries that carry a primary accession. |
| UniProtMapping.ConvertResult | bl.py:215-253 | The conversion succeeds exactly when every job finishes. Its result is each returned accession once, in first-seen order across jobs, and nothing else. |
| UniProtMapping.PollJob | bl.py:230-239 | The status loop of one job computes `JobStop`. |
| UniProtMapping.ConvertToUniprot | bl.py:215-253 | Submission, polling and merge compute the conversion specification `Convert`. |
| BlastPass.ReportStep | bl.py:90-125 | A report halts exactly when its sequence is registered, it has accessions and their conversion fails. It is unmatched exactly when its sequence is not registered, or when it does not halt and verification fails. Otherwise it writes the verified descriptor's PDB list and converted accessions. |
| BlastPass.RunCounts | bl.py:89-128 | The report loop completes exactly when no step halts, and counts the unmatched reports. |
| BlastPass.RunStops | bl.py:116-118 | A halted loop stops with the first halting report's conversion. |
| BlastPass.ReportStepWithin | bl.py:120-125 | A written step names a registered descriptor and carries a list tagged "pdb". |
| BlastPass.RunWrites | bl.py:120-125 | The loop writes only under registered descriptors, only tagged or non-empty lists, and removes nothing. |
| BlastPass.ProcessOutcome | bl.py:48-128 | `process` exits exactly when a report's conversion fails, and then with the first failure. Otherwise it returns the number of unmatched reports. It writes only within the registry. |
| BlastPass.Process | bl.py:48-128 | Leaves descriptors and sequences alone; its result and annotations are those of `ProcessSpec` on the old state. |
| BlastPass.ExtractSeq | bl.py:31-45 | A fresh registry gets every query. The pass succeeds exactly when every normalised query sequence is valid and new. The registry then holds exactly those sequences in report order, under the descriptors `add_seq` picks for the titles in turn (`Descriptors`), with no annotations. |
| BlastPass.AddQuery | bl.py:42-43 | `add_seq` on the next query succeeds exactly when its normalised sequence is valid and new. It then extends the stored values by it and the descriptors by the one `add_seq` picks for its title. |
| BlastPass.Offer | bl.py:42 | `add_seq` under a report's title answers 0 exactly for a valid new query. It then appends the descriptor `add_seq` picks for the title, and otherwise leaves the descriptors alone. |
| BlastPass.DescriptorsKeepTitles | bl.py:36-43 | When the stripped titles are distinct and non-empty, the queries are stored under exactly those titles, in report order, with none renamed. |
| BlastPass.RegistrableSnoc | bl.py:36-43 | One more valid, new sequence keeps the queries so far registrable. |
| PdbSearch.FirstNoResults | pd.py:73-89 | Indexes the first accession whose search answers 204; every earlier one returned identifiers. |
| PdbSearch.GatherPdbsFound | pd.py:73-104 | The accession loop appends, once each and in order, the identifiers found for the accessions before the first 204. Later accessions are not searched. |
| PdbSearch.PdbEntryShape | pd.py:67-104 | The new list keeps the seed as its prefix and is tagged "pdb". It holds only the seed and identifiers found before the first 204, and adds no duplicates. |
| PdbSearch.PdbPassEffect | pd.py:64-106 | Descriptors without accessions keep their entry. A descriptor with accessions gets its new list when it holds an identifier, and keeps its entry otherwise. Every written list is tagged. |
| PdbSearch.PdbPassedStep | pd.py:65-106 | Visiting one more descriptor writes its entry exactly when the new list holds an identifier. |
| PdbSearch.PdbPassedUnvisited | pd.py:65-70 | An unvisited descriptor's seed is still its original one. |
| PdbSearch.CollectPdbs | pd.py:73-104 | The accession loop computes `GatherPdbs`. |
| PdbSearch.SeedFor | pd.py:66-70 | Reads the seed `PdbSeed` from the registry: the stored list when it is tagged "pdb", and `["pdb"]` otherwise. |
| PdbSearch.ReconcileEntry | pd.py:66-106 | One descriptor: other fields unchanged; its entry is replaced by the new list only when that holds an identifier. |
| PdbSearch.UniprotToPdb | pd.py:64-106 | Descriptors, sequences and accessions are unchanged, and the structure map becomes that of the whole pass, `PdbPassed`. |
| AlphaFold.FirstNotFound | af.py:34-39 | Indexes the first accession without a model (404); every earlier one has a model. |
| AlphaFold.GatherModelsFound | af.py:34-46 | The loop appends, in accession order, the locator of every accession before the first 404, and nothing else. |
| AlphaFold.AfEntry | af.py:33-46 | The list is "EBI-AF" followed by the `cifUrl` of each accession before the first 404. |
| AlphaFold.AfPassKeeps | af.py:29-30 | Every descriptor that had structures keeps them. |
| AlphaFold.AfPassFills | af.py:27-50 | A descriptor without structures gets some exactly when it has accessions and the first has a model; it then gets `AfEntry`. |
| AlphaFold.AfPassedStep | af.py:27-50 | Visiting one more descriptor writes its entry exactly when it had none and a model was found. |
| AlphaFold.AfPassedUnvisited | af.py:27-30 | An unvisited descriptor is present exactly when it was, and then with its original entry. |
| AlphaFold.CollectModels | af.py:33-48 | The accession loop computes `AfEntry`. |
| AlphaFold.FallbackEntry | af.py:28-50 | A descriptor with stored structures is skipped. Otherwise its entry becomes `AfEntry` when that holds a model, and other fields are unchanged. |
| AlphaFold.FromUniprot | af.py:27-50 | Descriptors, sequences and accessions are unchanged, and the structure map becomes that of the whole pass, `AfPassed`. |
| Fasta.ScanIsBlocks | fp.py:62-89 | The line loop, with its last-line special case, submits exactly the reference blocks: one record per header block whose stitched text is non-empty. |
| Fasta.RecordsAreBlocks | fp.py:57-89 | `process_fasta` submits, in file order, one record per header block with non-empty text. Text before any header goes under `""`. No submitted record is empty. |
| Fasta.BlocksNonEmpty | fp.py:70 | No block record has empty text. |
| Fasta.KeepValidSplit | fp.py:72-80 | Every record is either counted invalid or kept, and the kept sequences are exactly the valid ones. |
| Fasta.GatheredShape | fp.py:70-85 | The registry holds each valid normalised sequence once, in first-seen order, and nothing else. Invalid count plus valid records equals the number of records. |
| Fasta.GatheredSnoc | fp.py:71-80 | One more record is gathered when its sequence is valid and new, and counted when it is invalid. |
| Fasta.Submit | fp.py:71-80 | `add_seq` answers 1 exactly when the record's normalised sequence is invalid, and appends a valid new sequence to the stored values. Descriptors and values change by the `add_seq` rule `AddStep`. |
| Fasta.EndOfRecord | fp.py:70-85 | A non-empty record is submitted and counted when invalid; an empty one is skipped. The registry stays the `add_seq` rule applied to the records submitted so far. |
| Fasta.ReadLine | fp.py:62-89 | One turn of the line loop preserves "records submitted so far plus the rest of the scan equal the records of the file", and the registry stays the `add_seq` rule applied to the records submitted. |
| Fasta.ProcessFasta | fp.py:57-96 | A fresh registry gets the records in file order. The invalid count is the number of records with an invalid sequence, with duplicates not counted. The registry holds each valid sequence once in first-seen order, with no annotations. Its descriptors and values are the `add_seq` rule applied to the records in turn (`AddRecords`). |
| Fasta.NamedByStep | fp.py:71-89 | A record offered under a new non-empty descriptor is stored, if at all, under that descriptor with its own normalised sequence. |
| Fasta.AddRecordsKeepNames | fp.py:62-89 | When the records' stripped descriptors are distinct and non-empty, no record is renamed: every registry descriptor is a record's own, and holds that record's normalised sequence. |
| Text.DecimalRoundTrip | seq.py:87 | `int(str(n)) == n`. |
| Text.RSplitOfJoin | seq.py:83 | `rsplit("_", 1)` of `a + "_" + b` gives back `a` and `b` when `b` has no underscore. |
| Text.RSplitOnce | seq.py:83-84 | One part when there is no separator; otherwise the parts around the last separator, and the tail holds none. |
| Text.BeforeFirst | bl.py:78-79 | `split("_", 1)[0]`: the longest prefix without the separator. |
| Text.Strip | seq.py:69-70 | No whitespace at either end, and no longer than the input. |
| Text.StripSlice | seq.py:69-70 | `strip()` keeps the slice of the input between a whitespace-only prefix and a whitespace-only suffix. |
| Lists.AppendNewIsFirsts | bl.py:248-249 | Appending each new candidate to a duplicate-free list gives the first occurrences of the whole, in order. |
| Lists.AppendNewElements | bl.py:78-79 | Nothing already gathered is lost or moved, and exactly the candidates are added. |
| Lists.AppendNewNoDup | bl.py:78-79 | A duplicate-free list stays duplicate-free. |
| Lists.AppendNewConcat | pd.py:99-102 | Gathering `a` then `b` is gathering `a + b`. |

## Left out

- HTTP requests, `time.sleep`, `print` and `sys.exit` are not modelled as effects.
  - Remote answers are inputs.
  - Sleeps are returned as a sequence of delays in `Blast.PollBlast`.
  - Exits are result values: `Blast.PollResult`, `UniProtMapping.Conversion`, `BlastPass.ProcessResult`, and `ok == false` of `BlastPass.ExtractSeq`.
  - HTTP errors and timeouts (which exit) are not modelled.
- Polling loops without end: a finite sequence of answers stands for the server.
  - `Blast.PollBlast` returns `StillWaiting` when every page says WAITING.
  - `UniProtMapping.JobStop` returns `StillRunning` when every status says NEW or RUNNING.
  - The fixed 15-second delay of the UniProt poll is not tracked.
- JSON decoding and `KeyError` exits are not modelled (bl.py:112-113, pd.py:103-104). Reports, hits and descriptions are datatypes carrying the fields the code reads. Only the first HSP of a hit is modelled.
- `run` is not modelled outside its polling loop:
  - the empty-query check;
  - RID/RTOE extraction from the response text;
  - the final JSON download;
  - the query-sequence rewrite;
  - `save_blast`.
- File I/O (`open`, `readlines`, `open_blast`, `save_structures`, the output folders), the interactive `_cont` prompt after invalid records, and the PySeqSt.py command line are not part of this model. `Fasta.ProcessFasta` takes the list of lines.
- Blast.CheckHit: the float `COV = 0.9` is read as the exact fraction 9/10 (`10·alignLen > 9·queryLen`); floating-point rounding of `q_len * 0.9` is not modelled.
- Text.Upper, Text.IsDecimal: `str.upper` and `str.isdecimal` (and `\d` in `_verify_dscrptr`) are modelled on ASCII only. Whitespace for `strip` and `\s` is Python's full set.
- Registry.MatchesBase: the descriptor is spliced unescaped into the regular expression at seq.py:162-164, and is modelled as a literal prefix. Regex metacharacters in descriptors are not modelled. The `$` of that pattern, which also matches before a final newline, is not modelled either; stored keys are stripped, so they do not end in a newline.
- Dictionary iteration order is modelled only for `_seqs` (the `order` field), which `_verify_dscrptr` and `get_fasta` depend on. For `_accessions`, `_structures` and the passes of pd.py and af.py, descriptors are visited in an unspecified order. This is harmless because each descriptor reads and writes only its own entry.
- PdbSearch.ReconcileEntry: pd.py appends to the stored list in place (aliasing). The model builds a new list and writes it back. These agree because a stored "pdb" list already has more than one element, so the write always happens.
- AlphaFold.FallbackEntry: a prediction answer is either 404 or the `cifUrl` of the first model. Other HTTP errors and malformed answers exit and are not modelled.
- Registry.Seqs.AddStructures: ValueError is a result value, not an exception. Every caller modelled here passes a tagged list.
