/**
 * The sequence registry of seq.py: the `Seqs` class, which owns the unique
 * protein sequences under unique descriptors and the accession and structure
 * lists attached to them.
 */
module Registry {
  import opened Common
  import opened Text
  import opened Lists

  /** Provenance tag of a list of PDB identifiers. */
  const PDB_TAG := "pdb"
  /** Provenance tag of a list of AlphaFold model locators. */
  const AF_TAG := "EBI-AF"

  /** The closed set of tags `add_structures` accepts as first element. */
  predicate IsStructureType(t: string) {
    t == PDB_TAG || t == AF_TAG
  }

  /** A stored structure list: a valid tag followed by at least one reference. */
  predicate Tagged(l: seq<string>) {
    |l| > 1 && IsStructureType(l[0])
  }

  /** The codes `add_seq` returns: 0, 1 and 2. */
  datatype AddResult = Added | Invalid | Duplicate

  /** What `add_structures` does: return its verification flag, or raise ValueError. */
  datatype StructuresResult = Returned(verified: bool) | ValueError

  // ---------------------------------------------------------------------------
  // Sequence validation (`_validate_seq`) and normalisation

  predicate IsResidue(c: char) {
    || c == 'A' || c == 'C' || c == 'D' || c == 'E' || c == 'F' || c == 'G' || c == 'H'
    || c == 'I' || c == 'K' || c == 'L' || c == 'M' || c == 'N' || c == 'P' || c == 'Q'
    || c == 'R' || c == 'S' || c == 'T' || c == 'V' || c == 'W' || c == 'Y' || c == '-'
  }

  predicate AllResidues(s: string) {
    forall i :: 0 <= i < |s| ==> IsResidue(s[i])
  }

  /** `re.fullmatch(r"[ACDEFGHIKLMNPQRSTWVY-]+\*?", s)`: residues, then at most one final stop. */
  predicate ValidSeq(s: string) {
    || (|s| >= 1 && AllResidues(s))
    || (|s| >= 2 && s[|s| - 1] == '*' && AllResidues(s[..|s| - 1]))
  }

  /** `seq.strip().upper()`. */
  function Normalise(s: string): string {
    Upper(Strip(s))
  }

  /** A residue or stop character is no whitespace and no lower-case letter. */
  lemma SeqCharNormal(c: char)
    requires IsResidue(c) || c == '*'
    ensures !IsSpace(c) && UpperChar(c) == c && c != '\n'
  {
  }

  /** A valid sequence is already normalised, is not empty and holds no newline. */
  lemma ValidIsNormal(s: string)
    requires ValidSeq(s)
    ensures Normalise(s) == s
    ensures s != [] && '\n' !in s && s[|s| - 1] != '\n'
  {
    forall i | 0 <= i < |s|
      ensures !IsSpace(s[i]) && UpperChar(s[i]) == s[i] && s[i] != '\n'
    {
      if i < |s| - 1 || AllResidues(s) {
        assert IsResidue(s[i]);
      }
      SeqCharNormal(s[i]);
    }
    StripUnchanged(s);
  }

  // ---------------------------------------------------------------------------
  // Descriptor generation (the suffix loop of `add_seq`)

  /** The descriptor tried first: the stripped one, or `seq_<size+1>` when it is empty. */
  function StartDescriptor(dscrptr: string, size: nat): (d: string)
    ensures d != ""
  {
    var d := Strip(dscrptr);
    if d == "" then "seq_" + NatToDecimal(size + 1) else d
  }

  /** One turn of the loop: increment a trailing `_<digits>`, or append `_2`. */
  function NextCandidate(d: string): (r: string)
    ensures r != ""
  {
    match RSplitOnce(d, '_')
    case Some((head, tail)) =>
      if IsDecimal(tail) then head + "_" + NatToDecimal(DecimalValue(tail) + 1) else d + "_2"
    case None => d + "_2"
  }

  /** The descriptor tried after `n` collisions. */
  function Candidate(start: string, n: nat): string {
    if n == 0 then start else NextCandidate(Candidate(start, n - 1))
  }

  /** The part every later candidate keeps before its numeric suffix. */
  function Root(start: string): string {
    match RSplitOnce(start, '_')
    case Some((head, tail)) => if IsDecimal(tail) then head else start
    case None => start
  }

  /** The numeric suffix of the first re-suffixed candidate. */
  function FirstNumber(start: string): nat {
    match RSplitOnce(start, '_')
    case Some((head, tail)) => if IsDecimal(tail) then DecimalValue(tail) + 1 else 2
    case None => 2
  }

  /** `d` is what the loop settles on: the first candidate that is not a key yet. */
  ghost predicate NewDescriptor(keys: set<string>, start: string, d: string) {
    exists n: nat {:trigger AllTaken(keys, start, n)} ::
      AllTaken(keys, start, n) && d == Candidate(start, n) && d !in keys
  }

  /** The first `n` candidates are all taken. */
  ghost predicate AllTaken(keys: set<string>, start: string, n: nat) {
    forall j :: 0 <= j < n ==> Candidate(start, j) in keys
  }

  lemma DecimalHasNoUnderscore(n: nat)
    ensures '_' !in NatToDecimal(n)
  {
    var s := NatToDecimal(n);
    forall i | 0 <= i < |s| ensures s[i] != '_' {
      assert IsDigit(s[i]);
    }
  }

  /** One more turn on a numbered candidate increments its number. */
  lemma NextOfNumbered(root: string, m: nat)
    ensures NextCandidate(root + "_" + NatToDecimal(m)) == root + "_" + NatToDecimal(m + 1)
  {
    var digits := NatToDecimal(m);
    DecimalHasNoUnderscore(m);
    assert root + "_" + digits == root + ['_'] + digits;
    RSplitOfJoin(root, '_', digits);
    DecimalRoundTrip(m);
  }

  /**
   * After the first collision every candidate is the root with a numeric suffix
   * one higher than the previous one: `d`, `d_2`, `d_3`, ... or `x_5`, `x_6`, ...
   */
  lemma {:induction false} CandidateChain(start: string, n: nat)
    requires n >= 1
    ensures Candidate(start, n) == Root(start) + "_" + NatToDecimal(FirstNumber(start) + n - 1)
  {
    if n == 1 {
      FirstCandidate(start);
    } else {
      var m, root := FirstNumber(start) + n - 2, Root(start);
      assert Candidate(start, n - 1) == root + "_" + NatToDecimal(m) by {
        CandidateChain(start, n - 1);
      }
      assert NextCandidate(root + "_" + NatToDecimal(m)) == root + "_" + NatToDecimal(m + 1) by {
        NextOfNumbered(root, m);
      }
    }
  }

  /** The first renaming appends `_2`, or increments an existing numeric suffix. */
  lemma FirstCandidate(start: string)
    ensures NextCandidate(start) == Root(start) + "_" + NatToDecimal(FirstNumber(start))
  {
    assert NatToDecimal(2) == "2";
  }

  /** The descriptor the loop settles on is determined by the keys and the start. */
  lemma NewDescriptorUnique(keys: set<string>, start: string, d1: string, d2: string)
    requires NewDescriptor(keys, start, d1) && NewDescriptor(keys, start, d2)
    ensures d1 == d2
  {
    var n1: nat :| AllTaken(keys, start, n1) && d1 == Candidate(start, n1) && d1 !in keys;
    var n2: nat :| AllTaken(keys, start, n2) && d2 == Candidate(start, n2) && d2 !in keys;
  }

  /**
   * Adding under a descriptor `d` (without a numeric suffix) when `d`, `d_2`,
   * ..., `d_k` are taken and `d_<k+1>` is not yields exactly `d_<k+1>`.
   */
  lemma SuffixSequence(keys: set<string>, d: string, k: nat, chosen: string)
    requires k >= 1
    requires Root(d) == d && FirstNumber(d) == 2
    requires d in keys
    requires forall i :: 2 <= i <= k ==> d + "_" + NatToDecimal(i) in keys
    requires d + "_" + NatToDecimal(k + 1) !in keys
    requires NewDescriptor(keys, d, chosen)
    ensures chosen == d + "_" + NatToDecimal(k + 1)
  {
    forall j | 1 <= j < k ensures Candidate(d, j) in keys {
      CandidateChain(d, j);
      assert Candidate(d, j) == d + "_" + NatToDecimal(j + 1);
    }
    assert Candidate(d, 0) == d;
    CandidateChain(d, k);
    assert Candidate(d, k) == d + "_" + NatToDecimal(k + 1);
    assert AllTaken(keys, d, k);
    NewDescriptorUnique(keys, d, chosen, Candidate(d, k));
  }

  /** The length of the longest descriptor in `keys`. */
  ghost function MaxLength(keys: set<string>): (r: nat)
    ensures forall k :: k in keys ==> |k| <= r
    decreases keys
  {
    if keys == {} then 0
    else
      var k :| k in keys;
      var m := MaxLength(keys - {k});
      if |k| > m then |k| else m
  }

  /** One more turn of the renaming loop past a taken candidate. */
  lemma CandidateStep(keys: set<string>, start: string, n: nat)
    requires AllTaken(keys, start, n)
    requires Candidate(start, n) in keys
    ensures Candidate(start, n + 1) == NextCandidate(Candidate(start, n))
    ensures AllTaken(keys, start, n + 1)
  {
  }

  /** A bound on how many candidates can be taken: the renaming loop terminates. */
  lemma RenameBound(keys: set<string>, start: string) returns (b: nat)
    ensures b >= 1
    ensures forall n: nat :: n >= 1 && Candidate(start, n) in keys ==> n < b
  {
    var limit := Pow10(MaxLength(keys));
    b := if limit + 1 > FirstNumber(start) then limit + 1 - FirstNumber(start) + 1 else 1;
    forall n: nat | n >= 1 && Candidate(start, n) in keys
      ensures n < b
    {
      CandidateBound(start, n, MaxLength(keys));
    }
  }

  /**
   * A numbered candidate no longer than `len` characters has a number below
   * 10^len: the renaming loop cannot run past the longest key.
   */
  lemma CandidateBound(start: string, n: nat, len: nat)
    requires n >= 1 && |Candidate(start, n)| <= len
    ensures FirstNumber(start) + n - 1 < Pow10(len)
  {
    var m := FirstNumber(start) + n - 1;
    CandidateChain(start, n);
    if m >= Pow10(len) {
      DecimalLength(m, len);
    }
  }

  /** Some candidate is free: the first one is what `add_seq` settles on. */
  lemma FreeExists(keys: set<string>, start: string)
    ensures exists d :: NewDescriptor(keys, start, d)
  {
    var b := RenameBound(keys, start);
    var n: nat := 0;
    while Candidate(start, n) in keys
      invariant AllTaken(keys, start, n)
      decreases b - n
    {
      CandidateStep(keys, start, n);
      n := n + 1;
    }
    assert NewDescriptor(keys, start, Candidate(start, n));
  }

  /** The descriptor the renaming loop settles on for the keys `keys`. */
  ghost function FreeCandidate(keys: set<string>, start: string): (d: string)
    ensures NewDescriptor(keys, start, d)
  {
    FreeExists(keys, start);
    var d :| NewDescriptor(keys, start, d); d
  }

  // ---------------------------------------------------------------------------
  // Descriptor verification (`_verify_dscrptr`)

  /** The literal part of the pattern: the descriptor without a trailing `_<digits>`. */
  function PatternBase(d: string): string {
    match RSplitOnce(d, '_')
    case Some((head, tail)) => if IsDecimal(tail) then head else d
    case None => d
  }

  /** `re.match(base + r"(?:_\d+)?$", k)`, with `base` read literally. */
  predicate MatchesBase(base: string, k: string) {
    k == base || (StartsWith(k, base + "_") && IsDecimal(k[|base| + 1..]))
  }

  /** Key `k` matches the base and is stored with sequence `s`. */
  predicate Verifies(m: map<string, string>, base: string, s: string, k: string) {
    MatchesBase(base, k) && k in m && m[k] == s
  }

  /** The scan of `_verify_dscrptr`: the first key in order that verifies, or "". */
  function Resolve(keys: seq<string>, m: map<string, string>, base: string, s: string): string
    decreases |keys|
  {
    if keys == [] then ""
    else if Verifies(m, base, s, keys[0]) then keys[0]
    else Resolve(keys[1..], m, base, s)
  }

  /**
   * With no empty key, the scan returns "" exactly when no key verifies, and
   * otherwise the first key in order that does.
   */
  lemma {:induction false} ResolveFirstMatch(keys: seq<string>, m: map<string, string>, base: string, s: string)
    requires forall i :: 0 <= i < |keys| ==> keys[i] != ""
    ensures var r := Resolve(keys, m, base, s);
      && (r == "" <==> forall i :: 0 <= i < |keys| ==> !Verifies(m, base, s, keys[i]))
      && (r != "" ==> exists i :: 0 <= i < |keys| && keys[i] == r && Verifies(m, base, s, r)
                        && forall j :: 0 <= j < i ==> !Verifies(m, base, s, keys[j]))
    decreases |keys|
  {
    if keys != [] && !Verifies(m, base, s, keys[0]) {
      ResolveFirstMatch(keys[1..], m, base, s);
      var r := Resolve(keys, m, base, s);
      if r != "" {
        var i :| 0 <= i < |keys[1..]| && keys[1..][i] == r && Verifies(m, base, s, r)
          && forall j :: 0 <= j < i ==> !Verifies(m, base, s, keys[1..][j]);
        assert keys[i + 1] == r;
      }
    }
  }

  /**
   * Since no two entries share a sequence, the scan finds the one entry stored
   * with `s` whenever its descriptor matches the base, in whichever order.
   */
  lemma {:induction false} ResolveFindsEntry(keys: seq<string>, m: map<string, string>, base: string, s: string, k: string)
    requires forall k1, k2 :: k1 in m && k2 in m && k1 != k2 ==> m[k1] != m[k2]
    requires k in keys && Verifies(m, base, s, k)
    ensures Resolve(keys, m, base, s) == k
    decreases |keys|
  {
    if keys[0] != k {
      assert !Verifies(m, base, s, keys[0]);
      assert k in keys[1..];
      ResolveFindsEntry(keys[1..], m, base, s, k);
    }
  }

  // ---------------------------------------------------------------------------
  // FASTA text (`get_fasta`)

  function FastaRecord(d: string, s: string): string {
    ">" + d + "\n" + s
  }

  /** Reference text: one record per key, in order, separated by single newlines. */
  function FastaJoin(ks: seq<string>, m: map<string, string>): string
    requires forall i :: 0 <= i < |ks| ==> ks[i] in m
    decreases |ks|
  {
    if ks == [] then ""
    else if |ks| == 1 then FastaRecord(ks[0], m[ks[0]])
    else FastaRecord(ks[0], m[ks[0]]) + "\n" + FastaJoin(ks[1..], m)
  }

  /** What the loop of `get_fasta` accumulates: each record followed by a newline. */
  function FastaLines(ks: seq<string>, m: map<string, string>): string
    requires forall i :: 0 <= i < |ks| ==> ks[i] in m
    decreases |ks|
  {
    if ks == [] then ""
    else
      var k := ks[|ks| - 1];
      FastaLines(ks[..|ks| - 1], m) + FastaRecord(k, m[k]) + "\n"
  }

  lemma {:induction false} FastaJoinSnoc(ks: seq<string>, k: string, m: map<string, string>)
    requires ks != []
    requires forall i :: 0 <= i < |ks| ==> ks[i] in m
    requires k in m
    ensures FastaJoin(ks + [k], m) == FastaJoin(ks, m) + "\n" + FastaRecord(k, m[k])
    decreases |ks|
  {
    if |ks| > 1 {
      assert (ks + [k])[1..] == ks[1..] + [k];
      FastaJoinSnoc(ks[1..], k, m);
    } else {
      assert (ks + [k])[1..] == [k];
    }
  }

  /** The accumulated lines are the joined records plus one final newline. */
  lemma {:induction false} FastaLinesJoin(ks: seq<string>, m: map<string, string>)
    requires ks != []
    requires forall i :: 0 <= i < |ks| ==> ks[i] in m
    ensures FastaLines(ks, m) == FastaJoin(ks, m) + "\n"
    decreases |ks|
  {
    var init, k := ks[..|ks| - 1], ks[|ks| - 1];
    assert ks == init + [k];
    if init != [] {
      FastaLinesJoin(init, m);
      FastaJoinSnoc(init, k, m);
    }
  }

  /** The joined text ends with the last sequence. */
  lemma {:induction false} FastaJoinEnds(ks: seq<string>, m: map<string, string>)
    requires ks != []
    requires forall i :: 0 <= i < |ks| ==> ks[i] in m
    ensures var s := m[ks[|ks| - 1]]; var t := FastaJoin(ks, m);
      |s| <= |t| && t[|t| - |s|..] == s
    decreases |ks|
  {
    if |ks| > 1 {
      FastaJoinEnds(ks[1..], m);
    }
  }

  /** Stripping the final newlines of the accumulated lines leaves the joined records. */
  lemma FastaLinesStripped(ks: seq<string>, m: map<string, string>)
    requires ks != []
    requires forall i :: 0 <= i < |ks| ==> ks[i] in m
    requires var s := m[ks[|ks| - 1]]; s != [] && s[|s| - 1] != '\n'
    ensures RStripNewlines(FastaLines(ks, m)) == FastaJoin(ks, m)
  {
    var joined := FastaJoin(ks, m);
    assert FastaLines(ks, m) == joined + "\n" by {
      FastaLinesJoin(ks, m);
    }
    assert joined != [] && joined[|joined| - 1] != '\n' by {
      FastaJoinEnds(ks, m);
      var v := m[ks[|ks| - 1]];
      assert joined[|joined| - |v|..][|v| - 1] == v[|v| - 1];
    }
    assert (joined + "\n")[..|joined + "\n"| - 1] == joined;
    assert RStripNewlines(joined) == joined;
  }

  /** The values of `m` at `ks`, in order. */
  function ValuesOf(ks: seq<string>, m: map<string, string>): (r: seq<string>)
    requires forall i :: 0 <= i < |ks| ==> ks[i] in m
    ensures |r| == |ks| && forall i :: 0 <= i < |ks| ==> r[i] == m[ks[i]]
    decreases |ks|
  {
    if ks == [] then [] else [m[ks[0]]] + ValuesOf(ks[1..], m)
  }

  /** Storing `s` under a new key appends `s` to the values in key order. */
  lemma ValuesOfAdd(ks: seq<string>, m: map<string, string>, d: string, s: string)
    requires forall i :: 0 <= i < |ks| ==> ks[i] in m
    requires d !in ks
    ensures ValuesOf(ks + [d], m[d := s]) == ValuesOf(ks, m) + [s]
  {
    var m' := m[d := s];
    assert forall i :: 0 <= i < |ks| ==> ks[i] != d && (ks + [d])[i] == ks[i];
    assert forall i :: 0 <= i < |ks| ==> m'[ks[i]] == m[ks[i]];
  }

  // ---------------------------------------------------------------------------
  // The registry

  /**
   * The sequence store: keys are unique and are exactly the ordered descriptors,
   * the sequence set is the set of stored values, no two descriptors share a
   * sequence, descriptors are non-empty and stored sequences valid.
   */
  ghost predicate Stored(order: seq<string>, seqs: map<string, string>, useqs: set<string>) {
    && (forall i, j :: 0 <= i < j < |order| ==> order[i] != order[j])
    && (forall k :: k in seqs <==> k in order)
    && (forall k :: k in seqs ==> seqs[k] in useqs)
    && (forall x :: x in useqs ==> exists k :: k in seqs && seqs[k] == x)
    && (forall k1, k2 :: k1 in seqs && k2 in seqs && k1 != k2 ==> seqs[k1] != seqs[k2])
    && (forall k :: k in seqs ==> k != "" && ValidSeq(seqs[k]))
  }

  /** Storing a new valid sequence under a new descriptor keeps the store consistent. */
  lemma StoredAdd(order: seq<string>, seqs: map<string, string>, useqs: set<string>, d: string, s: string)
    requires Stored(order, seqs, useqs)
    requires d != "" && d !in seqs && s !in useqs && ValidSeq(s)
    ensures Stored(order + [d], seqs[d := s], useqs + {s})
  {
    var order', seqs', useqs' := order + [d], seqs[d := s], useqs + {s};
    assert d !in order;
    forall x | x in useqs' ensures exists k :: k in seqs' && seqs'[k] == x {
      if x == s {
        assert seqs'[d] == x;
      } else {
        var k :| k in seqs && seqs[k] == x;
        assert seqs'[k] == x;
      }
    }
  }

  /** The descriptor `_verify_dscrptr(d, s)` returns for a store with keys `order`. */
  function VerifiedKey(order: seq<string>, seqs: map<string, string>, d: string, s: string): string {
    Resolve(order, seqs, PatternBase(Strip(d)), Normalise(s))
  }

  /** The renaming loop of `add_seq`: the first candidate that is not a key yet. */
  method FreeDescriptor(seqs: map<string, string>, start: string) returns (d: string)
    requires start != ""
    ensures d != ""
    ensures d !in seqs
    ensures NewDescriptor(seqs.Keys, start, d)
    ensures d == FreeCandidate(seqs.Keys, start)
  {
    d := start;
    ghost var n: nat := 0;
    ghost var b := RenameBound(seqs.Keys, start);
    while d in seqs
      invariant d == Candidate(start, n) && d != ""
      invariant AllTaken(seqs.Keys, start, n)
      decreases b - n
    {
      CandidateStep(seqs.Keys, start, n);
      d := NextCandidate(d);
      n := n + 1;
    }
    assert NewDescriptor(seqs.Keys, start, d);
    NewDescriptorUnique(seqs.Keys, start, d, FreeCandidate(seqs.Keys, start));
  }

  // ---------------------------------------------------------------------------
  // The effect of `add_seq` on the descriptors

  /**
   * What `add_seq` reads and writes of a registry: the descriptors in
   * insertion order, and their sequences in the same order.
   */
  datatype Table = Table(order: seq<string>, values: seq<string>)

  /** The descriptors of `order` as a set. */
  function KeySet(order: seq<string>): set<string> {
    set k | k in order
  }

  /**
   * The registry after `add_seq(dscrptr, sequence)`: unchanged for a duplicate
   * or invalid sequence; otherwise the normalised sequence is stored under the
   * first free candidate, and both are appended.
   */
  ghost function AddStep(t: Table, dscrptr: string, sequence: string): Table {
    var s := Normalise(sequence);
    if s in t.values || !ValidSeq(s) then t
    else
      var d := FreeCandidate(KeySet(t.order), StartDescriptor(dscrptr, |t.order|));
      Table(t.order + [d], t.values + [s])
  }

  /**
   * A new valid sequence offered under a descriptor that, stripped, is not
   * empty and not taken is stored under that stripped descriptor.
   */
  lemma AddStepKeepsName(t: Table, dscrptr: string, sequence: string)
    requires Strip(dscrptr) != "" && Strip(dscrptr) !in t.order
    requires Normalise(sequence) !in t.values && ValidSeq(Normalise(sequence))
    ensures AddStep(t, dscrptr, sequence) == Table(t.order + [Strip(dscrptr)], t.values + [Normalise(sequence)])
  {
    var keys, start := KeySet(t.order), StartDescriptor(dscrptr, |t.order|);
    assert AllTaken(keys, start, 0) && Candidate(start, 0) == start && start !in keys;
    NewDescriptorUnique(keys, start, FreeCandidate(keys, start), start);
  }

  /**
   * A new valid sequence offered under a blank descriptor is stored under
   * `seq_<n+1>`, `n` the number of stored sequences, when that is not taken.
   */
  lemma AddStepUnnamed(t: Table, dscrptr: string, sequence: string)
    requires Strip(dscrptr) == "" && "seq_" + NatToDecimal(|t.order| + 1) !in t.order
    requires Normalise(sequence) !in t.values && ValidSeq(Normalise(sequence))
    ensures var d := "seq_" + NatToDecimal(|t.order| + 1);
      AddStep(t, dscrptr, sequence) == Table(t.order + [d], t.values + [Normalise(sequence)])
  {
    var keys, start := KeySet(t.order), StartDescriptor(dscrptr, |t.order|);
    assert AllTaken(keys, start, 0) && Candidate(start, 0) == start && start !in keys;
    NewDescriptorUnique(keys, start, FreeCandidate(keys, start), start);
  }

  /** Non-empty names, no two alike. */
  predicate DistinctNames(ns: seq<string>) {
    && (forall i :: 0 <= i < |ns| ==> ns[i] != "")
    && (forall i, j :: 0 <= i < j < |ns| ==> ns[i] != ns[j])
  }

  /** Names distinct with one more are distinct, and the last is new and non-empty. */
  lemma DistinctNamesSnoc(ns: seq<string>, n: string)
    requires DistinctNames(ns + [n])
    ensures DistinctNames(ns) && n !in ns && n != ""
  {
    var all := ns + [n];
    assert forall i :: 0 <= i < |ns| ==> all[i] == ns[i];
    assert all[|ns|] == n;
  }

  /** A name among distinct names is non-empty and differs from those before it. */
  lemma DistinctNamesAt(ns: seq<string>, i: nat)
    requires DistinctNames(ns) && i < |ns|
    ensures ns[i] != "" && ns[i] !in ns[..i]
  {
  }

  /** Pairwise distinct descriptors are as many as their set. */
  lemma {:induction false} KeySetSize(order: seq<string>)
    requires forall i, j :: 0 <= i < j < |order| ==> order[i] != order[j]
    ensures |KeySet(order)| == |order|
  {
    if order != [] {
      var init, k := order[..|order| - 1], order[|order| - 1];
      KeySetSize(init);
      assert k !in init;
      assert KeySet(order) == KeySet(init) + {k};
    }
  }

  /**
   * In a consistent store the sequence set holds exactly the stored values, and
   * the stored values, in key order, are pairwise distinct.
   */
  lemma StoredValues(order: seq<string>, seqs: map<string, string>, useqs: set<string>)
    requires Stored(order, seqs, useqs)
    ensures forall x :: x in useqs <==> x in ValuesOf(order, seqs)
    ensures NoDup(ValuesOf(order, seqs))
  {
    var vs := ValuesOf(order, seqs);
    forall x | x in useqs ensures x in vs {
      var k :| k in seqs && seqs[k] == x;
      var i :| 0 <= i < |order| && order[i] == k;
      assert vs[i] == x;
    }
  }

  class Seqs {
    /** The descriptors of `_seqs` in insertion order (dictionary order in Python). */
    var order: seq<string>
    /** `_seqs`: descriptor to normalised sequence. */
    var seqs: map<string, string>
    /** `_useqs`: the set of stored sequences. */
    var useqs: set<string>
    /** `_structures`: descriptor to tagged structure list. */
    var structures: map<string, seq<string>>
    /** `_accessions`: descriptor to accession list. */
    var accessions: map<string, seq<string>>

    /**
     * Keys are unique and are exactly the ordered descriptors; the sequence set
     * is the set of stored values; no two descriptors share a sequence; stored
     * sequences are valid and descriptors non-empty; stored structure lists are
     * tagged and non-empty, stored accession lists non-empty.
     */
    ghost predicate Valid()
      reads this
    {
      && Stored(order, seqs, useqs)
      && (forall k :: k in structures ==> Tagged(structures[k]))
      && (forall k :: k in accessions ==> accessions[k] != [])
    }

    constructor ()
      ensures Valid()
      ensures order == [] && seqs == map[] && useqs == {}
      ensures structures == map[] && accessions == map[]
    {
      order, seqs, useqs := [], map[], {};
      structures, accessions := map[], map[];
    }

    /**
     * `add_seq`: a duplicate (2) or invalid (1) sequence changes nothing; a new
     * valid one (0) is stored under the first free candidate descriptor.
     */
    method AddSeq(dscrptr: string, sequence: string) returns (r: AddResult)
      requires Valid()
      modifies this
      ensures Valid()
      ensures Table(order, ValuesOf(order, seqs))
           == AddStep(Table(old(order), ValuesOf(old(order), old(seqs))), dscrptr, sequence)
      ensures r == Duplicate <==> Normalise(sequence) in old(useqs)
      ensures r == Invalid <==> Normalise(sequence) !in old(useqs) && !ValidSeq(Normalise(sequence))
      ensures r != Added ==> order == old(order) && seqs == old(seqs) && useqs == old(useqs)
      ensures structures == old(structures) && accessions == old(accessions)
      ensures r == Duplicate <==> Normalise(sequence) in ValuesOf(old(order), old(seqs))
      ensures r == Added ==> ValuesOf(order, seqs) == ValuesOf(old(order), old(seqs)) + [Normalise(sequence)]
      ensures r == Added ==>
        && |order| == |old(order)| + 1 && order[..|old(order)|] == old(order)
        && NewDescriptor(old(seqs).Keys, StartDescriptor(dscrptr, |old(seqs)|), order[|old(order)|])
        && seqs == old(seqs)[order[|old(order)|] := Normalise(sequence)]
        && useqs == old(useqs) + {Normalise(sequence)}
    {
      StoredValues(order, seqs, useqs);
      assert seqs.Keys == KeySet(order);
      KeySetSize(order);
      var s := Normalise(sequence);
      var d := Strip(dscrptr);
      if s !in useqs {
        if ValidSeq(s) {
          if d == "" {
            d := "seq_" + NatToDecimal(|seqs| + 1);
          }
          d := FreeDescriptor(seqs, d);
          Store(d, s);
          return Added;
        }
        return Invalid;
      }
      return Duplicate;
    }

    /** The storing step of `add_seq`: a new valid sequence under a free descriptor. */
    method Store(d: string, s: string)
      requires Valid()
      requires d != "" && d !in seqs && s !in useqs && ValidSeq(s)
      modifies this
      ensures Valid()
      ensures order == old(order) + [d] && seqs == old(seqs)[d := s] && useqs == old(useqs) + {s}
      ensures structures == old(structures) && accessions == old(accessions)
      ensures ValuesOf(order, seqs) == ValuesOf(old(order), old(seqs)) + [s]
    {
      StoredAdd(order, seqs, useqs, d, s);
      ValuesOfAdd(order, seqs, d, s);
      order, seqs, useqs := order + [d], seqs[d := s], useqs + {s};
    }

    /** `_verify_dscrptr`: scans the descriptors in insertion order. */
    method VerifyDescriptor(d: string, s: string) returns (r: string)
      requires Valid()
      ensures r == VerifiedKey(order, seqs, d, s)
    {
      var base := PatternBase(Strip(d));
      var ns := Normalise(s);
      var i := 0;
      while i < |order|
        invariant 0 <= i <= |order|
        invariant Resolve(order, seqs, base, ns) == Resolve(order[i..], seqs, base, ns)
      {
        var k := order[i];
        if MatchesBase(base, k) && GetSeq(k) == Some(ns) {
          return k;
        }
        assert order[i..][1..] == order[i + 1..];
        i := i + 1;
      }
      return "";
    }

    /**
     * `add_accessions`: fails without change when verification is asked for and
     * fails; otherwise replaces the list, unless the new one is empty.
     */
    method AddAccessions(dscrptr: string, accs: seq<string>, s: string, verify: bool) returns (ok: bool)
      requires Valid()
      modifies this
      ensures Valid()
      ensures order == old(order) && seqs == old(seqs) && useqs == old(useqs)
      ensures structures == old(structures)
      ensures ok == (!verify || VerifiedKey(old(order), old(seqs), dscrptr, s) != "")
      ensures var key := if verify then VerifiedKey(old(order), old(seqs), dscrptr, s) else dscrptr;
        accessions == if ok && accs != [] then old(accessions)[key := accs] else old(accessions)
    {
      var d := dscrptr;
      if verify {
        d := VerifyDescriptor(dscrptr, s);
        if d == "" {
          return false;
        }
      }
      SetAccessions(d, accs);
      return true;
    }

    /** The update step of `add_accessions`: an empty list leaves the entry alone. */
    method SetAccessions(d: string, accs: seq<string>)
      requires Valid()
      modifies this
      ensures Valid()
      ensures order == old(order) && seqs == old(seqs) && useqs == old(useqs)
      ensures structures == old(structures)
      ensures accessions == if accs != [] then old(accessions)[d := accs] else old(accessions)
    {
      if |accs| > 0 {
        accessions := accessions[d := accs];
      }
    }

    /**
     * `add_structures`: fails without change when verification is asked for and
     * fails; otherwise raises ValueError for a missing or unknown tag, and
     * replaces the list only when it holds a reference besides the tag.
     */
    method AddStructures(dscrptr: string, structs: seq<string>, s: string, verify: bool)
      returns (r: StructuresResult)
      requires Valid()
      modifies this
      ensures Valid()
      ensures order == old(order) && seqs == old(seqs) && useqs == old(useqs)
      ensures accessions == old(accessions)
      ensures var key := if verify then VerifiedKey(old(order), old(seqs), dscrptr, s) else dscrptr;
        && r == (if verify && key == "" then Returned(false)
                 else if structs == [] || !IsStructureType(structs[0]) then ValueError
                 else Returned(true))
        && structures == if r == Returned(true) && |structs| > 1
                         then old(structures)[key := structs] else old(structures)
    {
      var d := dscrptr;
      if verify {
        d := VerifyDescriptor(dscrptr, s);
        if d == "" {
          return Returned(false);
        }
      }
      if structs == [] || !IsStructureType(structs[0]) {
        return ValueError;
      }
      SetStructures(d, structs);
      return Returned(true);
    }

    /** The update step of `add_structures`: a bare tag leaves the entry alone. */
    method SetStructures(d: string, structs: seq<string>)
      requires Valid()
      requires structs != [] && IsStructureType(structs[0])
      modifies this
      ensures Valid()
      ensures order == old(order) && seqs == old(seqs) && useqs == old(useqs)
      ensures accessions == old(accessions)
      ensures structures == if |structs| > 1 then old(structures)[d := structs] else old(structures)
    {
      if |structs| > 1 {
        structures := structures[d := structs];
      }
    }

    /** `get_fasta`: the records joined by newlines, with no trailing newline. */
    method GetFasta() returns (out: string)
      requires Valid()
      ensures out == FastaJoin(order, seqs)
    {
      out := "";
      var i := 0;
      while i < |order|
        invariant 0 <= i <= |order|
        invariant out == FastaLines(order[..i], seqs)
      {
        var d := order[i];
        assert order[..i + 1][..i] == order[..i];
        out := out + FastaRecord(d, seqs[d]) + "\n";
        i := i + 1;
      }
      assert order[..i] == order;
      if order != [] {
        ValidIsNormal(seqs[order[|order| - 1]]);
        FastaLinesStripped(order, seqs);
      }
      out := RStripNewlines(out);
    }

    /** `get_seq`: the stored, valid sequence of a descriptor, or None. */
    function GetSeq(d: string): (r: Option<string>)
      reads this
      requires Valid()
      ensures r.Some? <==> d in seqs
      ensures r.Some? ==> r.value in useqs && ValidSeq(r.value)
    {
      if d in seqs then Some(seqs[d]) else None
    }

    /** `get_structures`: the stored tagged list of a descriptor, or None. */
    function GetStructures(d: string): (r: Option<seq<string>>)
      reads this
      requires Valid()
      ensures r.Some? <==> d in structures
      ensures r.Some? ==> Tagged(r.value)
    {
      if d in structures then Some(structures[d]) else None
    }
  }
}
