/** The hashed k-mer presence test of 3_k-mers_snp-call_tfhe.  The client
    hashes every window of its query with `murmur32` and encrypts the hashes;
    the server hashes every window of every subject (the SNP neighbourhoods)
    and ORs the encrypted equality tests, giving one encrypted "present"
    flag per query window. */
module HashMatch {
  import opened Outcome
  import opened Fhe
  import opened KMers
  import opened Murmur

  /** The hash of one k-mer: `murmur32(kmer.as_bytes(), seed)`. */
  function KmerHash(w: string, seed: bv32): bv32
  {
    MurmurHash(AsBytes(w), seed)
  }

  /** `equality_test(query_kmer, subject_kmer, seed)`. */
  function EqualityTest(q: FheUint32, w: string, seed: bv32): FheBool
  {
    Eq32(q, KmerHash(w, seed))
  }

  /** The equality tests of one query against a subject's windows, in order. */
  function SubjectTests(q: FheUint32, k: nat, subject: string, seed: bv32): seq<FheBool>
    requires subject != []
  {
    var windows := KMerLazy(subject, k);
    seq(|windows|, p requires 0 <= p < |windows| => EqualityTest(q, windows[p], seed))
  }

  /** The inner reduction of `snp_compare_*`: the OR over one subject's
      windows, which panics when the subject has none. */
  function SubjectMatch(q: FheUint32, k: nat, subject: string, seed: bv32): Result<FheBool>
    requires subject != []
  {
    ReduceOrUnwrap(SubjectTests(q, k, subject, seed))
  }

  /** Each subject's reduction for one query, in subject order. */
  function SubjectResults(q: FheUint32, k: nat, subjects: seq<string>, seed: bv32): (rs: seq<Result<FheBool>>)
    requires NonEmptyAll(subjects)
    ensures |rs| == |subjects|
  {
    seq(|subjects|, j requires 0 <= j < |subjects| => SubjectMatch(q, k, subjects[j], seed))
  }

  /** The outer reduction: the OR over all subjects, subject by subject, so
      the first subject without windows panics; no subjects panics too. */
  function QueryMatch(q: FheUint32, k: nat, subjects: seq<string>, seed: bv32): Result<FheBool>
    requires NonEmptyAll(subjects)
  {
    var flags :- Collect(SubjectResults(q, k, subjects, seed));
    ReduceOrUnwrap(flags)
  }

  /** Each query's flag, in query order. */
  function QueryResults(queries: seq<FheUint32>, k: nat, subjects: seq<string>, seed: bv32): (rs: seq<Result<FheBool>>)
    requires queries == [] || NonEmptyAll(subjects)
    ensures |rs| == |queries|
  {
    seq(|queries|, i requires 0 <= i < |queries| => QueryMatch(queries[i], k, subjects, seed))
  }

  /** `snp_compare_single`: one flag per query, collected in query order. */
  function SnpCompareSingle(queries: seq<FheUint32>, k: nat, subjects: seq<string>, seed: bv32): Result<seq<FheBool>>
    requires queries == [] || NonEmptyAll(subjects)
  {
    Collect(QueryResults(queries, k, subjects, seed))
  }

  /** `snp_compare_parallel`: the same per-query map run by `par_iter`, whose
      `collect` splits the queries and joins the halves in order. */
  function SnpCompareParallel(queries: seq<FheUint32>, k: nat, subjects: seq<string>, seed: bv32): Result<seq<FheBool>>
    requires queries == [] || NonEmptyAll(subjects)
  {
    ParCollect(QueryResults(queries, k, subjects, seed))
  }

  /** `encrypt_kmer_hashes`: every hash encrypted, in order. */
  function EncryptKmerHashes(hashes: seq<bv32>): (r: seq<FheUint32>)
    ensures |r| == |hashes| && forall i :: 0 <= i < |hashes| ==> r[i].plain == hashes[i]
  {
    seq(|hashes|, i requires 0 <= i < |hashes| => FheUint32(hashes[i]))
  }

  /** The client's hashes of its query k-mers, in window order. */
  function QueryHashes(query: string, k: nat, seed: bv32): seq<bv32>
    requires query != []
  {
    var windows := KMerLazy(query, k);
    seq(|windows|, i requires 0 <= i < |windows| => KmerHash(windows[i], seed))
  }

  /** The window of the subject starting at p is one that `k_mer_lazy`
      produces, and it hashes to h. */
  predicate WindowHit(subject: string, k: nat, seed: bv32, h: bv32, p: int)
  {
    1 <= k && 0 <= p && p + k < |subject| && KmerHash(subject[p..p + k], seed) == h
  }

  /** Window p of subject j is produced and hashes to h. */
  predicate HitAt(subjects: seq<string>, k: nat, seed: bv32, h: bv32, j: int, p: int)
  {
    0 <= j < |subjects| && WindowHit(subjects[j], k, seed, h, p)
  }

  /** A hit names an existing subject, which has a window. */
  lemma HitAtBounds(subjects: seq<string>, k: nat, seed: bv32, h: bv32, j: int, p: int)
    requires HitAt(subjects, k, seed, h, j, p)
    ensures 0 <= j < |subjects| && 1 <= k < |subjects[j]|
  {
  }

  /** Every subject yields at least one window, and there is a subject. */
  predicate AllHaveWindows(subjects: seq<string>, k: nat)
  {
    subjects != [] && forall j :: 0 <= j < |subjects| ==> 1 <= k < |subjects[j]|
  }

  /** One subject's reduction succeeds exactly when the subject has a
      window, and otherwise panics on the empty reduction. */
  lemma SubjectMatchOk(q: FheUint32, k: nat, subject: string, seed: bv32)
    requires subject != []
    ensures SubjectMatch(q, k, subject, seed).Ok? <==> 1 <= k < |subject|
    ensures SubjectMatch(q, k, subject, seed).Err? ==> SubjectMatch(q, k, subject, seed).fault == EmptyReduction
  {
    SomeWindowIff(subject, k);
    assert |SubjectTests(q, k, subject, seed)| == |KMerLazy(subject, k)|;
  }

  /** A successful subject reduction is true exactly when one of the
      subject's windows hashes to the query. */
  lemma SubjectMatchFlag(q: FheUint32, k: nat, subjects: seq<string>, j: nat, seed: bv32)
    requires j < |subjects| && subjects[j] != []
    requires SubjectMatch(q, k, subjects[j], seed).Ok?
    ensures SubjectMatch(q, k, subjects[j], seed).value.plain <==> exists p :: HitAt(subjects, k, seed, q.plain, j, p)
  {
    hide KmerHash;
    var s := subjects[j];
    var tests := SubjectTests(q, k, s, seed);
    if exists p :: 0 <= p < |tests| && tests[p].plain {
      var p :| 0 <= p < |tests| && tests[p].plain;
      assert HitAt(subjects, k, seed, q.plain, j, p);
    }
    if exists p :: HitAt(subjects, k, seed, q.plain, j, p) {
      var p :| HitAt(subjects, k, seed, q.plain, j, p);
      var windows := KMerLazy(s, k);
      assert p < |windows| && windows[p] == s[p..p + k];
      assert tests[p] == Eq32(q, KmerHash(windows[p], seed));
    }
  }

  /** One query's flag: the call succeeds exactly when every subject has a
      window, and otherwise panics on an empty reduction. */
  lemma QueryMatchOk(q: FheUint32, k: nat, subjects: seq<string>, seed: bv32)
    requires NonEmptyAll(subjects)
    ensures QueryMatch(q, k, subjects, seed).Ok? <==> AllHaveWindows(subjects, k)
    ensures QueryMatch(q, k, subjects, seed).Err? ==> QueryMatch(q, k, subjects, seed).fault == EmptyReduction
  {
    hide KmerHash, HitAt;
    var rs := SubjectResults(q, k, subjects, seed);
    forall j | 0 <= j < |subjects|
      ensures rs[j].Ok? <==> 1 <= k < |subjects[j]|
      ensures rs[j].Err? ==> rs[j].fault == EmptyReduction
    {
      SubjectMatchOk(q, k, subjects[j], seed);
    }
    var c := Collect(rs);
    if c.Err? {
      var j :| 0 <= j < |rs| && rs[j] == Err(c.fault);
      assert !(1 <= k < |subjects[j]|);
    } else {
      assert |c.value| == |subjects|;
    }
  }

  /** A successful query flag is true exactly when some window of some
      subject hashes to the query value. */
  lemma QueryMatchFlag(q: FheUint32, k: nat, subjects: seq<string>, seed: bv32)
    requires NonEmptyAll(subjects)
    requires QueryMatch(q, k, subjects, seed).Ok?
    ensures QueryMatch(q, k, subjects, seed).value.plain <==> exists j, p :: HitAt(subjects, k, seed, q.plain, j, p)
  {
    hide KmerHash, HitAt;
    var rs := SubjectResults(q, k, subjects, seed);
    assert Collect(rs).Ok?;
    var flags := Collect(rs).value;
    assert |flags| == |subjects|;
    forall j | 0 <= j < |subjects|
      ensures flags[j].plain <==> exists p :: HitAt(subjects, k, seed, q.plain, j, p)
    {
      assert rs[j] == SubjectMatch(q, k, subjects[j], seed) && rs[j].Ok?;
      SubjectMatchFlag(q, k, subjects, j, seed);
    }
    if exists j :: 0 <= j < |flags| && flags[j].plain {
      var j :| 0 <= j < |flags| && flags[j].plain;
      var p :| HitAt(subjects, k, seed, q.plain, j, p);
    }
    if exists j, p :: HitAt(subjects, k, seed, q.plain, j, p) {
      var j, p :| HitAt(subjects, k, seed, q.plain, j, p);
      HitAtBounds(subjects, k, seed, q.plain, j, p);
      assert flags[j].plain;
    }
  }

  /** `snp_compare_single` returns one flag per query, in query order; it
      succeeds exactly when there are no queries or every subject has a
      window, and flag i is true exactly when some window of some subject
      hashes to query i. */
  lemma SnpCompareMeaning(queries: seq<FheUint32>, k: nat, subjects: seq<string>, seed: bv32)
    requires queries == [] || NonEmptyAll(subjects)
    ensures SnpCompareSingle(queries, k, subjects, seed).Ok? <==> queries == [] || AllHaveWindows(subjects, k)
    ensures SnpCompareSingle(queries, k, subjects, seed).Err? ==> SnpCompareSingle(queries, k, subjects, seed).fault == EmptyReduction
    ensures SnpCompareSingle(queries, k, subjects, seed).Ok? ==>
      var flags := SnpCompareSingle(queries, k, subjects, seed).value;
      |flags| == |queries| &&
      forall i :: 0 <= i < |queries| ==> (flags[i].plain <==> exists j, p :: HitAt(subjects, k, seed, queries[i].plain, j, p))
  {
    var rs := QueryResults(queries, k, subjects, seed);
    forall i | 0 <= i < |queries|
      ensures rs[i].Ok? <==> AllHaveWindows(subjects, k)
      ensures rs[i].Err? ==> rs[i].fault == EmptyReduction
      ensures rs[i].Ok? ==> (rs[i].value.plain <==> exists j, p :: HitAt(subjects, k, seed, queries[i].plain, j, p))
    {
      QueryMatchOk(queries[i], k, subjects, seed);
      if rs[i].Ok? {
        QueryMatchFlag(queries[i], k, subjects, seed);
      }
    }
    if queries != [] {
      assert rs[0].Ok? <==> AllHaveWindows(subjects, k);
    }
  }

  /** The parallel map computes exactly what the single-threaded one does,
      flags and panics alike. */
  lemma ParallelIsSingle(queries: seq<FheUint32>, k: nat, subjects: seq<string>, seed: bv32)
    requires queries == [] || NonEmptyAll(subjects)
    ensures SnpCompareParallel(queries, k, subjects, seed) == SnpCompareSingle(queries, k, subjects, seed)
  {
    ParCollectIsCollect(QueryResults(queries, k, subjects, seed));
  }

  /** The protocol never misses a shared k-mer: when query window i also
      occurs as a window of some subject, its flag is true.  (The converse
      fails only on a hash collision.) */
  lemma SharedWindowFound(query: string, k: nat, subjects: seq<string>, seed: bv32, i: nat, j: nat, p: nat)
    requires query != [] && NonEmptyAll(subjects)
    requires SnpCompareSingle(EncryptKmerHashes(QueryHashes(query, k, seed)), k, subjects, seed).Ok?
    requires i < |KMerLazy(query, k)|
    requires j < |subjects| && p + k < |subjects[j]| && subjects[j][p..p + k] == KMerLazy(query, k)[i]
    ensures SnpCompareSingle(EncryptKmerHashes(QueryHashes(query, k, seed)), k, subjects, seed).value[i].plain
  {
    var queries := EncryptKmerHashes(QueryHashes(query, k, seed));
    SnpCompareMeaning(queries, k, subjects, seed);
    assert 1 <= k;
    assert HitAt(subjects, k, seed, queries[i].plain, j, p);
  }
}
