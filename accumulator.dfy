/** The accumulating variant of 3_k-mers-snp-call.  `snp_compare` takes one
    subject at a time and folds its equality tests into a caller-owned result
    vector: the first test for query i is pushed when the vector has exactly
    i entries, and every later one is OR-ed into entry i.  `main` threads the
    vector through all subjects. */
module Accumulator {
  import opened Outcome
  import opened Fhe
  import opened KMers
  import opened Murmur
  import opened HashMatch

  /** The seed `equality_test` hashes subject k-mers with, a literal there. */
  const LiteralSeed: bv32 := 123456789

  /** The seed `main` hashes the query k-mers with. */
  const ClientSeed: bv32 := 123456789

  function Max(a: nat, b: nat): nat
  {
    if a < b then b else a
  }

  /** `equality_test(query_kmer, subject_kmer)`: `murmur32` of the subject
      k-mer with the literal seed, compared with the encrypted query hash. */
  method EqualityTestLiteral(q: FheUint32, w: string) returns (r: FheBool)
    ensures r.plain <==> q.plain == KmerHash(w, LiteralSeed)
  {
    var h := Murmur32(AsBytes(w), LiteralSeed);
    r := Eq32(q, h);
  }

  /** Some window before n hashes to h. */
  predicate HitBefore(windows: seq<string>, h: bv32, n: nat)
    requires n <= |windows|
  {
    exists p :: 0 <= p < n && KmerHash(windows[p], LiteralSeed) == h
  }

  /** Some window of the subject hashes to h. */
  ghost predicate SubjectHit(subject: string, k: nat, h: bv32)
  {
    exists p :: WindowHit(subject, k, LiteralSeed, h, p)
  }

  /** The windows of a non-empty subject hash to h exactly when the subject
      has a window hit for h. */
  lemma HitBeforeAll(subject: string, k: nat, h: bv32)
    requires subject != []
    ensures HitBefore(KMerLazy(subject, k), h, |KMerLazy(subject, k)|) <==> SubjectHit(subject, k, h)
  {
    hide KmerHash;
    var windows := KMerLazy(subject, k);
    if HitBefore(windows, h, |windows|) {
      var p :| 0 <= p < |windows| && KmerHash(windows[p], LiteralSeed) == h;
      assert WindowHit(subject, k, LiteralSeed, h, p);
    }
    if SubjectHit(subject, k, h) {
      var p :| WindowHit(subject, k, LiteralSeed, h, p);
      assert windows[p] == subject[p..p + k];
    }
  }

  /** `snp_compare(query_kmers, k, subject, results)`: entry i of the result
      vector becomes the OR of its old value (if any) and of the tests of
      query i against every window of the subject.  Entries beyond the
      queries are kept; a subject without windows changes nothing, and the
      else branch never indexes past the end. */
  method SnpCompare(queries: seq<FheUint32>, k: nat, subject: string, results: seq<FheBool>) returns (out: seq<FheBool>)
    requires queries == [] || subject != []
    ensures |out| == if queries == [] || !(1 <= k < |subject|) then |results| else Max(|results|, |queries|)
    ensures forall i :: 0 <= i < |out| ==>
      (out[i].plain <==> (i < |results| && results[i].plain) || (i < |queries| && SubjectHit(subject, k, queries[i].plain)))
  {
    hide KmerHash, WindowHit;
    out := results;
    if queries != [] {
      SomeWindowIff(subject, k);
    }
    for i := 0 to |queries|
      invariant |out| == if i == 0 || !(1 <= k < |subject|) then |results| else Max(|results|, i)
      invariant forall t :: 0 <= t < |out| ==>
        (out[t].plain <==> (t < |results| && results[t].plain) || (t < i && SubjectHit(subject, k, queries[t].plain)))
    {
      var windows := KMerLazy(subject, k);
      ghost var before := out;
      for p := 0 to |windows|
        invariant |out| == if p == 0 then |before| else Max(|results|, i + 1)
        invariant forall t :: 0 <= t < |out| && t != i ==> out[t] == before[t]
        invariant i < |out| ==>
          (out[i].plain <==> (i < |results| && results[i].plain) || HitBefore(windows, queries[i].plain, p))
      {
        var eq := EqualityTestLiteral(queries[i], windows[p]);
        if |out| == i {
          out := out + [eq];
        } else {
          out := out[i := Or(out[i], eq)];
        }
      }
      HitBeforeAll(subject, k, queries[i].plain);
    }
  }

  /** The subject loop of `main`: starting from an empty vector, every
      subject is folded in, so the vector ends with one flag per query when
      some subject has a window (and is empty otherwise), and flag i is true
      exactly when some window of some subject hashes to query i. */
  method MatchSubjects(queries: seq<FheUint32>, k: nat, subjects: seq<string>) returns (results: seq<FheBool>)
    requires queries == [] || NonEmptyAll(subjects)
    ensures |results| == if queries != [] && exists j :: 0 <= j < |subjects| && 1 <= k < |subjects[j]| then |queries| else 0
    ensures forall i :: 0 <= i < |results| ==>
      (results[i].plain <==> exists j, p :: HitAt(subjects, k, LiteralSeed, queries[i].plain, j, p))
    ensures AllHaveWindows(subjects, k) ==> SnpCompareSingle(queries, k, subjects, LiteralSeed) == Ok(results)
  {
    hide KmerHash, WindowHit;
    results := [];
    for s := 0 to |subjects|
      invariant |results| == if queries != [] && exists j :: 0 <= j < s && 1 <= k < |subjects[j]| then |queries| else 0
      invariant forall i :: 0 <= i < |results| ==>
        (results[i].plain <==> exists j, p :: 0 <= j < s && HitAt(subjects, k, LiteralSeed, queries[i].plain, j, p))
    {
      ghost var prev := results;
      results := SnpCompare(queries, k, subjects[s], results);
      forall i | 0 <= i < |results|
        ensures results[i].plain <==> exists j, p :: 0 <= j < s + 1 && HitAt(subjects, k, LiteralSeed, queries[i].plain, j, p)
      {
        if |prev| == 0 && exists j, p :: 0 <= j < s && HitAt(subjects, k, LiteralSeed, queries[i].plain, j, p) {
          var j, p :| 0 <= j < s && HitAt(subjects, k, LiteralSeed, queries[i].plain, j, p);
          HitAtBounds(subjects, k, LiteralSeed, queries[i].plain, j, p);
        }
        if SubjectHit(subjects[s], k, queries[i].plain) {
          var p :| WindowHit(subjects[s], k, LiteralSeed, queries[i].plain, p);
          assert HitAt(subjects, k, LiteralSeed, queries[i].plain, s, p);
        }
        if exists j, p :: 0 <= j < s + 1 && HitAt(subjects, k, LiteralSeed, queries[i].plain, j, p) {
          var j, p :| 0 <= j < s + 1 && HitAt(subjects, k, LiteralSeed, queries[i].plain, j, p);
          if j == s {
            assert SubjectHit(subjects[s], k, queries[i].plain);
          }
        }
      }
    }
    if AllHaveWindows(subjects, k) {
      SnpCompareMeaning(queries, k, subjects, LiteralSeed);
      var flags := SnpCompareSingle(queries, k, subjects, LiteralSeed).value;
      if queries != [] {
        assert 1 <= k < |subjects[0]|;
      }
      assert |flags| == |results|;
      forall i | 0 <= i < |flags|
        ensures flags[i] == results[i]
      {
        assert flags[i].plain == results[i].plain;
      }
      assert flags == results;
    }
  }

  /** The client hashes its k-mers with `seed` and `equality_test` with its
      own literal; the two are the same constant, so a query k-mer that also
      occurs as a produced window of a subject is a hit for the client's
      hash, and `main`'s flag for it ends true. */
  lemma ClientHashHits(query: string, k: nat, subjects: seq<string>, i: nat, j: nat, p: nat)
    requires query != [] && i < |KMerLazy(query, k)|
    requires j < |subjects| && p + k < |subjects[j]| && subjects[j][p..p + k] == KMerLazy(query, k)[i]
    ensures HitAt(subjects, k, LiteralSeed, QueryHashes(query, k, ClientSeed)[i], j, p)
  {
    SomeWindowIff(query, k);
  }
}
