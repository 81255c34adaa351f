/** The exact k-mer presence test of 5_k-mers_snp-call_tfhe.  The client
    packs every window of its query with `binary_encode`, keeps the values as
    16-bit codes (so k must be 5 to 8), remembers the smallest and largest
    code and encrypts the codes.  The server packs every window of every
    subject, drops the codes outside [min, max], and ORs the encrypted
    equality tests over the kept codes. */
module ExactMatch {
  import opened Outcome
  import opened UInt
  import opened KmerTypes
  import opened Fhe
  import opened KMers

  /** `binary_encode(kmer).to_u16()`: the base-4 value of an ACGT k-mer of
      5 to 8 bases.  A longer-than-64 or non-ACGT k-mer panics in
      `binary_encode`, any other length in `to_u16`. */
  function EncodeU16(w: string): (r: Result<u16>)
    ensures r.Ok? <==> 5 <= |w| <= 8 && AllBases(w)
    ensures r.Ok? ==> r.value == Base4(w)
    ensures |w| <= 64 && AllBases(w) && !(5 <= |w| <= 8) ==> r == Err(UnsupportedVariant)
    ensures Encoding(w).Err? ==> r == Err(Encoding(w).fault)
  {
    if Encoding(w).Ok? then
      EncodingToU16(w);
      ToU16(Encoding(w).value)
    else
      Err(Encoding(w).fault)
  }

  /** Equal-length k-mers that both encode have equal codes exactly when they
      are the same k-mer: the code comparison never reports a false match. */
  lemma EncodeU16Injective(w1: string, w2: string)
    requires |w1| == |w2| && EncodeU16(w1).Ok? && EncodeU16(w2).Ok?
    ensures EncodeU16(w1) == EncodeU16(w2) <==> w1 == w2
  {
    EncodingInjective(w1, w2);
    var x1, x2 := Encoding(w1).value, Encoding(w2).value;
    VariantAndPayloadDetermine(x1, x2);
    assert Payload(x1) == Base4(w1) && Payload(x2) == Base4(w2);
  }

  // ---------------------------------------------------------------------------
  // Client side

  /** What the client's map closure returns for one query k-mer:
      `binary_encode(kmer)`, after `to_u16` has accepted it. */
  function QueryValue(w: string): (r: Result<KmerType>)
    ensures r.Ok? <==> EncodeU16(w).Ok?
    ensures r.Ok? ==> r.value.U16? && Payload(r.value) == EncodeU16(w).value
    ensures r.Err? ==> r.fault == EncodeU16(w).fault
  {
    var x :- Encoding(w);
    var v :- ToU16(x);
    Ok(x)
  }

  /** The collected client values: the first k-mer that fails aborts. */
  function ClientValues(kmers: seq<string>): Result<seq<KmerType>>
  {
    Collect(seq(|kmers|, i requires 0 <= i < |kmers| => QueryValue(kmers[i])))
  }

  /** The client's values exist exactly when every query k-mer is an ACGT
      string of 5 to 8 bases, and they are then U16 values holding the
      codes of the k-mers, in order. */
  lemma ClientValuesMeaning(kmers: seq<string>)
    ensures ClientValues(kmers).Ok? <==> forall i :: 0 <= i < |kmers| ==> 5 <= |kmers[i]| <= 8 && AllBases(kmers[i])
    ensures ClientValues(kmers).Ok? ==>
      |ClientValues(kmers).value| == |kmers| &&
      forall i :: 0 <= i < |kmers| ==>
        ClientValues(kmers).value[i].U16? && Payload(ClientValues(kmers).value[i]) == Base4(kmers[i])
  {
    var rs := seq(|kmers|, i requires 0 <= i < |kmers| => QueryValue(kmers[i]));
    assert forall i :: 0 <= i < |kmers| ==> rs[i] == QueryValue(kmers[i]);
  }

  /** The client's map in `main`: each query k-mer is encoded and converted,
      and `max`/`min` (starting at 0 and 0xFFFF) move to every code at least
      as large / at least as small.  So every value lies in [min, max] and,
      when there is a k-mer, both bounds are attained. */
  method ClientEncode(kmers: seq<string>) returns (r: Result<seq<KmerType>>, min: u16, max: u16)
    ensures r == ClientValues(kmers)
    ensures r.Ok? ==> forall i :: 0 <= i < |kmers| ==> min <= Payload(r.value[i]) <= max
    ensures r.Ok? && kmers != [] ==>
      (exists i :: 0 <= i < |kmers| && Payload(r.value[i]) == min) &&
      (exists i :: 0 <= i < |kmers| && Payload(r.value[i]) == max)
    ensures kmers == [] ==> min == 0xFFFF && max == 0
  {
    hide Encoding, EncodeU16, Collect;
    ghost var rs := seq(|kmers|, i requires 0 <= i < |kmers| => QueryValue(kmers[i]));
    min, max := 0xFFFF, 0;
    var values: seq<KmerType> := [];
    for i := 0 to |kmers|
      invariant |values| == i
      invariant forall t :: 0 <= t < i ==> rs[t] == Ok(values[t])
      invariant forall t :: 0 <= t < i ==> min <= Payload(values[t]) <= max
      invariant i == 0 ==> min == 0xFFFF && max == 0
      invariant i > 0 ==> (exists t :: 0 <= t < i && Payload(values[t]) == min) && (exists t :: 0 <= t < i && Payload(values[t]) == max)
    {
      var bin := BinaryEncode(kmers[i]);
      if bin.Err? {
        r := Err(bin.fault);
        assert rs[i] == Err(bin.fault);
        return;
      }
      var value := ToU16(bin.value);
      if value.Err? {
        r := Err(value.fault);
        assert rs[i] == Err(value.fault);
        return;
      }
      if value.value >= max {
        max := value.value;
      }
      if value.value <= min {
        min := value.value;
      }
      values := values + [bin.value];
      assert rs[i] == Ok(values[i]);
    }
    r := Ok(values);
    assert Collect(rs).Ok?;
    assert Collect(rs).value == values;
  }

  /** `FheUint16::encrypt(kmer.to_u16(), key)` for one value. */
  function EncryptOne(x: KmerType): Result<FheUint16>
  {
    var v :- ToU16(x);
    Ok(FheUint16(v))
  }

  /** `encrypt_kmers`: one ciphertext per value, in order; a value that is
      not a U16 panics. */
  function EncryptKmers(kmers: seq<KmerType>): (r: Result<seq<FheUint16>>)
    ensures r.Ok? <==> forall i :: 0 <= i < |kmers| ==> kmers[i].U16?
    ensures r.Err? ==> r.fault == UnsupportedVariant
    ensures r.Ok? ==> |r.value| == |kmers| && forall i :: 0 <= i < |kmers| ==> r.value[i].plain == Payload(kmers[i])
  {
    var rs := seq(|kmers|, i requires 0 <= i < |kmers| => EncryptOne(kmers[i]));
    assert forall i :: 0 <= i < |kmers| ==> rs[i] == EncryptOne(kmers[i]);
    Collect(rs)
  }

  // ---------------------------------------------------------------------------
  // Server side

  /** The codes of one subject's windows, in order; the first window that
      does not encode aborts. */
  function WindowCodes(subject: string, k: nat): Result<seq<u16>>
    requires subject != []
  {
    var windows := KMerLazy(subject, k);
    Collect(seq(|windows|, p requires 0 <= p < |windows| => EncodeU16(windows[p])))
  }

  /** `.filter(|&kmer| kmer >= min && kmer <= max)`: the codes in range, in
      order. */
  function InRange(codes: seq<u16>, min: u16, max: u16): (kept: seq<u16>)
    ensures |kept| <= |codes|
    ensures forall c :: c in kept <==> c in codes && min <= c <= max
    ensures forall c :: multiset(kept)[c] == if min <= c <= max then multiset(codes)[c] else 0
  {
    if codes == [] then []
    else
      var rest := InRange(codes[1..], min, max);
      assert codes == [codes[0]] + codes[1..];
      assert forall c :: c in codes <==> c == codes[0] || c in codes[1..];
      if min <= codes[0] <= max then [codes[0]] + rest else rest
  }

  /** The filter distributes over concatenation, so the kept codes keep
      their relative order. */
  lemma {:induction false} InRangeConcat(a: seq<u16>, b: seq<u16>, min: u16, max: u16)
    ensures InRange(a + b, min, max) == InRange(a, min, max) + InRange(b, min, max)
  {
    if a == [] {
      assert a + b == b;
    } else {
      assert (a + b)[1..] == a[1..] + b;
      InRangeConcat(a[1..], b, min, max);
    }
  }

  /** The inner reduction of the filtered `snp_compare_*`: the tests of q
      against the subject's in-range codes, ORed; no in-range code panics. */
  function SubjectMatchFiltered(q: FheUint16, k: nat, subject: string, min: u16, max: u16): Result<FheBool>
    requires subject != []
  {
    var codes :- WindowCodes(subject, k);
    var kept := InRange(codes, min, max);
    ReduceOrUnwrap(seq(|kept|, t requires 0 <= t < |kept| => Eq16(q, kept[t])))
  }

  /** The same reduction without the range filter. */
  function SubjectMatchUnfiltered(q: FheUint16, k: nat, subject: string): Result<FheBool>
    requires subject != []
  {
    var codes :- WindowCodes(subject, k);
    ReduceOrUnwrap(seq(|codes|, t requires 0 <= t < |codes| => Eq16(q, codes[t])))
  }

  /** Each subject's filtered reduction for one query, in subject order. */
  function SubjectResultsFiltered(q: FheUint16, k: nat, subjects: seq<string>, min: u16, max: u16): (rs: seq<Result<FheBool>>)
    requires NonEmptyAll(subjects)
    ensures |rs| == |subjects|
  {
    seq(|subjects|, j requires 0 <= j < |subjects| => SubjectMatchFiltered(q, k, subjects[j], min, max))
  }

  /** The per-query value: the subjects' results ORed, panicking on the
      first failing subject or on an empty subject list. */
  function QueryMatchFiltered(q: FheUint16, k: nat, subjects: seq<string>, min: u16, max: u16): Result<FheBool>
    requires NonEmptyAll(subjects)
  {
    var flags :- Collect(SubjectResultsFiltered(q, k, subjects, min, max));
    ReduceOrUnwrap(flags)
  }

  /** Every query's value, in query order. */
  function QueryResultsFiltered(queries: seq<FheUint16>, k: nat, subjects: seq<string>, min: u16, max: u16): (rs: seq<Result<FheBool>>)
    requires queries == [] || NonEmptyAll(subjects)
    ensures |rs| == |queries|
  {
    seq(|queries|, i requires 0 <= i < |queries| => QueryMatchFiltered(queries[i], k, subjects, min, max))
  }

  /** `snp_compare_single(query_kmers, k, subjects, min, max)`. */
  function SnpCompareSingleFiltered(queries: seq<FheUint16>, k: nat, subjects: seq<string>, min: u16, max: u16): Result<seq<FheBool>>
    requires queries == [] || NonEmptyAll(subjects)
  {
    Collect(QueryResultsFiltered(queries, k, subjects, min, max))
  }

  /** `snp_compare_parallel(query_kmers, k, subjects, min, max)`: the same
      map, collected by a splitting parallel iterator. */
  function SnpCompareParallelFiltered(queries: seq<FheUint16>, k: nat, subjects: seq<string>, min: u16, max: u16): Result<seq<FheBool>>
    requires queries == [] || NonEmptyAll(subjects)
  {
    ParCollect(QueryResultsFiltered(queries, k, subjects, min, max))
  }

  /** Window p of subject j is produced and packs to code c. */
  predicate CodeAt(subjects: seq<string>, k: nat, c: u16, j: int, p: int)
  {
    0 <= j < |subjects| && 1 <= k && 0 <= p && p + k < |subjects[j]| && EncodeU16(subjects[j][p..p + k]) == Ok(c)
  }

  /** A code hit names an existing subject, which has a window. */
  lemma CodeAtBounds(subjects: seq<string>, k: nat, c: u16, j: int, p: int)
    requires CodeAt(subjects, k, c, j, p)
    ensures 0 <= j < |subjects| && 1 <= k < |subjects[j]|
  {
  }

  /** Every window of the subject packs, and some code survives the filter. */
  predicate Survives(subject: string, k: nat, min: u16, max: u16)
    requires subject != []
  {
    WindowCodes(subject, k).Ok? && InRange(WindowCodes(subject, k).value, min, max) != []
  }

  /** The code of a window that packs is the code at its position. */
  lemma CodeAtPosition(subjects: seq<string>, k: nat, c: u16, j: nat, p: int)
    requires j < |subjects| && subjects[j] != [] && WindowCodes(subjects[j], k).Ok?
    ensures CodeAt(subjects, k, c, j, p) <==> 0 <= p < |WindowCodes(subjects[j], k).value| && WindowCodes(subjects[j], k).value[p] == c
  {
    var s := subjects[j];
    var windows := KMerLazy(s, k);
    var rs := seq(|windows|, p requires 0 <= p < |windows| => EncodeU16(windows[p]));
    var codes := WindowCodes(s, k).value;
    assert |codes| == |windows|;
    if CodeAt(subjects, k, c, j, p) {
      assert p < |windows|;
      assert rs[p] == EncodeU16(s[p..p + k]);
    }
    if 0 <= p < |codes| && codes[p] == c {
      assert rs[p].Ok? && rs[p].value == c;
      assert windows[p] == s[p..p + k];
    }
  }

  /** One subject's filtered reduction succeeds exactly when the subject
      survives the filter; a window that does not pack panics with its own
      fault, and otherwise the empty reduction panics. */
  lemma SubjectMatchFilteredOk(q: FheUint16, k: nat, subject: string, min: u16, max: u16)
    requires subject != []
    ensures SubjectMatchFiltered(q, k, subject, min, max).Ok? <==> Survives(subject, k, min, max)
    ensures WindowCodes(subject, k).Err? ==> SubjectMatchFiltered(q, k, subject, min, max) == Err(WindowCodes(subject, k).fault)
    ensures WindowCodes(subject, k).Ok? && !Survives(subject, k, min, max) ==> SubjectMatchFiltered(q, k, subject, min, max) == Err(EmptyReduction)
  {
  }

  /** A surviving subject's flag is true exactly when q is in range and some
      window of the subject packs to q. */
  lemma SubjectMatchFilteredFlag(q: FheUint16, k: nat, subjects: seq<string>, j: nat, min: u16, max: u16)
    requires j < |subjects| && subjects[j] != []
    requires SubjectMatchFiltered(q, k, subjects[j], min, max).Ok?
    ensures SubjectMatchFiltered(q, k, subjects[j], min, max).value.plain <==>
      min <= q.plain <= max && exists p :: CodeAt(subjects, k, q.plain, j, p)
  {
    hide EncodeU16;
    var codes := WindowCodes(subjects[j], k).value;
    var kept := InRange(codes, min, max);
    var tests := seq(|kept|, t requires 0 <= t < |kept| => Eq16(q, kept[t]));
    assert SubjectMatchFiltered(q, k, subjects[j], min, max) == ReduceOrUnwrap(tests);
    if SubjectMatchFiltered(q, k, subjects[j], min, max).value.plain {
      var t :| 0 <= t < |kept| && tests[t].plain;
      assert kept[t] == q.plain && q.plain in kept;
      var p :| 0 <= p < |codes| && codes[p] == q.plain;
      CodeAtPosition(subjects, k, q.plain, j, p);
    }
    if min <= q.plain <= max && exists p :: CodeAt(subjects, k, q.plain, j, p) {
      var p :| CodeAt(subjects, k, q.plain, j, p);
      CodeAtPosition(subjects, k, q.plain, j, p);
      assert q.plain in kept;
      var t :| 0 <= t < |kept| && kept[t] == q.plain;
      assert tests[t].plain;
    }
  }

  /** Filter soundness: for a query code inside [min, max], a filtered
      reduction that does not panic computes what the unfiltered one does. */
  lemma FilterSound(q: FheUint16, k: nat, subject: string, min: u16, max: u16)
    requires subject != [] && min <= q.plain <= max
    requires SubjectMatchFiltered(q, k, subject, min, max).Ok?
    ensures SubjectMatchUnfiltered(q, k, subject) == SubjectMatchFiltered(q, k, subject, min, max)
  {
    hide EncodeU16, KMerLazy;
    var codes := WindowCodes(subject, k).value;
    var kept := InRange(codes, min, max);
    var filtered := seq(|kept|, t requires 0 <= t < |kept| => Eq16(q, kept[t]));
    var unfiltered := seq(|codes|, t requires 0 <= t < |codes| => Eq16(q, codes[t]));
    assert SubjectMatchFiltered(q, k, subject, min, max) == ReduceOrUnwrap(filtered);
    assert SubjectMatchUnfiltered(q, k, subject) == ReduceOrUnwrap(unfiltered);
    assert kept != [];
    assert kept[0] in codes;
    assert ReduceOrUnwrap(filtered).value.plain <==> q.plain in kept by {
      if q.plain in kept {
        var t :| 0 <= t < |kept| && kept[t] == q.plain;
        assert filtered[t].plain;
      }
    }
    assert ReduceOrUnwrap(unfiltered).value.plain <==> q.plain in codes by {
      if q.plain in codes {
        var t :| 0 <= t < |codes| && codes[t] == q.plain;
        assert unfiltered[t].plain;
      }
    }
  }

  /** The filter's own panic: a subject whose windows all pack but fall
      outside [min, max] panics, where the unfiltered reduction would give
      false for an in-range query. */
  lemma FilterPanics(q: FheUint16, k: nat, subject: string, min: u16, max: u16)
    requires subject != [] && min <= q.plain <= max
    requires WindowCodes(subject, k).Ok? && WindowCodes(subject, k).value != []
    requires InRange(WindowCodes(subject, k).value, min, max) == []
    ensures SubjectMatchFiltered(q, k, subject, min, max) == Err(EmptyReduction)
    ensures SubjectMatchUnfiltered(q, k, subject) == Ok(FheBool(false))
  {
    hide EncodeU16;
    var codes := WindowCodes(subject, k).value;
    assert q.plain !in codes;
  }

  /** Each subject's unfiltered reduction for one query, in subject order. */
  function SubjectResultsUnfiltered(q: FheUint16, k: nat, subjects: seq<string>): (rs: seq<Result<FheBool>>)
    requires NonEmptyAll(subjects)
    ensures |rs| == |subjects|
  {
    seq(|subjects|, j requires 0 <= j < |subjects| => SubjectMatchUnfiltered(q, k, subjects[j]))
  }

  /** The per-query value without the range filter. */
  function QueryMatchUnfiltered(q: FheUint16, k: nat, subjects: seq<string>): Result<FheBool>
    requires NonEmptyAll(subjects)
  {
    var flags :- Collect(SubjectResultsUnfiltered(q, k, subjects));
    ReduceOrUnwrap(flags)
  }

  /** Every query's unfiltered value, in query order. */
  function QueryResultsUnfiltered(queries: seq<FheUint16>, k: nat, subjects: seq<string>): (rs: seq<Result<FheBool>>)
    requires queries == [] || NonEmptyAll(subjects)
    ensures |rs| == |queries|
  {
    seq(|queries|, i requires 0 <= i < |queries| => QueryMatchUnfiltered(queries[i], k, subjects))
  }

  /** The compare as it would run without the range filter. */
  function SnpCompareSingleUnfiltered(queries: seq<FheUint16>, k: nat, subjects: seq<string>): Result<seq<FheBool>>
    requires queries == [] || NonEmptyAll(subjects)
  {
    Collect(QueryResultsUnfiltered(queries, k, subjects))
  }

  /** Filter soundness for one query: when its code lies in [min, max] and
      the filtered value does not panic, dropping the filter changes nothing. */
  lemma QueryFilterSound(q: FheUint16, k: nat, subjects: seq<string>, min: u16, max: u16)
    requires NonEmptyAll(subjects) && min <= q.plain <= max
    requires QueryMatchFiltered(q, k, subjects, min, max).Ok?
    ensures QueryMatchUnfiltered(q, k, subjects) == QueryMatchFiltered(q, k, subjects, min, max)
  {
    hide SubjectMatchFiltered, SubjectMatchUnfiltered, ReduceOrUnwrap;
    var fs := SubjectResultsFiltered(q, k, subjects, min, max);
    var us := SubjectResultsUnfiltered(q, k, subjects);
    assert Collect(fs).Ok?;
    forall j | 0 <= j < |subjects|
      ensures us[j] == fs[j]
    {
      assert fs[j] == SubjectMatchFiltered(q, k, subjects[j], min, max) && fs[j].Ok?;
      FilterSound(q, k, subjects[j], min, max);
    }
    assert us == fs;
  }

  /** Filter soundness for the whole call: when every query code lies in
      [min, max] (as the client's bounds guarantee) and the filtered compare
      does not panic, it returns exactly the flags of the unfiltered one. */
  lemma CallFilterSound(queries: seq<FheUint16>, k: nat, subjects: seq<string>, min: u16, max: u16)
    requires queries == [] || NonEmptyAll(subjects)
    requires forall i :: 0 <= i < |queries| ==> min <= queries[i].plain <= max
    requires SnpCompareSingleFiltered(queries, k, subjects, min, max).Ok?
    ensures SnpCompareSingleUnfiltered(queries, k, subjects) == SnpCompareSingleFiltered(queries, k, subjects, min, max)
  {
    hide QueryMatchFiltered, QueryMatchUnfiltered;
    var fs := QueryResultsFiltered(queries, k, subjects, min, max);
    var us := QueryResultsUnfiltered(queries, k, subjects);
    assert Collect(fs).Ok?;
    forall i | 0 <= i < |queries|
      ensures us[i] == fs[i]
    {
      assert fs[i] == QueryMatchFiltered(queries[i], k, subjects, min, max) && fs[i].Ok?;
      QueryFilterSound(queries[i], k, subjects, min, max);
    }
    assert us == fs;
  }

  /** The per-query value succeeds exactly when there is a subject and
      every subject survives the filter. */
  lemma QueryMatchFilteredOk(q: FheUint16, k: nat, subjects: seq<string>, min: u16, max: u16)
    requires NonEmptyAll(subjects)
    ensures QueryMatchFiltered(q, k, subjects, min, max).Ok? <==>
      subjects != [] && forall j :: 0 <= j < |subjects| ==> Survives(subjects[j], k, min, max)
  {
    var rs := SubjectResultsFiltered(q, k, subjects, min, max);
    forall j | 0 <= j < |subjects|
      ensures rs[j].Ok? <==> Survives(subjects[j], k, min, max)
    {
      SubjectMatchFilteredOk(q, k, subjects[j], min, max);
    }
  }

  /** A successful per-query value is true exactly when q is in range and
      some window of some subject packs to q. */
  lemma QueryMatchFilteredFlag(q: FheUint16, k: nat, subjects: seq<string>, min: u16, max: u16)
    requires NonEmptyAll(subjects)
    requires QueryMatchFiltered(q, k, subjects, min, max).Ok?
    ensures QueryMatchFiltered(q, k, subjects, min, max).value.plain <==>
      min <= q.plain <= max && exists j, p :: CodeAt(subjects, k, q.plain, j, p)
  {
    hide EncodeU16, CodeAt;
    var rs := SubjectResultsFiltered(q, k, subjects, min, max);
    assert Collect(rs).Ok?;
    var flags := Collect(rs).value;
    assert |flags| == |subjects|;
    forall j | 0 <= j < |subjects|
      ensures flags[j].plain <==> min <= q.plain <= max && exists p :: CodeAt(subjects, k, q.plain, j, p)
    {
      assert rs[j] == SubjectMatchFiltered(q, k, subjects[j], min, max) && rs[j].Ok?;
      SubjectMatchFilteredFlag(q, k, subjects, j, min, max);
    }
    if exists j :: 0 <= j < |flags| && flags[j].plain {
      var j :| 0 <= j < |flags| && flags[j].plain;
      var p :| CodeAt(subjects, k, q.plain, j, p);
    }
    if min <= q.plain <= max && exists j, p :: CodeAt(subjects, k, q.plain, j, p) {
      var j, p :| CodeAt(subjects, k, q.plain, j, p);
      CodeAtBounds(subjects, k, q.plain, j, p);
      assert flags[j].plain;
    }
  }

  /** `snp_compare_single` succeeds exactly when there is no query or there
      is a subject and every subject survives the filter; it then returns one
      flag per query, in query order, and flag i is true exactly when query
      i's code is in range and some window of some subject packs to it. */
  lemma SnpCompareFilteredMeaning(queries: seq<FheUint16>, k: nat, subjects: seq<string>, min: u16, max: u16)
    requires queries == [] || NonEmptyAll(subjects)
    ensures SnpCompareSingleFiltered(queries, k, subjects, min, max).Ok? <==>
      queries == [] || (subjects != [] && forall j :: 0 <= j < |subjects| ==> Survives(subjects[j], k, min, max))
    ensures SnpCompareSingleFiltered(queries, k, subjects, min, max).Ok? ==>
      var flags := SnpCompareSingleFiltered(queries, k, subjects, min, max).value;
      |flags| == |queries| &&
      forall i :: 0 <= i < |queries| ==>
        (flags[i].plain <==> min <= queries[i].plain <= max && exists j, p :: CodeAt(subjects, k, queries[i].plain, j, p))
  {
    hide EncodeU16, CodeAt, Survives;
    var rs := QueryResultsFiltered(queries, k, subjects, min, max);
    forall i | 0 <= i < |queries|
      ensures rs[i].Ok? <==> subjects != [] && forall j :: 0 <= j < |subjects| ==> Survives(subjects[j], k, min, max)
      ensures rs[i].Ok? ==>
        (rs[i].value.plain <==> min <= queries[i].plain <= max && exists j, p :: CodeAt(subjects, k, queries[i].plain, j, p))
    {
      QueryMatchFilteredOk(queries[i], k, subjects, min, max);
      if rs[i].Ok? {
        QueryMatchFilteredFlag(queries[i], k, subjects, min, max);
      }
    }
    if queries != [] {
      assert rs[0].Ok? <==> subjects != [] && forall j :: 0 <= j < |subjects| ==> Survives(subjects[j], k, min, max);
    }
  }

  /** The parallel filtered compare computes exactly what the single-threaded
      one does, flags and panics alike. */
  lemma ParallelIsSingleFiltered(queries: seq<FheUint16>, k: nat, subjects: seq<string>, min: u16, max: u16)
    requires queries == [] || NonEmptyAll(subjects)
    ensures SnpCompareParallelFiltered(queries, k, subjects, min, max) == SnpCompareSingleFiltered(queries, k, subjects, min, max)
  {
    ParCollectIsCollect(QueryResultsFiltered(queries, k, subjects, min, max));
  }

  /** A compare that has a query and does not panic has packed a subject
      window into 16 bits, so k lies between 5 and 8 and is shorter than
      every subject. */
  lemma CompareNeedsU16Width(queries: seq<FheUint16>, k: nat, subjects: seq<string>, min: u16, max: u16)
    requires queries != [] && NonEmptyAll(subjects)
    requires SnpCompareSingleFiltered(queries, k, subjects, min, max).Ok?
    ensures 5 <= k <= 8
    ensures forall j :: 0 <= j < |subjects| ==> k < |subjects[j]|
  {
    SnpCompareFilteredMeaning(queries, k, subjects, min, max);
    forall j | 0 <= j < |subjects|
      ensures 5 <= k <= 8 && k < |subjects[j]|
    {
      var s := subjects[j];
      var windows := KMerLazy(s, k);
      var codes := WindowCodes(s, k).value;
      assert InRange(codes, min, max)[0] in codes;
      assert |codes| == |windows|;
      var rs := seq(|windows|, p requires 0 <= p < |windows| => EncodeU16(windows[p]));
      assert rs[0] == EncodeU16(windows[0]) && rs[0].Ok?;
      assert windows[0] == s[0..k];
    }
  }

  /** The values the client sends for a query: its windows packed,
      converted and encrypted, in order. */
  function EncryptedQuery(query: string, k: nat): Result<seq<FheUint16>>
    requires query != []
  {
    var values :- ClientValues(KMerLazy(query, k));
    EncryptKmers(values)
  }

  /** The client sends one ciphertext per query window, in order, holding
      the window's code; it panics unless every window packs. */
  lemma EncryptedQueryMeaning(query: string, k: nat)
    requires query != []
    ensures var windows := KMerLazy(query, k);
      EncryptedQuery(query, k).Ok? <==> forall i :: 0 <= i < |windows| ==> EncodeU16(windows[i]).Ok?
    ensures var windows := KMerLazy(query, k);
      EncryptedQuery(query, k).Ok? ==>
        |EncryptedQuery(query, k).value| == |windows| &&
        forall i :: 0 <= i < |windows| ==> EncryptedQuery(query, k).value[i].plain == EncodeU16(windows[i]).value
  {
    hide KMerLazy;
    var windows := KMerLazy(query, k);
    ClientValuesMeaning(windows);
    if ClientValues(windows).Ok? {
      var values := ClientValues(windows).value;
      assert forall i :: 0 <= i < |values| ==> values[i].U16?;
      assert EncryptKmers(values).Ok?;
    }
  }

  /** Window p of subject j is produced and is the k-mer w. */
  predicate ProducedAt(subjects: seq<string>, k: nat, w: string, j: int, p: int)
  {
    0 <= j < |subjects| && 0 <= p && p + k < |subjects[j]| && subjects[j][p..p + k] == w
  }

  /** For a k-mer w that packs, a window packing to w's code is a copy of w. */
  lemma CodeAtIsProducedAt(subjects: seq<string>, k: nat, w: string, j: int, p: int)
    requires |w| == k && EncodeU16(w).Ok?
    ensures CodeAt(subjects, k, EncodeU16(w).value, j, p) <==> ProducedAt(subjects, k, w, j, p)
  {
    if CodeAt(subjects, k, EncodeU16(w).value, j, p) {
      EncodeU16Injective(subjects[j][p..p + k], w);
    }
  }

  /** The whole protocol never errs in either direction: with [min, max]
      bounding the query codes (as the client computes them), a compare that
      does not panic reports, for every query window in order, whether the
      same k-mer is a produced window of some subject. */
  lemma ExactPresence(query: string, k: nat, subjects: seq<string>, min: u16, max: u16)
    requires query != [] && NonEmptyAll(subjects)
    requires EncryptedQuery(query, k).Ok?
    requires forall i :: 0 <= i < |EncryptedQuery(query, k).value| ==> min <= EncryptedQuery(query, k).value[i].plain <= max
    requires SnpCompareSingleFiltered(EncryptedQuery(query, k).value, k, subjects, min, max).Ok?
    ensures var windows := KMerLazy(query, k);
      var flags := SnpCompareSingleFiltered(EncryptedQuery(query, k).value, k, subjects, min, max).value;
      |flags| == |windows| &&
      forall i :: 0 <= i < |windows| ==> (flags[i].plain <==> exists j, p :: ProducedAt(subjects, k, windows[i], j, p))
  {
    hide CodeAt, ProducedAt, EncodeU16;
    var windows := KMerLazy(query, k);
    var queries := EncryptedQuery(query, k).value;
    ClientValuesMeaning(windows);
    var values := ClientValues(windows).value;
    assert |queries| == |windows|;
    SnpCompareFilteredMeaning(queries, k, subjects, min, max);
    var flags := SnpCompareSingleFiltered(queries, k, subjects, min, max).value;
    forall i | 0 <= i < |windows|
      ensures flags[i].plain <==> exists j, p :: ProducedAt(subjects, k, windows[i], j, p)
    {
      var w := windows[i];
      assert queries[i].plain == Payload(values[i]) == Base4(w);
      assert EncodeU16(w) == Ok(queries[i].plain);
      forall j, p
        ensures CodeAt(subjects, k, queries[i].plain, j, p) <==> ProducedAt(subjects, k, w, j, p)
      {
        CodeAtIsProducedAt(subjects, k, w, j, p);
      }
    }
  }
}
