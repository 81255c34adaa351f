# Plaintext model of the k-mer SNP-presence experiments and the local aligner

This project models the plaintext logic of the sequence-analysis security study in Dafny. In the study, a client holds a query DNA sequence and asks a server whether any of the query's k-mers (length-k windows) occur in a set of SNP subject sequences. The client sends each k-mer as a 32-bit hash or a 2-bit-per-base code, encrypted under TFHE. The server answers with one encrypted flag per query k-mer.

Encryption is abstracted away. An `FheBool`, `FheUint32` or `FheUint16` is a datatype holding its plaintext, `.eq` is `==`, `|` is `||`, and encrypt and decrypt are the identity. What remains is exact integer and string code. A Rust panic (`unwrap` on an empty `reduce`, `to_u16` on the wrong variant, a character outside ACGT, mismatched variants, a too-long k-mer, an over-wide shift) becomes an `Err` of the `Result` in `Outcome`.

The modules follow the repository's programs:

- `Outcome`: the panic model, and `collect` over per-query results. A sequential version and rayon's split-and-join version are both modelled and proved equal.
- `UInt`: unsigned words as bounded naturals. `|`, `&` and `^` are defined bit by bit. `a << s` is (a·2^s) mod 2^n, and `a >> s` is ⌊a / 2^s⌋.
- `KmerTypes`: `kmer_type.rs`. It covers:
  - the `KmerType` union and its operators;
  - `to_u16` and `init_kmer_type`;
  - `binary_encode`: the imperative loop, proved against the base-4 value of the k-mer, with decoding, injectivity and width lemmas.
- `KMers`: `k_mer` (loop) and `k_mer_lazy` (recursion), with their window count and window contents. The last window is always dropped, and the model states when it is therefore missed.
- `Murmur`: `murmur32`. The imperative block and tail loops are proved equal to a pure block/tail/finalise definition. That definition is compared with reference MurmurHash3_x86_32. The study's version starts its running hash from `seed ^ len`, and the reference starts from the seed. `Murmur.MurmurOfA` and `Murmur.DiffersFromReference` show that the two differ on the published test key "a".
- `Fhe`: the plaintext view of the ciphertext types, and the OR-`reduce` followed by `unwrap`.
- `HashMatch`: `3_k-mers_snp-call_tfhe`, where `snp_compare_single` and `snp_compare_parallel` compare murmur hashes. Flag i is true iff some produced window of some subject hashes to query i, and the call panics iff some subject has no window.
- `Accumulator`: `3_k-mers-snp-call`, where `snp_compare` pushes into or ORs into a caller-owned result vector, and `main` threads that vector through the subjects.
- `ExactMatch`: `5_k-mers_snp-call_tfhe`. Query k-mers are 2-bit codes in a `u16`, and the client computes the `[min, max]` range of its codes. The server drops subject codes outside that range before comparing. Proved for this module:
  - the filter is sound;
  - exactly when the filter panics;
  - k must satisfy 5 ≤ k ≤ 8;
  - with honest bounds, flag i is true iff query k-mer i is a produced window of some subject.
- `ExactMatchExample`: the worked example in `main`, from the query windows and their codes to the final `[true, false, true, true]`.
- `SmithWaterman`: the score-matrix fill over an `array2`, with its running maximum, and the traceback. Proved for this module:
  - every cell follows the recurrence and is non-negative;
  - the reported maximum and its position;
  - the shape of the alignment and its score;
  - when gaps do not score positively, the recurrence is optimal over all local alignments.

## Model

| member | source | states |
|---|---|---|
| Outcome.Collect | 3_k-mers_snp-call_tfhe/src/main.rs:28-41 | collecting per-query results succeeds iff every one succeeds, keeping values in query order; otherwise it fails with the first failing query's panic |
| Outcome.CollectSplit | 3_k-mers_snp-call_tfhe/src/main.rs:53-69 | collecting two halves and joining them equals collecting the whole |
| Outcome.ParCollectIsCollect | 3_k-mers_snp-call_tfhe/src/main.rs:53-69 | the parallel collect (recursive halving, left failure first) equals the sequential collect, so the parallel result keeps query order |
| KmerTypes.Shl | 5_k-mers_snp-call_tfhe/src/kmer_type.rs:13-25 | the variant is kept and the payload shifted left, truncated to the variant's width; a shift of at least the width panics |
| KmerTypes.Shr | 5_k-mers_snp-call_tfhe/src/kmer_type.rs:27-39 | the variant is kept and the payload shifted right; a shift of at least the width panics |
| KmerTypes.ShlShrRoundTrip | 5_k-mers_snp-call_tfhe/src/kmer_type.rs:13-39 | when no bit is shifted out, shifting right undoes shifting left |
| KmerTypes.BitOr | 5_k-mers_snp-call_tfhe/src/kmer_type.rs:41-54 | same variants give that variant with each bit the OR of the operands' bits; different variants panic |
| KmerTypes.BitAnd | 5_k-mers_snp-call_tfhe/src/kmer_type.rs:56-69 | same variants give that variant with each bit the AND of the operands' bits; different variants panic |
| KmerTypes.BitOrAssign | 5_k-mers_snp-call_tfhe/src/kmer_type.rs:71-82 | the new value of `self` is exactly what the `BitOr` operator gives on `self` and `rhs`, panic included |
| KmerTypes.BitAndAssign | 5_k-mers_snp-call_tfhe/src/kmer_type.rs:84-95 | the new value of `self` is exactly what the `BitAnd` operator gives on `self` and `rhs`, panic included |
| KmerTypes.BitXorAssign | 5_k-mers_snp-call_tfhe/src/kmer_type.rs:97-108 | same variants keep the variant with each bit the XOR of the operands' bits; different variants panic |
| KmerTypes.ToU16 | 5_k-mers_snp-call_tfhe/src/kmer_type.rs:153-161 | succeeds iff the value is a U16 and then returns its payload; every other variant panics |
| KmerTypes.InitKmerType | 5_k-mers_snp-call_tfhe/src/kmer_type.rs:164-177 | panics iff len > 64; otherwise holds `val` in the smallest of 8/16/32/64/128 bits with room for 2·len bits |
| KmerTypes.Encoding | 5_k-mers_snp-call_tfhe/src/kmer_type.rs:180-196 | succeeds iff the k-mer has at most 64 characters, all ACGT; a longer k-mer panics in `init_kmer_type`, a bad character panics in the loop; the variant is the one `init_kmer_type` picks |
| KmerTypes.BinaryEncode | 5_k-mers_snp-call_tfhe/src/kmer_type.rs:180-196 | the OR-and-shift loop computes `Encoding`: A,C,G,T as 0..3, first base most significant; every shift stays within the width |
| KmerTypes.FieldOfBase | 5_k-mers_snp-call_tfhe/src/kmer_type.rs:185-193 | base i is stored in bits 2·(len−1−i) and 2·(len−1−i)+1 of the code |
| KmerTypes.DecodeEncoding | 5_k-mers_snp-call_tfhe/src/kmer_type.rs:185-193 | reading the 2-bit fields most significant first gives back the k-mer |
| KmerTypes.EncodingInjective | 5_k-mers_snp-call_tfhe/src/kmer_type.rs:185-193 | two ACGT k-mers of equal length have equal codes iff they are equal |
| KmerTypes.EncodingFits | 5_k-mers_snp-call_tfhe/src/kmer_type.rs:183-193 | the code is below 4^len, which fits the chosen variant's width |
| KmerTypes.EncodingToU16 | 5_k-mers_snp-call_tfhe/src/kmer_type.rs:153-168 | `binary_encode(s).to_u16()` succeeds iff 5 ≤ len ≤ 8 |
| KMers.KMerLazy | 2_k-mer/src/main.rs:23-29 | a non-empty sequence gives len−k windows when 1 ≤ k ≤ len and none otherwise; window i is seq[i..i+k] |
| KMers.KMer | 2_k-mer/src/main.rs:2-18 | k = 0 or k > len gives an empty vector; otherwise len−k windows in order, window i being seq[i..i+k]; for a non-empty sequence it equals `k_mer_lazy` |
| KMers.WindowsAreSubstrings | 2_k-mer/src/main.rs:23-29 | every produced window has length k and occurs in the sequence at some position |
| KMers.SomeWindowIff | 2_k-mer/src/main.rs:23-29 | a non-empty sequence yields at least one window iff 1 ≤ k < len |
| KMers.LastWindowDropped | 2_k-mer/src/main.rs:9-15 | the final window seq[len−k..] is produced iff it also occurs at an earlier position |
| KMers.ExampleWindows | 2_k-mer/src/main.rs:31-47 | "ACGTACGTACGT" with k = 5 gives 7 windows, the first "ACGTA" and the last "GTACG" |
| Murmur.LeWordBytes | 3_k-mers_snp-call_tfhe/src/main.rs:101-106 | the little-endian word's four bytes are the key bytes in order |
| Murmur.RotlIsRotateLeft | 3_k-mers_snp-call_tfhe/src/main.rs:108-113 | the shift-and-or rotation equals a rotate-left by 15 and by 13 |
| Murmur.MixBlocks | 3_k-mers_snp-call_tfhe/src/main.rs:97-117 | the block loop consumes ⌊len/4⌋ words, leaves i = 4·⌊len/4⌋ and ends with the hash of mixing those words in order |
| Murmur.TailWordSnoc | 3_k-mers_snp-call_tfhe/src/main.rs:124-128 | each further tail byte is XOR-ed in shifted by 8 times its position |
| Murmur.ScrambleTail | 3_k-mers_snp-call_tfhe/src/main.rs:119-135 | the tail loop folds the 0–3 remaining bytes with shifts 0, 8 and 16 into one word, then scrambles it with C1, rotl 15 and C2 |
| Murmur.Murmur32 | 3_k-mers_snp-call_tfhe/src/main.rs:89-146 | the imperative hash equals the pure block/tail/finalise definition, so it is total and determined by key and seed |
| Murmur.ReferenceVectorsEmpty | 3_k-mers_snp-call_tfhe/src/main.rs:89-146 | the reference definition gives the published values for the empty key under seeds 0 and 1 |
| Murmur.ReferenceVectorZeroBlock | 3_k-mers_snp-call_tfhe/src/main.rs:89-146 | the reference definition gives the published value for four zero bytes under seed 0 |
| Murmur.ReferenceVectorOneByte | 3_k-mers_snp-call_tfhe/src/main.rs:89-146 | the reference definition gives the published value for "a" under seed 0x9747b28c |
| Murmur.ReferenceVectorOneBlock | 3_k-mers_snp-call_tfhe/src/main.rs:89-146 | the reference definition gives the published value for "aaaa" under seed 0x9747b28c |
| Murmur.MurmurOfA | 3_k-mers_snp-call_tfhe/src/main.rs:89-146 | the study's hash of "a" under seed 0x9747b28c is 0x527AF074, not the published 0x7FA09EA6 |
| Murmur.DiffersFromReference | 3_k-mers_snp-call_tfhe/src/main.rs:97 | on "a" under seed 0x9747b28c, the study's hash and the reference differ |
| Murmur.AsBytes | 3_k-mers_snp-call_tfhe/src/main.rs:18 | `as_bytes` gives one byte per character, in order |
| Fhe.FoldOr | 3_k-mers_snp-call_tfhe/src/main.rs:36 | folding OR from an accumulator is true iff the accumulator or some element is true |
| Fhe.ReduceOr | 3_k-mers_snp-call_tfhe/src/main.rs:36 | the OR-`reduce` is None iff the iterator is empty, otherwise the OR of all elements |
| Fhe.ReduceOrUnwrap | 3_k-mers_snp-call_tfhe/src/main.rs:36-40 | the OR-`reduce` followed by `unwrap` panics iff the iterator is empty, otherwise it is true iff some element is |
| Fhe.DecryptAll | 3_k-mers-snp-call/src/main.rs:166-168 | decrypting gives one bool per flag, in order |
| HashMatch.EncryptKmerHashes | 3_k-mers_snp-call_tfhe/src/main.rs:82-87 | one ciphertext per hash, same length and order |
| HashMatch.SubjectMatchOk | 3_k-mers_snp-call_tfhe/src/main.rs:31-38 | one subject's inner reduction succeeds iff the subject has a window (1 ≤ k < len); otherwise it panics |
| HashMatch.SubjectMatchFlag | 3_k-mers_snp-call_tfhe/src/main.rs:17-38 | one subject's flag is true iff some produced window of it hashes to the query |
| HashMatch.QueryMatchOk | 3_k-mers_snp-call_tfhe/src/main.rs:28-41 | one query's outer reduction succeeds iff there is a subject and every subject has a window |
| HashMatch.QueryMatchFlag | 3_k-mers_snp-call_tfhe/src/main.rs:28-41 | one query's flag is true iff some produced window of some subject hashes to it |
| HashMatch.SnpCompareMeaning | 3_k-mers_snp-call_tfhe/src/main.rs:22-44 | `snp_compare_single` panics iff there are queries and some subject has no window (or there is none); otherwise it gives one flag per query in order, flag i true iff some window of some subject hashes to query i |
| HashMatch.ParallelIsSingle | 3_k-mers_snp-call_tfhe/src/main.rs:46-72 | `snp_compare_parallel` returns exactly what `snp_compare_single` returns |
| HashMatch.SharedWindowFound | 3_k-mers_snp-call_tfhe/src/main.rs:22-44 | a query k-mer that is also a produced window of a subject always gets a true flag |
| Accumulator.EqualityTestLiteral | 3_k-mers-snp-call/src/main.rs:14-17 | the test is true iff the query hash equals murmur32 of the subject k-mer under the literal seed |
| Accumulator.HitBeforeAll | 3_k-mers-snp-call/src/main.rs:27-34 | running over every window of the subject finds a hash hit iff the subject has a window hashing to it |
| Accumulator.SnpCompare | 3_k-mers-snp-call/src/main.rs:19-36 | the vector grows to one entry per query when the subject has a window and is otherwise unchanged; entry i becomes its old value OR "some window of this subject hashes to query i"; entries only turn true, and the else branch never indexes past the end |
| Accumulator.MatchSubjects | 3_k-mers-snp-call/src/main.rs:155-158 | starting empty, flag i ends true iff some window of some subject hashes to query i; there is one flag per query once any subject has a window; when every subject has one, the vector equals `snp_compare_single`'s result |
| ExactMatch.EncodeU16 | 5_k-mers_snp-call_tfhe/src/main.rs:37-40 | `binary_encode(w).to_u16()` succeeds iff w is 5–8 characters of ACGT and is then w's base-4 value; other ACGT lengths up to 64 panic in `to_u16`, and the rest panic in `binary_encode` |
| ExactMatch.EncodeU16Injective | 5_k-mers_snp-call_tfhe/src/main.rs:37-40 | two k-mers of equal length that both encode have equal codes iff they are equal |
| ExactMatch.QueryValue | 5_k-mers_snp-call_tfhe/src/main.rs:137-146 | the client's per-k-mer map keeps the encoded U16 value, and panics exactly as `binary_encode(w).to_u16()` does |
| ExactMatch.ClientValuesMeaning | 5_k-mers_snp-call_tfhe/src/main.rs:135-148 | the client's map succeeds iff every query k-mer is 5–8 ACGT characters; value i is then the U16 base-4 code of k-mer i |
| ExactMatch.ClientEncode | 5_k-mers_snp-call_tfhe/src/main.rs:132-148 | the map with the min/max updates returns the client values; every value lies in [min, max]; with at least one k-mer both bounds are attained; with none they stay 0xFFFF and 0 |
| ExactMatch.EncryptKmers | 5_k-mers_snp-call_tfhe/src/main.rs:92-97 | succeeds iff every value is a U16; then one ciphertext of its payload per value, in order |
| ExactMatch.InRange | 5_k-mers_snp-call_tfhe/src/main.rs:41 | the filter keeps exactly the codes within [min, max], each as many times as it occurs, and drops the rest |
| ExactMatch.InRangeConcat | 5_k-mers_snp-call_tfhe/src/main.rs:41 | filtering a concatenation is concatenating the filtered parts, so the kept codes stay in their original order |
| ExactMatch.SubjectMatchFilteredOk | 5_k-mers_snp-call_tfhe/src/main.rs:36-47 | one subject's reduction succeeds iff all its windows encode and some code survives the filter; with no surviving code it panics in `unwrap` |
| ExactMatch.SubjectMatchFilteredFlag | 5_k-mers_snp-call_tfhe/src/main.rs:36-47 | one subject's flag is true iff the query lies in [min, max] and some produced window of the subject has the query's code |
| ExactMatch.FilterSound | 5_k-mers_snp-call_tfhe/src/main.rs:41 | for a query inside [min, max], whenever the filtered subject reduction succeeds it equals the unfiltered one |
| ExactMatch.QueryFilterSound | 5_k-mers_snp-call_tfhe/src/main.rs:33-50 | for a query inside [min, max], whenever the filtered reduction over all subjects succeeds the unfiltered one gives the same flag |
| ExactMatch.CallFilterSound | 5_k-mers_snp-call_tfhe/src/main.rs:26-53 | when every query lies in [min, max] and the filtered `snp_compare_single` succeeds, the same call without the filter succeeds with the same flags |
| ExactMatch.FilterPanics | 5_k-mers_snp-call_tfhe/src/main.rs:41-46 | a subject whose window codes all fall outside [min, max] makes the filtered reduction panic, where the unfiltered one gives false |
| ExactMatch.QueryMatchFilteredOk | 5_k-mers_snp-call_tfhe/src/main.rs:33-50 | one query's reduction succeeds iff there is a subject and every subject has a surviving window code |
| ExactMatch.QueryMatchFilteredFlag | 5_k-mers_snp-call_tfhe/src/main.rs:33-50 | one query's flag is true iff it lies in [min, max] and some produced window of some subject has its code |
| ExactMatch.SnpCompareFilteredMeaning | 5_k-mers_snp-call_tfhe/src/main.rs:26-53 | the filtered `snp_compare_single` panics iff there are queries and some subject has no surviving code (or there is none); otherwise it gives one flag per query in order with the meaning above |
| ExactMatch.ParallelIsSingleFiltered | 5_k-mers_snp-call_tfhe/src/main.rs:55-82 | the filtered `snp_compare_parallel` returns exactly what the single-thread version returns |
| ExactMatch.CompareNeedsU16Width | 5_k-mers_snp-call_tfhe/src/main.rs:37-40 | a successful comparison with at least one query forces 5 ≤ k ≤ 8 and gives every subject a window |
| ExactMatch.EncryptedQueryMeaning | 5_k-mers_snp-call_tfhe/src/main.rs:135-153 | the client pipeline succeeds iff every query window encodes; ciphertext i then holds the code of query window i |
| ExactMatch.ExactPresence | 5_k-mers_snp-call_tfhe/src/main.rs:26-53 | with the client's bounds, a successful comparison gives flag i true iff query window i is itself a produced window of some subject: no false positives and no misses |
| ExactMatchExample.ExampleQueryWindows | 5_k-mers_snp-call_tfhe/src/main.rs:101-116 | "ACGTTAACT" with k = 5 gives ACGTT, CGTTA, GTTAA, TTAAC; the last window TAACT is not produced |
| ExactMatchExample.ExampleQuery | 5_k-mers_snp-call_tfhe/src/main.rs:131-153 | the client encodes those windows to 111, 444, 752, 961 |
| ExactMatchExample.ExampleBounds | 5_k-mers_snp-call_tfhe/src/main.rs:132-148 | bounds that contain and are attained by those codes are min = 111 and max = 961 |
| ExactMatchExample.ExampleSurvives | 5_k-mers_snp-call_tfhe/src/main.rs:102-109 | every subject keeps a window code within [111, 961], so no reduction panics |
| ExactMatchExample.ExampleNoCGTTA | 5_k-mers_snp-call_tfhe/src/main.rs:102-109 | no produced subject window has the code 444 of CGTTA |
| ExactMatchExample.ExampleFlag | 5_k-mers_snp-call_tfhe/src/main.rs:26-53 | each query's flag on the example is true except for query 1 |
| ExactMatchExample.ExampleResult | 5_k-mers_snp-call_tfhe/src/main.rs:169-185 | both compare functions return [true, false, true, true] on the example |
| SmithWaterman.Max4 | 1_smith_waterman/src/main.rs:22 | the maximum of the four candidates is at least each of them and is one of them |
| SmithWaterman.Cell | 1_smith_waterman/src/main.rs:6-23 | every cell is non-negative, and row 0 and column 0 are 0 |
| SmithWaterman.FilledRecurrence | 1_smith_waterman/src/main.rs:6-23 | in the filled matrix, row 0 and column 0 hold 0 and every other cell is the max of 0, the diagonal neighbour plus the substitution score, the cell above plus the gap score and the cell to the left plus the gap score |
| SmithWaterman.Fill | 1_smith_waterman/src/main.rs:4-30 | the matrix is (len1+1)×(len2+1) and every cell holds its recurrence value; `max_score` is the largest cell, `max_pos` the first cell in row-major order holding it, and (0, 0) when every cell is 0 |
| SmithWaterman.FillRow | 1_smith_waterman/src/main.rs:13-29 | one pass of the inner loop fills row i and moves the running maximum only on a strictly larger cell |
| SmithWaterman.Traceback | 1_smith_waterman/src/main.rs:39-59 | the path is `TracePath` from the start cell: walking back from a positive cell, it takes the diagonal when the cell equals diagonal plus substitution score, else the cell above when it equals above plus gap, else the cell to the left, and it stops at the first 0 cell; the rows are the path's columns, they use exactly seq1[i0..max_pos.0] and seq2[j0..max_pos.1], and their column scores add up to the start cell |
| SmithWaterman.Align | 1_smith_waterman/src/main.rs:1-62 | equal-length rows spelling a local alignment ending at `max_pos`, scoring exactly the returned maximum, traced back as `TracePath` describes; with non-positive gap score no local alignment scores more; over '-'-free input no column is a double gap and removing the gaps gives the two substrings |
| SmithWaterman.CellIsOptimal | 1_smith_waterman/src/main.rs:12-30 | with a non-positive gap score, every local alignment ending at (i, j) scores at most cell (i, j) |
| SmithWaterman.GapsRemoved | 1_smith_waterman/src/main.rs:46-57 | over '-'-free input, removing '-' from each row gives the characters the alignment uses from that sequence |
| SmithWaterman.NoDoubleGap | 1_smith_waterman/src/main.rs:46-57 | over '-'-free input, no column holds '-' on both rows |

The copies of `murmur32` and `k_mer_lazy` in 3_k-mers-snp-call/src/main.rs (lines 38-44 and 53-110) and of `k_mer_lazy` in the two TFHE programs are the same code as the modelled ones, so `Murmur.Murmur32` and `KMers.KMerLazy` stand for all of them.

## Left out

- TFHE itself: key generation, the encryption parameters, `encrypt`/`try_encrypt` and `decrypt`. Ciphertexts are their plaintexts, so nothing about security, noise or the cost of homomorphic operations is modelled.
- `set_server_key`, `rayon::broadcast` and the thread pool: `par_iter().map(...).collect()` is a recursive halving whose left half's panic wins. Which of several panicking queries rayon actually reports is not modelled.
- KmerTypes.BitOrAssign: the `&mut self` operators are functions returning the new value. The enum is owned and never aliased, so update in place adds nothing observable.
- KmerTypes.Shl: Rust's `<<` panics in debug builds and masks the shift amount in release builds. The model follows the debug behaviour (a panic on a shift of at least the width); `binary_encode` never reaches it.
- KmerTypes.Shr: the same holds for `>>`. The model panics on a shift of at least the width, where a release build would mask the shift amount.
- KMers.KMerLazy: on an empty sequence the source recurses without end (k = 0 = len every time). The model requires a non-empty sequence, and its callers require the subjects (and the query) to be non-empty.
- Murmur.AsBytes: strings are sequences of characters taken one byte each. UTF-8 encoding of non-ASCII characters (several bytes, byte-index slicing) is not modelled; the sequences used are ACGT.
- SmithWaterman.Align: scores are unbounded integers. The source uses `i32`, and overflow (a debug panic or a wrap-around) is not modelled.
- SmithWaterman.CellIsOptimal: optimality is stated only for a non-positive gap score. With a positive gap score a run of gaps along row or column 0 outscores the 0 held there.
- The alignment produced for `main`'s example sequences is not worked out.
- Printing and timing: `println!`, `Instant`, the score-matrix dump in `smith_waterman`, and the `Debug`/`Binary` formatting in kmer_type.rs.
- The remaining programs of the repository are not part of this model:
  - the CKKS risk-score program in Go (floating point, a foreign library, file I/O);
  - the two polygenic-risk-score programs (f32 arithmetic, CSV and argument parsing);
  - the JavaScript FASTQ-to-BAM wrapper (process spawning).
