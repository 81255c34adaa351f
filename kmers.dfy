/** The sliding-window k-mer producers of 2_k-mer, whose `k_mer_lazy` is
    repeated verbatim in the SNP-calling programs.  Both take the windows
    starting at 0 .. len−k−1, so the window ending at the last base is never
    produced. */
module KMers {

  /** The number of windows produced for a sequence of length len. */
  function WindowCount(len: nat, k: nat): nat
  {
    if k == 0 || k > len then 0 else len - k
  }

  /** `k_mer_lazy(seq, k)` collected.  A degenerate k re-calls the function
      with k = len, which yields nothing; on the empty sequence that re-call
      repeats forever, so the sequence must be non-empty. */
  function KMerLazy(s: string, k: nat): (windows: seq<string>)
    requires s != []
    ensures |windows| == WindowCount(|s|, k)
    ensures forall i :: 0 <= i < |windows| ==> i + k <= |s| && windows[i] == s[i..i + k]
    decreases if k == 0 || k > |s| then 1 else 0
  {
    if k == 0 || k > |s| then KMerLazy(s, |s|)
    else seq(|s| - k, i requires 0 <= i < |s| - k => s[i..i + k])
  }

  /** `k_mer(seq, k)`: an empty vector for a degenerate k, otherwise the
      windows pushed in order. */
  method KMer(s: string, k: nat) returns (arr: seq<string>)
    ensures |arr| == WindowCount(|s|, k)
    ensures forall i :: 0 <= i < |arr| ==> i + k <= |s| && arr[i] == s[i..i + k]
    ensures s != [] ==> arr == KMerLazy(s, k)
  {
    var l := |s|;
    if k == 0 || k > l {
      return [];
    }
    arr := [];
    for i := 0 to l - k
      invariant |arr| == i
      invariant forall j :: 0 <= j < i ==> arr[j] == s[j..j + k]
    {
      arr := arr + [s[i..i + k]];
    }
  }

  /** Every subject is non-empty, so `k_mer_lazy` terminates on each. */
  predicate NonEmptyAll(subjects: seq<string>)
  {
    forall j :: 0 <= j < |subjects| ==> subjects[j] != []
  }

  /** w occurs in s starting at position i. */
  predicate OccursAt(s: string, w: string, i: nat)
  {
    i + |w| <= |s| && s[i..i + |w|] == w
  }

  /** w occurs in s starting at some position before n. */
  predicate OccursBefore(s: string, w: string, n: nat)
  {
    exists i: nat :: i < n && OccursAt(s, w, i)
  }

  /** Every window has length k and occurs in the sequence. */
  lemma WindowsAreSubstrings(s: string, k: nat, w: string)
    requires s != [] && w in KMerLazy(s, k)
    ensures |w| == k && exists i: nat :: OccursAt(s, w, i)
  {
    var windows := KMerLazy(s, k);
    var i :| 0 <= i < |windows| && windows[i] == w;
    assert OccursAt(s, w, i);
  }

  /** Windows exist exactly when 1 <= k < len: a k-mer as long as the whole
      sequence is never produced. */
  lemma SomeWindowIff(s: string, k: nat)
    requires s != []
    ensures KMerLazy(s, k) != [] <==> 1 <= k < |s|
  {
    if 1 <= k < |s| {
      assert |KMerLazy(s, k)| == |s| - k;
    }
  }

  /** The last window s[len−k..] is produced only when the same bases also
      start at an earlier position. */
  lemma LastWindowDropped(s: string, k: nat)
    requires 1 <= k <= |s|
    ensures s[|s| - k..] in KMerLazy(s, k) <==> OccursBefore(s, s[|s| - k..], |s| - k)
  {
    var windows := KMerLazy(s, k);
    var last := s[|s| - k..];
    if last in windows {
      var i :| 0 <= i < |windows| && windows[i] == last;
      assert OccursAt(s, last, i);
    }
    if OccursBefore(s, last, |s| - k) {
      var i: nat :| i < |s| - k && OccursAt(s, last, i);
      assert windows[i] == last;
    }
  }

  /** The example sequence of 2_k-mer with k = 5: seven windows from "ACGTA"
      to "GTACG"; the eighth, "TACGT", is the dropped last window. */
  lemma ExampleWindows()
    ensures |KMerLazy("ACGTACGTACGT", 5)| == 7
    ensures KMerLazy("ACGTACGTACGT", 5)[0] == "ACGTA"
    ensures KMerLazy("ACGTACGTACGT", 5)[6] == "GTACG"
  {
    var s := "ACGTACGTACGT";
    assert s[0..5] == "ACGTA";
    assert s[6..11] == "GTACG";
  }
}
