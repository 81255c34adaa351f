/** The example run of 5_k-mers_snp-call_tfhe's `main`: the query
    "ACGTTAACT" with k = 5 against five SNP neighbourhoods, which decrypts
    to [true, false, true, true]. */
module ExactMatchExample {
  import opened Outcome
  import opened UInt
  import opened KmerTypes
  import opened Fhe
  import opened KMers
  import opened ExactMatch

  const Query: string := "ACGTTAACT"

  const Snps: seq<string> := ["ACGTTGACTA", "GCAATTGGAC", "CGGAAATTAC", "GAGTTAACCT", "GAGGATTTCT"]

  /** The encrypted query codes the client sends. */
  const Queries: seq<FheUint16> := [FheUint16(111), FheUint16(444), FheUint16(752), FheUint16(961)]

  /** A five-base k-mer read as a base-4 number, first base most significant. */
  lemma Base4OfFive(w: string)
    requires |w| == 5 && AllBases(w)
    ensures Base4(w) == 256 * BaseCode(w[0]) + 64 * BaseCode(w[1]) + 16 * BaseCode(w[2]) + 4 * BaseCode(w[3]) + BaseCode(w[4])
  {
    hide Pow2;
    var d0, d1, d2, d3, d4 := BaseCode(w[0]), BaseCode(w[1]), BaseCode(w[2]), BaseCode(w[3]), BaseCode(w[4]);
    assert AllBases(w[..1]) && Base4(w[..1]) == d0 by {
      assert Base4(w[..0]) == 0;
      PrefixExtend(w, 0);
    }
    assert AllBases(w[..2]) && Base4(w[..2]) == 4 * d0 + d1 by {
      PrefixExtend(w, 1);
    }
    assert AllBases(w[..3]) && Base4(w[..3]) == 16 * d0 + 4 * d1 + d2 by {
      PrefixExtend(w, 2);
    }
    assert AllBases(w[..4]) && Base4(w[..4]) == 64 * d0 + 16 * d1 + 4 * d2 + d3 by {
      PrefixExtend(w, 3);
    }
    assert Base4(w[..5]) == 256 * d0 + 64 * d1 + 16 * d2 + 4 * d3 + d4 by {
      PrefixExtend(w, 4);
    }
    assert w[..5] == w;
  }

  /** The 16-bit code of a five-base ACGT k-mer. */
  lemma CodeOf(w: string, c: nat)
    requires |w| == 5 && AllBases(w)
    requires c == 256 * BaseCode(w[0]) + 64 * BaseCode(w[1]) + 16 * BaseCode(w[2]) + 4 * BaseCode(w[3]) + BaseCode(w[4])
    ensures EncodeU16(w) == Ok(c)
  {
    Base4OfFive(w);
  }

  /** A sequence whose windows have the given codes has them as its codes. */
  lemma WindowCodesOf(s: string, k: nat, codes: seq<u16>)
    requires 1 <= k < |s| && |codes| == |s| - k
    requires forall p :: 0 <= p < |codes| ==> EncodeU16(s[p..p + k]) == Ok(codes[p])
    ensures WindowCodes(s, k) == Ok(codes)
  {
    hide EncodeU16;
    var windows := KMerLazy(s, k);
    var rs := seq(|windows|, p requires 0 <= p < |windows| => EncodeU16(windows[p]));
    assert forall p :: 0 <= p < |rs| ==> rs[p] == Ok(codes[p]);
    assert Collect(rs).value == codes;
  }

  /** The five window codes of a ten-base sequence with k = 5. */
  lemma FiveWindowCodes(s: string, c0: u16, c1: u16, c2: u16, c3: u16, c4: u16)
    requires |s| == 10
    requires EncodeU16(s[0..5]) == Ok(c0) && EncodeU16(s[1..6]) == Ok(c1) && EncodeU16(s[2..7]) == Ok(c2)
    requires EncodeU16(s[3..8]) == Ok(c3) && EncodeU16(s[4..9]) == Ok(c4)
    ensures WindowCodes(s, 5) == Ok([c0, c1, c2, c3, c4])
  {
    hide EncodeU16;
    var codes := [c0, c1, c2, c3, c4];
    forall p | 0 <= p < 5
      ensures EncodeU16(s[p..p + 5]) == Ok(codes[p])
    {
      if p == 0 {} else if p == 1 {} else if p == 2 {} else if p == 3 {} else {}
    }
    WindowCodesOf(s, 5, codes);
  }

  /** The codes of subject 0's windows. */
  lemma Subject0WindowCodes()
    ensures EncodeU16("ACGTT") == Ok(111) && EncodeU16("CGTTG") == Ok(446) && EncodeU16("GTTGA") == Ok(760)
    ensures EncodeU16("TTGAC") == Ok(993) && EncodeU16("TGACT") == Ok(903)
  {
    CodeOf("ACGTT", 111);
    CodeOf("CGTTG", 446);
    CodeOf("GTTGA", 760);
    CodeOf("TTGAC", 993);
    CodeOf("TGACT", 903);
  }

  lemma Subject0Codes()
    ensures WindowCodes(Snps[0], 5) == Ok([111, 446, 760, 993, 903])
  {
    hide EncodeU16;
    var s := Snps[0];
    assert s == "ACGTTGACTA";
    assert s[0..5] == "ACGTT" && s[1..6] == "CGTTG" && s[2..7] == "GTTGA" && s[3..8] == "TTGAC" && s[4..9] == "TGACT";
    Subject0WindowCodes();
    FiveWindowCodes(s, 111, 446, 760, 993, 903);
  }

  /** The codes of subject 1's windows. */
  lemma Subject1WindowCodes()
    ensures EncodeU16("GCAAT") == Ok(579) && EncodeU16("CAATT") == Ok(271) && EncodeU16("AATTG") == Ok(62)
    ensures EncodeU16("ATTGG") == Ok(250) && EncodeU16("TTGGA") == Ok(1000)
  {
    CodeOf("GCAAT", 579);
    CodeOf("CAATT", 271);
    CodeOf("AATTG", 62);
    CodeOf("ATTGG", 250);
    CodeOf("TTGGA", 1000);
  }

  lemma Subject1Codes()
    ensures WindowCodes(Snps[1], 5) == Ok([579, 271, 62, 250, 1000])
  {
    hide EncodeU16;
    var s := Snps[1];
    assert s == "GCAATTGGAC";
    assert s[0..5] == "GCAAT" && s[1..6] == "CAATT" && s[2..7] == "AATTG" && s[3..8] == "ATTGG" && s[4..9] == "TTGGA";
    Subject1WindowCodes();
    FiveWindowCodes(s, 579, 271, 62, 250, 1000);
  }

  /** The codes of subject 2's windows. */
  lemma Subject2WindowCodes()
    ensures EncodeU16("CGGAA") == Ok(416) && EncodeU16("GGAAA") == Ok(640) && EncodeU16("GAAAT") == Ok(515)
    ensures EncodeU16("AAATT") == Ok(15) && EncodeU16("AATTA") == Ok(60)
  {
    CodeOf("CGGAA", 416);
    CodeOf("GGAAA", 640);
    CodeOf("GAAAT", 515);
    CodeOf("AAATT", 15);
    CodeOf("AATTA", 60);
  }

  lemma Subject2Codes()
    ensures WindowCodes(Snps[2], 5) == Ok([416, 640, 515, 15, 60])
  {
    hide EncodeU16;
    var s := Snps[2];
    assert s == "CGGAAATTAC";
    assert s[0..5] == "CGGAA" && s[1..6] == "GGAAA" && s[2..7] == "GAAAT" && s[3..8] == "AAATT" && s[4..9] == "AATTA";
    Subject2WindowCodes();
    FiveWindowCodes(s, 416, 640, 515, 15, 60);
  }

  /** The codes of subject 3's windows. */
  lemma Subject3WindowCodes()
    ensures EncodeU16("GAGTT") == Ok(559) && EncodeU16("AGTTA") == Ok(188) && EncodeU16("GTTAA") == Ok(752)
    ensures EncodeU16("TTAAC") == Ok(961) && EncodeU16("TAACC") == Ok(773)
  {
    CodeOf("GAGTT", 559);
    CodeOf("AGTTA", 188);
    CodeOf("GTTAA", 752);
    CodeOf("TTAAC", 961);
    CodeOf("TAACC", 773);
  }

  lemma Subject3Codes()
    ensures WindowCodes(Snps[3], 5) == Ok([559, 188, 752, 961, 773])
  {
    hide EncodeU16;
    var s := Snps[3];
    assert s == "GAGTTAACCT";
    assert s[0..5] == "GAGTT" && s[1..6] == "AGTTA" && s[2..7] == "GTTAA" && s[3..8] == "TTAAC" && s[4..9] == "TAACC";
    Subject3WindowCodes();
    FiveWindowCodes(s, 559, 188, 752, 961, 773);
  }

  /** The codes of subject 4's windows. */
  lemma Subject4WindowCodes()
    ensures EncodeU16("GAGGA") == Ok(552) && EncodeU16("AGGAT") == Ok(163) && EncodeU16("GGATT") == Ok(655)
    ensures EncodeU16("GATTT") == Ok(575) && EncodeU16("ATTTC") == Ok(253)
  {
    CodeOf("GAGGA", 552);
    CodeOf("AGGAT", 163);
    CodeOf("GGATT", 655);
    CodeOf("GATTT", 575);
    CodeOf("ATTTC", 253);
  }

  lemma Subject4Codes()
    ensures WindowCodes(Snps[4], 5) == Ok([552, 163, 655, 575, 253])
  {
    hide EncodeU16;
    var s := Snps[4];
    assert s == "GAGGATTTCT";
    assert s[0..5] == "GAGGA" && s[1..6] == "AGGAT" && s[2..7] == "GGATT" && s[3..8] == "GATTT" && s[4..9] == "ATTTC";
    Subject4WindowCodes();
    FiveWindowCodes(s, 552, 163, 655, 575, 253);
  }

  /** The codes of the query's windows. */
  lemma QueryWindowCodes()
    ensures EncodeU16("ACGTT") == Ok(111) && EncodeU16("CGTTA") == Ok(444)
    ensures EncodeU16("GTTAA") == Ok(752) && EncodeU16("TTAAC") == Ok(961)
  {
    CodeOf("ACGTT", 111);
    CodeOf("CGTTA", 444);
    CodeOf("GTTAA", 752);
    CodeOf("TTAAC", 961);
  }

  /** The query's windows with k = 5: the last one, "TAACT", is dropped. */
  lemma ExampleQueryWindows()
    ensures KMerLazy(Query, 5) == ["ACGTT", "CGTTA", "GTTAA", "TTAAC"]
    ensures "TAACT" !in KMerLazy(Query, 5)
  {
    var s := Query;
    assert s == "ACGTTAACT";
    var windows := KMerLazy(s, 5);
    assert |windows| == 4;
    assert windows[0] == "ACGTT" by { assert windows[0] == s[0..5]; }
    assert windows[1] == "CGTTA" by { assert windows[1] == s[1..6]; }
    assert windows[2] == "GTTAA" by { assert windows[2] == s[2..7]; }
    assert windows[3] == "TTAAC" by { assert windows[3] == s[3..8]; }
  }

  /** Four ciphertexts holding 111, 444, 752 and 961 are the query sent. */
  lemma QueriesOfPlains(v: seq<FheUint16>)
    requires |v| == 4 && v[0].plain == 111 && v[1].plain == 444 && v[2].plain == 752 && v[3].plain == 961
    ensures v == Queries
  {
  }

  /** The client's side: the four windows are packed and encrypted as 111,
      444, 752 and 961. */
  lemma ExampleQuery()
    ensures EncryptedQuery(Query, 5) == Ok(Queries)
  {
    hide EncodeU16, KMerLazy, EncryptedQuery;
    ExampleQueryWindows();
    QueryWindowCodes();
    EncryptedQueryMeaning(Query, 5);
    var v := EncryptedQuery(Query, 5).value;
    QueriesOfPlains(v);
  }

  /** The bounds the client's map computes: any min and max that bound the
      four codes and are attained are 111 and 961. */
  lemma ExampleBounds(min: u16, max: u16)
    requires forall i :: 0 <= i < 4 ==> min <= Queries[i].plain <= max
    requires exists i :: 0 <= i < 4 && Queries[i].plain == min
    requires exists i :: 0 <= i < 4 && Queries[i].plain == max
    ensures min == 111 && max == 961
  {
    assert min <= Queries[0].plain && Queries[3].plain <= max;
  }

  /** Every subject keeps an in-range window. */
  lemma ExampleSurvives()
    ensures forall j :: 0 <= j < 5 ==> Survives(Snps[j], 5, 111, 961)
  {
    hide WindowCodes, EncodeU16;
    Subject0Codes();
    Subject1Codes();
    Subject2Codes();
    Subject3Codes();
    Subject4Codes();
    forall j | 0 <= j < 5
      ensures Survives(Snps[j], 5, 111, 961)
    {
      var codes := WindowCodes(Snps[j], 5).value;
      assert codes[0] in codes;
    }
  }

  /** No window of any subject packs to 444, the code of CGTTA. */
  lemma ExampleNoCGTTA(j: int, p: int)
    ensures !CodeAt(Snps, 5, 444, j, p)
  {
    hide WindowCodes, EncodeU16, CodeAt;
    if CodeAt(Snps, 5, 444, j, p) {
      CodeAtBounds(Snps, 5, 444, j, p);
      if j == 0 {
        Subject0Codes();
      } else if j == 1 {
        Subject1Codes();
      } else if j == 2 {
        Subject2Codes();
      } else if j == 3 {
        Subject3Codes();
      } else {
        Subject4Codes();
      }
      CodeAtPosition(Snps, 5, 444, j, p);
    }
  }

  /** The flag for each query: only CGTTA is absent. */
  lemma ExampleFlag(i: nat)
    requires i < 4
    ensures QueryMatchFiltered(Queries[i], 5, Snps, 111, 961) == Ok(FheBool(i != 1))
  {
    hide CodeAt, WindowCodes, EncodeU16, Survives;
    var q := Queries[i];
    ExampleSurvives();
    QueryMatchFilteredOk(q, 5, Snps, 111, 961);
    QueryMatchFilteredFlag(q, 5, Snps, 111, 961);
    if i == 0 {
      Subject0Codes();
      CodeAtPosition(Snps, 5, 111, 0, 0);
    } else if i == 1 {
      forall j, p
        ensures !CodeAt(Snps, 5, 444, j, p)
      {
        ExampleNoCGTTA(j, p);
      }
    } else if i == 2 {
      Subject3Codes();
      CodeAtPosition(Snps, 5, 752, 3, 2);
    } else {
      Subject3Codes();
      CodeAtPosition(Snps, 5, 961, 3, 3);
    }
  }

  /** The server's side: nothing panics and the flags are [true, false,
      true, true]; the parallel compare agrees. */
  lemma ExampleResult()
    ensures SnpCompareSingleFiltered(Queries, 5, Snps, 111, 961) == Ok([FheBool(true), FheBool(false), FheBool(true), FheBool(true)])
    ensures SnpCompareParallelFiltered(Queries, 5, Snps, 111, 961) == Ok([FheBool(true), FheBool(false), FheBool(true), FheBool(true)])
  {
    hide QueryMatchFiltered;
    ExampleFlag(0);
    ExampleFlag(1);
    ExampleFlag(2);
    ExampleFlag(3);
    var rs := QueryResultsFiltered(Queries, 5, Snps, 111, 961);
    assert rs == [Ok(FheBool(true)), Ok(FheBool(false)), Ok(FheBool(true)), Ok(FheBool(true))];
    assert Collect(rs).value == [FheBool(true), FheBool(false), FheBool(true), FheBool(true)];
    ParallelIsSingleFiltered(Queries, 5, Snps, 111, 961);
  }
}
