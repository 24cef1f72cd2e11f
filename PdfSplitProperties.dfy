/**
 * What the naming policy of the "pdf-split" action guarantees: the base name
 * has no extension and stripping is idempotent; the frequency text reads back
 * what Integer.toString prints; the page ranges in the names are contiguous
 * and partition the original document; and no two split documents get the
 * same name, so no saved file overwrites another.
 */
module PdfSplitProperties {
  import opened JavaLang
  import opened PdfSplit

  // ---------------------------------------------------------------------
  // removeExtension

  /** What removeExtension leaves no longer contains a non-empty extension. */
  lemma RemoveExtensionLacksExtension(fileName: string, extension: string)
    requires extension != ""
    ensures !Contains(RemoveExtension(Some(fileName), extension).value, extension)
  {
    var r := RemoveExtension(Some(fileName), extension).value;
    if Contains(fileName, extension) {
      forall j | 0 <= j ensures !OccursAt(r, extension, j) {
        if OccursAt(r, extension, j) {
          assert r == fileName[..|r|];
          assert r[j..j + |extension|] == fileName[j..j + |extension|];
          assert OccursAt(fileName, extension, j);
          assert false;
        }
      }
    }
  }

  /** Stripping the extension twice is the same as stripping it once. */
  lemma RemoveExtensionIdempotent(fileName: Option<string>, extension: string)
    ensures RemoveExtension(RemoveExtension(fileName, extension), extension) ==
            RemoveExtension(fileName, extension)
  {
    if fileName.Some? {
      if extension == "" {
        assert OccursAt(fileName.value, extension, 0);
        assert OccursAt("", extension, 0);
      } else {
        RemoveExtensionLacksExtension(fileName.value, extension);
      }
    }
  }

  /** The cut is at the first occurrence, not at a trailing one. */
  lemma RemoveExtensionCutsAtFirstOccurrence()
    ensures RemoveExtension(Some("a.pdf.b.pdf"), ".pdf") == Some("a")
  {
    var name := "a.pdf.b.pdf";
    assert OccursAt(name, ".pdf", 1);
    assert !OccursAt(name, ".pdf", 0) by {
      assert name[0..4][0] == 'a';
    }
    assert IndexOf(name, ".pdf") == 1;
    assert name[..1] == "a";
  }

  /** An empty extension occurs at index 0, so the whole name is removed. */
  lemma RemoveEmptyExtension(fileName: string)
    ensures RemoveExtension(Some(fileName), "") == Some("")
  {
  }

  // ---------------------------------------------------------------------
  // The split frequency

  /** The frequency text Integer.toString writes is read back as the same int. */
  lemma SplitFrequencyRoundTrip(n: int)
    requires IsInt(n)
    ensures ParseSplitFrequency(IntToString(n)) == Ok(n)
  {
    ParseIntRoundTrip(n);
  }

  /** A frequency text that is read without error and is canonical is the rendering of its value. */
  lemma SplitFrequencyCanonical(text: string)
    requires IsCanonicalInt(text) && ParseSplitFrequency(text).Ok?
    ensures IntToString(ParseSplitFrequency(text).value) == text
  {
    ParseIntCanonical(text);
  }

  /**
   * `new Integer` is more lenient than Integer.toString: a '+' sign and
   * leading zeros are accepted, and the value is that of the digits,
   * negated after '-', whenever it fits in an int.
   */
  lemma SplitFrequencyLenient(sign: Sign, k: nat, n: nat)
    ensures IsInt(Signed(sign, n)) ==>
      ParseSplitFrequency(SignText(sign) + (Zeros(k) + NatToString(n))) == Ok(Signed(sign, n))
    ensures !IsInt(Signed(sign, n)) ==>
      ParseSplitFrequency(SignText(sign) + (Zeros(k) + NatToString(n))).Err?
  {
    ParseIntAccepts(sign, k, n);
  }

  /** Every non-empty frequency text read without error is a sign, leading zeros and the digits of its value. */
  lemma SplitFrequencyAcceptedText(text: string) returns (sign: Sign, k: nat, n: nat)
    requires text != "" && ParseSplitFrequency(text).Ok?
    ensures text == SignText(sign) + (Zeros(k) + NatToString(n))
    ensures ParseSplitFrequency(text).value == Signed(sign, n)
  {
    sign, k, n := ParseIntAcceptedForm(text);
  }

  /** "+5" is frequency 5. */
  lemma SplitFrequencyPlusSign()
    ensures ParseSplitFrequency("+5") == Ok(5)
  {
  }

  /** "007" is frequency 7. */
  lemma SplitFrequencyLeadingZeros()
    ensures ParseSplitFrequency("007") == Ok(7)
  {
    SplitFrequencyLenient(Unsigned, 2, 7);
    assert SignText(Unsigned) + (Zeros(2) + NatToString(7)) == "007";
  }

  /** "-0" is frequency 0, one document per page. */
  lemma SplitFrequencyNegativeZero()
    ensures ParseSplitFrequency("-0") == Ok(0)
  {
  }

  /** A lone sign and trailing text are rejected. */
  lemma SplitFrequencyMalformed()
    ensures ParseSplitFrequency("-") == Err(NumberFormatException("-"))
    ensures ParseSplitFrequency("5x") == Err(NumberFormatException("5x"))
  {
  }

  /** As written, an unset frequency throws where the empty text means one page per document. */
  lemma UnsetFrequencyThrows()
    ensures SplitFrequencyParameterAsWritten(None) == Err(NullPointerException)
    ensures SplitFrequencyParameterAsWritten(Some("")) == Ok(0)
  {
  }

  /**
   * The corrected reading agrees with the code wherever the code does not
   * throw NullPointerException, and treats an unset parameter like "".
   */
  lemma SplitFrequencyParameterCorrected(param: Option<string>)
    ensures SplitFrequencyParameterAsWritten(param) != Err(NullPointerException) ==>
      SplitFrequencyParameter(param) == SplitFrequencyParameterAsWritten(param)
    ensures param.None? ==> SplitFrequencyParameter(param) == SplitFrequencyParameter(Some(""))
  {
  }

  // ---------------------------------------------------------------------
  // Page ranges

  lemma {:induction false} SumPrefixMonotone(pageCounts: seq<nat>, i: nat, j: nat)
    requires i <= j <= |pageCounts|
    ensures Sum(pageCounts[..i]) <= Sum(pageCounts[..j])
    decreases j - i
  {
    if i < j {
      SumPrefixMonotone(pageCounts, i, j - 1);
      SumStep(pageCounts, j - 1);
    }
  }

  /**
   * The k-th range spans exactly the k-th document's pages, the first one
   * starts at page 1, each one starts right after the previous one ends, and
   * the last one ends at the total page count.
   */
  lemma BlockRange(pageCounts: seq<nat>, k: nat)
    requires k < |pageCounts|
    ensures BlockEnd(pageCounts, k) - BlockStart(pageCounts, k) + 1 == pageCounts[k]
    ensures BlockStart(pageCounts, k) <= BlockEnd(pageCounts, k) <==> pageCounts[k] > 0
    ensures k == 0 ==> BlockStart(pageCounts, k) == 1
    ensures k + 1 < |pageCounts| ==> BlockStart(pageCounts, k + 1) == BlockEnd(pageCounts, k) + 1
    ensures k + 1 == |pageCounts| ==> BlockEnd(pageCounts, k) == Sum(pageCounts)
  {
    SumStep(pageCounts, k);
    assert pageCounts[..|pageCounts|] == pageCounts;
  }

  /** Ranges of earlier documents end before ranges of later documents start. */
  lemma BlocksOrdered(pageCounts: seq<nat>, j: nat, k: nat)
    requires j < k < |pageCounts|
    ensures BlockEnd(pageCounts, j) < BlockStart(pageCounts, k)
  {
    SumPrefixMonotone(pageCounts, j + 1, k);
  }

  lemma {:induction false} PageInSomeBlock(pageCounts: seq<nat>, p: int) returns (k: nat)
    requires 1 <= p <= Sum(pageCounts)
    ensures k < |pageCounts| && BlockStart(pageCounts, k) <= p <= BlockEnd(pageCounts, k)
  {
    var n := |pageCounts|;
    var init := pageCounts[..n - 1];
    if p <= Sum(init) {
      k := PageInSomeBlock(init, p);
      assert init[..k] == pageCounts[..k];
      assert init[..k + 1] == pageCounts[..k + 1];
    } else {
      k := n - 1;
      assert pageCounts[..k + 1] == pageCounts;
    }
  }

  /** Every page of the original document lies in the range of exactly one split document. */
  lemma PageInExactlyOneBlock(pageCounts: seq<nat>, p: int) returns (k: nat)
    requires 1 <= p <= Sum(pageCounts)
    ensures k < |pageCounts| && BlockStart(pageCounts, k) <= p <= BlockEnd(pageCounts, k)
    ensures forall j | 0 <= j < |pageCounts| && BlockStart(pageCounts, j) <= p <= BlockEnd(pageCounts, j) ::
      j == k
  {
    k := PageInSomeBlock(pageCounts, p);
    forall j | 0 <= j < |pageCounts| && BlockStart(pageCounts, j) <= p <= BlockEnd(pageCounts, j)
      ensures j == k
    {
      if j < k {
        BlocksOrdered(pageCounts, j, k);
      } else if k < j {
        BlocksOrdered(pageCounts, k, j);
      }
    }
  }

  // ---------------------------------------------------------------------
  // Output names

  /**
   * Without a positive frequency the k-th name is `_pg<k+1>` whatever the
   * page counts; with one it carries the range `_pgs<first>-<last>`.
   */
  lemma OutputNameShape(baseName: string, extension: string, splitFrequency: int,
                        pageCounts: seq<nat>, otherCounts: seq<nat>, k: nat)
    requires k < |pageCounts| == |otherCounts|
    ensures splitFrequency <= 0 ==>
      OutputName(baseName, extension, splitFrequency, pageCounts, k) ==
      OutputName(baseName, extension, splitFrequency, otherCounts, k)
    ensures splitFrequency > 0 ==>
      OutputName(baseName, extension, splitFrequency, pageCounts, k) ==
      baseName + "_pgs" + IntToString(1 + Sum(pageCounts[..k])) + "-" +
      IntToString(Sum(pageCounts[..k]) + pageCounts[k]) + extension
    ensures baseName <= OutputName(baseName, extension, splitFrequency, pageCounts, k)
    ensures var name := OutputName(baseName, extension, splitFrequency, pageCounts, k);
      |name| >= |baseName| + |extension| && name[|name| - |extension|..] == extension
  {
    SumStep(pageCounts, k);
    var name := OutputName(baseName, extension, splitFrequency, pageCounts, k);
    assert name[..|baseName|] == baseName;
    assert name[|name| - |extension|..] == extension;
  }

  lemma CancelPrefix(p: string, x: string, y: string)
    requires p + x == p + y
    ensures x == y
  {
    assert x == (p + x)[|p|..];
    assert y == (p + y)[|p|..];
  }

  lemma CancelSuffix(x: string, y: string, e: string)
    requires x + e == y + e
    ensures x == y
  {
    assert x == (x + e)[..|x|];
    assert y == (y + e)[..|y|];
  }

  /** Digits followed by a dash: the digits are determined by the string. */
  lemma DigitsBeforeDash(a: string, x: string, b: string, y: string)
    requires AllDigits(a) && AllDigits(b)
    requires a + "-" + x == b + "-" + y
    ensures a == b
  {
    DashAfterDigits(a, x);
    DashAfterDigits(b, y);
    var s := a + "-" + x;
    assert a == s[..|a|];
    assert b == s[..|b|];
  }

  /** In digits followed by a dash, the first dash is the one after the digits. */
  lemma DashAfterDigits(a: string, x: string)
    requires AllDigits(a)
    ensures (a + "-" + x)[|a|] == '-'
    ensures forall i | 0 <= i < |a| :: (a + "-" + x)[i] != '-'
  {
  }

  /** Regrouping a name assembled left to right. */
  lemma Regroup(p: string, a: string, d: string, b: string, e: string)
    ensures p + a + d + b + e == p + (a + d + (b + e))
  {
  }

  /** A range tag `<first>-<last>` between fixed text determines its first page. */
  lemma RangeNameDeterminesStart(p: string, first1: nat, last1: nat, first2: nat, last2: nat, extension: string)
    requires p + IntToString(first1) + "-" + IntToString(last1) + extension ==
             p + IntToString(first2) + "-" + IntToString(last2) + extension
    ensures first1 == first2
  {
    var a1, a2 := IntToString(first1), IntToString(first2);
    var b1, b2 := IntToString(last1), IntToString(last2);
    Regroup(p, a1, "-", b1, extension);
    Regroup(p, a2, "-", b2, extension);
    CancelPrefix(p, a1 + "-" + (b1 + extension), a2 + "-" + (b2 + extension));
    DigitsBeforeDash(a1, b1 + extension, a2, b2 + extension);
    IntToStringInjective(first1, first2);
  }

  /** A number between fixed text determines itself. */
  lemma NumberNameDeterminesNumber(p: string, n1: int, n2: int, extension: string)
    requires p + IntToString(n1) + extension == p + IntToString(n2) + extension
    ensures n1 == n2
  {
    var d1, d2 := IntToString(n1), IntToString(n2);
    assert p + d1 + extension == p + (d1 + extension);
    assert p + d2 + extension == p + (d2 + extension);
    CancelPrefix(p, d1 + extension, d2 + extension);
    CancelSuffix(d1, d2, extension);
    IntToStringInjective(n1, n2);
  }

  /**
   * Two split documents never get the same name, given that each document
   * has at least one page when a positive frequency puts page ranges in the
   * names. So no save overwrites an earlier one, and every split document is
   * uploaded.
   */
  lemma OutputNamesDistinct(baseName: string, extension: string, splitFrequency: int,
                            pageCounts: seq<nat>, j: nat, k: nat)
    requires j < k < |pageCounts|
    requires splitFrequency > 0 ==> forall i | 0 <= i < |pageCounts| :: pageCounts[i] > 0
    ensures OutputName(baseName, extension, splitFrequency, pageCounts, j) !=
            OutputName(baseName, extension, splitFrequency, pageCounts, k)
  {
    if OutputName(baseName, extension, splitFrequency, pageCounts, j) ==
       OutputName(baseName, extension, splitFrequency, pageCounts, k) {
      if splitFrequency > 0 {
        BlockRange(pageCounts, j);
        BlocksOrdered(pageCounts, j, k);
        RangeNameDeterminesStart(baseName + "_pgs", BlockStart(pageCounts, j), BlockEnd(pageCounts, j),
                                 BlockStart(pageCounts, k), BlockEnd(pageCounts, k), extension);
      } else {
        NumberNameDeterminesNumber(baseName + "_pg", j + 1, k + 1, extension);
      }
    }
  }
}
