/**
 * A string transformed by Unicode case folding together with a mapping from
 * each code unit of the folded string back to the grapheme cluster of the
 * original string it came from.
 *
 * Grapheme segmentation and the folding of one grapheme are done by ICU, which
 * is not part of this model: the text arrives already split into graphemes, and
 * the fold is a parameter `caseMap` taking the chosen algorithm and one grapheme.
 */
module CaseFolding {
  import opened Wrappers

  /** A UTF-16 code unit: a Java `char`, surrogate halves included. */
  newtype CodeUnit = x: int | 0 <= x < 0x1_0000

  /** Java text, measured and indexed in UTF-16 code units. */
  type Utf16 = seq<CodeUnit>

  /** A `java.util.Locale` reduced to the parts that its equality compares here. */
  datatype Locale = Locale(language: string, country: string, variant: string)

  /** `new Locale("az")` and `new Locale("tr")`: a language with no country and no variant. */
  const AzLocale: Locale := Locale("az", "", "")
  const TrLocale: Locale := Locale("tr", "", "")

  /** ICU's `CaseMap.fold()` and its `.turkic()` variant. */
  datatype FoldAlgorithm = Default | Turkic

  /** ICU folding of one grapheme with the given algorithm. */
  type CaseMap = (FoldAlgorithm, Utf16) -> Utf16

  /**
   * The folding algorithm for a locale: the Turkic one exactly for the locales
   * equal to `az` or `tr`, which carry neither a country nor a variant.
   */
  function CaseFoldAlgorithmForLocale(locale: Locale): (algorithm: FoldAlgorithm)
    ensures algorithm == Turkic <==>
              (locale.language == "az" || locale.language == "tr") && locale.country == "" && locale.variant == ""
  {
    if locale == AzLocale || locale == TrLocale then Turkic else Default
  }

  /** The folded text and its code-unit-to-grapheme mapping, as `CaseFoldedString` stores them. */
  datatype FoldedText = FoldedText(foldedString: Utf16, graphemeIndexMapping: seq<int>)

  /** The mapping has one entry per code unit of the folded string and one for its end. */
  type CaseFoldedString = t: FoldedText | |t.graphemeIndexMapping| == |t.foldedString| + 1
    witness FoldedText([], [0])

  /** The exception `codeUnitToGraphemeIndex` throws. */
  datatype IndexError = IndexOutOfBounds(index: int)

  // ---------------------------------------------------------------------------
  // Specification of the fold

  /** The folded forms of the graphemes, concatenated in order. */
  function FoldAll(caseMap: CaseMap, algorithm: FoldAlgorithm, graphemes: seq<Utf16>): Utf16
    decreases |graphemes|
  {
    if graphemes == [] then []
    else
      var n := |graphemes| - 1;
      FoldAll(caseMap, algorithm, graphemes[..n]) + caseMap(algorithm, graphemes[n])
  }

  /** `n` copies of `v`. */
  function Repeat(v: int, n: nat): seq<int>
    decreases n
  {
    if n == 0 then [] else Repeat(v, n - 1) + [v]
  }

  /** For each grapheme in order, its index once per code unit of its folded form. */
  function Runs(caseMap: CaseMap, algorithm: FoldAlgorithm, graphemes: seq<Utf16>): seq<int>
    decreases |graphemes|
  {
    if graphemes == [] then []
    else
      var n := |graphemes| - 1;
      Runs(caseMap, algorithm, graphemes[..n]) + Repeat(n, |caseMap(algorithm, graphemes[n])|)
  }

  /** The full mapping: the runs, then the grapheme count for the end of the folded string. */
  function IndexMapping(caseMap: CaseMap, algorithm: FoldAlgorithm, graphemes: seq<Utf16>): seq<int> {
    Runs(caseMap, algorithm, graphemes) + [|graphemes|]
  }

  /** Offset in the folded string at which the folded form of grapheme `k` starts. */
  function GraphemeStart(caseMap: CaseMap, algorithm: FoldAlgorithm, graphemes: seq<Utf16>, k: nat): nat
    requires k <= |graphemes|
  {
    |FoldAll(caseMap, algorithm, graphemes[..k])|
  }

  // ---------------------------------------------------------------------------
  // The fold itself

  /**
   * `CaseFoldedString.fold`: fold each grapheme in turn, append the result to
   * the folded string, and record the grapheme's index once per code unit
   * appended; finally record the grapheme count for the end position.
   */
  method Fold(graphemes: seq<Utf16>, locale: Locale, caseMap: CaseMap) returns (r: CaseFoldedString)
    ensures r.foldedString == FoldAll(caseMap, CaseFoldAlgorithmForLocale(locale), graphemes)
    ensures r.graphemeIndexMapping == IndexMapping(caseMap, CaseFoldAlgorithmForLocale(locale), graphemes)
  {
    var builder: Utf16 := [];
    var foldAlgorithm := CaseFoldAlgorithmForLocale(locale);
    var indexMapping: seq<int> := [];
    var graphemeIndex := 0;
    while graphemeIndex < |graphemes|
      invariant 0 <= graphemeIndex <= |graphemes|
      invariant builder == FoldAll(caseMap, foldAlgorithm, graphemes[..graphemeIndex])
      invariant indexMapping == Runs(caseMap, foldAlgorithm, graphemes[..graphemeIndex])
    {
      var foldedGrapheme := caseMap(foldAlgorithm, graphemes[graphemeIndex]);
      builder := builder + foldedGrapheme;
      var i := 0;
      while i < |foldedGrapheme|
        invariant 0 <= i <= |foldedGrapheme|
        invariant indexMapping == Runs(caseMap, foldAlgorithm, graphemes[..graphemeIndex]) + Repeat(graphemeIndex, i)
      {
        indexMapping := indexMapping + [graphemeIndex];
        i := i + 1;
      }
      assert graphemes[..graphemeIndex + 1][..graphemeIndex] == graphemes[..graphemeIndex];
      graphemeIndex := graphemeIndex + 1;
    }
    assert graphemes[..graphemeIndex] == graphemes;
    indexMapping := indexMapping + [graphemeIndex];
    MappingLength(caseMap, foldAlgorithm, graphemes);
    r := FoldedText(builder, indexMapping);
  }

  /**
   * `codeUnitToGraphemeIndex`: the grapheme that code unit `codeUnitIndex` of
   * the folded string came from; the end position is accepted too.
   */
  function CodeUnitToGraphemeIndex(s: CaseFoldedString, codeUnitIndex: int): (r: Result<int, IndexError>)
    ensures r.Failure? <==> codeUnitIndex < 0 || codeUnitIndex > |s.foldedString|
    ensures r.Failure? ==> r.error == IndexOutOfBounds(codeUnitIndex)
    ensures r.Success? ==> r.value == s.graphemeIndexMapping[codeUnitIndex]
  {
    if codeUnitIndex < 0 || codeUnitIndex > |s.foldedString| then Failure(IndexOutOfBounds(codeUnitIndex))
    else Success(s.graphemeIndexMapping[codeUnitIndex])
  }

  // ---------------------------------------------------------------------------
  // Properties of the mapping

  lemma {:induction false} RepeatAt(v: int, n: nat)
    ensures |Repeat(v, n)| == n
    ensures forall i :: 0 <= i < n ==> Repeat(v, n)[i] == v
    decreases n
  {
    if n > 0 {
      RepeatAt(v, n - 1);
    }
  }

  lemma {:induction false} RunsLength(caseMap: CaseMap, algorithm: FoldAlgorithm, graphemes: seq<Utf16>)
    ensures |Runs(caseMap, algorithm, graphemes)| == |FoldAll(caseMap, algorithm, graphemes)|
    decreases |graphemes|
  {
    if graphemes != [] {
      var n := |graphemes| - 1;
      RunsLength(caseMap, algorithm, graphemes[..n]);
      RepeatAt(n, |caseMap(algorithm, graphemes[n])|);
    }
  }

  /** The mapping has exactly one entry more than the folded string has code units. */
  lemma MappingLength(caseMap: CaseMap, algorithm: FoldAlgorithm, graphemes: seq<Utf16>)
    ensures |IndexMapping(caseMap, algorithm, graphemes)| == |FoldAll(caseMap, algorithm, graphemes)| + 1
  {
    RunsLength(caseMap, algorithm, graphemes);
  }

  /** Folding a prefix of the graphemes gives a prefix of the folded string. */
  lemma {:induction false} FoldAllSplit(caseMap: CaseMap, algorithm: FoldAlgorithm, graphemes: seq<Utf16>, k: nat)
    requires k <= |graphemes|
    ensures FoldAll(caseMap, algorithm, graphemes) ==
              FoldAll(caseMap, algorithm, graphemes[..k]) + FoldAll(caseMap, algorithm, graphemes[k..])
    decreases |graphemes|
  {
    if k < |graphemes| {
      var n := |graphemes| - 1;
      var front := graphemes[..n];
      FoldAllSplit(caseMap, algorithm, front, k);
      assert front[..k] == graphemes[..k];
      assert graphemes[k..][..|graphemes[k..]| - 1] == front[k..];
      assert graphemes[k..][|graphemes[k..]| - 1] == graphemes[n];
    } else {
      assert graphemes[..k] == graphemes;
      assert graphemes[k..] == [];
    }
  }

  /**
   * Grapheme `k`'s folded form sits in the folded string between its start and
   * the next grapheme's start; the starts never decrease.
   */
  lemma FoldedGraphemeInPlace(caseMap: CaseMap, algorithm: FoldAlgorithm, graphemes: seq<Utf16>, k: nat)
    requires k < |graphemes|
    ensures GraphemeStart(caseMap, algorithm, graphemes, k + 1) ==
              GraphemeStart(caseMap, algorithm, graphemes, k) + |caseMap(algorithm, graphemes[k])|
    ensures GraphemeStart(caseMap, algorithm, graphemes, k + 1) <= |FoldAll(caseMap, algorithm, graphemes)|
    ensures FoldAll(caseMap, algorithm, graphemes)[GraphemeStart(caseMap, algorithm, graphemes, k)..
                                                  GraphemeStart(caseMap, algorithm, graphemes, k + 1)]
              == caseMap(algorithm, graphemes[k])
  {
    var prefix := graphemes[..k + 1];
    assert prefix[..k] == graphemes[..k];
    assert FoldAll(caseMap, algorithm, prefix) ==
             FoldAll(caseMap, algorithm, graphemes[..k]) + caseMap(algorithm, graphemes[k]);
    FoldAllSplit(caseMap, algorithm, graphemes, k + 1);
  }

  lemma StartMonotone(caseMap: CaseMap, algorithm: FoldAlgorithm, graphemes: seq<Utf16>, a: nat, b: nat)
    requires a <= b <= |graphemes|
    ensures GraphemeStart(caseMap, algorithm, graphemes, a) <= GraphemeStart(caseMap, algorithm, graphemes, b)
  {
    var front := graphemes[..b];
    FoldAllSplit(caseMap, algorithm, front, a);
    assert front[..a] == graphemes[..a];
  }

  /** How the mapping of all graphemes extends the mapping of all but the last. */
  lemma RunsSnoc(caseMap: CaseMap, algorithm: FoldAlgorithm, graphemes: seq<Utf16>)
    requires graphemes != []
    ensures var n := |graphemes| - 1;
            var front := Runs(caseMap, algorithm, graphemes[..n]);
            var runs := Runs(caseMap, algorithm, graphemes);
            |front| == GraphemeStart(caseMap, algorithm, graphemes, n) &&
            |runs| == GraphemeStart(caseMap, algorithm, graphemes, n + 1) &&
            (forall i :: 0 <= i < |front| ==> runs[i] == front[i]) &&
            (forall i :: |front| <= i < |runs| ==> runs[i] == n) &&
            forall k :: 0 <= k <= n ==>
              GraphemeStart(caseMap, algorithm, graphemes[..n], k) == GraphemeStart(caseMap, algorithm, graphemes, k)
  {
    var n := |graphemes| - 1;
    var front := graphemes[..n];
    RunsLength(caseMap, algorithm, front);
    RunsLength(caseMap, algorithm, graphemes);
    RepeatAt(n, |caseMap(algorithm, graphemes[n])|);
    assert graphemes[..n + 1] == graphemes;
    forall k | 0 <= k <= n
      ensures GraphemeStart(caseMap, algorithm, front, k) == GraphemeStart(caseMap, algorithm, graphemes, k)
    {
      assert front[..k] == graphemes[..k];
    }
  }

  /**
   * The entries equal to `k` are exactly those of the code units of grapheme
   * `k`'s folded form: one per code unit, contiguous. Every entry names a grapheme.
   */
  lemma {:induction false} RunsLocate(caseMap: CaseMap, algorithm: FoldAlgorithm, graphemes: seq<Utf16>, i: nat, k: nat)
    requires i < |Runs(caseMap, algorithm, graphemes)| && k < |graphemes|
    ensures 0 <= Runs(caseMap, algorithm, graphemes)[i] < |graphemes|
    ensures Runs(caseMap, algorithm, graphemes)[i] == k <==>
              GraphemeStart(caseMap, algorithm, graphemes, k) <= i < GraphemeStart(caseMap, algorithm, graphemes, k + 1)
    decreases |graphemes|
  {
    var n := |graphemes| - 1;
    var front := graphemes[..n];
    RunsSnoc(caseMap, algorithm, graphemes);
    var runs := Runs(caseMap, algorithm, graphemes);
    if i < |Runs(caseMap, algorithm, front)| {
      assert runs[i] == Runs(caseMap, algorithm, front)[i];
      if k < n {
        RunsLocate(caseMap, algorithm, front, i, k);
        assert GraphemeStart(caseMap, algorithm, front, k) == GraphemeStart(caseMap, algorithm, graphemes, k);
        assert GraphemeStart(caseMap, algorithm, front, k + 1) == GraphemeStart(caseMap, algorithm, graphemes, k + 1);
      } else {
        RunsLocate(caseMap, algorithm, front, i, 0);
      }
    } else {
      assert runs[i] == n;
      if k < n {
        StartMonotone(caseMap, algorithm, graphemes, k + 1, n);
      }
    }
  }

  /**
   * The mapping never decreases; every entry but the last names a grapheme, and
   * the last one is the grapheme count.
   */
  lemma MappingShape(caseMap: CaseMap, algorithm: FoldAlgorithm, graphemes: seq<Utf16>, i: nat, j: nat)
    requires i <= j < |IndexMapping(caseMap, algorithm, graphemes)|
    ensures IndexMapping(caseMap, algorithm, graphemes)[i] <= IndexMapping(caseMap, algorithm, graphemes)[j]
    ensures j < |IndexMapping(caseMap, algorithm, graphemes)| - 1 ==>
              0 <= IndexMapping(caseMap, algorithm, graphemes)[j] < |graphemes|
    ensures j == |IndexMapping(caseMap, algorithm, graphemes)| - 1 ==>
              IndexMapping(caseMap, algorithm, graphemes)[j] == |graphemes|
  {
    var m := IndexMapping(caseMap, algorithm, graphemes);
    var runs := Runs(caseMap, algorithm, graphemes);
    MappingLength(caseMap, algorithm, graphemes);
    RunsLength(caseMap, algorithm, graphemes);
    if j < |runs| {
      var ki := runs[i];
      var kj := runs[j];
      RunsLocate(caseMap, algorithm, graphemes, i, 0);
      RunsLocate(caseMap, algorithm, graphemes, j, 0);
      RunsLocate(caseMap, algorithm, graphemes, i, ki);
      RunsLocate(caseMap, algorithm, graphemes, j, kj);
      if kj < ki {
        StartMonotone(caseMap, algorithm, graphemes, kj + 1, ki);
      }
    } else if i < |runs| {
      RunsLocate(caseMap, algorithm, graphemes, i, 0);
    }
  }

  /**
   * Looking up a code unit of a folded text: out of range throws; a code unit of
   * the folded string gives the grapheme whose folded form holds it; the end
   * position gives the grapheme count.
   */
  lemma CodeUnitLookup(caseMap: CaseMap, algorithm: FoldAlgorithm, graphemes: seq<Utf16>, i: int)
    ensures var s := FoldedText(FoldAll(caseMap, algorithm, graphemes), IndexMapping(caseMap, algorithm, graphemes));
            |s.graphemeIndexMapping| == |s.foldedString| + 1 &&
            var r := CodeUnitToGraphemeIndex(s, i);
            (i < 0 || i > |s.foldedString| ==> r == Failure(IndexOutOfBounds(i))) &&
            (i == |s.foldedString| ==> r == Success(|graphemes|)) &&
            (0 <= i < |s.foldedString| ==>
               r.Success? && 0 <= r.value < |graphemes| &&
               GraphemeStart(caseMap, algorithm, graphemes, r.value) <= i <
               GraphemeStart(caseMap, algorithm, graphemes, r.value + 1))
  {
    MappingLength(caseMap, algorithm, graphemes);
    RunsLength(caseMap, algorithm, graphemes);
    var runs := Runs(caseMap, algorithm, graphemes);
    var s: CaseFoldedString := FoldedText(FoldAll(caseMap, algorithm, graphemes), runs + [|graphemes|]);
    if 0 <= i < |s.foldedString| {
      assert s.graphemeIndexMapping[i] == runs[i];
      RunsLocate(caseMap, algorithm, graphemes, i, 0);
      RunsLocate(caseMap, algorithm, graphemes, i, runs[i]);
    } else if i == |s.foldedString| {
      assert s.graphemeIndexMapping[i] == |graphemes|;
    }
  }

  /**
   * A grapheme outside the Basic Multilingual Plane takes two code units, so it
   * owns two entries of the mapping: with an identity fold, U+1F600 (the
   * surrogate pair D83D DE00) maps code units 0 and 1 to grapheme 0 and the end
   * position 2 to grapheme 1.
   */
  lemma SurrogatePairMapping(caseMap: CaseMap)
    requires forall a, g :: caseMap(a, g) == g
    ensures FoldAll(caseMap, Default, [[0xD83D, 0xDE00]]) == [0xD83D, 0xDE00]
    ensures IndexMapping(caseMap, Default, [[0xD83D, 0xDE00]]) == [0, 0, 1]
  {
    var gs: seq<Utf16> := [[0xD83D, 0xDE00]];
    assert gs[..0] == [];
    assert Repeat(0, 2) == [0, 0] by {
      assert Repeat(0, 1) == [0];
    }
  }
}
