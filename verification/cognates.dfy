/**
 * `getcognatelist`: candidate cognate pairs, a source and a target word that share
 * their first five characters, or their first seven when that five-character
 * prefix is listed as an exception.
 */
module Cognates {
  import opened Common

  /** Lines 275-280: `f[:5] == e[:5]` and, for an exception prefix, also `f[:7] == e[:7]`. */
  predicate CognateMatch(f: string, e: string, exceptions: seq<string>)
  {
    Prefix(f, 5) == Prefix(e, 5) && (Prefix(f, 5) in exceptions ==> Prefix(f, 7) == Prefix(e, 7))
  }

  /** The pairs the inner loop emits for one source word, in the order of `en`. */
  ghost function MatchesOf(f: string, en: seq<string>, exceptions: seq<string>): seq<(string, string)>
    decreases |en|
  {
    if |en| == 0 then []
    else
      var n := |en| - 1;
      MatchesOf(f, en[..n], exceptions) + if CognateMatch(f, en[n], exceptions) then [(f, en[n])] else []
  }

  /** All pairs, in nested-loop order: `fr` outside, `en` inside. */
  ghost function CognatePairs(fr: seq<string>, en: seq<string>, exceptions: seq<string>): seq<(string, string)>
    decreases |fr|
  {
    if |fr| == 0 then []
    else
      var n := |fr| - 1;
      CognatePairs(fr[..n], en, exceptions) + MatchesOf(fr[n], en, exceptions)
  }

  /** Lines 262-284, with the exception list passed in rather than read from a file. */
  method GetCognateList(fr: seq<string>, en: seq<string>, exceptions: seq<string>)
    returns (cognatesList: seq<(string, string)>)
    ensures cognatesList == CognatePairs(fr, en, exceptions)
  {
    cognatesList := [];
    var i := 0;
    while i < |fr|
      invariant 0 <= i <= |fr|
      invariant cognatesList == CognatePairs(fr[..i], en, exceptions)
    {
      var elemFr := fr[i];
      ghost var done := cognatesList;
      var j := 0;
      while j < |en|
        invariant 0 <= j <= |en|
        invariant cognatesList == done + MatchesOf(elemFr, en[..j], exceptions)
      {
        var elemEn := en[j];
        assert en[..j + 1][..j] == en[..j];
        if Prefix(elemFr, 5) == Prefix(elemEn, 5) {
          if Prefix(elemFr, 5) in exceptions {
            if Prefix(elemFr, 7) == Prefix(elemEn, 7) {
              cognatesList := cognatesList + [(elemFr, elemEn)];
            }
          } else {
            cognatesList := cognatesList + [(elemFr, elemEn)];
          }
        }
        j := j + 1;
      }
      assert en[..j] == en;
      assert fr[..i + 1][..i] == fr[..i];
      i := i + 1;
    }
    assert fr[..i] == fr;
  }

  lemma {:induction false} MatchesOfMembers(f: string, en: seq<string>, exceptions: seq<string>, p: (string, string))
    ensures p in MatchesOf(f, en, exceptions) <==> p.0 == f && p.1 in en && CognateMatch(f, p.1, exceptions)
    decreases |en|
  {
    if |en| > 0 {
      var n := |en| - 1;
      MatchesOfMembers(f, en[..n], exceptions, p);
      assert en == en[..n] + [en[n]];
    }
  }

  /** A pair is emitted exactly when its words come from `fr` and `en` and match. */
  lemma {:induction false} CognatePairsMembers(fr: seq<string>, en: seq<string>, exceptions: seq<string>, f: string, e: string)
    ensures (f, e) in CognatePairs(fr, en, exceptions) <==> f in fr && e in en && CognateMatch(f, e, exceptions)
    decreases |fr|
  {
    if |fr| > 0 {
      var n := |fr| - 1;
      CognatePairsMembers(fr[..n], en, exceptions, f, e);
      MatchesOfMembers(fr[n], en, exceptions, (f, e));
      assert fr == fr[..n] + [fr[n]];
    }
  }

  /** Each pair of input words is tested once, so there are at most `|fr| * |en|` pairs. */
  lemma {:induction false} CognatePairsLength(fr: seq<string>, en: seq<string>, exceptions: seq<string>)
    ensures |CognatePairs(fr, en, exceptions)| <= |fr| * |en|
    decreases |fr|
  {
    if |fr| > 0 {
      var n := |fr| - 1;
      CognatePairsLength(fr[..n], en, exceptions);
      MatchesOfLength(fr[n], en, exceptions);
      assert |fr[..n]| == n;
      assert n * |en| + |en| == |fr| * |en| by {
        assert |fr| == n + 1;
      }
    }
  }

  lemma {:induction false} MatchesOfLength(f: string, en: seq<string>, exceptions: seq<string>)
    ensures |MatchesOf(f, en, exceptions)| <= |en|
    decreases |en|
  {
    if |en| > 0 {
      MatchesOfLength(f, en[..|en| - 1], exceptions);
    }
  }

  /**
   * The match does not depend on which side a word comes from: the exception test
   * reads the prefix the two words share.
   */
  lemma CognateSymmetric(f: string, e: string, exceptions: seq<string>)
    ensures CognateMatch(f, e, exceptions) <==> CognateMatch(e, f, exceptions)
  {
  }

  /** So running `getcognatelist` with the two corpora swapped finds the same pairs, reversed. */
  lemma CognatePairsSwap(fr: seq<string>, en: seq<string>, exceptions: seq<string>, f: string, e: string)
    ensures (f, e) in CognatePairs(fr, en, exceptions) <==> (e, f) in CognatePairs(en, fr, exceptions)
  {
    CognatePairsMembers(fr, en, exceptions, f, e);
    CognatePairsMembers(en, fr, exceptions, e, f);
    CognateSymmetric(f, e, exceptions);
  }

  /**
   * Matching words agree on the prefix, so the match is transitive: the target words
   * paired with one source word all match each other, and the pairs group words by prefix.
   */
  lemma CognateTransitive(f: string, e: string, g: string, exceptions: seq<string>)
    requires CognateMatch(f, e, exceptions) && CognateMatch(e, g, exceptions)
    ensures CognateMatch(f, g, exceptions)
  {
  }

  /** A word shorter than five characters is its whole prefix, so it only matches itself. */
  lemma ShortWordMatchesItself(f: string, e: string, exceptions: seq<string>)
    requires |f| < 5
    ensures CognateMatch(f, e, exceptions) <==> e == f
  {
    if Prefix(f, 5) == Prefix(e, 5) {
      assert |e| == |f|;
      assert e == Prefix(e, 5);
    }
  }
}
