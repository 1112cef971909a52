/** `removehapax`: the distinct words of a corpus that occur more than once. */
module Hapax {
  import opened Common
  import opened Frequency

  /**
   * Counts the words, then keeps each key whose count exceeds one. The keys are
   * visited in an unspecified order, as a dictionary's keys are.
   */
  method RemoveHapax(wordLst: seq<string>) returns (wordList: seq<string>)
    ensures Distinct(wordList)
    ensures forall w :: w in wordList <==> multiset(wordLst)[w] > 1
    ensures 2 * |wordList| <= |wordLst|
  {
    var wordDict := BuildFrequency(wordLst);
    wordList := [];
    var keys := wordDict.Keys;
    while keys != {}
      invariant keys <= wordDict.Keys
      invariant Distinct(wordList)
      invariant forall w :: w in wordList <==> w in wordDict && w !in keys && wordDict[w] > 1
      decreases keys
    {
      var key :| key in keys;
      if wordDict[key] > 1 {
        wordList := wordList + [key];
      }
      keys := keys - {key};
    }
    RepeatedWordsBound(wordList, multiset(wordLst));
  }

  /** Distinct words that each occur at least twice take up at least twice their number of slots. */
  lemma {:induction false} RepeatedWordsBound(words: seq<string>, m: multiset<string>)
    requires Distinct(words)
    requires forall w :: w in words ==> m[w] > 1
    ensures 2 * |words| <= |m|
    decreases |words|
  {
    if |words| > 0 {
      var n := |words| - 1;
      var x := words[n];
      var rest := words[..n];
      var m' := m - multiset{x, x};
      assert m == m' + multiset{x, x};
      forall w | w in rest ensures m'[w] > 1 {
        var i :| 0 <= i < n && rest[i] == w;
        assert words[i] == w;
      }
      assert Distinct(rest) by {
        forall i, j | 0 <= i < j < n ensures rest[i] != rest[j] {
          assert rest[i] == words[i] && rest[j] == words[j];
        }
      }
      RepeatedWordsBound(rest, m');
    }
  }
}
