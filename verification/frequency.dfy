/**
 * Occurrence-count tables of a token list: the `_sourceFreq` and `_targetFreq`
 * tables of the lexicon extractor and the word count inside `removehapax`.
 */
module Frequency {
  import opened Common

  /** `f` maps each distinct token of `tokens` to its number of occurrences, and nothing else. */
  ghost predicate IsFrequencyTable(f: map<string, nat>, tokens: seq<string>)
  {
    && (forall w :: w in f <==> w in tokens)
    && (forall w :: w in f ==> f[w] == multiset(tokens)[w])
  }

  /** Counts every token of `tokens`, one at a time, in list order. */
  method BuildFrequency(tokens: seq<string>) returns (f: map<string, nat>)
    ensures IsFrequencyTable(f, tokens)
    ensures forall w :: w in f ==> f[w] >= 1
  {
    f := map[];
    var i := 0;
    while i < |tokens|
      invariant 0 <= i <= |tokens|
      invariant IsFrequencyTable(f, tokens[..i])
    {
      var w := tokens[i];
      if w in f {
        f := f[w := f[w] + 1];
      } else {
        f := f[w := 1];
      }
      assert tokens[..i + 1] == tokens[..i] + [w];
      i := i + 1;
    }
    assert tokens[..i] == tokens;
  }

  /** The sum of the counts that `f` gives the keys in `keys`. */
  ghost function SumOver(f: map<string, nat>, keys: set<string>): nat
    requires keys <= f.Keys
    decreases keys
  {
    if keys == {} then 0
    else
      var k :| k in keys;
      f[k] + SumOver(f, keys - {k})
  }

  /** The sum of all counts of a table. */
  ghost function TotalCount(f: map<string, nat>): nat
  {
    SumOver(f, f.Keys)
  }

  /** The sum does not depend on which key is taken out first. */
  lemma {:induction false} SumOverRemove(f: map<string, nat>, keys: set<string>, k: string)
    requires keys <= f.Keys && k in keys
    ensures SumOver(f, keys) == f[k] + SumOver(f, keys - {k})
    decreases keys
  {
    var k' :| k' in keys && SumOver(f, keys) == f[k'] + SumOver(f, keys - {k'});
    if k' != k {
      SumOverRemove(f, keys - {k'}, k);
      SumOverRemove(f, keys - {k}, k');
      assert keys - {k'} - {k} == keys - {k} - {k'};
    }
  }

  /** The sum only looks at the counts of the keys summed over. */
  lemma {:induction false} SumOverAgree(f: map<string, nat>, g: map<string, nat>, keys: set<string>)
    requires keys <= f.Keys && keys <= g.Keys
    requires forall k :: k in keys ==> f[k] == g[k]
    ensures SumOver(f, keys) == SumOver(g, keys)
    decreases keys
  {
    if keys != {} {
      var k :| k in keys && SumOver(f, keys) == f[k] + SumOver(f, keys - {k});
      SumOverRemove(g, keys, k);
      SumOverAgree(f, g, keys - {k});
    }
  }

  /** The counts of a frequency table add up to the length of the token list. */
  lemma {:induction false} TotalCountIsLength(f: map<string, nat>, tokens: seq<string>)
    requires IsFrequencyTable(f, tokens)
    ensures TotalCount(f) == |tokens|
    decreases |tokens|
  {
    if |tokens| == 0 {
      assert f.Keys == {};
    } else {
      var n := |tokens| - 1;
      var x := tokens[n];
      var rest := tokens[..n];
      assert tokens == rest + [x];
      assert multiset(tokens) == multiset(rest) + multiset{x};
      SumOverRemove(f, f.Keys, x);
      if f[x] == 1 {
        var g := f - {x};
        assert x !in rest;
        assert IsFrequencyTable(g, rest);
        TotalCountIsLength(g, rest);
        assert g.Keys == f.Keys - {x};
        SumOverAgree(f, g, f.Keys - {x});
      } else {
        var g := f[x := f[x] - 1];
        assert IsFrequencyTable(g, rest);
        TotalCountIsLength(g, rest);
        assert g.Keys == f.Keys;
        SumOverRemove(g, g.Keys, x);
        SumOverAgree(f, g, f.Keys - {x});
      }
    }
  }
}
