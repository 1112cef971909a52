/**
 * `LexiconExtractor`: it holds the bilingual dictionary and the source and target
 * frequency tables, and `translate` projects a source context vector onto target
 * words. Each translatable word splits its weight over those of its translations
 * that occur in the target corpus, in proportion to their frequency; the weight of
 * a stopword or of a word missing from the dictionary goes to the `<unk>` bucket.
 */
module Lexicon {
  import opened Common
  import opened Frequency
  import opened Dictionary

  /** A context vector in the order `vector.keys()` visits it: (word, weight) pairs. */
  type SourceVector = seq<(string, nat)>

  /** A projected vector over target words, `<unk>` included. */
  type TargetVector = map<string, real>

  /** Every count in the table is at least one, so a sum of counts of present words is never zero. */
  ghost predicate PositiveCounts(targetFreq: map<string, nat>)
  {
    forall w :: w in targetFreq ==> targetFreq[w] >= 1
  }

  /** A word whose weight is projected rather than sent to the `<unk>` bucket (line 74). */
  predicate Translatable(dict: map<string, seq<string>>, stopwords: set<string>, word: string)
  {
    word in dict && word !in stopwords
  }

  /** `freq_sum`: the target counts of the translations that occur in the target table (lines 77-80). */
  function FreqSum(translations: seq<string>, targetFreq: map<string, nat>): (s: nat)
    ensures forall t :: t in translations && t in targetFreq ==> s >= targetFreq[t]
    ensures s > 0 ==> exists t :: t in translations && t in targetFreq
  {
    if |translations| == 0 then 0
    else
      var n := |translations| - 1;
      var last := translations[n];
      assert forall t :: t in translations ==> t in translations[..n] || t == last;
      FreqSum(translations[..n], targetFreq) + if last in targetFreq then targetFreq[last] else 0
  }

  /** Entry `entry` of the input writes a share to target word `t` (lines 82-84). */
  predicate Writes(dict: map<string, seq<string>>, targetFreq: map<string, nat>, stopwords: set<string>,
                   entry: (string, nat), t: string)
  {
    Translatable(dict, stopwords, entry.0) && t in dict[entry.0] && t in targetFreq
  }

  /**
   * The shares one translatable word of weight `weight` hands out: each translation
   * found in the target table gets weight * freq / freq_sum (line 84).
   */
  ghost function Shares(translations: seq<string>, targetFreq: map<string, nat>, weight: nat): map<string, real>
    requires PositiveCounts(targetFreq)
  {
    map t | t in translations && t in targetFreq :: Share(weight, targetFreq[t], FreqSum(translations, targetFreq))
  }

  /** `float(weight) * float(count) / float(freqSum)`. */
  function Share(weight: nat, count: nat, freqSum: nat): real
    requires freqSum > 0
  {
    (weight as real) * (count as real) / (freqSum as real)
  }

  /** The share that `entry` writes to `t`. */
  ghost function ShareOf(dict: map<string, seq<string>>, targetFreq: map<string, nat>, stopwords: set<string>,
                         entry: (string, nat), t: string): real
    requires PositiveCounts(targetFreq) && Writes(dict, targetFreq, stopwords, entry, t)
  {
    Shares(dict[entry.0], targetFreq, entry.1)[t]
  }

  /** The last of the first `k` entries that writes to `t`: the one whose assignment survives. */
  function LastWriter(vector: SourceVector, dict: map<string, seq<string>>, targetFreq: map<string, nat>,
                      stopwords: set<string>, k: nat, t: string): (r: Option<nat>)
    requires k <= |vector|
    ensures r.Some? ==> r.value < k && Writes(dict, targetFreq, stopwords, vector[r.value], t)
    ensures r.Some? ==> forall j :: r.value < j < k ==> !Writes(dict, targetFreq, stopwords, vector[j], t)
    ensures r.None? ==> forall j :: 0 <= j < k ==> !Writes(dict, targetFreq, stopwords, vector[j], t)
  {
    if k == 0 then None
    else if Writes(dict, targetFreq, stopwords, vector[k - 1], t) then Some(k - 1)
    else LastWriter(vector, dict, targetFreq, stopwords, k - 1, t)
  }

  /** The weights of the untranslatable entries among entries `lo` to `hi - 1`. */
  ghost function UnkMass(vector: SourceVector, dict: map<string, seq<string>>, stopwords: set<string>,
                         lo: nat, hi: nat): real
    requires lo <= hi <= |vector|
    decreases hi
  {
    if hi == lo then 0.0
    else
      UnkMass(vector, dict, stopwords, lo, hi - 1)
      + if Translatable(dict, stopwords, vector[hi - 1].0) then 0.0 else vector[hi - 1].1 as real
  }

  /**
   * The `<unk>` entry after `k` entries: the untranslatable weights, counted from the
   * last entry that overwrote `<unk>` as a translation, if any.
   */
  ghost function UnkValue(vector: SourceVector, dict: map<string, seq<string>>, targetFreq: map<string, nat>,
                          stopwords: set<string>, k: nat): real
    requires PositiveCounts(targetFreq) && k <= |vector|
  {
    match LastWriter(vector, dict, targetFreq, stopwords, k, UNK)
    case None => UnkMass(vector, dict, stopwords, 0, k)
    case Some(i) => ShareOf(dict, targetFreq, stopwords, vector[i], UNK) + UnkMass(vector, dict, stopwords, i + 1, k)
  }

  /** `r` is what `translate` has built after the first `k` entries. */
  ghost predicate Projects(r: TargetVector, vector: SourceVector, dict: map<string, seq<string>>,
                           targetFreq: map<string, nat>, stopwords: set<string>, k: nat)
    requires PositiveCounts(targetFreq) && k <= |vector|
  {
    && UNK in r
    && (forall t :: t != UNK ==> (t in r <==> LastWriter(vector, dict, targetFreq, stopwords, k, t).Some?))
    && (forall t :: t in r && t != UNK ==>
          r[t] == ShareOf(dict, targetFreq, stopwords, vector[LastWriter(vector, dict, targetFreq, stopwords, k, t).value], t))
    && r[UNK] == UnkValue(vector, dict, targetFreq, stopwords, k)
  }

  /** The total input weight of the first `k` entries. */
  ghost function Weight(vector: SourceVector, k: nat): real
    requires k <= |vector|
  {
    if k == 0 then 0.0 else Weight(vector, k - 1) + vector[k - 1].1 as real
  }

  /** The sum of the values `r` gives the keys in `keys`. */
  ghost function MassOver(r: TargetVector, keys: set<string>): real
    requires keys <= r.Keys
    decreases keys
  {
    if keys == {} then 0.0
    else
      var k :| k in keys;
      r[k] + MassOver(r, keys - {k})
  }

  /** The total mass of a projected vector. */
  ghost function Mass(r: TargetVector): real
  {
    MassOver(r, r.Keys)
  }

  lemma {:induction false} MassOverRemove(r: TargetVector, keys: set<string>, k: string)
    requires keys <= r.Keys && k in keys
    ensures MassOver(r, keys) == r[k] + MassOver(r, keys - {k})
    decreases keys
  {
    var k' :| k' in keys && MassOver(r, keys) == r[k'] + MassOver(r, keys - {k'});
    if k' != k {
      MassOverRemove(r, keys - {k'}, k);
      MassOverRemove(r, keys - {k}, k');
      assert keys - {k'} - {k} == keys - {k} - {k'};
    }
  }

  lemma {:induction false} MassOverAgree(r: TargetVector, s: TargetVector, keys: set<string>)
    requires keys <= r.Keys && keys <= s.Keys
    requires forall k :: k in keys ==> r[k] == s[k]
    ensures MassOver(r, keys) == MassOver(s, keys)
    decreases keys
  {
    if keys != {} {
      var k :| k in keys && MassOver(r, keys) == r[k] + MassOver(r, keys - {k});
      MassOverRemove(s, keys, k);
      MassOverAgree(r, s, keys - {k});
    }
  }

  /** Assigning `v` to `t` replaces the mass `t` had, if any, by `v`. */
  lemma MassUpdate(r: TargetVector, t: string, v: real)
    ensures Mass(r[t := v]) == Mass(r) - (if t in r then r[t] else 0.0) + v
  {
    var s := r[t := v];
    MassOverRemove(s, s.Keys, t);
    if t in r {
      MassOverRemove(r, r.Keys, t);
      assert s.Keys - {t} == r.Keys - {t};
      MassOverAgree(r, s, r.Keys - {t});
    } else {
      assert s.Keys - {t} == r.Keys;
      MassOverAgree(r, s, r.Keys);
    }
  }

  /** Assigning to each key of `s` in turn: keys of `r` outside `s` keep their values. */
  lemma {:induction false} MassMerge(r: TargetVector, s: TargetVector)
    requires forall t :: t in r ==> r[t] >= 0.0
    requires forall t :: t in s ==> s[t] >= 0.0
    ensures Mass(r + s) <= Mass(r) + Mass(s)
    ensures r.Keys !! s.Keys ==> Mass(r + s) == Mass(r) + Mass(s)
    decreases s.Keys
  {
    if s.Keys == {} {
      assert r + s == r;
      assert Mass(s) == 0.0;
    } else {
      var k :| k in s.Keys;
      var s' := s - {k};
      assert s'.Keys == s.Keys - {k};
      MassMerge(r, s');
      assert r + s == (r + s')[k := s[k]];
      MassUpdate(r + s', k, s[k]);
      MassOverRemove(s, s.Keys, k);
      MassOverAgree(s, s', s.Keys - {k});
      if k in r {
        assert (r + s')[k] == r[k];
      }
    }
  }

  /** With distinct translations, `freq_sum` is the sum of the counts of the set of found translations. */
  lemma {:induction false} FreqSumIsSum(translations: seq<string>, targetFreq: map<string, nat>)
    requires Distinct(translations)
    ensures FreqSum(translations, targetFreq) == SumOver(targetFreq, set t | t in translations && t in targetFreq)
    decreases |translations|
  {
    var found := set t | t in translations && t in targetFreq;
    if |translations| == 0 {
      assert found == {};
    } else {
      var n := |translations| - 1;
      var rest := translations[..n];
      var last := translations[n];
      var foundRest := set t | t in rest && t in targetFreq;
      assert translations == rest + [last];
      assert Distinct(rest) by {
        forall i, j | 0 <= i < j < |rest| ensures rest[i] != rest[j] {
          assert rest[i] == translations[i] && rest[j] == translations[j];
        }
      }
      assert last !in rest by {
        forall i | 0 <= i < n ensures rest[i] != last {
          assert rest[i] == translations[i];
        }
      }
      FreqSumIsSum(rest, targetFreq);
      if last in targetFreq {
        assert found - {last} == foundRest;
        SumOverRemove(targetFreq, found, last);
      } else {
        assert found == foundRest;
      }
    }
  }

  /** Over any set of found translations, the shares add up to the share of their summed counts. */
  lemma {:induction false} SharesOver(translations: seq<string>, targetFreq: map<string, nat>, weight: nat, keys: set<string>)
    requires PositiveCounts(targetFreq) && FreqSum(translations, targetFreq) > 0
    requires keys <= Shares(translations, targetFreq, weight).Keys
    ensures keys <= targetFreq.Keys
    ensures MassOver(Shares(translations, targetFreq, weight), keys)
         == Share(weight, SumOver(targetFreq, keys), FreqSum(translations, targetFreq))
    decreases keys
  {
    var sh := Shares(translations, targetFreq, weight);
    var s := FreqSum(translations, targetFreq);
    if keys == {} {
      ShareOfNothing(weight, s);
    } else {
      var k :| k in keys && MassOver(sh, keys) == sh[k] + MassOver(sh, keys - {k});
      SharesOver(translations, targetFreq, weight, keys - {k});
      SumOverRemove(targetFreq, keys, k);
      assert sh[k] == Share(weight, targetFreq[k], s);
      ShareAdds(weight, targetFreq[k], SumOver(targetFreq, keys - {k}), s);
    }
  }

  lemma ShareOfNothing(weight: nat, freqSum: nat)
    requires freqSum > 0
    ensures Share(weight, 0, freqSum) == 0.0
  {
  }

  lemma ShareAdds(weight: nat, a: nat, b: nat, freqSum: nat)
    requires freqSum > 0
    ensures Share(weight, a, freqSum) + Share(weight, b, freqSum) == Share(weight, a + b, freqSum)
  {
    var w := weight as real;
    var f := freqSum as real;
    assert w * (a as real) / f + w * (b as real) / f == w * ((a as real) + (b as real)) / f;
  }

  lemma ShareOfAll(weight: nat, freqSum: nat)
    requires freqSum > 0
    ensures Share(weight, freqSum, freqSum) == weight as real
  {
  }

  lemma ShareTimesSum(w: real, x: real, f: real)
    requires f != 0.0
    ensures (w * x / f) * f == w * x
  {
  }

  lemma ShareAtMostWeight(w: real, x: real, f: real)
    requires 0.0 <= w && 0.0 < x <= f
    ensures 0.0 <= w * x / f <= w
    ensures w > 0.0 ==> w * x / f > 0.0
  {
    var q := w * x / f;
    ShareTimesSum(w, x, f);
    assert q * f == w * x;
    assert w * x <= w * f;
  }

  /**
   * A translatable word hands out exactly its weight over its found translations,
   * or nothing at all when none of them occurs in the target corpus.
   */
  lemma SharesSumToWeight(translations: seq<string>, targetFreq: map<string, nat>, weight: nat)
    requires PositiveCounts(targetFreq) && Distinct(translations)
    ensures (exists t :: t in translations && t in targetFreq) ==> Mass(Shares(translations, targetFreq, weight)) == weight as real
    ensures (forall t :: t in translations ==> t !in targetFreq) ==> Shares(translations, targetFreq, weight) == map[]
  {
    var sh := Shares(translations, targetFreq, weight);
    var found := set t | t in translations && t in targetFreq;
    assert sh.Keys == found;
    if t :| t in translations && t in targetFreq {
      var s := FreqSum(translations, targetFreq);
      assert s >= 1;
      SharesOver(translations, targetFreq, weight, found);
      FreqSumIsSum(translations, targetFreq);
      ShareOfAll(weight, s);
    }
  }

  /** Each share is at most the word's weight and, for a positive weight, positive. */
  lemma ShareBounds(translations: seq<string>, targetFreq: map<string, nat>, weight: nat, t: string)
    requires PositiveCounts(targetFreq)
    requires t in translations && t in targetFreq
    ensures 0.0 <= Shares(translations, targetFreq, weight)[t] <= weight as real
    ensures weight > 0 ==> Shares(translations, targetFreq, weight)[t] > 0.0
  {
    var s := FreqSum(translations, targetFreq);
    assert 1 <= targetFreq[t] <= s;
    ShareBound(weight, targetFreq[t], s);
    assert Shares(translations, targetFreq, weight)[t] == Share(weight, targetFreq[t], s);
  }

  lemma ShareBound(weight: nat, count: nat, freqSum: nat)
    requires 1 <= count <= freqSum
    ensures 0.0 <= Share(weight, count, freqSum) <= weight as real
    ensures weight > 0 ==> Share(weight, count, freqSum) > 0.0
  {
    ShareAtMostWeight(weight as real, count as real, freqSum as real);
  }

  /**
   * No weight is lost or overwritten: `<unk>` is no target word, every translatable
   * word has a translation in the target corpus, and no two entries share a target word.
   */
  ghost predicate Conserves(vector: SourceVector, dict: map<string, seq<string>>, targetFreq: map<string, nat>,
                            stopwords: set<string>, k: nat)
    requires k <= |vector|
  {
    && UNK !in targetFreq
    && (forall j :: 0 <= j < k && Translatable(dict, stopwords, vector[j].0) ==>
          exists t :: Writes(dict, targetFreq, stopwords, vector[j], t))
    && (forall i, j, t :: 0 <= i < j < k && Writes(dict, targetFreq, stopwords, vector[i], t) ==>
          !Writes(dict, targetFreq, stopwords, vector[j], t))
  }

  /** Everything `translate` keeps true of its result after the first `k` entries. */
  ghost predicate Accumulated(r: TargetVector, vector: SourceVector, dict: map<string, seq<string>>,
                              targetFreq: map<string, nat>, stopwords: set<string>, k: nat)
    requires PositiveCounts(targetFreq) && k <= |vector|
  {
    && Projects(r, vector, dict, targetFreq, stopwords, k)
    && (forall t :: t in r ==> r[t] >= 0.0)
    && r.Keys <= targetFreq.Keys + {UNK}
    && Mass(r) <= Weight(vector, k)
    && (Conserves(vector, dict, targetFreq, stopwords, k) ==> Mass(r) == Weight(vector, k))
  }

  /** Lines 77-80: the target counts of the translations found in the target table. */
  method SumFrequencies(translations: seq<string>, targetFreq: map<string, nat>) returns (freqSum: nat)
    ensures freqSum == FreqSum(translations, targetFreq)
  {
    freqSum := 0;
    var j := 0;
    while j < |translations|
      invariant 0 <= j <= |translations|
      invariant freqSum == FreqSum(translations[..j], targetFreq)
    {
      assert translations[..j + 1][..j] == translations[..j];
      if translations[j] in targetFreq {
        freqSum := freqSum + targetFreq[translations[j]];
      }
      j := j + 1;
    }
    assert translations[..j] == translations;
  }

  /** Lines 82-84: each found translation is assigned its share, replacing any earlier value. */
  method WriteShares(r: TargetVector, translations: seq<string>, targetFreq: map<string, nat>, weight: nat, freqSum: nat)
    returns (r': TargetVector)
    requires PositiveCounts(targetFreq) && freqSum == FreqSum(translations, targetFreq)
    ensures r' == r + Shares(translations, targetFreq, weight)
  {
    r' := r;
    var j := 0;
    while j < |translations|
      invariant 0 <= j <= |translations|
      invariant forall t :: t in r' <==> t in r || (t in translations[..j] && t in targetFreq)
      invariant forall t :: t in r' ==>
        r'[t] == if t in translations[..j] && t in targetFreq then Share(weight, targetFreq[t], freqSum) else r[t]
    {
      var t := translations[j];
      assert forall u :: u in translations[..j + 1] <==> u in translations[..j] || u == t;
      if t in targetFreq {
        r' := r'[t := Share(weight, targetFreq[t], freqSum)];
      }
      j := j + 1;
    }
    assert translations[..j] == translations;
  }

  /** A translatable entry: its shares land on top of what came before. */
  lemma ProjectsTranslated(before: TargetVector, after: TargetVector, vector: SourceVector,
                           dict: map<string, seq<string>>, targetFreq: map<string, nat>, stopwords: set<string>, k: nat)
    requires PositiveCounts(targetFreq) && k < |vector| && Translatable(dict, stopwords, vector[k].0)
    requires Projects(before, vector, dict, targetFreq, stopwords, k)
    requires after == before + Shares(dict[vector[k].0], targetFreq, vector[k].1)
    ensures Projects(after, vector, dict, targetFreq, stopwords, k + 1)
  {
    forall t | t != UNK
      ensures t in after <==> LastWriter(vector, dict, targetFreq, stopwords, k + 1, t).Some?
      ensures t in after ==>
        after[t] == ShareOf(dict, targetFreq, stopwords, vector[LastWriter(vector, dict, targetFreq, stopwords, k + 1, t).value], t)
    {
      TranslatedWriter(before, after, vector, dict, targetFreq, stopwords, k, t);
    }
    TranslatedUnk(before, after, vector, dict, targetFreq, stopwords, k);
  }

  lemma TranslatedWriter(before: TargetVector, after: TargetVector, vector: SourceVector,
                         dict: map<string, seq<string>>, targetFreq: map<string, nat>, stopwords: set<string>, k: nat, t: string)
    requires PositiveCounts(targetFreq) && k < |vector| && Translatable(dict, stopwords, vector[k].0) && t != UNK
    requires Projects(before, vector, dict, targetFreq, stopwords, k)
    requires after == before + Shares(dict[vector[k].0], targetFreq, vector[k].1)
    ensures t in after <==> LastWriter(vector, dict, targetFreq, stopwords, k + 1, t).Some?
    ensures t in after ==>
      after[t] == ShareOf(dict, targetFreq, stopwords, vector[LastWriter(vector, dict, targetFreq, stopwords, k + 1, t).value], t)
  {
    var sh := Shares(dict[vector[k].0], targetFreq, vector[k].1);
    if Writes(dict, targetFreq, stopwords, vector[k], t) {
      assert LastWriter(vector, dict, targetFreq, stopwords, k + 1, t) == Some(k);
      assert t in sh;
    } else {
      assert LastWriter(vector, dict, targetFreq, stopwords, k + 1, t) == LastWriter(vector, dict, targetFreq, stopwords, k, t);
      assert t !in sh;
    }
  }

  lemma TranslatedUnk(before: TargetVector, after: TargetVector, vector: SourceVector,
                      dict: map<string, seq<string>>, targetFreq: map<string, nat>, stopwords: set<string>, k: nat)
    requires PositiveCounts(targetFreq) && k < |vector| && Translatable(dict, stopwords, vector[k].0)
    requires Projects(before, vector, dict, targetFreq, stopwords, k)
    requires after == before + Shares(dict[vector[k].0], targetFreq, vector[k].1)
    ensures UNK in after && after[UNK] == UnkValue(vector, dict, targetFreq, stopwords, k + 1)
  {
    var sh := Shares(dict[vector[k].0], targetFreq, vector[k].1);
    var lw := LastWriter(vector, dict, targetFreq, stopwords, k, UNK);
    if Writes(dict, targetFreq, stopwords, vector[k], UNK) {
      assert LastWriter(vector, dict, targetFreq, stopwords, k + 1, UNK) == Some(k);
      assert UNK in sh;
      assert UnkMass(vector, dict, stopwords, k + 1, k + 1) == 0.0;
    } else {
      assert UNK !in sh;
      assert LastWriter(vector, dict, targetFreq, stopwords, k + 1, UNK) == lw;
      var lo := if lw.Some? then lw.value + 1 else 0;
      assert UnkMass(vector, dict, stopwords, lo, k + 1) == UnkMass(vector, dict, stopwords, lo, k);
    }
  }

  /** An untranslatable entry: its weight goes to `<unk>` and nothing else changes. */
  lemma ProjectsUntranslated(before: TargetVector, after: TargetVector, vector: SourceVector,
                             dict: map<string, seq<string>>, targetFreq: map<string, nat>, stopwords: set<string>, k: nat)
    requires PositiveCounts(targetFreq) && k < |vector| && !Translatable(dict, stopwords, vector[k].0)
    requires Projects(before, vector, dict, targetFreq, stopwords, k)
    requires after == before[UNK := before[UNK] + vector[k].1 as real]
    ensures Projects(after, vector, dict, targetFreq, stopwords, k + 1)
  {
    forall t ensures LastWriter(vector, dict, targetFreq, stopwords, k + 1, t) == LastWriter(vector, dict, targetFreq, stopwords, k, t) {
    }
    var lw := LastWriter(vector, dict, targetFreq, stopwords, k, UNK);
    var lo := if lw.Some? then lw.value + 1 else 0;
    assert UnkMass(vector, dict, stopwords, lo, k + 1) == UnkMass(vector, dict, stopwords, lo, k) + vector[k].1 as real;
  }

  /** `translate` starts from `{"<unk>": 0}`. */
  lemma AccumulatedStart(vector: SourceVector, dict: map<string, seq<string>>, targetFreq: map<string, nat>,
                         stopwords: set<string>)
    requires PositiveCounts(targetFreq)
    ensures Accumulated(map[UNK := 0.0], vector, dict, targetFreq, stopwords, 0)
  {
    var r := map[UNK := 0.0];
    MassOverRemove(r, r.Keys, UNK);
    assert r.Keys - {UNK} == {};
  }

  /** The shares of one word are non-negative and add up to at most its weight. */
  lemma SharesMass(translations: seq<string>, targetFreq: map<string, nat>, weight: nat)
    requires PositiveCounts(targetFreq) && Distinct(translations)
    ensures forall t :: t in Shares(translations, targetFreq, weight) ==> Shares(translations, targetFreq, weight)[t] >= 0.0
    ensures Mass(Shares(translations, targetFreq, weight)) <= weight as real
  {
    var sh := Shares(translations, targetFreq, weight);
    forall t | t in sh ensures sh[t] >= 0.0 {
      ShareBounds(translations, targetFreq, weight, t);
    }
    SharesSumToWeight(translations, targetFreq, weight);
    if sh == map[] {
      assert Mass(sh) == 0.0;
    }
  }

  /** Under `Conserves`, entry `k` writes somewhere, and only to target words no earlier entry wrote. */
  lemma ConservedShares(before: TargetVector, vector: SourceVector,
                        dict: map<string, seq<string>>, targetFreq: map<string, nat>, stopwords: set<string>, k: nat)
    requires PositiveCounts(targetFreq) && k < |vector| && Translatable(dict, stopwords, vector[k].0)
    requires Projects(before, vector, dict, targetFreq, stopwords, k)
    requires Conserves(vector, dict, targetFreq, stopwords, k + 1)
    ensures Conserves(vector, dict, targetFreq, stopwords, k)
    ensures exists t :: t in dict[vector[k].0] && t in targetFreq
    ensures before.Keys !! Shares(dict[vector[k].0], targetFreq, vector[k].1).Keys
  {
    var sh := Shares(dict[vector[k].0], targetFreq, vector[k].1);
    var t :| Writes(dict, targetFreq, stopwords, vector[k], t);
    assert t in dict[vector[k].0] && t in targetFreq;
    forall t | t in sh ensures t !in before {
      assert Writes(dict, targetFreq, stopwords, vector[k], t);
      assert LastWriter(vector, dict, targetFreq, stopwords, k, t).None?;
    }
  }

  lemma AccumulatedTranslated(before: TargetVector, after: TargetVector, vector: SourceVector,
                              dict: map<string, seq<string>>, targetFreq: map<string, nat>, stopwords: set<string>, k: nat)
    requires PositiveCounts(targetFreq) && k < |vector| && Translatable(dict, stopwords, vector[k].0)
    requires Distinct(dict[vector[k].0])
    requires Accumulated(before, vector, dict, targetFreq, stopwords, k)
    requires after == before + Shares(dict[vector[k].0], targetFreq, vector[k].1)
    ensures Accumulated(after, vector, dict, targetFreq, stopwords, k + 1)
  {
    var lst := dict[vector[k].0];
    var w := vector[k].1;
    var sh := Shares(lst, targetFreq, w);
    ProjectsTranslated(before, after, vector, dict, targetFreq, stopwords, k);
    SharesMass(lst, targetFreq, w);
    MassMerge(before, sh);
    assert Weight(vector, k + 1) == Weight(vector, k) + w as real;
    if Conserves(vector, dict, targetFreq, stopwords, k + 1) {
      ConservedShares(before, vector, dict, targetFreq, stopwords, k);
      SharesSumToWeight(lst, targetFreq, w);
    }
  }

  lemma AccumulatedUntranslated(before: TargetVector, after: TargetVector, vector: SourceVector,
                                dict: map<string, seq<string>>, targetFreq: map<string, nat>, stopwords: set<string>, k: nat)
    requires PositiveCounts(targetFreq) && k < |vector| && !Translatable(dict, stopwords, vector[k].0)
    requires Accumulated(before, vector, dict, targetFreq, stopwords, k)
    requires after == before[UNK := before[UNK] + vector[k].1 as real]
    ensures Accumulated(after, vector, dict, targetFreq, stopwords, k + 1)
  {
    ProjectsUntranslated(before, after, vector, dict, targetFreq, stopwords, k);
    MassUpdate(before, UNK, before[UNK] + vector[k].1 as real);
    if Conserves(vector, dict, targetFreq, stopwords, k + 1) {
      assert Conserves(vector, dict, targetFreq, stopwords, k);
    }
  }

  /** One entry of the loop of `translate`, translatable or not. */
  lemma AccumulatedStep(before: TargetVector, after: TargetVector, vector: SourceVector,
                        dict: map<string, seq<string>>, targetFreq: map<string, nat>, stopwords: set<string>, k: nat)
    requires PositiveCounts(targetFreq) && k < |vector|
    requires Translatable(dict, stopwords, vector[k].0) ==> Distinct(dict[vector[k].0])
    requires Accumulated(before, vector, dict, targetFreq, stopwords, k)
    requires after == if Translatable(dict, stopwords, vector[k].0)
      then before + Shares(dict[vector[k].0], targetFreq, vector[k].1)
      else before[UNK := before[UNK] + vector[k].1 as real]
    ensures Accumulated(after, vector, dict, targetFreq, stopwords, k + 1)
  {
    if Translatable(dict, stopwords, vector[k].0) {
      AccumulatedTranslated(before, after, vector, dict, targetFreq, stopwords, k);
    } else {
      AccumulatedUntranslated(before, after, vector, dict, targetFreq, stopwords, k);
    }
  }

  /** When `<unk>` is no target word nothing overwrites the bucket, so it holds every untranslatable weight. */
  lemma UnkBucketTotal(r: TargetVector, vector: SourceVector, dict: map<string, seq<string>>,
                       targetFreq: map<string, nat>, stopwords: set<string>, k: nat)
    requires PositiveCounts(targetFreq) && k <= |vector|
    requires Projects(r, vector, dict, targetFreq, stopwords, k)
    ensures UNK !in targetFreq ==> r[UNK] == UnkMass(vector, dict, stopwords, 0, k)
  {
    if UNK !in targetFreq {
      assert LastWriter(vector, dict, targetFreq, stopwords, k, UNK).None?;
    }
  }

  /** Two fully translated words with one candidate each keep their whole weight. */
  lemma FullyTranslatedExample(r: TargetVector)
    requires Projects(r, [("chat", 4), ("noir", 2)], map["chat" := ["cat"], "noir" := ["black"]],
                      map["cat" := 10, "black" := 5], {}, 2)
    ensures r == map["cat" := 4.0, "black" := 2.0, UNK := 0.0]
  {
    var vector := [("chat", 4), ("noir", 2)];
    var dict := map["chat" := ["cat"], "noir" := ["black"]];
    var tf := map["cat" := 10, "black" := 5];
    assert LastWriter(vector, dict, tf, {}, 2, UNK) == None;
    assert LastWriter(vector, dict, tf, {}, 2, "cat") == Some(0);
    assert LastWriter(vector, dict, tf, {}, 2, "black") == Some(1);
    assert UnkMass(vector, dict, {}, 0, 2) == 0.0;
    assert FreqSum(["cat"], tf) == 10 && FreqSum(["black"], tf) == 5;
    assert ShareOf(dict, tf, {}, vector[0], "cat") == Share(4, 10, 10) == 4.0;
    assert ShareOf(dict, tf, {}, vector[1], "black") == Share(2, 5, 5) == 2.0;
    assert r.Keys == {"cat", "black", UNK};
  }

  /** A word none of whose translations occurs in the target corpus is dropped, not sent to `<unk>`. */
  lemma DroppedWordExample(r: TargetVector)
    requires Projects(r, [("rareword", 3)], map["rareword" := ["scarce"]], map["cat" := 1], {}, 1)
    ensures r == map[UNK := 0.0]
  {
    var vector := [("rareword", 3)];
    var dict := map["rareword" := ["scarce"]];
    var tf := map["cat" := 1];
    assert LastWriter(vector, dict, tf, {}, 1, UNK) == None;
    assert UnkMass(vector, dict, {}, 0, 1) == 0.0;
    assert r.Keys == {UNK};
  }

  /** Two words sharing a translation: the later share replaces the earlier one. */
  lemma OverwriteExample(r: TargetVector)
    requires Projects(r, [("chat", 3), ("matou", 1)], map["chat" := ["cat"], "matou" := ["cat"]],
                      map["cat" := 2], {}, 2)
    ensures r == map["cat" := 1.0, UNK := 0.0]
  {
    var vector := [("chat", 3), ("matou", 1)];
    var dict := map["chat" := ["cat"], "matou" := ["cat"]];
    var tf := map["cat" := 2];
    assert LastWriter(vector, dict, tf, {}, 2, UNK) == None;
    assert LastWriter(vector, dict, tf, {}, 2, "cat") == Some(1);
    assert UnkMass(vector, dict, {}, 0, 2) == 0.0;
    assert r.Keys == {"cat", UNK};
  }

  /**
   * The lexicon extractor: the two corpora as token lists, the dictionary read from
   * the dictionary file, and the occurrence counts of both corpora. Nothing changes
   * after construction.
   */
  class LexiconExtractor {
    const sourceList: seq<string>
    const targetList: seq<string>
    const frEnDict: map<string, seq<string>>
    const sourceFreq: map<string, nat>
    const targetFreq: map<string, nat>

    /** The tables describe the corpora, and no dictionary entry lists a translation twice. */
    ghost predicate Valid()
    {
      && IsFrequencyTable(sourceFreq, sourceList)
      && IsFrequencyTable(targetFreq, targetList)
      && PositiveCounts(targetFreq)
      && (forall w :: w in frEnDict ==> Distinct(frEnDict[w]))
    }

    /** Lines 32-67: `lines` are the dictionary file's lines, each already split at `;`. */
    constructor (source: seq<string>, target: seq<string>, lines: seq<seq<string>>)
      requires WellFormed(lines)
      ensures sourceList == source && targetList == target
      ensures forall k :: k in frEnDict <==> exists i :: 0 <= i < |lines| && lines[i][0] == k
      ensures forall k :: k in frEnDict ==> frEnDict[k] == Targets(lines, k)
      ensures Valid()
    {
      sourceList := source;
      targetList := target;
      var d := BuildDictionary(lines);
      frEnDict := d;
      var sf := BuildFrequency(source);
      sourceFreq := sf;
      var tf := BuildFrequency(target);
      targetFreq := tf;
      forall k | k in d ensures Distinct(d[k]) {
        TargetsDistinct(lines, k);
      }
    }

    /**
     * Lines 71-89: projects the context vector `vector`, given in the order its keys
     * are visited, onto target words.
     */
    method Translate(vector: SourceVector, stopwords: set<string>) returns (r: TargetVector)
      requires Valid()
      ensures Projects(r, vector, frEnDict, targetFreq, stopwords, |vector|)
      ensures forall t :: t in r ==> r[t] >= 0.0
      ensures r.Keys <= targetFreq.Keys + {UNK}
      ensures Mass(r) <= Weight(vector, |vector|)
      ensures Conserves(vector, frEnDict, targetFreq, stopwords, |vector|) ==> Mass(r) == Weight(vector, |vector|)
      ensures UNK !in targetFreq ==> r[UNK] == UnkMass(vector, frEnDict, stopwords, 0, |vector|)
    {
      r := map[UNK := 0.0];
      AccumulatedStart(vector, frEnDict, targetFreq, stopwords);
      var k := 0;
      while k < |vector|
        invariant 0 <= k <= |vector|
        invariant Accumulated(r, vector, frEnDict, targetFreq, stopwords, k)
      {
        var word := vector[k].0;
        var weight := vector[k].1;
        ghost var before := r;
        if word in frEnDict && word !in stopwords {
          var translations := frEnDict[word];
          var freqSum := SumFrequencies(translations, targetFreq);
          r := WriteShares(r, translations, targetFreq, weight, freqSum);
        } else {
          r := r[UNK := r[UNK] + weight as real];
        }
        AccumulatedStep(before, r, vector, frEnDict, targetFreq, stopwords, k);
        k := k + 1;
      }
      UnkBucketTotal(r, vector, frEnDict, targetFreq, stopwords, k);
    }
  }
}
