/**
 * `buildcontextvectors`: a window of `window` tokens slides over the token list,
 * which is preceded by `window` sentinels and followed by `window / 2` of them.
 * After each shift the token in slot `window / 2` is the centre; every other slot
 * that holds neither the sentinel nor a stopword adds one to the centre's vector.
 */
module ContextVectors {
  import opened Common

  /** Co-occurrence counts of one centre word. */
  type Vector = map<string, nat>

  /** One context vector per centre word. */
  type VectorSpace = map<string, Vector>

  /** The number of times `e` occurs in `s`. */
  ghost function Occurrences(s: seq<string>, e: string): nat
  {
    if |s| == 0 then 0 else Occurrences(s[..|s| - 1], e) + if s[|s| - 1] == e then 1 else 0
  }

  /** Counting occurrences one by one gives the multiplicity in the multiset of `s`. */
  lemma {:induction false} OccurrencesMultiplicity(s: seq<string>, e: string)
    ensures Occurrences(s, e) == multiset(s)[e]
    decreases |s|
  {
    if |s| > 0 {
      OccurrencesMultiplicity(s[..|s| - 1], e);
      assert s == s[..|s| - 1] + [s[|s| - 1]];
    }
  }

  /** The token sequence the window slides over, padding included. */
  function Padded(wordList: seq<string>, window: nat): (p: seq<string>)
    ensures |p| == window + |wordList| + window / 2
  {
    Sentinels(window) + wordList + Sentinels(window / 2)
  }

  /** The number of shifts of the window: one per token and one per trailing sentinel. */
  function Shifts(wordList: seq<string>, window: nat): nat
  {
    |wordList| + window / 2
  }

  /** A centre the loop passes over without creating a vector (the test of line 225, as written). */
  predicate Skipped(x: string, stopwords: set<string>)
  {
    x == UNK && x in stopwords
  }

  /** A context token that is counted. */
  predicate Counted(e: string, stopwords: set<string>)
  {
    e != UNK && e !in stopwords
  }

  /** The centre slot after `m` shifts, when the window holds `p[m..m + window]`. */
  function CentreAt(p: seq<string>, window: nat, m: nat): string
    requires window >= 1 && m + window <= |p|
  {
    p[m + window / 2]
  }

  /** Every slot but the centre after `m` shifts. */
  function ContextAt(p: seq<string>, window: nat, m: nat): seq<string>
    requires window >= 1 && m + window <= |p|
  {
    p[m..m + window / 2] + p[m + window / 2 + 1..m + window]
  }

  /** The centres of the first `m` shifts that are not skipped. */
  ghost function Centres(p: seq<string>, window: nat, stopwords: set<string>, m: nat): set<string>
    requires window >= 1 && m + window <= |p|
  {
    if m == 0 then {}
    else
      var c := CentreAt(p, window, m);
      Centres(p, window, stopwords, m - 1) + if Skipped(c, stopwords) then {} else {c}
  }

  /** How often `e` stands in the context of centre `x` during the first `m` shifts. */
  ghost function Cooc(p: seq<string>, window: nat, stopwords: set<string>, m: nat, x: string, e: string): nat
    requires window >= 1 && m + window <= |p|
  {
    if m == 0 then 0
    else
      var c := CentreAt(p, window, m);
      Cooc(p, window, stopwords, m - 1, x, e)
      + if c == x && !Skipped(c, stopwords) then Occurrences(ContextAt(p, window, m), e) else 0
  }

  /** `vectors` is what the loop has built after `m` shifts. */
  ghost predicate Represents(vectors: VectorSpace, p: seq<string>, window: nat, stopwords: set<string>, m: nat)
    requires window >= 1 && m + window <= |p|
  {
    && vectors.Keys == Centres(p, window, stopwords, m)
    && (forall x, e :: x in vectors ==>
          (e in vectors[x] <==> Counted(e, stopwords) && Cooc(p, window, stopwords, m, x, e) > 0))
    && (forall x, e :: x in vectors && e in vectors[x] ==> vectors[x][e] == Cooc(p, window, stopwords, m, x, e))
  }

  /** A word that was never a centre has no co-occurrences. */
  lemma {:induction false} CoocOutsideCentres(p: seq<string>, window: nat, stopwords: set<string>, m: nat, x: string)
    requires window >= 1 && m + window <= |p|
    requires x !in Centres(p, window, stopwords, m)
    ensures forall e :: Cooc(p, window, stopwords, m, x, e) == 0
  {
    if m > 0 {
      CoocOutsideCentres(p, window, stopwords, m - 1, x);
    }
  }

  /** Shifting the window by one token moves it one position along the padded sequence. */
  lemma ShiftWindow(p: seq<string>, window: nat, k: nat, w: seq<string>)
    requires window >= 1 && k + 1 + window <= |p|
    requires w == p[k..k + window]
    ensures w[1..] + [p[k + window]] == p[k + 1..k + 1 + window]
  {
  }

  /** The centre slot and the other slots of a window that shows `p[m..m + window]`. */
  lemma WindowView(p: seq<string>, window: nat, m: nat, w: seq<string>)
    requires window >= 1 && m + window <= |p|
    requires w == p[m..m + window]
    ensures w[window / 2] == CentreAt(p, window, m)
    ensures w[..window / 2] + w[window / 2 + 1..] == ContextAt(p, window, m)
  {
    assert w[..window / 2] == p[m..m + window / 2];
    assert w[window / 2 + 1..] == p[m + window / 2 + 1..m + window];
  }

  /** A skipped centre changes nothing. */
  lemma SkippedCentre(vectors: VectorSpace, p: seq<string>, window: nat, stopwords: set<string>, k: nat)
    requires window >= 1 && 1 <= k && k + window <= |p|
    requires Represents(vectors, p, window, stopwords, k - 1)
    requires Skipped(CentreAt(p, window, k), stopwords)
    ensures Represents(vectors, p, window, stopwords, k)
  {
  }

  /** Counting the context of a centre that is not skipped turns the vectors of `k - 1` shifts into those of `k`. */
  lemma CountedCentre(before: VectorSpace, created: VectorSpace, after: VectorSpace,
                      p: seq<string>, window: nat, stopwords: set<string>, k: nat)
    requires window >= 1 && 1 <= k && k + window <= |p|
    requires Represents(before, p, window, stopwords, k - 1)
    requires !Skipped(CentreAt(p, window, k), stopwords)
    requires created == if CentreAt(p, window, k) in before then before else before[CentreAt(p, window, k) := map[]]
    requires after.Keys == created.Keys
    requires forall x :: x in after && x != CentreAt(p, window, k) ==> after[x] == created[x]
    requires forall e :: e in after[CentreAt(p, window, k)] <==>
      e in created[CentreAt(p, window, k)] || (Counted(e, stopwords) && e in ContextAt(p, window, k))
    requires forall e :: e in after[CentreAt(p, window, k)] ==>
      after[CentreAt(p, window, k)][e] ==
        (if e in created[CentreAt(p, window, k)] then created[CentreAt(p, window, k)][e] else 0)
        + (if Counted(e, stopwords) then multiset(ContextAt(p, window, k))[e] else 0)
    ensures Represents(after, p, window, stopwords, k)
  {
    var c := CentreAt(p, window, k);
    forall e ensures Occurrences(ContextAt(p, window, k), e) == multiset(ContextAt(p, window, k))[e] {
      OccurrencesMultiplicity(ContextAt(p, window, k), e);
    }
    if c !in before {
      CoocOutsideCentres(p, window, stopwords, k - 1, c);
    }
    assert after.Keys == before.Keys + {c};
    assert forall x :: x in after && x != c ==> after[x] == before[x];
  }

  /** Adds one to `vectors[c][e]` for each counted token `e` of `ctx`, in order. */
  method CountContext(vectors: VectorSpace, c: string, ctx: seq<string>, stopwords: set<string>)
    returns (r: VectorSpace)
    requires c in vectors
    ensures r.Keys == vectors.Keys
    ensures forall x :: x in r && x != c ==> r[x] == vectors[x]
    ensures forall e :: e in r[c] <==> e in vectors[c] || (Counted(e, stopwords) && e in ctx)
    ensures forall e :: e in r[c] ==>
      r[c][e] == (if e in vectors[c] then vectors[c][e] else 0)
                 + (if Counted(e, stopwords) then multiset(ctx)[e] else 0)
  {
    r := vectors;
    var j := 0;
    while j < |ctx|
      invariant 0 <= j <= |ctx|
      invariant r.Keys == vectors.Keys
      invariant forall x :: x in r && x != c ==> r[x] == vectors[x]
      invariant forall e :: e in r[c] <==> e in vectors[c] || (Counted(e, stopwords) && e in ctx[..j])
      invariant forall e :: e in r[c] ==>
        r[c][e] == (if e in vectors[c] then vectors[c][e] else 0)
                   + (if Counted(e, stopwords) then multiset(ctx[..j])[e] else 0)
    {
      var e := ctx[j];
      if e != UNK && e !in stopwords {
        if e in r[c] {
          r := r[c := r[c][e := r[c][e] + 1]];
        } else {
          r := r[c := r[c][e := 1]];
        }
      }
      assert ctx[..j + 1] == ctx[..j] + [e];
      j := j + 1;
    }
    assert ctx[..j] == ctx;
  }

  method BuildContextVectors(wordList: seq<string>, window: int, stopwords: set<string>)
    returns (vectors: VectorSpace)
    requires window >= 1
    ensures Represents(vectors, Padded(wordList, window), window, stopwords, Shifts(wordList, window))
  {
    ghost var p := Padded(wordList, window);
    var centre := window / 2;
    var tokens := wordList + Sentinels(centre);
    var windowLst := Sentinels(window);
    assert p == windowLst + tokens;
    vectors := map[];
    var k := 0;
    while k < |tokens|
      invariant 0 <= k <= |tokens|
      invariant windowLst == p[k..k + window]
      invariant Represents(vectors, p, window, stopwords, k)
    {
      ShiftWindow(p, window, k, windowLst);
      assert p[k + window] == tokens[k];
      windowLst := windowLst[1..] + [tokens[k]];
      k := k + 1;
      WindowView(p, window, k, windowLst);
      var c := windowLst[centre];
      if c == UNK && c in stopwords {
        SkippedCentre(vectors, p, window, stopwords, k);
        continue;
      }
      ghost var before := vectors;
      if c !in vectors {
        vectors := vectors[c := map[]];
      }
      ghost var created := vectors;
      var ctx := windowLst[..centre] + windowLst[centre + 1..];
      vectors := CountContext(vectors, c, ctx, stopwords);
      CountedCentre(before, created, vectors, p, window, stopwords, k);
    }
  }

  /** No vector holds the sentinel or a stopword, and every stored count is at least one. */
  lemma NoBadContextKeys(vectors: VectorSpace, p: seq<string>, window: nat, stopwords: set<string>, m: nat)
    requires window >= 1 && m + window <= |p|
    requires Represents(vectors, p, window, stopwords, m)
    ensures forall x, e :: x in vectors && e in vectors[x] ==>
      e != UNK && e !in stopwords && vectors[x][e] >= 1
  {
  }

  /** Position `idx` of the padded sequence. */
  lemma PaddedAt(wordList: seq<string>, window: nat, idx: nat)
    requires idx < |Padded(wordList, window)|
    ensures Padded(wordList, window)[idx] ==
      if window <= idx < window + |wordList| then wordList[idx - window] else UNK
  {
  }

  /** Every centre is a word of the list or the sentinel. */
  lemma {:induction false} CentresWithinVocabulary(wordList: seq<string>, window: nat, stopwords: set<string>, m: nat)
    requires window >= 1 && m <= Shifts(wordList, window)
    ensures forall x :: x in Centres(Padded(wordList, window), window, stopwords, m) ==> x == UNK || x in wordList
    ensures forall x :: x in Centres(Padded(wordList, window), window, stopwords, m) ==>
      !Skipped(x, stopwords) && (x in wordList || (window >= 2 && x == UNK))
  {
    if m > 0 {
      CentresWithinVocabulary(wordList, window, stopwords, m - 1);
      PaddedAt(wordList, window, m + window / 2);
    }
  }

  /** A centre that is not skipped stays a centre for the rest of the loop. */
  lemma {:induction false} InCentres(p: seq<string>, window: nat, stopwords: set<string>, m: nat, upto: nat)
    requires window >= 1 && 1 <= m <= upto && upto + window <= |p|
    requires !Skipped(CentreAt(p, window, m), stopwords)
    ensures CentreAt(p, window, m) in Centres(p, window, stopwords, upto)
  {
    if m < upto {
      InCentres(p, window, stopwords, m, upto - 1);
    }
  }

  /**
   * Every word of the list that is not skipped gets a vector, stopwords included;
   * so does the sentinel for a window of two or more, unless it is a stopword.
   */
  lemma EveryWordIsCentre(wordList: seq<string>, window: nat, stopwords: set<string>)
    requires window >= 1
    ensures forall i :: 0 <= i < |wordList| && !Skipped(wordList[i], stopwords) ==>
      wordList[i] in Centres(Padded(wordList, window), window, stopwords, Shifts(wordList, window))
    ensures window >= 2 && UNK !in stopwords ==>
      UNK in Centres(Padded(wordList, window), window, stopwords, Shifts(wordList, window))
  {
    var p := Padded(wordList, window);
    var n := Shifts(wordList, window);
    forall i | 0 <= i < |wordList| && !Skipped(wordList[i], stopwords)
      ensures wordList[i] in Centres(p, window, stopwords, n)
    {
      var m := window - window / 2 + i;
      PaddedAt(wordList, window, m + window / 2);
      InCentres(p, window, stopwords, m, n);
    }
    if window >= 2 && UNK !in stopwords {
      var m := if window >= 3 then 1 else n;
      PaddedAt(wordList, window, m + window / 2);
      InCentres(p, window, stopwords, m, n);
    }
  }

  /**
   * The keys of the result, exactly: the words of the list that are not skipped and,
   * for a window of two or more, the sentinel unless it is a stopword.
   */
  lemma CentreKeys(wordList: seq<string>, window: nat, stopwords: set<string>, x: string)
    requires window >= 1
    ensures x in Centres(Padded(wordList, window), window, stopwords, Shifts(wordList, window)) <==>
      !Skipped(x, stopwords) && (x in wordList || (window >= 2 && x == UNK))
  {
    CentresWithinVocabulary(wordList, window, stopwords, Shifts(wordList, window));
    EveryWordIsCentre(wordList, window, stopwords);
    if x in wordList && !Skipped(x, stopwords) {
      var i :| 0 <= i < |wordList| && wordList[i] == x;
    }
  }

  /** The tokens within `c` positions of index `i` of the list, the token itself left out. */
  function Neighbours(wordList: seq<string>, i: nat, c: nat): (r: seq<string>)
    requires i < |wordList|
    ensures |r| <= 2 * c
  {
    var lo := if i < c then 0 else i - c;
    var hi := if i + c + 1 > |wordList| then |wordList| else i + c + 1;
    wordList[lo..i] + wordList[i + 1..hi]
  }

  /** For an odd window, the slots left of the centre when word `i` is the centre. */
  lemma LeftOfWord(wordList: seq<string>, c: nat, i: nat)
    requires i < |wordList|
    ensures var lo := if i < c then 0 else i - c;
      Padded(wordList, 2 * c + 1)[c + 1 + i..2 * c + 1 + i] == Sentinels(c + lo - i) + wordList[lo..i]
  {
    var lo := if i < c then 0 else i - c;
    var left := Sentinels(c + lo - i) + wordList[lo..i];
    forall d | 0 <= d < c
      ensures Padded(wordList, 2 * c + 1)[c + 1 + i + d] == left[d]
    {
      PaddedAt(wordList, 2 * c + 1, c + 1 + i + d);
    }
  }

  /** For an odd window, the slots right of the centre when word `i` is the centre. */
  lemma RightOfWord(wordList: seq<string>, c: nat, i: nat)
    requires i < |wordList|
    ensures var hi := if i + c + 1 > |wordList| then |wordList| else i + c + 1;
      Padded(wordList, 2 * c + 1)[2 * c + 2 + i..3 * c + 2 + i] == wordList[i + 1..hi] + Sentinels(i + c + 1 - hi)
  {
    var hi := if i + c + 1 > |wordList| then |wordList| else i + c + 1;
    var right := wordList[i + 1..hi] + Sentinels(i + c + 1 - hi);
    forall d | 0 <= d < c
      ensures Padded(wordList, 2 * c + 1)[2 * c + 2 + i + d] == right[d]
    {
      PaddedAt(wordList, 2 * c + 1, 2 * c + 2 + i + d);
    }
  }

  /**
   * For an odd window `2 * c + 1`, the context seen when word `i` is the centre is the
   * `c` tokens before it and the `c` tokens after it, with sentinels where the list ends.
   */
  lemma ContextOfWord(wordList: seq<string>, c: nat, i: nat)
    requires i < |wordList|
    ensures var lo := if i < c then 0 else i - c;
      var hi := if i + c + 1 > |wordList| then |wordList| else i + c + 1;
      ContextAt(Padded(wordList, 2 * c + 1), 2 * c + 1, c + 1 + i) ==
        Sentinels(c + lo - i) + wordList[lo..i] + wordList[i + 1..hi] + Sentinels(i + c + 1 - hi)
  {
    assert (2 * c + 1) / 2 == c;
    LeftOfWord(wordList, c, i);
    RightOfWord(wordList, c, i);
  }

  /** For an odd window `2 * c + 1`, shift `c + 1 + i` centres on word `i`. */
  lemma CentreOfWord(wordList: seq<string>, c: nat, i: nat)
    requires i < |wordList|
    ensures CentreAt(Padded(wordList, 2 * c + 1), 2 * c + 1, c + 1 + i) == wordList[i]
  {
    assert (2 * c + 1) / 2 == c;
    PaddedAt(wordList, 2 * c + 1, 2 * c + 1 + i);
  }

  /** Counted tokens occur in that context as often as among the neighbours. */
  lemma ContextCounts(wordList: seq<string>, c: nat, i: nat, e: string)
    requires i < |wordList| && e != UNK
    ensures Occurrences(ContextAt(Padded(wordList, 2 * c + 1), 2 * c + 1, c + 1 + i), e)
      == Occurrences(Neighbours(wordList, i, c), e)
  {
    ContextOfWord(wordList, c, i);
    var lo := if i < c then 0 else i - c;
    var hi := if i + c + 1 > |wordList| then |wordList| else i + c + 1;
    assert e !in Sentinels(c + lo - i) && e !in Sentinels(i + c + 1 - hi);
    OccurrencesMultiplicity(ContextAt(Padded(wordList, 2 * c + 1), 2 * c + 1, c + 1 + i), e);
    OccurrencesMultiplicity(Neighbours(wordList, i, c), e);
  }

  /** How often `e` stands among the neighbours of the occurrences of `x` in the first `upto` words. */
  ghost function WordCooc(wordList: seq<string>, c: nat, x: string, e: string, upto: nat): nat
    requires upto <= |wordList|
  {
    if upto == 0 then 0
    else
      WordCooc(wordList, c, x, e, upto - 1)
      + if wordList[upto - 1] == x then Occurrences(Neighbours(wordList, upto - 1, c), e) else 0
  }

  /**
   * For an odd window `2 * c + 1` over the padded list: the first `c` shifts centre on
   * sentinels, and shift `c + 1 + i` centres on word `i` with its neighbours as context.
   */
  ghost predicate WordShifts(wordList: seq<string>, p: seq<string>, window: nat, c: nat)
  {
    && window == 2 * c + 1 && window / 2 == c && |p| == window + |wordList| + c
    && (forall m :: 1 <= m <= c ==> CentreAt(p, window, m) == UNK)
    && (forall i :: 0 <= i < |wordList| ==> CentreAt(p, window, c + 1 + i) == wordList[i])
    && (forall i, e :: 0 <= i < |wordList| && e != UNK ==>
          Occurrences(ContextAt(p, window, c + 1 + i), e) == Occurrences(Neighbours(wordList, i, c), e))
  }

  /** The padded list of an odd window has that shape. */
  lemma PaddedWordShifts(wordList: seq<string>, c: nat)
    ensures WordShifts(wordList, Padded(wordList, 2 * c + 1), 2 * c + 1, c)
  {
    var window := 2 * c + 1;
    assert window / 2 == c;
    forall m | 1 <= m <= c ensures CentreAt(Padded(wordList, window), window, m) == UNK {
      PaddedAt(wordList, window, m + c);
    }
    forall i, e | 0 <= i < |wordList| && e != UNK
      ensures CentreAt(Padded(wordList, window), window, c + 1 + i) == wordList[i]
      ensures Occurrences(ContextAt(Padded(wordList, window), window, c + 1 + i), e) == Occurrences(Neighbours(wordList, i, c), e)
    {
      CentreOfWord(wordList, c, i);
      ContextCounts(wordList, c, i, e);
    }
  }

  /** The first `c` shifts centre on sentinels, so they count nothing for a word. */
  lemma {:induction false} SentinelCentres(wordList: seq<string>, p: seq<string>, window: nat, c: nat,
                                           stopwords: set<string>, m: nat, x: string, e: string)
    requires WordShifts(wordList, p, window, c)
    requires m <= c && x != UNK
    ensures Cooc(p, window, stopwords, m, x, e) == 0
  {
    if m > 0 {
      SentinelCentres(wordList, p, window, c, stopwords, m - 1, x, e);
    }
  }

  /** The shift that centres on word `upto - 1` adds the neighbour count of `e` when that word is `x`. */
  lemma WordStep(wordList: seq<string>, p: seq<string>, window: nat, c: nat,
                 stopwords: set<string>, x: string, e: string, upto: nat)
    requires window >= 1 && 1 <= upto <= |wordList| && c + upto + window <= |p| && x != UNK
    requires CentreAt(p, window, c + upto) == wordList[upto - 1]
    requires Occurrences(ContextAt(p, window, c + upto), e) == Occurrences(Neighbours(wordList, upto - 1, c), e)
    requires Cooc(p, window, stopwords, c + (upto - 1), x, e) == WordCooc(wordList, c, x, e, upto - 1)
    ensures Cooc(p, window, stopwords, c + upto, x, e) == WordCooc(wordList, c, x, e, upto)
  {
  }

  /** Shift `c + upto` has seen the first `upto` words as centres, so the loop's counts are the neighbour counts. */
  lemma {:induction false} WordCoocAgrees(wordList: seq<string>, p: seq<string>, window: nat, c: nat,
                                          stopwords: set<string>, x: string, e: string, upto: nat)
    requires WordShifts(wordList, p, window, c)
    requires upto <= |wordList| && x != UNK && e != UNK
    ensures Cooc(p, window, stopwords, c + upto, x, e) == WordCooc(wordList, c, x, e, upto)
  {
    if upto == 0 {
      SentinelCentres(wordList, p, window, c, stopwords, c, x, e);
    } else {
      WordCoocAgrees(wordList, p, window, c, stopwords, x, e, upto - 1);
      assert c + upto == c + 1 + (upto - 1);
      assert CentreAt(p, window, c + 1 + (upto - 1)) == wordList[upto - 1];
      assert Occurrences(ContextAt(p, window, c + 1 + (upto - 1)), e) == Occurrences(Neighbours(wordList, upto - 1, c), e);
      WordStep(wordList, p, window, c, stopwords, x, e, upto);
    }
  }

  /**
   * Window coverage for an odd window: the vector of a word counts, for each counted
   * token, its occurrences within `window / 2` positions of the word's occurrences.
   */
  lemma WindowCoverage(wordList: seq<string>, window: nat, stopwords: set<string>, vectors: VectorSpace)
    requires window % 2 == 1
    requires Represents(vectors, Padded(wordList, window), window, stopwords, Shifts(wordList, window))
    ensures forall x, e :: x in vectors && x != UNK && Counted(e, stopwords) ==>
      && (e in vectors[x] <==> WordCooc(wordList, window / 2, x, e, |wordList|) > 0)
      && (e in vectors[x] ==> vectors[x][e] == WordCooc(wordList, window / 2, x, e, |wordList|))
  {
    var c := window / 2;
    assert window == 2 * c + 1;
    assert Shifts(wordList, window) == c + |wordList|;
    var p := Padded(wordList, window);
    PaddedWordShifts(wordList, c);
    forall x, e | x in vectors && x != UNK && Counted(e, stopwords)
      ensures && (e in vectors[x] <==> WordCooc(wordList, c, x, e, |wordList|) > 0)
              && (e in vectors[x] ==> vectors[x][e] == WordCooc(wordList, c, x, e, |wordList|))
    {
      WordCoocAgrees(wordList, p, window, c, stopwords, x, e, |wordList|);
    }
  }
}
