/**
 * The bilingual dictionary `frEnDict` of the lexicon extractor: a multimap from a
 * source word (field 0 of a `;`-separated line) to its target words (field 3),
 * each target recorded once, in the order its first line appears.
 */
module Dictionary {
  import opened Common

  /** Every split line has a field 3; the source raises IndexError on a shorter one. */
  predicate WellFormed(lines: seq<seq<string>>)
  {
    forall i :: 0 <= i < |lines| ==> |lines[i]| >= 4
  }

  /** Line `line` pairs source word `k` with target word `t`. */
  predicate Gives(line: seq<string>, k: string, t: string)
    requires |line| >= 4
  {
    line[0] == k && line[3] == t
  }

  /** The target words recorded for `k`: field 3 of the lines whose field 0 is `k`, duplicates dropped. */
  ghost function Targets(lines: seq<seq<string>>, k: string): seq<string>
    requires WellFormed(lines)
    decreases |lines|
  {
    if |lines| == 0 then []
    else
      var n := |lines| - 1;
      var prev := Targets(lines[..n], k);
      if lines[n][0] == k && lines[n][3] !in prev then prev + [lines[n][3]] else prev
  }

  /** The index of the first line that pairs `k` with `t`, or `|lines|` when there is none. */
  ghost function FirstLine(lines: seq<seq<string>>, k: string, t: string): (p: nat)
    requires WellFormed(lines)
    ensures p <= |lines|
    decreases |lines|
  {
    if |lines| == 0 then 0
    else
      var n := |lines| - 1;
      var p := FirstLine(lines[..n], k, t);
      if p < n then p else if Gives(lines[n], k, t) then n else n + 1
  }

  /** Reads the dictionary lines in order, as the lexicon extractor's constructor does. */
  method BuildDictionary(lines: seq<seq<string>>) returns (d: map<string, seq<string>>)
    requires WellFormed(lines)
    ensures forall k :: k in d <==> exists i :: 0 <= i < |lines| && lines[i][0] == k
    ensures forall k :: k in d ==> d[k] == Targets(lines, k)
  {
    d := map[];
    var n := 0;
    while n < |lines|
      invariant 0 <= n <= |lines|
      invariant forall k :: k in d <==> exists i :: 0 <= i < n && lines[i][0] == k
      invariant forall k :: k in d ==> d[k] == Targets(lines[..n], k)
      invariant forall k :: k !in d ==> Targets(lines[..n], k) == []
    {
      var l := lines[n];
      if l[0] in d {
        if l[3] !in d[l[0]] {
          d := d[l[0] := d[l[0]] + [l[3]]];
        }
      } else {
        d := d[l[0] := [l[3]]];
      }
      assert lines[..n + 1][..n] == lines[..n];
      n := n + 1;
    }
    assert lines[..n] == lines;
  }

  /** No target word is recorded twice for the same source word. */
  lemma {:induction false} TargetsDistinct(lines: seq<seq<string>>, k: string)
    requires WellFormed(lines)
    ensures Distinct(Targets(lines, k))
    decreases |lines|
  {
    if |lines| > 0 {
      TargetsDistinct(lines[..|lines| - 1], k);
    }
  }

  /** `t` is recorded for `k` exactly when some line pairs `k` with `t`. */
  lemma {:induction false} TargetsMembers(lines: seq<seq<string>>, k: string, t: string)
    requires WellFormed(lines)
    ensures t in Targets(lines, k) <==> exists i :: 0 <= i < |lines| && Gives(lines[i], k, t)
    decreases |lines|
  {
    if |lines| > 0 {
      var n := |lines| - 1;
      TargetsMembers(lines[..n], k, t);
      assert forall i :: 0 <= i < n ==> lines[..n][i] == lines[i];
    }
  }

  /** `FirstLine` finds the first line that pairs `k` with `t`. */
  lemma {:induction false} FirstLineSpec(lines: seq<seq<string>>, k: string, t: string)
    requires WellFormed(lines)
    ensures FirstLine(lines, k, t) < |lines| ==> Gives(lines[FirstLine(lines, k, t)], k, t)
    ensures forall i :: 0 <= i < FirstLine(lines, k, t) ==> !Gives(lines[i], k, t)
    decreases |lines|
  {
    if |lines| > 0 {
      var n := |lines| - 1;
      FirstLineSpec(lines[..n], k, t);
      assert forall i :: 0 <= i < n ==> lines[..n][i] == lines[i];
    }
  }

  /** A recorded target has a first line. */
  lemma RecordedHasFirstLine(lines: seq<seq<string>>, k: string, t: string)
    requires WellFormed(lines) && t in Targets(lines, k)
    ensures FirstLine(lines, k, t) < |lines|
  {
    TargetsMembers(lines, k, t);
    var i :| 0 <= i < |lines| && Gives(lines[i], k, t);
    FirstLineSpec(lines, k, t);
  }

  /** A target first met in the last line has that line as its first line. */
  lemma NewTargetFirstLine(lines: seq<seq<string>>, k: string, t: string)
    requires WellFormed(lines) && |lines| > 0
    requires Gives(lines[|lines| - 1], k, t) && t !in Targets(lines[..|lines| - 1], k)
    ensures FirstLine(lines, k, t) == |lines| - 1
  {
    var n := |lines| - 1;
    TargetsMembers(lines[..n], k, t);
    FirstLineSpec(lines[..n], k, t);
    assert FirstLine(lines[..n], k, t) == n;
  }

  /** The recorded targets appear in the order of their first lines. */
  lemma {:induction false} TargetsFirstSeenOrder(lines: seq<seq<string>>, k: string)
    requires WellFormed(lines)
    ensures forall a, b :: 0 <= a < b < |Targets(lines, k)| ==>
      FirstLine(lines, k, Targets(lines, k)[a]) < FirstLine(lines, k, Targets(lines, k)[b]) < |lines|
    decreases |lines|
  {
    if |lines| > 0 {
      var n := |lines| - 1;
      var prev := lines[..n];
      var tp := Targets(prev, k);
      var t := Targets(lines, k);
      TargetsFirstSeenOrder(prev, k);
      forall a | 0 <= a < |tp|
        ensures FirstLine(lines, k, tp[a]) == FirstLine(prev, k, tp[a]) < n
      {
        RecordedHasFirstLine(prev, k, tp[a]);
      }
      if lines[n][0] == k && lines[n][3] !in tp {
        NewTargetFirstLine(lines, k, lines[n][3]);
        assert t == tp + [lines[n][3]];
        forall a, b | 0 <= a < b < |t|
          ensures FirstLine(lines, k, t[a]) < FirstLine(lines, k, t[b]) < |lines|
        {
          assert t[a] == tp[a];
          if b < |tp| {
            assert t[b] == tp[b];
          } else {
            assert t[b] == lines[n][3];
          }
        }
      } else {
        assert t == tp;
        forall a, b | 0 <= a < b < |t|
          ensures FirstLine(lines, k, t[a]) < FirstLine(lines, k, t[b]) < |lines|
        {
          assert FirstLine(prev, k, tp[a]) < FirstLine(prev, k, tp[b]);
        }
      }
    } else {
      assert Targets(lines, k) == [];
    }
  }
}
