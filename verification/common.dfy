/** Vocabulary shared by every part of the lexicon extractor. */
module Common {

  datatype Option<T> = None | Some(value: T)

  /** The sentinel token that pads context windows and collects untranslatable mass. */
  const UNK: string := "<unk>"

  /** No element occurs twice. */
  predicate Distinct<T(==)>(s: seq<T>)
  {
    forall i, j :: 0 <= i < j < |s| ==> s[i] != s[j]
  }

  /** A sequence of `n` sentinel tokens. */
  function Sentinels(n: nat): (r: seq<string>)
    ensures |r| == n
    ensures forall i :: 0 <= i < n ==> r[i] == UNK
  {
    seq(n, _ => UNK)
  }

  /** Python's `s[:n]`: the first `n` characters, or all of `s` when it is shorter. */
  function Prefix(s: string, n: nat): (r: string)
    ensures |r| == if |s| <= n then |s| else n
    ensures r <= s
  {
    if |s| <= n then s else s[..n]
  }
}
