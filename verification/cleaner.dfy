/**
 * The string helpers of the corpora cleaner: `_removeacc`, which replaces the twelve
 * lower-case accented characters of a fixed table and keeps every other character
 * (`ù`, `ü`, `ÿ` and upper-case accented letters included), `removeaccent`, which
 * applies it to a word list, and `_isvalidword`, which keeps only plain words.
 */
module Cleaner {

  /** A character the pattern `[^A-Za-z\-_']` does not match. */
  predicate WordChar(c: char)
  {
    ('A' <= c <= 'Z') || ('a' <= c <= 'z') || c == '-' || c == '_' || c == '\''
  }

  /** `self.r.findall(s)`: every character of `s` the pattern matches, in order. */
  function InvalidChars(s: string): (r: string)
    ensures |r| <= |s|
    ensures forall c :: c in r <==> c in s && !WordChar(c)
  {
    if |s| == 0 then []
    else (if WordChar(s[0]) then [] else [s[0]]) + InvalidChars(s[1..])
  }

  /** `findall` returns each character the pattern matches as often as it occurs in `s`. */
  lemma {:induction false} InvalidCharsCounts(s: string, c: char)
    ensures multiset(InvalidChars(s))[c] == if WordChar(c) then 0 else multiset(s)[c]
  {
    if |s| > 0 {
      InvalidCharsCounts(s[1..], c);
      assert s == [s[0]] + s[1..];
      assert multiset(s) == multiset([s[0]]) + multiset(s[1..]);
      assert InvalidChars(s) == (if WordChar(s[0]) then [] else [s[0]]) + InvalidChars(s[1..]);
    }
  }

  /** `"__" in s`. */
  function HasDoubleUnderscore(s: string): (b: bool)
    ensures b <==> exists i :: 0 <= i < |s| - 1 && s[i] == '_' && s[i + 1] == '_'
  {
    if |s| < 2 then false
    else if s[0] == '_' && s[1] == '_' then true
    else
      var b := HasDoubleUnderscore(s[1..]);
      assert forall i :: 0 <= i < |s| - 1 ==> s[1..][i] == s[i + 1];
      b
  }

  /** Line 196: no character outside letters, `-`, `_` and `'`, not empty, and no `__`. */
  function IsValidWord(s: string): (b: bool)
    ensures b <==> (|s| > 0
                    && (forall i :: 0 <= i < |s| ==> WordChar(s[i]))
                    && !(exists i :: 0 <= i < |s| - 1 && s[i] == '_' && s[i + 1] == '_'))
  {
    assert (forall i :: 0 <= i < |s| ==> WordChar(s[i])) <==> |InvalidChars(s)| == 0 by {
      if |InvalidChars(s)| > 0 {
        assert InvalidChars(s)[0] in InvalidChars(s);
      }
    }
    |InvalidChars(s)| == 0 && |s| != 0 && !HasDoubleUnderscore(s)
  }

  /** `s.replace(c, rep)` for a one-character pattern `c`. */
  function Replace(s: string, c: char, rep: string): (r: string)
    ensures c !in rep ==> c !in r
  {
    if |s| == 0 then []
    else (if s[0] == c then rep else [s[0]]) + Replace(s[1..], c, rep)
  }

  /** Lines 168-185: the replacement chain of `_removeacc`, in its order. */
  function RemoveAcc(s: string): string
  {
    var s := Replace(s, '\U{E9}', "e");
    var s := Replace(s, '\U{E8}', "e");
    var s := Replace(s, '\U{EA}', "e");
    var s := Replace(s, '\U{EB}', "e");
    var s := Replace(s, '\U{EF}', "i");
    var s := Replace(s, '\U{EE}', "i");
    var s := Replace(s, '\U{E0}', "a");
    var s := Replace(s, '\U{E2}', "a");
    var s := Replace(s, '\U{F4}', "o");
    var s := Replace(s, '\U{E7}', "c");
    var s := Replace(s, '\U{FB}', "u");
    Replace(s, '\U{153}', "oe")
  }

  /** The replacement table, one character at a time. */
  function Unaccent(c: char): string
  {
    if c in {'\U{E9}', '\U{E8}', '\U{EA}', '\U{EB}'} then "e"
    else if c in {'\U{EF}', '\U{EE}'} then "i"
    else if c in {'\U{E0}', '\U{E2}'} then "a"
    else if c == '\U{F4}' then "o"
    else if c == '\U{E7}' then "c"
    else if c == '\U{FB}' then "u"
    else if c == '\U{153}' then "oe"
    else [c]
  }

  /** The characters the table replaces. */
  predicate Accented(c: char)
  {
    c in {'\U{E9}', '\U{E8}', '\U{EA}', '\U{EB}', '\U{EF}', '\U{EE}', '\U{E0}', '\U{E2}', '\U{F4}', '\U{E7}', '\U{FB}', '\U{153}'}
  }

  /** Each character replaced by its table entry. */
  ghost function MapChars(s: string): string
  {
    if |s| == 0 then [] else Unaccent(s[0]) + MapChars(s[1..])
  }

  lemma {:induction false} ReplaceAppend(a: string, b: string, c: char, rep: string)
    ensures Replace(a + b, c, rep) == Replace(a, c, rep) + Replace(b, c, rep)
    decreases |a|
  {
    if |a| > 0 {
      assert (a + b)[1..] == a[1..] + b;
      ReplaceAppend(a[1..], b, c, rep);
    } else {
      assert a + b == b;
    }
  }

  lemma RemoveAccAppend(a: string, b: string)
    ensures RemoveAcc(a + b) == RemoveAcc(a) + RemoveAcc(b)
  {
    var x, y := a, b;
    ReplaceAppend(x, y, '\U{E9}', "e");
    x, y := Replace(x, '\U{E9}', "e"), Replace(y, '\U{E9}', "e");
    ReplaceAppend(x, y, '\U{E8}', "e");
    x, y := Replace(x, '\U{E8}', "e"), Replace(y, '\U{E8}', "e");
    ReplaceAppend(x, y, '\U{EA}', "e");
    x, y := Replace(x, '\U{EA}', "e"), Replace(y, '\U{EA}', "e");
    ReplaceAppend(x, y, '\U{EB}', "e");
    x, y := Replace(x, '\U{EB}', "e"), Replace(y, '\U{EB}', "e");
    ReplaceAppend(x, y, '\U{EF}', "i");
    x, y := Replace(x, '\U{EF}', "i"), Replace(y, '\U{EF}', "i");
    ReplaceAppend(x, y, '\U{EE}', "i");
    x, y := Replace(x, '\U{EE}', "i"), Replace(y, '\U{EE}', "i");
    ReplaceAppend(x, y, '\U{E0}', "a");
    x, y := Replace(x, '\U{E0}', "a"), Replace(y, '\U{E0}', "a");
    ReplaceAppend(x, y, '\U{E2}', "a");
    x, y := Replace(x, '\U{E2}', "a"), Replace(y, '\U{E2}', "a");
    ReplaceAppend(x, y, '\U{F4}', "o");
    x, y := Replace(x, '\U{F4}', "o"), Replace(y, '\U{F4}', "o");
    ReplaceAppend(x, y, '\U{E7}', "c");
    x, y := Replace(x, '\U{E7}', "c"), Replace(y, '\U{E7}', "c");
    ReplaceAppend(x, y, '\U{FB}', "u");
    x, y := Replace(x, '\U{FB}', "u"), Replace(y, '\U{FB}', "u");
    ReplaceAppend(x, y, '\U{153}', "oe");
  }

  /** On a single character the chain applies exactly that character's table entry. */
  lemma RemoveAccChar(c: char)
    ensures RemoveAcc([c]) == Unaccent(c)
  {
    var d := c;
    ReplaceSingle(d, '\U{E9}', "e");
    d := if d == '\U{E9}' then 'e' else d;
    ReplaceSingle(d, '\U{E8}', "e");
    d := if d == '\U{E8}' then 'e' else d;
    ReplaceSingle(d, '\U{EA}', "e");
    d := if d == '\U{EA}' then 'e' else d;
    ReplaceSingle(d, '\U{EB}', "e");
    d := if d == '\U{EB}' then 'e' else d;
    ReplaceSingle(d, '\U{EF}', "i");
    d := if d == '\U{EF}' then 'i' else d;
    ReplaceSingle(d, '\U{EE}', "i");
    d := if d == '\U{EE}' then 'i' else d;
    ReplaceSingle(d, '\U{E0}', "a");
    d := if d == '\U{E0}' then 'a' else d;
    ReplaceSingle(d, '\U{E2}', "a");
    d := if d == '\U{E2}' then 'a' else d;
    ReplaceSingle(d, '\U{F4}', "o");
    d := if d == '\U{F4}' then 'o' else d;
    ReplaceSingle(d, '\U{E7}', "c");
    d := if d == '\U{E7}' then 'c' else d;
    ReplaceSingle(d, '\U{FB}', "u");
    d := if d == '\U{FB}' then 'u' else d;
    ReplaceSingle(d, '\U{153}', "oe");
  }

  lemma ReplaceSingle(d: char, c: char, rep: string)
    ensures Replace([d], c, rep) == if d == c then rep else [d]
  {
    assert [d][1..] == [];
  }

  /** `_removeacc` replaces every character by its table entry, independently of its neighbours. */
  lemma {:induction false} RemoveAccIsTable(s: string)
    ensures RemoveAcc(s) == MapChars(s)
    decreases |s|
  {
    if |s| == 0 {
      assert RemoveAcc(s) == [];
    } else {
      assert s == [s[0]] + s[1..];
      RemoveAccAppend([s[0]], s[1..]);
      RemoveAccChar(s[0]);
      RemoveAccIsTable(s[1..]);
    }
  }

  /** No accented character of the table survives, and every other character is kept. */
  lemma {:induction false} MapCharsClean(s: string)
    ensures forall c :: c in MapChars(s) ==> !Accented(c)
    ensures forall c :: c in s && !Accented(c) ==> c in MapChars(s)
    decreases |s|
  {
    if |s| > 0 {
      MapCharsClean(s[1..]);
      assert forall c :: c in s ==> c == s[0] || c in s[1..];
    }
  }

  /** The result of `_removeacc` holds no character of the table, and keeps every other one. */
  lemma RemoveAccClean(s: string)
    ensures forall c :: c in RemoveAcc(s) ==> !Accented(c)
    ensures forall c :: c in s && !Accented(c) ==> c in RemoveAcc(s)
  {
    RemoveAccIsTable(s);
    MapCharsClean(s);
  }

  /** A string without table characters is left alone. */
  lemma {:induction false} MapCharsPlain(s: string)
    requires forall c :: c in s ==> !Accented(c)
    ensures MapChars(s) == s
    decreases |s|
  {
    if |s| > 0 {
      assert s[0] in s;
      assert forall c :: c in s[1..] ==> c in s;
      MapCharsPlain(s[1..]);
      assert s == [s[0]] + s[1..];
    }
  }

  /** Removing the accents twice is removing them once. */
  lemma RemoveAccIdempotent(s: string)
    ensures RemoveAcc(RemoveAcc(s)) == RemoveAcc(s)
  {
    RemoveAccClean(s);
    RemoveAccIsTable(RemoveAcc(s));
    MapCharsPlain(RemoveAcc(s));
  }

  /** Lines 112-122: `removeaccent` applies `_removeacc` to each word of the list. */
  method RemoveAccent(wordList: seq<string>) returns (result: seq<string>)
    ensures |result| == |wordList|
    ensures forall i :: 0 <= i < |wordList| ==> result[i] == RemoveAcc(wordList[i])
  {
    result := [];
    var i := 0;
    while i < |wordList|
      invariant 0 <= i <= |wordList|
      invariant |result| == i
      invariant forall j :: 0 <= j < i ==> result[j] == RemoveAcc(wordList[j])
    {
      result := result + [RemoveAcc(wordList[i])];
      i := i + 1;
    }
  }

  /** An apostrophe and a hyphen are allowed. */
  lemma ValidWordExample()
    ensures IsValidWord("l'eau-de")
  {
    var s := "l'eau-de";
    forall i | 0 <= i < |s| ensures WordChar(s[i]) {
      assert s[i] in {'l', '\'', 'e', 'a', 'u', '-', 'd'};
    }
    assert !HasDoubleUnderscore(s);
  }

  /** An accented letter, a digit, `__` and the empty string are not. */
  lemma InvalidWordExamples()
    ensures !IsValidWord("caf\U{E9}") && !IsValidWord("r2d2") && !IsValidWord("a__b") && !IsValidWord("")
  {
    assert "caf\U{E9}"[3] == '\U{E9}';
    assert "r2d2"[1] == '2';
    assert "a__b"[1] == '_' && "a__b"[2] == '_';
  }
}
