# Bilingual lexicon extraction: a Dafny model of `translation.py`

`translation.py` extracts translation candidates for unknown words by
comparing contexts across two languages. Its `__main__` block runs this
pipeline:

- The corpora cleaner reads the two corpora into token lists (`tolist`). It
  keeps a token when `_isvalidword(_removeacc(w))` holds, but it stores the
  token `w` itself, accents and all (lines 147-148).
- The `LexiconExtractor` reads a bilingual dictionary and counts the tokens of
  the source and target corpora.
- `buildcontextvectors` builds a *context vector* for every word of a corpus. A
  window slides over the token list, and for each centre token the window
  counts the tokens around it. The source vectors are built from the accented
  token list (lines 349-350).
- `translate` projects a source context vector onto target words. A
  translatable word splits its weight over its translations found in the target
  corpus, in proportion to their frequency. A stopword or a word missing from
  the dictionary puts its weight into the `<unk>` bucket.

The file also defines helpers whose results the program does not use:
- `removehapax` keeps the words that occur more than once;
- `getcognatelist` pairs words that share a prefix;
- `removeaccent` applies `_removeacc` to a word list.

Lines 338-341 call `removehapax` and `getcognatelist` only in commented-out
code, and `removeaccent`'s result (line 331) is read only there.

This project models those operations in Dafny and proves what they compute.
There is one module per part of the program:

| module | file | models |
|---|---|---|
| `Common` | `common.dfy` | the `<unk>` sentinel, `Option`, Python's `s[:n]` |
| `Frequency` | `frequency.dfy` | the count tables `_sourceFreq`, `_targetFreq` and `word_dict` |
| `Dictionary` | `dictionary.dfy` | the multimap `frEnDict` read from `;`-separated lines |
| `ContextVectors` | `context_vectors.dfy` | `buildcontextvectors` |
| `Lexicon` | `lexicon.dfy` | class `LexiconExtractor`, its constructor and `translate` |
| `Hapax` | `hapax.dfy` | `removehapax` |
| `Cognates` | `cognates.dfy` | `getcognatelist` |
| `Cleaner` | `cleaner.dfy` | `_isvalidword`, `_removeacc`, `removeaccent` |

The loops of the program are Dafny methods with loop invariants. Each method
is proved against a specification function:

- `BuildContextVectors` against the co-occurrence count `Cooc` over the padded
  token sequence. `WindowCoverage` then restates that count in terms of the
  original word list, for an odd window.
- `BuildDictionary` against `Targets`, the field-3 values of the lines of a
  key, without duplicates.
- `BuildFrequency` against the multiset of the tokens.
- `LexiconExtractor.Translate` against `Projects`. In `Projects` the value of a
  target word is the share written by the *last* entry that writes to it,
  because line 84 assigns rather than adds. The value of `<unk>` is the
  untranslatable weight counted since that last write.
- `GetCognateList` against `CognatePairs`, the pairs in nested-loop order.

The lexicon extractor is a `class` whose fields are `const`: the source fills
them in `__init__` and never changes them afterwards. The weights of
`translate` are `real`, so the division of line 84 is exact.

Two behaviours of the code deserve a note:

- Line 225 skips a centre only when it is `<unk>` **and** a stopword. So
  stopword centres get vectors, and, for a window of two or more, so does the
  sentinel when it is not a stopword (`EveryWordIsCentre`).
- The output mass of `translate` can fall short of its input mass in three ways:
  - when two source words share a translation, because line 84 overwrites (`OverwriteExample`);
  - when `<unk>` is listed as a translation and occurs in the target table, because line 84 then overwrites the bucket;
  - when none of a translatable word's translations occurs in the target table: `freq_sum` is 0, lines 82-84 write nothing and the `else` of line 87 is not taken, so the word's weight is dropped rather than sent to `<unk>` (`DroppedWordExample`).

  The model proves `Mass(r) <= Weight` always, and equality under `Conserves`:
  no shared targets, `<unk>` not a target word, and every translatable word
  found in the target corpus.

## Model

| member | source | states |
|---|---|---|
| `ContextVectors.BuildContextVectors` | translation.py:218-236 | after all shifts, the keys are exactly the centres not skipped, and each vector holds exactly the counted tokens with their co-occurrence counts over the padded sequence |
| `ContextVectors.Padded` | translation.py:221-223 | the sequence the window passes over: `window` leading sentinels, the words, then `window // 2` trailing sentinels; its length is their sum |
| `ContextVectors.Skipped` | translation.py:225 | a centre is passed over exactly when it is `<unk>` and `<unk>` is a stopword |
| `ContextVectors.Counted` | translation.py:230 | a context token is counted exactly when it is neither `<unk>` nor a stopword |
| `ContextVectors.CountContext` | translation.py:229-234 | adds to the centre's vector, for each token other than `<unk>` and the stopwords, its number of occurrences in the context; no other vector changes |
| `ContextVectors.NoBadContextKeys` | translation.py:229-234 | no vector contains `<unk>` or a stopword, and every stored count is at least 1 |
| `ContextVectors.CentresWithinVocabulary` | translation.py:221-228 | every key of the result is `<unk>` or a word of the list; no key is skipped, and for a window of 1 no key is a sentinel |
| `ContextVectors.EveryWordIsCentre` | translation.py:221-228 | every word of the list that is not skipped becomes a key, stopwords included; for a window of 2 or more, `<unk>` becomes a key unless it is a stopword |
| `ContextVectors.CentreKeys` | translation.py:221-228 | a word is a key of the result if and only if it is not skipped and is a word of the list, or is `<unk>` with a window of 2 or more |
| `ContextVectors.ContextOfWord` | translation.py:219-229 | for window `2c+1`, the context of word `i` is the `c` words before it and the `c` after it, padded with sentinels at the ends of the list |
| `ContextVectors.OccurrencesMultiplicity` | translation.py:229-234 | counting a token one occurrence at a time gives its multiplicity in the context |
| `ContextVectors.WindowCoverage` | translation.py:218-236 | for an odd window, each occurrence of a word adds exactly one for each counted token within `c` positions of it |
| `Dictionary.BuildDictionary` | translation.py:41-47 | the keys are exactly the field-0 values, and each key maps to `Targets` of its lines |
| `Dictionary.TargetsMembers` | translation.py:41-47 | a target is listed for a key if and only if some line pairs them |
| `Dictionary.TargetsDistinct` | translation.py:43-45 | no target is listed twice for one key |
| `Dictionary.TargetsFirstSeenOrder` | translation.py:41-47 | targets are listed in the order of the first line that gives each |
| `Frequency.BuildFrequency` | translation.py:55-67 | each distinct token maps to its number of occurrences and nothing else is a key; every count is at least 1 |
| `Frequency.TotalCountIsLength` | translation.py:55-67 | the counts of a frequency table add up to the length of the token list |
| `Lexicon.LexiconExtractor.constructor` | translation.py:32-67 | the dictionary is built from the lines as `BuildDictionary` states; both frequency tables describe their corpora; no entry lists a translation twice |
| `Lexicon.LexiconExtractor.Translate` | translation.py:71-89 | the result is the last-writer projection of the input; values are non-negative; keys are target words or `<unk>`; output mass is at most the input weight, and equal to it under `Conserves`; if `<unk>` is not a target word, its value is the total weight of the stopwords and of the words missing from the dictionary |
| `Lexicon.Translatable` | translation.py:74 | a word is projected exactly when it is a dictionary key and not a stopword; otherwise its weight goes to `<unk>` |
| `Lexicon.Share` | translation.py:84 | the share of a translation: weight times its target count divided by `freq_sum`, as an exact real |
| `Lexicon.UnkBucketTotal` | translation.py:87-88 | when `<unk>` is not a target word, the bucket holds exactly the summed weight of the stopwords and the words missing from the dictionary |
| `Lexicon.SumFrequencies` | translation.py:77-80 | computes `FreqSum`: the target counts of the translations found in the target table |
| `Lexicon.FreqSum` | translation.py:77-80 | the sum is at least the count of each found translation, and is zero unless some translation is found |
| `Lexicon.WriteShares` | translation.py:82-84 | the new vector is the old one with each found translation's share assigned, replacing earlier values |
| `Lexicon.LastWriter` | translation.py:73-84 | finds the last of the first `k` entries that writes to a target word, or reports that none does |
| `Lexicon.SharesSumToWeight` | translation.py:77-84 | the shares of a translatable word add up to its weight; if none of its translations is in the target table, it writes nothing at all, not even to `<unk>` |
| `Lexicon.ShareBounds` | translation.py:84 | each share lies between 0 and the weight, and is positive for a positive weight |
| `Lexicon.SharesMass` | translation.py:77-84 | the shares of one word are non-negative and add up to at most its weight |
| `Lexicon.ConservedShares` | translation.py:82-84 | under `Conserves` (no shared targets, `<unk>` not a target word, every translatable word found in the target table), a translatable entry writes to at least one target word and only to words no earlier entry wrote |
| `Lexicon.AccumulatedTranslated` | translation.py:74-84 | a translatable entry keeps the projection, non-negativity, key and mass invariants |
| `Lexicon.AccumulatedUntranslated` | translation.py:86-88 | a stopword or a word missing from the dictionary adds its weight to `<unk>` and keeps every invariant |
| `Lexicon.AccumulatedStep` | translation.py:73-88 | one pass of the loop, whichever branch it takes, keeps every invariant |
| `Lexicon.MassMerge` | translation.py:82-84 | overwriting with non-negative values adds at most their mass, and exactly their mass on fresh keys |
| `Lexicon.FullyTranslatedExample` | translation.py:71-89 | `chat:4, noir:2` with one candidate each projects to `cat:4.0, black:2.0, <unk>:0` |
| `Lexicon.DroppedWordExample` | translation.py:77-84 | a word whose translations are all missing from the target table contributes nothing: the result is `<unk>:0` |
| `Lexicon.OverwriteExample` | translation.py:82-84 | `chat:3, matou:1`, both translated as `cat`, project to `cat:1.0`: the later share replaces the earlier one |
| `Hapax.RemoveHapax` | translation.py:239-259 | the result holds each word occurring more than once, exactly once, and nothing else; its length is at most half the input's |
| `Hapax.RepeatedWordsBound` | translation.py:251-255 | distinct words each occurring at least twice number at most half the tokens |
| `Cognates.GetCognateList` | translation.py:262-284 | returns `CognatePairs`: every matching pair, in nested-loop order |
| `Cognates.CognateMatch` | translation.py:275-280 | two words match when their first five characters agree and, if that prefix is an exception, their first seven agree too |
| `Cognates.CognatePairsMembers` | translation.py:273-280 | a pair is returned if and only if its words come from the two lists and match |
| `Cognates.CognatePairsLength` | translation.py:273-280 | there are at most `len(fr) * len(en)` pairs |
| `Cognates.CognateSymmetric` | translation.py:275-280 | the match does not depend on which word is the source word |
| `Cognates.CognateTransitive` | translation.py:275-280 | matching is transitive |
| `Cognates.CognatePairsSwap` | translation.py:273-280 | swapping the two corpora yields exactly the reversed pairs |
| `Cognates.ShortWordMatchesItself` | translation.py:275-280 | a word shorter than five characters matches only itself |
| `Cleaner.InvalidChars` | translation.py:107 | `findall` with the pattern yields exactly the characters of the word other than letters, `-`, `_` and `'`, as a set |
| `Cleaner.InvalidCharsCounts` | translation.py:107 | each character `findall` returns occurs in its result as often as in the word |
| `Cleaner.WordChar` | translation.py:107 | the characters the pattern does not match: ASCII letters, `-`, `_` and `'` |
| `Cleaner.HasDoubleUnderscore` | translation.py:196 | true if and only if two adjacent underscores occur |
| `Cleaner.IsValidWord` | translation.py:190-196 | true if and only if the word is non-empty, uses only letters, `-`, `_` and `'`, and holds no `__` |
| `Cleaner.ValidWordExample` | translation.py:196 | a word with an apostrophe and a hyphen is valid |
| `Cleaner.InvalidWordExamples` | translation.py:196 | an accented letter, a digit, `__` and the empty string make a word invalid |
| `Cleaner.RemoveAccChar` | translation.py:168-185 | on one character the replacement chain gives that character's table entry |
| `Cleaner.RemoveAcc` | translation.py:161-187 | the chain of replacements of `_removeacc`, in source order: `é è ê ë` to `e`, `ï î` to `i`, `à â` to `a`, `ô` to `o`, `ç` to `c`, `û` to `u`, `œ` to `oe` |
| `Cleaner.RemoveAccIsTable` | translation.py:161-187 | `_removeacc` replaces each character by its table entry, independently of its neighbours |
| `Cleaner.RemoveAccClean` | translation.py:161-187 | no table character remains, and every other character is kept |
| `Cleaner.RemoveAccIdempotent` | translation.py:161-187 | applying the replacement table twice is the same as applying it once |
| `Cleaner.RemoveAccent` | translation.py:112-122 | each word of the result is the corresponding input word with the table's characters replaced |

## Left out

- File I/O is not modelled: opening the dictionary file (lines 40-48), `tolist` with its `resources/*.lst` cache (lines 125-157), `loaddata` (lines 204-215) and the exceptions-file load (lines 267-271). The model takes their contents as values: the split dictionary lines, the token lists and the exception list. An exceptions file that is missing corresponds to passing an empty list.
- `tolist`'s token extraction (line 146) is not modelled: it relies on Unicode `lower()`, a library behaviour.
- `cosine` (lines 287-308) is not modelled: it uses floating-point square roots. Its guard `len(v1.keys() == 0)` applies `len` to a boolean.
- The `__main__` block (lines 319-382) is not modelled: command-line checks, XML parsing, printing and ranking by float scores.
- `print` and `color` output and the `script_lib` import (line 22) are not modelled; the `language` parameter of `removehapax` is only printed, so `Hapax.RemoveHapax` drops it.
- Python dict iteration order is not modelled. `translate` takes its vector as a sequence of (word, weight) pairs in the order of its keys, so the order that decides overwrites is explicit. `removehapax` visits keys in an arbitrary order, so `Hapax.RemoveHapax` states its result as a set of distinct words.
- `Lexicon.LexiconExtractor.Translate` computes in exact `real` arithmetic, not in the source's floating point, so it does not model rounding.
- `Lexicon.LexiconExtractor.constructor` requires every split line to have at least four fields. The source raises IndexError at line 44 on a shorter line, and that error is not modelled. With `readlines`, a line with exactly four fields keeps its newline in field 3; the model takes the fields as given.
- `Lexicon.LexiconExtractor.Translate` states mass equality only under the sufficient condition `Conserves`, not as an if-and-only-if: overwriting can lose mass in many ways, and `OverwriteExample` shows one of them.
- `ContextVectors.BuildContextVectors` requires `window >= 1`. For `window <= 0` the source's buffer still grows to one token; with `window = 0` it then behaves as with `window = 1`, and a negative window makes `center` negative. That case is not modelled, and the program only ever passes 7.
- `ContextVectors.WindowCoverage` covers only odd windows, as the word-list view of the context needs a symmetric window; for even windows the result is still characterised over the padded sequence by `BuildContextVectors`.
- `Cleaner.InvalidChars` with `Cleaner.InvalidCharsCounts` states which characters `findall` returns and how often each occurs, not their order; `_isvalidword` reads only whether the result is empty.
- The `CorporaCleaner` constructor (lines 102-109) only stores file paths and the compiled pattern; the pattern is modelled by `Cleaner.WordChar` and `Cleaner.InvalidChars`.
