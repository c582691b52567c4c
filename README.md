# Spanish word finder — a verified model

`find_words.py` answers "which Spanish words can be spelled with these
letters?" It does this in two phases.

1. `build_dataset` cleans every dictionary word to a canonical key. Cleaning means
   `lower()`, then `strip()`, then `remove_accents`, which maps the 14 accented
   letters to their base letters, then `remove_diacritics`, which maps `¿` to
   `s` and `¡` to `i`. It then groups the original words under their keys, in
   an insertion-ordered dict.
2. `find_words` cleans the query letters the same way. It picks the vowels to
   delete from each key: all of `aeiou` when `ignore_all_vowels` is set, and
   otherwise the vowels the query lacks (`get_missing_vowels`). It then walks
   the keys in dict order. A key's whole group is appended to the result
   exactly when the key, with those vowels deleted, is one of these:
   - equal to the query, when `preserve_order` is set;
   - a permutation of the query (`sorted` equality), when it is not.

The model has four modules. The source's loops are Dafny methods with loop
invariants. Each method is proved equal to a specification function, and the
properties are proved about those functions.

- `text.dfy`, module `TextBuiltins`: the Python built-ins that the code relies on.
  - `str.lower()`, as `Lower`.
  - `str.strip()`, as `Strip` over `str.isspace()`.
  - `''.join`, as `Join`.
  - `sorted` on a string, as `SortChars`, an insertion sort. It is proved to
    return the one sorted permutation of its argument. So two strings sort
    to the same string exactly when they have the same multiset of characters.
- `normalizer.dfy`, module `Normalizer`:
  - `remove_accents`, `remove_diacritics` and `remove_vowels` are array methods
    that overwrite positions of a letter list, as the source does.
  - `get_missing_vowels` is a method that accumulates a string.
  - The cleaning pipeline is the `Clean` method, specified by the function
    `Normalize`.
- `index.dfy`, module `WordIndex`: `build_dataset`.
  - The dict is a `WordsDictionary`. It holds the key sequence in insertion
    order and a map from key to group.
  - Its two loops are proved equal to `GroupWords`, the grouping of the
    words by `KeysOf`, the keys the first loop computes.
  - `WithKey` and `FirstIndex` are independent reference definitions: the
    words filed under a key, and the first position of a key. The grouping
    is proved against them.
- `matcher.dfy`, module `Matcher`: `find_words`.
  - It is proved equal to `FindWordsResult`: `Gather` applied to the keys that
    pass `KeyMatches`, kept in dict order.
  - Lemmas relate the result to the input words of the index.

Three consequences of the code are worth stating up front:

- With `preserve_order` unset, the test is `sorted` equality, which is
  multiset equality of characters (`UnorderedIsPermutation`).
- `ignore_all_vowels` deletes all of `aeiou` from each key, so a query that
  still holds a vowel after cleaning finds nothing
  (`IgnoreAllVowelsWithVowelFindsNothing`).
- Cleaning is not always length-preserving, because `strip()` removes
  whitespace at the ends. `NormalizeLength` proves the length never grows,
  and that it is kept when neither end of the input is whitespace.

## Model

| member | source | states |
|---|---|---|
| `TextBuiltins.LowerAt` | find_words.py:91 | `lower()` keeps the length; each character is lowered on its own (capitals to small letters, everything else unchanged) |
| `TextBuiltins.LowerFixes` | find_words.py:91 | a string with no capital letters is its own `lower()` |
| `TextBuiltins.StripSpec` | find_words.py:91 | `strip()` keeps a contiguous infix of the input, removes only whitespace, and leaves no whitespace at either end |
| `TextBuiltins.StripTrimmed` | find_words.py:91 | a string with no whitespace at either end is its own `strip()` |
| `TextBuiltins.SortCharsSorts` | find_words.py:130 | `sorted` of a string is in non-decreasing order and has the same characters with the same multiplicities |
| `TextBuiltins.SortedUnique` | find_words.py:130 | two sorted strings with the same multiset of characters are equal, so `sorted` has only one possible result |
| `TextBuiltins.SortCharsEqualIff` | find_words.py:130 | `sorted(a) == sorted(b)` holds exactly when `a` and `b` are permutations of each other |
| `Normalizer.WithoutAccentsAt` | find_words.py:12-38 | `remove_accents` keeps the length; each position holds the table image of an accented letter and every other character unchanged |
| `Normalizer.RemoveAccents` | find_words.py:29-38 | the in-place loop over the letter list returns exactly `WithoutAccents(word)` |
| `Normalizer.WithoutAccentsLeavesNone` | find_words.py:12-35 | no letter of the accent table survives `remove_accents` |
| `Normalizer.WithoutAccentsFixes` | find_words.py:33-35 | a string without accented letters is left unchanged |
| `Normalizer.WithoutAccentsIdempotent` | find_words.py:7-38 | `remove_accents` applied twice is applied once |
| `Normalizer.WithoutDiacriticsAt` | find_words.py:48-52 | `remove_diacritics` keeps the length; `¿` becomes `s`, `¡` becomes `i`, every other character stays |
| `Normalizer.RemoveDiacritics` | find_words.py:40-55 | the in-place loop returns exactly `WithoutDiacritics(word)` |
| `Normalizer.WithoutDiacriticsFixes` | find_words.py:48-52 | a string without `¿` or `¡` is left unchanged |
| `Normalizer.WithoutDiacriticsIdempotent` | find_words.py:40-55 | `remove_diacritics` applied twice is applied once |
| `Normalizer.StrippedIdempotent` | find_words.py:12-55 | after `remove_accents` then `remove_diacritics` no mapped character remains, so applying both again is the identity |
| `Normalizer.Without` | find_words.py:62-70 | deleting the characters of a set keeps exactly the other characters and never lengthens; with nothing to delete it is the identity |
| `Normalizer.WithoutLength` | find_words.py:65-67 | the result is as long as the input minus the number of deleted positions |
| `Normalizer.WithoutMultiset` | find_words.py:65-70 | each kept character keeps its multiplicity, and each deleted one is gone |
| `Normalizer.WithoutAppend` | find_words.py:62-70 | deletion commutes with concatenation, so the kept characters stay in their input order |
| `Normalizer.WithoutIdempotent` | find_words.py:57-70 | deleting the same characters twice is deleting them once |
| `Normalizer.JoinBlanked` | find_words.py:64-70 | joining the letter list with vowels blanked to `''` gives the input without its vowels |
| `Normalizer.RemoveVowels` | find_words.py:57-70 | the blank-then-join loop returns exactly `WithoutVowels(word)`, the input with `aeiouAEIOU` deleted, whose content, length and order the `Without` lemmas state |
| `Normalizer.GetMissingVowels` | find_words.py:72-79 | the result holds a character exactly when it is one of `aeiou` and does not occur in the word |
| `Normalizer.Clean` | find_words.py:91-93 | `lower().strip()`, then accents, then diacritics, computes `Normalize(text)` and never lengthens the text |
| `Normalizer.NormalizeLength` | find_words.py:91-93 | cleaning never lengthens a string and keeps the length of a string with no whitespace at either end |
| `Normalizer.NormalizeIsCanonical` | find_words.py:91-93 | a cleaned string has no capital, accented letter or opening mark, and no whitespace at either end |
| `Normalizer.CanonicalFixed` | find_words.py:91-93 | a canonical string is its own cleaned form |
| `Normalizer.NormalizeIdempotent` | find_words.py:91-93 | cleaning twice is cleaning once |
| `WordIndex.AddValid` | find_words.py:100-103 | one grouping step keeps the dict well formed (distinct keys, exactly the listed keys have groups) and files the key |
| `WordIndex.GroupByValid` | find_words.py:99-104 | the grouping loop always yields a well-formed dict |
| `WordIndex.KeysOfAt` | find_words.py:90-96 | the first loop's list holds, at each position, the cleaned form of the word at that position |
| `WordIndex.BuildDataset` | find_words.py:87-105 | the two loops compute `GroupWords(words)`, a well-formed dict, and empty input gives the empty dict |
| `WordIndex.GroupByGroups` | find_words.py:99-104 | a key is in the dict exactly when some word has it, and its group is exactly the words with that key, in input order |
| `WordIndex.GatherGroupBy` | find_words.py:99-104 | concatenating all groups gives back the input words as a multiset: none lost, none added |
| `WordIndex.GroupByKeyOrder` | find_words.py:99-104 | the dict lists its keys in the order of their first occurrence |
| `WordIndex.WordInItsGroup` | find_words.py:87-105 | every input word is in the group of its own cleaned key |
| `WordIndex.GroupsAreFaithful` | find_words.py:87-105 | no group is empty, and a group holds only input words whose cleaned key is that group's key |
| `WordIndex.GroupIsFilter` | find_words.py:87-105 | each group is the input list filtered by key, so it keeps input order |
| `WordIndex.GatherAll` | find_words.py:87-105 | the index's groups together are a permutation of the input words |
| `WordIndex.GroupSizesSum` | find_words.py:87-105 | the group sizes add up to `len(words)` |
| `WordIndex.KeysInFirstSeenOrder` | find_words.py:87-105 | the index's keys appear in the order their first words appear in the input |
| `WordIndex.GatherLength` | find_words.py:126-131 | the concatenated groups are as long as the sum of the group sizes |
| `Matcher.VowelsToRemove` | find_words.py:114-117 | with `ignore_all_vowels` all five of `aeiou` are deleted; otherwise a character is deleted exactly when it is one of `aeiou` and does not occur in the pattern |
| `Matcher.MatchingKeys` | find_words.py:120-130 | a key is kept exactly when it is a dict key that passes the test |
| `Matcher.FindWords` | find_words.py:107-135 | the loop returns `FindWordsResult`: the groups of the passing keys, whole, concatenated in dict order |
| `Matcher.UnorderedIsPermutation` | find_words.py:128-130 | without `preserve_order` a key passes exactly when, with the vowels deleted, it is a permutation of the pattern |
| `Matcher.OrderedImpliesUnordered` | find_words.py:128-130 | a key that passes the ordered test passes the unordered one |
| `Matcher.MissingVowelsKeep` | find_words.py:114-123 | deleting the pattern's missing vowels leaves unchanged a key whose characters all occur in the pattern |
| `Matcher.PatternMatchesItself` | find_words.py:114-128 | with `ignore_all_vowels` off, a key equal to the pattern passes the ordered test |
| `Matcher.PermutationMatches` | find_words.py:114-130 | with `ignore_all_vowels` off, any permutation of the pattern passes the unordered test |
| `Matcher.VowelPatternMatchesNothing` | find_words.py:114-130 | with `ignore_all_vowels` on, no key passes when the pattern contains one of `aeiou` |
| `Matcher.NoKeyMatches` | find_words.py:120-130 | when no key passes the test, no key is kept |
| `Matcher.GatherMembers` | find_words.py:126-131 | a word is in the concatenated groups exactly when it is in the group of one of the listed keys |
| `Matcher.ScanMembers` | find_words.py:120-131 | for any pattern and vowel set, the scan gathers a word exactly when it is in the group of a dict key that passes the test |
| `Matcher.FindWordsMembers` | find_words.py:120-135 | a word is returned exactly when it is in the group of a dict key that passes the test |
| `Matcher.FindWordsLength` | find_words.py:120-135 | the result is as long as the groups of the passing keys together |
| `Matcher.EmptyDictionaryFindsNothing` | find_words.py:120-135 | a query against the empty dict returns the empty list |
| `Matcher.IgnoreAllVowelsWithVowelFindsNothing` | find_words.py:107-135 | with `ignore_all_vowels` on, a query that still contains one of `aeiou` after cleaning returns nothing |
| `Matcher.FindsOwnWord` | find_words.py:87-135 | over the index of `words`, with `ignore_all_vowels` off, a query that cleans to a word's key returns that word in both order modes |
| `Matcher.FindsAnagram` | find_words.py:87-135 | over the index of `words`, a query whose cleaned form is a permutation of a word's key returns that word when neither flag is set |
| `Matcher.FindsOnlyMatchingWords` | find_words.py:87-135 | over the index of `words`, every returned word is an input word whose key passes the test |
| `Matcher.OrderedWithinUnordered` | find_words.py:120-135 | every word returned with `preserve_order` set is also returned without it |

## Left out

- `download_file` (find_words.py:137-144) is not modelled. It is a network fetch and a file write.
- `load_words` (find_words.py:81-85) is not modelled. It reads a file and splits it. The model takes the word list as a `seq<string>`.
- The `__main__` block (find_words.py:146-183) is not modelled. It is an interactive loop with `input`, `print` and `time.time()`.
- `lower()` lowers only ASCII `A`..`Z` and the Latin-1 capitals U+00C0..U+00DE (but not U+00D7). That set covers every Spanish capital. Every other character is left unchanged, so the rest of Unicode's case tables are not modelled. This includes characters whose lowercase form is longer than one character.
- `strip()` uses Python's `str.isspace()` set of whitespace characters, written out as a predicate.
- `sorted` is modelled by an insertion sort. Only its result matters to the source, and that result is proved unique.
- The list comprehension at find_words.py:123 is the function `Without`, not a loop. The source writes it as an expression.
- `Gather` and `TotalSize` treat a listed key with no group as an empty group. Under `Valid()` every listed key has a group, so this case never arises for a dict.
- The Python dict is modelled as its insertion-ordered key sequence plus a map. `FindWords` requires `Valid()`: distinct keys, and exactly the listed keys have groups. Every Python dict satisfies this.
- Aliasing between the group lists stored in the dict and the lists returned by `find_words` is not modelled. `matched_words += word` copies the elements, so nothing observable depends on it.
