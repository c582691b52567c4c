/**
 * The query side of the word finder: `find_words` normalises the pattern,
 * chooses the vowels to delete from each key, and gathers the groups of the
 * keys that then spell the pattern (in order, or as a permutation).
 */
module Matcher {
  import opened TextBuiltins
  import opened Normalizer
  import opened WordIndex

  /** `set('aeiou')`: every vowel `ignore_all_vowels` deletes. */
  const LowerVowels: set<char> := set v | v in Vowels

  /** `vowels2remove`: all five vowels, or those the pattern lacks. */
  function VowelsToRemove(pattern: string, ignoreAllVowels: bool): (drop: set<char>)
    ensures drop <= LowerVowels
    ensures ignoreAllVowels ==> drop == LowerVowels
    ensures !ignoreAllVowels ==> forall c :: c in drop <==> c in LowerVowels && c !in pattern
  {
    if ignoreAllVowels then LowerVowels else MissingVowels(pattern)
  }

  /**
   * The test applied to one key: with `drop` deleted from it, the key equals
   * the pattern (`preserve_order`) or sorts to the same string (otherwise).
   */
  predicate KeyMatches(key: string, pattern: string, drop: set<char>, preserveOrder: bool)
  {
    var newKey := Without(key, drop);
    if preserveOrder then newKey == pattern else SortChars(newKey) == SortChars(pattern)
  }

  /** The keys of `keys` that pass the test, in the order of `keys`. */
  function MatchingKeys(keys: seq<string>, pattern: string, drop: set<char>, preserveOrder: bool): (r: seq<string>)
    ensures |r| <= |keys|
    ensures forall k :: k in r <==> k in keys && KeyMatches(k, pattern, drop, preserveOrder)
  {
    if keys == [] then []
    else
      var n := |keys| - 1;
      MatchingKeys(keys[..n], pattern, drop, preserveOrder)
        + (if KeyMatches(keys[n], pattern, drop, preserveOrder) then [keys[n]] else [])
  }

  /** The list `find_words` returns. */
  function FindWordsResult(letters: string, d: WordsDictionary, ignoreAllVowels: bool, preserveOrder: bool): (r: seq<string>)
  {
    var pattern := Normalize(letters);
    Gather(MatchingKeys(d.keys, pattern, VowelsToRemove(pattern, ignoreAllVowels), preserveOrder), d.groups)
  }

  /** One more key scanned is one more key kept, if it passes. */
  lemma MatchingKeysSnoc(keys: seq<string>, i: nat, pattern: string, drop: set<char>, preserveOrder: bool)
    requires i < |keys|
    ensures MatchingKeys(keys[..i + 1], pattern, drop, preserveOrder)
         == MatchingKeys(keys[..i], pattern, drop, preserveOrder)
            + (if KeyMatches(keys[i], pattern, drop, preserveOrder) then [keys[i]] else [])
  {
    assert keys[..i + 1][..i] == keys[..i];
  }

  /** Gathering one more key appends its whole group. */
  lemma GatherSnoc(keys: seq<string>, k: string, groups: map<string, seq<string>>)
    ensures Gather(keys + [k], groups) == Gather(keys, groups) + GroupOf(groups, k)
  {
    assert (keys + [k])[..|keys|] == keys;
  }

  /** Scanning one more key appends its group when it passes, and nothing otherwise. */
  lemma ScanStep(keys: seq<string>, groups: map<string, seq<string>>, i: nat,
                 pattern: string, drop: set<char>, preserveOrder: bool)
    requires i < |keys|
    ensures var before := MatchingKeys(keys[..i], pattern, drop, preserveOrder);
      Gather(MatchingKeys(keys[..i + 1], pattern, drop, preserveOrder), groups)
        == Gather(before, groups) + (if KeyMatches(keys[i], pattern, drop, preserveOrder) then GroupOf(groups, keys[i]) else [])
  {
    var before := MatchingKeys(keys[..i], pattern, drop, preserveOrder);
    MatchingKeysSnoc(keys, i, pattern, drop, preserveOrder);
    if KeyMatches(keys[i], pattern, drop, preserveOrder) {
      GatherSnoc(before, keys[i], groups);
    } else {
      assert before + [] == before;
    }
  }

  /**
   * `find_words`: clean the pattern, choose the vowels to delete, then scan
   * the keys in dictionary order, appending the group of each key that passes.
   */
  method FindWords(letters: string, d: WordsDictionary, ignoreAllVowels: bool, preserveOrder: bool)
    returns (matched: seq<string>)
    requires d.Valid()
    ensures matched == FindWordsResult(letters, d, ignoreAllVowels, preserveOrder)
  {
    var pattern := Clean(letters);
    var drop: set<char>;
    if ignoreAllVowels {
      drop := LowerVowels;
    } else {
      drop := GetMissingVowels(pattern);
    }
    assert drop == VowelsToRemove(pattern, ignoreAllVowels);
    matched := [];
    for i := 0 to |d.keys|
      invariant matched == Gather(MatchingKeys(d.keys[..i], pattern, drop, preserveOrder), d.groups)
    {
      var key := d.keys[i];
      var newKey := Without(key, drop);
      var word := d.groups[key];
      ScanStep(d.keys, d.groups, i, pattern, drop, preserveOrder);
      if preserveOrder && newKey == pattern {
        matched := matched + word;
      } else if !preserveOrder && SortChars(newKey) == SortChars(pattern) {
        matched := matched + word;
      }
    }
    assert d.keys[..|d.keys|] == d.keys;
  }

  // ------------------------------------------------------------ the key test

  /** Without `preserve_order` the test is a permutation test. */
  lemma UnorderedIsPermutation(key: string, pattern: string, drop: set<char>)
    ensures KeyMatches(key, pattern, drop, false)
        <==> multiset(Without(key, drop)) == multiset(pattern)
  {
    SortCharsEqualIff(Without(key, drop), pattern);
  }

  /** A key that passes the ordered test passes the unordered one. */
  lemma OrderedImpliesUnordered(key: string, pattern: string, drop: set<char>)
    requires KeyMatches(key, pattern, drop, true)
    ensures KeyMatches(key, pattern, drop, false)
  {
  }

  /** Deleting the pattern's missing vowels leaves a key made of the pattern's letters intact. */
  lemma MissingVowelsKeep(key: string, pattern: string)
    requires forall c :: c in key ==> c in pattern
    ensures Without(key, VowelsToRemove(pattern, false)) == key
  {
    var drop := VowelsToRemove(pattern, false);
    forall i | 0 <= i < |key| ensures key[i] !in drop {
      assert key[i] in pattern;
    }
  }

  /** With `ignore_all_vowels` off, the pattern's own key passes the ordered test. */
  lemma PatternMatchesItself(pattern: string)
    ensures KeyMatches(pattern, pattern, VowelsToRemove(pattern, false), true)
  {
    MissingVowelsKeep(pattern, pattern);
  }

  /** With `ignore_all_vowels` off, every permutation of the pattern passes the unordered test. */
  lemma PermutationMatches(key: string, pattern: string)
    requires multiset(key) == multiset(pattern)
    ensures KeyMatches(key, pattern, VowelsToRemove(pattern, false), false)
  {
    forall c | c in key ensures c in pattern {
      assert c in multiset(key);
    }
    MissingVowelsKeep(key, pattern);
    UnorderedIsPermutation(key, pattern, VowelsToRemove(pattern, false));
  }

  /** With `ignore_all_vowels` on, a pattern holding a vowel of "aeiou" passes no test. */
  lemma VowelPatternMatchesNothing(key: string, pattern: string, preserveOrder: bool, v: char)
    requires v in pattern && v in LowerVowels
    ensures !KeyMatches(key, pattern, VowelsToRemove(pattern, true), preserveOrder)
  {
    var newKey := Without(key, LowerVowels);
    assert v !in newKey;
    if !preserveOrder {
      UnorderedIsPermutation(key, pattern, LowerVowels);
      assert multiset(pattern)[v] > 0;
    }
  }

  // ------------------------------------------------------------- the result

  /** When no key passes the test, none is kept. */
  lemma {:induction false} NoKeyMatches(keys: seq<string>, pattern: string, drop: set<char>, preserveOrder: bool)
    requires forall k :: k in keys ==> !KeyMatches(k, pattern, drop, preserveOrder)
    ensures MatchingKeys(keys, pattern, drop, preserveOrder) == []
  {
    if keys != [] {
      var n := |keys| - 1;
      assert keys[n] in keys;
      NoKeyMatches(keys[..n], pattern, drop, preserveOrder);
    }
  }

  /** A word is gathered exactly when it is in the group of a listed key. */
  lemma {:induction false} GatherMembers(keys: seq<string>, groups: map<string, seq<string>>, w: string)
    ensures w in Gather(keys, groups) <==> exists k :: k in keys && w in GroupOf(groups, k)
  {
    if keys != [] {
      var n := |keys| - 1;
      GatherMembers(keys[..n], groups, w);
      assert keys == keys[..n] + [keys[n]];
    }
  }

  /** The scan gathers a word exactly when it is in the group of a dict key that passes. */
  lemma ScanMembers(d: WordsDictionary, pattern: string, drop: set<char>, preserveOrder: bool, w: string)
    requires d.Valid()
    ensures w in Gather(MatchingKeys(d.keys, pattern, drop, preserveOrder), d.groups)
        <==> exists k :: k in d.keys && w in d.groups[k] && KeyMatches(k, pattern, drop, preserveOrder)
  {
    GatherMembers(MatchingKeys(d.keys, pattern, drop, preserveOrder), d.groups, w);
  }

  /**
   * A word is returned exactly when it is in the group of a dictionary key
   * that passes the test.
   */
  lemma FindWordsMembers(letters: string, d: WordsDictionary, ignoreAllVowels: bool, preserveOrder: bool, w: string)
    requires d.Valid()
    ensures var pattern := Normalize(letters);
      (w in FindWordsResult(letters, d, ignoreAllVowels, preserveOrder)
       <==> exists k :: k in d.keys && w in d.groups[k]
                      && KeyMatches(k, pattern, VowelsToRemove(pattern, ignoreAllVowels), preserveOrder))
  {
    var pattern := Normalize(letters);
    ScanMembers(d, pattern, VowelsToRemove(pattern, ignoreAllVowels), preserveOrder, w);
  }

  /** The result is as long as the matching groups together. */
  lemma FindWordsLength(letters: string, d: WordsDictionary, ignoreAllVowels: bool, preserveOrder: bool)
    ensures var pattern := Normalize(letters);
      |FindWordsResult(letters, d, ignoreAllVowels, preserveOrder)|
        == TotalSize(MatchingKeys(d.keys, pattern, VowelsToRemove(pattern, ignoreAllVowels), preserveOrder), d.groups)
  {
    var pattern := Normalize(letters);
    GatherLength(MatchingKeys(d.keys, pattern, VowelsToRemove(pattern, ignoreAllVowels), preserveOrder), d.groups);
  }

  /** A query against the empty dictionary returns nothing. */
  lemma EmptyDictionaryFindsNothing(letters: string, ignoreAllVowels: bool, preserveOrder: bool)
    ensures FindWordsResult(letters, Empty, ignoreAllVowels, preserveOrder) == []
  {
    assert Empty.keys == [];
  }

  /** With `ignore_all_vowels` on, a pattern that keeps a vowel after cleaning finds nothing. */
  lemma IgnoreAllVowelsWithVowelFindsNothing(letters: string, d: WordsDictionary, preserveOrder: bool, v: char)
    requires v in Normalize(letters) && v in LowerVowels
    ensures FindWordsResult(letters, d, true, preserveOrder) == []
  {
    var pattern := Normalize(letters);
    var drop := VowelsToRemove(pattern, true);
    forall k | k in d.keys ensures !KeyMatches(k, pattern, drop, preserveOrder) {
      VowelPatternMatchesNothing(k, pattern, preserveOrder, v);
    }
    NoKeyMatches(d.keys, pattern, drop, preserveOrder);
  }

  // ------------------------------------------------- over build_dataset's index

  /**
   * Every input word is found by a pattern that cleans to the word's own key,
   * in either order mode, as long as `ignore_all_vowels` is off.
   */
  lemma FindsOwnWord(words: seq<string>, i: nat, letters: string, preserveOrder: bool)
    requires i < |words| && Normalize(letters) == Normalize(words[i])
    ensures words[i] in FindWordsResult(letters, GroupWords(words), false, preserveOrder)
  {
    var d := GroupWords(words);
    GroupByValid(KeysOf(words), words);
    var k := Normalize(words[i]);
    WordInItsGroup(words, i);
    PatternMatchesItself(k);
    FindWordsMembers(letters, d, false, preserveOrder, words[i]);
  }

  /**
   * Every input word is found, without `preserve_order`, by any pattern whose
   * cleaned form is a permutation of the word's key.
   */
  lemma FindsAnagram(words: seq<string>, i: nat, letters: string)
    requires i < |words| && multiset(Normalize(letters)) == multiset(Normalize(words[i]))
    ensures words[i] in FindWordsResult(letters, GroupWords(words), false, false)
  {
    var d := GroupWords(words);
    GroupByValid(KeysOf(words), words);
    WordInItsGroup(words, i);
    PermutationMatches(Normalize(words[i]), Normalize(letters));
    FindWordsMembers(letters, d, false, false, words[i]);
  }

  /** Every word returned is an input word whose key passes the test. */
  lemma FindsOnlyMatchingWords(words: seq<string>, letters: string, ignoreAllVowels: bool, preserveOrder: bool, w: string)
    requires w in FindWordsResult(letters, GroupWords(words), ignoreAllVowels, preserveOrder)
    ensures var pattern := Normalize(letters);
      && w in words
      && KeyMatches(Normalize(w), pattern, VowelsToRemove(pattern, ignoreAllVowels), preserveOrder)
  {
    var d := GroupWords(words);
    GroupByValid(KeysOf(words), words);
    FindWordsMembers(letters, d, ignoreAllVowels, preserveOrder, w);
    var pattern := Normalize(letters);
    var k :| k in d.keys && KeyMatches(k, pattern, VowelsToRemove(pattern, ignoreAllVowels), preserveOrder)
             && w in d.groups[k];
    GroupsAreFaithful(words, k);
  }

  /** Dropping `preserve_order` never loses a word. */
  lemma OrderedWithinUnordered(letters: string, d: WordsDictionary, ignoreAllVowels: bool)
    requires d.Valid()
    ensures forall w :: w in FindWordsResult(letters, d, ignoreAllVowels, true)
                    ==> w in FindWordsResult(letters, d, ignoreAllVowels, false)
  {
    var pattern := Normalize(letters);
    var drop := VowelsToRemove(pattern, ignoreAllVowels);
    forall w | w in FindWordsResult(letters, d, ignoreAllVowels, true)
      ensures w in FindWordsResult(letters, d, ignoreAllVowels, false)
    {
      ScanMembers(d, pattern, drop, true, w);
      ScanMembers(d, pattern, drop, false, w);
      var k :| k in d.keys && w in d.groups[k] && KeyMatches(k, pattern, drop, true);
      OrderedImpliesUnordered(k, pattern, drop);
    }
  }
}
