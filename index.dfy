/**
 * The index of the word finder: `build_dataset` groups the original words
 * under their canonical keys in an insertion-ordered dictionary.
 */
module WordIndex {
  import opened TextBuiltins
  import opened Normalizer

  /**
   * A Python dict from canonical key to the list of original words with that
   * key.  `keys` is the dict's iteration (insertion) order and `groups` its
   * contents.
   */
  datatype WordsDictionary = WordsDictionary(keys: seq<string>, groups: map<string, seq<string>>)
  {
    /** Each key is listed once, and exactly the keys of the dict are listed. */
    predicate Valid()
    {
      && (forall i, j :: 0 <= i < j < |keys| ==> keys[i] != keys[j])
      && (forall k :: k in groups ==> k in keys)
      && (forall k :: k in keys ==> k in groups)
    }
  }

  const Empty: WordsDictionary := WordsDictionary([], map[])

  /**
   * One step of the grouping loop: append `word` to the group of `key`, or
   * create the group `[word]` (and a new last key) when `key` is new.
   */
  function Add(d: WordsDictionary, key: string, word: string): (r: WordsDictionary)
  {
    if key in d.groups then
      d.(groups := d.groups[key := d.groups[key] + [word]])
    else
      WordsDictionary(d.keys + [key], d.groups[key := [word]])
  }

  /** One grouping step keeps the dict well formed and files the key. */
  lemma AddValid(d: WordsDictionary, key: string, word: string)
    requires d.Valid()
    ensures Add(d, key, word).Valid()
    ensures key in Add(d, key, word).groups
  {
  }

  /**
   * The grouping loop of `build_dataset`: `words[p]` is filed under
   * `keys[p]`, position after position.
   */
  function GroupBy(keys: seq<string>, words: seq<string>): (r: WordsDictionary)
    requires |keys| == |words|
  {
    if words == [] then Empty
    else
      var n := |words| - 1;
      Add(GroupBy(keys[..n], words[..n]), keys[n], words[n])
  }

  /** The grouping loop always yields a well-formed dict. */
  lemma {:induction false} GroupByValid(keys: seq<string>, words: seq<string>)
    requires |keys| == |words|
    ensures GroupBy(keys, words).Valid()
  {
    if words != [] {
      var n := |words| - 1;
      GroupByValid(keys[..n], words[..n]);
      AddValid(GroupBy(keys[..n], words[..n]), keys[n], words[n]);
    }
  }

  /** One more position of the grouping loop is one more `Add`. */
  lemma GroupByStep(keys: seq<string>, words: seq<string>, i: nat)
    requires i < |keys| == |words|
    ensures GroupBy(keys[..i + 1], words[..i + 1])
         == Add(GroupBy(keys[..i], words[..i]), keys[i], words[i])
  {
    assert keys[..i + 1][..i] == keys[..i];
    assert words[..i + 1][..i] == words[..i];
  }

  /** The canonical key of each word, position by position. */
  function KeysOf(words: seq<string>): (keys: seq<string>)
    ensures |keys| == |words|
  {
    if words == [] then []
    else
      var n := |words| - 1;
      KeysOf(words[..n]) + [Normalize(words[n])]
  }

  lemma KeysOfStep(words: seq<string>, i: nat)
    requires i < |words|
    ensures KeysOf(words[..i + 1]) == KeysOf(words[..i]) + [Normalize(words[i])]
  {
    assert words[..i + 1][..i] == words[..i];
  }

  lemma {:induction false} KeysOfAt(words: seq<string>, p: nat)
    requires p < |words|
    ensures KeysOf(words)[p] == Normalize(words[p])
  {
    var n := |words| - 1;
    if p < n {
      KeysOfAt(words[..n], p);
    }
  }

  /** The dictionary `build_dataset` returns for `words`. */
  function GroupWords(words: seq<string>): (d: WordsDictionary)
  {
    GroupBy(KeysOf(words), words)
  }

  /** `build_dataset`: normalise every word, then group the words by key. */
  method BuildDataset(words: seq<string>) returns (d: WordsDictionary)
    ensures d == GroupWords(words)
    ensures d.Valid()
    ensures words == [] ==> d.keys == [] && d.groups == map[]
  {
    var cleanedWords: seq<string> := [];
    for i := 0 to |words|
      invariant cleanedWords == KeysOf(words[..i])
    {
      var cleaned := Clean(words[i]);
      KeysOfStep(words, i);
      cleanedWords := cleanedWords + [cleaned];
    }
    assert words[..|words|] == words;
    d := Empty;
    for i := 0 to |cleanedWords|
      invariant d == GroupBy(cleanedWords[..i], words[..i])
    {
      GroupByStep(cleanedWords, words, i);
      if cleanedWords[i] in d.groups {
        d := d.(groups := d.groups[cleanedWords[i] := d.groups[cleanedWords[i]] + [words[i]]]);
      } else {
        d := WordsDictionary(d.keys + [cleanedWords[i]], d.groups[cleanedWords[i] := [words[i]]]);
      }
    }
    assert cleanedWords[..|words|] == cleanedWords;
    GroupByValid(cleanedWords, words);
  }

  // ------------------------------------------------------ reference model

  /** The words filed under `k`, in input order. */
  function WithKey(keys: seq<string>, words: seq<string>, k: string): (r: seq<string>)
    requires |keys| == |words|
  {
    if words == [] then []
    else
      var n := |words| - 1;
      WithKey(keys[..n], words[..n], k) + (if keys[n] == k then [words[n]] else [])
  }

  /** Every word filed under `k` is in the filter. */
  lemma {:induction false} WithKeyHas(keys: seq<string>, words: seq<string>, k: string, p: nat)
    requires |keys| == |words| && p < |words| && keys[p] == k
    ensures words[p] in WithKey(keys, words, k)
  {
    var n := |words| - 1;
    if p < n {
      assert keys[..n][p] == keys[p] && words[..n][p] == words[p];
      WithKeyHas(keys[..n], words[..n], k, p);
    }
  }

  /** Only words filed under `k` are in the filter. */
  lemma {:induction false} WithKeyOnly(keys: seq<string>, words: seq<string>, k: string, w: string)
    requires |keys| == |words| && w in WithKey(keys, words, k)
    ensures exists p :: 0 <= p < |words| && keys[p] == k && words[p] == w
  {
    var n := |words| - 1;
    if w in WithKey(keys[..n], words[..n], k) {
      WithKeyOnly(keys[..n], words[..n], k, w);
      var p :| 0 <= p < n && keys[..n][p] == k && words[..n][p] == w;
      assert keys[p] == k && words[p] == w;
    }
  }

  /** The filter is empty exactly when no word is filed under `k`. */
  lemma {:induction false} WithKeyEmpty(keys: seq<string>, words: seq<string>, k: string)
    requires |keys| == |words|
    ensures WithKey(keys, words, k) == [] <==> k !in keys
  {
    if words != [] {
      var n := |words| - 1;
      WithKeyEmpty(keys[..n], words[..n], k);
      assert keys == keys[..n] + [keys[n]];
    }
  }

  /** The position of the first occurrence of `k` in `keys`. */
  function FirstIndex(keys: seq<string>, k: string): (r: nat)
    requires k in keys
    ensures r < |keys| && keys[r] == k
    ensures forall q :: 0 <= q < r ==> keys[q] != k
  {
    if keys[0] == k then 0 else 1 + FirstIndex(keys[1..], k)
  }

  /** The group of `k`, or nothing when `k` has none. */
  function GroupOf(groups: map<string, seq<string>>, k: string): (r: seq<string>)
  {
    if k in groups then groups[k] else []
  }

  /**
   * The words of the listed groups, group after group: `+=` over `keys`.
   * Every key of a dict has a group, so `GroupOf` never falls back there.
   */
  function Gather(keys: seq<string>, groups: map<string, seq<string>>): (r: seq<string>)
  {
    if keys == [] then []
    else
      var n := |keys| - 1;
      Gather(keys[..n], groups) + GroupOf(groups, keys[n])
  }

  /** The sum of the sizes of the listed groups. */
  function TotalSize(keys: seq<string>, groups: map<string, seq<string>>): (n: nat)
  {
    if keys == [] then 0
    else
      var n := |keys| - 1;
      TotalSize(keys[..n], groups) + |GroupOf(groups, keys[n])|
  }

  // ------------------------------------------------------ grouping lemmas

  /**
   * The group of every key is exactly the words filed under it, in input
   * order, and a key is present exactly when some word is filed under it.
   */
  lemma {:induction false} GroupByGroups(keys: seq<string>, words: seq<string>, k: string)
    requires |keys| == |words|
    ensures var d := GroupBy(keys, words);
      && (k in d.groups <==> k in keys)
      && (k in d.groups ==> d.groups[k] == WithKey(keys, words, k))
  {
    if words != [] {
      var n := |words| - 1;
      GroupByGroups(keys[..n], words[..n], k);
      WithKeyEmpty(keys, words, k);
      WithKeyEmpty(keys[..n], words[..n], k);
    }
  }

  /** Replacing the group of a key that is not listed does not change `Gather`. */
  lemma {:induction false} GatherIgnores(keys: seq<string>, groups: map<string, seq<string>>, k: string, g: seq<string>)
    requires k !in keys
    ensures Gather(keys, groups[k := g]) == Gather(keys, groups)
  {
    if keys != [] {
      var n := |keys| - 1;
      assert keys == keys[..n] + [keys[n]];
      GatherIgnores(keys[..n], groups, k, g);
    }
  }

  /** Appending `w` to the group of a key listed once adds `w` to the gathered words. */
  lemma {:induction false} GatherAppend(keys: seq<string>, groups: map<string, seq<string>>, k: string, w: string)
    requires forall i, j :: 0 <= i < j < |keys| ==> keys[i] != keys[j]
    requires k in keys && k in groups
    ensures multiset(Gather(keys, groups[k := groups[k] + [w]]))
         == multiset(Gather(keys, groups)) + multiset{w}
  {
    var n := |keys| - 1;
    assert keys == keys[..n] + [keys[n]];
    if keys[n] == k {
      assert k !in keys[..n];
      GatherIgnores(keys[..n], groups, k, groups[k] + [w]);
    } else {
      GatherAppend(keys[..n], groups, k, w);
    }
  }

  /** One `Add` adds its word to the gathered words. */
  lemma GatherAdd(d: WordsDictionary, key: string, word: string)
    requires d.Valid()
    ensures var r := Add(d, key, word);
      multiset(Gather(r.keys, r.groups)) == multiset(Gather(d.keys, d.groups)) + multiset{word}
  {
    if key in d.groups {
      GatherAppend(d.keys, d.groups, key, word);
    } else {
      GatherIgnores(d.keys, d.groups, key, [word]);
      assert (d.keys + [key])[..|d.keys|] == d.keys;
    }
  }

  /** Gathering every group gives back the input words: none lost, none added. */
  lemma {:induction false} GatherGroupBy(keys: seq<string>, words: seq<string>)
    requires |keys| == |words|
    ensures var d := GroupBy(keys, words);
      multiset(Gather(d.keys, d.groups)) == multiset(words)
  {
    if words != [] {
      var n := |words| - 1;
      var before := GroupBy(keys[..n], words[..n]);
      assert GroupBy(keys, words) == Add(before, keys[n], words[n]);
      GatherGroupBy(keys[..n], words[..n]);
      GroupByValid(keys[..n], words[..n]);
      GatherAdd(before, keys[n], words[n]);
      MultisetSnoc(words);
    }
  }

  lemma MultisetSnoc(s: seq<string>)
    requires s != []
    ensures multiset(s) == multiset(s[..|s| - 1]) + multiset{s[|s| - 1]}
  {
    assert s == s[..|s| - 1] + [s[|s| - 1]];
  }

  /** The sizes of the listed groups add up to the gathered length. */
  lemma {:induction false} GatherLength(keys: seq<string>, groups: map<string, seq<string>>)
    ensures |Gather(keys, groups)| == TotalSize(keys, groups)
  {
    if keys != [] {
      GatherLength(keys[..|keys| - 1], groups);
    }
  }

  /** The first occurrence of a key in a prefix is its first occurrence overall. */
  lemma FirstIndexPrefix(keys: seq<string>, n: nat, k: string)
    requires n <= |keys| && k in keys[..n]
    ensures k in keys && FirstIndex(keys, k) == FirstIndex(keys[..n], k)
  {
    var f := FirstIndex(keys[..n], k);
    assert keys[..n][f] == keys[f];
  }

  /** The dictionary lists its keys in the order of their first occurrence. */
  lemma {:induction false} GroupByKeyOrder(keys: seq<string>, words: seq<string>)
    requires |keys| == |words|
    ensures var ks := GroupBy(keys, words).keys;
      && (forall x :: x in ks ==> x in keys)
      && (forall i, j :: 0 <= i < j < |ks| ==> FirstIndex(keys, ks[i]) < FirstIndex(keys, ks[j]))
  {
    if words != [] {
      var n := |words| - 1;
      var pk := keys[..n];
      var before := GroupBy(pk, words[..n]);
      assert GroupBy(keys, words) == Add(before, keys[n], words[n]);
      GroupByKeyOrder(pk, words[..n]);
      forall x | x in before.keys ensures x in keys && FirstIndex(keys, x) == FirstIndex(pk, x) < n {
        FirstIndexPrefix(keys, n, x);
      }
      if keys[n] in before.groups {
        assert GroupBy(keys, words).keys == before.keys;
      } else {
        GroupByGroups(pk, words[..n], keys[n]);
        FirstIndexNew(keys, n);
        assert GroupBy(keys, words).keys == before.keys + [keys[n]];
        OrderSnoc(before.keys, keys, n);
      }
    }
  }

  /** A key first seen at `n` may follow keys all first seen before `n`. */
  lemma OrderSnoc(ks: seq<string>, keys: seq<string>, n: nat)
    requires n < |keys| && FirstIndex(keys, keys[n]) == n
    requires forall x :: x in ks ==> x in keys && FirstIndex(keys, x) < n
    requires forall i, j :: 0 <= i < j < |ks| ==> FirstIndex(keys, ks[i]) < FirstIndex(keys, ks[j])
    ensures var ks' := ks + [keys[n]];
      && (forall x :: x in ks' ==> x in keys)
      && (forall i, j :: 0 <= i < j < |ks'| ==> FirstIndex(keys, ks'[i]) < FirstIndex(keys, ks'[j]))
  {
    var ks' := ks + [keys[n]];
    forall i, j | 0 <= i < j < |ks'| ensures FirstIndex(keys, ks'[i]) < FirstIndex(keys, ks'[j]) {
      assert ks'[i] == ks[i];
      if j < |ks| {
        assert ks'[j] == ks[j];
      } else {
        assert ks[i] in ks;
      }
    }
  }

  /** A key absent from the first `n` positions first occurs at position `n`. */
  lemma FirstIndexNew(keys: seq<string>, n: nat)
    requires n < |keys| && keys[n] !in keys[..n]
    ensures FirstIndex(keys, keys[n]) == n
  {
    forall q | 0 <= q < n ensures keys[q] != keys[n] {
      assert keys[..n][q] == keys[q];
    }
  }

  // --------------------------------------------- the index of build_dataset

  /** Every input word is in the group of its own canonical key. */
  lemma WordInItsGroup(words: seq<string>, i: nat)
    requires i < |words|
    ensures var d := GroupWords(words);
      Normalize(words[i]) in d.groups && words[i] in d.groups[Normalize(words[i])]
  {
    var keys := KeysOf(words);
    KeysOfAt(words, i);
    GroupByGroups(keys, words, keys[i]);
    WithKeyHas(keys, words, keys[i], i);
  }

  /** No group is empty, and a group holds only input words with its key. */
  lemma GroupsAreFaithful(words: seq<string>, k: string)
    requires k in GroupWords(words).groups
    ensures GroupWords(words).groups[k] != []
    ensures forall w :: w in GroupWords(words).groups[k] ==> w in words && Normalize(w) == k
  {
    var keys := KeysOf(words);
    GroupByGroups(keys, words, k);
    WithKeyEmpty(keys, words, k);
    forall w | w in GroupWords(words).groups[k] ensures w in words && Normalize(w) == k {
      WithKeyOnly(keys, words, k, w);
      var p :| 0 <= p < |words| && keys[p] == k && words[p] == w;
      KeysOfAt(words, p);
    }
  }

  /** Each group lists its words in input order: it is the input filtered by key. */
  lemma GroupIsFilter(words: seq<string>, k: string)
    requires k in GroupWords(words).groups
    ensures GroupWords(words).groups[k] == WithKey(KeysOf(words), words, k)
  {
    GroupByGroups(KeysOf(words), words, k);
  }

  /** Gathering the index group by group gives back the input words as a multiset. */
  lemma GatherAll(words: seq<string>)
    ensures var d := GroupWords(words);
      multiset(Gather(d.keys, d.groups)) == multiset(words)
  {
    GatherGroupBy(KeysOf(words), words);
  }

  /** The group sizes of the index add up to the number of input words. */
  lemma GroupSizesSum(words: seq<string>)
    ensures var d := GroupWords(words);
      TotalSize(d.keys, d.groups) == |words|
  {
    var d := GroupWords(words);
    GatherAll(words);
    GatherLength(d.keys, d.groups);
    assert |Gather(d.keys, d.groups)| == |multiset(Gather(d.keys, d.groups))|;
  }

  /** The keys of the index are in the order their first words occur in the input. */
  lemma KeysInFirstSeenOrder(words: seq<string>)
    ensures var ks := GroupWords(words).keys;
      && (forall x :: x in ks ==> x in KeysOf(words))
      && (forall i, j :: 0 <= i < j < |ks| ==>
            FirstIndex(KeysOf(words), ks[i]) < FirstIndex(KeysOf(words), ks[j]))
  {
    var keys := KeysOf(words);
    var ks := GroupWords(words).keys;
    assert ks == GroupBy(keys, words).keys;
    GroupByKeyOrder(keys, words);
    forall i, j | 0 <= i < j < |ks|
      ensures FirstIndex(keys, ks[i]) < FirstIndex(keys, ks[j])
    {
    }
  }
}
