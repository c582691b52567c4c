/**
 * The character normalisers of the word finder: accent removal, removal of
 * the two Spanish opening marks, vowel removal, the missing-vowel analyser,
 * and the canonical key that both indexing and querying compute.
 *
 * Each source routine copies its input into a list and rewrites it one
 * position at a time; here each is a method over an array, proved equal to
 * a recursive specification function about which the properties are proved.
 */
module Normalizer {
  import opened TextBuiltins

  /** The accent table of `remove_accents`. */
  const AccentsTable: map<char, char> := map[
    'á' := 'a', 'é' := 'e', 'í' := 'i', 'ó' := 'o', 'ú' := 'u', 'ü' := 'u', 'ñ' := 'n',
    'Á' := 'A', 'É' := 'E', 'Í' := 'I', 'Ó' := 'O', 'Ú' := 'U', 'Ü' := 'U', 'Ñ' := 'N'
  ]

  /** The vowels tested by `remove_vowels` (the string "aeiouAEIOU"). */
  const AllVowels: set<char> := {'a', 'e', 'i', 'o', 'u', 'A', 'E', 'I', 'O', 'U'}

  /** The lower-case vowels, in the order `get_missing_vowels` visits them. */
  const Vowels: string := "aeiou"

  /** The characters a table maps somewhere: its sources. */
  predicate IsAccented(c: char)
  {
    c in AccentsTable
  }

  predicate IsOpeningMark(c: char)
  {
    c == '¿' || c == '¡'
  }

  /** One character through the accent table: its image if listed, else itself. */
  function AccentFree(c: char): (r: char)
  {
    if c in AccentsTable then AccentsTable[c] else c
  }

  /** One character through `remove_diacritics`: `¿` to `s`, `¡` to `i`, else itself. */
  function DiacriticFree(c: char): (r: char)
  {
    if c == '¿' then 's' else if c == '¡' then 'i' else c
  }

  // ---------------------------------------------------------------- accents

  /** The result of `remove_accents`. */
  function WithoutAccents(s: string): (r: string)
  {
    if s == [] then [] else [AccentFree(s[0])] + WithoutAccents(s[1..])
  }

  /**
   * `remove_accents` keeps the length; each position holds the table image
   * of the input character if it has one, and the character itself if not.
   */
  lemma {:induction false} WithoutAccentsAt(s: string)
    ensures |WithoutAccents(s)| == |s|
    ensures forall i :: 0 <= i < |s| ==>
      WithoutAccents(s)[i] == (if s[i] in AccentsTable then AccentsTable[s[i]] else s[i])
  {
    if s != [] {
      WithoutAccentsAt(s[1..]);
    }
  }

  /** `remove_accents`: rewrite each accented letter in place. */
  method RemoveAccents(word: string) returns (r: string)
    ensures r == WithoutAccents(word)
  {
    var letters := new char[|word|](i requires 0 <= i < |word| => word[i]);
    for i := 0 to letters.Length
      invariant forall j :: 0 <= j < i ==> letters[j] == AccentFree(word[j])
      invariant forall j :: i <= j < letters.Length ==> letters[j] == word[j]
    {
      if letters[i] in AccentsTable {
        letters[i] := AccentsTable[letters[i]];
      }
    }
    r := letters[..];
    WithoutAccentsAt(word);
  }

  /** No accented letter survives `remove_accents`. */
  lemma WithoutAccentsLeavesNone(s: string)
    ensures |WithoutAccents(s)| == |s|
    ensures forall i :: 0 <= i < |s| ==> !IsAccented(WithoutAccents(s)[i])
  {
    WithoutAccentsAt(s);
  }

  /** A string without accented letters is left unchanged. */
  lemma {:induction false} WithoutAccentsFixes(s: string)
    requires forall i :: 0 <= i < |s| ==> !IsAccented(s[i])
    ensures WithoutAccents(s) == s
  {
    if s != [] {
      WithoutAccentsFixes(s[1..]);
      assert s == [s[0]] + s[1..];
    }
  }

  lemma WithoutAccentsIdempotent(s: string)
    ensures WithoutAccents(WithoutAccents(s)) == WithoutAccents(s)
  {
    WithoutAccentsLeavesNone(s);
    WithoutAccentsFixes(WithoutAccents(s));
  }

  // ------------------------------------------------------------- diacritics

  /** The result of `remove_diacritics`. */
  function WithoutDiacritics(s: string): (r: string)
  {
    if s == [] then [] else [DiacriticFree(s[0])] + WithoutDiacritics(s[1..])
  }

  /**
   * `remove_diacritics` keeps the length; `¿` becomes `s`, `¡` becomes `i`,
   * and every other character stays.
   */
  lemma {:induction false} WithoutDiacriticsAt(s: string)
    ensures |WithoutDiacritics(s)| == |s|
    ensures forall i :: 0 <= i < |s| ==>
      WithoutDiacritics(s)[i] == (if s[i] == '¿' then 's' else if s[i] == '¡' then 'i' else s[i])
  {
    if s != [] {
      WithoutDiacriticsAt(s[1..]);
    }
  }

  /** `remove_diacritics`: rewrite each opening mark in place. */
  method RemoveDiacritics(word: string) returns (r: string)
    ensures r == WithoutDiacritics(word)
  {
    var letters := new char[|word|](i requires 0 <= i < |word| => word[i]);
    for i := 0 to letters.Length
      invariant forall j :: 0 <= j < i ==> letters[j] == DiacriticFree(word[j])
      invariant forall j :: i <= j < letters.Length ==> letters[j] == word[j]
    {
      if letters[i] == '¿' {
        letters[i] := 's';
      } else if letters[i] == '¡' {
        letters[i] := 'i';
      }
    }
    r := letters[..];
    WithoutDiacriticsAt(word);
  }

  /** A string without opening marks is left unchanged. */
  lemma {:induction false} WithoutDiacriticsFixes(s: string)
    requires forall i :: 0 <= i < |s| ==> !IsOpeningMark(s[i])
    ensures WithoutDiacritics(s) == s
  {
    if s != [] {
      WithoutDiacriticsFixes(s[1..]);
      assert s == [s[0]] + s[1..];
    }
  }

  lemma WithoutDiacriticsIdempotent(s: string)
    ensures WithoutDiacritics(WithoutDiacritics(s)) == WithoutDiacritics(s)
  {
    WithoutDiacriticsAt(s);
    WithoutDiacriticsFixes(WithoutDiacritics(s));
  }

  /** Neither table's image is a source of either table. */
  lemma StrippedChar(c: char)
    ensures var d := DiacriticFree(AccentFree(c));
      !IsAccented(d) && !IsOpeningMark(d)
  {
  }

  /**
   * After `remove_accents` then `remove_diacritics` no character of either
   * table is left, so running both again changes nothing.
   */
  lemma {:induction false} StrippedIdempotent(s: string)
    ensures var t := WithoutDiacritics(WithoutAccents(s));
      && (forall i :: 0 <= i < |t| ==> !IsAccented(t[i]) && !IsOpeningMark(t[i]))
      && WithoutDiacritics(WithoutAccents(t)) == t
  {
    var t := WithoutDiacritics(WithoutAccents(s));
    WithoutAccentsAt(s);
    WithoutDiacriticsAt(WithoutAccents(s));
    forall i | 0 <= i < |t| ensures !IsAccented(t[i]) && !IsOpeningMark(t[i]) {
      assert t[i] == DiacriticFree(AccentFree(s[i]));
      StrippedChar(s[i]);
    }
    WithoutAccentsFixes(t);
    WithoutDiacriticsFixes(t);
  }

  // ----------------------------------------------------------------- vowels

  /**
   * The characters of `s` not in `drop`, in their original order: what
   * `remove_vowels` leaves, and the comprehension that `find_words` applies
   * to each key.
   */
  function Without(s: string, drop: set<char>): (r: string)
    ensures |r| <= |s|
    ensures forall c :: c in r <==> c in s && c !in drop
    ensures (forall i :: 0 <= i < |s| ==> s[i] !in drop) ==> r == s
  {
    if s == [] then []
    else if s[0] in drop then Without(s[1..], drop)
    else [s[0]] + Without(s[1..], drop)
  }

  /** The number of positions of `s` that hold a character of `drop`. */
  function CountIn(s: string, drop: set<char>): (n: nat)
  {
    if s == [] then 0 else (if s[0] in drop then 1 else 0) + CountIn(s[1..], drop)
  }

  lemma {:induction false} WithoutLength(s: string, drop: set<char>)
    ensures |Without(s, drop)| == |s| - CountIn(s, drop)
  {
    if s != [] {
      WithoutLength(s[1..], drop);
    }
  }

  /** Each kept character keeps its multiplicity; each dropped one is gone. */
  lemma {:induction false} WithoutMultiset(s: string, drop: set<char>, c: char)
    ensures multiset(Without(s, drop))[c] == if c in drop then 0 else multiset(s)[c]
  {
    if s != [] {
      WithoutMultiset(s[1..], drop, c);
      assert s == [s[0]] + s[1..];
    }
  }

  /** Filtering commutes with concatenation, so the original order is kept. */
  lemma {:induction false} WithoutAppend(a: string, b: string, drop: set<char>)
    ensures Without(a + b, drop) == Without(a, drop) + Without(b, drop)
  {
    if a == [] {
      assert a + b == b;
    } else {
      assert (a + b)[0] == a[0];
      assert (a + b)[1..] == a[1..] + b;
      WithoutAppend(a[1..], b, drop);
    }
  }

  lemma WithoutIdempotent(s: string, drop: set<char>)
    ensures Without(Without(s, drop), drop) == Without(s, drop)
  {
  }

  /** The result of `remove_vowels`. */
  function WithoutVowels(s: string): (r: string)
  {
    Without(s, AllVowels)
  }

  /** The list `remove_vowels` builds: one-letter strings, vowels blanked. */
  function Blanked(s: string): (parts: seq<string>)
  {
    seq(|s|, i requires 0 <= i < |s| => if s[i] in AllVowels then "" else [s[i]])
  }

  /** The blanked list of `s` is that of its head followed by that of its tail. */
  lemma BlankedCons(s: string)
    requires s != []
    ensures Blanked(s)[0] == (if s[0] in AllVowels then "" else [s[0]])
    ensures Blanked(s)[1..] == Blanked(s[1..])
  {
  }

  lemma {:induction false} JoinBlanked(s: string)
    ensures Join(Blanked(s)) == WithoutVowels(s)
  {
    if s != [] {
      BlankedCons(s);
      JoinBlanked(s[1..]);
    }
  }

  /** `remove_vowels`: blank each vowel of the letter list, then join it. */
  method RemoveVowels(word: string) returns (r: string)
    ensures r == WithoutVowels(word)
  {
    var letters := new string[|word|](i requires 0 <= i < |word| => [word[i]]);
    for i := 0 to letters.Length
      invariant forall j :: 0 <= j < i ==> letters[j] == Blanked(word)[j]
      invariant forall j :: i <= j < letters.Length ==> letters[j] == [word[j]]
    {
      if letters[i][0] in AllVowels {
        letters[i] := "";
      }
    }
    assert letters[..] == Blanked(word);
    JoinBlanked(word);
    r := Join(letters[..]);
  }

  // --------------------------------------------------------- missing vowels

  /** The vowels of "aeiou" that do not occur in `w`. */
  function MissingVowels(w: string): (r: set<char>)
  {
    set v | v in Vowels && v !in w
  }

  /** `get_missing_vowels`: collect the absent vowels in a string, then a set. */
  method GetMissingVowels(word: string) returns (r: set<char>)
    ensures forall v :: v in r <==> v in Vowels && v !in word
    ensures r == MissingVowels(word)
  {
    var missing: string := "";
    for k := 0 to |Vowels|
      invariant forall c :: c in missing <==> c in Vowels[..k] && c !in word
    {
      var vowel := Vowels[k];
      if vowel !in word {
        missing := missing + [vowel];
      }
    }
    assert Vowels[..|Vowels|] == Vowels;
    r := set c | c in missing;
  }

  // ---------------------------------------------------------- canonical key

  /**
   * The canonical key of a word or a pattern: `lower().strip()`, then
   * `remove_accents`, then `remove_diacritics`.
   */
  function Normalize(s: string): (r: string)
  {
    WithoutDiacritics(WithoutAccents(Strip(Lower(s))))
  }

  /**
   * The three cleaning steps that `build_dataset` applies to each word and
   * `find_words` to the pattern.
   */
  method Clean(text: string) returns (cleaned: string)
    ensures cleaned == Normalize(text)
    ensures |cleaned| <= |text|
  {
    cleaned := Strip(Lower(text));
    cleaned := RemoveAccents(cleaned);
    cleaned := RemoveDiacritics(cleaned);
    LowerAt(text);
    StripSpec(Lower(text));
    WithoutAccentsAt(Strip(Lower(text)));
    WithoutDiacriticsAt(WithoutAccents(Strip(Lower(text))));
  }

  /**
   * Cleaning never lengthens a string, and only `strip()` shortens it: a
   * string with no whitespace at either end keeps its length.
   */
  lemma NormalizeLength(s: string)
    ensures |Normalize(s)| <= |s|
    ensures s == [] || (!IsSpace(s[0]) && !IsSpace(s[|s| - 1])) ==> |Normalize(s)| == |s|
  {
    var l := Lower(s);
    LowerAt(s);
    StripSpec(l);
    if s != [] && !IsSpace(s[0]) && !IsSpace(s[|s| - 1]) {
      assert l[0] == LowerChar(s[0]) && l[|l| - 1] == LowerChar(s[|s| - 1]);
      StripTrimmed(l);
    }
    WithoutAccentsAt(Strip(l));
    WithoutDiacriticsAt(WithoutAccents(Strip(l)));
  }

  /** What a canonical key is made of. */
  predicate IsCanonical(k: string)
  {
    && (forall i :: 0 <= i < |k| ==> !IsUpper(k[i]) && !IsAccented(k[i]) && !IsOpeningMark(k[i]))
    && (k == [] || (!IsSpace(k[0]) && !IsSpace(k[|k| - 1])))
  }

  /** One character through both tables, once it has been lowered. */
  lemma CanonicalChar(c: char)
    requires !IsUpper(c)
    ensures var d := DiacriticFree(AccentFree(c));
      && !IsUpper(d) && !IsAccented(d) && !IsOpeningMark(d)
      && (IsSpace(d) <==> IsSpace(c))
  {
  }

  lemma LoweredStripped(s: string)
    ensures forall i :: 0 <= i < |Strip(Lower(s))| ==> !IsUpper(Strip(Lower(s))[i])
  {
    var l := Lower(s);
    var t := Strip(l);
    var lo := LeadingSpaces(l);
    LowerAt(s);
    StripSpec(l);
    forall i | 0 <= i < |t| ensures !IsUpper(t[i]) {
      assert t[i] == l[lo + i];
    }
  }

  lemma CanonicalChars(t: string)
    requires forall i :: 0 <= i < |t| ==> !IsUpper(t[i])
    ensures var k := WithoutDiacritics(WithoutAccents(t));
      |k| == |t| &&
      forall i :: 0 <= i < |k| ==>
        && !IsUpper(k[i]) && !IsAccented(k[i]) && !IsOpeningMark(k[i])
        && (IsSpace(k[i]) <==> IsSpace(t[i]))
  {
    var u := WithoutAccents(t);
    var k := WithoutDiacritics(u);
    WithoutAccentsAt(t);
    WithoutDiacriticsAt(u);
    forall i | 0 <= i < |k|
      ensures !IsUpper(k[i]) && !IsAccented(k[i]) && !IsOpeningMark(k[i])
      ensures IsSpace(k[i]) <==> IsSpace(t[i])
    {
      assert k[i] == DiacriticFree(AccentFree(t[i]));
      CanonicalChar(t[i]);
    }
  }

  lemma {:induction false} NormalizeIsCanonical(s: string)
    ensures IsCanonical(Normalize(s))
  {
    var t := Strip(Lower(s));
    LoweredStripped(s);
    StripSpec(Lower(s));
    CanonicalChars(t);
  }

  /** A canonical key is its own canonical key. */
  lemma {:induction false} CanonicalFixed(k: string)
    requires IsCanonical(k)
    ensures Normalize(k) == k
  {
    LowerFixes(k);
    StripTrimmed(k);
    WithoutAccentsFixes(k);
    WithoutDiacriticsFixes(k);
  }

  /** Normalising twice is normalising once. */
  lemma NormalizeIdempotent(s: string)
    ensures Normalize(Normalize(s)) == Normalize(s)
  {
    NormalizeIsCanonical(s);
    CanonicalFixed(Normalize(s));
  }
}
