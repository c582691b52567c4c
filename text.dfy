/**
 * The Python string built-ins that the word finder relies on: `str.lower()`,
 * `str.strip()`, `''.join(...)` and `sorted(...)` on a string.  Each is
 * modelled as a pure function on `seq<char>`.
 */
module TextBuiltins {

  /** Python's `str.isspace()`: the characters `str.strip()` removes. */
  predicate IsSpace(c: char)
  {
    || c == ' ' || c == '\t' || c == '\n' || c == '\r'
    || c == '\U{0B}' || c == '\U{0C}'
    || ('\U{1C}' <= c <= '\U{1F}')
    || c == '\U{85}' || c == '\U{A0}' || c == '\U{1680}'
    || ('\U{2000}' <= c <= '\U{200A}')
    || c == '\U{2028}' || c == '\U{2029}' || c == '\U{202F}' || c == '\U{205F}'
    || c == '\U{3000}'
  }

  /**
   * The capital letters the model knows how to lower: ASCII `A`..`Z` and the
   * Latin-1 capitals U+00C0..U+00DE (all but the sign U+00D7), which include
   * the accented capitals of Spanish.
   */
  predicate IsUpper(c: char)
  {
    ('A' <= c <= 'Z') || ('\U{C0}' <= c <= '\U{DE}' && c != '\U{D7}')
  }

  function LowerChar(c: char): (r: char)
    ensures !IsUpper(r)
    ensures IsSpace(r) <==> IsSpace(c)
    ensures !IsUpper(c) ==> r == c
  {
    if IsUpper(c) then (c as int + 32) as char else c
  }

  /** `str.lower()`, one character at a time. */
  function Lower(s: string): (r: string)
  {
    if s == [] then [] else [LowerChar(s[0])] + Lower(s[1..])
  }

  lemma {:induction false} LowerAt(s: string)
    ensures |Lower(s)| == |s|
    ensures forall i :: 0 <= i < |s| ==> Lower(s)[i] == LowerChar(s[i])
  {
    if s != [] {
      LowerAt(s[1..]);
    }
  }

  /** A string without capitals is its own `lower()`. */
  lemma {:induction false} LowerFixes(s: string)
    requires forall i :: 0 <= i < |s| ==> !IsUpper(s[i])
    ensures Lower(s) == s
  {
    if s != [] {
      LowerFixes(s[1..]);
      assert s == [s[0]] + s[1..];
    }
  }

  /** How many whitespace characters open `s`. */
  function LeadingSpaces(s: string): (n: nat)
    ensures n <= |s|
  {
    if s != [] && IsSpace(s[0]) then 1 + LeadingSpaces(s[1..]) else 0
  }

  /** How many whitespace characters close `s`. */
  function TrailingSpaces(s: string): (n: nat)
    ensures n <= |s|
  {
    if s != [] && IsSpace(s[|s| - 1]) then 1 + TrailingSpaces(s[..|s| - 1]) else 0
  }

  lemma {:induction false} LeadingSpacesAre(s: string)
    ensures forall i :: 0 <= i < LeadingSpaces(s) ==> IsSpace(s[i])
    ensures LeadingSpaces(s) < |s| ==> !IsSpace(s[LeadingSpaces(s)])
  {
    if s != [] && IsSpace(s[0]) {
      LeadingSpacesAre(s[1..]);
    }
  }

  lemma {:induction false} TrailingSpacesAre(s: string)
    ensures forall i :: |s| - TrailingSpaces(s) <= i < |s| ==> IsSpace(s[i])
    ensures TrailingSpaces(s) < |s| ==> !IsSpace(s[|s| - TrailingSpaces(s) - 1])
  {
    if s != [] && IsSpace(s[|s| - 1]) {
      TrailingSpacesAre(s[..|s| - 1]);
    }
  }

  /** `str.strip()`: `s` without the whitespace at either end. */
  function Strip(s: string): (r: string)
  {
    var t := s[LeadingSpaces(s)..];
    t[..|t| - TrailingSpaces(t)]
  }

  /** `strip()` keeps a contiguous infix of `s`, starting after its leading whitespace. */
  lemma StripInfix(s: string)
    ensures var r, lo := Strip(s), LeadingSpaces(s);
      && lo + |r| <= |s|
      && (forall i :: 0 <= i < |r| ==> r[i] == s[lo + i])
  {
  }

  /** What `strip()` removes is whitespace. */
  lemma StripRemovesSpaces(s: string)
    ensures var r, lo := Strip(s), LeadingSpaces(s);
      && (forall i :: 0 <= i < lo ==> IsSpace(s[i]))
      && (forall i :: lo + |r| <= i < |s| ==> IsSpace(s[i]))
  {
    var lo := LeadingSpaces(s);
    var t := s[lo..];
    var r := Strip(s);
    LeadingSpacesAre(s);
    TrailingSpacesAre(t);
    forall i | lo + |r| <= i < |s| ensures IsSpace(s[i]) {
      assert s[i] == t[i - lo];
    }
  }

  /** What `strip()` keeps neither starts nor ends with whitespace. */
  lemma StripEnds(s: string)
    ensures var r := Strip(s);
      r == [] || (!IsSpace(r[0]) && !IsSpace(r[|r| - 1]))
  {
    var lo := LeadingSpaces(s);
    var t := s[lo..];
    var r := Strip(s);
    LeadingSpacesAre(s);
    TrailingSpacesAre(t);
    if r != [] {
      assert r[0] == s[lo];
      assert r[|r| - 1] == t[|t| - TrailingSpaces(t) - 1];
    }
  }

  /**
   * `strip()` keeps an infix of `s`, removes only whitespace, and leaves no
   * whitespace at either end.
   */
  lemma StripSpec(s: string)
    ensures var r, lo := Strip(s), LeadingSpaces(s);
      && lo + |r| <= |s|
      && (forall i :: 0 <= i < |r| ==> r[i] == s[lo + i])
      && (forall i :: 0 <= i < lo ==> IsSpace(s[i]))
      && (forall i :: lo + |r| <= i < |s| ==> IsSpace(s[i]))
      && (r == [] || (!IsSpace(r[0]) && !IsSpace(r[|r| - 1])))
  {
    StripInfix(s);
    StripRemovesSpaces(s);
    StripEnds(s);
  }

  /** A string with no whitespace at either end is its own `strip()`. */
  lemma StripTrimmed(s: string)
    requires s == [] || (!IsSpace(s[0]) && !IsSpace(s[|s| - 1]))
    ensures Strip(s) == s
  {
  }

  /** `''.join(parts)`. */
  function Join(parts: seq<string>): (r: string)
    ensures |r| == 0 <==> forall i :: 0 <= i < |parts| ==> parts[i] == []
  {
    if parts == [] then [] else parts[0] + Join(parts[1..])
  }

  /** Characters in non-decreasing code-point order, as `sorted` leaves them. */
  predicate SortedChars(s: string)
  {
    forall i, j :: 0 <= i < j < |s| ==> s[i] <= s[j]
  }

  /** Every character of `s` is at least `x`. */
  predicate AtLeast(x: char, s: string)
  {
    forall i :: 0 <= i < |s| ==> x <= s[i]
  }

  lemma AtLeastByMultiset(x: char, s: string, t: string)
    requires AtLeast(x, s)
    requires forall c :: c in multiset(t) ==> c in multiset(s)
    ensures AtLeast(x, t)
  {
    forall i | 0 <= i < |t| ensures x <= t[i] {
      assert t[i] in multiset(t);
      var k :| 0 <= k < |s| && s[k] == t[i];
    }
  }

  lemma AtLeastAfterInsert(x: char, c: char, s: string, t: string)
    requires AtLeast(x, s) && x <= c
    requires multiset(t) == multiset(s) + multiset{c}
    ensures AtLeast(x, t)
  {
    forall i | 0 <= i < |t| ensures x <= t[i] {
      assert t[i] in multiset(t);
      if t[i] != c {
        assert t[i] in multiset(s);
        var k :| 0 <= k < |s| && s[k] == t[i];
      }
    }
  }

  /** The head of a sorted string is its least character, and its tail is sorted. */
  lemma SortedSplit(s: string)
    requires SortedChars(s) && s != []
    ensures AtLeast(s[0], s[1..]) && SortedChars(s[1..])
  {
  }

  lemma SortedCons(x: char, t: string)
    requires AtLeast(x, t) && SortedChars(t)
    ensures SortedChars([x] + t)
  {
  }

  /** One step of insertion sort: put `c` before the first character above it. */
  function InsertChar(c: char, s: string): (r: string)
  {
    if s == [] then [c]
    else if c <= s[0] then [c] + s
    else [s[0]] + InsertChar(c, s[1..])
  }

  lemma {:induction false} InsertCharSameChars(c: char, s: string)
    ensures multiset(InsertChar(c, s)) == multiset(s) + multiset{c}
  {
    if s != [] && c > s[0] {
      InsertCharSameChars(c, s[1..]);
      assert s == [s[0]] + s[1..];
    }
  }

  lemma {:induction false} InsertCharSorted(c: char, s: string)
    requires SortedChars(s)
    ensures SortedChars(InsertChar(c, s))
  {
    if s == [] {
    } else if c <= s[0] {
      SortedCons(c, s);
    } else {
      var rest := InsertChar(c, s[1..]);
      SortedSplit(s);
      InsertCharSorted(c, s[1..]);
      InsertCharSameChars(c, s[1..]);
      AtLeastAfterInsert(s[0], c, s[1..], rest);
      SortedCons(s[0], rest);
    }
  }

  /** `sorted(s)` on a string, as an insertion sort. */
  function SortChars(s: string): (r: string)
  {
    if s == [] then [] else InsertChar(s[0], SortChars(s[1..]))
  }

  /** `sorted` returns the characters of its argument, in order. */
  lemma {:induction false} SortCharsSorts(s: string)
    ensures SortedChars(SortChars(s))
    ensures multiset(SortChars(s)) == multiset(s)
  {
    if s != [] {
      SortCharsSorts(s[1..]);
      InsertCharSorted(s[0], SortChars(s[1..]));
      InsertCharSameChars(s[0], SortChars(s[1..]));
      assert s == [s[0]] + s[1..];
    }
  }

  lemma SortedHeads(a: string, b: string)
    requires SortedChars(a) && SortedChars(b)
    requires multiset(a) == multiset(b) && a != []
    ensures b != [] && a[0] == b[0]
  {
    assert a[0] in multiset(b);
    assert AtLeast(a[0], a) && AtLeast(b[0], b);
    AtLeastByMultiset(a[0], a, b);
    AtLeastByMultiset(b[0], b, a);
  }

  lemma TailsSameChars(a: string, b: string)
    requires a != [] && b != [] && a[0] == b[0]
    requires multiset(a) == multiset(b)
    ensures multiset(a[1..]) == multiset(b[1..])
  {
    assert a == [a[0]] + a[1..];
    assert b == [b[0]] + b[1..];
    assert multiset(a[1..]) == multiset(a) - multiset{a[0]};
    assert multiset(b[1..]) == multiset(b) - multiset{b[0]};
  }

  /** Two sorted strings with the same characters are the same string. */
  lemma {:induction false} SortedUnique(a: string, b: string)
    requires SortedChars(a) && SortedChars(b)
    requires multiset(a) == multiset(b)
    ensures a == b
  {
    if a == [] {
      assert |b| == |multiset(b)| == 0;
    } else {
      SortedHeads(a, b);
      TailsSameChars(a, b);
      SortedUnique(a[1..], b[1..]);
      assert a == [a[0]] + a[1..];
      assert b == [b[0]] + b[1..];
    }
  }

  /** `sorted(a) == sorted(b)` exactly when `a` and `b` are permutations of each other. */
  lemma SortCharsEqualIff(a: string, b: string)
    ensures SortChars(a) == SortChars(b) <==> multiset(a) == multiset(b)
  {
    SortCharsSorts(a);
    SortCharsSorts(b);
    if multiset(a) == multiset(b) {
      SortedUnique(SortChars(a), SortChars(b));
    }
  }
}
