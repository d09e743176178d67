/** The Python string operations the thumbnail script uses: `endswith`,
    `split` and `join` with a one-character separator, `replace`, and the
    code-point order that `list.sort` puts strings in. */
module Strings {

  predicate StartsWith(s: string, prefix: string)
  {
    |prefix| <= |s| && s[..|prefix|] == prefix
  }

  /** `s.endswith(suffix)`. */
  predicate EndsWith(s: string, suffix: string)
  {
    |suffix| <= |s| && s[|s| - |suffix|..] == suffix
  }

  /** `s.split(sep)` for a one-character separator: the pieces between
      separators, empty pieces kept, so there is always at least one. */
  function Split(s: string, sep: char): (parts: seq<string>)
    ensures |parts| >= 1
    ensures forall i :: 0 <= i < |parts| ==> sep !in parts[i]
  {
    if s == [] then [""]
    else
      var rest := Split(s[1..], sep);
      if s[0] == sep then [""] + rest else [[s[0]] + rest[0]] + rest[1..]
  }

  /** `sep.join(parts)`. */
  function Join(parts: seq<string>, sep: string): string
  {
    if parts == [] then ""
    else if |parts| == 1 then parts[0]
    else parts[0] + sep + Join(parts[1..], sep)
  }

  /** Joining the pieces with the separator gives back the string. */
  lemma {:induction false} JoinSplit(s: string, sep: char)
    ensures Join(Split(s, sep), [sep]) == s
  {
    if s != [] {
      var rest := Split(s[1..], sep);
      JoinSplit(s[1..], sep);
      if s[0] == sep {
        assert Split(s, sep)[1..] == rest;
      } else if |rest| == 1 {
        assert Split(s, sep) == [[s[0]] + rest[0]];
      } else {
        var parts := Split(s, sep);
        assert parts[1..] == rest[1..];
        assert Join(rest, [sep]) == rest[0] + [sep] + Join(rest[1..], [sep]);
      }
    }
  }

  /** What follows the first occurrence of `sep`; empty when there is none. */
  function AfterFirst(s: string, sep: char): string
  {
    if s == [] then []
    else if s[0] == sep then s[1..]
    else AfterFirst(s[1..], sep)
  }

  /** Every occurrence of one character replaced by another. */
  function MapChar(s: string, from: char, to: char): (r: string)
    ensures |r| == |s|
    ensures forall i :: 0 <= i < |s| ==> r[i] == if s[i] == from then to else s[i]
  {
    if s == [] then [] else [if s[0] == from then to else s[0]] + MapChar(s[1..], from, to)
  }

  /** Dropping the first piece and joining the rest with another separator is
      the text after the first separator, with every later separator replaced. */
  lemma {:induction false} JoinTail(s: string, sep: char, glue: char)
    ensures Join(Split(s, sep)[1..], [glue]) == MapChar(AfterFirst(s, sep), sep, glue)
  {
    if s != [] {
      var rest := Split(s[1..], sep);
      if s[0] == sep {
        assert Split(s, sep)[1..] == rest;
        JoinMapChar(rest, sep, glue);
        JoinSplit(s[1..], sep);
      } else {
        assert Split(s, sep)[1..] == rest[1..];
        JoinTail(s[1..], sep, glue);
      }
    }
  }

  lemma {:induction false} JoinMapChar(parts: seq<string>, sep: char, glue: char)
    requires forall i :: 0 <= i < |parts| ==> sep !in parts[i]
    ensures Join(parts, [glue]) == MapChar(Join(parts, [sep]), sep, glue)
  {
    if parts != [] {
      var a := parts[0];
      MapCharUntouched(a, sep, glue);
      if |parts| > 1 {
        var rest := Join(parts[1..], [sep]);
        JoinMapChar(parts[1..], sep, glue);
        assert MapChar(rest, sep, glue) == Join(parts[1..], [glue]);
        MapCharConcat(a + [sep], rest, sep, glue);
        MapCharConcat(a, [sep], sep, glue);
        assert MapChar([sep], sep, glue) == [glue];
        assert MapChar(a + [sep], sep, glue) == a + [glue];
      }
    }
  }

  lemma MapCharUntouched(s: string, from: char, to: char)
    requires from !in s
    ensures MapChar(s, from, to) == s
  {
  }

  lemma MapCharConcat(a: string, b: string, from: char, to: char)
    ensures MapChar(a + b, from, to) == MapChar(a, from, to) + MapChar(b, from, to)
  {
  }

  /** `s.replace(pat, rep)`: scanning left to right, each occurrence that
      does not overlap an earlier one is replaced. */
  function Replace(s: string, pat: string, rep: string): string
    requires |pat| > 0
    decreases |s|
  {
    if |s| < |pat| then s
    else if s[..|pat|] == pat then rep + Replace(s[|pat|..], pat, rep)
    else [s[0]] + Replace(s[1..], pat, rep)
  }

  /** Replacing a one-character string replaces every occurrence of the character. */
  lemma {:induction false} ReplaceChar(s: string, from: char, to: char)
    ensures Replace(s, [from], [to]) == MapChar(s, from, to)
    decreases |s|
  {
    if s != [] {
      ReplaceChar(s[1..], from, to);
    }
  }

  /** `pat` occurs in `s` starting at position i. */
  predicate OccursAt(s: string, pat: string, i: int)
  {
    0 <= i && i + |pat| <= |s| && s[i..i + |pat|] == pat
  }

  /** No proper prefix of `pat` is also a suffix of it, so two occurrences of
      `pat` can never overlap. */
  predicate Borderless(pat: string)
  {
    forall k :: 0 < k < |pat| ==> pat[k..] != pat[..|pat| - k]
  }

  /** With a borderless pattern, an occurrence appended at the end is
      replaced on its own: no occurrence can straddle the seam. */
  lemma {:induction false} ReplaceAppend(a: string, pat: string, rep: string)
    requires |pat| > 0 && Borderless(pat)
    ensures Replace(a + pat, pat, rep) == Replace(a, pat, rep) + rep
    decreases |a|
  {
    if a == [] {
      assert a + pat == pat && pat[|pat|..] == [];
    } else if |pat| <= |a| && a[..|pat|] == pat {
      ReplaceAppend(a[|pat|..], pat, rep);
      AppendAfterMatch(a, pat, rep);
    } else {
      if |a| < |pat| {
        NoSeamMatch(a, pat);
      } else {
        assert (a + pat)[..|pat|] == a[..|pat|];
      }
      ReplaceAppend(a[1..], pat, rep);
      var c, t := a[0], a[1..];
      assert a == [c] + t;
      assert a + pat == [c] + (t + pat);
      AppendAfterSkip(c, t, pat, rep);
    }
  }

  /** The step of `ReplaceAppend` where `a` starts with the pattern. */
  lemma AppendAfterMatch(a: string, pat: string, rep: string)
    requires 0 < |pat| <= |a| && a[..|pat|] == pat
    requires Replace(a[|pat|..] + pat, pat, rep) == Replace(a[|pat|..], pat, rep) + rep
    ensures Replace(a + pat, pat, rep) == Replace(a, pat, rep) + rep
  {
    var s := a + pat;
    assert s[..|pat|] == a[..|pat|];
    assert s[|pat|..] == a[|pat|..] + pat;
  }

  /** The step of `ReplaceAppend` where the first character `c` is copied
      unchanged. */
  lemma AppendAfterSkip(c: char, t: string, pat: string, rep: string)
    requires |pat| > 0
    requires |[c] + t| < |pat| || ([c] + t)[..|pat|] != pat
    requires ([c] + (t + pat))[..|pat|] != pat
    requires Replace(t + pat, pat, rep) == Replace(t, pat, rep) + rep
    ensures Replace([c] + (t + pat), pat, rep) == Replace([c] + t, pat, rep) + rep
  {
    ReplaceSkip(c, t + pat, pat, rep);
    ReplaceSkip(c, t, pat, rep);
    var tail := Replace(t, pat, rep);
    assert [c] + (tail + rep) == ([c] + tail) + rep;
  }

  /** A text shorter than the pattern, followed by the pattern, does not
      start with the pattern. */
  lemma NoSeamMatch(a: string, pat: string)
    requires Borderless(pat) && 0 < |a| < |pat|
    ensures (a + pat)[..|pat|] != pat
  {
    var k := |a|;
    assert (a + pat)[..|pat|][k..] == pat[..|pat| - k];
  }

  /** Where the text does not start with the pattern, its first character is
      copied unchanged. */
  lemma ReplaceSkip(c: char, t: string, pat: string, rep: string)
    requires |pat| > 0
    requires |[c] + t| < |pat| || ([c] + t)[..|pat|] != pat
    ensures Replace([c] + t, pat, rep) == [c] + Replace(t, pat, rep)
  {
    assert ([c] + t)[1..] == t;
  }

  /** Text appended after the first separator stays after it. */
  lemma {:induction false} AfterFirstAppend(s: string, t: string, sep: char)
    requires sep in s
    ensures AfterFirst(s + t, sep) == AfterFirst(s, sep) + t
  {
    assert (s + t)[0] == s[0];
    if s[0] == sep {
      assert (s + t)[1..] == s[1..] + t;
    } else {
      assert (s + t)[1..] == s[1..] + t;
      AfterFirstAppend(s[1..], t, sep);
    }
  }

  /** Nothing changes where the pattern does not occur. */
  lemma {:induction false} ReplaceAbsent(s: string, pat: string, rep: string)
    requires |pat| > 0
    requires forall i :: !OccursAt(s, pat, i)
    ensures Replace(s, pat, rep) == s
    decreases |s|
  {
    if |s| >= |pat| {
      assert !OccursAt(s, pat, 0);
      forall i
        ensures !OccursAt(s[1..], pat, i)
      {
        if OccursAt(s[1..], pat, i) {
          assert s[1..][i..i + |pat|] == s[i + 1..i + 1 + |pat|];
          assert OccursAt(s, pat, i + 1);
        }
      }
      ReplaceAbsent(s[1..], pat, rep);
    }
  }

  // ----- the order of list.sort() on strings -----

  /** Lexicographic order by code point, as Python compares strings. */
  predicate LexLe(a: string, b: string)
    decreases |a|
  {
    a == [] || (b != [] && (a[0] < b[0] || (a[0] == b[0] && LexLe(a[1..], b[1..]))))
  }

  lemma {:induction false} LexRefl(a: string)
    ensures LexLe(a, a)
    decreases |a|
  {
    if a != [] {
      LexRefl(a[1..]);
    }
  }

  lemma {:induction false} LexTotal(a: string, b: string)
    ensures LexLe(a, b) || LexLe(b, a)
    decreases |a|
  {
    if a != [] && b != [] && a[0] == b[0] {
      LexTotal(a[1..], b[1..]);
    }
  }

  lemma {:induction false} LexTrans(a: string, b: string, c: string)
    requires LexLe(a, b) && LexLe(b, c)
    ensures LexLe(a, c)
    decreases |a|
  {
    if a != [] && a[0] == b[0] && b[0] == c[0] {
      LexTrans(a[1..], b[1..], c[1..]);
    }
  }

  lemma {:induction false} LexAntisym(a: string, b: string)
    requires LexLe(a, b) && LexLe(b, a)
    ensures a == b
    decreases |a|
  {
    if a != [] {
      LexAntisym(a[1..], b[1..]);
      assert a == [a[0]] + a[1..] && b == [b[0]] + b[1..];
    }
  }

  predicate Sorted(s: seq<string>)
  {
    forall i, j :: 0 <= i < j < |s| ==> LexLe(s[i], s[j])
  }

  /** One step of insertion sort: `x` goes before the first entry it does not
      follow. */
  function Insert(x: string, s: seq<string>): (r: seq<string>)
    requires Sorted(s)
    ensures Sorted(r)
    ensures multiset(r) == multiset(s) + multiset{x}
    ensures forall y :: y in r ==> y == x || y in s
  {
    if s == [] then [x]
    else if LexLe(x, s[0]) then
      assert forall j :: 0 <= j < |s| ==> LexLe(x, s[j]) by {
        forall j | 0 <= j < |s| ensures LexLe(x, s[j]) {
          if j > 0 { LexTrans(x, s[0], s[j]); }
        }
      }
      [x] + s
    else
      LexTotal(x, s[0]);
      var rest := Insert(x, s[1..]);
      assert s == [s[0]] + s[1..];
      assert forall y :: y in rest ==> LexLe(s[0], y);
      [s[0]] + rest
  }

  /** `list.sort()`: the same strings, in ascending order. */
  function Sort(s: seq<string>): (r: seq<string>)
    ensures Sorted(r)
    ensures multiset(r) == multiset(s)
  {
    if s == [] then []
    else
      assert s == [s[0]] + s[1..];
      Insert(s[0], Sort(s[1..]))
  }

  lemma SortedHeadLeast(a: seq<string>, x: string)
    requires Sorted(a) && a != [] && x in a
    ensures LexLe(a[0], x)
  {
    var i :| 0 <= i < |a| && a[i] == x;
    if i == 0 {
      LexRefl(x);
    }
  }

  lemma TailMultiset(a: seq<string>)
    requires a != []
    ensures multiset(a[1..]) == multiset(a) - multiset{a[0]}
  {
    assert a == [a[0]] + a[1..];
  }

  /** Any two sorted arrangements of the same strings are equal: the sorted
      order is unique. */
  lemma {:induction false} SortedUnique(a: seq<string>, b: seq<string>)
    requires Sorted(a) && Sorted(b) && multiset(a) == multiset(b)
    ensures a == b
  {
    if a != [] {
      assert a[0] in multiset(b) && b[0] in multiset(a);
      assert b != [];
      HeadsEqual(a, b);
      var ta, tb := a[1..], b[1..];
      assert multiset(ta) == multiset(tb) by {
        TailMultiset(a);
        TailMultiset(b);
      }
      SortedTail(a);
      SortedTail(b);
      SortedUnique(ta, tb);
      assert a == [a[0]] + ta && b == [b[0]] + tb;
    }
  }

  lemma HeadsEqual(a: seq<string>, b: seq<string>)
    requires Sorted(a) && Sorted(b) && a != [] && b != []
    requires a[0] in b && b[0] in a
    ensures a[0] == b[0]
  {
    SortedHeadLeast(a, b[0]);
    SortedHeadLeast(b, a[0]);
    LexAntisym(a[0], b[0]);
  }

  lemma SortedTail(a: seq<string>)
    requires Sorted(a) && a != []
    ensures Sorted(a[1..])
  {
  }
}
