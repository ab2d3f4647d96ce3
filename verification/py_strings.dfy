/** The Python `str` operations the bot relies on, restricted to ASCII:
    `lower()`, `upper()`, `in`, `startswith`, `replace`, `split()`,
    `split(maxsplit=1)` and `" ".join(...)`. Each is a plain recursive or
    comprehension definition; the lemmas below relate them to each other
    (split/join round trip, replace versus `in`, and so on). */
module PyStrings {

  /** `str.isspace()` on an ASCII character: the space, the controls
      \t \n \v \f \r (9..13) and the separators 0x1C..0x1F. */
  predicate IsSpace(c: char) {
    c == ' ' || (9 <= c as int <= 13) || (28 <= c as int <= 31)
  }

  function LowerChar(c: char): char {
    if 'A' <= c <= 'Z' then (c as int + 32) as char else c
  }

  function UpperChar(c: char): char {
    if 'a' <= c <= 'z' then (c as int - 32) as char else c
  }

  /** `s.lower()`: the same length, each character case-mapped, and no
      upper-case ASCII letter left. */
  function Lower(s: string): (r: string)
    ensures |r| == |s|
    ensures forall i :: 0 <= i < |s| ==> r[i] == LowerChar(s[i])
    ensures forall i :: 0 <= i < |r| ==> !('A' <= r[i] <= 'Z')
  {
    seq(|s|, i requires 0 <= i < |s| => LowerChar(s[i]))
  }

  /** `s.upper()`: the same length, each character case-mapped, and no
      lower-case ASCII letter left. */
  function Upper(s: string): (r: string)
    ensures |r| == |s|
    ensures forall i :: 0 <= i < |s| ==> r[i] == UpperChar(s[i])
    ensures forall i :: 0 <= i < |r| ==> !('a' <= r[i] <= 'z')
  {
    seq(|s|, i requires 0 <= i < |s| => UpperChar(s[i]))
  }

  /** Lower-casing forgets the casing: the upper-case form of a string
      lower-cases to the same text as the string itself. */
  lemma LowerOfUpper(s: string)
    ensures Lower(Upper(s)) == Lower(s)
  {
  }

  /** `p` occurs in `s` starting at index `i`. */
  predicate OccursAt(s: string, p: string, i: int) {
    0 <= i && i + |p| <= |s| && s[i..i + |p|] == p
  }

  /** `s.startswith(p)`: `p` occurs at index 0. */
  function StartsWith(s: string, p: string): (b: bool)
    ensures b <==> OccursAt(s, p, 0)
  {
    |p| <= |s| && s[..|p|] == p
  }

  /** `s.startswith(p)` holds exactly when `s` is `p` followed by some
      text. */
  lemma StartsWithIsPrefix(s: string, p: string)
    ensures StartsWith(s, p) <==> exists t :: s == p + t
  {
    if StartsWith(s, p) {
      assert s == p + s[|p|..];
    }
    forall t | s == p + t
      ensures StartsWith(s, p)
    {
      assert s[..|p|] == p;
    }
  }

  /** `p in s`: scans the start positions of `s` from the left. */
  function Contains(s: string, p: string): (b: bool)
    ensures b <==> exists i :: OccursAt(s, p, i)
    decreases |s|
  {
    if |p| > |s| then false
    else if StartsWith(s, p) then (assert OccursAt(s, p, 0); true)
    else
      ShiftOccurrence(s, p);
      Contains(s[1..], p)
  }

  /** An occurrence in `s[1..]` is an occurrence in `s` one place later,
      and every occurrence in `s` other than at 0 arises that way. */
  lemma ShiftOccurrence(s: string, p: string)
    requires s != []
    ensures forall i :: OccursAt(s[1..], p, i) ==> OccursAt(s, p, i + 1)
    ensures forall i :: 1 <= i && OccursAt(s, p, i) ==> OccursAt(s[1..], p, i - 1)
  {
    forall i | OccursAt(s[1..], p, i)
      ensures OccursAt(s, p, i + 1)
    {
      assert s[1..][i..i + |p|] == s[i + 1..i + 1 + |p|];
    }
    forall i | 1 <= i && OccursAt(s, p, i)
      ensures OccursAt(s[1..], p, i - 1)
    {
      assert s[1..][i - 1..i - 1 + |p|] == s[i..i + |p|];
    }
  }

  /** `s.replace(p, r)`: the occurrences of `p` found by a left-to-right scan
      that resumes after each match (so they never overlap) are replaced by
      `r`. An empty `p` matches before every character and at the end. */
  function Replace(s: string, p: string, r: string): (out: string)
    ensures |r| <= |p| ==> |out| <= |s|
    ensures |r| == |p| ==> |out| == |s|
    decreases |s|
  {
    if p == [] then
      if s == [] then r else r + [s[0]] + Replace(s[1..], p, r)
    else if |s| < |p| then s
    else if StartsWith(s, p) then r + Replace(s[|p|..], p, r)
    else [s[0]] + Replace(s[1..], p, r)
  }

  /** `s.strip()` restricted to the left end. */
  function LStrip(s: string): (t: string)
    ensures |t| <= |s| && t == s[|s| - |t|..]
    ensures t == [] || !IsSpace(t[0])
    ensures forall i :: 0 <= i < |s| - |t| ==> IsSpace(s[i])
    decreases |s|
  {
    if s != [] && IsSpace(s[0]) then LStrip(s[1..]) else s
  }

  /** Length of the run of non-whitespace characters that starts `s`. */
  function TokenLen(s: string): (k: nat)
    ensures k <= |s|
    ensures forall i :: 0 <= i < k ==> !IsSpace(s[i])
    ensures k < |s| ==> IsSpace(s[k])
    decreases |s|
  {
    if s == [] || IsSpace(s[0]) then 0 else 1 + TokenLen(s[1..])
  }

  /** A non-empty string without whitespace: what `split()` returns. */
  predicate IsWord(w: string) {
    w != [] && forall i :: 0 <= i < |w| ==> !IsSpace(w[i])
  }

  /** `s.split()` with no separator: the maximal runs of non-whitespace
      characters of `s`, in order. */
  function Split(s: string): (parts: seq<string>)
    ensures forall j :: 0 <= j < |parts| ==> IsWord(parts[j])
    decreases |s|
  {
    if s == [] then []
    else if IsSpace(s[0]) then Split(s[1..])
    else
      var k := TokenLen(s);
      [s[..k]] + Split(s[k..])
  }

  /** `s.split(maxsplit=1)`: the first word, then what follows the
      whitespace run after it (trailing whitespace kept); an empty
      remainder is not returned. */
  function SplitOnce(s: string): (parts: seq<string>)
    ensures |parts| <= 2
  {
    var t := LStrip(s);
    if t == [] then []
    else
      var k := TokenLen(t);
      var rest := LStrip(t[k..]);
      if rest == [] then [t[..k]] else [t[..k], rest]
  }

  /** `a` is a tail of `b`. */
  predicate IsSuffix(a: string, b: string) {
    |a| <= |b| && a == b[|b| - |a|..]
  }

  /** A suffix of a suffix is a suffix. */
  lemma SuffixOfSuffix(a: string, b: string, c: string)
    requires IsSuffix(b, a) && IsSuffix(c, b)
    ensures IsSuffix(c, a)
  {
  }

  /** `" ".join(parts)`: the parts with one separator between neighbours. */
  function JoinSpace(parts: seq<string>): (r: string)
    ensures parts != [] ==> |r| == |Concat(parts)| + |parts| - 1
  {
    if |parts| == 0 then []
    else if |parts| == 1 then parts[0]
    else parts[0] + " " + JoinSpace(parts[1..])
  }

  /** Whitespace at index `i`, if any, is a single space followed by a
      non-whitespace character. */
  predicate SingleSpaceAt(s: string, i: int)
    requires 0 <= i < |s|
  {
    IsSpace(s[i]) ==> s[i] == ' ' && i + 1 < |s| && !IsSpace(s[i + 1])
  }

  /** No leading or trailing whitespace, and every whitespace character is a
      single space followed by a non-whitespace character. */
  predicate WellSpaced(s: string) {
    && (s == [] || !IsSpace(s[0]))
    && forall i :: 0 <= i < |s| ==> SingleSpaceAt(s, i)
  }

  /** `" ".join(s.split())`: every whitespace run collapsed to one space and
      the ends trimmed. */
  function Normalize(s: string): (r: string)
    ensures WellSpaced(r)
  {
    JoinWellSpaced(Split(s));
    JoinSpace(Split(s))
  }

  /** The characters of `s` that are not whitespace, in order. */
  function NonSpace(s: string): string
    decreases |s|
  {
    if s == [] then []
    else if IsSpace(s[0]) then NonSpace(s[1..])
    else [s[0]] + NonSpace(s[1..])
  }

  function Concat(parts: seq<string>): string {
    if parts == [] then [] else parts[0] + Concat(parts[1..])
  }

  // ---------------------------------------------------------------------
  // Split and join

  lemma {:induction false} JoinWellSpaced(parts: seq<string>)
    requires forall j :: 0 <= j < |parts| ==> IsWord(parts[j])
    ensures WellSpaced(JoinSpace(parts))
    ensures parts != [] ==> JoinSpace(parts) != [] && !IsSpace(JoinSpace(parts)[0])
    decreases |parts|
  {
    if |parts| >= 2 {
      var w := parts[0];
      var tail := JoinSpace(parts[1..]);
      JoinWellSpaced(parts[1..]);
      var s := w + " " + tail;
      assert s == JoinSpace(parts);
      assert forall i :: 0 <= i < |w| ==> s[i] == w[i];
      forall i | |w| <= i < |s|
        ensures SingleSpaceAt(s, i)
      {
        if i == |w| {
          assert s[i + 1] == tail[0];
        } else {
          assert SingleSpaceAt(tail, i - |w| - 1);
          assert s[i] == tail[i - |w| - 1];
          if i + 1 < |s| {
            assert s[i + 1] == tail[i - |w|];
          }
        }
      }
    }
  }

  lemma {:induction false} TokenLenOfWord(w: string, t: string)
    requires forall i :: 0 <= i < |w| ==> !IsSpace(w[i])
    requires t == [] || IsSpace(t[0])
    ensures TokenLen(w + t) == |w|
    decreases |w|
  {
    if w != [] {
      assert (w + t)[1..] == w[1..] + t;
      TokenLenOfWord(w[1..], t);
    }
  }

  /** Splitting a word followed by a whitespace character or nothing yields
      the word and then the split of what follows. */
  lemma SplitAfterWord(w: string, t: string)
    requires IsWord(w)
    requires t == [] || IsSpace(t[0])
    ensures Split(w + t) == [w] + Split(t)
  {
    TokenLenOfWord(w, t);
    assert (w + t)[..|w|] == w;
    assert (w + t)[|w|..] == t;
  }

  /** Round trip: splitting a join of words gives the words back. */
  lemma {:induction false} SplitJoin(parts: seq<string>)
    requires forall j :: 0 <= j < |parts| ==> IsWord(parts[j])
    ensures Split(JoinSpace(parts)) == parts
    decreases |parts|
  {
    if |parts| == 1 {
      SplitAfterWord(parts[0], []);
      assert parts[0] + [] == parts[0];
    } else if |parts| >= 2 {
      var tail := JoinSpace(parts[1..]);
      SplitJoin(parts[1..]);
      JoinSpaceCons(parts);
      SplitAfterWord(parts[0], " " + tail);
      SplitAfterSpace(tail);
      assert [parts[0]] + parts[1..] == parts;
    }
  }

  /** A join of two or more parts is the first part, a space, and the join
      of the rest. */
  lemma JoinSpaceCons(parts: seq<string>)
    requires |parts| >= 2
    ensures JoinSpace(parts) == parts[0] + (" " + JoinSpace(parts[1..]))
  {
    assert parts[0] + " " + JoinSpace(parts[1..]) == parts[0] + (" " + JoinSpace(parts[1..]));
  }

  /** A leading space does not change the words. */
  lemma SplitAfterSpace(t: string)
    ensures Split(" " + t) == Split(t)
  {
    assert (" " + t)[1..] == t;
  }

  /** Normalising twice is normalising once. */
  lemma NormalizeIdempotent(s: string)
    ensures Normalize(Normalize(s)) == Normalize(s)
  {
    SplitJoin(Split(s));
  }

  /** A string that is already well spaced is left as it is. */
  lemma {:induction false} NormalizeWellSpaced(s: string)
    requires WellSpaced(s)
    ensures Normalize(s) == s
    decreases |s|
  {
    if s != [] {
      var k := TokenLen(s);
      var w := s[..k];
      var t := s[k..];
      WellSpacedFirstWord(s);
      SplitAfterWord(w, t);
      if t != [] {
        var u := t[1..];
        WellSpacedRest(s);
        NormalizeWellSpaced(u);
        assert Split(t) == Split(u);
        assert JoinSpace([w] + Split(u)) == w + " " + JoinSpace(Split(u));
        assert w + " " + u == s;
      } else {
        assert [w] + Split(t) == [w];
      }
    }
  }

  /** A well-spaced string starts with a word, followed by nothing or by
      whitespace. */
  lemma WellSpacedFirstWord(s: string)
    requires WellSpaced(s)
    requires s != []
    ensures IsWord(s[..TokenLen(s)])
    ensures s == s[..TokenLen(s)] + s[TokenLen(s)..]
    ensures s[TokenLen(s)..] == [] || IsSpace(s[TokenLen(s)..][0])
  {
    var k := TokenLen(s);
    var w := s[..k];
    forall i | 0 <= i < |w|
      ensures !IsSpace(w[i])
    {
      assert w[i] == s[i];
    }
  }

  /** After the first word of a well-spaced string come a single space and
      a well-spaced rest. */
  lemma WellSpacedRest(s: string)
    requires WellSpaced(s)
    requires TokenLen(s) < |s|
    ensures s[TokenLen(s)..][0] == ' '
    ensures s[TokenLen(s)..][1..] != []
    ensures WellSpaced(s[TokenLen(s)..][1..])
    ensures s[..TokenLen(s)] + " " + s[TokenLen(s)..][1..] == s
  {
    WellSpacedAfterSpace(s, TokenLen(s));
  }

  /** Cutting a well-spaced string at one of its spaces. */
  lemma WellSpacedAfterSpace(s: string, k: nat)
    requires WellSpaced(s)
    requires k < |s| && IsSpace(s[k])
    ensures s[k..][0] == ' '
    ensures s[k..][1..] != []
    ensures WellSpaced(s[k..][1..])
    ensures s[..k] + " " + s[k..][1..] == s
  {
    assert SingleSpaceAt(s, k);
    assert s[k..][1..] == s[k + 1..];
    assert s[..k] + " " + s[k + 1..] == s;
    WellSpacedSuffix(s, k + 1);
  }

  /** A suffix of a well-spaced string that starts with a non-whitespace
      character is well spaced. */
  lemma WellSpacedSuffix(s: string, j: nat)
    requires WellSpaced(s)
    requires j < |s| && !IsSpace(s[j])
    ensures WellSpaced(s[j..])
  {
    var u := s[j..];
    forall i | 0 <= i < |u|
      ensures SingleSpaceAt(u, i)
    {
      assert SingleSpaceAt(s, j + i);
      assert u[i] == s[j + i];
      if i + 1 < |u| {
        assert u[i + 1] == s[j + i + 1];
      }
    }
  }

  lemma {:induction false} NonSpaceAppend(a: string, b: string)
    ensures NonSpace(a + b) == NonSpace(a) + NonSpace(b)
    decreases |a|
  {
    if a == [] {
      assert a + b == b;
    } else {
      var ab := a + b;
      assert ab[0] == a[0];
      assert ab[1..] == a[1..] + b;
      NonSpaceAppend(a[1..], b);
      var x, y := NonSpace(a[1..]), NonSpace(b);
      if !IsSpace(a[0]) {
        assert NonSpace(ab) == [a[0]] + (x + y);
        assert [a[0]] + (x + y) == ([a[0]] + x) + y;
      }
    }
  }

  lemma {:induction false} NonSpaceOfWord(w: string)
    requires forall i :: 0 <= i < |w| ==> !IsSpace(w[i])
    ensures NonSpace(w) == w
    decreases |w|
  {
    if w != [] {
      NonSpaceOfWord(w[1..]);
      assert [w[0]] + w[1..] == w;
    }
  }

  lemma {:induction false} NonSpaceSplit(s: string)
    ensures Concat(Split(s)) == NonSpace(s)
    decreases |s|
  {
    if s != [] {
      if IsSpace(s[0]) {
        NonSpaceSplit(s[1..]);
      } else {
        var k := TokenLen(s);
        NonSpaceSplit(s[k..]);
        assert s == s[..k] + s[k..];
        NonSpaceAppend(s[..k], s[k..]);
        NonSpaceOfWord(s[..k]);
        assert [s[..k]] + Split(s[k..]) == Split(s);
      }
    }
  }

  lemma {:induction false} NonSpaceJoin(parts: seq<string>)
    requires forall j :: 0 <= j < |parts| ==> IsWord(parts[j])
    ensures NonSpace(JoinSpace(parts)) == Concat(parts)
    decreases |parts|
  {
    if |parts| == 1 {
      NonSpaceOfWord(parts[0]);
      assert Concat(parts) == parts[0] + Concat([]);
    } else if |parts| >= 2 {
      NonSpaceJoin(parts[1..]);
      NonSpaceAppend(parts[0] + " ", JoinSpace(parts[1..]));
      NonSpaceAppend(parts[0], " ");
      NonSpaceOfWord(parts[0]);
      assert NonSpace(" ") == [];
    }
  }

  /** Normalising changes whitespace only: the non-whitespace characters
      are kept, in order. */
  lemma NormalizeKeepsText(s: string)
    ensures NonSpace(Normalize(s)) == NonSpace(s)
  {
    NonSpaceJoin(Split(s));
    NonSpaceSplit(s);
  }

  /** Leading whitespace does not change the split. */
  lemma {:induction false} SplitLStrip(s: string)
    ensures Split(LStrip(s)) == Split(s)
    decreases |s|
  {
    if s != [] && IsSpace(s[0]) {
      SplitLStrip(s[1..]);
    }
  }

  /** `split(maxsplit=1)` agrees with `split()`: the same first word, and its
      remainder splits into the remaining words. */
  lemma SplitOnceAgrees(s: string)
    ensures SplitOnce(s) == [] <==> Split(s) == []
    ensures SplitOnce(s) != [] ==> SplitOnce(s)[0] == Split(s)[0]
    ensures |SplitOnce(s)| == 2 <==> |Split(s)| >= 2
    ensures |SplitOnce(s)| == 2 ==> Split(SplitOnce(s)[1]) == Split(s)[1..]
    ensures |SplitOnce(s)| == 2 ==> IsSuffix(SplitOnce(s)[1], s)
  {
    if |SplitOnce(s)| == 2 {
      SplitOnceRestSuffix(s);
    }
    SplitLStrip(s);
    var t := LStrip(s);
    if t != [] {
      var k := TokenLen(t);
      SplitLStrip(t[k..]);
      var rest := LStrip(t[k..]);
      assert Split(t) == [t[..k]] + Split(rest);
      if rest != [] {
        assert Split(rest) == [rest[..TokenLen(rest)]] + Split(rest[TokenLen(rest)..]);
      }
    }
  }

  /** The first part returned by `split(maxsplit=1)` is a word. */
  lemma SplitOnceFirst(s: string)
    requires SplitOnce(s) != []
    ensures IsWord(SplitOnce(s)[0])
  {
    var t := LStrip(s);
    assert SplitOnce(s)[0] == t[..TokenLen(t)];
    FirstToken(t);
  }

  /** The run of non-whitespace characters at the start of a string that
      does not start with whitespace is a word. */
  lemma FirstToken(t: string)
    requires t != [] && !IsSpace(t[0])
    ensures IsWord(t[..TokenLen(t)])
  {
    var w := t[..TokenLen(t)];
    forall i | 0 <= i < |w|
      ensures !IsSpace(w[i])
    {
      assert w[i] == t[i];
    }
  }

  /** Lower-casing a word gives a word. */
  lemma LowerWord(w: string)
    requires IsWord(w)
    ensures IsWord(Lower(w))
  {
    var l := Lower(w);
    forall i | 0 <= i < |l|
      ensures !IsSpace(l[i])
    {
      assert l[i] == LowerChar(w[i]);
    }
  }

  /** The remainder returned by `split(maxsplit=1)` is the input's tail:
      the whitespace inside it and at its end is kept. */
  lemma SplitOnceRestSuffix(s: string)
    requires |SplitOnce(s)| == 2
    ensures IsSuffix(SplitOnce(s)[1], s)
  {
    var t := LStrip(s);
    var k := TokenLen(t);
    var rest := LStrip(t[k..]);
    assert SplitOnce(s)[1] == rest;
    StrippedTailIsSuffix(s, t, k);
    SuffixTransfer(SplitOnce(s)[1], rest, s);
  }

  lemma StrippedTailIsSuffix(s: string, t: string, k: nat)
    requires IsSuffix(t, s)
    requires k <= |t|
    ensures IsSuffix(LStrip(t[k..]), s)
  {
    SuffixOfSuffix(s, t, t[k..]);
    SuffixOfSuffix(s, t[k..], LStrip(t[k..]));
  }

  lemma SuffixTransfer(x: string, y: string, s: string)
    requires x == y && IsSuffix(y, s)
    ensures IsSuffix(x, s)
  {
  }

  /** The remainder returned by `split(maxsplit=1)` starts with a
      non-whitespace character. */
  lemma SplitOnceRest(s: string)
    requires |SplitOnce(s)| == 2
    ensures SplitOnce(s)[1] != [] && !IsSpace(SplitOnce(s)[1][0])
  {
    var t := LStrip(s);
    var k := TokenLen(t);
    assert SplitOnce(s)[1] == LStrip(t[k..]);
  }

  // ---------------------------------------------------------------------
  // Replace

  /** Replacing a pattern that does not occur leaves the string as it is. */
  lemma {:induction false} ReplaceAbsent(s: string, p: string, r: string)
    requires p != []
    requires !Contains(s, p)
    ensures Replace(s, p, r) == s
    decreases |s|
  {
    if |s| >= |p| {
      assert !OccursAt(s, p, 0);
      ShiftOccurrence(s, p);
      ReplaceAbsent(s[1..], p, r);
    }
  }

  /** Deleting an empty pattern changes nothing. */
  lemma {:induction false} ReplaceEmptyByEmpty(s: string)
    ensures Replace(s, [], []) == s
    decreases |s|
  {
    if s != [] {
      ReplaceEmptyByEmpty(s[1..]);
    }
  }

  /** Deletion never lengthens, and deleting a pattern that occurs shortens. */
  lemma {:induction false} DeleteShrinks(s: string, p: string)
    ensures |Replace(s, p, [])| <= |s|
    ensures p != [] && Contains(s, p) ==> |Replace(s, p, [])| < |s|
    decreases |s|
  {
    if p == [] {
      ReplaceEmptyByEmpty(s);
    } else if |s| >= |p| {
      if StartsWith(s, p) {
        DeleteShrinks(s[|p|..], p);
      } else {
        DeleteShrinks(s[1..], p);
      }
    }
  }

  /** Replacing by a string of the same length as the pattern in which every
      character is `c` preserves length, and each position either keeps its
      character or becomes `c`. */
  lemma {:induction false} ReplaceByFill(s: string, p: string, r: string, c: char)
    requires |r| == |p|
    requires forall i :: 0 <= i < |r| ==> r[i] == c
    ensures |Replace(s, p, r)| == |s|
    ensures forall i :: 0 <= i < |s| ==> Replace(s, p, r)[i] == s[i] || Replace(s, p, r)[i] == c
    decreases |s|
  {
    if p == [] {
      assert r == [];
      ReplaceEmptyByEmpty(s);
    } else if |s| >= |p| {
      if StartsWith(s, p) {
        ReplaceByFill(s[|p|..], p, r, c);
        var out := Replace(s, p, r);
        forall i | 0 <= i < |s|
          ensures out[i] == s[i] || out[i] == c
        {
          if i >= |p| {
            assert out[i] == Replace(s[|p|..], p, r)[i - |p|];
            assert s[|p|..][i - |p|] == s[i];
          }
        }
      } else {
        ReplaceByFill(s[1..], p, r, c);
        var out := Replace(s, p, r);
        forall i | 0 <= i < |s|
          ensures out[i] == s[i] || out[i] == c
        {
          if i >= 1 {
            assert out[i] == Replace(s[1..], p, r)[i - 1];
          }
        }
      }
    }
  }

  /** If a string changes only by turning characters into `c`, any
      occurrence of a pattern in the new string was already there, unless the
      pattern itself contains `c`. */
  lemma FillCreatesNoMatch(s: string, s': string, p: string, c: char)
    requires |s'| == |s|
    requires forall i :: 0 <= i < |s| ==> s'[i] == s[i] || s'[i] == c
    ensures Contains(s', p) ==> Contains(s, p) || exists j :: 0 <= j < |p| && p[j] == c
  {
    if Contains(s', p) {
      var i :| OccursAt(s', p, i);
      if s[i..i + |p|] != p {
        FillBreaksMatch(s, s', p, c, i);
      } else {
        assert OccursAt(s, p, i);
      }
    }
  }

  /** Where `s` has no match at `i` but the filled `out` has one, the
      pattern contains the filler. */
  lemma FillBreaksMatch(s: string, out: string, p: string, c: char, i: nat)
    requires i + |p| <= |s| && s[i..i + |p|] != p
    requires |out| == |s|
    requires forall k :: 0 <= k < |s| ==> out[k] == s[k] || out[k] == c
    requires OccursAt(out, p, i)
    ensures exists j :: 0 <= j < |p| && p[j] == c
  {
    var j :| 0 <= j < |p| && s[i..i + |p|][j] != p[j];
    assert out[i..i + |p|][j] == out[i + j];
    assert p[j] == c;
  }

  /** After masking a pattern with a filler `c`, the pattern can only still
      be found if it contains `c` itself. */
  lemma {:induction false} MaskLeavesNoMatch(s: string, p: string, r: string, c: char)
    requires p != []
    requires |r| == |p|
    requires forall i :: 0 <= i < |r| ==> r[i] == c
    ensures Contains(Replace(s, p, r), p) ==> exists j :: 0 <= j < |p| && p[j] == c
    decreases |s|
  {
    if |s| >= |p| {
      if StartsWith(s, p) {
        MaskLeavesNoMatch(s[|p|..], p, r, c);
        MaskStep(r, Replace(s[|p|..], p, r), p, c);
      } else {
        MaskLeavesNoMatch(s[1..], p, r, c);
        ReplaceByFill(s, p, r, c);
        assert Replace(s, p, r) == [s[0]] + Replace(s[1..], p, r);
        MaskSkip(s, Replace(s, p, r), Replace(s[1..], p, r), p, c);
      }
    }
  }

  /** The masking step at a match: the filler followed by the masked rest. */
  lemma MaskStep(r: string, rest: string, p: string, c: char)
    requires p != []
    requires |r| == |p|
    requires forall i :: 0 <= i < |r| ==> r[i] == c
    requires Contains(rest, p) ==> exists j :: 0 <= j < |p| && p[j] == c
    ensures Contains(r + rest, p) ==> exists j :: 0 <= j < |p| && p[j] == c
  {
    var out := r + rest;
    if Contains(out, p) {
      var i :| OccursAt(out, p, i);
      if i < |p| {
        assert out[i..i + |p|][0] == out[i] == r[i];
        assert p[0] == c;
      } else {
        assert out[i..i + |p|] == rest[i - |p|..i - |p| + |p|];
        assert OccursAt(rest, p, i - |p|);
      }
    }
  }

  /** The masking step where no match starts: the first character is kept,
      and `out` differs from `s` only by filler characters. */
  lemma MaskSkip(s: string, out: string, rest: string, p: string, c: char)
    requires p != [] && |s| >= |p| && s[..|p|] != p
    requires |out| == |s|
    requires forall i :: 0 <= i < |s| ==> out[i] == s[i] || out[i] == c
    requires out == [s[0]] + rest
    requires Contains(rest, p) ==> exists j :: 0 <= j < |p| && p[j] == c
    ensures Contains(out, p) ==> exists j :: 0 <= j < |p| && p[j] == c
  {
    if Contains(out, p) {
      var i :| OccursAt(out, p, i);
      if i == 0 {
        assert s[0..|p|] == s[..|p|];
        FillBreaksMatch(s, out, p, c, 0);
      } else {
        ShiftOccurrence(out, p);
        assert out[1..] == rest;
      }
    }
  }
}
