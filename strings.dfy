/**
  The string primitives the search engine is built from, for ASCII text:
  lower-casing, whitespace splitting, stripping, splitting on one
  separator, joining, non-overlapping counting and case-insensitive
  literal search.
*/
module Strings {
  import opened Wrappers

  /** The six whitespace characters of the model; Python also counts `\x1c`-`\x1f` and non-ASCII spaces. */
  const Whitespace: set<char> := {' ', '\t', '\n', '\r', '\U{0B}', '\U{0C}'}

  predicate IsSpace(c: char) {
    c in Whitespace
  }

  predicate IsUpper(c: char) {
    'A' <= c <= 'Z'
  }

  function LowerChar(c: char): char {
    if IsUpper(c) then (c as int + 32) as char else c
  }

  /** Lower-casing, for ASCII letters. */
  function Lower(s: string): string {
    seq(|s|, i requires 0 <= i < |s| => LowerChar(s[i]))
  }

  lemma LowerSlice(s: string, i: int, j: int)
    requires 0 <= i <= j <= |s|
    ensures Lower(s)[i..j] == Lower(s[i..j])
  {
  }

  lemma LowerLower(s: string)
    ensures Lower(Lower(s)) == Lower(s)
  {
  }

  /** No character of `s` is an upper-case letter. */
  predicate IsLowerCase(s: string) {
    forall i :: 0 <= i < |s| ==> !IsUpper(s[i])
  }

  /** The only whitespace in `s` is single spaces: no tab, no newline, no run of two. */
  predicate SingleSpaced(s: string) {
    && (forall i :: 0 <= i < |s| && IsSpace(s[i]) ==> s[i] == ' ')
    && (forall i :: 0 <= i < |s| - 1 ==> !(IsSpace(s[i]) && IsSpace(s[i + 1])))
  }

  /** The characters of `s` that are not whitespace, in order. */
  function NonSpace(s: string): string {
    if s == [] then []
    else (if IsSpace(s[0]) then [] else [s[0]]) + NonSpace(s[1..])
  }

  /** The words written one after another. */
  function Concat(ws: seq<string>): string {
    if ws == [] then [] else ws[0] + Concat(ws[1..])
  }

  /** The words written one after another with `sep` between each two. */
  function Join(ws: seq<string>, sep: string): string {
    if ws == [] then []
    else if |ws| == 1 then ws[0]
    else ws[0] + sep + Join(ws[1..], sep)
  }

  // ---------------------------------------------------------------------
  // str.split() with no argument

  /** Scan `s`, `word` being the word read so far; whitespace ends a word and empty words are dropped. */
  function SplitFrom(s: string, word: string): seq<string>
    decreases |s|
  {
    if s == [] then (if word == [] then [] else [word])
    else if IsSpace(s[0]) then (if word == [] then [] else [word]) + SplitFrom(s[1..], [])
    else SplitFrom(s[1..], word + [s[0]])
  }

  /** `s.split()`: the maximal runs of non-whitespace characters of `s`. */
  function Split(s: string): seq<string> {
    SplitFrom(s, [])
  }

  lemma {:induction false} SplitFromChars(s: string, word: string)
    requires forall c :: c in word ==> !IsSpace(c)
    ensures forall i :: 0 <= i < |SplitFrom(s, word)| ==> SplitFrom(s, word)[i] != []
    ensures forall i, c :: 0 <= i < |SplitFrom(s, word)| && c in SplitFrom(s, word)[i] ==>
      !IsSpace(c) && (c in word || c in s)
    decreases |s|
  {
    if s != [] {
      var ws := SplitFrom(s, word);
      assert forall c :: c in s[1..] ==> c in s;
      if IsSpace(s[0]) {
        var none: string := [];
        SplitFromChars(s[1..], none);
        var head := if word == [] then [] else [word];
        var rest := SplitFrom(s[1..], none);
        assert ws == head + rest;
        forall i | 0 <= i < |ws|
          ensures ws[i] != [] && forall c :: c in ws[i] ==> !IsSpace(c) && (c in word || c in s)
        {
          if i >= |head| {
            assert ws[i] == rest[i - |head|];
            forall c | c in ws[i] ensures !IsSpace(c) && c in s {
              assert c in rest[i - |head|];
            }
          }
        }
      } else {
        var w := word + [s[0]];
        SplitFromChars(s[1..], w);
        assert ws == SplitFrom(s[1..], w);
        forall i, c | 0 <= i < |ws| && c in ws[i] ensures !IsSpace(c) && (c in word || c in s) {
          assert c in SplitFrom(s[1..], w)[i];
          assert c in w ==> c in word || c == s[0];
        }
      }
    }
  }

  lemma {:induction false} SplitFromConcat(s: string, word: string)
    ensures Concat(SplitFrom(s, word)) == word + NonSpace(s)
    decreases |s|
  {
    if s == [] {
      assert Concat([word]) == word + Concat([]);
    } else if IsSpace(s[0]) {
      SplitFromConcat(s[1..], []);
      var rest := SplitFrom(s[1..], []);
      if word == [] {
        assert SplitFrom(s, word) == rest;
      } else {
        assert SplitFrom(s, word) == [word] + rest;
        assert Concat([word] + rest) == word + Concat(rest);
      }
    } else {
      SplitFromConcat(s[1..], word + [s[0]]);
      assert word + [s[0]] + NonSpace(s[1..]) == word + NonSpace(s);
    }
  }

  /**
    The words of `s.split()` are non-empty, hold no whitespace, are made of
    characters of `s`, and together spell the non-whitespace characters of `s`
    in order.
  */
  lemma SplitWords(s: string)
    ensures var ws := Split(s);
      && (forall i :: 0 <= i < |ws| ==> ws[i] != [])
      && (forall i, c :: 0 <= i < |ws| && c in ws[i] ==> !IsSpace(c) && c in s)
      && Concat(ws) == NonSpace(s)
  {
    SplitFromChars(s, []);
    SplitFromConcat(s, []);
    assert [] + NonSpace(s) == NonSpace(s);
  }

  /** Reading a run of non-whitespace characters only extends the current word. */
  lemma {:induction false} SplitFromConsume(w: string, s: string, word: string)
    requires forall c :: c in w ==> !IsSpace(c)
    ensures SplitFrom(w + s, word) == SplitFrom(s, word + w)
    decreases |w|
  {
    if w == [] {
      assert w + s == s && word + w == word;
    } else {
      assert (w + s)[1..] == w[1..] + s;
      SplitFromConsume(w[1..], s, word + [w[0]]);
      assert word + [w[0]] + w[1..] == word + w;
    }
  }

  /**
    The word boundaries of `s.split()`, as three equations that between them
    determine it on every string: the empty text has no words (by
    definition), whitespace in front adds none, and a maximal run `w` of
    non-whitespace characters in front (followed by the end or by
    whitespace) is exactly the first word.
  */
  lemma SplitSkip(c: char, s: string)
    requires IsSpace(c)
    ensures Split([c] + s) == Split(s)
  {
    assert ([c] + s)[1..] == s;
  }

  lemma SplitWord(w: string, s: string)
    requires w != [] && forall c :: c in w ==> !IsSpace(c)
    requires s == [] || IsSpace(s[0])
    ensures Split(w + s) == [w] + Split(s)
  {
    SplitFromConsume(w, s, []);
    assert [] + w == w;
  }

  lemma {:induction false} NonSpaceEmpty(s: string)
    requires forall i :: 0 <= i < |s| ==> IsSpace(s[i])
    ensures NonSpace(s) == []
  {
    if s != [] {
      NonSpaceEmpty(s[1..]);
    }
  }

  // ---------------------------------------------------------------------
  // str.strip(chars)

  /** How many leading characters of `s` lie in `cs`. */
  function Leading(s: string, cs: set<char>): (n: nat)
    ensures n <= |s|
    ensures forall k :: 0 <= k < n ==> s[k] in cs
    ensures n == |s| || s[n] !in cs
  {
    if s != [] && s[0] in cs then 1 + Leading(s[1..], cs) else 0
  }

  /** How many trailing characters of `s` lie in `cs`. */
  function Trailing(s: string, cs: set<char>): (n: nat)
    ensures n <= |s|
    ensures forall k :: |s| - n <= k < |s| ==> s[k] in cs
    ensures n == |s| || s[|s| - 1 - n] !in cs
  {
    if s != [] && s[|s| - 1] in cs then 1 + Trailing(s[..|s| - 1], cs) else 0
  }

  /**
    `s.strip(chars)`: the part of `s` left after dropping every leading and
    every trailing character in `cs`.
  */
  function Strip(s: string, cs: set<char>): (r: string)
    ensures r == [] <==> forall k :: 0 <= k < |s| ==> s[k] in cs
    ensures r != [] ==> r[0] !in cs && r[|r| - 1] !in cs
    ensures r != [] ==> var lo := Leading(s, cs);
      lo + |r| <= |s| && s[lo..lo + |r|] == r && forall k :: lo + |r| <= k < |s| ==> s[k] in cs
  {
    var lo := Leading(s, cs);
    if lo == |s| then []
    else
      var hi := |s| - Trailing(s, cs);
      assert lo < hi;
      s[lo..hi]
  }

  /** Stripping only removes characters: what is left is drawn from `s`. */
  lemma StripWithin(s: string, cs: set<char>)
    ensures forall c :: c in Strip(s, cs) ==> c in s
  {
    var r := Strip(s, cs);
    if r != [] {
      var lo := Leading(s, cs);
      forall c | c in r ensures c in s {
        var k :| 0 <= k < |r| && r[k] == c;
        assert s[lo + k] == c;
      }
    }
  }

  // ---------------------------------------------------------------------
  // str.split(sep) for a one-character separator

  /** `s.split(sep)`: the pieces between separators, in order; `""` gives `[""]`. */
  function SplitOn(s: string, sep: char): (r: seq<string>)
    ensures |r| >= 1
    ensures forall i :: 0 <= i < |r| ==> sep !in r[i]
  {
    if s == [] then [[]]
    else
      var rest := SplitOn(s[1..], sep);
      if s[0] == sep then [[]] + rest else [[s[0]] + rest[0]] + rest[1..]
  }

  /** Joining the pieces of `s.split(sep)` with `sep` gives back `s`. */
  lemma {:induction false} SplitOnJoin(s: string, sep: char)
    ensures Join(SplitOn(s, sep), [sep]) == s
  {
    if s != [] {
      var rest := SplitOn(s[1..], sep);
      SplitOnJoin(s[1..], sep);
      if s[0] == sep {
        assert SplitOn(s, sep) == [[]] + rest;
      } else {
        var r := SplitOn(s, sep);
        assert r == [[s[0]] + rest[0]] + rest[1..];
        if |rest| == 1 {
          assert r == [[s[0]] + rest[0]];
        } else {
          assert r[1..] == rest[1..];
          assert Join(rest, [sep]) == rest[0] + [sep] + Join(rest[1..], [sep]);
        }
      }
    }
  }

  // ---------------------------------------------------------------------
  // str.count(t)

  /**
    `s.count(t)`: occurrences of `t` in `s` found scanning left to right,
    resuming after each one (so they do not overlap); `len(s) + 1` for the
    empty `t`.
  */
  function Count(s: string, t: string): nat
    decreases |s|
  {
    if t == [] then |s| + 1
    else if |s| < |t| then 0
    else if s[..|t|] == t then 1 + Count(s[|t|..], t)
    else Count(s[1..], t)
  }

  // ---------------------------------------------------------------------
  // Case-insensitive literal matching (re.search(re.escape(t), x, re.I))

  /** `t` occurs at position `i` of `x`, ignoring ASCII case. */
  predicate MatchAt(x: string, t: string, i: int) {
    0 <= i && i + |t| <= |x| && Lower(x[i..i + |t|]) == Lower(t)
  }

  /** `t` occurs somewhere in `x`, ignoring ASCII case. */
  predicate ContainsCI(x: string, t: string) {
    exists i :: 0 <= i <= |x| - |t| && MatchAt(x, t, i)
  }

  lemma MatchAtShift(x: string, t: string, i: int)
    requires x != [] && MatchAt(x[1..], t, i)
    ensures MatchAt(x, t, i + 1)
  {
    assert x[1..][i..i + |t|] == x[i + 1..i + 1 + |t|];
  }

  function FindFrom(x: string, t: string, i: nat): (r: Option<nat>)
    decreases |x| - i
    ensures r.Some? ==>
      (i <= r.value && MatchAt(x, t, r.value) && forall j :: i <= j < r.value ==> !MatchAt(x, t, j))
    ensures r.None? ==> forall j :: i <= j ==> !MatchAt(x, t, j)
  {
    if i + |t| > |x| then None
    else if MatchAt(x, t, i) then Some(i)
    else FindFrom(x, t, i + 1)
  }

  /** The first position where `t` occurs in `x` ignoring case, if any. */
  function FindCI(x: string, t: string): (r: Option<nat>)
    ensures r.Some? ==> MatchAt(x, t, r.value) && forall j :: 0 <= j < r.value ==> !MatchAt(x, t, j)
    ensures r.None? <==> !ContainsCI(x, t)
  {
    FindFrom(x, t, 0)
  }
}
