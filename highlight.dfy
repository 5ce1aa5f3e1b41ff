/**
  The snippet highlighter: every case-insensitive occurrence of each token,
  matched literally, is wrapped in `<mark>` ... `</mark>`; the tokens are
  applied one after another, each to the output of the previous one.
*/
module Highlight {
  import opened Strings

  const Open: string := "<mark>"
  const Close: string := "</mark>"

  /** One step of a substitution pass: a character left alone, or a matched stretch of the input. */
  datatype Piece = Plain(c: char) | Hit(s: string)

  /**
    The left-to-right scan of a substitution with the escaped pattern `t`
    and case folding: at each position either `t` matches (the match is taken
    and the scan resumes after it) or one character is passed over. The empty
    pattern matches once before every character and once at the end.
  */
  function Scan(x: string, t: string): seq<Piece>
    decreases |x|
  {
    if t == [] then
      if x == [] then [Hit([])] else [Hit([])] + ([Plain(x[0])] + Scan(x[1..], t))
    else if x == [] then []
    else if MatchAt(x, t, 0) then [Hit(x[..|t|])] + Scan(x[|t|..], t)
    else [Plain(x[0])] + Scan(x[1..], t)
  }

  /** The output of a pass: each hit wrapped in the tags, in its original case. */
  function Render(ps: seq<Piece>): string {
    if ps == [] then []
    else
      (match ps[0]
       case Plain(c) => [c]
       case Hit(s) => Open + s + Close) + Render(ps[1..])
  }

  /** The text a pass read: the same pieces with the tags left out. */
  function Erase(ps: seq<Piece>): string {
    if ps == [] then []
    else
      (match ps[0]
       case Plain(c) => [c]
       case Hit(s) => s) + Erase(ps[1..])
  }

  /** How many matches a pass made. */
  function Hits(ps: seq<Piece>): nat {
    if ps == [] then 0 else (if ps[0].Hit? then 1 else 0) + Hits(ps[1..])
  }

  /** One token's substitution pass over `x`. */
  function Mark(x: string, t: string): string {
    Render(Scan(x, t))
  }

  lemma EraseHead(p: Piece, ps: seq<Piece>)
    ensures Erase([p] + ps) == (if p.Plain? then [p.c] else p.s) + Erase(ps)
  {
    assert ([p] + ps)[0] == p && ([p] + ps)[1..] == ps;
  }

  /** One step of the scan with a non-empty token: a match of `n == |t|` characters, or one character passed over. */
  lemma ScanStep(x: string, t: string) returns (h: Piece, n: nat)
    requires t != [] && x != []
    ensures 0 < n <= |x| && Scan(x, t) == [h] + Scan(x[n..], t)
    ensures (if h.Plain? then [h.c] else h.s) == x[..n]
    ensures h.Hit? <==> MatchAt(x, t, 0)
    ensures h.Hit? ==> n == |t|
  {
    if MatchAt(x, t, 0) {
      h, n := Hit(x[..|t|]), |t|;
    } else {
      h, n := Plain(x[0]), 1;
    }
  }

  /** Deleting the inserted tags restores the input: the pass reads all of `x`, in order. */
  lemma {:induction false} ScanErases(x: string, t: string)
    ensures Erase(Scan(x, t)) == x
  {
    if t == [] {
      ScanErasesEmpty(x);
    } else {
      ScanErasesToken(x, t);
    }
  }

  lemma {:induction false} ScanErasesToken(x: string, t: string)
    requires t != []
    ensures Erase(Scan(x, t)) == x
    decreases |x|
  {
    if x != [] {
      var h, n := ScanStep(x, t);
      var rest := Scan(x[n..], t);
      ScanErasesToken(x[n..], t);
      EraseHead(h, rest);
      assert Erase(Scan(x, t)) == x[..n] + x[n..];
      assert x[..n] + x[n..] == x;
    }
  }

  lemma {:induction false} ScanErasesEmpty(x: string)
    ensures Erase(Scan(x, [])) == x
    decreases |x|
  {
    if x == [] {
      EraseHead(Hit([]), []);
    } else {
      var rest := Scan(x[1..], []);
      ScanErasesEmpty(x[1..]);
      assert Scan(x, []) == [Hit([])] + ([Plain(x[0])] + rest);
      EraseHead(Hit([]), [Plain(x[0])] + rest);
      EraseHead(Plain(x[0]), rest);
      assert [x[0]] + x[1..] == x;
    }
  }

  /** Each match adds the 13 characters of `<mark></mark>` and nothing else. */
  lemma {:induction false} RenderLength(ps: seq<Piece>)
    ensures |Render(ps)| == |Erase(ps)| + 13 * Hits(ps)
  {
    if ps != [] {
      RenderLength(ps[1..]);
    }
  }

  lemma {:induction false} RenderNoHits(ps: seq<Piece>)
    requires Hits(ps) == 0
    ensures Render(ps) == Erase(ps)
  {
    if ps != [] {
      RenderNoHits(ps[1..]);
    }
  }

  lemma CountAfterMatch(x: string, t: string)
    requires t != [] && MatchAt(x, t, 0)
    ensures Count(Lower(x), Lower(t)) == 1 + Count(Lower(x[|t|..]), Lower(t))
  {
    var lx, lt := Lower(x), Lower(t);
    LowerSlice(x, 0, |t|);
    LowerSlice(x, |t|, |x|);
    assert lx[..|lt|] == Lower(x[..|t|]) == lt;
    assert lx[|lt|..] == Lower(x[|t|..]);
  }

  lemma CountAfterSkip(x: string, t: string)
    requires t != [] && x != [] && !MatchAt(x, t, 0)
    ensures Count(Lower(x), Lower(t)) == Count(Lower(x[1..]), Lower(t))
  {
    var lx, lt := Lower(x), Lower(t);
    LowerSlice(x, 1, |x|);
    assert lx[1..] == Lower(x[1..]);
    if |x| >= |t| {
      LowerSlice(x, 0, |t|);
      assert lx[..|lt|] == Lower(x[..|t|]) != lt;
    } else {
      assert |lx[1..]| < |lt|;
    }
  }

  /** The number of matches of a pass is the non-overlapping count of the lower-cased token in the lower-cased text. */
  lemma {:induction false} ScanHits(x: string, t: string)
    ensures Hits(Scan(x, t)) == Count(Lower(x), Lower(t))
    decreases |x|
  {
    if t == [] {
      if x != [] {
        ScanHits(x[1..], t);
        var ps := [Plain(x[0])] + Scan(x[1..], t);
        assert Hits([Hit([])] + ps) == 1 + Hits(ps);
      }
    } else if x != [] {
      if MatchAt(x, t, 0) {
        ScanHits(x[|t|..], t);
        CountAfterMatch(x, t);
      } else {
        ScanHits(x[1..], t);
        CountAfterSkip(x, t);
      }
    }
  }

  /** Every matched stretch equals the token up to ASCII case. */
  lemma {:induction false} ScanHitsMatch(x: string, t: string)
    ensures forall p :: p in Scan(x, t) && p.Hit? ==> |p.s| == |t| && Lower(p.s) == Lower(t)
    decreases |x|
  {
    if t == [] {
      if x != [] {
        ScanHitsMatch(x[1..], t);
      }
    } else if x != [] {
      if MatchAt(x, t, 0) {
        ScanHitsMatch(x[|t|..], t);
      } else {
        ScanHitsMatch(x[1..], t);
      }
    }
  }

  /** Without a case-insensitive occurrence of `t` a pass makes no match. */
  lemma {:induction false} ScanNoMatch(x: string, t: string)
    requires !ContainsCI(x, t)
    ensures Hits(Scan(x, t)) == 0
    decreases |x|
  {
    assert t != [] by {
      assert t == [] ==> MatchAt(x, t, 0);
    }
    if x != [] {
      assert !MatchAt(x, t, 0);
      forall i | 0 <= i <= |x[1..]| - |t| && MatchAt(x[1..], t, i)
        ensures false
      {
        MatchAtShift(x, t, i);
      }
      ScanNoMatch(x[1..], t);
    }
  }

  /**
    One pass: the output is the input with each non-overlapping
    case-insensitive match of `t` wrapped in the tags, so it is 13 characters
    longer per match, and it is the input itself when `t` does not occur;
    the scan passes over no position where `t` matches, so the matches it
    wraps are the leftmost ones (see `ScanUnique`).
  */
  lemma MarkSpec(x: string, t: string)
    ensures |Mark(x, t)| == |x| + 13 * Count(Lower(x), Lower(t))
    ensures Erase(Scan(x, t)) == x
    ensures t != [] ==> PlainsUnmatched(Scan(x, t), x, t)
    ensures !ContainsCI(x, t) ==> Mark(x, t) == x
  {
    if t != [] {
      ScanLeftmost(x, t);
    }
    ScanErases(x, t);
    ScanHits(x, t);
    RenderLength(Scan(x, t));
    if !ContainsCI(x, t) {
      ScanNoMatch(x, t);
      RenderNoHits(Scan(x, t));
    }
  }

  // ---------------------------------------------------------------------
  // Which stretches a pass wraps

  /** Every character a pass leaves alone sits at a position of `x` where `t` does not match. */
  predicate PlainsUnmatched(ps: seq<Piece>, x: string, t: string) {
    forall k :: 0 <= k < |ps| && ps[k].Plain? ==> !MatchAt(x, t, |Erase(ps[..k])|)
  }

  lemma MatchAtDrop(x: string, t: string, n: nat, j: nat)
    requires n <= |x|
    ensures MatchAt(x[n..], t, j) <==> MatchAt(x, t, n + j)
  {
    if j + |t| <= |x| - n {
      assert x[n..][j..j + |t|] == x[n + j..n + j + |t|];
    }
  }

  lemma EraseCons(p: Piece, ps: seq<Piece>, k: nat)
    requires k <= |ps|
    ensures Erase(([p] + ps)[..k + 1]) == Erase([p]) + Erase(ps[..k])
  {
    var q := ([p] + ps)[..k + 1];
    assert q == [p] + ps[..k];
    assert q[0] == p && q[1..] == ps[..k];
    assert [p][1..] == [];
  }

  /** `PlainsUnmatched` of a cut is its first piece's condition plus the rest's, shifted past the first piece. */
  lemma PlainsTail(h: Piece, rest: seq<Piece>, x: string, t: string, n: nat)
    requires n == |Erase([h])| <= |x|
    ensures PlainsUnmatched([h] + rest, x, t) <==>
      (h.Plain? ==> !MatchAt(x, t, 0)) && PlainsUnmatched(rest, x[n..], t)
  {
    var ps := [h] + rest;
    assert ps[..0] == [] && ps[0] == h;
    forall k | 0 <= k < |rest|
      ensures ps[k + 1] == rest[k] && |Erase(ps[..k + 1])| == n + |Erase(rest[..k])|
      ensures MatchAt(x[n..], t, |Erase(rest[..k])|) <==> MatchAt(x, t, n + |Erase(rest[..k])|)
    {
      EraseCons(h, rest, k);
      MatchAtDrop(x, t, n, |Erase(rest[..k])|);
    }
    if PlainsUnmatched(ps, x, t) {
      forall k | 0 <= k < |rest| && rest[k].Plain? ensures !MatchAt(x[n..], t, |Erase(rest[..k])|) {
        assert ps[k + 1].Plain?;
      }
    }
    if (h.Plain? ==> !MatchAt(x, t, 0)) && PlainsUnmatched(rest, x[n..], t) {
      forall k | 0 <= k < |ps| && ps[k].Plain? ensures !MatchAt(x, t, |Erase(ps[..k])|) {
        if k > 0 {
          assert rest[k - 1].Plain?;
        }
      }
    }
  }

  /**
    The scan takes the leftmost match: no character is passed over at a
    position where the token matches.
  */
  lemma {:induction false} ScanLeftmost(x: string, t: string)
    requires t != []
    ensures PlainsUnmatched(Scan(x, t), x, t)
    decreases |x|
  {
    if x != [] {
      var h, n := ScanStep(x, t);
      ScanLeftmost(x[n..], t);
      EraseHead(h, []);
      PlainsTail(h, Scan(x[n..], t), x, t, n);
    }
  }

  /**
    The scan is the only way to cut `x` into characters left alone and
    stretches equal to `t` up to case without passing over a match: any
    such cut is `Scan(x, t)`. So a pass wraps exactly the leftmost
    non-overlapping matches, scanning from the left.
  */
  lemma {:induction false} ScanUnique(ps: seq<Piece>, x: string, t: string)
    requires t != []
    requires Erase(ps) == x
    requires forall p :: p in ps && p.Hit? ==> |p.s| == |t| && Lower(p.s) == Lower(t)
    requires PlainsUnmatched(ps, x, t)
    ensures ps == Scan(x, t)
    decreases |ps|
  {
    if ps != [] {
      var h, rest := ps[0], ps[1..];
      assert ps == [h] + rest;
      assert h in ps;
      var piece := if h.Plain? then [h.c] else h.s;
      EraseHead(h, rest);
      EraseHead(h, []);
      assert Erase([h]) == piece + [];
      var n := |piece|;
      assert x == piece + Erase(rest);
      assert x[..n] == piece && x[n..] == Erase(rest);
      PlainsTail(h, rest, x, t, n);
      var h', n' := ScanStep(x, t);
      assert h == h' && n == n';
      assert forall p :: p in rest ==> p in ps;
      ScanUnique(rest, x[n..], t);
    }
  }

  /**
    The token is matched literally, not as a pattern: at every position where
    the token holds a character that is not a letter (`.`, `*`, `(`, ...), a
    matched stretch holds that very character.
  */
  lemma HitIsLiteral(x: string, t: string, p: Piece, k: int)
    requires p in Scan(x, t) && p.Hit?
    requires 0 <= k < |t| && !IsUpper(t[k]) && !('a' <= t[k] <= 'z')
    ensures k < |p.s| && p.s[k] == t[k]
  {
    ScanHitsMatch(x, t);
    assert Lower(p.s)[k] == Lower(t)[k];
  }

  // ---------------------------------------------------------------------
  // All tokens

  /** The tokens applied in order, each pass working on the previous pass's output. */
  function HighlightAll(x: string, ts: seq<string>): string
    decreases |ts|
  {
    if ts == [] then x else Mark(HighlightAll(x, ts[..|ts| - 1]), ts[|ts| - 1])
  }

  /** Highlighting with `t` first and then `ts` is highlighting with `ts` the output of `t`'s pass. */
  lemma {:induction false} HighlightCons(x: string, t: string, ts: seq<string>)
    ensures HighlightAll(x, [t] + ts) == HighlightAll(Mark(x, t), ts)
    decreases |ts|
  {
    if ts == [] {
      assert ([t] + ts)[..0] == [];
    } else {
      var all := [t] + ts;
      assert all[..|all| - 1] == [t] + ts[..|ts| - 1];
      HighlightCons(x, t, ts[..|ts| - 1]);
    }
  }

  /** When no token occurs in the text, case-insensitively, the text comes back unchanged. */
  lemma {:induction false} HighlightNoMatch(x: string, ts: seq<string>)
    requires forall k :: 0 <= k < |ts| ==> !ContainsCI(x, ts[k])
    ensures HighlightAll(x, ts) == x
    decreases |ts|
  {
    if ts != [] {
      HighlightNoMatch(x, ts[..|ts| - 1]);
      MarkSpec(x, ts[|ts| - 1]);
    }
  }

  /** The highlighter: a loop that replaces the text by its next token's pass, once per token. */
  method HighlightKeywords(text: string, tokens: seq<string>) returns (highlighted: string)
    ensures highlighted == HighlightAll(text, tokens)
    ensures tokens == [] ==> highlighted == text
    ensures |tokens| == 1 ==> |highlighted| == |text| + 13 * Count(Lower(text), Lower(tokens[0]))
  {
    highlighted := text;
    for i := 0 to |tokens|
      invariant highlighted == HighlightAll(text, tokens[..i])
    {
      assert tokens[..i + 1][..i] == tokens[..i];
      highlighted := Mark(highlighted, tokens[i]);
    }
    assert tokens[..|tokens|] == tokens;
    if |tokens| == 1 {
      MarkSpec(text, tokens[0]);
    }
  }
}
