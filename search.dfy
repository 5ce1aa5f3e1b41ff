/**
  Retrieval and scoring (`search_db`): tokenise the query, select the rows
  whose text contains some token, score each by term frequency plus half its
  clicks, cut and highlight a snippet around the first token, and return all
  of them sorted by the whole result tuple, largest first.
*/
module Search {
  import opened Wrappers
  import opened Strings
  import opened Docs
  import opened Ranking
  import Highlight

  /** A query without tokens builds a selection with an empty condition, which SQLite rejects. */
  datatype SearchError = EmptyPredicate

  /** The query's tokens: the whitespace-separated words of the lower-cased query. */
  function Tokenize(query: string): seq<string> {
    Split(Lower(query))
  }

  /**
    Tokens are non-empty, lower case, free of whitespace, and together they
    spell the non-whitespace characters of the lower-cased query, in order.
  */
  lemma TokenizeSpec(query: string)
    ensures var ts := Tokenize(query);
      && (forall i :: 0 <= i < |ts| ==> ts[i] != [] && IsLowerCase(ts[i]))
      && (forall i, c :: 0 <= i < |ts| && c in ts[i] ==> !IsSpace(c))
      && Concat(ts) == NonSpace(Lower(query))
  {
    SplitWords(Lower(query));
    var ts := Tokenize(query);
    forall c | c in Lower(query) ensures !IsUpper(c) {
      var k :| 0 <= k < |query| && Lower(query)[k] == c;
    }
    forall i | 0 <= i < |ts| ensures IsLowerCase(ts[i]) {
      forall j | 0 <= j < |ts[i]| ensures !IsUpper(ts[i][j]) {
        assert ts[i][j] in ts[i];
      }
    }
  }

  /**
    Token boundaries: whitespace in front of a query adds no token, and a
    maximal whitespace-free run in front is exactly the first token, lower-cased.
  */
  lemma TokenizeSkip(c: char, query: string)
    requires IsSpace(c)
    ensures Tokenize([c] + query) == Tokenize(query)
  {
    assert Lower([c] + query) == [c] + Lower(query);
    SplitSkip(c, Lower(query));
  }

  lemma TokenizeWord(w: string, query: string)
    requires w != [] && forall c :: c in w ==> !IsSpace(c)
    requires query == [] || IsSpace(query[0])
    ensures Tokenize(w + query) == [Lower(w)] + Tokenize(query)
  {
    assert Lower(w + query) == Lower(w) + Lower(query);
    forall c | c in Lower(w) ensures !IsSpace(c) {
      var k :| 0 <= k < |w| && Lower(w)[k] == c;
      assert w[k] in w;
    }
    SplitWord(Lower(w), Lower(query));
  }

  /** A query of whitespace alone has no tokens. */
  lemma TokenizeBlank(query: string)
    requires forall i :: 0 <= i < |query| ==> IsSpace(query[i])
    ensures Tokenize(query) == []
  {
    NonSpaceEmpty(Lower(query));
    SplitWords(Lower(query));
  }

  /** The selection condition: the text contains at least one token, ignoring ASCII case. */
  predicate Candidate(d: Doc, tokens: seq<string>) {
    exists k :: 0 <= k < |tokens| && ContainsCI(d.text, tokens[k])
  }

  /** The rows the query selects, in table order. */
  function Candidates(docs: seq<Doc>, tokens: seq<string>): (r: seq<Doc>)
    ensures |r| <= |docs|
    ensures forall d :: d in r <==> d in docs && Candidate(d, tokens)
  {
    if docs == [] then []
    else (if Candidate(docs[0], tokens) then [docs[0]] else []) + Candidates(docs[1..], tokens)
  }

  lemma {:induction false} CandidatesUniqueIds(docs: seq<Doc>, tokens: seq<string>)
    requires UniqueIds(docs)
    ensures UniqueIds(Candidates(docs, tokens))
  {
    if docs != [] {
      assert UniqueIds(docs[1..]) by {
        assert forall i :: 0 <= i < |docs| - 1 ==> docs[1..][i] == docs[i + 1];
      }
      CandidatesUniqueIds(docs[1..], tokens);
      var rest := Candidates(docs[1..], tokens);
      forall j | 0 <= j < |rest| ensures rest[j].id != docs[0].id {
        assert rest[j] in docs[1..];
      }
    }
  }

  /** Term frequency: the non-overlapping occurrences of each token in the lower-cased text, summed over the tokens. */
  function TermFrequency(text: string, tokens: seq<string>): nat {
    if tokens == [] then 0 else Count(Lower(text), tokens[0]) + TermFrequency(text, tokens[1..])
  }

  /** The score: term frequency plus half the click count. */
  function Score(d: Doc, tokens: seq<string>): real {
    TermFrequency(d.text, tokens) as real + d.clicks as real * 0.5
  }

  /**
    The slice of the text the snippet is cut from: 50 characters before and
    100 after the first case-insensitive occurrence of the first token, as far
    as the text goes, or the first 150 characters when that token is absent.
  */
  function Window(text: string, t: string): (w: (nat, nat))
    ensures w.0 <= w.1 <= |text|
    ensures match FindCI(text, t)
      case Some(s) =>
        && w.0 <= s && s + |t| <= w.1
        && s - w.0 == (if s < 50 then s else 50)
        && w.1 - (s + |t|) == (if |text| - (s + |t|) < 100 then |text| - (s + |t|) else 100)
      case None =>
        w.0 == 0 && w.1 == (if |text| < 150 then |text| else 150)
  {
    match FindCI(text, t)
    case Some(s) =>
      (if s < 50 then 0 else s - 50, if |text| < s + |t| + 100 then |text| else s + |t| + 100)
    case None =>
      (0, if |text| < 150 then |text| else 150)
  }

  /** The highlighted snippet of a row. */
  function Snippet(text: string, tokens: seq<string>): string
    requires tokens != []
  {
    var w := Window(text, tokens[0]);
    Highlight.HighlightAll(text[w.0..w.1], tokens)
  }

  /** The result tuple for one selected row. */
  function ScoreRow(d: Doc, tokens: seq<string>): Scored
    requires tokens != []
  {
    Scored(Score(d, tokens), d.id, d.path, Snippet(d.text, tokens), d.clicks)
  }

  function ScoreRows(rows: seq<Doc>, tokens: seq<string>): (r: seq<Scored>)
    requires tokens != []
    ensures |r| == |rows|
  {
    seq(|rows|, i requires 0 <= i < |rows| => ScoreRow(rows[i], tokens))
  }

  /** What `search_db(query)` returns, or the error it raises. */
  function SearchSpec(docs: seq<Doc>, query: string): Result<seq<Scored>, SearchError> {
    var tokens := Tokenize(query);
    if tokens == [] then Err(EmptyPredicate)
    else Ok(SortDesc(ScoreRows(Candidates(docs, tokens), tokens)))
  }

  /** `search_db`: the loop that appends one tuple per selected row, then the sort. */
  method SearchDb(docs: seq<Doc>, query: string) returns (r: Result<seq<Scored>, SearchError>)
    ensures r == SearchSpec(docs, query)
    ensures r.Err? <==> Tokenize(query) == []
  {
    var tokens := Tokenize(query);
    if tokens == [] {
      return Err(EmptyPredicate);
    }
    var results := Candidates(docs, tokens);
    var scored: seq<Scored> := [];
    for i := 0 to |results|
      invariant |scored| == i
      invariant forall k :: 0 <= k < i ==> scored[k] == ScoreRow(results[k], tokens)
    {
      var d := results[i];
      var score := Score(d, tokens);
      var w := Window(d.text, tokens[0]);
      var snippet := Highlight.HighlightKeywords(d.text[w.0..w.1], tokens);
      scored := scored + [Scored(score, d.id, d.path, snippet, d.clicks)];
    }
    assert scored == ScoreRows(results, tokens);
    return Ok(SortDesc(scored));
  }

  // ---------------------------------------------------------------------
  // Properties of the answer

  /**
    A search with tokens answers with exactly one result per selected row:
    the answer is sorted by the whole tuple, largest first, and is a
    permutation of the rows' tuples, so every result comes from a row whose
    text contains a token, and every such row appears.
  */
  lemma SearchSpecResults(docs: seq<Doc>, query: string)
    requires Tokenize(query) != []
    ensures SearchSpec(docs, query).Ok?
    ensures var tokens, rs := Tokenize(query), SearchSpec(docs, query).value;
      && |rs| == |Candidates(docs, tokens)|
      && Sorted(rs)
      && (forall x :: x in rs ==> exists d :: d in docs && Candidate(d, tokens) && x == ScoreRow(d, tokens))
      && (forall d :: d in docs && Candidate(d, tokens) ==> ScoreRow(d, tokens) in rs)
  {
    var tokens := Tokenize(query);
    var scored := ScoreRows(Candidates(docs, tokens), tokens);
    SortDescSpec(scored);
    var rs := SortDesc(scored);
    assert |rs| == |multiset(rs)| == |multiset(scored)| == |scored|;
    forall x | x in rs ensures exists d :: d in docs && Candidate(d, tokens) && x == ScoreRow(d, tokens) {
      assert x in multiset(scored);
      var k :| 0 <= k < |scored| && scored[k] == x;
      assert Candidates(docs, tokens)[k] in Candidates(docs, tokens);
    }
    forall d | d in docs && Candidate(d, tokens) ensures ScoreRow(d, tokens) in rs {
      var cs := Candidates(docs, tokens);
      var k :| 0 <= k < |cs| && cs[k] == d;
      assert scored[k] == ScoreRow(d, tokens);
      assert ScoreRow(d, tokens) in multiset(rs);
    }
  }

  /** A query whose tokens occur in no text answers with no result, not with an error. */
  lemma SearchNoMatch(docs: seq<Doc>, query: string)
    requires Tokenize(query) != []
    requires forall d :: d in docs ==> !Candidate(d, Tokenize(query))
    ensures SearchSpec(docs, query) == Ok([])
  {
    SearchSpecResults(docs, query);
  }

  /**
    The score is the tokens' occurrence count plus half the clicks, so never
    below half the clicks, and exactly half the clicks when no token occurs.
  */
  lemma ScoreBounds(d: Doc, query: string)
    requires Tokenize(query) != []
    ensures var tokens := Tokenize(query);
      && ScoreRow(d, tokens).score == TermFrequency(d.text, tokens) as real + d.clicks as real / 2.0
      && ScoreRow(d, tokens).score >= d.clicks as real / 2.0
      && (!Candidate(d, tokens) ==> ScoreRow(d, tokens).score == d.clicks as real / 2.0)
  {
    var tokens := Tokenize(query);
    if !Candidate(d, tokens) {
      TokenizeSpec(query);
      TermFrequencyZero(d.text, tokens);
    }
  }

  lemma {:induction false} TermFrequencyZero(text: string, tokens: seq<string>)
    requires forall k :: 0 <= k < |tokens| ==> !ContainsCI(text, tokens[k]) && IsLowerCase(tokens[k])
    ensures TermFrequency(text, tokens) == 0
  {
    if tokens != [] {
      CountNoMatch(text, tokens[0]);
      TermFrequencyZero(text, tokens[1..]);
    }
  }

  /** A lower-case token that does not occur in the text, ignoring case, is counted zero times. */
  lemma CountNoMatch(text: string, t: string)
    requires IsLowerCase(t) && !ContainsCI(text, t)
    ensures Count(Lower(text), t) == 0
  {
    Highlight.ScanHits(text, t);
    Highlight.ScanNoMatch(text, t);
    assert Lower(t) == t;
  }

  /**
    Ranking: of two results, the one with the higher score comes first; at
    equal scores, when the table's ids are unique, the larger id comes first.
  */
  lemma SearchOrder(docs: seq<Doc>, query: string, i: int, j: int)
    requires Tokenize(query) != [] && UniqueIds(docs)
    requires 0 <= i < j < |SearchSpec(docs, query).value|
    ensures var rs := SearchSpec(docs, query).value;
      && rs[i].score >= rs[j].score
      && (rs[i].score == rs[j].score ==> rs[i].id > rs[j].id)
  {
    var tokens := Tokenize(query);
    var cs := Candidates(docs, tokens);
    var scored := ScoreRows(cs, tokens);
    SortDescSpec(scored);
    CandidatesUniqueIds(docs, tokens);
    assert DistinctIds(scored) by {
      forall a, b | 0 <= a < b < |scored| ensures scored[a].id != scored[b].id {
        assert scored[a].id == cs[a].id && scored[b].id == cs[b].id;
      }
    }
    SortDescIds(scored);
    var rs := SortDesc(scored);
    assert Ge(rs[i], rs[j]);
    assert rs[i].id != rs[j].id;
  }
}
