/**
  The query-expansion agent (`agentic_search`): expand a natural-language
  query into keyword queries, either from the language model's reply or by
  the local synonym cross-product, run a search per expansion, keep the top
  5 of each, merge them keeping the first result seen for each id, and
  return the top 3 of the merge.
*/
module Agent {
  import opened Wrappers
  import opened Strings
  import opened Docs
  import opened Ranking
  import opened Search

  /** How the call to the remote language model ended. */
  datatype Remote =
    | Replied(text: string)  // the call returned and `response.text` could be read
    | FailedInside           // it raised inside the `try`: request error, timeout, unreadable reply
    | RaisedOutside          // it raised before the `try`, while building the model handle

  // ---------------------------------------------------------------------
  // Parsing the reply

  /** The characters stripped from both ends of a reply line: dash, bullet, space. */
  const Decoration: set<char> := {'-', '\U{2022}', ' '}

  /** A line with nothing but whitespace in it. */
  predicate Blank(line: string) {
    Strip(line, Whitespace) == []
  }

  /** The non-blank lines, each stripped of its decoration. */
  function KeepLines(lines: seq<string>): seq<string> {
    if lines == [] then []
    else (if Blank(lines[0]) then [] else [Strip(lines[0], Decoration)]) + KeepLines(lines[1..])
  }

  /**
    The expansions in a reply: the reply without surrounding whitespace is cut
    at each newline, blank lines are dropped, and each remaining line loses
    its leading and trailing dashes, bullets and spaces.
  */
  function ParseReply(text: string): seq<string> {
    KeepLines(SplitOn(Strip(text, Whitespace), '\n'))
  }

  function NonBlankCount(lines: seq<string>): nat {
    if lines == [] then 0 else (if Blank(lines[0]) then 0 else 1) + NonBlankCount(lines[1..])
  }

  lemma {:induction false} KeepLinesCount(lines: seq<string>)
    ensures |KeepLines(lines)| == NonBlankCount(lines) <= |lines|
  {
    if lines != [] {
      KeepLinesCount(lines[1..]);
    }
  }

  lemma {:induction false} KeepLinesFrom(lines: seq<string>)
    ensures forall y :: y in KeepLines(lines) ==> exists l :: l in lines && !Blank(l) && y == Strip(l, Decoration)
  {
    if lines != [] {
      KeepLinesFrom(lines[1..]);
      var head := if Blank(lines[0]) then [] else [Strip(lines[0], Decoration)];
      assert KeepLines(lines) == head + KeepLines(lines[1..]);
      forall y | y in KeepLines(lines) ensures exists l :: l in lines && !Blank(l) && y == Strip(l, Decoration) {
        if y in head {
          assert lines[0] in lines;
        } else {
          var l :| l in lines[1..] && !Blank(l) && y == Strip(l, Decoration);
          assert l in lines;
        }
      }
    }
  }

  /**
    Line by line and in order: a single line gives its stripped self unless it
    is blank, and the expansions of two runs of lines are those of the first
    followed by those of the second. Together these fix the expansions of
    every list of lines.
  */
  lemma KeepLinesOne(line: string)
    ensures KeepLines([line]) == if Blank(line) then [] else [Strip(line, Decoration)]
  {
    assert [line][1..] == [];
  }

  lemma {:induction false} KeepLinesAppend(a: seq<string>, b: seq<string>)
    ensures KeepLines(a + b) == KeepLines(a) + KeepLines(b)
  {
    if a != [] {
      var head := if Blank(a[0]) then [] else [Strip(a[0], Decoration)];
      assert (a + b)[0] == a[0];
      assert (a + b)[1..] == a[1..] + b;
      assert KeepLines(a + b) == head + KeepLines(a[1..] + b);
      KeepLinesAppend(a[1..], b);
      assert KeepLines(a) == head + KeepLines(a[1..]);
    } else {
      assert a + b == b;
    }
  }

  /**
    Parsing the reply keeps one expansion per non-blank line of the stripped
    reply; the lines, joined again with newlines, are the stripped reply; and
    each expansion is a non-blank line with every leading and trailing dash,
    bullet and space removed, so it holds no newline and is either empty or
    starts and ends with another character.
  */
  lemma ParseReplySpec(text: string)
    ensures var lines, r := SplitOn(Strip(text, Whitespace), '\n'), ParseReply(text);
      && Join(lines, "\n") == Strip(text, Whitespace)
      && |r| == NonBlankCount(lines) <= |lines|
      && (forall y :: y in r ==> exists l :: l in lines && !Blank(l) && y == Strip(l, Decoration))
      && (forall y :: y in r ==> '\n' !in y)
      && (forall y :: y in r && y != [] ==> y[0] !in Decoration && y[|y| - 1] !in Decoration)
  {
    var lines := SplitOn(Strip(text, Whitespace), '\n');
    SplitOnJoin(Strip(text, Whitespace), '\n');
    KeepLinesCount(lines);
    KeepLinesFrom(lines);
    forall y | y in ParseReply(text) ensures '\n' !in y {
      var l :| l in lines && !Blank(l) && y == Strip(l, Decoration);
      StripWithin(l, Decoration);
    }
  }

  // ---------------------------------------------------------------------
  // The local fallback

  /** The local synonym table: a known word's list of alternatives, otherwise the word alone. */
  function Synonyms(w: string): seq<string> {
    if w == "california" then ["california", "ca"]
    else if w == "nonrenewal" then ["nonrenewal", "non-renewal", "policy cancellation"]
    else if w == "insurance" then ["insurance", "policy"]
    else [w]
  }

  /** The words the synonym table knows: those with an alternative. */
  predicate Known(w: string) {
    |Synonyms(w)| > 1
  }

  function Options(words: seq<string>): (r: seq<seq<string>>)
    ensures |r| == |words|
  {
    seq(|words|, i requires 0 <= i < |words| => Synonyms(words[i]))
  }

  /** `[x] + p` for every `p` in `ps`. */
  function Prefixed(x: string, ps: seq<seq<string>>): seq<seq<string>> {
    seq(|ps|, i requires 0 <= i < |ps| => [x] + ps[i])
  }

  /** Every `x` of `l`, in order, in front of every `p` of `ps`, in order. */
  function Distribute(l: seq<string>, ps: seq<seq<string>>): seq<seq<string>> {
    if l == [] then [] else Prefixed(l[0], ps) + Distribute(l[1..], ps)
  }

  /** The Cartesian product in the order Python's itertools gives it: one pick from each list, the first list varying slowest. */
  function Product(ls: seq<seq<string>>): seq<seq<string>> {
    if ls == [] then [[]] else Distribute(ls[0], Product(ls[1..]))
  }

  /** The product of the lists' sizes. */
  function ProductSize(ls: seq<seq<string>>): nat {
    if ls == [] then 1 else |ls[0]| * ProductSize(ls[1..])
  }

  /** Each combination as one query, its words separated by single spaces. */
  function JoinEach(ps: seq<seq<string>>): (r: seq<string>)
    ensures |r| == |ps|
  {
    seq(|ps|, i requires 0 <= i < |ps| => Join(ps[i], " "))
  }

  /** The fallback expansions of `query`. */
  function Fallback(query: string): seq<string> {
    JoinEach(Product(Options(Split(Lower(query)))))
  }

  lemma {:induction false} DistributeLength(l: seq<string>, ps: seq<seq<string>>)
    ensures |Distribute(l, ps)| == |l| * |ps|
  {
    if l != [] {
      DistributeLength(l[1..], ps);
      assert |l| * |ps| == |ps| + (|l| - 1) * |ps|;
    }
  }

  /** The product has one entry per combination: as many as the product of the list sizes. */
  lemma {:induction false} ProductLength(ls: seq<seq<string>>)
    ensures |Product(ls)| == ProductSize(ls)
  {
    if ls != [] {
      ProductLength(ls[1..]);
      DistributeLength(ls[0], Product(ls[1..]));
    }
  }

  lemma {:induction false} DistributeMembers(l: seq<string>, ps: seq<seq<string>>)
    ensures forall p :: p in Distribute(l, ps) ==> p != [] && p[0] in l && p[1..] in ps
    ensures forall x, q :: x in l && q in ps ==> [x] + q in Distribute(l, ps)
  {
    if l != [] {
      DistributeMembers(l[1..], ps);
      var pre := Prefixed(l[0], ps);
      forall p | p in pre ensures p != [] && p[0] in l && p[1..] in ps {
        var i :| 0 <= i < |ps| && pre[i] == p;
        assert p[1..] == ps[i];
      }
      forall x, q | x in l && q in ps ensures [x] + q in Distribute(l, ps) {
        if x == l[0] {
          var i :| 0 <= i < |ps| && ps[i] == q;
          assert pre[i] == [x] + q;
        } else {
          assert x in l[1..];
        }
      }
    }
  }

  /**
    The product holds exactly the combinations: sequences with one entry per
    list, each entry taken from its list.
  */
  lemma {:induction false} ProductMembers(ls: seq<seq<string>>, c: seq<string>)
    ensures c in Product(ls) <==> |c| == |ls| && forall k :: 0 <= k < |ls| ==> c[k] in ls[k]
  {
    if ls == [] {
    } else {
      DistributeMembers(ls[0], Product(ls[1..]));
      if c != [] {
        ProductMembers(ls[1..], c[1..]);
        assert c == [c[0]] + c[1..];
        if |c| == |ls| && forall k :: 0 <= k < |ls| ==> c[k] in ls[k] {
          assert forall k :: 0 <= k < |ls| - 1 ==> c[1..][k] == c[k + 1] && ls[1..][k] == ls[k + 1];
        }
        if c in Product(ls) {
          forall k | 0 <= k < |ls| ensures c[k] in ls[k] {
            if k > 0 {
              assert c[1..][k - 1] == c[k] && ls[1..][k - 1] == ls[k];
            }
          }
        }
      }
    }
  }

  lemma {:induction false} ProductSingletons(ws: seq<string>)
    ensures Product(seq(|ws|, i requires 0 <= i < |ws| => [ws[i]])) == [ws]
  {
    var ls := seq(|ws|, i requires 0 <= i < |ws| => [ws[i]]);
    if ws != [] {
      var tail := seq(|ws[1..]|, i requires 0 <= i < |ws[1..]| => [ws[1..][i]]);
      assert ls[1..] == tail;
      ProductSingletons(ws[1..]);
      assert ls[0] == [ws[0]] && ls[0][1..] == [];
      assert Product(ls) == Distribute([ws[0]], [ws[1..]]);
      assert Distribute([ws[0]], [ws[1..]]) == Prefixed(ws[0], [ws[1..]]) + Distribute([], [ws[1..]]);
      assert Prefixed(ws[0], [ws[1..]]) == [[ws[0]] + ws[1..]];
      assert [ws[0]] + ws[1..] == ws;
    } else {
      assert ls == [];
    }
  }

  lemma ProductSizePositive(ls: seq<seq<string>>)
    requires forall k :: 0 <= k < |ls| ==> ls[k] != []
    ensures ProductSize(ls) >= 1
  {
    if ls != [] {
      ProductSizePositive(ls[1..]);
    }
  }

  /**
    The fallback yields one expansion per combination of synonyms, so as
    many as the product of the per-word synonym-list sizes, and never none.
  */
  lemma FallbackCount(query: string)
    ensures var words := Split(Lower(query));
      && |Fallback(query)| == ProductSize(Options(words))
      && |Fallback(query)| >= 1
  {
    var ls := Options(Split(Lower(query)));
    ProductLength(ls);
    ProductSizePositive(ls);
  }

  /** When no word is in the synonym table, the fallback is the single query of the lower-cased words joined by spaces. */
  lemma FallbackAllUnknown(query: string)
    requires forall w :: w in Split(Lower(query)) ==> !Known(w)
    ensures Fallback(query) == [Join(Split(Lower(query)), " ")]
  {
    var ws := Split(Lower(query));
    assert Options(ws) == seq(|ws|, i requires 0 <= i < |ws| => [ws[i]]) by {
      forall i | 0 <= i < |ws| ensures Options(ws)[i] == [ws[i]] {
        assert ws[i] in ws;
      }
    }
    ProductSingletons(ws);
  }

  /** The fallback branch: append each word's synonym list, then join every combination. */
  method FallbackExpansions(query: string) returns (allQueries: seq<string>)
    ensures allQueries == Fallback(query)
  {
    var expansions: seq<seq<string>> := [];
    var words := Split(Lower(query));
    for i := 0 to |words|
      invariant |expansions| == i
      invariant forall k :: 0 <= k < i ==> expansions[k] == Synonyms(words[k])
    {
      expansions := expansions + [Synonyms(words[i])];
    }
    assert expansions == Options(words);
    allQueries := JoinEach(Product(expansions));
  }

  // ---------------------------------------------------------------------
  // Expansion, fan-out and merge

  /** The expansions `agentic_search` goes on with after the remote step. */
  function Expansions(remote: Remote, query: string): seq<string> {
    match remote
    case Replied(text) => ParseReply(text)
    case FailedInside => []
    case RaisedOutside => Fallback(query)
  }

  /** The top 5 results of every expansion's search, in expansion order, or the first search's error. */
  function Gather(docs: seq<Doc>, exps: seq<string>): Result<seq<Scored>, SearchError>
    decreases |exps|
  {
    if exps == [] then Ok([])
    else
      match Gather(docs, exps[..|exps| - 1])
      case Err(e) => Err(e)
      case Ok(flat) =>
        match SearchSpec(docs, exps[|exps| - 1])
        case Err(e) => Err(e)
        case Ok(rs) => Ok(flat + Take(rs, 5))
  }

  /** The merge: each result is kept unless an earlier kept result has its id. */
  function Dedup(s: seq<Scored>): seq<Scored>
    decreases |s|
  {
    if s == [] then []
    else
      var d := Dedup(s[..|s| - 1]);
      if s[|s| - 1].id in Ids(d) then d else d + [s[|s| - 1]]
  }

  /** What `agentic_search(query)` returns, or the search error it lets through. */
  function AgentSpec(docs: seq<Doc>, remote: Remote, query: string): Result<seq<Scored>, SearchError> {
    match Gather(docs, Expansions(remote, query))
    case Err(e) => Err(e)
    case Ok(flat) => Ok(Take(SortDesc(Dedup(flat)), 3))
  }

  lemma DedupSnoc(s: seq<Scored>, x: Scored)
    ensures Dedup(s + [x]) == if x.id in Ids(Dedup(s)) then Dedup(s) else Dedup(s) + [x]
  {
    assert (s + [x])[..|s|] == s;
  }

  lemma IdsSnoc(s: seq<Scored>, x: Scored)
    ensures Ids(s + [x]) == Ids(s) + {x.id}
  {
    var r := s + [x];
    forall v | v in Ids(r) ensures v in Ids(s) + {x.id} {
      var i :| 0 <= i < |r| && r[i].id == v;
      if i < |s| {
        assert s[i].id == v;
      }
    }
    forall v | v in Ids(s) ensures v in Ids(r) {
      var i :| 0 <= i < |s| && s[i].id == v;
      assert r[i].id == v;
    }
    assert r[|s|].id == x.id;
  }

  /**
    The merge keeps one result per id and loses no id, and the result kept
    for an id is its first occurrence.
  */
  lemma {:induction false} DedupSpec(s: seq<Scored>)
    ensures var d := Dedup(s);
      && DistinctIds(d)
      && Ids(d) == Ids(s)
      && |d| <= |s|
      && (forall y :: y in d ==> exists i :: 0 <= i < |s| && s[i] == y && forall j :: 0 <= j < i ==> s[j].id != y.id)
    decreases |s|
  {
    if s != [] {
      var pre, x := s[..|s| - 1], s[|s| - 1];
      assert s == pre + [x];
      DedupSpec(pre);
      IdsSnoc(pre, x);
      var d0 := Dedup(pre);
      var d := Dedup(s);
      if x.id !in Ids(d0) {
        IdsSnoc(d0, x);
        forall i, j | 0 <= i < j < |d| ensures d[i].id != d[j].id {
          if j == |d0| {
            assert d[i] == d0[i];
            assert d0[i].id in Ids(d0);
          } else {
            assert d[i] == d0[i] && d[j] == d0[j];
          }
        }
      }
      forall y | y in d ensures exists i :: 0 <= i < |s| && s[i] == y && forall j :: 0 <= j < i ==> s[j].id != y.id {
        if y in d0 {
          var i :| 0 <= i < |pre| && pre[i] == y && forall j :: 0 <= j < i ==> pre[j].id != y.id;
          assert s[i] == y;
        } else {
          assert y == x && x.id !in Ids(d0);
          forall j | 0 <= j < |pre| ensures s[j].id != y.id {
            assert pre[j].id in Ids(pre);
          }
        }
      }
    }
  }

  /** One more expansion: the fan-out fails if it did already or this search fails, else gains this search's top 5. */
  lemma GatherStep(docs: seq<Doc>, exps: seq<string>, i: nat)
    requires i < |exps|
    ensures Gather(docs, exps[..i + 1]).Err? <==> Gather(docs, exps[..i]).Err? || Tokenize(exps[i]) == []
    ensures Gather(docs, exps[..i + 1]).Ok? ==>
      Gather(docs, exps[..i + 1]).value == Gather(docs, exps[..i]).value + Take(SearchSpec(docs, exps[i]).value, 5)
  {
    assert exps[..i + 1][..i] == exps[..i];
  }

  /** Once a search fails, the whole fan-out fails. */
  lemma {:induction false} GatherErrExtends(docs: seq<Doc>, exps: seq<string>, i: nat)
    requires i <= |exps| && Gather(docs, exps[..i]).Err?
    ensures Gather(docs, exps).Err?
    decreases |exps| - i
  {
    if i < |exps| {
      GatherStep(docs, exps, i);
      GatherErrExtends(docs, exps, i + 1);
    } else {
      assert exps[..i] == exps;
    }
  }

  /** The fan-out fails exactly when some expansion has no tokens. */
  lemma {:induction false} GatherFails(docs: seq<Doc>, exps: seq<string>)
    ensures Gather(docs, exps).Err? <==> exists i :: 0 <= i < |exps| && Tokenize(exps[i]) == []
    decreases |exps|
  {
    if exps != [] {
      var pre := exps[..|exps| - 1];
      GatherFails(docs, pre);
      if exists i :: 0 <= i < |exps| && Tokenize(exps[i]) == [] {
        var i :| 0 <= i < |exps| && Tokenize(exps[i]) == [];
        if i < |pre| {
          assert pre[i] == exps[i];
        }
      }
      if exists i :: 0 <= i < |pre| && Tokenize(pre[i]) == [] {
        var i :| 0 <= i < |pre| && Tokenize(pre[i]) == [];
        assert exps[i] == pre[i];
      }
    }
  }

  /**
    A fan-out that succeeds holds at most 5 results per expansion, each among
    the top 5 of its expansion's search.
  */
  lemma {:induction false} GatherResults(docs: seq<Doc>, exps: seq<string>)
    requires Gather(docs, exps).Ok?
    ensures |Gather(docs, exps).value| <= 5 * |exps|
    ensures forall x :: x in Gather(docs, exps).value ==>
      exists i :: 0 <= i < |exps| && SearchSpec(docs, exps[i]).Ok? && x in Take(SearchSpec(docs, exps[i]).value, 5)
    decreases |exps|
  {
    if exps != [] {
      var pre, q := exps[..|exps| - 1], exps[|exps| - 1];
      GatherResults(docs, pre);
      var flat := Gather(docs, pre).value;
      var top := Take(SearchSpec(docs, q).value, 5);
      assert Gather(docs, exps).value == flat + top;
      forall x | x in flat + top
        ensures exists i :: 0 <= i < |exps| && SearchSpec(docs, exps[i]).Ok? && x in Take(SearchSpec(docs, exps[i]).value, 5)
      {
        if x in flat {
          var i :| 0 <= i < |pre| && SearchSpec(docs, pre[i]).Ok? && x in Take(SearchSpec(docs, pre[i]).value, 5);
          assert pre[i] == exps[i];
        } else {
          assert x in top;
        }
      }
    }
  }

  /**
    The answer: at most 3 results with distinct ids, sorted by the whole
    tuple, largest first, taken from the merged results, and no merged result
    left out ranks above one returned. When the model call fails inside its
    `try` there is no expansion, and the answer is empty.
  */
  lemma AgentSpecResult(docs: seq<Doc>, remote: Remote, query: string)
    ensures remote.FailedInside? ==> AgentSpec(docs, remote, query) == Ok([])
    ensures AgentSpec(docs, remote, query).Ok? ==>
      var merged, r := Dedup(Gather(docs, Expansions(remote, query)).value), AgentSpec(docs, remote, query).value;
      && |r| == (if |merged| < 3 then |merged| else 3)
      && r == SortDesc(merged)[..|r|]
      && Sorted(r)
      && DistinctIds(r)
      && (forall x :: x in r ==> x in merged)
      && (forall x, y :: x in r && y in merged && y !in r ==> Ge(x, y))
  {
    if AgentSpec(docs, remote, query).Ok? {
      var flat := Gather(docs, Expansions(remote, query)).value;
      DedupSpec(flat);
      TopSpec(Dedup(flat), 3);
    }
  }

  lemma AgentSpecFails(docs: seq<Doc>, remote: Remote, query: string)
    requires Gather(docs, Expansions(remote, query)).Err?
    ensures AgentSpec(docs, remote, query) == Err(EmptyPredicate)
  {
    assert Gather(docs, Expansions(remote, query)).error.EmptyPredicate?;
  }

  lemma AgentSpecAnswers(docs: seq<Doc>, remote: Remote, query: string, flat: seq<Scored>)
    requires Gather(docs, Expansions(remote, query)) == Ok(flat)
    ensures AgentSpec(docs, remote, query) == Ok(Take(SortDesc(Dedup(flat)), 3))
  {
  }

  /** The first step of `agentic_search`: the model's expansions, or the fallback when the call raises outside its `try`. */
  method ExpandQuery(remote: Remote, query: string) returns (expansions: seq<string>)
    ensures expansions == Expansions(remote, query)
    ensures remote.FailedInside? ==> expansions == []
    ensures remote.RaisedOutside? ==> |expansions| >= 1
  {
    match remote {
      case Replied(text) =>
        expansions := ParseReply(text);
      case FailedInside =>
        expansions := [];
      case RaisedOutside =>
        expansions := FallbackExpansions(query);
        FallbackCount(query);
    }
  }

  /** The inner merge loop: append each result of `top` whose id has not been seen. */
  method MergeInto(seen: set<int>, results: seq<Scored>, ghost flat: seq<Scored>, top: seq<Scored>)
    returns (seen': set<int>, results': seq<Scored>)
    requires results == Dedup(flat) && seen == Ids(results)
    ensures results' == Dedup(flat + top) && seen' == Ids(results')
  {
    seen', results' := seen, results;
    assert flat + top[..0] == flat;
    for j := 0 to |top|
      invariant results' == Dedup(flat + top[..j])
      invariant seen' == Ids(results')
    {
      var x := top[j];
      assert flat + top[..j + 1] == (flat + top[..j]) + [x];
      DedupSnoc(flat + top[..j], x);
      if x.id !in seen' {
        IdsSnoc(results', x);
        seen' := seen' + {x.id};
        results' := results' + [x];
      }
    }
    assert top[..|top|] == top;
  }

  /**
    `agentic_search`: the remote step, then one search per expansion whose
    top 5 are merged by id, first seen kept, then the top 3 of the merge.
  */
  method AgenticSearch(docs: seq<Doc>, remote: Remote, query: string) returns (r: Result<seq<Scored>, SearchError>)
    ensures r == AgentSpec(docs, remote, query)
  {
    var expansions := ExpandQuery(remote, query);
    var seen: set<int> := {};
    var results: seq<Scored> := [];
    ghost var flat: seq<Scored> := [];
    for i := 0 to |expansions|
      invariant Gather(docs, expansions[..i]) == Ok(flat)
      invariant results == Dedup(flat)
      invariant seen == Ids(results)
    {
      var found := SearchDb(docs, expansions[i]);
      GatherStep(docs, expansions, i);
      if found.Err? {
        GatherErrExtends(docs, expansions, i + 1);
        AgentSpecFails(docs, remote, query);
        return Err(found.error);
      }
      var top := Take(found.value, 5);
      seen, results := MergeInto(seen, results, flat, top);
      flat := flat + top;
    }
    assert expansions[..|expansions|] == expansions;
    AgentSpecAnswers(docs, remote, query, flat);
    r := Ok(Take(SortDesc(results), 3));
  }
}
