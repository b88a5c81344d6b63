/** The keyword strategy of `RetrievalManager.retrieve_similar_cases`: scan the
    history in the order given and keep each case whose lower-cased input text
    contains any whitespace token of the lower-cased query, stopping once
    `top_k` cases are kept. */
module Retrieval {
  import opened Text
  import opened Sequences
  import opened Store

  /** The tokens of the query: `query.lower().split()`. */
  function QueryTokens(query: string): (r: seq<string>)
  {
    Split(Lower(query))
  }

  /** The test of the scan: some query token occurs in the case's lower-cased
      `input_text`. */
  predicate Matches(c: Row, query: string)
  {
    ContainsAny(Lower(c.inputText), QueryTokens(query))
  }

  /** Every matching case of `history`, in order. */
  function MatchingCases(history: seq<Row>, query: string): seq<Row>
  {
    Filter(history, c => Matches(c, query))
  }

  /** How many cases the scan keeps at most: the bound is checked only after a
      case is appended, so a `top_k` below 1 still lets one case through. */
  function Limit(topK: int): (n: nat)
  {
    if topK < 1 then 1 else topK
  }

  /** `retrieve_similar_cases(query, top_k)` over the rows `history`. The
      source's `top_k` defaults to 3, which is what the app calls it with;
      here `topK` is always passed. */
  method RetrieveSimilarCases(history: seq<Row>, query: string, topK: int)
    returns (similar: seq<Row>)
    ensures similar == Take(MatchingCases(history, query), Limit(topK))
    ensures IsSubsequence(similar, history)
    ensures forall k :: 0 <= k < |similar| ==> Matches(similar[k], query)
    ensures |similar| <= Limit(topK)
    ensures NewestFirst(history) ==> NewestFirst(similar)
  {
    similar := [];
    var i := 0;
    while i < |history|
      invariant 0 <= i <= |history|
      invariant similar == MatchingCases(history[..i], query)
      invariant |similar| < Limit(topK)
    {
      assert history[..i + 1] == history[..i] + [history[i]];
      FilterAppend(history[..i], [history[i]], c => Matches(c, query));
      if Matches(history[i], query) {
        similar := similar + [history[i]];
        if |similar| >= topK {
          ResultAtPrefix(history, query, i + 1, Limit(topK));
          break;
        }
      }
      i := i + 1;
    }
    assert history[..|history|] == history;
    RetrievalFacts(history, query, Limit(topK));
  }

  // ---------------------------------------------------------------------
  // Lemmas

  /** Once the matches of a prefix reach the limit, they are the first
      matches of the whole history. */
  lemma ResultAtPrefix(history: seq<Row>, query: string, n: nat, limit: nat)
    requires n <= |history|
    requires |MatchingCases(history[..n], query)| == limit
    ensures Take(MatchingCases(history, query), limit) == MatchingCases(history[..n], query)
  {
    assert history == history[..n] + history[n..];
    FilterAppend(history[..n], history[n..], c => Matches(c, query));
  }

  /** The first `limit` matches are an order-preserving sublist of the
      history, all of them match, and they stay newest first. */
  lemma RetrievalFacts(history: seq<Row>, query: string, limit: nat)
    ensures var r := Take(MatchingCases(history, query), limit);
      && IsSubsequence(r, history)
      && (forall k :: 0 <= k < |r| ==> Matches(r[k], query))
      && (NewestFirst(history) ==> NewestFirst(r))
  {
    var all := MatchingCases(history, query);
    var r := Take(all, limit);
    FilterIsSubsequence(history, c => Matches(c, query));
    FilterAllSatisfy(history, c => Matches(c, query));
    SubsequencePrefix(all, history, |r|);
    assert r == all[..|r|];
    if NewestFirst(history) {
      SubsequenceNewestFirst(r, history);
    }
  }

  /** A sublist of a newest-first history is newest first. */
  lemma {:induction false} SubsequenceNewestFirst(a: seq<Row>, b: seq<Row>)
    requires IsSubsequence(a, b)
    requires NewestFirst(b)
    ensures NewestFirst(a)
    decreases |b|
  {
    if a != [] {
      assert NewestFirst(b[1..]) by {
        forall i, j | 0 <= i < j < |b[1..]|
          ensures LexLe(b[1..][j].timestamp, b[1..][i].timestamp)
        {
          assert b[1..][j] == b[j + 1] && b[1..][i] == b[i + 1];
        }
      }
      if a[0] == b[0] && IsSubsequence(a[1..], b[1..]) {
        SubsequenceNewestFirst(a[1..], b[1..]);
        forall j | 0 < j < |a|
          ensures LexLe(a[j].timestamp, a[0].timestamp)
        {
          assert a[j] == a[1..][j - 1];
          SubsequenceMembers(a[1..], b[1..], a[j]);
          var k :| 0 <= k < |b[1..]| && b[1..][k] == a[j];
          assert b[k + 1] == a[j];
        }
        forall i, j | 0 <= i < j < |a|
          ensures LexLe(a[j].timestamp, a[i].timestamp)
        {
          if i > 0 {
            assert a[i] == a[1..][i - 1] && a[j] == a[1..][j - 1];
          }
        }
      } else {
        SubsequenceNewestFirst(a, b[1..]);
      }
    }
  }

  /** Fewer matches than the limit are returned as they are, with no
      padding; a `top_k` of zero or less still returns the first match. */
  lemma RetrievalLimit(history: seq<Row>, query: string, topK: int)
    ensures var all := MatchingCases(history, query);
      && (|all| <= Limit(topK) ==> Take(all, Limit(topK)) == all)
      && (topK <= 0 && all != [] ==> Take(all, Limit(topK)) == [all[0]])
  {
  }

  /** An empty history, or a query without tokens, retrieves nothing. */
  lemma NothingToRetrieve(history: seq<Row>, query: string, limit: nat)
    requires history == [] || IsBlank(query)
    ensures Take(MatchingCases(history, query), limit) == []
  {
    if history != [] {
      LowerKeepsBlank(query);
      SplitEmptyIffBlank(Lower(query));
      var all := MatchingCases(history, query);
      if all != [] {
        FilterMembers(history, c => Matches(c, query), all[0]);
        assert false;
      }
    }
  }

  /** Lower-casing turns no character into or out of whitespace. */
  lemma LowerKeepsBlank(s: string)
    ensures IsBlank(Lower(s)) <==> IsBlank(s)
  {
    assert forall i :: 0 <= i < |s| ==> (IsSpace(Lower(s)[i]) <==> IsSpace(s[i]));
  }
}
