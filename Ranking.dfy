/** The top-posts ranking of `Store::get_top_posts`
    (`SELECT post_id, COUNT(*) AS number FROM votes GROUP BY post_id
    ORDER BY number DESC LIMIT 10`), over the votes table's post_id column. */
module Ranking {

  /** The number of votes a post has: the size of its GROUP BY group. */
  function VoteCount(column: seq<int>, post: int): nat {
    multiset(column)[post]
  }

  predicate Distinct(s: seq<int>) {
    forall i, j :: 0 <= i < j < |s| ==> s[i] != s[j]
  }

  /** Non-increasing vote counts along `r`. */
  predicate ByVotesDescending(column: seq<int>, r: seq<int>) {
    forall i, j :: 0 <= i < j < |r| ==> VoteCount(column, r[i]) >= VoteCount(column, r[j])
  }

  /** No candidate left out of `r` has more votes than one in `r`. */
  predicate NoneBetterLeftOut(candidates: seq<int>, column: seq<int>, r: seq<int>) {
    forall p, i :: p in candidates && p !in r && 0 <= i < |r| ==> VoteCount(column, p) <= VoteCount(column, r[i])
  }

  /** Every result the query may return: distinct post ids that have votes,
      in non-increasing vote count, `limit` of them unless fewer posts have
      votes (then all of them), and no post left out has more votes than one
      kept. Ties may come in any order. */
  ghost predicate IsTopRanking(column: seq<int>, r: seq<int>, limit: nat) {
    && Distinct(r)
    && |r| <= limit
    && (forall i :: 0 <= i < |r| ==> r[i] in column)
    && ByVotesDescending(column, r)
    && (|r| < limit ==> forall p :: p in column ==> p in r)
    && NoneBetterLeftOut(column, column, r)
  }

  /** The groups: each post id that has votes, once, in order of its first vote. */
  function Groups(column: seq<int>): (r: seq<int>)
    ensures Distinct(r)
    ensures forall p :: p in r <==> p in column
  {
    if column == [] then []
    else
      var earlier := Groups(column[..|column| - 1]);
      var last := column[|column| - 1];
      assert column == column[..|column| - 1] + [last];
      if last in earlier then earlier else earlier + [last]
  }

  /** Index of a candidate with the most votes, the earliest on ties. */
  function MostVoted(candidates: seq<int>, column: seq<int>): (k: nat)
    requires |candidates| > 0
    ensures k < |candidates|
  {
    if |candidates| == 1 then 0
    else
      var k := MostVoted(candidates[1..], column) + 1;
      if VoteCount(column, candidates[0]) >= VoteCount(column, candidates[k]) then 0 else k
  }

  /** No candidate has more votes than the one `MostVoted` picks. */
  lemma {:induction false} MostVotedIsMax(candidates: seq<int>, column: seq<int>)
    requires |candidates| > 0
    ensures forall j :: 0 <= j < |candidates| ==>
      VoteCount(column, candidates[j]) <= VoteCount(column, candidates[MostVoted(candidates, column)])
  {
    if |candidates| > 1 {
      MostVotedIsMax(candidates[1..], column);
      var k := MostVoted(candidates[1..], column) + 1;
      forall j | 1 <= j < |candidates|
        ensures VoteCount(column, candidates[j]) <= VoteCount(column, candidates[k])
      {
        assert candidates[j] == candidates[1..][j - 1];
        assert candidates[k] == candidates[1..][k - 1];
      }
    }
  }

  function RemoveAt(s: seq<int>, k: nat): seq<int>
    requires k < |s|
  {
    s[..k] + s[k + 1..]
  }

  /** `RemoveAt` drops one element and keeps every element but the one at `k`. */
  lemma RemoveAtMembers(s: seq<int>, k: nat)
    requires k < |s|
    ensures |RemoveAt(s, k)| == |s| - 1
    ensures forall x :: x in RemoveAt(s, k) ==> x in s
    ensures forall x :: x in s && x != s[k] ==> x in RemoveAt(s, k)
  {
    var r := RemoveAt(s, k);
    forall x | x in r ensures x in s {
      var i :| 0 <= i < |r| && r[i] == x;
      assert r[i] == s[if i < k then i else i + 1];
    }
    forall x | x in s && x != s[k] ensures x in r {
      var i :| 0 <= i < |s| && s[i] == x;
      assert r[if i < k then i else i - 1] == x;
    }
  }

  lemma RemoveAtDistinct(s: seq<int>, k: nat)
    requires k < |s| && Distinct(s)
    ensures Distinct(RemoveAt(s, k))
    ensures s[k] !in RemoveAt(s, k)
  {
    var r := RemoveAt(s, k);
    forall i | 0 <= i < |r| ensures r[i] == s[if i < k then i else i + 1] {
    }
  }

  /** Repeatedly takes the most-voted remaining candidate, `limit` times. */
  function SelectTop(candidates: seq<int>, column: seq<int>, limit: nat): seq<int>
    decreases limit
  {
    if limit == 0 || candidates == [] then []
    else
      var k := MostVoted(candidates, column);
      [candidates[k]] + SelectTop(RemoveAt(candidates, k), column, limit - 1)
  }

  /** The selection keeps only candidates. */
  lemma {:induction false} SelectTopSubset(candidates: seq<int>, column: seq<int>, limit: nat)
    ensures forall x :: x in SelectTop(candidates, column, limit) ==> x in candidates
    decreases limit
  {
    if limit > 0 && candidates != [] {
      var k := MostVoted(candidates, column);
      RemoveAtMembers(candidates, k);
      SelectTopSubset(RemoveAt(candidates, k), column, limit - 1);
    }
  }

  /** The selection keeps `limit` candidates, or all of them when there are
      fewer. */
  lemma {:induction false} SelectTopCovers(candidates: seq<int>, column: seq<int>, limit: nat)
    ensures var r := SelectTop(candidates, column, limit);
      && |r| == (if limit < |candidates| then limit else |candidates|)
      && (|r| == |candidates| ==> forall p :: p in candidates ==> p in r)
    decreases limit
  {
    if limit > 0 && candidates != [] {
      var k := MostVoted(candidates, column);
      var others := RemoveAt(candidates, k);
      RemoveAtMembers(candidates, k);
      SelectTopCovers(others, column, limit - 1);
      PrependKeepsCovering(candidates, others, candidates[k], SelectTop(others, column, limit - 1), limit);
    }
  }

  /** Putting a candidate in front of a selection from the others covers the
      candidates as the selection covered the others. */
  lemma PrependKeepsCovering(candidates: seq<int>, others: seq<int>, best: int, rest: seq<int>, limit: nat)
    requires limit > 0 && best in candidates && |others| == |candidates| - 1
    requires forall x :: x in candidates && x != best ==> x in others
    requires |rest| == (if limit - 1 < |others| then limit - 1 else |others|)
    requires |rest| == |others| ==> forall p :: p in others ==> p in rest
    ensures |[best] + rest| == (if limit < |candidates| then limit else |candidates|)
    ensures |[best] + rest| == |candidates| ==> forall p :: p in candidates ==> p in [best] + rest
  {
  }

  /** The selection keeps each candidate at most once. */
  lemma {:induction false} SelectTopDistinct(candidates: seq<int>, column: seq<int>, limit: nat)
    requires Distinct(candidates)
    ensures Distinct(SelectTop(candidates, column, limit))
    decreases limit
  {
    if limit > 0 && candidates != [] {
      var k := MostVoted(candidates, column);
      var others := RemoveAt(candidates, k);
      RemoveAtDistinct(candidates, k);
      SelectTopDistinct(others, column, limit - 1);
      SelectTopSubset(others, column, limit - 1);
      PrependKeepsDistinct(candidates[k], SelectTop(others, column, limit - 1));
    }
  }

  lemma PrependKeepsDistinct(x: int, s: seq<int>)
    requires Distinct(s) && x !in s
    ensures Distinct([x] + s)
  {
    var r := [x] + s;
    forall i, j | 0 <= i < j < |r| ensures r[i] != r[j] {
      assert r[j] == s[j - 1];
      if i > 0 {
        assert r[i] == s[i - 1];
      }
    }
  }

  /** Every candidate the selection keeps has at least as many votes as all
      it keeps after it. */
  lemma {:induction false} SelectTopSorted(candidates: seq<int>, column: seq<int>, limit: nat)
    ensures ByVotesDescending(column, SelectTop(candidates, column, limit))
    decreases limit
  {
    if limit > 0 && candidates != [] {
      var k := MostVoted(candidates, column);
      var others := RemoveAt(candidates, k);
      RemoveAtMembers(candidates, k);
      SelectTopSubset(others, column, limit - 1);
      SelectTopSorted(others, column, limit - 1);
      var rest := SelectTop(others, column, limit - 1);
      HeadOutvotesRest(candidates, k, rest, column);
      PrependKeepsDescending(column, candidates[k], rest);
      assert SelectTop(candidates, column, limit) == [candidates[k]] + rest;
    }
  }

  lemma PrependKeepsDescending(column: seq<int>, best: int, rest: seq<int>)
    requires ByVotesDescending(column, rest)
    requires forall i :: 0 <= i < |rest| ==> VoteCount(column, rest[i]) <= VoteCount(column, best)
    ensures ByVotesDescending(column, [best] + rest)
  {
    var r := [best] + rest;
    forall i, j | 0 <= i < j < |r| ensures VoteCount(column, r[i]) >= VoteCount(column, r[j]) {
      assert r[j] == rest[j - 1];
      if i > 0 {
        assert r[i] == rest[i - 1];
      }
    }
  }

  lemma HeadOutvotesRest(candidates: seq<int>, k: nat, rest: seq<int>, column: seq<int>)
    requires |candidates| > 0 && k == MostVoted(candidates, column)
    requires forall x :: x in rest ==> x in candidates
    ensures forall i :: 0 <= i < |rest| ==> VoteCount(column, rest[i]) <= VoteCount(column, candidates[k])
  {
    MostVotedIsMax(candidates, column);
    forall i | 0 <= i < |rest| ensures VoteCount(column, rest[i]) <= VoteCount(column, candidates[k]) {
      assert rest[i] in rest;
      var m :| 0 <= m < |candidates| && candidates[m] == rest[i];
    }
  }

  /** The selection passes over no candidate with more votes than one it keeps. */
  lemma {:induction false} SelectTopExcludes(candidates: seq<int>, column: seq<int>, limit: nat)
    ensures NoneBetterLeftOut(candidates, column, SelectTop(candidates, column, limit))
    decreases limit
  {
    if limit > 0 && candidates != [] {
      var k := MostVoted(candidates, column);
      var others := RemoveAt(candidates, k);
      RemoveAtMembers(candidates, k);
      MostVotedIsMax(candidates, column);
      SelectTopExcludes(others, column, limit - 1);
      PrependKeepsExcluding(candidates, others, column, candidates[k], SelectTop(others, column, limit - 1));
    }
  }

  /** Putting the best candidate in front of a selection from the others
      still passes over no better candidate. */
  lemma PrependKeepsExcluding(candidates: seq<int>, others: seq<int>, column: seq<int>, best: int, rest: seq<int>)
    requires forall x :: x in candidates && x != best ==> x in others
    requires forall x :: x in candidates ==> VoteCount(column, x) <= VoteCount(column, best)
    requires NoneBetterLeftOut(others, column, rest)
    ensures NoneBetterLeftOut(candidates, column, [best] + rest)
  {
    var r := [best] + rest;
    forall p, i | p in candidates && p !in r && 0 <= i < |r|
      ensures VoteCount(column, p) <= VoteCount(column, r[i])
    {
      if i > 0 {
        assert r[i] == rest[i - 1];
      }
    }
  }

  /** The ranking `get_top_posts` returns: ten groups, most votes first. */
  function Top(column: seq<int>): (r: seq<int>)
    ensures IsTopRanking(column, r, 10)
  {
    SelectionOfGroupsIsRanking(column, 10);
    SelectTop(Groups(column), column, 10)
  }

  lemma SelectionOfGroupsIsRanking(column: seq<int>, limit: nat)
    ensures IsTopRanking(column, SelectTop(Groups(column), column, limit), limit)
  {
    var groups := Groups(column);
    var r := SelectTop(groups, column, limit);
    SelectTopCovers(groups, column, limit);
    SelectTopDistinct(groups, column, limit);
    SelectTopSubset(groups, column, limit);
    SelectTopSorted(groups, column, limit);
    SelectTopExcludes(groups, column, limit);
    forall i | 0 <= i < |r| ensures r[i] in column {
      assert r[i] in r;
      assert r[i] in groups;
    }
    if |r| < limit {
      assert |r| == |groups|;
      forall p | p in column ensures p in r {
        assert p in groups;
      }
    }
    forall p, i | p in column && p !in r && 0 <= i < |r|
      ensures VoteCount(column, p) <= VoteCount(column, r[i])
    {
      assert p in groups;
    }
  }

  /** Whatever order ties come in, a non-empty ranking starts with a post that
      has the most votes of all. */
  lemma RankingLeaderHasMostVotes(column: seq<int>, r: seq<int>, limit: nat, p: int)
    requires IsTopRanking(column, r, limit) && |r| > 0 && p in column
    ensures VoteCount(column, p) <= VoteCount(column, r[0])
  {
    if p in r {
      var i :| 0 <= i < |r| && r[i] == p;
      if i > 0 {
        assert VoteCount(column, r[0]) >= VoteCount(column, r[i]);
      }
    }
  }

  /** When any post has votes and the limit is positive, the ranking is not empty. */
  lemma RankingNonEmpty(column: seq<int>, r: seq<int>, limit: nat)
    requires IsTopRanking(column, r, limit) && limit > 0 && |column| > 0
    ensures |r| > 0
  {
    var first := column[0];
    assert first in column;
  }
}
