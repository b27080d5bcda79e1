/**
 * The vote ranking of Elle.get_classement: the fetched entries sorted by
 * their vote count (votes.to_i), largest first.
 */
module Ranking {
  import opened RubyText

  /** One element of the fetched vote list: its "blog_id" and "votes" fields, both strings. */
  datatype Entry = Entry(blogId: string, votes: string)

  /** The sort key of an entry: votes.to_i. */
  function Votes(e: Entry): int {
    ToI(e.votes)
  }

  predicate Descending(xs: seq<int>) {
    forall i, j :: 0 <= i < j < |xs| ==> xs[i] >= xs[j]
  }

  /** No entry has more votes than an entry before it. */
  predicate NonIncreasing(s: seq<Entry>) {
    forall i, j :: 0 <= i < j < |s| ==> Votes(s[i]) >= Votes(s[j])
  }

  /**
   * The vote counts of a list of entries, in list order: the entries are
   * ordered by non-increasing votes exactly when their counts descend.
   */
  function VoteCounts(s: seq<Entry>): (vs: seq<int>)
    ensures |vs| == |s|
    ensures forall i :: 0 <= i < |s| ==> vs[i] == Votes(s[i])
    ensures Descending(vs) <==> NonIncreasing(s)
  {
    seq(|s|, i requires 0 <= i < |s| => Votes(s[i]))
  }

  /**
   * `ranked` is a ranking of `fetched`: the same entries, as often each,
   * ordered by non-increasing vote count.  Entries with equal vote counts
   * may come in any order, as Ruby's sort is not stable.
   */
  predicate IsRanking(fetched: seq<Entry>, ranked: seq<Entry>) {
    NonIncreasing(ranked) && multiset(ranked) == multiset(fetched)
  }

  /** An entry with at least the votes of every entry of a ranked list can lead it. */
  lemma NonIncreasingCons(x: Entry, t: seq<Entry>)
    requires NonIncreasing(t)
    requires forall k :: 0 <= k < |t| ==> Votes(x) >= Votes(t[k])
    ensures NonIncreasing([x] + t)
  {
  }

  /** Puts `e` into a ranked list, in front of the first entry that has at most as many votes. */
  function Insert(e: Entry, s: seq<Entry>): (r: seq<Entry>)
    requires NonIncreasing(s)
    ensures NonIncreasing(r)
    ensures multiset(r) == multiset(s) + multiset{e}
    ensures |r| == |s| + 1
  {
    if s == [] || Votes(e) >= Votes(s[0]) then
      assert forall k :: 0 <= k < |s| ==> Votes(e) >= Votes(s[k]) by {
        if s != [] { assert forall k :: 0 < k < |s| ==> Votes(s[0]) >= Votes(s[k]); }
      }
      NonIncreasingCons(e, s);
      [e] + s
    else
      var t := Insert(e, s[1..]);
      assert s == [s[0]] + s[1..];
      HeadOutvotesInsertion(s, e, t);
      NonIncreasingCons(s[0], t);
      [s[0]] + t
  }

  /** The head of a ranked list outvotes the entries of its tail with a less-voted entry inserted. */
  lemma HeadOutvotesInsertion(s: seq<Entry>, e: Entry, t: seq<Entry>)
    requires s != [] && NonIncreasing(s) && Votes(e) < Votes(s[0])
    requires multiset(t) == multiset(s[1..]) + multiset{e}
    ensures forall k :: 0 <= k < |t| ==> Votes(s[0]) >= Votes(t[k])
  {
    forall k | 0 <= k < |t| ensures Votes(s[0]) >= Votes(t[k]) {
      assert t[k] in multiset(t);
      if t[k] != e {
        assert t[k] in multiset(s[1..]);
        var m :| 0 <= m < |s[1..]| && s[1..][m] == t[k];
        assert s[m + 1] == t[k];
      }
    }
  }

  /**
   * Elle.get_classement on an already fetched list: the entries sorted with
   * the comparator `b.votes.to_i <=> a.votes.to_i`, that is, by votes, largest
   * first.  This is one particular ranking; see RankingsAgreeOnVotes for why
   * the choice among equal vote counts does not show in the vote order.
   */
  function GetClassement(fetched: seq<Entry>): (ranked: seq<Entry>)
    ensures IsRanking(fetched, ranked)
    ensures |ranked| == |fetched|
  {
    if fetched == [] then []
    else
      assert fetched == [fetched[0]] + fetched[1..];
      assert multiset(fetched) == multiset(fetched[1..]) + multiset{fetched[0]};
      Insert(fetched[0], GetClassement(fetched[1..]))
  }

  lemma VoteCountsOfConcat(a: seq<Entry>, b: seq<Entry>)
    ensures VoteCounts(a + b) == VoteCounts(a) + VoteCounts(b)
  {
  }

  /** Entries that are a permutation of each other have vote counts that are a permutation of each other. */
  lemma {:induction false} VoteCountsOfPermutation(a: seq<Entry>, b: seq<Entry>)
    requires multiset(a) == multiset(b)
    ensures multiset(VoteCounts(a)) == multiset(VoteCounts(b))
    decreases |a|
  {
    if a == [] {
      assert |b| == |multiset(b)| == 0;
    } else {
      assert a[0] in multiset(b);
      var j :| 0 <= j < |b| && b[j] == a[0];
      var rest := b[..j] + b[j + 1..];
      assert b == b[..j] + [b[j]] + b[j + 1..];
      assert a == [a[0]] + a[1..];
      assert multiset(b) == multiset(b[..j]) + multiset{b[j]} + multiset(b[j + 1..]);
      assert multiset(rest) == multiset(b[..j]) + multiset(b[j + 1..]);
      assert multiset(a) == multiset{a[0]} + multiset(a[1..]);
      assert multiset(a[1..]) == multiset(a) - multiset{a[0]};
      assert multiset(rest) == multiset(b) - multiset{b[j]};
      VoteCountsOfPermutation(a[1..], rest);
      VoteCountsOfConcat(b[..j] + [b[j]], b[j + 1..]);
      VoteCountsOfConcat(b[..j], [b[j]]);
      VoteCountsOfConcat(b[..j], b[j + 1..]);
      VoteCountsOfConcat([a[0]], a[1..]);
    }
  }

  /** The head of a descending list is at least any of its elements. */
  lemma DescendingHeadIsMax(x: seq<int>, v: int)
    requires Descending(x) && v in multiset(x)
    ensures x != [] && x[0] >= v
  {
    var j :| 0 <= j < |x| && x[j] == v;
  }

  lemma DescendingTail(x: seq<int>)
    requires Descending(x) && x != []
    ensures Descending(x[1..])
  {
  }

  /** Removing equal heads from lists with the same elements leaves tails with the same elements. */
  lemma TailsSameElements(x: seq<int>, y: seq<int>)
    requires x != [] && y != [] && x[0] == y[0]
    requires multiset(x) == multiset(y)
    ensures multiset(x[1..]) == multiset(y[1..])
  {
    assert x == [x[0]] + x[1..];
    assert y == [y[0]] + y[1..];
    assert multiset(x[1..]) == multiset(x) - multiset{x[0]};
    assert multiset(y[1..]) == multiset(y) - multiset{y[0]};
  }

  /** Two descending lists of the same numbers are equal. */
  lemma {:induction false} DescendingUnique(x: seq<int>, y: seq<int>)
    requires Descending(x) && Descending(y)
    requires multiset(x) == multiset(y)
    ensures x == y
    decreases |x|
  {
    if x == [] {
      assert |y| == |multiset(y)| == 0;
    } else {
      assert x[0] in multiset(x);
      DescendingHeadIsMax(y, x[0]);
      DescendingHeadIsMax(x, y[0]);
      TailsSameElements(x, y);
      DescendingTail(x);
      DescendingTail(y);
      DescendingUnique(x[1..], y[1..]);
      assert x == [x[0]] + x[1..] && y == [y[0]] + y[1..];
    }
  }

  /**
   * Any two rankings of the same fetched list list the same vote counts in
   * the same order: they differ at most in the order of entries with equal votes.
   */
  lemma RankingsAgreeOnVotes(fetched: seq<Entry>, r1: seq<Entry>, r2: seq<Entry>)
    requires IsRanking(fetched, r1) && IsRanking(fetched, r2)
    ensures |r1| == |r2| == |fetched|
    ensures VoteCounts(r1) == VoteCounts(r2)
  {
    assert |r1| == |multiset(r1)| == |multiset(fetched)| == |fetched|;
    assert |r2| == |multiset(r2)| == |multiset(fetched)| == |fetched|;
    VoteCountsOfPermutation(r1, r2);
    DescendingUnique(VoteCounts(r1), VoteCounts(r2));
  }

  /** The first entry of a ranking has the most votes of all fetched entries. */
  lemma RankingStartsWithMostVotes(fetched: seq<Entry>, ranked: seq<Entry>, e: Entry)
    requires IsRanking(fetched, ranked)
    requires e in fetched
    ensures ranked != [] && Votes(e) <= Votes(ranked[0])
  {
    assert e in multiset(ranked);
  }
}
