/**
 * Elle.classement and Elle.blog: the top ten of the vote ranking as text,
 * and the ranked line of one blog.  The vote list that the class fetches
 * over HTTP is a parameter here.
 */
module Elle {
  import opened RubyText
  import opened Ranking

  datatype Option<T> = None | Some(value: T)

  /**
   * What Elle.blog(id) returns: the formatted line of the blog, or, when no
   * ranked blog has that id, the ranked array itself (the value `each`
   * gives back once it has run to the end).
   */
  datatype BlogResult = Found(line: string) | NotFound(ranking: seq<Entry>)

  /** classement shows the first ten ranked blogs: slice(0, 10). */
  const TopCount: nat := 10

  function Min(a: nat, b: nat): nat {
    if a <= b then a else b
  }

  /** An entry whose fields hold no newline. */
  predicate SingleLine(e: Entry) {
    '\n' !in e.blogId && '\n' !in e.votes
  }

  /**
   * The line for a blog at a rank: "<rank>. #<blog_id> - <votes> votes", with
   * the raw strings.  It ends in " votes" and holds a newline only if one of
   * the entry's fields does.
   */
  function Line(rank: nat, e: Entry): (r: string)
    ensures |r| >= 6 && r[|r| - 6..] == " votes"
    ensures SingleLine(e) ==> '\n' !in r
  {
    var front := NatToString(rank) + ". #" + e.blogId + " - " + e.votes;
    front + " votes"
  }

  /**
   * The entries classement shows: a prefix of the ranking of at most ten
   * entries, all ten when there are that many, the whole ranking otherwise.
   */
  function Top(ranked: seq<Entry>): (r: seq<Entry>)
    ensures r <= ranked && |r| <= TopCount
    ensures |ranked| >= TopCount ==> |r| == TopCount
    ensures |ranked| <= TopCount ==> r == ranked
  {
    ranked[..Min(TopCount, |ranked|)]
  }

  /**
   * The lines of a list of entries numbered from `first` on, one counter
   * step per entry, as the collect block of classement numbers them.
   */
  function Numbered(entries: seq<Entry>, first: nat): (lines: seq<string>)
    ensures |lines| == |entries|
    ensures forall i :: 0 <= i < |entries| ==> lines[i] == Line(first + i, entries[i])
  {
    if entries == [] then [] else [Line(first, entries[0])] + Numbered(entries[1..], first + 1)
  }

  /** The text classement produces for a ranking; it is empty exactly when nothing is ranked. */
  function ClassementText(ranked: seq<Entry>): (r: string)
    ensures r == "" <==> ranked == []
  {
    var lines := Numbered(Top(ranked), 1);
    assert lines != [] ==> lines[0] != "";
    JoinLines(lines)
  }

  /**
   * The position of the first ranked entry whose blog_id.to_i is `id`,
   * or None when there is none.
   */
  function FirstMatch(ranked: seq<Entry>, id: int): (r: Option<nat>)
    ensures r.Some? ==> r.value < |ranked| && ToI(ranked[r.value].blogId) == id
    ensures r.Some? ==> forall q :: 0 <= q < r.value ==> ToI(ranked[q].blogId) != id
    ensures r.None? ==> forall q :: 0 <= q < |ranked| ==> ToI(ranked[q].blogId) != id
  {
    if ranked == [] then None
    else if ToI(ranked[0].blogId) == id then Some(0)
    else
      match FirstMatch(ranked[1..], id)
      case None => None
      case Some(p) => Some(p + 1)
  }

  /** A ranking holds the same entries as the fetched list. */
  lemma RankingKeepsEntries(fetched: seq<Entry>, ranked: seq<Entry>)
    requires IsRanking(fetched, ranked)
    ensures forall e :: e in ranked <==> e in fetched
  {
    forall e ensures e in ranked <==> e in fetched {
      assert e in ranked <==> e in multiset(ranked);
      assert e in fetched <==> e in multiset(fetched);
    }
  }

  /**
   * Elle.classement: ranks the fetched list, numbers its first ten entries
   * with a counter that starts at 1, and joins their lines with "\n".
   */
  method Classement(fetched: seq<Entry>) returns (text: string)
    ensures text == ClassementText(GetClassement(fetched))
    ensures text == "" <==> fetched == []
    ensures (fetched != [] &&
               forall i :: 0 <= i < Min(TopCount, |fetched|) ==> SingleLine(GetClassement(fetched)[i]))
      ==> |Pieces(text)| == Min(TopCount, |fetched|)
  {
    var ranked := GetClassement(fetched);
    var top := ranked[..Min(TopCount, |ranked|)];
    var idx := 0;
    var lines: seq<string> := [];
    for k := 0 to |top|
      invariant idx == k && |lines| == k
      invariant forall i :: 0 <= i < k ==> lines[i] == Line(i + 1, top[i])
    {
      idx := idx + 1;
      lines := lines + [Line(idx, top[k])];
    }
    assert lines == Numbered(top, 1);
    text := JoinLines(lines);
    if fetched != [] && (forall i :: 0 <= i < Min(TopCount, |fetched|) ==> SingleLine(ranked[i])) {
      ClassementLines(ranked);
    }
  }

  /**
   * Elle.blog(id): walks the ranking with a counter that starts at 1 and
   * returns the line of the first blog whose blog_id.to_i is `id`; when
   * there is none, returns the ranking.
   */
  method Blog(fetched: seq<Entry>, id: int) returns (r: BlogResult)
    ensures var ranked := GetClassement(fetched);
      match FirstMatch(ranked, id)
      case Some(p) => r == Found(Line(p + 1, ranked[p]))
      case None => r == NotFound(ranked)
  {
    var ranked := GetClassement(fetched);
    var idx := 1;
    for k := 0 to |ranked|
      invariant idx == k + 1
      invariant forall q :: 0 <= q < k ==> ToI(ranked[q].blogId) != id
    {
      var b := ranked[k];
      if ToI(b.blogId) == id {
        MatchAt(fetched, ranked, id, k);
        return Found(Line(idx, b));
      }
      idx := idx + 1;
    }
    NoMatch(fetched, ranked, id);
    r := NotFound(ranked);
  }

  /** In any ranking, blog finds a line exactly when some fetched entry has the id. */
  lemma BlogFindsFetchedId(fetched: seq<Entry>, ranked: seq<Entry>, id: int)
    requires IsRanking(fetched, ranked)
    ensures FirstMatch(ranked, id).Some? <==> exists e :: e in fetched && ToI(e.blogId) == id
  {
    match FirstMatch(ranked, id)
    case Some(p) => MatchAt(fetched, ranked, id, p);
    case None => NoMatch(fetched, ranked, id);
  }

  /** A matching entry with no match before it is the first match, and some fetched entry matches. */
  lemma MatchAt(fetched: seq<Entry>, ranked: seq<Entry>, id: int, k: nat)
    requires IsRanking(fetched, ranked)
    requires k < |ranked| && ToI(ranked[k].blogId) == id
    requires forall q :: 0 <= q < k ==> ToI(ranked[q].blogId) != id
    ensures FirstMatch(ranked, id) == Some(k)
    ensures exists e :: e in fetched && ToI(e.blogId) == id
  {
    RankingKeepsEntries(fetched, ranked);
    assert ranked[k] in ranked;
  }

  /** When no ranked entry matches, there is no first match, and no fetched entry matches. */
  lemma NoMatch(fetched: seq<Entry>, ranked: seq<Entry>, id: int)
    requires IsRanking(fetched, ranked)
    requires forall q :: 0 <= q < |ranked| ==> ToI(ranked[q].blogId) != id
    ensures FirstMatch(ranked, id) == None
    ensures !exists e :: e in fetched && ToI(e.blogId) == id
  {
    RankingKeepsEntries(fetched, ranked);
  }

  /** The rank at the head of a line reads back, with String#to_i, as the rank. */
  lemma LineRank(rank: nat, e: Entry)
    ensures ToI(Line(rank, e)) == rank
  {
    var u := ". #" + e.blogId + " - " + e.votes + " votes";
    assert Line(rank, e) == NatToString(rank) + u;
    ToIReadsLeadingNumber(rank, u);
  }

  /**
   * A line is its rank, ". #" and the raw blog_id, followed by " - ", the raw
   * votes string and " votes"; its head reads back as the rank.
   */
  lemma LineParts(rank: nat, e: Entry)
    ensures var line, head, tail := Line(rank, e),
        NatToString(rank) + ". #" + e.blogId, " - " + e.votes + " votes";
      |head| + |tail| == |line| && line[..|head|] == head && line[|head|..] == tail &&
      ToI(line) == rank
  {
    var head := NatToString(rank) + ". #" + e.blogId;
    assert Line(rank, e) == head + (" - " + e.votes + " votes") by {
      assert NatToString(rank) + ". #" + e.blogId + " - " + e.votes + " votes"
        == head + (" - " + e.votes + " votes");
    }
    LineRank(rank, e);
  }

  /**
   * When no shown entry has a newline in its fields, the text of
   * classement is exactly its lines, min(10, n) of them, with one newline
   * between neighbours, ending in " votes" (no trailing newline).
   */
  lemma ClassementLines(ranked: seq<Entry>)
    requires ranked != []
    requires forall i :: 0 <= i < Min(TopCount, |ranked|) ==> SingleLine(ranked[i])
    ensures Pieces(ClassementText(ranked)) == Numbered(Top(ranked), 1)
    ensures |Pieces(ClassementText(ranked))| == Min(TopCount, |ranked|)
    ensures var text := ClassementText(ranked);
      |text| >= 6 && text[|text| - 6..] == " votes"
  {
    var lines := Numbered(Top(ranked), 1);
    assert forall i :: 0 <= i < |lines| ==> '\n' !in lines[i];
    PiecesOfJoinLines(lines);
    ClassementEndsWithVotes(ranked);
  }

  /** A non-empty classement ends with the last shown line's " votes". */
  lemma ClassementEndsWithVotes(ranked: seq<Entry>)
    requires ranked != []
    ensures var text := ClassementText(ranked);
      |text| >= 6 && text[|text| - 6..] == " votes"
  {
    var lines := Numbered(Top(ranked), 1);
    JoinLinesEndsWithLast(lines);
    var n := |lines| - 1;
    var e := ranked[n];
    var front := NatToString(n + 1) + ". #" + e.blogId + " - " + e.votes;
    assert lines[n] == front + " votes";
  }

  /**
   * Line i (counted from 0) of classement starts with its rank i + 1 and
   * ". #" and the i-th ranked blog_id, and ends with " - ", the i-th ranked
   * raw votes string and " votes"; its rank reads back as i + 1.
   */
  lemma ClassementLineAt(ranked: seq<Entry>, i: nat)
    requires i < Min(TopCount, |ranked|)
    requires forall k :: 0 <= k < Min(TopCount, |ranked|) ==> SingleLine(ranked[k])
    ensures var pieces := Pieces(ClassementText(ranked));
      i < |pieces| &&
      var line, head, tail := pieces[i],
        NatToString(i + 1) + ". #" + ranked[i].blogId, " - " + ranked[i].votes + " votes";
      |head| + |tail| == |line| && line[..|head|] == head && line[|head|..] == tail &&
      ToI(line) == i + 1
  {
    ClassementLines(ranked);
    assert Pieces(ClassementText(ranked))[i] == Line(i + 1, ranked[i]);
    LineParts(i + 1, ranked[i]);
  }

  /**
   * For a blog at a place p among the first ten that is the first of the
   * ranking with its blog_id.to_i, blog finds it at p (and so returns
   * Line(p + 1, ...)), the same text as line p of classement.
   */
  lemma BlogAgreesWithClassement(ranked: seq<Entry>, p: nat)
    requires p < Min(TopCount, |ranked|)
    requires forall q :: 0 <= q < p ==> ToI(ranked[q].blogId) != ToI(ranked[p].blogId)
    requires forall k :: 0 <= k < Min(TopCount, |ranked|) ==> SingleLine(ranked[k])
    ensures FirstMatch(ranked, ToI(ranked[p].blogId)) == Some(p)
    ensures var pieces := Pieces(ClassementText(ranked));
      p < |pieces| && pieces[p] == Line(p + 1, ranked[p])
  {
    ClassementLines(ranked);
  }
}
