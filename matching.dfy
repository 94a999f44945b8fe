/** Scoring every member against the user's answers and ranking them. */
module Matching {
  import opened Wrappers
  import opened Catalog
  import Seqs

  /** The positions where the user's 0-based choice plus one equals the member's 1-based answer. */
  ghost function AgreeingPositions(selections: seq<int>, answer: seq<int>): set<nat>
  {
    set k: nat | k < |answer| && k < |selections| && selections[k] + 1 == answer[k]
  }

  /**
   * The `reduce` over `member.answer`: one point per position whose value
   * equals `normalizedSelections[index]`; a position past the end of the
   * selections reads `undefined` and scores nothing.
   */
  function Score(selections: seq<int>, answer: seq<int>): (s: nat)
    ensures s <= |answer| && s <= |selections|
  {
    if answer == [] then 0
    else
      var k := |answer| - 1;
      Score(selections, answer[..k]) + (if k < |selections| && selections[k] + 1 == answer[k] then 1 else 0)
  }

  /** A member's score is the number of agreeing positions. */
  lemma {:induction false} ScoreCountsAgreements(selections: seq<int>, answer: seq<int>)
    ensures Score(selections, answer) == |AgreeingPositions(selections, answer)|
  {
    if answer != [] {
      var k := |answer| - 1;
      var init := answer[..k];
      ScoreCountsAgreements(selections, init);
      var before := AgreeingPositions(selections, init);
      var after := AgreeingPositions(selections, answer);
      if k < |selections| && selections[k] + 1 == answer[k] {
        assert after == before + {k};
        assert k !in before;
      } else {
        assert after == before;
      }
    }
  }

  /** A member paired with its score. */
  datatype ScoredMember = ScoredMember(member: Member, score: nat)

  /** `members.map(...)`: each member with its score, in catalog order. */
  function ScoreMembers(selections: seq<int>, members: seq<Member>): (r: seq<ScoredMember>)
    ensures |r| == |members|
    ensures forall i :: 0 <= i < |r| ==> r[i] == ScoredMember(members[i], Score(selections, members[i].answer))
  {
    seq(|members|, i requires 0 <= i < |members| => ScoredMember(members[i], Score(selections, members[i].answer)))
  }

  ghost predicate SortedByScore(s: seq<ScoredMember>)
  {
    forall i, j :: 0 <= i < j < |s| ==> s[i].score >= s[j].score
  }

  function ScoreIs(v: nat): ScoredMember -> bool
  {
    (x: ScoredMember) => x.score == v
  }

  /** The entries scoring exactly `v`, in order: a stable sort keeps each of these runs as it was. */
  function WithScore(s: seq<ScoredMember>, v: nat): seq<ScoredMember>
  {
    Seqs.Filter(s, ScoreIs(v))
  }

  lemma {:induction false} WithScoreNone(s: seq<ScoredMember>, v: nat)
    requires forall i :: 0 <= i < |s| ==> s[i].score != v
    ensures WithScore(s, v) == []
  {
    if s != [] {
      WithScoreNone(s[1..], v);
    }
  }

  /** One step of a stable insertion sort: `x` goes after every entry that scores at least as much. */
  function Insert(x: ScoredMember, s: seq<ScoredMember>): seq<ScoredMember>
  {
    if s == [] then [x]
    else if s[0].score >= x.score then [s[0]] + Insert(x, s[1..])
    else [x] + s
  }

  lemma {:induction false} InsertPermutes(x: ScoredMember, s: seq<ScoredMember>)
    ensures multiset(Insert(x, s)) == multiset(s) + multiset{x}
  {
    if s != [] && s[0].score >= x.score {
      InsertPermutes(x, s[1..]);
      assert s == [s[0]] + s[1..];
    }
  }

  lemma {:induction false} InsertSorted(x: ScoredMember, s: seq<ScoredMember>)
    requires SortedByScore(s)
    ensures SortedByScore(Insert(x, s))
  {
    if s != [] && s[0].score >= x.score {
      var rest := Insert(x, s[1..]);
      InsertSorted(x, s[1..]);
      InsertPermutes(x, s[1..]);
      var r := [s[0]] + rest;
      forall j | 0 < j < |r| ensures r[0].score >= r[j].score {
        assert r[j] in multiset(rest);
      }
    }
  }

  /** Insertion keeps the entries of every score in order, with `x` last among its equals. */
  lemma {:induction false} InsertStable(x: ScoredMember, s: seq<ScoredMember>, v: nat)
    requires SortedByScore(s)
    ensures WithScore(Insert(x, s), v) == WithScore(s, v) + (if x.score == v then [x] else [])
  {
    if s == [] {
      assert [x][1..] == [];
    } else if s[0].score >= x.score {
      InsertStable(x, s[1..], v);
      Seqs.FilterAppend([s[0]], Insert(x, s[1..]), ScoreIs(v));
      Seqs.FilterAppend([s[0]], s[1..], ScoreIs(v));
      assert s == [s[0]] + s[1..];
    } else {
      Seqs.FilterAppend([x], s, ScoreIs(v));
      if x.score == v {
        WithScoreNone(s, v);
      }
      assert [x][1..] == [];
    }
  }

  /** Inserting the last entry into a stable ranking of the others keeps each score's run in input order. */
  lemma InsertLastStable(x: ScoredMember, ranked: seq<ScoredMember>, init: seq<ScoredMember>, v: nat)
    requires SortedByScore(ranked) && WithScore(ranked, v) == WithScore(init, v)
    ensures WithScore(Insert(x, ranked), v) == WithScore(init + [x], v)
  {
    InsertStable(x, ranked, v);
    Seqs.FilterAppend(init, [x], ScoreIs(v));
    assert [x][1..] == [];
  }

  /**
   * `.sort((a, b) => b.score - a.score)`: ECMAScript requires a stable sort,
   * so the result is ordered by descending score, is a permutation of the
   * input, and keeps entries of equal score in their input order.
   */
  function Rank(s: seq<ScoredMember>): (r: seq<ScoredMember>)
    ensures SortedByScore(r)
    ensures multiset(r) == multiset(s)
    ensures forall v: nat :: WithScore(r, v) == WithScore(s, v)
  {
    if s == [] then []
    else
      var init := s[..|s| - 1];
      var last := s[|s| - 1];
      assert s == init + [last];
      var r := Insert(last, Rank(init));
      InsertSorted(last, Rank(init));
      InsertPermutes(last, Rank(init));
      forall v: nat ensures WithScore(r, v) == WithScore(s, v) {
        InsertLastStable(last, Rank(init), init, v);
      }
      r
  }

  /**
   * The best match has the highest score of all members, and among the
   * members with that score it is the one listed first.
   */
  lemma RankHeadIsEarliestTopScorer(scored: seq<ScoredMember>)
    requires scored != []
    ensures var best := Rank(scored)[0];
      (forall k :: 0 <= k < |scored| ==> scored[k].score <= best.score) &&
      exists j :: 0 <= j < |scored| && best == scored[j] && forall k :: 0 <= k < j ==> scored[k].score < best.score
  {
    var ranked := Rank(scored);
    RankHeadIsTop(scored);
    var best := ranked[0];
    var m := best.score;
    HeadOfWithScore(ranked);
    var j := Seqs.FilterHead(scored, ScoreIs(m));
    assert scored[j] == best;
  }

  /** The head of a ranking scores at least as much as every ranked entry. */
  lemma RankHeadIsTop(scored: seq<ScoredMember>)
    requires scored != []
    ensures |Rank(scored)| == |scored|
    ensures forall k :: 0 <= k < |scored| ==> scored[k].score <= Rank(scored)[0].score
  {
    var ranked := Rank(scored);
    assert |ranked| == |scored| by {
      assert |multiset(ranked)| == |multiset(scored)|;
    }
    forall k | 0 <= k < |scored| ensures scored[k].score <= ranked[0].score {
      assert scored[k] in multiset(ranked);
      var idx :| 0 <= idx < |ranked| && ranked[idx] == scored[k];
    }
  }

  lemma HeadOfWithScore(s: seq<ScoredMember>)
    requires s != []
    ensures WithScore(s, s[0].score) != [] && WithScore(s, s[0].score)[0] == s[0]
  {
    assert s == [s[0]] + s[1..];
    Seqs.FilterAppend([s[0]], s[1..], ScoreIs(s[0].score));
    assert [s[0]][1..] == [];
  }

  /**
   * `rankedMembers[0]`: nothing when there are no members; otherwise a member
   * with the highest score, the first such in catalog order.
   */
  function BestMatch(selections: seq<int>, members: seq<Member>): (b: Option<ScoredMember>)
    ensures b.None? <==> members == []
    ensures b.Some? ==> forall k :: 0 <= k < |members| ==> Score(selections, members[k].answer) <= b.value.score
    ensures b.Some? ==> exists j :: 0 <= j < |members| && b.value == ScoredMember(members[j], Score(selections, members[j].answer)) &&
                          (forall k :: 0 <= k < j ==> Score(selections, members[k].answer) < b.value.score)
  {
    if members == [] then None
    else
      var scored := ScoreMembers(selections, members);
      RankHeadIsEarliestTopScorer(scored);
      Some(Rank(scored)[0])
  }
}
