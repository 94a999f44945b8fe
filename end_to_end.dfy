/** The two pages together: what the question flow stores is what the result page scores. */
module EndToEnd {
  import opened Wrappers
  import opened Catalog
  import opened Storage
  import opened Matching
  import opened ResultPage
  import opened QuestionFlow

  /**
   * After a fresh run through all questions, the result page reads back
   * exactly the answers given, and shows a profile whenever there are members.
   */
  lemma CompletedRunReachesResult(total: nat, previous: StoredValue, answers: seq<nat>, members: seq<Member>,
                                  descriptions: seq<MemberDescription>, imageEntries: seq<(string, string)>)
    requires |answers| == total > 0
    ensures var g := Run(Flow(0, [], previous, AtQuestion), total, answers);
      ResultSelections(g.persisted, total) == answers &&
      (ShowResult(g.persisted, total, members, descriptions, imageEntries).Profile? <==> members != [])
  {
    var g := Run(Flow(0, [], previous, AtQuestion), total, answers);
    FullRun(total, previous, answers);
    assert ReadStoredSelections(g.persisted)[..total] == answers;
  }

  /**
   * Three two-choice questions answered 1, 0, 1: a member expecting 2, 1, 2
   * scores 3 and beats one expecting 1, 1, 2, who scores 2.
   */
  lemma ExactMatchWins()
    ensures var a := Member("1", "A", [2, 1, 2]);
      var b := Member("2", "B", [1, 1, 2]);
      BestMatch([1, 0, 1], [a, b]) == Some(ScoredMember(a, 3))
  {
    var a := Member("1", "A", [2, 1, 2]);
    var b := Member("2", "B", [1, 1, 2]);
    assert Score([1, 0, 1], a.answer) == 3;
    assert Score([1, 0, 1], b.answer) == 2;
  }

  /** Two members tied on the top score: the one listed first is shown. */
  lemma TieGoesToFirstListed()
    ensures var x := Member("1", "X", [2, 1, 2]);
      var y := Member("2", "Y", [1, 1, 1]);
      BestMatch([1, 0, 0], [x, y]) == Some(ScoredMember(x, 2))
  {
    var x := Member("1", "X", [2, 1, 2]);
    var y := Member("2", "Y", [1, 1, 1]);
    assert Score([1, 0, 0], x.answer) == 2;
    assert Score([1, 0, 0], y.answer) == 2;
  }
}
