/** The result page: read the stored answers, pick the best match and gather its profile. */
module ResultPage {
  import opened Wrappers
  import opened Catalog
  import opened Storage
  import opened Matching
  import opened Descriptions
  import opened Images
  import Seqs

  /** `readStoredSelections().slice(0, questions.length)`. */
  function ResultSelections(stored: StoredValue, questionCount: nat): (s: seq<int>)
    ensures |s| == Seqs.Min(|ReadStoredSelections(stored)|, questionCount)
    ensures s <= ReadStoredSelections(stored)
  {
    var read := ReadStoredSelections(stored);
    read[..Seqs.Min(|read|, questionCount)]
  }

  /** What the page renders: the "no answers yet" state, or a profile. */
  datatype ResultView =
    | NoAnswers
    | Profile(title: string, imageSrc: string, summary: seq<string>, best: ScoredMember)

  /** The heading: the matched description's name, else the member's own name. */
  function Title(d: Option<MemberDescription>, member: Member): (t: string)
    ensures d.Some? ==> t == d.value.name
    ensures d.None? ==> t == member.name
  {
    match d
    case Some(desc) => desc.name
    case None => member.name
  }

  /**
   * `Result`: the empty state exactly when there are no members or no
   * selections after truncation; otherwise the best match's profile, with its
   * title, photo and summary lines resolved through the lookups.
   */
  function ShowResult(stored: StoredValue, questionCount: nat, members: seq<Member>,
                      descriptions: seq<MemberDescription>, imageEntries: seq<(string, string)>): (v: ResultView)
    ensures v.NoAnswers? <==> members == [] || ResultSelections(stored, questionCount) == []
    ensures v.Profile? ==> BestMatch(ResultSelections(stored, questionCount), members) == Some(v.best)
    ensures v.Profile? ==> v.imageSrc == ResolveImage(v.best.member, ParseImages(imageEntries))
    ensures v.Profile? ==>
      var d := ResolveDescription(v.best.member.name, descriptions);
      v.title == Title(d, v.best.member) && v.summary == DescriptionLines(d)
  {
    var selections := ResultSelections(stored, questionCount);
    match BestMatch(selections, members)
    case None => NoAnswers
    case Some(best) =>
      if selections == [] then NoAnswers
      else
        var d := ResolveDescription(best.member.name, descriptions);
        Profile(Title(d, best.member), ResolveImage(best.member, ParseImages(imageEntries)), DescriptionLines(d), best)
  }

  /** The shown member scores highest, and no member listed before it scores as much. */
  lemma ShownMemberIsBest(stored: StoredValue, questionCount: nat, members: seq<Member>,
                          descriptions: seq<MemberDescription>, imageEntries: seq<(string, string)>)
    requires ShowResult(stored, questionCount, members, descriptions, imageEntries).Profile?
    ensures var v := ShowResult(stored, questionCount, members, descriptions, imageEntries);
      var selections := ResultSelections(stored, questionCount);
      (forall k :: 0 <= k < |members| ==> Score(selections, members[k].answer) <= v.best.score) &&
      exists j :: 0 <= j < |members| && v.best.member == members[j] &&
        forall k :: 0 <= k < j ==> Score(selections, members[k].answer) < v.best.score
  {
  }

  /** Nothing stored, or nothing readable, means no answers to show. */
  lemma NothingStoredShowsNoAnswers(stored: StoredValue, questionCount: nat, members: seq<Member>,
                                    descriptions: seq<MemberDescription>, imageEntries: seq<(string, string)>)
    requires !stored.Array? || questionCount == 0
    ensures ShowResult(stored, questionCount, members, descriptions, imageEntries) == NoAnswers
  {
  }
}
