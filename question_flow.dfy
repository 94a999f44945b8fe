/** The question page: where the flow starts, and what answering a question does. */
module QuestionFlow {
  import opened Wrappers
  import opened Catalog
  import opened Storage
  import Seqs

  /**
   * `initialSelections`: the stored answers cut to the number of questions,
   * and forgotten when they already cover every question.
   */
  function InitialSelections(stored: seq<int>, total: nat): (r: seq<int>)
    ensures r <= stored
    ensures |stored| < total ==> r == stored
    ensures |stored| >= total ==> r == []
    ensures total > 0 ==> |r| < total
  {
    var truncated := if |stored| <= total then stored else stored[..total];
    if |truncated| == total then [] else truncated
  }

  /** Where the app is: still on the question page, or navigated to `/result`. */
  datatype Route = AtQuestion | AtResult

  /** The page's state: `currentIndex`, `selections`, the storage slot, and the route. */
  datatype Flow = Flow(currentIndex: nat, selections: seq<int>, persisted: StoredValue, route: Route)

  /**
   * The states the page can be in: the index stays on a real question (or 0
   * for an empty catalog); before the last answer the selections are exactly
   * the answered questions; after it, one per question.
   */
  ghost predicate Inv(f: Flow, total: nat)
  {
    (total == 0 ==> f.currentIndex == 0 && f.selections == [] && f.route == AtQuestion) &&
    (total > 0 ==> f.currentIndex < total) &&
    (f.route == AtQuestion ==> |f.selections| == f.currentIndex) &&
    (f.route == AtResult ==> f.currentIndex == total - 1 && |f.selections| == total && f.persisted == Persist(f.selections))
  }

  /** `[...selections]` with slot `index` set to `value`. */
  function WriteSlot(selections: seq<int>, index: nat, value: int): (r: seq<int>)
    requires index <= |selections|
    ensures |r| == if index < |selections| then |selections| else |selections| + 1
    ensures r[index] == value
    ensures forall i :: 0 <= i < |selections| && i != index ==> r[i] == selections[i]
  {
    if index < |selections| then selections[index := value] else selections + [value]
  }

  /**
   * `handleAnswer`: write the answer into the current slot, persist the whole
   * array, then go to `/result` after the last question or advance by one,
   * clamped by `Math.min` to the last question.
   */
  function Next(f: Flow, total: nat, answerIndex: nat): (g: Flow)
    requires f.currentIndex <= |f.selections|
    ensures g.selections == WriteSlot(f.selections, f.currentIndex, answerIndex)
    ensures g.persisted == Persist(g.selections) && ReadStoredSelections(g.persisted) == g.selections
    ensures f.currentIndex >= total - 1 ==> g.currentIndex == f.currentIndex && g.route == AtResult
    ensures f.currentIndex < total - 1 ==> g.currentIndex == f.currentIndex + 1 && g.route == f.route
  {
    var next := WriteSlot(f.selections, f.currentIndex, answerIndex);
    ReadAfterPersist(next);
    if f.currentIndex >= total - 1 then Flow(f.currentIndex, next, Persist(next), AtResult)
    else Flow(Seqs.Min(f.currentIndex + 1, total - 1), next, Persist(next), f.route)
  }

  /** Answering keeps the page in one of its legal states. */
  lemma NextKeepsInv(f: Flow, total: nat, answerIndex: nat)
    requires Inv(f, total) && total > 0
    ensures f.currentIndex <= |f.selections|
    ensures Inv(Next(f, total, answerIndex), total)
  {
  }

  /** An answer before the last one grows the selections by one and moves to the next question. */
  lemma NextAdvances(f: Flow, total: nat, answerIndex: nat)
    requires Inv(f, total) && f.route == AtQuestion && f.currentIndex + 1 < total
    ensures var g := Next(f, total, answerIndex);
      g.route == AtQuestion && g.currentIndex == f.currentIndex + 1 && g.selections == f.selections + [answerIndex]
  {
  }

  /** The answers given one after the other, from state `f`. */
  function Run(f: Flow, total: nat, answers: seq<nat>): (g: Flow)
    requires Inv(f, total) && (answers != [] ==> total > 0)
    ensures Inv(g, total)
    decreases |answers|
  {
    if answers == [] then f
    else
      NextKeepsInv(f, total, answers[0]);
      Run(Next(f, total, answers[0]), total, answers[1..])
  }

  /** Answering the last question ends on the result page with the answer appended and persisted. */
  lemma LastAnswer(f: Flow, total: nat, a: nat)
    requires Inv(f, total) && f.route == AtQuestion && f.currentIndex + 1 == total
    ensures var g := Run(f, total, [a]);
      g.route == AtResult && g.selections == f.selections + [a]
  {
    var g := Next(f, total, a);
    NextKeepsInv(f, total, a);
    assert [a][1..] == [];
    assert Run(f, total, [a]) == Run(g, total, []) == g;
  }

  /** Running from `f` is running from the state after the first answer. */
  lemma RunStep(f: Flow, total: nat, answers: seq<nat>)
    requires Inv(f, total) && total > 0 && answers != []
    ensures Inv(Next(f, total, answers[0]), total)
    ensures Run(f, total, answers) == Run(Next(f, total, answers[0]), total, answers[1..])
  {
    NextKeepsInv(f, total, answers[0]);
  }

  /**
   * Answering every remaining question in turn appends the answers, persists
   * exactly the selections, and ends on the result page.
   */
  lemma {:induction false} RunToEnd(f: Flow, total: nat, answers: seq<nat>)
    requires Inv(f, total) && f.route == AtQuestion
    requires answers != [] && f.currentIndex + |answers| == total
    ensures var g := Run(f, total, answers);
      g.route == AtResult && g.selections == f.selections + answers
    decreases |answers|
  {
    if |answers| == 1 {
      assert answers == [answers[0]];
      LastAnswer(f, total, answers[0]);
    } else {
      var a := answers[0];
      RunStep(f, total, answers);
      NextAdvances(f, total, a);
      RunToEnd(Next(f, total, a), total, answers[1..]);
      assert f.selections + [a] + answers[1..] == f.selections + answers;
    }
  }

  /** From a fresh start, answering all `N` questions persists exactly the `N` chosen indices. */
  lemma FullRun(total: nat, persisted: StoredValue, answers: seq<nat>)
    requires |answers| == total > 0
    ensures var g := Run(Flow(0, [], persisted, AtQuestion), total, answers);
      g.route == AtResult && |g.selections| == total && ReadStoredSelections(g.persisted) == answers
  {
    var g := Run(Flow(0, [], persisted, AtQuestion), total, answers);
    RunToEnd(Flow(0, [], persisted, AtQuestion), total, answers);
    assert [] + answers == answers;
    ReadAfterPersist(g.selections);
  }

  /** The question page component: its state lives in fields that `Answer` updates. */
  class QuestionPage {
    const questions: seq<Question>
    var currentIndex: nat
    var selections: seq<int>
    /** The browser-storage slot as the page leaves it. */
    var persisted: StoredValue
    var route: Route

    function Snapshot(): Flow
      reads this
    {
      Flow(currentIndex, selections, persisted, route)
    }

    ghost predicate Valid()
      reads this
    {
      Inv(Snapshot(), |questions|)
    }

    /** `questions[currentIndex]`: missing when the catalog is empty. */
    function CurrentQuestion(): (q: Option<Question>)
      reads this
      ensures q.Some? <==> currentIndex < |questions|
      ensures q.Some? ==> q.value == questions[currentIndex]
    {
      if currentIndex < |questions| then Some(questions[currentIndex]) else None
    }

    /** Mounting the page: the state starts from the stored answers, which are not rewritten. */
    constructor (questions: seq<Question>, stored: StoredValue)
      ensures Valid() && this.questions == questions
      ensures selections == InitialSelections(ReadStoredSelections(stored), |questions|)
      ensures currentIndex == |selections| && persisted == stored && route == AtQuestion
      ensures |questions| == 0 ==> currentIndex == 0 && CurrentQuestion() == None
      ensures |questions| > 0 ==> currentIndex < |questions| && CurrentQuestion().Some?
    {
      this.questions := questions;
      var initial := InitialSelections(ReadStoredSelections(stored), |questions|);
      currentIndex := |initial|;
      selections := initial;
      persisted := stored;
      route := AtQuestion;
    }

    /**
     * A click on choice `answerIndex` of the current question: a copy of the
     * selections gets the answer in slot `currentIndex`, becomes the new state
     * and is written to storage; then the page navigates or advances.
     */
    method Answer(answerIndex: nat)
      requires Valid()
      requires CurrentQuestion().Some? && answerIndex < |CurrentQuestion().value.choices|
      modifies this
      ensures Valid()
      ensures Snapshot() == Next(old(Snapshot()), |questions|, answerIndex)
      ensures |selections| == if old(currentIndex) < |old(selections)| then |old(selections)| else |old(selections)| + 1
      ensures selections[old(currentIndex)] == answerIndex
      ensures forall i :: 0 <= i < |old(selections)| && i != old(currentIndex) ==> selections[i] == old(selections)[i]
      ensures ReadStoredSelections(persisted) == selections
    {
      NextKeepsInv(Snapshot(), |questions|, answerIndex);
      var nextSelections := selections;
      if currentIndex < |nextSelections| {
        nextSelections := nextSelections[currentIndex := answerIndex];
      } else {
        nextSelections := nextSelections + [answerIndex];
      }
      selections := nextSelections;
      persisted := Persist(nextSelections);
      ReadAfterPersist(nextSelections);
      if currentIndex >= |questions| - 1 {
        route := AtResult;
        return;
      }
      currentIndex := Seqs.Min(currentIndex + 1, |questions| - 1);
    }
  }
}
