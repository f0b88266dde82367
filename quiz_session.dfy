/**
 * The client's per-question interaction state machine. The page's DOM flags
 * (radio `checked` and `disabled`, the selected label's highlight, the
 * check and retry buttons, the feedback footer and its two panels, the card
 * border) become one record per question; the handlers become transitions.
 * A gesture aimed at a control that is disabled or hidden, or that does not
 * exist, never reaches its handler and changes nothing.
 */
module QuizSession {
  import opened Optional
  import opened JsonValue
  import Js = JsSemantics

  // ---------------------------------------------------------------------
  // The quiz as rendered
  // ---------------------------------------------------------------------

  /**
   * A record that renderQuiz can turn into a card without throwing: an object
   * whose `feedback` is neither null nor undefined and whose `choices` is an
   * array without null entries.
   */
  predicate RenderableQuestion(q: Json) {
    && q.Obj?
    && Js.Get(q, "feedback").Some? && Js.Get(q, "feedback").value != Null
    && Js.Get(q, "choices").Some? && Js.Get(q, "choices").value.Arr?
    && forall i :: 0 <= i < |Js.Get(q, "choices").value.elems| ==> Js.Get(q, "choices").value.elems[i] != Null
  }

  predicate Renderable(quiz: seq<Json>) {
    forall i :: 0 <= i < |quiz| ==> RenderableQuestion(quiz[i])
  }

  /** The rendered choices of a question, one radio each. */
  function Choices(q: Json): seq<Json> {
    match Js.Get(q, "choices")
    case Some(Arr(cs)) => cs
    case _ => []
  }

  /** `selectedChoiceData && selectedChoiceData.is_correct`, for the choice at index `c`. */
  function ChoiceIsCorrect(q: Json, c: nat): bool
    requires RenderableQuestion(q)
  {
    var cs := Choices(q);
    c < |cs| && Js.Truthy(Some(cs[c])) && Js.Truthy(Js.Get(cs[c], "is_correct"))
  }

  /** What checkAnswer finds before it touches the card. */
  datatype Verdict = NoSelection | NoQuizData | Judged(correct: bool)

  function VerdictOf(quiz: seq<Json>, qi: nat, selected: Option<nat>): Verdict
    requires Renderable(quiz)
  {
    if selected.None? then NoSelection
    else if qi >= |quiz| || !Js.Truthy(Some(quiz[qi])) then NoQuizData
    else Judged(ChoiceIsCorrect(quiz[qi], selected.value))
  }

  /** checkAnswer judges "correct" exactly when the selected choice exists and its `is_correct` is truthy. */
  lemma VerdictCorrectExactly(quiz: seq<Json>, qi: nat, c: nat)
    requires Renderable(quiz) && qi < |quiz|
    ensures VerdictOf(quiz, qi, Some(c)) == Judged(true) <==>
              c < |Choices(quiz[qi])| && Js.Truthy(Js.Get(Choices(quiz[qi])[c], "is_correct"))
    ensures c >= |Choices(quiz[qi])| ==> VerdictOf(quiz, qi, Some(c)) == Judged(false)
  {
  }

  // ---------------------------------------------------------------------
  // Per-question state
  // ---------------------------------------------------------------------

  datatype Border = Plain | BorderSuccess | BorderDanger

  datatype QuestionState = QuestionState(
    selected: Option<nat>,     // the radio that is checked
    highlighted: Option<nat>,  // the label marked as selected
    choicesEnabled: bool,      // the radios are not disabled
    checkVisible: bool,
    checkEnabled: bool,
    retryVisible: bool,
    feedbackVisible: bool,     // the feedback footer
    correctShown: bool,        // the "Correct!" panel inside the footer
    incorrectShown: bool,      // the "Incorrect." panel inside the footer
    border: Border)

  /** A card as renderQuiz draws it. */
  const Fresh := QuestionState(None, None, true, true, true, false, false, false, false, Plain)

  /** The toast each handler raises; NoNotice when it raises none. */
  datatype Notice =
    | NoNotice
    | SelectAnswerFirst
    | AnswerCorrect
    | AnswerIncorrect
    | QuestionReset
    | AnswerSomethingFirst
    | QuizSubmitted(answered: nat, total: nat)

  /** The question can still be answered. */
  predicate Unanswered(st: QuestionState) {
    && st.choicesEnabled && st.checkVisible && st.checkEnabled && !st.retryVisible
    && !st.correctShown && st.border == Plain
  }

  /** The question was answered correctly. */
  predicate ShowsCorrect(st: QuestionState) {
    && st.selected.Some? && !st.choicesEnabled && st.checkVisible && !st.checkEnabled && !st.retryVisible
    && st.feedbackVisible && st.correctShown && !st.incorrectShown && st.border == BorderSuccess
  }

  /** The question was answered incorrectly and waits for a retry. */
  predicate ShowsIncorrect(st: QuestionState) {
    && st.selected.Some? && !st.choicesEnabled && !st.checkVisible && st.checkEnabled && st.retryVisible
    && st.feedbackVisible && !st.correctShown && st.incorrectShown && st.border == BorderDanger
  }

  /** The states the handlers can reach from Fresh, for the question `q`. */
  predicate Consistent(st: QuestionState, q: Json) {
    && RenderableQuestion(q)
    && st.highlighted == st.selected
    && (st.selected.Some? ==> st.selected.value < |Choices(q)|)
    && (|| Unanswered(st)
        || (ShowsCorrect(st) && ChoiceIsCorrect(q, st.selected.value))
        || (ShowsIncorrect(st) && !ChoiceIsCorrect(q, st.selected.value)))
  }

  // ---------------------------------------------------------------------
  // Transitions of one question
  // ---------------------------------------------------------------------

  datatype Step = Step(state: QuestionState, notice: Notice)

  /** Clicking radio `c` of `count`: it becomes the checked one, and handleChoiceSelection moves the highlight to it. */
  function SelectStep(st: QuestionState, count: nat, c: nat): QuestionState {
    if c < count && st.choicesEnabled then st.(selected := Some(c), highlighted := Some(c)) else st
  }

  /** Clicking the check button, with the verdict checkAnswer finds. */
  function CheckStep(st: QuestionState, v: Verdict): Step {
    if !(st.checkVisible && st.checkEnabled) then Step(st, NoNotice)
    else
      match v
      case NoSelection => Step(st, SelectAnswerFirst)
      case NoQuizData => Step(st, NoNotice)
      case Judged(true) =>
        Step(st.(feedbackVisible := true, correctShown := true, incorrectShown := false, border := BorderSuccess,
                 checkEnabled := false, choicesEnabled := false),
             AnswerCorrect)
      case Judged(false) =>
        Step(st.(feedbackVisible := true, correctShown := false, incorrectShown := true, border := BorderDanger,
                 checkVisible := false, retryVisible := true, choicesEnabled := false),
             AnswerIncorrect)
  }

  /** Clicking the retry button. The panels inside the footer keep their display; only the footer is hidden. */
  function RetryStep(st: QuestionState): Step {
    if !st.retryVisible then Step(st, NoNotice)
    else
      Step(st.(border := Plain, feedbackVisible := false, checkVisible := true, checkEnabled := true,
               retryVisible := false, choicesEnabled := true, selected := None, highlighted := None),
           QuestionReset)
  }

  /** Re-selecting before checking overwrites the earlier selection. */
  lemma SelectOverwrites(st: QuestionState, count: nat, a: nat, b: nat)
    requires st.choicesEnabled && a < count && b < count
    ensures SelectStep(st, count, a).selected == Some(a) && SelectStep(st, count, a).highlighted == Some(a)
    ensures SelectStep(SelectStep(st, count, a), count, b) == SelectStep(st, count, b)
  {
  }

  /** Checking with nothing selected, or without quiz data, changes nothing. */
  lemma CheckWithoutSelectionChangesNothing(st: QuestionState, v: Verdict)
    requires v == NoSelection || v == NoQuizData
    ensures CheckStep(st, v).state == st
    ensures CheckStep(st, v).notice == if st.checkVisible && st.checkEnabled && v == NoSelection then SelectAnswerFirst else NoNotice
  {
  }

  /**
   * A correct check shows the correct panel, hides the incorrect one, disables
   * the choices and the check button and leaves retry hidden; an incorrect
   * check shows the incorrect panel, disables the choices, hides the check
   * button and shows retry. The selection is kept either way.
   */
  lemma CheckOutcomes(st: QuestionState, c: nat, correct: bool)
    requires Unanswered(st) && st.selected == Some(c)
    ensures correct ==> ShowsCorrect(CheckStep(st, Judged(correct)).state)
    ensures !correct ==> ShowsIncorrect(CheckStep(st, Judged(correct)).state)
    ensures CheckStep(st, Judged(correct)).state.selected == Some(c)
  {
  }

  /** Retry applies only to an incorrectly answered question (for reachable states). */
  lemma RetryOnlyAfterIncorrect(st: QuestionState, q: Json)
    requires Consistent(st, q)
    ensures RetryStep(st).state != st <==> ShowsIncorrect(st)
  {
  }

  /**
   * After a retry the card is Fresh again except that the hidden footer still
   * holds the incorrect panel's display.
   */
  lemma RetryRestoresFreshCard(st: QuestionState)
    requires ShowsIncorrect(st)
    ensures RetryStep(st).state == Fresh.(incorrectShown := true)
    ensures Unanswered(RetryStep(st).state) && RetryStep(st).state.selected == None
  {
  }

  /** Every transition keeps a question in a reachable state. */
  lemma StepsKeepConsistent(st: QuestionState, q: Json, quiz: seq<Json>, qi: nat, c: nat)
    requires Renderable(quiz) && qi < |quiz| && q == quiz[qi] && Consistent(st, q)
    ensures Consistent(SelectStep(st, |Choices(q)|, c), q)
    ensures Consistent(CheckStep(st, VerdictOf(quiz, qi, st.selected)).state, q)
    ensures Consistent(RetryStep(st).state, q)
    ensures Consistent(st.(feedbackVisible := true), q)
  {
  }

  // ---------------------------------------------------------------------
  // The whole quiz
  // ---------------------------------------------------------------------

  /** A user gesture, addressed by question and choice index. */
  datatype Gesture = Select(question: nat, choice: nat) | Check(question: nat) | Retry(question: nat) | Submit(confirmed: bool)

  datatype Transition = Transition(states: seq<QuestionState>, notice: Notice)

  /** submitQuiz's count: the questions with a checked radio. */
  function AnsweredCount(states: seq<QuestionState>): (n: nat)
    ensures n <= |states|
    decreases |states|
  {
    if |states| == 0 then 0
    else AnsweredCount(states[..|states| - 1]) + (if states[|states| - 1].selected.Some? then 1 else 0)
  }

  /** A card whose feedback footer is shown. */
  function Reveal(st: QuestionState): (r: QuestionState)
    ensures r.feedbackVisible
  {
    st.(feedbackVisible := true)
  }

  /** Every feedback footer made visible. */
  function RevealAll(states: seq<QuestionState>): (r: seq<QuestionState>)
    ensures |r| == |states|
    ensures forall j :: 0 <= j < |r| ==> r[j] == Reveal(states[j])
  {
    seq(|states|, j requires 0 <= j < |states| => Reveal(states[j]))
  }

  /** A partial submission asks the user to confirm. */
  predicate AsksConfirmation(states: seq<QuestionState>) {
    0 < AnsweredCount(states) < |states|
  }

  function SubmitStep(states: seq<QuestionState>, confirmed: bool): Transition {
    var answered := AnsweredCount(states);
    if answered == 0 then Transition(states, AnswerSomethingFirst)
    else if answered < |states| && !confirmed then Transition(states, NoNotice)
    else Transition(RevealAll(states), QuizSubmitted(answered, |states|))
  }

  /** One gesture on the whole quiz. */
  function Apply(states: seq<QuestionState>, quiz: seq<Json>, g: Gesture): (t: Transition)
    requires |states| == |quiz| && Renderable(quiz)
    ensures |t.states| == |states|
  {
    match g
    case Select(qi, c) =>
      if qi < |states| then Transition(states[qi := SelectStep(states[qi], |Choices(quiz[qi])|, c)], NoNotice)
      else Transition(states, NoNotice)
    case Check(qi) =>
      if qi < |states| then
        var s := CheckStep(states[qi], VerdictOf(quiz, qi, states[qi].selected));
        Transition(states[qi := s.state], s.notice)
      else Transition(states, NoNotice)
    case Retry(qi) =>
      if qi < |states| then
        var s := RetryStep(states[qi]);
        Transition(states[qi := s.state], s.notice)
      else Transition(states, NoNotice)
    case Submit(confirmed) => SubmitStep(states, confirmed)
  }

  /** A sequence of gestures, in order. */
  function Run(states: seq<QuestionState>, quiz: seq<Json>, gs: seq<Gesture>): (r: seq<QuestionState>)
    requires |states| == |quiz| && Renderable(quiz)
    ensures |r| == |states|
    decreases |gs|
  {
    if |gs| == 0 then states
    else Run(Apply(states, quiz, gs[0]).states, quiz, gs[1..])
  }

  /** The gesture addresses question `i` (submission addresses all of them). */
  predicate Addresses(g: Gesture, i: nat) {
    g.Submit? || g.question == i
  }

  /** A gesture on one question leaves every other question as it was. */
  lemma GesturesAreLocal(states: seq<QuestionState>, quiz: seq<Json>, g: Gesture, j: nat)
    requires |states| == |quiz| && Renderable(quiz) && j < |states| && !Addresses(g, j)
    ensures Apply(states, quiz, g).states[j] == states[j]
  {
  }

  /** A correct answer is final: no gesture changes that question's state again. */
  lemma CorrectIsFinalStep(states: seq<QuestionState>, quiz: seq<Json>, g: Gesture, i: nat)
    requires |states| == |quiz| && Renderable(quiz) && i < |states| && ShowsCorrect(states[i])
    ensures Apply(states, quiz, g).states[i] == states[i]
  {
    if g.Submit? {
      var answered := AnsweredCount(states);
      if answered != 0 && !(answered < |states| && !g.confirmed) {
        assert RevealAll(states)[i] == states[i];
      }
    }
  }

  lemma {:induction false} CorrectIsFinal(states: seq<QuestionState>, quiz: seq<Json>, gs: seq<Gesture>, i: nat)
    requires |states| == |quiz| && Renderable(quiz) && i < |states| && ShowsCorrect(states[i])
    ensures Run(states, quiz, gs)[i] == states[i]
    decreases |gs|
  {
    if |gs| > 0 {
      CorrectIsFinalStep(states, quiz, gs[0], i);
      CorrectIsFinal(Apply(states, quiz, gs[0]).states, quiz, gs[1..], i);
    }
  }

  /** An incorrect answer stays on screen until that question's retry: no other gesture changes it. */
  lemma {:induction false} IncorrectUntilRetry(states: seq<QuestionState>, quiz: seq<Json>, gs: seq<Gesture>, i: nat)
    requires |states| == |quiz| && Renderable(quiz) && i < |states| && ShowsIncorrect(states[i])
    requires forall k :: 0 <= k < |gs| ==> gs[k] != Retry(i)
    ensures Run(states, quiz, gs)[i] == states[i]
    decreases |gs|
  {
    if |gs| > 0 {
      var next := Apply(states, quiz, gs[0]).states;
      assert next[i] == states[i] by {
        if gs[0].Submit? {
          var answered := AnsweredCount(states);
          if answered != 0 && !(answered < |states| && !gs[0].confirmed) {
            assert RevealAll(states)[i] == states[i];
          }
        }
      }
      IncorrectUntilRetry(next, quiz, gs[1..], i);
    }
  }

  /** The whole quiz is in reachable states. */
  predicate AllConsistent(states: seq<QuestionState>, quiz: seq<Json>) {
    |states| == |quiz| && forall i :: 0 <= i < |quiz| ==> Consistent(states[i], quiz[i])
  }

  lemma ApplyKeepsConsistent(states: seq<QuestionState>, quiz: seq<Json>, g: Gesture)
    requires Renderable(quiz) && AllConsistent(states, quiz)
    ensures AllConsistent(Apply(states, quiz, g).states, quiz)
  {
    if g.Submit? {
      RevealKeepsConsistent(states, quiz);
    } else if g.question < |states| {
      var qi := g.question;
      StepsKeepConsistent(states[qi], quiz[qi], quiz, qi, if g.Select? then g.choice else 0);
      UpdateKeepsConsistent(states, quiz, qi, Apply(states, quiz, g).states[qi]);
      assert Apply(states, quiz, g).states == states[qi := Apply(states, quiz, g).states[qi]];
    }
  }

  /** Replacing one card by a reachable state keeps the whole quiz reachable. */
  lemma UpdateKeepsConsistent(states: seq<QuestionState>, quiz: seq<Json>, qi: nat, st: QuestionState)
    requires AllConsistent(states, quiz) && qi < |quiz| && Consistent(st, quiz[qi])
    ensures AllConsistent(states[qi := st], quiz)
  {
  }

  /** Showing every footer keeps the whole quiz reachable. */
  lemma RevealKeepsConsistent(states: seq<QuestionState>, quiz: seq<Json>)
    requires Renderable(quiz) && AllConsistent(states, quiz)
    ensures AllConsistent(RevealAll(states), quiz)
  {
    forall i | 0 <= i < |quiz| ensures Consistent(RevealAll(states)[i], quiz[i]) {
      StepsKeepConsistent(states[i], quiz[i], quiz, i, 0);
    }
  }

  /** No question is answered exactly when none has a checked radio. */
  lemma {:induction false} AnsweredCountZero(states: seq<QuestionState>)
    ensures AnsweredCount(states) == 0 <==> forall j :: 0 <= j < |states| ==> states[j].selected.None?
    decreases |states|
  {
    if |states| > 0 {
      var prefix := states[..|states| - 1];
      AnsweredCountZero(prefix);
      assert forall j :: 0 <= j < |prefix| ==> prefix[j] == states[j];
    }
  }

  /** Every question is answered exactly when each has a checked radio. */
  lemma {:induction false} AnsweredCountAll(states: seq<QuestionState>)
    ensures AnsweredCount(states) == |states| <==> forall j :: 0 <= j < |states| ==> states[j].selected.Some?
    decreases |states|
  {
    if |states| > 0 {
      var prefix := states[..|states| - 1];
      AnsweredCountAll(prefix);
      assert forall j :: 0 <= j < |prefix| ==> prefix[j] == states[j];
    }
  }

  /**
   * Submitting: with nothing answered it warns and changes nothing; a
   * declined partial submission changes nothing; otherwise every footer is
   * shown and every selection is kept.
   */
  lemma SubmitOutcomes(states: seq<QuestionState>, confirmed: bool)
    ensures (forall j :: 0 <= j < |states| ==> states[j].selected.None?) ==>
              SubmitStep(states, confirmed) == Transition(states, AnswerSomethingFirst)
    ensures AsksConfirmation(states) && !confirmed ==> SubmitStep(states, confirmed) == Transition(states, NoNotice)
    ensures (exists j :: 0 <= j < |states| && states[j].selected.Some?) && (confirmed || !AsksConfirmation(states)) ==>
              var t := SubmitStep(states, confirmed);
              && t.notice == QuizSubmitted(AnsweredCount(states), |states|)
              && |t.states| == |states|
              && forall j :: 0 <= j < |states| ==>
                   t.states[j].feedbackVisible && t.states[j] == states[j].(feedbackVisible := true)
  {
    AnsweredCountZero(states);
  }

  /** Running gestures one after another is running them in sequence. */
  lemma {:induction false} RunAppend(states: seq<QuestionState>, quiz: seq<Json>, a: seq<Gesture>, b: seq<Gesture>)
    requires |states| == |quiz| && Renderable(quiz)
    ensures Run(states, quiz, a + b) == Run(Run(states, quiz, a), quiz, b)
    decreases |a|
  {
    if |a| == 0 {
      assert a + b == b;
    } else {
      assert (a + b)[0] == a[0];
      assert (a + b)[1..] == a[1..] + b;
      RunAppend(Apply(states, quiz, a[0]).states, quiz, a[1..], b);
    }
  }

  /** On a one-question quiz whose card takes a selection, selecting choice `c` and checking judges `c`. */
  lemma SelectThenCheck(st: QuestionState, q: Json, c: nat)
    requires RenderableQuestion(q) && c < |Choices(q)|
    requires st.choicesEnabled && st.checkVisible && st.checkEnabled
    ensures Run([st], [q], [Select(0, c), Check(0)]) ==
              [CheckStep(st.(selected := Some(c), highlighted := Some(c)), Judged(ChoiceIsCorrect(q, c))).state]
  {
    var quiz := [q];
    assert Renderable(quiz);
    var st1 := st.(selected := Some(c), highlighted := Some(c));
    var st2 := CheckStep(st1, Judged(ChoiceIsCorrect(q, c))).state;
    var gs := [Select(0, c), Check(0)];
    assert Run([st], quiz, gs) == Run([st1], quiz, [Check(0)]) by {
      assert gs[0] == Select(0, c) && gs[1..] == [Check(0)];
      assert Apply([st], quiz, Select(0, c)).states == [st1];
    }
    assert Run([st1], quiz, [Check(0)]) == [st2] by {
      assert [Check(0)][1..] == [];
      assert VerdictOf(quiz, 0, Some(c)) == Judged(ChoiceIsCorrect(q, c));
      assert Apply([st1], quiz, Check(0)).states == [st2];
    }
  }

  /** On a one-question quiz, the retry gesture is the retry transition. */
  lemma RetryOnce(st: QuestionState, q: Json)
    requires RenderableQuestion(q)
    ensures Run([st], [q], [Retry(0)]) == [RetryStep(st).state]
  {
    assert Renderable([q]);
    assert [Retry(0)][1..] == [];
  }

  /**
   * Wrong answer, retry, right answer: on a one-question quiz, selecting a
   * wrong choice and checking shows the incorrect state; retrying, selecting
   * a right choice and checking ends answered correctly with it checked.
   */
  lemma WrongRetryRight(q: Json, w: nat, r: nat)
    requires RenderableQuestion(q) && w < |Choices(q)| && r < |Choices(q)|
    requires !ChoiceIsCorrect(q, w) && ChoiceIsCorrect(q, r)
    ensures var wrong := Run([Fresh], [q], [Select(0, w), Check(0)]);
      ShowsIncorrect(wrong[0]) && wrong[0].selected == Some(w)
    ensures var done := Run([Fresh], [q], [Select(0, w), Check(0), Retry(0), Select(0, r), Check(0)]);
      ShowsCorrect(done[0]) && done[0].selected == Some(r)
  {
    var quiz := [q];
    assert Renderable(quiz);
    SelectThenCheck(Fresh, q, w);
    var st1 := Fresh.(selected := Some(w), highlighted := Some(w));
    CheckOutcomes(st1, w, false);
    var st2 := CheckStep(st1, Judged(false)).state;
    RetryOnce(st2, q);
    RetryRestoresFreshCard(st2);
    var st3 := RetryStep(st2).state;
    SelectThenCheck(st3, q, r);
    CheckOutcomes(st3.(selected := Some(r), highlighted := Some(r)), r, true);
    RunAppend([Fresh], quiz, [Select(0, w), Check(0)], [Retry(0)]);
    assert [Select(0, w), Check(0)] + [Retry(0)] == [Select(0, w), Check(0), Retry(0)];
    RunAppend([Fresh], quiz, [Select(0, w), Check(0), Retry(0)], [Select(0, r), Check(0)]);
    assert [Select(0, w), Check(0), Retry(0)] + [Select(0, r), Check(0)] ==
           [Select(0, w), Check(0), Retry(0), Select(0, r), Check(0)];
  }

  // ---------------------------------------------------------------------
  // The session object
  // ---------------------------------------------------------------------

  /** The rendered quiz (`currentQuiz`) and the live state of each of its cards. */
  class Session {
    const quiz: seq<Json>
    const states: array<QuestionState>

    ghost predicate Valid()
      reads states
    {
      Renderable(quiz) && AllConsistent(states[..], quiz)
    }

    /** renderQuiz: every card drawn fresh. */
    constructor (quiz: seq<Json>)
      requires Renderable(quiz)
      ensures Valid() && fresh(states)
      ensures this.quiz == quiz
      ensures states[..] == seq(|quiz|, _ => Fresh)
    {
      this.quiz := quiz;
      states := new QuestionState[|quiz|](_ => Fresh);
    }

    /** A click on radio `ci` of question `qi`, then handleChoiceSelection. */
    method SelectChoice(qi: nat, ci: nat)
      requires Valid()
      modifies states
      ensures Valid()
      ensures states[..] == Apply(old(states[..]), quiz, Select(qi, ci)).states
    {
      if qi < states.Length && ci < |Choices(quiz[qi])| && states[qi].choicesEnabled {
        states[qi] := states[qi].(selected := Some(ci), highlighted := Some(ci));
      }
      ApplyKeepsConsistent(old(states[..]), quiz, Select(qi, ci));
    }

    /** A click on the check button of question `qi`: checkAnswer. */
    method CheckAnswer(qi: nat) returns (notice: Notice)
      requires Valid()
      modifies states
      ensures Valid()
      ensures Transition(states[..], notice) == Apply(old(states[..]), quiz, Check(qi))
    {
      ApplyKeepsConsistent(states[..], quiz, Check(qi));
      notice := NoNotice;
      if qi >= states.Length || !(states[qi].checkVisible && states[qi].checkEnabled) {
        return;
      }
      var st := states[qi];
      if st.selected.None? {
        return SelectAnswerFirst;
      }
      if !Js.Truthy(Some(quiz[qi])) {
        return;
      }
      var isCorrect := ChoiceIsCorrect(quiz[qi], st.selected.value);
      st := st.(feedbackVisible := true);
      if isCorrect {
        st := st.(correctShown := true, incorrectShown := false, border := BorderSuccess);
        st := st.(checkEnabled := false, choicesEnabled := false);
        notice := AnswerCorrect;
      } else {
        st := st.(correctShown := false, incorrectShown := true, border := BorderDanger);
        st := st.(checkVisible := false, retryVisible := true, choicesEnabled := false);
        notice := AnswerIncorrect;
      }
      states[qi] := st;
    }

    /** A click on the retry button of question `qi`: retryQuestion. */
    method RetryQuestion(qi: nat) returns (notice: Notice)
      requires Valid()
      modifies states
      ensures Valid()
      ensures Transition(states[..], notice) == Apply(old(states[..]), quiz, Retry(qi))
    {
      ApplyKeepsConsistent(states[..], quiz, Retry(qi));
      if qi >= states.Length || !states[qi].retryVisible {
        return NoNotice;
      }
      var st := states[qi].(border := Plain, feedbackVisible := false);
      st := st.(checkVisible := true, checkEnabled := true, retryVisible := false);
      st := st.(choicesEnabled := true, selected := None, highlighted := None);
      states[qi] := st;
      notice := QuestionReset;
    }

    /** submitQuiz's first pass: the number of questions with a checked radio. */
    method CountAnswered() returns (answeredCount: nat)
      ensures answeredCount == AnsweredCount(states[..])
    {
      answeredCount := 0;
      var i := 0;
      while i < states.Length
        invariant i <= states.Length
        invariant answeredCount == AnsweredCount(states[..i])
      {
        assert states[..i + 1][..i] == states[..i];
        if states[i].selected.Some? {
          answeredCount := answeredCount + 1;
        }
        i := i + 1;
      }
      assert states[..i] == states[..];
    }

    /** submitQuiz's second pass: every feedback footer shown. */
    method RevealFeedback()
      modifies states
      ensures states[..] == RevealAll(old(states[..]))
    {
      var i := 0;
      while i < states.Length
        invariant i <= states.Length
        invariant forall j :: 0 <= j < i ==> states[j] == Reveal(old(states[j]))
        invariant forall j :: i <= j < states.Length ==> states[j] == old(states[j])
      {
        states[i] := Reveal(states[i]);
        i := i + 1;
      }
    }

    /**
     * submitQuiz: count the answered questions, stop on none, ask to confirm a
     * partial submission (`confirmed` is the user's answer), then show every
     * feedback footer.
     */
    method SubmitQuiz(confirmed: bool) returns (asked: bool, notice: Notice)
      requires Valid()
      modifies states
      ensures Valid()
      ensures asked == AsksConfirmation(old(states[..]))
      ensures Transition(states[..], notice) == Apply(old(states[..]), quiz, Submit(confirmed))
    {
      ApplyKeepsConsistent(states[..], quiz, Submit(confirmed));
      var answeredCount := CountAnswered();
      asked := false;
      if answeredCount == 0 {
        return asked, AnswerSomethingFirst;
      }
      if answeredCount < states.Length {
        asked := true;
        if !confirmed {
          return asked, NoNotice;
        }
      }
      RevealFeedback();
      notice := QuizSubmitted(answeredCount, states.Length);
    }
  }
}
