/**
 A model of the answer logic of the quiz screen `CarouselView`: a landmark is
 shown with several candidate countries, the player presses one, the screen
 reports the outcome through one of two callbacks and colours the disabled
 buttons to show what was right and what was wrong.

 The pure part (assembling the choice set, the colour rule) is written as
 functions with lemmas; the component's state cells are the fields of the
 class `CarouselView`, whose methods are the press handler, the landmark
 change effect and the loading flag.
 */
module Carousel {

  /** A country identifier, as shown on an answer button. */
  type Country = string

  datatype Option<T> = None | Some(value: T)

  /** The landmark shown on screen: its image, its true country and the attribution. */
  datatype Landmark = Landmark(imageUrl: string, country: Country, authorName: string, authorUrl: string)

  /** One call of a callback that the caller passed in as a prop. */
  datatype Event =
    | OnCorrectAnswer(landmark: Landmark)
    | OnWrongAnswer(landmark: Landmark, choice: Country)

  /** The disabled background colour of an answer button: `undefined`, `Colors.green30` or `Colors.red30`. */
  datatype Colour = NoColour | Green30 | Red30

  /** The three answer cells of the component, taken together. */
  datatype AnswerState = AnswerState(hasChosen: bool, hasChosenCorrectAnswer: bool, userChoice: Option<Country>)

  const Unanswered := AnswerState(false, false, None)

  // ---------------------------------------------------------------------------
  // Choice sets
  // ---------------------------------------------------------------------------

  /** No element occurs twice. */
  predicate Distinct<T(==)>(s: seq<T>)
  {
    forall i, j :: 0 <= i < j < |s| ==> s[i] != s[j]
  }

  /**
   What the helpers that are outside this model are relied on to deliver:
   `generateChoices(amount, correctAnswer)` yields `amount` distinct countries,
   none of them the correct one, and `getRandomInt(amount + 1)` yields a slot
   in `0..amount`.
   */
  predicate ValidDraw(amount: nat, wrongs: seq<Country>, correctAnswer: Country, index: int)
  {
    |wrongs| == amount && Distinct(wrongs) && correctAnswer !in wrongs && 0 <= index <= amount
  }

  /** A choice set for `correctAnswer`: `amount + 1` distinct countries, the correct one exactly once. */
  predicate ChoiceSet(amount: nat, choices: seq<Country>, correctAnswer: Country)
  {
    |choices| == amount + 1 && Distinct(choices) && multiset(choices)[correctAnswer] == 1
  }

  /** The slot `Array.prototype.splice` inserts at: a negative start counts from the end, and starts are clamped to `0..len`. */
  function SpliceStart(len: nat, start: int): (p: nat)
    ensures p <= len
    ensures 0 <= start <= len ==> p == start
  {
    if start < 0 then (if len + start < 0 then 0 else len + start)
    else if start > len then len
    else start
  }

  /**
   `s.splice(start, 0, item)`: the array afterwards. The item sits at the
   clamped start, and taking it out again gives back the original array.
   */
  function Splice<T>(s: seq<T>, start: int, item: T): (r: seq<T>)
    ensures |r| == |s| + 1
    ensures r[SpliceStart(|s|, start)] == item
    ensures r[..SpliceStart(|s|, start)] + r[SpliceStart(|s|, start) + 1..] == s
    ensures multiset(r) == multiset(s) + multiset{item}
  {
    var p := SpliceStart(|s|, start);
    assert s == s[..p] + s[p..];
    var r := s[..p] + [item] + s[p..];
    assert r[..p] == s[..p] && r[p + 1..] == s[p..];
    r
  }

  /** Inserting an element that is not already present keeps a sequence free of duplicates. */
  lemma SpliceKeepsDistinct<T>(s: seq<T>, start: int, item: T)
    requires Distinct(s) && item !in s
    ensures Distinct(Splice(s, start, item))
  {
  }

  /** In a sequence without duplicates every value occurs at most once. */
  lemma {:induction false} DistinctAtMostOnce<T>(s: seq<T>, x: T)
    requires Distinct(s)
    ensures multiset(s)[x] == if x in s then 1 else 0
  {
    if s != [] {
      assert s == [s[0]] + s[1..];
      assert Distinct(s[1..]);
      DistinctAtMostOnce(s[1..], x);
      assert s[0] !in s[1..];
    }
  }

  /**
   `getChoices(correctAnswer)`: the wrong countries drawn by `generateChoices`
   with the correct one spliced in at the slot drawn by `getRandomInt`. The
   result is a choice set, the correct answer sits at the drawn slot, and the
   wrong countries keep their order around it.
   */
  function GetChoices(amount: nat, wrongs: seq<Country>, correctAnswer: Country, index: int): (choices: seq<Country>)
    requires ValidDraw(amount, wrongs, correctAnswer, index)
    ensures ChoiceSet(amount, choices, correctAnswer)
    ensures choices[index] == correctAnswer
    ensures forall i :: 0 <= i < |choices| && choices[i] == correctAnswer ==> i == index
    ensures choices[..index] == wrongs[..index] && choices[index + 1..] == wrongs[index..]
  {
    SpliceKeepsDistinct(wrongs, index, correctAnswer);
    var choices := Splice(wrongs, index, correctAnswer);
    assert choices == choices[..index] + [choices[index]] + choices[index + 1..];
    assert choices[..index] == wrongs[..index] && choices[index + 1..] == wrongs[index..];
    choices
  }

  // ---------------------------------------------------------------------------
  // The colour rule
  // ---------------------------------------------------------------------------

  /**
   The answer cells describe an answer given to the question whose correct
   answer is `correctAnswer`: the recorded choice is there, and it was marked
   correct exactly when it is that country.
   */
  predicate AnsweredFor(st: AnswerState, correctAnswer: Country)
  {
    st.hasChosen && st.userChoice.Some? && (st.hasChosenCorrectAnswer <==> st.userChoice.value == correctAnswer)
  }

  /**
   `getDisabledBackgroundColor(answer)`. Before an answer nothing is
   coloured; after an answer to this question the correct country is green,
   a wrong pick is red, and every other button is uncoloured.
   */
  function DisabledBackgroundColor(st: AnswerState, correctAnswer: Country, answer: Country): (c: Colour)
    ensures !st.hasChosen ==> c == NoColour
    ensures AnsweredFor(st, correctAnswer) ==>
      (c == Green30 <==> answer == correctAnswer) &&
      (c == Red30 <==> st.userChoice == Some(answer) && answer != correctAnswer)
  {
    if !st.hasChosen then NoColour
    else if st.hasChosenCorrectAnswer && answer != correctAnswer then NoColour
    else if st.hasChosenCorrectAnswer && answer == correctAnswer then Green30
    else if !st.hasChosenCorrectAnswer && st.userChoice == Some(answer) then Red30
    else if !st.hasChosenCorrectAnswer && answer == correctAnswer then Green30
    else NoColour
  }

  /** The disabled background colours of the buttons, in the order of `choices` (`choices.map`). */
  function Highlights(st: AnswerState, correctAnswer: Country, choices: seq<Country>): (hs: seq<Colour>)
    ensures |hs| == |choices|
    ensures forall i :: 0 <= i < |choices| ==> hs[i] == DisabledBackgroundColor(st, correctAnswer, choices[i])
  {
    if choices == [] then []
    else [DisabledBackgroundColor(st, correctAnswer, choices[0])] + Highlights(st, correctAnswer, choices[1..])
  }

  /** Before an answer no button is coloured. */
  lemma {:induction false} HighlightsBeforeAnswer(st: AnswerState, correctAnswer: Country, choices: seq<Country>)
    requires !st.hasChosen
    ensures multiset(Highlights(st, correctAnswer, choices))[NoColour] == |choices|
  {
    if choices != [] {
      HighlightsBeforeAnswer(st, correctAnswer, choices[1..]);
    }
  }

  /**
   After an answer, the green buttons are the copies of the correct country,
   except when the recorded wrong pick is that very country: then none is.
   */
  lemma {:induction false} GreenCount(st: AnswerState, correctAnswer: Country, choices: seq<Country>)
    requires st.hasChosen
    ensures multiset(Highlights(st, correctAnswer, choices))[Green30] ==
      if !st.hasChosenCorrectAnswer && st.userChoice == Some(correctAnswer) then 0 else multiset(choices)[correctAnswer]
  {
    if choices != [] {
      var head, tail := choices[0], choices[1..];
      assert choices == [head] + tail;
      var colour := DisabledBackgroundColor(st, correctAnswer, head);
      assert Highlights(st, correctAnswer, choices) == [colour] + Highlights(st, correctAnswer, tail);
      GreenCount(st, correctAnswer, tail);
      assert multiset(choices)[correctAnswer] == (if head == correctAnswer then 1 else 0) + multiset(tail)[correctAnswer];
      if !st.hasChosenCorrectAnswer && st.userChoice == Some(correctAnswer) {
        assert colour != Green30;
      } else {
        assert colour == Green30 <==> head == correctAnswer;
      }
    }
  }

  /**
   After an answer, a correct one leaves no button red, and a wrong one makes
   red exactly the copies of the recorded pick.
   */
  lemma {:induction false} RedCount(st: AnswerState, correctAnswer: Country, choices: seq<Country>)
    requires st.hasChosen
    ensures multiset(Highlights(st, correctAnswer, choices))[Red30] ==
      if !st.hasChosenCorrectAnswer && st.userChoice.Some? then multiset(choices)[st.userChoice.value] else 0
  {
    if choices != [] {
      assert choices == [choices[0]] + choices[1..];
      var rest := Highlights(st, correctAnswer, choices[1..]);
      assert Highlights(st, correctAnswer, choices) == [DisabledBackgroundColor(st, correctAnswer, choices[0])] + rest;
      assert DisabledBackgroundColor(st, correctAnswer, choices[0]) == Red30 <==>
        !st.hasChosenCorrectAnswer && st.userChoice == Some(choices[0]);
      RedCount(st, correctAnswer, choices[1..]);
    }
  }

  /**
   On a choice set that holds the pick: exactly one green button, and one red
   button exactly when the pick was wrong.
   */
  lemma AnsweredHighlights(amount: nat, st: AnswerState, correctAnswer: Country, choices: seq<Country>)
    requires ChoiceSet(amount, choices, correctAnswer)
    requires AnsweredFor(st, correctAnswer) && st.userChoice.value in choices
    ensures multiset(Highlights(st, correctAnswer, choices))[Green30] == 1
    ensures multiset(Highlights(st, correctAnswer, choices))[Red30] == if st.hasChosenCorrectAnswer then 0 else 1
  {
    GreenCount(st, correctAnswer, choices);
    RedCount(st, correctAnswer, choices);
    DistinctAtMostOnce(choices, st.userChoice.value);
  }

  /**
   A wrong answer that is left over from an earlier landmark whose pick is the
   new correct country paints that country red and leaves no button green.
   */
  lemma StaleWrongAnswerHighlight(st: AnswerState, correctAnswer: Country, answer: Country)
    requires st.hasChosen && !st.hasChosenCorrectAnswer && st.userChoice == Some(correctAnswer)
    ensures DisabledBackgroundColor(st, correctAnswer, answer) == if answer == correctAnswer then Red30 else NoColour
  {
  }

  /** A correct answer left over from an earlier landmark paints the new correct country green although nobody picked it. */
  lemma StaleCorrectAnswerHighlight(st: AnswerState, correctAnswer: Country, answer: Country)
    requires st.hasChosen && st.hasChosenCorrectAnswer
    ensures DisabledBackgroundColor(st, correctAnswer, answer) == if answer == correctAnswer then Green30 else NoColour
  {
  }

  // ---------------------------------------------------------------------------
  // The component
  // ---------------------------------------------------------------------------

  /**
   One mounted `CarouselView`: its props (`landmark`, `isLoading`), its four
   state cells, and a log of the callback calls it has made. Each handler
   below runs its `setState` calls as one step.
   */
  class CarouselView {
    /** `WRONG_CHOICES_AMOUNT`. */
    const wrongChoicesAmount: nat
    var landmark: Landmark
    var isLoading: bool
    var hasChosen: bool
    var hasChosenCorrectAnswer: bool
    var userChoice: Option<Country>
    var choices: seq<Country>
    /** The calls of `onCorrectAnswer` and `onWrongAnswer`, oldest first. */
    ghost var events: seq<Event>

    function Answer(): (st: AnswerState)
      reads this
    {
      AnswerState(hasChosen, hasChosenCorrectAnswer, userChoice)
    }

    /**
     The choices are a choice set for the current country, and over the whole
     life of the instance at most one callback has been called: the one that
     recorded the answer held in the state cells, naming the picked country
     and marked correct exactly when the pick was the landmark's country.
     */
    ghost predicate Valid()
      reads this
    {
      && ChoiceSet(wrongChoicesAmount, choices, landmark.country)
      && (!hasChosen ==> events == [] && Answer() == Unanswered)
      && (hasChosen ==>
            && |events| == 1
            && userChoice.Some?
            && (hasChosenCorrectAnswer <==> events[0].OnCorrectAnswer?)
            && (events[0].OnCorrectAnswer? ==> events[0].landmark.country == userChoice.value)
            && (events[0].OnWrongAnswer? ==>
                  events[0].choice == userChoice.value && events[0].landmark.country != userChoice.value))
    }

    /** The buttons on screen: none while loading, one per choice otherwise. */
    function Buttons(): (buttons: seq<Country>)
      reads this
      requires Valid()
      ensures buttons == [] <==> isLoading
      ensures forall a :: a in buttons ==> a in choices
      ensures !isLoading ==> |buttons| == wrongChoicesAmount + 1 && landmark.country in buttons
      ensures !isLoading ==> buttons == choices
    {
      if isLoading then [] else choices
    }

    /** A button for `answer` is on screen and not disabled. */
    predicate CanPress(answer: Country): (enabled: bool)
      reads this
      requires Valid()
      ensures enabled <==> !isLoading && !hasChosen && answer in choices
      ensures enabled ==> events == [] && Answer() == Unanswered
    {
      !hasChosen && answer in Buttons()
    }

    /** The disabled background colours of the buttons on screen. */
    function ButtonColours(): (colours: seq<Colour>)
      reads this
      requires Valid()
      ensures |colours| == |Buttons()|
      ensures forall i :: 0 <= i < |colours| ==> colours[i] == DisabledBackgroundColor(Answer(), landmark.country, Buttons()[i])
      ensures !hasChosen ==> forall i :: 0 <= i < |colours| ==> colours[i] == NoColour
    {
      Highlights(Answer(), landmark.country, Buttons())
    }

    /** Mounting: the initial state cells, with the choice set from the given draw. */
    constructor (amount: nat, landmark: Landmark, isLoading: bool, wrongs: seq<Country>, index: int)
      requires ValidDraw(amount, wrongs, landmark.country, index)
      ensures Valid()
      ensures wrongChoicesAmount == amount && this.landmark == landmark && this.isLoading == isLoading
      ensures Answer() == Unanswered && events == []
      ensures choices == GetChoices(amount, wrongs, landmark.country, index)
    {
      wrongChoicesAmount := amount;
      this.landmark := landmark;
      this.isLoading := isLoading;
      hasChosen := false;
      hasChosenCorrectAnswer := false;
      userChoice := None;
      choices := GetChoices(amount, wrongs, landmark.country, index);
      events := [];
    }

    /**
     A press on the button for `answer`. Only an enabled button on screen
     reacts: it calls the callback that matches the answer and records the
     answer; afterwards every button is disabled, the correct country is
     green and a wrong pick red. Any other press changes nothing.
     */
    method Press(answer: Country)
      requires Valid()
      modifies this
      ensures Valid()
      ensures landmark == old(landmark) && isLoading == old(isLoading) && choices == old(choices)
      ensures old(CanPress(answer)) ==>
        && events == old(events) + [if answer == landmark.country then OnCorrectAnswer(landmark) else OnWrongAnswer(landmark, answer)]
        && Answer() == AnswerState(true, answer == landmark.country, Some(answer))
        && (forall a :: !CanPress(a))
        && multiset(ButtonColours())[Green30] == 1
        && multiset(ButtonColours())[Red30] == if answer == landmark.country then 0 else 1
      ensures !old(CanPress(answer)) ==> unchanged(this)
    {
      if !CanPress(answer) {
        return;
      }
      if answer == landmark.country {
        events := events + [OnCorrectAnswer(landmark)];
        hasChosenCorrectAnswer := true;
        userChoice := Some(answer);
        hasChosen := true;
      } else {
        events := events + [OnWrongAnswer(landmark, answer)];
        hasChosenCorrectAnswer := false;
        userChoice := Some(answer);
        hasChosen := true;
      }
      assert Buttons() == choices;
      assert ButtonColours() == Highlights(Answer(), landmark.country, choices);
      AnsweredHighlights(wrongChoicesAmount, Answer(), landmark.country, choices);
    }

    /**
     A new `landmark` prop. The effect keyed on the correct country draws a
     new choice set only when the country changes; the answer cells and the
     log are left as they were.
     */
    method ChangeLandmark(newLandmark: Landmark, wrongs: seq<Country>, index: int)
      requires Valid()
      requires newLandmark.country != landmark.country ==> ValidDraw(wrongChoicesAmount, wrongs, newLandmark.country, index)
      modifies this
      ensures Valid()
      ensures landmark == newLandmark && isLoading == old(isLoading)
      ensures choices == if newLandmark.country == old(landmark.country) then old(choices)
                         else GetChoices(wrongChoicesAmount, wrongs, newLandmark.country, index)
      ensures Answer() == old(Answer()) && events == old(events)
    {
      if newLandmark.country != landmark.country {
        choices := GetChoices(wrongChoicesAmount, wrongs, newLandmark.country, index);
      }
      landmark := newLandmark;
    }

    /** A new `isLoading` prop; while it is set no button is on screen. */
    method SetLoading(loading: bool)
      requires Valid()
      modifies this
      ensures Valid()
      ensures isLoading == loading
      ensures landmark == old(landmark) && choices == old(choices)
      ensures Answer() == old(Answer()) && events == old(events)
      ensures loading ==> Buttons() == [] && forall a :: !CanPress(a)
    {
      isLoading := loading;
    }
  }

  /**
   One mounted view: an answer to the first landmark, then a second landmark,
   then a press on the second landmark's correct answer. The answered state
   of the first landmark stays: the press is ignored, no second callback is
   made and no button can be pressed. The colours describe the old answer
   against the new correct country: a stale correct answer colours the new
   correct country green although nobody picked it, and a stale wrong pick
   that is the new correct country colours it red and nothing green.
   */
  method AnswerThenChangeLandmark(
    amount: nat, first: Landmark, firstWrongs: seq<Country>, firstIndex: int, pick: Country,
    second: Landmark, secondWrongs: seq<Country>, secondIndex: int)
    returns (ghost events: seq<Event>, shown: seq<Country>, colours: seq<Colour>, canAnswer: bool)
    requires ValidDraw(amount, firstWrongs, first.country, firstIndex)
    requires pick in GetChoices(amount, firstWrongs, first.country, firstIndex)
    requires second.country != first.country ==> ValidDraw(amount, secondWrongs, second.country, secondIndex)
    ensures events == [if pick == first.country then OnCorrectAnswer(first) else OnWrongAnswer(first, pick)]
    ensures ChoiceSet(amount, shown, second.country) && |colours| == |shown|
    ensures !canAnswer
    ensures pick == first.country ==>
      multiset(colours)[Green30] == 1 && multiset(colours)[Red30] == 0
    ensures pick != first.country && pick == second.country ==>
      multiset(colours)[Green30] == 0 && multiset(colours)[Red30] == 1
    ensures pick != first.country && pick != second.country ==>
      multiset(colours)[Green30] == 1 && multiset(colours)[Red30] == if pick in shown then 1 else 0
  {
    var view := new CarouselView(amount, first, false, firstWrongs, firstIndex);
    view.Press(pick);
    view.ChangeLandmark(second, secondWrongs, secondIndex);
    view.Press(second.country);
    events := view.events;
    shown := view.choices;
    colours := view.ButtonColours();
    canAnswer := exists a :: a in shown && view.CanPress(a);
    GreenCount(view.Answer(), second.country, shown);
    RedCount(view.Answer(), second.country, shown);
    DistinctAtMostOnce(shown, pick);
  }
}
