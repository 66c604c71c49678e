# landmark-guesser: the answer logic of `CarouselView`

`CarouselView` is the quiz screen of landmark-guesser. It shows a photo of a
landmark and one button per candidate country. The player presses one
button. The screen then calls `onCorrectAnswer(landmark)` or
`onWrongAnswer(landmark, choice)`, disables every button and colours them:
the correct country green and a wrong pick red.

This project models the logic inside that screen in Dafny (one module,
`Carousel`, in `carousel_view.dfy`):

- **Choice sets.** `getChoices` takes the wrong countries drawn by
  `generateChoices` and splices the correct country in at a slot drawn by
  `getRandomInt`. Here that is `GetChoices`, built on `Splice`, a model of
  `Array.prototype.splice(start, 0, item)` that includes its clamping of
  `start`. The result is a choice set: `WRONG_CHOICES_AMOUNT + 1` distinct
  countries that hold the correct one exactly once, at the drawn slot, with
  the wrong countries in their original order around it.
- **The colour rule.** `getDisabledBackgroundColor` is the pure function
  `DisabledBackgroundColor`. Mapping it over the buttons gives `Highlights`.
  Lemmas count the green and red buttons in every answered state, including
  the stale states described below.
- **The component.** The class `CarouselView` holds the props `landmark` and
  `isLoading`, the four `useState` cells and a ghost log of the callback calls.
  Three methods change it:
  - `Press` is the button handler.
  - `ChangeLandmark` is the effect keyed on the correct country.
  - `SetLoading` sets the loading prop. While it is set, no buttons are on screen.

  Each handler's `setState` calls are treated as one atomic step.
  `Valid()` is the instance's invariant: the choices form a choice set for
  the current country, and at most one callback has been called over the
  instance's whole life.

The design point the model makes explicit is that a landmark change does not
reset the answer cells. `ChangeLandmark` replaces the landmark and, if the
country changed, the choices. It leaves `hasChosen`,
`hasChosenCorrectAnswer` and `userChoice` as they were. A view that stays
mounted therefore cannot be answered again for the next landmark.
`AnswerThenChangeLandmark` and the `Stale…` lemmas show what that view then
displays.

Nothing resets `hasChosen`, `hasChosenCorrectAnswer` or `userChoice` when
the landmark changes. The hooks run before the `if (isLoading)` early
return (src/components/CarouselView.tsx:40-47, :58), so the effect still
draws new choices while the loading flag is set. The model follows the code.

## Model

| member | source | states |
|---|---|---|
| `Carousel.Splice` | src/components/CarouselView.tsx:26 | `splice(start, 0, item)` lengthens the array by one. The item sits at the clamped start, and removing it gives back the original array. The multiset grows by exactly that item. |
| `Carousel.SpliceKeepsDistinct` | src/components/CarouselView.tsx:26 | Splicing in an item that is not already present keeps the array free of duplicates. |
| `Carousel.DistinctAtMostOnce` | src/components/CarouselView.tsx:130 | Helper about sequences: in a duplicate-free list a value occurs once if present and never otherwise. It matters because each button is keyed by its country (`key={answer}`), and the colour counts below rely on it. |
| `Carousel.GetChoices` | src/components/CarouselView.tsx:24-28 | Given a valid draw (`WRONG_CHOICES_AMOUNT` distinct wrong countries without the correct one, and a slot in `0..WRONG_CHOICES_AMOUNT`), the result has `WRONG_CHOICES_AMOUNT + 1` distinct entries. The correct country occurs exactly once, at the drawn slot, and nowhere else. The entries before and after that slot are the wrong countries in their original order. |
| `Carousel.DisabledBackgroundColor` | src/components/CarouselView.tsx:71-79 | Before an answer, no button is coloured. After an answer to the current question, a button is green exactly when it is the correct country. It is red exactly when it is the recorded pick and that pick is wrong. Every other button is uncoloured. |
| `Carousel.Highlights` | src/components/CarouselView.tsx:125-133 | `choices.map` with `getDisabledBackgroundColor`: one colour per choice, in order. The colour at each position is the rule applied to the choice at that position. |
| `Carousel.HighlightsBeforeAnswer` | src/components/CarouselView.tsx:71-72 | Before an answer, every button's colour is `undefined`. |
| `Carousel.GreenCount` | src/components/CarouselView.tsx:71-79 | In every answered state, stale ones included, the green buttons are exactly the copies of the correct country. The exception is a recorded wrong pick that equals the correct country: then no button is green. |
| `Carousel.RedCount` | src/components/CarouselView.tsx:71-79 | In every answered state, a correct answer leaves no button red. A wrong answer makes exactly the copies of the recorded pick red. |
| `Carousel.AnsweredHighlights` | src/components/CarouselView.tsx:71-79 | On a choice set that holds the pick, answered for its own question: exactly one button is green. Exactly one is red if the pick was wrong, and none is red if it was right. |
| `Carousel.StaleWrongAnswerHighlight` | src/components/CarouselView.tsx:76-78 | Suppose a wrong pick is left over from an earlier landmark and equals the new correct country. Then the rule paints that country red, because the red test comes first, and paints nothing green. |
| `Carousel.StaleCorrectAnswerHighlight` | src/components/CarouselView.tsx:73-75 | Suppose a correct answer is left over from an earlier landmark. Then the new correct country is green although nobody picked it, and everything else is uncoloured. |
| `Carousel.CarouselView.Buttons` | src/components/CarouselView.tsx:58-69 | While loading, the early return renders no buttons. Otherwise one button is rendered per choice, in the order of the choices (:125): the buttons are exactly the choices, `WRONG_CHOICES_AMOUNT + 1` of them, the landmark's country among them. |
| `Carousel.CarouselView.CanPress` | src/components/CarouselView.tsx:132 | A button reacts exactly when it is on screen (not loading, its country among the choices) and not disabled (`disabled={hasChosen}`). While any button reacts, no callback has been made yet and the answer cells hold their initial values. |
| `Carousel.CarouselView.ButtonColours` | src/components/CarouselView.tsx:133 | The `disabledBackgroundColor` of each button on screen is `getDisabledBackgroundColor` of that button's country, under the current answer cells and the current landmark's country. Before an answer, every button's colour is `undefined`. |
| `Carousel.CarouselView.constructor` | src/components/CarouselView.tsx:40-43 | Mounting starts unanswered: `hasChosen` and `hasChosenCorrectAnswer` are false, `userChoice` is null and no callback has been called. The choices are `getChoices` of the landmark's country. |
| `Carousel.CarouselView.Press` | src/components/CarouselView.tsx:132-147 | A press on an enabled button that is on screen records one event: `onCorrectAnswer(landmark)` when the answer is the landmark's country, `onWrongAnswer(landmark, answer)` otherwise. It sets `hasChosen` to true, `hasChosenCorrectAnswer` to whether the answer is correct and `userChoice` to the answer. Afterwards every button is disabled, exactly one is green, and one is red exactly when the answer was wrong. A press on a disabled or absent button changes nothing. The invariant (at most one callback per instance) is kept. |
| `Carousel.CarouselView.ChangeLandmark` | src/components/CarouselView.tsx:45-47 | The landmark is replaced. The choices are redrawn only when the correct country changes, the dependency of the effect. `hasChosen`, `hasChosenCorrectAnswer`, `userChoice`, the loading flag and the callback log are unchanged. |
| `Carousel.CarouselView.SetLoading` | src/components/CarouselView.tsx:58-69 | While loading, no button is on screen, so no press can reach a handler. Nothing else changes. |
| `Carousel.AnswerThenChangeLandmark` | src/components/CarouselView.tsx:45-47 | The sequence is: answer the first landmark, switch to a second landmark, press the second landmark's correct answer. Exactly one callback is ever made, the first answer's, and no button can be pressed. The colours describe the old answer against the new country. After a correct answer, one green and no red. After a wrong pick that is the new country, one red and no green. After any other wrong pick, one green, and one red if the pick is among the new choices. |

## Left out

- Rendering is not part of this model: the JSX layout, `react-native-ui-lib` components, `React.memo`, the per-slot background colours `colorKeys`/`colorProps`, the text and margin props built from strings, and `StyleSheet`. The model keeps only which buttons exist, whether they are disabled, and their disabled colours.
- Responsive sizing (`getResponsiveVerticalSize`, `choiceButtonTextSize`, `choiceButtonMarginBSize`): floating-point arithmetic over the device height, with no behaviour beyond presentation.
- `openAuthorLink`: asynchronous platform I/O (`Linking.openURL`) whose only error handling is a log line.
- `generateChoices`, `getRandomInt` and the test-id helpers are in files that are not part of this model. Their results are parameters (`wrongs`, `index`). `ValidDraw` states what they are relied on to return. The uniform distribution of the correct slot is randomness and is not modelled.
- `WRONG_CHOICES_AMOUNT` is defined in `constants/Game`, which is not part of this model. It is the parameter `amount` (the class constant `wrongChoicesAmount`), and every result holds for any value.
- React's scheduling is not modelled. The effect really runs after the render that received the new landmark, so for one render the old choices appear with the new correct country. The model applies the prop change and the effect as one step. On mount the effect also runs once and redraws the choices; the constructor takes only the final draw.
- Press: the callbacks `onCorrectAnswer` and `onWrongAnswer` are assumed to return normally. In the source each handler calls the callback before its three setters (src/components/CarouselView.tsx:137-140, :143-146). A callback that throws would leave `hasChosen` false and the buttons enabled, so a later press could call a callback again. The model, the one-step update in `Press` and the "at most one callback per instance" invariant of `Valid()` do not cover that case.
- The callbacks are recorded in a ghost log and nothing else. Whatever the parent does in response, such as loading the next landmark, is outside the component.
