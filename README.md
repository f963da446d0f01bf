# Vocabulary flashcards: the session state machine

This project models the flashcard component of the vocab-flashcards web app (`src/App.js`)
and proves properties of it in Dafny.

The component keeps four pieces of state: the loaded `words`, the selected `group`, the cursor
`index` and the `flipped` flag. Picking a group re-runs the load effect. The effect keeps the
dataset records whose `group` equals the selected group and puts the cursor on the first card.
Next and Previous move the cursor round the list with wrap-around (JavaScript `%`) and turn the
card face up. A click on the card turns it over. With no words, only a "Loading..." placeholder
is rendered, so no button is there to press. Otherwise the current card and a
"Card k of n" counter are rendered.

Files:

- `dataset.dfy`, module `Dataset`: the record type `Entry` and the group filter `FilterGroup`,
  with lemmas for membership, multiplicity, order (it distributes over concatenation),
  idempotence and disjointness.
- `navigation.dfy`, module `Navigation`: JavaScript's truncating `%` (`JsRem`), the cursor after
  one Next (`NextIndex`) or one Previous (`PrevIndex`), and after `k` presses (`Forward`,
  `Backward`). The lemmas cover bounds, wrap-around, the inverse pair, full laps and reachability.
- `session.dfy`, module `Flashcards`: class `Session` with the four fields as mutable state,
  the handlers as methods, and `Render`, the rendered screen as a datatype. Beside the class,
  client methods compose the handlers: Next then Previous, two flips, and choosing a group.
  `TwoWordScenario` walks a three-record dataset through load, flip, two Nexts and an empty group.

Behaviour of the component worth stating outright:

- Navigation wraps around (last card to first, first to last). It is not clamped at the ends.
- Loading a group does not clear `flipped`. If the card was turned over, the first card of the
  new group is shown turned over (`Session.LoadGroup`, `ChooseGroup`).
- There is no shuffling, keyboard handling, jump-to-card, reset or advertisement scheduling in
  the component. None of these is modelled.
- Clicking the group that is already selected does nothing. The effect depends only on `group`
  (src/App.js:20), so it does not re-run and the cursor stays where it is (`Session.SelectGroup`).
- A group with no records leaves the component on its "Loading..." placeholder. The group buttons
  are rendered only when there are words (src/App.js:34), so nothing can be pressed from there
  (`TwoWordScenario` ends in that state).

## Model

| member | source | states |
|---|---|---|
| Dataset.FilterGroup | src/App.js:16 | every kept record has the selected group; every dataset record of that group is kept; nothing else is added; the result is no longer than the dataset |
| Dataset.FilterGroupAppend | src/App.js:16 | filtering distributes over concatenation, so the kept records stay in dataset order |
| Dataset.FilterGroupCount | src/App.js:16 | a record of the selected group is kept as often as it occurs in the dataset; a record of another group is never kept |
| Dataset.FilterGroupIdempotent | src/App.js:16 | filtering the loaded words again by the same group changes nothing |
| Dataset.FilterGroupDisjoint | src/App.js:16 | the loaded words of one group contain no record of any other group |
| Dataset.FilterGroupKeepsAll | src/App.js:16 | a dataset whose records all belong to the group is loaded whole |
| Navigation.JsRem | src/App.js:24 | JavaScript `%` with a positive divisor: in `0..n-1` for a non-negative dividend, in `-(n-1)..0` for a negative one, the dividend itself when smaller than the divisor in size |
| Navigation.JsRemEuclidean | src/App.js:29 | for a non-negative dividend JavaScript `%` equals Euclidean `%`; `-1 % n` would be `-1`, not a card, which is why Previous adds the list length |
| Navigation.NextIndex | src/App.js:24 | the cursor after Next stays in `0..n-1`; it is one further, and from the last card it wraps to 0 |
| Navigation.PrevIndex | src/App.js:29 | the cursor after Previous stays in `0..n-1`; it is one back, and from card 0 it wraps to `n-1` |
| Navigation.PrevAfterNext | src/App.js:22-30 | Previous after Next restores the cursor |
| Navigation.NextAfterPrev | src/App.js:22-30 | Next after Previous restores the cursor |
| Navigation.Forward | src/App.js:24 | the cursor after any number of Next presses stays in `0..n-1` |
| Navigation.Backward | src/App.js:29 | the cursor after any number of Previous presses stays in `0..n-1` |
| Navigation.ForwardIsModular | src/App.js:24 | `k` Next presses from card `i` land on card `(i + k) mod n` |
| Navigation.BackwardIsModular | src/App.js:29 | `k` Previous presses from card `i` land on card `(i - k) mod n` |
| Navigation.FullLapForward | src/App.js:24 | `n` Next presses on `n` cards return to the starting card |
| Navigation.FullLapBackward | src/App.js:29 | `n` Previous presses on `n` cards return to the starting card |
| Navigation.ForwardReachesEvery | src/App.js:24 | from any card, Next reaches every card of the list; navigation is not clamped |
| Flashcards.Session.constructor | src/App.js:7-10 | the initial state: no words, group 1, cursor 0, face up |
| Flashcards.Session.SelectGroup | src/App.js:47 | a group click sets the group and triggers a reload exactly when the group changed; words, cursor and flip state are untouched |
| Flashcards.Session.LoadGroup | src/App.js:15-18 | the words become the selected group's records, the cursor becomes 0, the group and flip state are unchanged, and the cursor invariant holds |
| Flashcards.Session.Next | src/App.js:22-25 | with at least one word: the cursor becomes `NextIndex` of the old cursor, the card is face up, words and group are unchanged, the cursor invariant holds |
| Flashcards.Session.Prev | src/App.js:27-30 | with at least one word: the cursor becomes `PrevIndex` of the old cursor, the card is face up, words and group are unchanged, the cursor invariant holds |
| Flashcards.Session.Flip | src/App.js:32 | the flip flag is negated; words, group and cursor are unchanged |
| Flashcards.Session.Render | src/App.js:34-81 | the placeholder is shown exactly when there are no words; otherwise the card under the cursor with its side, and a counter `index + 1` in `1..|words|` of `|words|` |
| Flashcards.NextThenPrev | src/App.js:22-30 | Next then Previous leaves the cursor, words and group as they were and the card face up |
| Flashcards.PrevThenNext | src/App.js:22-30 | Previous then Next leaves the cursor, words and group as they were and the card face up |
| Flashcards.FlipTwice | src/App.js:32 | two flips restore the flip flag and change nothing else |
| Flashcards.ChooseGroup | src/App.js:15-20 | after a group click and the load it triggers, the words are exactly the new group's records; the cursor is 0 if the group changed and unchanged if the group was already selected; the flip state is kept |

## Left out

- Fetching `/vocab-data.json` and parsing its JSON (src/App.js:13-15) is network I/O. The parsed
  dataset is a parameter of `Session.LoadGroup`. A payload that is not an array is not modelled.
- The load effect runs asynchronously and is never cancelled (src/App.js:12-20). A slow response
  for an earlier group could overwrite a newer one. The model runs each load to completion in
  order, so this race is not captured.
- The handlers read the values of the last render. The model applies each handler to the
  current state at once, which is the same for one event at a time.
- Flashcards.Session.LoadGroup: sets `words` and `index` in one step. That matches React 18, which batches
  the two setters of the load callback (src/App.js:17-18) even inside a promise callback. Under
  unbatched updates (a React 17 legacy root) `setWords` re-renders first with the old cursor; when
  the new group is non-empty and shorter than that cursor, that intermediate state breaks
  `Valid()` and `word.word` (src/App.js:62) throws. The React version is not part of this model.
- Flashcards.Session.Render: assumes every record has a first definition with a `synonyms` array. The source
  reads `word.definitions[0].synonyms.join` (src/App.js:68-70) unguarded and throws a TypeError
  otherwise; the model never fails to render a non-empty state.
- Rendering is view code and is reduced to `Session.Render`. Left out: the animation, the styling,
  the highlighted group button, the fixed group buttons 1 to 5 (any integer group is accepted),
  and the HTML built from the first definition's text, sentence and synonyms (src/App.js:66-72).
  For the same reason `Entry` keeps only `group` and `word`, not the definitions.
- Group equality is JavaScript's strict `===` on numbers. A record whose `group` is a string in the
  JSON never matches. The model types `group` as an integer, so that case does not arise.
- `src/App.jsx` is a markup fragment without logic of its own. Its reveal toggle repeats
  `Session.Flip`. `src/Ad.jsx` only inserts a script tag into the page. Neither is modelled.
