# Memory game engine

A model of the card-matching game in `src/components/Game.tsx`. The game
deals a shuffled deck of face-down cards, shows every card face up for a
preview, then lets the player turn cards over two at a time. A matching pair
stays matched. A mismatched second card flips back after a delay. The game
finishes, and its total time is fixed, when every card is matched. A restart
button deals a fresh deck over the same symbols.

The model has five modules:

- `Types`: cards (`id`, `symbol`, face up or face down, `matched`) and the
  Option and Result wrappers.
- `Deck`: `initCards`. `Deck.InitCards` and `Deck.ShuffleSymbols` are
  imperative, like the source's loop:
  - the loop pops the last symbol, pushes the drawn one and writes the
    popped tail at the drawn index;
  - the `reduce` then builds the cards.
  They are proved equal to the specification functions `Deck.Shuffled` and
  `Deck.NewCards`. The properties are proved about those functions: the
  result is a permutation of the symbols, ids are positions, and every card
  starts face down and unmatched.
- `Reducer`: `gameReducer`.
  - `Reducer.Reduce` is the specification function, one case per action
    type, including `isGameFinished` and `gameFinishedEffect`.
    `Reducer.GameReducer` follows the source's steps: field updates, the
    `forEach` loops as a `while` loop and the shuffle through
    `Deck.InitCards`. It is proved equal to `Reduce`.
  - `findIndex` returning -1 makes the source index `cardsState[-1]` and
    throw. The model returns `Err(CardNotFound(id))` in that case.
- `Clicks`: `onClickCard` and `checkMatched`.
  - React runs reducers during the next render, so both functions read only
    the rendered state. `Clicks.OnClickCard` is therefore a pure choice of
    the actions to dispatch, plus the card a mismatch timer captured.
  - `Clicks.Run` applies dispatched actions in order and stops at the first
    error.
- `Session`: the component driven by events:
  - a click on a rendered card;
  - a mismatch timer firing with the card it captured;
  - the preview timer firing;
  - the restart button.

  It has an invariant `Session.Inv`. For a non-empty symbol list, it holds
  after mounting and is kept by every event. So no event sequence makes
  the reducer throw. The invariant also gives these facts:
  - the pending card is always an unmatched card of the deck;
  - a game with every card matched is stopped, has a finish time and the
    total time measured up to it;
  - conversely, a finish time is set only when every card is matched.

Inputs from outside the program are parameters:

- `Math.random()` becomes a sequence of draws, each already scaled to an
  index below the deck size.
- `new Date().getTime()` becomes the `now` argument of each event.
- Timers are explicit. The session records whether the preview timer is
  pending and which mismatch timers have not fired.

Behaviours of `Game.tsx` that the model keeps:

- `initCards` does not check the symbol list. Any list, of any length and
  with any multiplicities, is dealt.
- After a mismatch the first card stays pending and face up. Only the
  second card flips back, 500 ms later.
- A mismatch timer acts on the card id it captured, with no check that the
  game is still the one it was scheduled in. It still fires after a
  restart and turns down whichever card now has that id.
- Clicking a matched card still dispatches the flip-up. `flipCardUp` runs
  before `checkMatched` looks at `matched`.
- `state.startedTime ? … : 0` is a truthiness test. A start time of 0
  therefore gives a total time of 0 (`Reducer.TotalTime`).

## Model

| member | source | states |
|---|---|---|
| Deck.SwapWithTailExchanges | src/components/Game.tsx:47-51 | One loop step swaps the element at the drawn index with the last one; all other positions are unchanged. |
| Deck.SwapWithTailKeepsSymbols | src/components/Game.tsx:47-51 | One loop step keeps the multiset of symbols. |
| Deck.ShuffledIsPermutation | src/components/Game.tsx:44-52 | After all the steps the array is a permutation of the input symbols. Proved by induction over the draws. |
| Deck.ShuffleSymbols | src/components/Game.tsx:44-52 | The in-place pop/push/assign loop, run once per element, computes `Shuffled(symbols, draws)`. |
| Deck.NewCards | src/components/Game.tsx:54-62 | Card i has id i and the i-th symbol, and is face down and unmatched; the output has the input's length. |
| Deck.SymbolsOfNewCards | src/components/Game.tsx:54-62 | Reading the symbols back from the built cards gives the symbol list. |
| Deck.InitCards | src/components/Game.tsx:43-65 | `initCards` returns a fresh deck: one card per symbol, ids are positions, all face down and unmatched, and the symbols are a permutation of the input. |
| Deck.NewDeckShape | src/components/Game.tsx:43-65 | The specification of `initCards` has the same length, fresh-deck shape and symbol multiset. |
| Reducer.FindIndex | src/components/Game.tsx:81 | `findIndex` gives the first position with the id, or -1 exactly when no card has that id. |
| Reducer.IsGameFinished | src/components/Game.tsx:132-136 | The `&&`-fold over `matched` is true exactly when every card is matched (true on an empty deck). |
| Reducer.AllStatus | src/components/Game.tsx:101-109 | Every card gets the given status and keeps its id, symbol and matched flag. |
| Reducer.SetEveryStatus | src/components/Game.tsx:102 | The `forEach` loop computes `AllStatus`. |
| Reducer.GameReducer | src/components/Game.tsx:77-144 | The step-by-step reducer returns exactly what the specification function `Reduce` returns, for every action. |
| Reducer.SetStatusTouchesOnlyNamedCard | src/components/Game.tsx:79-84 | Ids distinct. No payload: the state is returned unchanged. Otherwise the result is Ok exactly when some card has the payload's id. That card takes the payload's status; every other card and field is unchanged. |
| Reducer.SetStatusAt | src/components/Game.tsx:79-84 | A payload whose id is at position `pos` sets exactly that position's status. |
| Reducer.SetMatchedFinishesWhenAllMatched | src/components/Game.tsx:87-93 | Ok exactly when the id is present. Only that card's matched flag changes. When every card is then matched, `gameFinishedEffect` applies (lines 138-143): pending cleared, stopped, finish time `now`, total time measured. Otherwise nothing else changes. |
| Reducer.SetMatchedAt | src/components/Game.tsx:87-93 | A payload whose id is at position `pos` sets that position's matched flag, followed by the completion check. |
| Reducer.ShuffleKeepsSymbols | src/components/Game.tsx:95-99 | `shuffle` replaces the cards with a fresh deck over the same multiset of symbols; no other field changes. |
| Reducer.SetAllStatusKeepsCards | src/components/Game.tsx:101-109 | `setAllFaceUp` and `setAllFacedown` turn every card and change nothing else. |
| Reducer.SetGameStartedSetsClock | src/components/Game.tsx:111-118 | `setGameStarted(true)` starts the clock at `now` and clears the finish time. `false` only clears the flag. |
| Reducer.ResetKeepsCards | src/components/Game.tsx:120-122 | `resetGame` restores every field of `initState` except the cards, which are kept. |
| Reducer.PairingAndInertActions | src/components/Game.tsx:124-129 | `setCurrentPairingCard` replaces only the pending card. `restart` and `setGameFinished` return the state unchanged. |
| Clicks.ClickIgnoredBeforeStart | src/components/Game.tsx:161-165 | Before the game starts a click dispatches nothing and schedules no timer. |
| Clicks.ClickOnMatchedCard | src/components/Game.tsx:161-168 | A click on a matched card turns it face up and changes nothing else. If it was already face up the state is unchanged. |
| Clicks.ClickPendingCardCancels | src/components/Game.tsx:170-175 | Clicking the pending card again clears the pending card and leaves that card face down. |
| Clicks.FirstPickBecomesPending | src/components/Game.tsx:177-181 | With nothing pending, the clicked unmatched card becomes pending and is face up. No timer is scheduled. |
| Clicks.MatchDispatches | src/components/Game.tsx:184-189 | A second pick with the pending card's symbol dispatches, in order: flip-up, both `setMatched`, clear pending. |
| Clicks.SecondPickMatches | src/components/Game.tsx:184-189 | After those dispatches both cards are matched and the clicked one is face up; every other card is unchanged and nothing is pending. The game finishes at `now` when this was the last pair; otherwise the clock is unchanged. |
| Clicks.SecondPickMismatchSchedulesFlipBack | src/components/Game.tsx:190-195 | A second pick with another symbol turns only that card face up. The pending card stays. A timer is scheduled that captured the clicked card. |
| Clicks.MismatchTimeoutFlipsCapturedCard | src/components/Game.tsx:192-194 | When the timer fires, the card with the captured id turns face down and nothing else changes. |
| Session.PreviewEndStartsGame | src/components/Game.tsx:237-244 | The preview timer's dispatches turn every card face down, clear the pending card and start the clock at `now`. |
| Session.RestartDeals | src/components/Game.tsx:199-203 | `restartGame`'s reset, shuffle and `startGame` flip-up give `initState` with a fresh deck over the current symbols, face up. |
| Session.MountEstablishesInv | src/components/Game.tsx:147-149 | For a non-empty symbol list, mounting plus the first `startGame` shows a fresh deck face up, stopped, over the same symbols, and the invariant holds. |
| Session.ClickMatchedKeepsInv | src/components/Game.tsx:161-168 | The invariant survives a click on a matched card. |
| Session.ClickPendingKeepsInv | src/components/Game.tsx:170-175 | The invariant survives cancelling the pending card. |
| Session.ClickFirstKeepsInv | src/components/Game.tsx:177-181 | The invariant survives a first pick. |
| Session.ClickMatchKeepsInv | src/components/Game.tsx:184-189 | The invariant survives a matching pair, including the finishing one. |
| Session.ClickMismatchKeepsInv | src/components/Game.tsx:190-195 | The invariant survives a mismatch and the timer it schedules. |
| Session.ClickKeepsInv | src/components/Game.tsx:161-197 | Every click on a rendered card succeeds and keeps the invariant. |
| Session.TimerKeepsInv | src/components/Game.tsx:192-194 | Every mismatch timer firing succeeds, even one from before a restart, and keeps the invariant. |
| Session.PreviewKeepsInv | src/components/Game.tsx:237-244 | The preview timer firing succeeds and keeps the invariant. |
| Session.RestartKeepsInv | src/components/Game.tsx:199-203 | A restart from any state succeeds and keeps the invariant. |
| Session.HandleKeepsInv | src/components/Game.tsx:79-93 | No event makes `findIndex` miss, so the reducer never throws. The invariant is kept: pending card live, finished ⇒ stopped with finish and total time, finish time set ⇒ finished, score 0, timer ids in range. |
| Session.FinishedIsFrozen | src/components/Game.tsx:138-143 | Once every card is matched, no event except a restart changes the start time, the finish time or the total time. The game stays stopped and finished. |
| Session.RestartResets | src/components/Game.tsx:199-203 | A restart deals a fresh deck (ids are positions, nothing matched, all face up) over the same multiset of symbols. It clears the clock, total time, score and pending card and re-arms the preview; mismatch timers are kept. |
| Session.PreviewStartsGame | src/components/Game.tsx:233-251 | After the preview the cards keep their ids, symbols and matched flags and lie face down. The game is started at `now` with no finish time and nothing pending. |

## Left out

- React wiring: `useReducer`, the effects, refs, JSX and styling. React's
  render order is captured only by reading clicks against the rendered
  state.
- The `requestAnimationFrame` loop and the displayed elapsed time
  (`updateTimeCount`, `timeCount`, the `escaped`/`total` labels).
  - `timeCount` is display-only.
  - `totalTime` is modelled.
- Real timers and their delays: `memoryTime` and the fixed 500 ms. The
  model fixes only which events can fire. Any interleaving of clicks and
  pending timers is allowed.
- The restart button's `disabled` state is not modelled. Restart is
  allowed in every state. This over-approximates the source, and the
  invariant still holds.
- `Card.tsx` is not modelled. Clicks may land on any rendered card.
- Uniformity of the shuffle is not modelled. Draws are arbitrary indices
  below the deck size, and only permutation is proved.
- `Math.random` and `Date` are left out; they become parameters.
- React StrictMode double invocation of reducers is left out.
- Aliasing is left out:
  - the source mutates the card objects of the previous state in place
    before spreading;
  - the pending card is the card object itself.
  The model treats states and cards as values. Only the pending card's id
  and symbol are ever read: `setMatched` uses its payload's id and `matched`
  only.
- `score` is declared but never updated by the source. The model keeps
  it, and the invariant records that it stays 0.
- `Session.Mount` passes `now` to `setAllFaceUp`, which ignores it.
- ICardState allows a string id. The model uses integer ids, which are
  the only ones `initCards` produces.
- Empty symbol lists are not covered by the session invariant. There,
  `initCards` returns no cards, `Game.tsx:261-262` renders nothing, and
  `IsGameFinished` holds vacuously while no finish time is set. `src/App.tsx:5`
  always passes a non-empty list.
