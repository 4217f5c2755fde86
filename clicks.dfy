/**
  The pairing state machine of `onClickCard` / `checkMatched`. A click reads
  the state as it was rendered and only chooses which actions to dispatch;
  the reducer then applies them in order. A mismatch schedules a timer that
  later dispatches one flip-down of the card it captured.
 */
module Clicks {
  import opened Types
  import opened Reducer

  /** What one click does: the actions it dispatches, in order, and the card a mismatch timer captured, if one was scheduled. */
  datatype Reaction = Reaction(dispatches: seq<Action>, mismatchTimer: Option<Card>)

  /** None of the actions reshuffles the deck. */
  predicate NoShuffle(acts: seq<Action>)
  {
    forall i :: 0 <= i < |acts| ==> !acts[i].Shuffle?
  }

  /** `checkMatched`: the three rules, tested in the source's order against the rendered state `g`. */
  function CheckMatched(g: GameState, card: Card): (r: Reaction)
    ensures NoShuffle(r.dispatches)
  {
    if card.matched then Reaction([], None)
    // 1. clicking the pending card again cancels it
    else if g.currentPairingCard.Some? && card.id == g.currentPairingCard.value.id then
      Reaction([SetCurrentPairingCard(None), SetStatus(Some(card.(status := FaceDown)))], None)
    else
      // 2. with no pending card, the clicked card becomes pending
      var first :=
        if g.currentPairingCard.None? && !card.matched
        then [SetCurrentPairingCard(Some(card)), SetStatus(Some(card.(status := FaceUp)))]
        else [];
      // 3. with a pending card, compare symbols
      if g.currentPairingCard.Some? && !card.matched then
        var pairing := g.currentPairingCard.value;
        if pairing.symbol == card.symbol then
          Reaction(first + [SetMatched(Some(card.(matched := true))),
                            SetMatched(Some(pairing.(matched := true))),
                            SetCurrentPairingCard(None)], None)
        else
          Reaction(first, Some(card))
      else
        Reaction(first, None)
  }

  /** `onClickCard`: ignored before the game starts; otherwise flip the card up, then `checkMatched`. */
  function OnClickCard(g: GameState, card: Card): (r: Reaction)
    ensures NoShuffle(r.dispatches)
  {
    if !g.started then Reaction([], None)
    else
      var checked := CheckMatched(g, card);
      Reaction([SetStatus(Some(card.(status := FaceUp)))] + checked.dispatches, checked.mismatchTimer)
  }

  /** What the mismatch timer dispatches when it fires: the captured card, face down. */
  function MismatchTimeout(card: Card): (r: seq<Action>)
  {
    [SetStatus(Some(card.(status := FaceDown)))]
  }

  /** Dispatching actions in order; the first one that throws stops the rest. */
  function Run(s: GameState, acts: seq<Action>, now: int): (r: Result<GameState, ReducerError>)
    requires forall i :: 0 <= i < |acts| ==> Fits(acts[i], |s.cardsState|)
    ensures r.Ok? ==> |r.value.cardsState| == |s.cardsState|
    decreases |acts|
  {
    if acts == [] then Ok(s)
    else
      match Reduce(s, acts[0], now)
      case Err(e) => Err(e)
      case Ok(t) => Run(t, acts[1..], now)
  }

  /** Running a list whose head succeeds is running the rest from the head's result. */
  lemma RunStep(s: GameState, a: Action, rest: seq<Action>, now: int, t: GameState)
    requires Fits(a, |s.cardsState|) && forall i :: 0 <= i < |rest| ==> Fits(rest[i], |s.cardsState|)
    requires Reduce(s, a, now) == Ok(t)
    ensures Run(s, [a] + rest, now) == Run(t, rest, now)
  {
    assert ([a] + rest)[1..] == rest;
  }

  /** Before the game starts a click dispatches nothing and schedules nothing. */
  lemma ClickIgnoredBeforeStart(g: GameState, card: Card)
    requires !g.started
    ensures OnClickCard(g, card) == Reaction([], None)
  {
  }

  /**
    Clicking a matched card only dispatches the source's unconditional
    flip-up: that card ends face up and nothing else changes. A matched card
    that already lies face up leaves the state exactly as it was.
   */
  lemma ClickOnMatchedCard(g: GameState, pos: nat, now: int)
    requires DistinctIds(g.cardsState) && pos < |g.cardsState|
    requires g.started && g.cardsState[pos].matched
    ensures var card := g.cardsState[pos];
      var r := OnClickCard(g, card);
      r.mismatchTimer.None? &&
      Run(g, r.dispatches, now) == Ok(g.(cardsState := g.cardsState[pos := card.(status := FaceUp)]))
    ensures g.cardsState[pos].status == FaceUp ==>
      Run(g, OnClickCard(g, g.cardsState[pos]).dispatches, now) == Ok(g)
  {
    var card := g.cardsState[pos];
    SetStatusAt(g, pos, card.(status := FaceUp), now);
    RunStep(g, SetStatus(Some(card.(status := FaceUp))), [], now, g.(cardsState := g.cardsState[pos := card.(status := FaceUp)]));
    assert card.status == FaceUp ==> g.cardsState[pos := card.(status := FaceUp)] == g.cardsState;
  }

  /** Clicking the pending card again clears the pending card and turns that card face down. */
  lemma ClickPendingCardCancels(g: GameState, pos: nat, now: int)
    requires DistinctIds(g.cardsState) && pos < |g.cardsState|
    requires g.started && !g.cardsState[pos].matched
    requires g.currentPairingCard.Some? && g.currentPairingCard.value.id == g.cardsState[pos].id
    ensures var card := g.cardsState[pos];
      var r := OnClickCard(g, card);
      r.mismatchTimer.None? &&
      Run(g, r.dispatches, now) ==
        Ok(g.(cardsState := g.cardsState[pos := card.(status := FaceDown)], currentPairingCard := None))
  {
    var card := g.cardsState[pos];
    var up := SetStatus(Some(card.(status := FaceUp)));
    var clear := SetCurrentPairingCard(None);
    var down := SetStatus(Some(card.(status := FaceDown)));
    SetStatusAt(g, pos, card.(status := FaceUp), now);
    var g1 := g.(cardsState := g.cardsState[pos := card.(status := FaceUp)]);
    RunStep(g, up, [clear, down], now, g1);
    PairingAndInertActions(g1, None, now);
    var g2 := g1.(currentPairingCard := None);
    RunStep(g1, clear, [down], now, g2);
    SetStatusAt(g2, pos, card.(status := FaceDown), now);
    var g3 := g2.(cardsState := g2.cardsState[pos := card.(status := FaceDown)]);
    RunStep(g2, down, [], now, g3);
    assert g2.cardsState[pos := card.(status := FaceDown)] == g.cardsState[pos := card.(status := FaceDown)];
  }

  /** With no pending card, the clicked card turns face up and becomes the pending card. */
  lemma FirstPickBecomesPending(g: GameState, pos: nat, now: int)
    requires DistinctIds(g.cardsState) && pos < |g.cardsState|
    requires g.started && !g.cardsState[pos].matched && g.currentPairingCard.None?
    ensures var card := g.cardsState[pos];
      var r := OnClickCard(g, card);
      r.mismatchTimer.None? &&
      Run(g, r.dispatches, now) ==
        Ok(g.(cardsState := g.cardsState[pos := card.(status := FaceUp)], currentPairingCard := Some(card)))
  {
    var card := g.cardsState[pos];
    var up := SetStatus(Some(card.(status := FaceUp)));
    var pick := SetCurrentPairingCard(Some(card));
    SetStatusAt(g, pos, card.(status := FaceUp), now);
    var g1 := g.(cardsState := g.cardsState[pos := card.(status := FaceUp)]);
    RunStep(g, up, [pick, up], now, g1);
    PairingAndInertActions(g1, Some(card), now);
    var g2 := g1.(currentPairingCard := Some(card));
    RunStep(g1, pick, [up], now, g2);
    SetStatusAt(g2, pos, card.(status := FaceUp), now);
    var g3 := g2.(cardsState := g2.cardsState[pos := card.(status := FaceUp)]);
    RunStep(g2, up, [], now, g3);
    assert g2.cardsState[pos := card.(status := FaceUp)] == g.cardsState[pos := card.(status := FaceUp)];
  }

  /** Two completion checks in a row, the second after one more card was matched, leave the timing as the last check finds it. */
  lemma CheckFinishedTwice(g: GameState, c2: seq<Card>, c3: seq<Card>, now: int)
    requires IsGameFinished(c2) ==> IsGameFinished(c3)
    ensures var g3 := CheckFinished(CheckFinished(g.(cardsState := c2), now).(cardsState := c3), now);
      g3.cardsState == c3 && g3.startedTime == g.startedTime && g3.score == g.score &&
      if IsGameFinished(c3) then
        !g3.started && g3.finishedTime == Some(now) && g3.totalTime == TotalTime(g.startedTime, now) &&
        g3.currentPairingCard.None?
      else
        g3 == g.(cardsState := c3)
  {
  }

  /** The actions a matching second pick dispatches. */
  lemma MatchDispatches(g: GameState, card: Card)
    requires g.started && !card.matched
    requires g.currentPairingCard.Some? && g.currentPairingCard.value.id != card.id
    requires g.currentPairingCard.value.symbol == card.symbol
    ensures OnClickCard(g, card) ==
      Reaction([SetStatus(Some(card.(status := FaceUp))),
                SetMatched(Some(card.(matched := true))),
                SetMatched(Some(g.currentPairingCard.value.(matched := true))),
                SetCurrentPairingCard(None)], None)
  {
  }

  /** The cards after a matching second pick at `pos` against the pending card at `q`. */
  function PairMatched(cards: seq<Card>, pos: nat, q: nat): (r: seq<Card>)
    requires pos < |cards| && q < |cards|
  {
    var c2 := cards[pos := cards[pos].(status := FaceUp, matched := true)];
    c2[q := c2[q].(matched := true)]
  }

  /** `PairMatched` marks exactly the two positions matched and turns the clicked one face up. */
  lemma PairMatchedShape(cards: seq<Card>, pos: nat, q: nat)
    requires pos < |cards| && q < |cards| && pos != q
    ensures var c := PairMatched(cards, pos, q);
      |c| == |cards| &&
      c[pos] == cards[pos].(status := FaceUp, matched := true) &&
      c[q] == cards[q].(matched := true) &&
      forall j :: 0 <= j < |cards| && j != pos && j != q ==> c[j] == cards[j]
  {
  }

  /** Dispatching the actions of a matching second pick, one reducer step at a time. */
  lemma MatchRun(g: GameState, pos: nat, q: nat, now: int)
    requires DistinctIds(g.cardsState) && pos < |g.cardsState| && q < |g.cardsState| && pos != q
    requires g.currentPairingCard.Some? && g.currentPairingCard.value.id == g.cardsState[q].id
    ensures var card := g.cardsState[pos];
      var acts := [SetStatus(Some(card.(status := FaceUp))),
                   SetMatched(Some(card.(matched := true))),
                   SetMatched(Some(g.currentPairingCard.value.(matched := true))),
                   SetCurrentPairingCard(None)];
      var c2 := g.cardsState[pos := card.(status := FaceUp, matched := true)];
      Run(g, acts, now) ==
        Ok(CheckFinished(CheckFinished(g.(cardsState := c2), now).(cardsState := PairMatched(g.cardsState, pos, q)), now)
             .(currentPairingCard := None))
  {
    var card := g.cardsState[pos];
    var pairing := g.currentPairingCard.value;
    var rest := [SetMatched(Some(pairing.(matched := true))), SetCurrentPairingCard(None)];
    var c2 := g.cardsState[pos := card.(status := FaceUp, matched := true)];
    FlipUpThenMatch(g, pos, rest, now);
    var g2 := CheckFinished(g.(cardsState := c2), now);
    assert g2.cardsState == c2;
    MatchPendingThenClear(g2, q, pairing, now);
    assert c2[q := c2[q].(matched := true)] == PairMatched(g.cardsState, pos, q);
  }

  /** The first two actions of a matching pick: flip the clicked card up, then mark it matched. */
  lemma FlipUpThenMatch(g: GameState, pos: nat, rest: seq<Action>, now: int)
    requires DistinctIds(g.cardsState) && pos < |g.cardsState| && NoShuffle(rest)
    ensures var card := g.cardsState[pos];
      Run(g, [SetStatus(Some(card.(status := FaceUp))), SetMatched(Some(card.(matched := true)))] + rest, now) ==
      Run(CheckFinished(g.(cardsState := g.cardsState[pos := card.(status := FaceUp, matched := true)]), now), rest, now)
  {
    var card := g.cardsState[pos];
    var up := SetStatus(Some(card.(status := FaceUp)));
    var m1 := SetMatched(Some(card.(matched := true)));
    var c1 := g.cardsState[pos := card.(status := FaceUp)];
    SetStatusAt(g, pos, card.(status := FaceUp), now);
    var g1 := g.(cardsState := c1);
    assert [up, m1] + rest == [up] + ([m1] + rest);
    RunStep(g, up, [m1] + rest, now, g1);
    SetMatchedAt(g1, pos, card.(matched := true), now);
    assert c1[pos := c1[pos].(matched := true)] == g.cardsState[pos := card.(status := FaceUp, matched := true)];
    RunStep(g1, m1, rest, now, CheckFinished(g.(cardsState := g.cardsState[pos := card.(status := FaceUp, matched := true)]), now));
  }

  /** The last two actions of a matching pick: mark the pending card's position matched, then clear the pending card. */
  lemma MatchPendingThenClear(g: GameState, q: nat, pairing: Card, now: int)
    requires DistinctIds(g.cardsState) && q < |g.cardsState| && pairing.id == g.cardsState[q].id
    ensures Run(g, [SetMatched(Some(pairing.(matched := true))), SetCurrentPairingCard(None)], now) ==
      Ok(CheckFinished(g.(cardsState := g.cardsState[q := g.cardsState[q].(matched := true)]), now)
           .(currentPairingCard := None))
  {
    SetMatchedAt(g, q, pairing.(matched := true), now);
    var g3 := CheckFinished(g.(cardsState := g.cardsState[q := g.cardsState[q].(matched := true)]), now);
    RunStep(g, SetMatched(Some(pairing.(matched := true))), [SetCurrentPairingCard(None)], now, g3);
    PairingAndInertActions(g3, None, now);
    RunStep(g3, SetCurrentPairingCard(None), [], now, g3.(currentPairingCard := None));
  }

  /**
    A second card whose symbol equals the pending card's: both end matched,
    the clicked one face up, the pending card is cleared and no timer is
    scheduled. If that matched the last cards, the game stops with the finish
    time `now` and the total time measured from the start; otherwise the
    timing fields are left alone.
   */
  lemma SecondPickMatches(g: GameState, pos: nat, q: nat, now: int)
    requires DistinctIds(g.cardsState) && pos < |g.cardsState| && q < |g.cardsState|
    requires g.started && !g.cardsState[pos].matched
    requires g.currentPairingCard.Some? && g.currentPairingCard.value.id == g.cardsState[q].id
    requires g.currentPairingCard.value.id != g.cardsState[pos].id
    requires g.currentPairingCard.value.symbol == g.cardsState[pos].symbol
    ensures var card := g.cardsState[pos];
      var r := OnClickCard(g, card);
      var t := Run(g, r.dispatches, now);
      r.mismatchTimer.None? && t.Ok? &&
      |t.value.cardsState| == |g.cardsState| &&
      t.value.cardsState[pos] == card.(status := FaceUp, matched := true) &&
      t.value.cardsState[q] == g.cardsState[q].(matched := true) &&
      (forall j :: 0 <= j < |g.cardsState| && j != pos && j != q ==> t.value.cardsState[j] == g.cardsState[j]) &&
      t.value.currentPairingCard.None? && t.value.startedTime == g.startedTime && t.value.score == g.score &&
      if IsGameFinished(t.value.cardsState) then
        !t.value.started && t.value.finishedTime == Some(now) && t.value.totalTime == TotalTime(g.startedTime, now)
      else
        t.value.started && t.value.finishedTime == g.finishedTime && t.value.totalTime == g.totalTime
  {
    var card := g.cardsState[pos];
    MatchDispatches(g, card);
    MatchRun(g, pos, q, now);
    var c2 := g.cardsState[pos := card.(status := FaceUp, matched := true)];
    var c3 := PairMatched(g.cardsState, pos, q);
    PairMatchedShape(g.cardsState, pos, q);
    assert IsGameFinished(c2) ==> IsGameFinished(c3);
    CheckFinishedTwice(g, c2, c3, now);
  }

  /**
    A second card with a different symbol: it turns face up, nothing is
    matched, the pending card stays, and a timer is scheduled that captured
    the clicked card.
   */
  lemma SecondPickMismatchSchedulesFlipBack(g: GameState, pos: nat, now: int)
    requires DistinctIds(g.cardsState) && pos < |g.cardsState|
    requires g.started && !g.cardsState[pos].matched
    requires g.currentPairingCard.Some? && g.currentPairingCard.value.id != g.cardsState[pos].id
    requires g.currentPairingCard.value.symbol != g.cardsState[pos].symbol
    ensures var card := g.cardsState[pos];
      var r := OnClickCard(g, card);
      r.mismatchTimer == Some(card) &&
      Run(g, r.dispatches, now) == Ok(g.(cardsState := g.cardsState[pos := card.(status := FaceUp)]))
  {
    var card := g.cardsState[pos];
    SetStatusAt(g, pos, card.(status := FaceUp), now);
    RunStep(g, SetStatus(Some(card.(status := FaceUp))), [], now, g.(cardsState := g.cardsState[pos := card.(status := FaceUp)]));
  }

  /**
    When a mismatch timer fires it turns the card with the captured id face
    down, whatever happened since; every other card and field is unchanged.
   */
  lemma MismatchTimeoutFlipsCapturedCard(g: GameState, card: Card, now: int)
    requires DistinctIds(g.cardsState) && HasCard(g.cardsState, card.id)
    ensures var t := Run(g, MismatchTimeout(card), now);
      t.Ok? && SameExceptCards(g, t.value) && |t.value.cardsState| == |g.cardsState| &&
      forall j :: 0 <= j < |g.cardsState| ==>
        t.value.cardsState[j] ==
          if g.cardsState[j].id == card.id then g.cardsState[j].(status := FaceDown) else g.cardsState[j]
  {
    SetStatusTouchesOnlyNamedCard(g, card.(status := FaceDown), now);
    var t := Reduce(g, SetStatus(Some(card.(status := FaceDown))), now).value;
    RunStep(g, SetStatus(Some(card.(status := FaceDown))), [], now, t);
  }
}
