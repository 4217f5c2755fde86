/**
  The state-transition function `gameReducer`: one action applied to the
  game state. `Reduce` states it as a function of the state, the action and
  the clock reading `now`; `GameReducer` follows the source's in-place steps
  on local copies and is proved to compute the same thing.
 */
module Reducer {
  import opened Types
  import Deck

  /** The state the reducer works on. */
  datatype GameState = GameState(
    cardsState: seq<Card>,
    started: bool,
    startedTime: Option<int>,
    finishedTime: Option<int>,
    totalTime: int,
    currentPairingCard: Option<Card>,
    score: int)

  /** `initState`: no cards, not started, no times, no pending card. */
  const InitState := GameState([], false, None, None, 0, None, 0)

  /**
    The actions. `Shuffle` carries the random draws that the source takes
    from `Math.random` inside the reducer; `Restart` and `SetGameFinished`
    have no case in the reducer.
   */
  datatype Action =
    | SetStatus(statusPayload: Option<Card>)
    | SetMatched(matchedPayload: Option<Card>)
    | Restart
    | ResetGame
    | Shuffle(draws: seq<nat>)
    | SetAllFacedown
    | SetAllFaceUp
    | SetGameStarted(startedPayload: bool)
    | SetCurrentPairingCard(pairingPayload: Option<Card>)
    | SetGameFinished

  /** What makes the reducer throw: a payload id that no card has (`cardsState[-1]` is undefined). */
  datatype ReducerError = CardNotFound(id: int)

  /** The draws of a `Shuffle` fit a deck of `n` cards. */
  predicate Fits(a: Action, n: nat)
  {
    a.Shuffle? ==> Deck.ValidDraws(a.draws, n)
  }

  /** `findIndex`: the first position holding a card with this id, or -1. */
  function FindIndex(cards: seq<Card>, id: int): (k: int)
    ensures -1 <= k < |cards|
    ensures k == -1 <==> forall j :: 0 <= j < |cards| ==> cards[j].id != id
    ensures 0 <= k ==> cards[k].id == id && forall j :: 0 <= j < k ==> cards[j].id != id
  {
    if cards == [] then -1
    else if cards[0].id == id then 0
    else
      var k := FindIndex(cards[1..], id);
      if k < 0 then -1 else k + 1
  }

  /** With distinct ids, the card at position `i` is found at `i`. */
  lemma FindIndexOfDistinct(cards: seq<Card>, i: nat)
    requires DistinctIds(cards) && i < |cards|
    ensures FindIndex(cards, cards[i].id) == i
  {
  }

  /** Each card turned to `status`, with nothing else about it changed (the `forEach`). */
  function AllStatus(cards: seq<Card>, status: CardStatus): (r: seq<Card>)
    ensures |r| == |cards|
    ensures forall i :: 0 <= i < |r| ==>
      r[i].status == status && r[i].id == cards[i].id &&
      r[i].symbol == cards[i].symbol && r[i].matched == cards[i].matched
  {
    if cards == [] then []
    else AllStatus(cards[..|cards| - 1], status) + [cards[|cards| - 1].(status := status)]
  }

  /** `isGameFinished`: the `reduce` of `&&` over every card's matched flag, from `true`. */
  function IsGameFinished(cards: seq<Card>): (finished: bool)
    ensures finished <==> forall i :: 0 <= i < |cards| ==> cards[i].matched
  {
    if cards == [] then true
    else IsGameFinished(cards[..|cards| - 1]) && cards[|cards| - 1].matched
  }

  /**
    The total time `gameFinishedEffect` records: elapsed time since the start,
    or 0 when the start time is falsy (absent, or the number 0).
   */
  function TotalTime(startedTime: Option<int>, finishedTime: int): (r: int)
  {
    if startedTime.Some? && startedTime.value != 0 then finishedTime - startedTime.value else 0
  }

  /** `gameFinishedEffect`: record the finish time and total time, clear the pending card, stop. */
  function FinishedEffect(s: GameState, now: int): (r: GameState)
  {
    s.(finishedTime := Some(now),
       currentPairingCard := None,
       totalTime := TotalTime(s.startedTime, now),
       started := false)
  }

  /** The reducer as a function: the next state, or the error the source throws. */
  function Reduce(s: GameState, a: Action, now: int): (r: Result<GameState, ReducerError>)
    requires Fits(a, |s.cardsState|)
    ensures r.Ok? ==> |r.value.cardsState| == |s.cardsState|
  {
    match a
    case SetStatus(p) =>
      if p.None? then Ok(s)
      else
        var index := FindIndex(s.cardsState, p.value.id);
        if index < 0 then Err(CardNotFound(p.value.id))
        else Ok(s.(cardsState := s.cardsState[index := s.cardsState[index].(status := p.value.status)]))
    case SetMatched(p) =>
      if p.None? then Ok(s)
      else
        var index := FindIndex(s.cardsState, p.value.id);
        if index < 0 then Err(CardNotFound(p.value.id))
        else
          var t := s.(cardsState := s.cardsState[index := s.cardsState[index].(matched := p.value.matched)]);
          Ok(if IsGameFinished(t.cardsState) then FinishedEffect(t, now) else t)
    case Shuffle(draws) =>
      Ok(s.(cardsState := Deck.NewCards(Deck.Shuffled(Symbols(s.cardsState), draws))))
    case SetAllFacedown => Ok(s.(cardsState := AllStatus(s.cardsState, FaceDown)))
    case SetAllFaceUp => Ok(s.(cardsState := AllStatus(s.cardsState, FaceUp)))
    case SetGameStarted(flag) =>
      Ok(if flag then s.(started := true, startedTime := Some(now), finishedTime := None)
         else s.(started := false))
    case ResetGame => Ok(InitState.(cardsState := s.cardsState))
    case SetCurrentPairingCard(c) => Ok(s.(currentPairingCard := c))
    case Restart => Ok(s)
    case SetGameFinished => Ok(s)
  }

  /** The `forEach` that sets every card's status, one card at a time. */
  method SetEveryStatus(cards: seq<Card>, status: CardStatus) returns (r: seq<Card>)
    ensures r == AllStatus(cards, status)
  {
    r := cards;
    var i := 0;
    while i < |r|
      invariant 0 <= i <= |r| == |cards|
      invariant forall j :: 0 <= j < i ==> r[j] == cards[j].(status := status)
      invariant forall j :: i <= j < |r| ==> r[j] == cards[j]
    {
      r := r[i := r[i].(status := status)];
      i := i + 1;
    }
    forall j | 0 <= j < |r| ensures r[j] == AllStatus(cards, status)[j] {
    }
  }

  /**
    `gameReducer`, step by step as the source does it: look the card up,
    assign its field, run the completion check and its effect, or rebuild
    the cards. Its result is exactly `Reduce`.
   */
  method GameReducer(state: GameState, action: Action, now: int) returns (r: Result<GameState, ReducerError>)
    requires Fits(action, |state.cardsState|)
    ensures r == Reduce(state, action, now)
  {
    var st := state;
    match action {
      case SetStatus(p) =>
        if p.None? {
          return Ok(state);
        }
        var index := FindIndex(st.cardsState, p.value.id);
        if index < 0 {
          return Err(CardNotFound(p.value.id));
        }
        st := st.(cardsState := st.cardsState[index := st.cardsState[index].(status := p.value.status)]);
        return Ok(st);
      case SetMatched(p) =>
        if p.None? {
          return Ok(state);
        }
        var index := FindIndex(st.cardsState, p.value.id);
        if index < 0 {
          return Err(CardNotFound(p.value.id));
        }
        st := st.(cardsState := st.cardsState[index := st.cardsState[index].(matched := p.value.matched)]);
        var isFinish := IsGameFinished(st.cardsState);
        if isFinish {
          st := st.(finishedTime := Some(now));
          st := st.(currentPairingCard := None);
          st := st.(totalTime := if st.startedTime.Some? && st.startedTime.value != 0 then now - st.startedTime.value else 0);
          st := st.(started := false);
        }
        return Ok(st);
      case Shuffle(draws) =>
        var cardsState := Deck.InitCards(Symbols(st.cardsState), draws);
        return Ok(st.(cardsState := cardsState));
      case SetAllFacedown =>
        var cards := SetEveryStatus(st.cardsState, FaceDown);
        return Ok(st.(cardsState := cards));
      case SetAllFaceUp =>
        var cards := SetEveryStatus(st.cardsState, FaceUp);
        return Ok(st.(cardsState := cards));
      case SetGameStarted(flag) =>
        st := st.(started := flag);
        if st.started {
          st := st.(startedTime := Some(now));
          st := st.(finishedTime := None);
        }
        return Ok(st);
      case ResetGame =>
        return Ok(InitState.(cardsState := st.cardsState));
      case SetCurrentPairingCard(c) =>
        st := st.(currentPairingCard := c);
        return Ok(st);
      case Restart =>
        return Ok(state);
      case SetGameFinished =>
        return Ok(state);
    }
  }

  // Properties of the reducer, action by action.

  /** Some card carries this id. */
  predicate HasCard(cards: seq<Card>, id: int)
  {
    exists j :: 0 <= j < |cards| && cards[j].id == id
  }

  /** Every field other than the cards is the same in both states. */
  predicate SameExceptCards(s: GameState, t: GameState)
  {
    t.(cardsState := s.cardsState) == s
  }

  /**
    `setStatus`: without a payload the state is unchanged; it succeeds exactly
    when some card has the payload's id, and then that card, and only that
    card, takes the payload's status.
   */
  lemma SetStatusTouchesOnlyNamedCard(s: GameState, p: Card, now: int)
    requires DistinctIds(s.cardsState)
    ensures Reduce(s, SetStatus(None), now) == Ok(s)
    ensures Reduce(s, SetStatus(Some(p)), now).Ok? <==> HasCard(s.cardsState, p.id)
    ensures HasCard(s.cardsState, p.id) ==>
      var t := Reduce(s, SetStatus(Some(p)), now).value;
      SameExceptCards(s, t) && |t.cardsState| == |s.cardsState| &&
      forall j :: 0 <= j < |s.cardsState| ==>
        t.cardsState[j] == if s.cardsState[j].id == p.id then s.cardsState[j].(status := p.status) else s.cardsState[j]
  {
    if HasCard(s.cardsState, p.id) {
      var j :| 0 <= j < |s.cardsState| && s.cardsState[j].id == p.id;
      FindIndexOfDistinct(s.cardsState, j);
    }
  }

  /**
    `setMatched`: without a payload the state is unchanged; it succeeds exactly
    when some card has the payload's id, and then only that card's matched
    flag changes. If every card is then matched, the pending card is cleared,
    the game stops, the finish time is `now` and the total time is measured
    from the start; otherwise no other field changes.
   */
  lemma SetMatchedFinishesWhenAllMatched(s: GameState, p: Card, now: int)
    requires DistinctIds(s.cardsState)
    ensures Reduce(s, SetMatched(None), now) == Ok(s)
    ensures Reduce(s, SetMatched(Some(p)), now).Ok? <==> HasCard(s.cardsState, p.id)
    ensures HasCard(s.cardsState, p.id) ==>
      var t := Reduce(s, SetMatched(Some(p)), now).value;
      |t.cardsState| == |s.cardsState| &&
      (forall j :: 0 <= j < |s.cardsState| ==>
        t.cardsState[j] == if s.cardsState[j].id == p.id then s.cardsState[j].(matched := p.matched) else s.cardsState[j]) &&
      t.startedTime == s.startedTime && t.score == s.score &&
      if forall j :: 0 <= j < |t.cardsState| ==> t.cardsState[j].matched then
        t.currentPairingCard == None && !t.started && t.finishedTime == Some(now) &&
        t.totalTime == TotalTime(s.startedTime, now)
      else
        SameExceptCards(s, t)
  {
    if HasCard(s.cardsState, p.id) {
      var j :| 0 <= j < |s.cardsState| && s.cardsState[j].id == p.id;
      SetMatchedAt(s, j, p, now);
      var u := s.cardsState[j := s.cardsState[j].(matched := p.matched)];
      assert forall k :: 0 <= k < |s.cardsState| ==>
        u[k] == if s.cardsState[k].id == p.id then s.cardsState[k].(matched := p.matched) else s.cardsState[k];
    }
  }

  /** `setAllFaceUp` / `setAllFacedown`: every card takes the status; ids, symbols and matched flags stay. */
  lemma SetAllStatusKeepsCards(s: GameState, now: int)
    ensures var up := Reduce(s, SetAllFaceUp, now);
      up.Ok? && SameExceptCards(s, up.value) && |up.value.cardsState| == |s.cardsState| &&
      forall j :: 0 <= j < |s.cardsState| ==> up.value.cardsState[j] == s.cardsState[j].(status := FaceUp)
    ensures var down := Reduce(s, SetAllFacedown, now);
      down.Ok? && SameExceptCards(s, down.value) && |down.value.cardsState| == |s.cardsState| &&
      forall j :: 0 <= j < |s.cardsState| ==> down.value.cardsState[j] == s.cardsState[j].(status := FaceDown)
  {
  }

  /** `shuffle`: a fresh deck over the same multiset of symbols; no other field changes. */
  lemma ShuffleKeepsSymbols(s: GameState, draws: seq<nat>, now: int)
    requires Deck.ValidDraws(draws, |s.cardsState|)
    ensures var r := Reduce(s, Shuffle(draws), now);
      r.Ok? && SameExceptCards(s, r.value) &&
      |r.value.cardsState| == |s.cardsState| && Deck.FreshDeck(r.value.cardsState) &&
      multiset(Symbols(r.value.cardsState)) == multiset(Symbols(s.cardsState))
  {
    Deck.NewDeckShape(Symbols(s.cardsState), draws);
  }

  /** `resetGame`: every field of `initState` is restored except the cards, which are kept. */
  lemma ResetKeepsCards(s: GameState, now: int)
    ensures var r := Reduce(s, ResetGame, now);
      r.Ok? && r.value.cardsState == s.cardsState &&
      !r.value.started && r.value.startedTime.None? && r.value.finishedTime.None? &&
      r.value.totalTime == 0 && r.value.currentPairingCard.None? && r.value.score == 0
  {
  }

  /**
    `setGameStarted`: `true` starts the clock at `now` and clears the finish
    time; `false` only clears the flag. Nothing else changes.
   */
  lemma SetGameStartedSetsClock(s: GameState, flag: bool, now: int)
    ensures var r := Reduce(s, SetGameStarted(flag), now);
      r.Ok? && r.value.started == flag && r.value.cardsState == s.cardsState &&
      r.value.currentPairingCard == s.currentPairingCard &&
      r.value.totalTime == s.totalTime && r.value.score == s.score &&
      if flag then r.value.startedTime == Some(now) && r.value.finishedTime.None?
      else r.value.startedTime == s.startedTime && r.value.finishedTime == s.finishedTime
  {
  }

  /** `setCurrentPairingCard` replaces the pending card and nothing else; `restart` and `setGameFinished` change nothing. */
  lemma PairingAndInertActions(s: GameState, c: Option<Card>, now: int)
    ensures Reduce(s, SetCurrentPairingCard(c), now) == Ok(s.(currentPairingCard := c))
    ensures Reduce(s, Restart, now) == Ok(s) && Reduce(s, SetGameFinished, now) == Ok(s)
  {
  }

  /** The completion check that follows a `setMatched` assignment. */
  function CheckFinished(t: GameState, now: int): (r: GameState)
  {
    if IsGameFinished(t.cardsState) then FinishedEffect(t, now) else t
  }

  /** `setStatus` with a payload whose id is at position `pos` (ids distinct) sets that position's status. */
  lemma SetStatusAt(s: GameState, pos: nat, p: Card, now: int)
    requires DistinctIds(s.cardsState) && pos < |s.cardsState| && p.id == s.cardsState[pos].id
    ensures Reduce(s, SetStatus(Some(p)), now) ==
      Ok(s.(cardsState := s.cardsState[pos := s.cardsState[pos].(status := p.status)]))
  {
    FindIndexOfDistinct(s.cardsState, pos);
  }

  /** `setMatched` with a payload whose id is at position `pos` (ids distinct) sets that flag, then runs the completion check. */
  lemma SetMatchedAt(s: GameState, pos: nat, p: Card, now: int)
    requires DistinctIds(s.cardsState) && pos < |s.cardsState| && p.id == s.cardsState[pos].id
    ensures Reduce(s, SetMatched(Some(p)), now) ==
      Ok(CheckFinished(s.(cardsState := s.cardsState[pos := s.cardsState[pos].(matched := p.matched)]), now))
  {
    FindIndexOfDistinct(s.cardsState, pos);
  }
}
