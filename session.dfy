/**
  The game as driven by its events: a click on a rendered card, a mismatch
  timer firing with the card it captured, the preview timer firing, and the
  restart button. Timers are explicit: the session records whether the
  preview timer is pending and which mismatch timers have not fired yet.
 */
module Session {
  import opened Types
  import opened Reducer
  import opened Clicks
  import Deck

  /** The game state plus the timers `Game` has scheduled and not yet seen fire. */
  datatype Session = Session(game: GameState, previewPending: bool, mismatchTimers: seq<Card>)

  /** The events the engine reacts to. */
  datatype Event =
    | Click(position: nat)
    | MismatchTimerFires(timer: nat)
    | PreviewTimerFires
    | RestartGame(draws: seq<nat>)

  /** What the preview timer dispatches when it fires. */
  const PreviewEndActions: seq<Action> := [SetAllFacedown, SetCurrentPairingCard(None), SetGameStarted(true)]

  /** What `restartGame` dispatches at once: reset, reshuffle, then `startGame`'s flip-up. */
  function RestartActions(draws: seq<nat>): (r: seq<Action>)
  {
    [ResetGame, Shuffle(draws), SetAllFaceUp]
  }

  /**
    Mounting the component: `initState` with a freshly dealt deck, then
    `startGame` flips every card up and schedules the preview timer.
   */
  function Mount(symbols: seq<string>, draws: seq<nat>, now: int): (r: Session)
    requires Deck.ValidDraws(draws, |symbols|)
  {
    var dealt := InitState.(cardsState := Deck.NewCards(Deck.Shuffled(symbols, draws)));
    Session(Reduce(dealt, SetAllFaceUp, now).value, true, [])
  }

  /** An event can happen: clicks land on rendered cards, only scheduled timers fire, draws fit the deck. */
  predicate Enabled(ss: Session, e: Event)
  {
    match e
    case Click(pos) => pos < |ss.game.cardsState|
    case MismatchTimerFires(k) => k < |ss.mismatchTimers|
    case PreviewTimerFires => ss.previewPending
    case RestartGame(draws) => Deck.ValidDraws(draws, |ss.game.cardsState|)
  }

  /** Removes the `k`-th pending mismatch timer. */
  function Without(timers: seq<Card>, k: nat): (r: seq<Card>)
    requires k < |timers|
  {
    timers[..k] + timers[k + 1..]
  }

  /** One event: the dispatches it causes, applied in order, and the timers it schedules, fires or cancels. */
  function Handle(ss: Session, e: Event, now: int): (r: Result<Session, ReducerError>)
    requires Enabled(ss, e)
  {
    match e
    case Click(pos) =>
      var reaction := OnClickCard(ss.game, ss.game.cardsState[pos]);
      var scheduled := if reaction.mismatchTimer.Some? then [reaction.mismatchTimer.value] else [];
      (match Run(ss.game, reaction.dispatches, now)
       case Err(err) => Err(err)
       case Ok(g) => Ok(Session(g, ss.previewPending, ss.mismatchTimers + scheduled)))
    case MismatchTimerFires(k) =>
      (match Run(ss.game, MismatchTimeout(ss.mismatchTimers[k]), now)
       case Err(err) => Err(err)
       case Ok(g) => Ok(Session(g, ss.previewPending, Without(ss.mismatchTimers, k))))
    case PreviewTimerFires =>
      (match Run(ss.game, PreviewEndActions, now)
       case Err(err) => Err(err)
       case Ok(g) => Ok(Session(g, false, ss.mismatchTimers)))
    case RestartGame(draws) =>
      // startGame clears the old preview timer before scheduling the new one
      match Run(ss.game, RestartActions(draws), now)
      case Err(err) => Err(err)
      case Ok(g) => Ok(Session(g, true, ss.mismatchTimers))
  }

  /** No card is matched. */
  predicate NoneMatched(cards: seq<Card>)
  {
    forall i :: 0 <= i < |cards| ==> !cards[i].matched
  }

  /** The pending card, if any, is an unmatched card of this deck (same id and symbol), and the game is running. */
  predicate PendingIsLive(g: GameState)
  {
    g.currentPairingCard.Some? ==>
      var p := g.currentPairingCard.value;
      g.started && 0 <= p.id < |g.cardsState| &&
      g.cardsState[p.id].symbol == p.symbol && !g.cardsState[p.id].matched
  }

  /**
    What holds between events from mounting on, for a non-empty deck: card
    ids are positions; the pending card is live; while the preview runs the
    game is stopped, nothing is pending and nothing is matched; once every
    card is matched the game is stopped, nothing is pending, and it has a
    finish time with the total time measured up to it, and conversely a
    finish time is set only when every card is matched; the score stays at
    its initial 0; every pending mismatch timer holds the id of some card.
   */
  ghost predicate Inv(ss: Session)
  {
    var g := ss.game;
    |g.cardsState| > 0 &&
    IdsArePositions(g.cardsState) &&
    PendingIsLive(g) &&
    (ss.previewPending ==> !g.started && g.currentPairingCard.None? && NoneMatched(g.cardsState)) &&
    (IsGameFinished(g.cardsState) ==>
       !g.started && g.finishedTime.Some? && g.currentPairingCard.None? &&
       g.totalTime == TotalTime(g.startedTime, g.finishedTime.value)) &&
    (g.finishedTime.Some? ==> IsGameFinished(g.cardsState)) &&
    g.score == 0 &&
    forall k :: 0 <= k < |ss.mismatchTimers| ==> 0 <= ss.mismatchTimers[k].id < |g.cardsState|
  }

  /** The two lists hold the same cards up to their status. */
  predicate SameButStatus(c: seq<Card>, d: seq<Card>)
  {
    |c| == |d| &&
    forall i :: 0 <= i < |c| ==>
      d[i].id == c[i].id && d[i].symbol == c[i].symbol && d[i].matched == c[i].matched
  }

  /** Turning cards over, and scheduling timers for cards of the deck, keeps the invariant. */
  lemma InvUnderStatusChange(ss: Session, cards: seq<Card>, timers: seq<Card>)
    requires Inv(ss) && SameButStatus(ss.game.cardsState, cards)
    requires forall k :: 0 <= k < |timers| ==> 0 <= timers[k].id < |cards|
    ensures Inv(Session(ss.game.(cardsState := cards), ss.previewPending, timers))
  {
    var c := ss.game.cardsState;
    assert IsGameFinished(cards) == IsGameFinished(c);
  }

  /**
    The preview timer ends the preview: every card face down, nothing
    pending, the game started with its clock at `now` and no finish time.
   */
  lemma PreviewEndStartsGame(g: GameState, now: int)
    ensures Run(g, PreviewEndActions, now) ==
      Ok(g.(cardsState := AllStatus(g.cardsState, FaceDown), currentPairingCard := None,
            started := true, startedTime := Some(now), finishedTime := None))
  {
    var g1 := g.(cardsState := AllStatus(g.cardsState, FaceDown));
    var g2 := g1.(currentPairingCard := None);
    RunStep(g, SetAllFacedown, [SetCurrentPairingCard(None), SetGameStarted(true)], now, g1);
    RunStep(g1, SetCurrentPairingCard(None), [SetGameStarted(true)], now, g2);
    RunStep(g2, SetGameStarted(true), [], now, g2.(started := true, startedTime := Some(now), finishedTime := None));
  }

  /** Restarting deals a fresh deck from the current symbols, face up, over `initState`. */
  lemma RestartDeals(g: GameState, draws: seq<nat>, now: int)
    requires Deck.ValidDraws(draws, |g.cardsState|)
    ensures Run(g, RestartActions(draws), now) ==
      Ok(InitState.(cardsState := AllStatus(Deck.NewCards(Deck.Shuffled(Symbols(g.cardsState), draws)), FaceUp)))
  {
    var g1 := InitState.(cardsState := g.cardsState);
    var g2 := InitState.(cardsState := Deck.NewCards(Deck.Shuffled(Symbols(g.cardsState), draws)));
    RunStep(g, ResetGame, [Shuffle(draws), SetAllFaceUp], now, g1);
    RunStep(g1, Shuffle(draws), [SetAllFaceUp], now, g2);
    RunStep(g2, SetAllFaceUp, [], now, g2.(cardsState := AllStatus(g2.cardsState, FaceUp)));
  }

  /** A freshly dealt deck, every card turned to `status`: ids are positions, nothing is matched, and it is not finished. */
  lemma DealtDeckShape(symbols: seq<string>, draws: seq<nat>, status: CardStatus)
    requires |symbols| > 0 && Deck.ValidDraws(draws, |symbols|)
    ensures var cards := AllStatus(Deck.NewCards(Deck.Shuffled(symbols, draws)), status);
      |cards| == |symbols| && IdsArePositions(cards) && NoneMatched(cards) && !IsGameFinished(cards) &&
      forall i :: 0 <= i < |cards| ==> cards[i].status == status
  {
    var cards := AllStatus(Deck.NewCards(Deck.Shuffled(symbols, draws)), status);
    Deck.NewDeckShape(symbols, draws);
    assert !cards[0].matched;
  }

  /** Turning the cards of a freshly dealt deck keeps its multiset of symbols. */
  lemma DealtDeckSymbols(symbols: seq<string>, draws: seq<nat>, status: CardStatus)
    requires Deck.ValidDraws(draws, |symbols|)
    ensures multiset(Symbols(AllStatus(Deck.NewCards(Deck.Shuffled(symbols, draws)), status))) == multiset(symbols)
  {
    var dealt := Deck.NewCards(Deck.Shuffled(symbols, draws));
    Deck.NewDeckShape(symbols, draws);
    assert Symbols(AllStatus(dealt, status)) == Symbols(dealt);
  }

  /** Mounting shows every card of a fresh deck face up for the preview, stopped, and the invariant holds. */
  lemma MountEstablishesInv(symbols: seq<string>, draws: seq<nat>, now: int)
    requires |symbols| > 0 && Deck.ValidDraws(draws, |symbols|)
    ensures var ss := Mount(symbols, draws, now);
      Inv(ss) && ss.previewPending && ss.mismatchTimers == [] &&
      !ss.game.started && ss.game.currentPairingCard.None? &&
      (forall i :: 0 <= i < |ss.game.cardsState| ==> ss.game.cardsState[i].status == FaceUp) &&
      multiset(Symbols(ss.game.cardsState)) == multiset(symbols)
  {
    DealtDeckShape(symbols, draws, FaceUp);
    DealtDeckSymbols(symbols, draws, FaceUp);
  }

  /** A click before the preview ends, or after the game finished, changes nothing. */
  lemma ClickWhileStoppedKeepsInv(ss: Session, pos: nat, now: int)
    requires Inv(ss) && pos < |ss.game.cardsState| && !ss.game.started
    ensures Handle(ss, Click(pos), now) == Ok(ss)
  {
    ClickIgnoredBeforeStart(ss.game, ss.game.cardsState[pos]);
    assert ss.mismatchTimers + [] == ss.mismatchTimers;
  }

  /** A click on a matched card during play only turns it face up, and the invariant holds. */
  lemma ClickMatchedKeepsInv(ss: Session, pos: nat, now: int)
    requires Inv(ss) && pos < |ss.game.cardsState| && ss.game.started && ss.game.cardsState[pos].matched
    ensures var r := Handle(ss, Click(pos), now); r.Ok? && Inv(r.value)
  {
    var g := ss.game;
    var cards := g.cardsState[pos := g.cardsState[pos].(status := FaceUp)];
    PositionsAreDistinct(g.cardsState);
    ClickOnMatchedCard(g, pos, now);
    assert ss.mismatchTimers + [] == ss.mismatchTimers;
    InvUnderStatusChange(ss, cards, ss.mismatchTimers);
  }

  /** Clicking the pending card again cancels it, and the invariant holds. */
  lemma ClickPendingKeepsInv(ss: Session, pos: nat, now: int)
    requires Inv(ss) && pos < |ss.game.cardsState| && ss.game.started && !ss.game.cardsState[pos].matched
    requires ss.game.currentPairingCard.Some? && ss.game.currentPairingCard.value.id == ss.game.cardsState[pos].id
    ensures var r := Handle(ss, Click(pos), now); r.Ok? && Inv(r.value)
  {
    var g := ss.game;
    var cards := g.cardsState[pos := g.cardsState[pos].(status := FaceDown)];
    PositionsAreDistinct(g.cardsState);
    ClickPendingCardCancels(g, pos, now);
    assert ss.mismatchTimers + [] == ss.mismatchTimers;
    InvUnderStatusChange(ss, cards, ss.mismatchTimers);
  }

  /** With nothing pending, the clicked unmatched card becomes pending, and the invariant holds. */
  lemma ClickFirstKeepsInv(ss: Session, pos: nat, now: int)
    requires Inv(ss) && pos < |ss.game.cardsState| && ss.game.started && !ss.game.cardsState[pos].matched
    requires ss.game.currentPairingCard.None?
    ensures var r := Handle(ss, Click(pos), now); r.Ok? && Inv(r.value)
  {
    var g := ss.game;
    var cards := g.cardsState[pos := g.cardsState[pos].(status := FaceUp)];
    PositionsAreDistinct(g.cardsState);
    FirstPickBecomesPending(g, pos, now);
    assert ss.mismatchTimers + [] == ss.mismatchTimers;
    InvUnderStatusChange(ss, cards, ss.mismatchTimers);
  }

  /** A second pick with the pending card's symbol matches both, and the invariant holds. */
  lemma ClickMatchKeepsInv(ss: Session, pos: nat, now: int)
    requires Inv(ss) && pos < |ss.game.cardsState| && ss.game.started && !ss.game.cardsState[pos].matched
    requires ss.game.currentPairingCard.Some? && ss.game.currentPairingCard.value.id != ss.game.cardsState[pos].id
    requires ss.game.currentPairingCard.value.symbol == ss.game.cardsState[pos].symbol
    ensures var r := Handle(ss, Click(pos), now); r.Ok? && Inv(r.value)
  {
    var g := ss.game;
    var q: nat := g.currentPairingCard.value.id;
    PositionsAreDistinct(g.cardsState);
    SecondPickMatches(g, pos, q, now);
    assert ss.mismatchTimers + [] == ss.mismatchTimers;
  }

  /** A second pick with another symbol schedules the flip-back timer for it, and the invariant holds. */
  lemma ClickMismatchKeepsInv(ss: Session, pos: nat, now: int)
    requires Inv(ss) && pos < |ss.game.cardsState| && ss.game.started && !ss.game.cardsState[pos].matched
    requires ss.game.currentPairingCard.Some? && ss.game.currentPairingCard.value.id != ss.game.cardsState[pos].id
    requires ss.game.currentPairingCard.value.symbol != ss.game.cardsState[pos].symbol
    ensures var r := Handle(ss, Click(pos), now); r.Ok? && Inv(r.value)
  {
    var g := ss.game;
    var card := g.cardsState[pos];
    var cards := g.cardsState[pos := card.(status := FaceUp)];
    PositionsAreDistinct(g.cardsState);
    SecondPickMismatchSchedulesFlipBack(g, pos, now);
    InvUnderStatusChange(ss, cards, ss.mismatchTimers + [card]);
  }

  /** Every click on a rendered card succeeds and keeps the invariant. */
  lemma ClickKeepsInv(ss: Session, pos: nat, now: int)
    requires Inv(ss) && pos < |ss.game.cardsState|
    ensures var r := Handle(ss, Click(pos), now); r.Ok? && Inv(r.value)
  {
    var g := ss.game;
    var card := g.cardsState[pos];
    if !g.started {
      ClickWhileStoppedKeepsInv(ss, pos, now);
    } else if card.matched {
      ClickMatchedKeepsInv(ss, pos, now);
    } else if g.currentPairingCard.None? {
      ClickFirstKeepsInv(ss, pos, now);
    } else if g.currentPairingCard.value.id == card.id {
      ClickPendingKeepsInv(ss, pos, now);
    } else if g.currentPairingCard.value.symbol == card.symbol {
      ClickMatchKeepsInv(ss, pos, now);
    } else {
      ClickMismatchKeepsInv(ss, pos, now);
    }
  }

  /** A mismatch timer turns its captured card face down, succeeds, and keeps the invariant. */
  lemma TimerKeepsInv(ss: Session, k: nat, now: int)
    requires Inv(ss) && k < |ss.mismatchTimers|
    ensures var r := Handle(ss, MismatchTimerFires(k), now); r.Ok? && Inv(r.value)
  {
    var g := ss.game;
    var card := ss.mismatchTimers[k];
    PositionsAreDistinct(g.cardsState);
    assert g.cardsState[card.id].id == card.id;
    MismatchTimeoutFlipsCapturedCard(g, card, now);
    var rest := Without(ss.mismatchTimers, k);
    assert forall j :: 0 <= j < |rest| ==> rest[j] == ss.mismatchTimers[if j < k then j else j + 1];
    var t := Run(g, MismatchTimeout(card), now).value;
    InvUnderStatusChange(ss, t.cardsState, rest);
  }

  /** The preview timer starts the game, succeeds, and keeps the invariant. */
  lemma PreviewKeepsInv(ss: Session, now: int)
    requires Inv(ss) && ss.previewPending
    ensures var r := Handle(ss, PreviewTimerFires, now); r.Ok? && Inv(r.value)
  {
    var cards := ss.game.cardsState;
    PreviewEndStartsGame(ss.game, now);
    assert !AllStatus(cards, FaceDown)[0].matched;
  }

  /** Restarting deals a fresh deck over the same symbols, succeeds, and keeps the invariant. */
  lemma RestartKeepsInv(ss: Session, draws: seq<nat>, now: int)
    requires Inv(ss) && Deck.ValidDraws(draws, |ss.game.cardsState|)
    ensures var r := Handle(ss, RestartGame(draws), now); r.Ok? && Inv(r.value)
  {
    var symbols := Symbols(ss.game.cardsState);
    var cards := AllStatus(Deck.NewCards(Deck.Shuffled(symbols, draws)), FaceUp);
    RestartDeals(ss.game, draws, now);
    DealtDeckShape(symbols, draws, FaceUp);
    var next := Session(InitState.(cardsState := cards), true, ss.mismatchTimers);
    assert Handle(ss, RestartGame(draws), now) == Ok(next);
  }

  /**
    No event a player or a timer can cause makes the reducer throw (every
    card id a dispatch names is found), and the invariant is kept: among
    other things, the game stops with a finish time exactly when the last
    pair is matched, and the pending card is always an unmatched card of the deck.
   */
  lemma HandleKeepsInv(ss: Session, e: Event, now: int)
    requires Inv(ss) && Enabled(ss, e)
    ensures var r := Handle(ss, e, now); r.Ok? && Inv(r.value)
  {
    match e
    case Click(pos) => ClickKeepsInv(ss, pos, now);
    case MismatchTimerFires(k) => TimerKeepsInv(ss, k, now);
    case PreviewTimerFires => PreviewKeepsInv(ss, now);
    case RestartGame(draws) => RestartKeepsInv(ss, draws, now);
  }

  /**
    A finished game is frozen: until a restart, no event changes its
    clock, its total time or its matched cards, and it stays stopped.
   */
  lemma FinishedIsFrozen(ss: Session, e: Event, now: int)
    requires Inv(ss) && Enabled(ss, e) && !e.RestartGame?
    requires IsGameFinished(ss.game.cardsState)
    ensures var r := Handle(ss, e, now);
      r.Ok? && !r.value.game.started && IsGameFinished(r.value.game.cardsState) &&
      r.value.game.startedTime == ss.game.startedTime && r.value.game.finishedTime == ss.game.finishedTime &&
      r.value.game.totalTime == ss.game.totalTime
  {
    var g := ss.game;
    match e
    case Click(pos) =>
      ClickWhileStoppedKeepsInv(ss, pos, now);
    case MismatchTimerFires(k) =>
      var card := ss.mismatchTimers[k];
      PositionsAreDistinct(g.cardsState);
      assert g.cardsState[card.id].id == card.id;
      MismatchTimeoutFlipsCapturedCard(g, card, now);
      var t := Run(g, MismatchTimeout(card), now).value;
      assert IsGameFinished(t.cardsState) == IsGameFinished(g.cardsState);
    case PreviewTimerFires =>
      assert false;
  }

  /**
    Restarting, from any state, deals a fresh deck over the same symbols,
    shows it face up for the preview, and clears the clock, the total time,
    the score and the pending card. Pending mismatch timers survive.
   */
  lemma RestartResets(ss: Session, draws: seq<nat>, now: int)
    requires Inv(ss) && Deck.ValidDraws(draws, |ss.game.cardsState|)
    ensures var r := Handle(ss, RestartGame(draws), now);
      r.Ok? && var g := r.value.game;
      r.value.previewPending && r.value.mismatchTimers == ss.mismatchTimers &&
      |g.cardsState| == |ss.game.cardsState| && IdsArePositions(g.cardsState) && NoneMatched(g.cardsState) &&
      (forall i :: 0 <= i < |g.cardsState| ==> g.cardsState[i].status == FaceUp) &&
      multiset(Symbols(g.cardsState)) == multiset(Symbols(ss.game.cardsState)) &&
      !g.started && g.startedTime.None? && g.finishedTime.None? && g.totalTime == 0 &&
      g.currentPairingCard.None? && g.score == 0
  {
    var symbols := Symbols(ss.game.cardsState);
    var cards := AllStatus(Deck.NewCards(Deck.Shuffled(symbols, draws)), FaceUp);
    RestartDeals(ss.game, draws, now);
    DealtDeckShape(symbols, draws, FaceUp);
    DealtDeckSymbols(symbols, draws, FaceUp);
    var next := Session(InitState.(cardsState := cards), true, ss.mismatchTimers);
    assert Handle(ss, RestartGame(draws), now) == Ok(next);
  }

  /**
    When the preview timer fires, every card turns face down, nothing is
    pending, and the game starts with its clock at `now`; the cards keep
    their ids, symbols and matched flags.
   */
  lemma PreviewStartsGame(ss: Session, now: int)
    requires Inv(ss) && ss.previewPending
    ensures var r := Handle(ss, PreviewTimerFires, now);
      r.Ok? && var g := r.value.game;
      !r.value.previewPending && SameButStatus(ss.game.cardsState, g.cardsState) &&
      (forall i :: 0 <= i < |g.cardsState| ==> g.cardsState[i].status == FaceDown) &&
      g.started && g.startedTime == Some(now) && g.finishedTime.None? && g.currentPairingCard.None?
  {
    PreviewEndStartsGame(ss.game, now);
  }
}
