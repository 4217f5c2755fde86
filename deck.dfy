/**
  The deck generator `initCards`: a swap-with-tail shuffle over a copy of the
  symbol list, then one face-down, unmatched card per position whose id is
  that position. `Math.random` is replaced by a supplied sequence of draws.
 */
module Deck {
  import opened Types

  /** One draw per loop iteration, each an index of the list being shuffled. */
  predicate ValidDraws(draws: seq<nat>, n: nat)
  {
    |draws| == n && forall k :: 0 <= k < |draws| ==> draws[k] < n
  }

  /**
    One iteration of the shuffle loop: pop the tail, push the element at
    `r`, then store the popped tail at `r`. The net effect is a swap of
    position `r` with the last position.
   */
  function SwapWithTail(s: seq<string>, r: nat): (t: seq<string>)
    requires r < |s|
    ensures |t| == |s|
  {
    var randomElement := s[r];
    var tailElement := s[|s| - 1];
    var popped := s[..|s| - 1];
    var pushed := popped + [randomElement];
    pushed[r := tailElement]
  }

  /** The loop step exchanges position `r` with the last position and leaves every other position alone. */
  lemma SwapWithTailExchanges(s: seq<string>, r: nat)
    requires r < |s|
    ensures var t := SwapWithTail(s, r);
      t[r] == s[|s| - 1] && t[|s| - 1] == s[r] &&
      forall k :: 0 <= k < |s| && k != r && k != |s| - 1 ==> t[k] == s[k]
  {
  }

  /** The loop step keeps the multiset of symbols. */
  lemma SwapWithTailKeepsSymbols(s: seq<string>, r: nat)
    requires r < |s|
    ensures multiset(SwapWithTail(s, r)) == multiset(s)
  {
    var pushed := s[..|s| - 1] + [s[r]];
    assert pushed == s[|s| - 1 := s[r]];
  }

  /** The list after the loop has run once per draw, in order. */
  function Shuffled(s: seq<string>, draws: seq<nat>): (t: seq<string>)
    requires forall k :: 0 <= k < |draws| ==> draws[k] < |s|
    ensures |t| == |s|
    decreases |draws|
  {
    if draws == [] then s
    else SwapWithTail(Shuffled(s, draws[..|draws| - 1]), draws[|draws| - 1])
  }

  /** However the draws fall, the shuffle only rearranges the symbols. */
  lemma {:induction false} ShuffledIsPermutation(s: seq<string>, draws: seq<nat>)
    requires forall k :: 0 <= k < |draws| ==> draws[k] < |s|
    ensures multiset(Shuffled(s, draws)) == multiset(s)
    decreases |draws|
  {
    if draws != [] {
      ShuffledIsPermutation(s, draws[..|draws| - 1]);
      SwapWithTailKeepsSymbols(Shuffled(s, draws[..|draws| - 1]), draws[|draws| - 1]);
    }
  }

  /** The `reduce` that turns the shuffled symbols into cards, one per position. */
  function NewCards(symbols: seq<string>): (cards: seq<Card>)
    ensures |cards| == |symbols|
    ensures forall i :: 0 <= i < |cards| ==>
      cards[i].id == i && cards[i].symbol == symbols[i] &&
      cards[i].status == FaceDown && !cards[i].matched
  {
    if symbols == [] then []
    else
      var acc := NewCards(symbols[..|symbols| - 1]);
      acc + [Card(|acc|, symbols[|symbols| - 1], FaceDown, false)]
  }

  /** A deck as dealt: ids 0..n-1 by position, every card face down and unmatched. */
  predicate FreshDeck(cards: seq<Card>)
  {
    IdsArePositions(cards) &&
    forall i :: 0 <= i < |cards| ==> cards[i].status == FaceDown && !cards[i].matched
  }

  /** Reading the symbols back off freshly built cards gives the list they were built from. */
  lemma SymbolsOfNewCards(symbols: seq<string>)
    ensures Symbols(NewCards(symbols)) == symbols
  {
    var cards := NewCards(symbols);
    assert |Symbols(cards)| == |symbols|;
    forall i | 0 <= i < |symbols| ensures Symbols(cards)[i] == symbols[i] {
    }
  }

  /**
    The loop of `initCards`: on a copy of the symbols, once per position,
    pop the tail, push the element at the drawn index, and store the popped
    tail at that index.
   */
  method ShuffleSymbols(symbols: seq<string>, draws: seq<nat>) returns (tmp: seq<string>)
    requires ValidDraws(draws, |symbols|)
    ensures tmp == Shuffled(symbols, draws)
  {
    tmp := symbols;
    var i := 0;
    while i < |tmp|
      invariant 0 <= i <= |symbols| == |tmp|
      invariant tmp == Shuffled(symbols, draws[..i])
    {
      var randomIndex := draws[i];
      var randomElement := tmp[randomIndex];
      var tailElement := tmp[|tmp| - 1];
      tmp := tmp[..|tmp| - 1];
      tmp := tmp + [randomElement];
      tmp := tmp[randomIndex := tailElement];
      ShuffledStep(symbols, draws, i);
      i := i + 1;
    }
    assert draws[..i] == draws;
  }

  /**
    `initCards`: shuffles a copy of the symbols and builds the cards. The
    result has one card per symbol, ids 0..n-1, every card face down and
    unmatched, and its symbols are a permutation of the input.
   */
  method InitCards(symbols: seq<string>, draws: seq<nat>) returns (cards: seq<Card>)
    requires ValidDraws(draws, |symbols|)
    ensures cards == NewCards(Shuffled(symbols, draws))
    ensures |cards| == |symbols|
    ensures FreshDeck(cards)
    ensures multiset(Symbols(cards)) == multiset(symbols)
  {
    var tmp := ShuffleSymbols(symbols, draws);
    cards := NewCards(tmp);
    NewDeckShape(symbols, draws);
  }

  /** What `InitCards` promises, stated of its specification. */
  lemma NewDeckShape(symbols: seq<string>, draws: seq<nat>)
    requires ValidDraws(draws, |symbols|)
    ensures var cards := NewCards(Shuffled(symbols, draws));
      |cards| == |symbols| && FreshDeck(cards) &&
      multiset(Symbols(cards)) == multiset(symbols)
  {
    var cards := NewCards(Shuffled(symbols, draws));
    SymbolsOfNewCards(Shuffled(symbols, draws));
    ShuffledIsPermutation(symbols, draws);
    assert IdsArePositions(cards) by { assert forall k :: 0 <= k < |cards| ==> cards[k].id == k; }
  }

  /** A step of the loop in `InitCards` extends the processed prefix of the draws by one. */
  lemma ShuffledStep(s: seq<string>, draws: seq<nat>, i: nat)
    requires i < |draws| && forall k :: 0 <= k < |draws| ==> draws[k] < |s|
    ensures Shuffled(s, draws[..i + 1]) == SwapWithTail(Shuffled(s, draws[..i]), draws[i])
  {
    var prefix := draws[..i + 1];
    assert prefix[..|prefix| - 1] == draws[..i];
    assert prefix[|prefix| - 1] == draws[i];
  }
}
