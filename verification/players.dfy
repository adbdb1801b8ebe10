/** The two deterministic card-taking strategies of the No Thanks! game.

    A player is offered the face-up card `card` with `chips` chips on it and
    decides whether to take it (true) or pay a chip to pass (false). Both
    strategies read the hands only through `contains` and `size` of the
    sorted lists, and mutate nothing: they are pure functions here.
    `hands.get(me)` throws when `me` is not a player index; that exception
    is the NoSuchPlayer failure.
 */
module Players {
  import opened Wrappers
  import opened SortedLists

  datatype PlayerError = NoSuchPlayer(index: int)

  /** Every hand keeps the sorted list's class invariant. */
  ghost predicate AllValid(hands: seq<SortedList>)
  {
    forall i :: 0 <= i < |hands| ==> Valid(hands[i])
  }

  /** The hand already holds a card next to `card`, which would extend a run. */
  function HasNeighbour(hand: SortedList, card: int): bool
  {
    Contains(hand, card + 1) || Contains(hand, card - 1)
  }

  /** Java's `c / 2` on int: the quotient truncated toward zero. */
  function JavaHalf(c: int): (h: int)
    ensures c >= 0 ==> 0 <= c - 2 * h <= 1
    ensures c < 0 ==> -1 <= c - 2 * h <= 0
  {
    if c >= 0 then c / 2 else -((-c) / 2)
  }

  /** The stream sum of `size()` over all hands. */
  function SizeSum(hands: seq<SortedList>): int
  {
    if |hands| == 0 then 0 else SizeSum(hands[..|hands| - 1]) + Size(hands[|hands| - 1])
  }

  /** The number of cards held by all players together. */
  ghost function CardCount(hands: seq<SortedList>): nat
  {
    if |hands| == 0 then 0 else CardCount(hands[..|hands| - 1]) + |Elements(hands[|hands| - 1])|
  }

  /** On valid hands the summed counters count the cards held. */
  lemma {:induction false} SizeSumCounts(hands: seq<SortedList>)
    requires AllValid(hands)
    ensures SizeSum(hands) == CardCount(hands)
  {
    if |hands| > 0 {
      SizeSumCounts(hands[..|hands| - 1]);
    }
  }

  /** The cards not yet taken out of the 24 that are dealt. */
  function CardsLeft(hands: seq<SortedList>): int
  {
    24 - SizeSum(hands)
  }

  /** `AlwaysRejectPlayer.offeredCard`: takes a card only when it is next
      to one already held, whatever the chips. */
  function AlwaysReject(card: int, chips: int, hands: seq<SortedList>, me: int, myChips: int)
    : (r: Result<bool, PlayerError>)
    requires AllValid(hands)
    ensures r.Failure? <==> !(0 <= me < |hands|)
    ensures r.Failure? ==> r.error == NoSuchPlayer(me)
    ensures r.Success? ==>
              (r.value <==> card + 1 in Elements(hands[me]) || card - 1 in Elements(hands[me]))
  {
    if !(0 <= me < |hands|) then Failure(NoSuchPlayer(me))
    else Success(HasNeighbour(hands[me], card))
  }

  /** `BasicStrategyPlayer.offeredCard`, the decision cascade: a neighbour
      in hand wins; cards from 33 up are refused; a card worth no more than
      its chips is taken; with fewer than 3 cards left in play everything
      is refused; a small hand takes a card carrying more than 6 chips whose
      value less half the chips is below 20; a larger hand takes only when
      out of chips. */
  function BasicStrategy(card: int, chips: int, hands: seq<SortedList>, me: int, myChips: int)
    : (r: Result<bool, PlayerError>)
    requires AllValid(hands)
    ensures r.Failure? <==> !(0 <= me < |hands|)
    ensures r.Failure? ==> r.error == NoSuchPlayer(me)
    ensures r.Success? ==>
              var s := Elements(hands[me]);
              var near := card + 1 in s || card - 1 in s;
              && (near ==> r.value)
              && (!near && card >= 33 ==> !r.value)
              && (!near && card < 33 && card - chips <= 0 ==> r.value)
              && (!near && card < 33 && card - chips > 0 && 24 - CardCount(hands) < 3 ==> !r.value)
              && (!near && card < 33 && card - chips > 0 && 24 - CardCount(hands) >= 3 && |s| < 3 ==>
                    (r.value <==> chips > 6 && card - JavaHalf(chips) < 20))
              && (!near && card < 33 && card - chips > 0 && 24 - CardCount(hands) >= 3 && |s| >= 3 ==>
                    (r.value <==> myChips == 0))
  {
    if !(0 <= me < |hands|) then Failure(NoSuchPlayer(me))
    else
      var hand := hands[me];
      SizeSumCounts(hands);
      if HasNeighbour(hand, card) then Success(true)
      else if card >= 33 then Success(false)
      else if card - chips <= 0 then Success(true)
      else if CardsLeft(hands) < 3 then Success(false)
      else if Size(hand) < 3 then Success(chips > 6 && card - JavaHalf(chips) < 20)
      else Success(myChips == 0)
  }

  /** AlwaysReject looks at nothing but the own hand's contents: other
      players' hands, the chips on the card and the own chips are ignored. */
  lemma AlwaysRejectReadsOwnHand(card: int, chips: int, chips': int, hands: seq<SortedList>,
                                 hands': seq<SortedList>, me: int, myChips: int, myChips': int)
    requires AllValid(hands) && AllValid(hands')
    requires |hands| == |hands'| && 0 <= me < |hands|
    requires Elements(hands[me]) == Elements(hands'[me])
    ensures AlwaysReject(card, chips, hands, me, myChips) == AlwaysReject(card, chips', hands', me, myChips')
  {
  }

  /** BasicStrategy reads the other hands only through the number of
      cards they hold: two games with the same own hand and the same card
      count get the same decision. */
  lemma BasicReadsOwnHandAndCount(card: int, chips: int, hands: seq<SortedList>,
                                  hands': seq<SortedList>, me: int, myChips: int)
    requires AllValid(hands) && AllValid(hands')
    requires |hands| == |hands'| && 0 <= me < |hands|
    requires Elements(hands[me]) == Elements(hands'[me])
    requires CardCount(hands) == CardCount(hands')
    ensures BasicStrategy(card, chips, hands, me, myChips) == BasicStrategy(card, chips, hands', me, myChips)
  {
  }

  /** Whatever AlwaysReject takes, BasicStrategy takes too. */
  lemma RejectTakesOnlyWhatBasicTakes(card: int, chips: int, hands: seq<SortedList>, me: int, myChips: int)
    requires AllValid(hands) && 0 <= me < |hands|
    requires AlwaysReject(card, chips, hands, me, myChips) == Success(true)
    ensures BasicStrategy(card, chips, hands, me, myChips) == Success(true)
  {
  }

  /** On cards from 33 up the basic strategy is AlwaysReject. */
  lemma HighCardsAreRejected(card: int, chips: int, hands: seq<SortedList>, me: int, myChips: int)
    requires AllValid(hands) && card >= 33
    ensures BasicStrategy(card, chips, hands, me, myChips) == AlwaysReject(card, chips, hands, me, myChips)
  {
  }
}
