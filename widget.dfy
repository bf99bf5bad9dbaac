/**
 The game state of the main window, updated in place by its slots. Each method
 is proved to take the state to the one the corresponding function of module
 Rules computes, and to keep the invariant Rules.Inv.
 */
module Widget {
  import opened Cards
  import opened Rules

  class Game {
    /** The shuffled deck, one face per button. */
    var cards: seq<Face>
    /** One flag per button: the card's pair has been found. */
    var matched: array<bool>
    /** The face-up card waiting for its partner, or NoCard. */
    var lastPushed: int
    /** The image name of that card; a mismatch leaves it stale. */
    var lastCardName: string
    /** A mismatch is on show and its turn-back callback has not fired yet. */
    var processing: bool
    /** The first card of the round has been flipped. */
    var timerStarted: bool
    /** The one-second timer is running. */
    var timerActive: bool
    /** Seconds counted by the timer. */
    var elapsed: int
    /** The card captured by the pending turn-back callback, or NoCard. */
    var hideIndex: int

    /** The current state as a value. */
    ghost function Model(): GameState
      reads this, matched
    {
      GameState(cards, matched[..], lastPushed, lastCardName, processing, timerStarted, timerActive, elapsed, hideIndex)
    }

    ghost predicate Valid()
      reads this, matched
    {
      Inv(Model())
    }

    /** Sets up the board: every flag false, the eight pairs shuffled by p, the clock stopped at zero. */
    constructor (p: seq<nat>)
      requires IsIndexPermutation(p, DeckSize)
      ensures Valid() && fresh(matched)
      ensures Model() == Initial(p)
      ensures matched.Length == DeckSize && forall k :: 0 <= k < DeckSize ==> !matched[k]
      ensures multiset(cards) == multiset(InitialDeck()) && EachFaceTwice(cards)
      ensures lastPushed == NoCard && lastCardName == "" && elapsed == 0
      ensures !timerStarted && !timerActive && !processing
    {
      PermutationInRange(p, DeckSize);
      lastPushed := NoCard;
      elapsed := 0;
      lastCardName := "";
      timerStarted := false;
      processing := false;
      hideIndex := NoCard;
      matched := new bool[DeckSize](_ => false);
      cards := Permute(InitialDeck(), p);
      timerActive := false;
      new;
      assert matched[..] == seq(DeckSize, _ => false);
      assert Model() == Initial(p);
      InitialInv(p);
    }

    /** The click on button index. */
    method FlipCard(index: int)
      requires Valid() && 0 <= index < DeckSize
      modifies this, matched
      ensures Valid() && matched == old(matched)
      ensures Model() == Flip(old(Model()), index)
      ensures old(matched[index] || processing) ==> Model() == old(Model())
    {
      ghost var s := Model();
      FlipPreservesInv(s, index);
      if matched[index] || processing {
        return;
      }
      if !timerStarted {
        timerStarted := true;
        timerActive := true;
      }
      ghost var t := s.(timerStarted := true, timerActive := s.timerActive || !s.timerStarted);
      assert Model() == t;
      var cardImage := ImagePath(cards[index]);
      if lastPushed != NoCard && index != lastPushed {
        if lastCardName != cardImage {
          processing := true;
          hideIndex := index;
          assert Flip(s, index) == t.(processing := true, hideIndex := index);
        } else {
          var partner := lastPushed;
          matched[index] := true;
          matched[partner] := true;
          ghost var m := s.matched[index := true][partner := true];
          assert matched[..] == m;
          lastPushed := NoCard;
          lastCardName := "";
          if AllMatched(matched[..]) {
            timerActive := false;
          }
          assert Flip(s, index) == t.(matched := m, lastPushed := NoCard, lastCardName := "", timerActive := !AllMatched(m));
        }
      } else {
        lastPushed := index;
        lastCardName := cardImage;
        assert Flip(s, index) == t.(lastPushed := index, lastCardName := cardImage);
      }
    }

    /** The one-shot callback of a mismatch; returns the two buttons whose card is turned face down again. */
    method ResolveMismatch() returns (second: int, first: int)
      requires Valid() && processing
      modifies this
      ensures Valid() && matched == old(matched)
      ensures Model() == Resolve(old(Model()))
      ensures second == old(hideIndex) && first == old(lastPushed)
      ensures 0 <= second < DeckSize && 0 <= first < DeckSize && second != first
      ensures !matched[second] && !matched[first] && cards[second] != cards[first]
    {
      ResolvePreservesInv(Model());
      second, first := hideIndex, lastPushed;
      lastPushed := NoCard;
      processing := false;
      hideIndex := NoCard;
    }

    /** One timeout of the running timer. */
    method Tick()
      requires Valid() && timerActive
      modifies this
      ensures Valid() && matched == old(matched)
      ensures Model() == Rules.Tick(old(Model()))
      ensures elapsed == old(elapsed) + 1
    {
      TickPreservesInv(Model());
      elapsed := elapsed + 1;
    }

    /** The restart button, with p the shuffle drawn for the new round. */
    method Restart(p: seq<nat>)
      requires Valid() && IsIndexPermutation(p, DeckSize)
      modifies this, matched
      ensures Valid() && matched == old(matched)
      ensures Model() == Rules.Restart(old(Model()), p)
      ensures old(processing) ==> Model() == old(Model())
      ensures !old(processing) ==> multiset(cards) == multiset(old(cards))
      ensures !old(processing) ==> forall k :: 0 <= k < matched.Length ==> !matched[k]
      ensures !old(processing) ==> lastPushed == NoCard && lastCardName == "" && elapsed == 0
      ensures !old(processing) ==> !processing && !timerStarted && !timerActive
    {
      ghost var s := Model();
      RestartPreservesInv(s, p);
      if processing {
        return;
      }
      RestartResets(s, p);
      PermutationInRange(p, DeckSize);
      cards := Permute(cards, p);
      forall k | 0 <= k < matched.Length {
        matched[k] := false;
      }
      lastCardName := "";
      lastPushed := NoCard;
      processing := false;
      timerActive := false;
      elapsed := 0;
      timerStarted := false;
      assert matched[..] == seq(DeckSize, _ => false);
      assert Model() == Rules.Restart(s, p);
    }
  }
}
