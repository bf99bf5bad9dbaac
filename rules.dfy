/**
 The rules of the memory game as functions on a snapshot of the game state:
 flipping a card, the delayed turn-back after a mismatch, the one-second tick
 and the restart. The class in module Widget performs the same steps in place
 and is proved to agree with these functions.
 */
module Rules {
  import opened Cards

  /** Sentinel for "no card is waiting for its partner". */
  const NoCard: int := -1

  /**
   Everything the game remembers between two events.
   cards: the shuffled deck, one face per button;
   matched: one flag per button, set once the card's pair has been found;
   lastPushed / lastCardName: the face-up card waiting for a partner and its image name;
   processing: a mismatch is on show and its turn-back callback has not fired yet;
   timerStarted / timerActive: the first flip of the round happened / the one-second timer runs;
   elapsed: seconds counted by the timer;
   hideIndex: the card captured by the pending turn-back callback (NoCard when none is pending).
   */
  datatype GameState = GameState(
    cards: seq<Face>,
    matched: seq<bool>,
    lastPushed: int,
    lastCardName: string,
    processing: bool,
    timerStarted: bool,
    timerActive: bool,
    elapsed: int,
    hideIndex: int)

  /** The shape every operation relies on to index its sequences. */
  predicate Shaped(s: GameState)
  {
    |s.cards| == |s.matched| && NoCard <= s.lastPushed < |s.matched|
  }

  predicate AllMatched(m: seq<bool>)
  {
    forall k :: 0 <= k < |m| ==> m[k]
  }

  predicate NoneMatched(m: seq<bool>)
  {
    forall k :: 0 <= k < |m| ==> !m[k]
  }

  /** Flags come in pairs: two distinct cards with the same face are both matched or both not. */
  predicate Paired(cards: seq<Face>, m: seq<bool>)
    requires |cards| == |m|
  {
    forall i, j :: 0 <= i < |m| && 0 <= j < |m| && i != j && cards[i] == cards[j] ==> m[i] == m[j]
  }

  /** The invariant every reachable state satisfies. */
  predicate Inv(s: GameState)
  {
    && |s.cards| == DeckSize && |s.matched| == DeckSize
    && EachFaceTwice(s.cards)
    && NoCard <= s.lastPushed < DeckSize
    // the waiting card is face up, unmatched, and its image name is remembered
    && (s.lastPushed != NoCard ==> !s.matched[s.lastPushed] && s.lastCardName == ImagePath(s.cards[s.lastPushed]))
    && Paired(s.cards, s.matched)
    // the clock runs from the first flip until every pair is found
    && s.timerActive == (s.timerStarted && !AllMatched(s.matched))
    && (!s.timerStarted ==> s.elapsed == 0 && s.lastPushed == NoCard && NoneMatched(s.matched))
    && s.elapsed >= 0
    // a pending turn-back concerns two distinct unmatched cards with different faces
    && s.processing == (s.hideIndex != NoCard)
    && (s.processing ==>
          && 0 <= s.hideIndex < DeckSize
          && s.lastPushed != NoCard
          && s.hideIndex != s.lastPushed
          && !s.matched[s.hideIndex]
          && s.cards[s.hideIndex] != s.cards[s.lastPushed])
  }

  /** The state at the start of a round, for the deck d: one cleared flag per button,
      nothing waiting, no lock, the timer neither started nor running, elapsed at zero. */
  function FreshRound(d: seq<Face>): (r: GameState)
    ensures Shaped(r) <==> |d| == DeckSize
    ensures |r.matched| == DeckSize && NoneMatched(r.matched)
  {
    GameState(d, seq(DeckSize, _ => false), NoCard, "", false, false, false, 0, NoCard)
  }

  /** A new game: the deck shuffled by p, no card matched, nothing waiting, the clock at zero and stopped. */
  function Initial(p: seq<nat>): (r: GameState)
    requires IsIndexPermutation(p, DeckSize)
    ensures Shaped(r)
  {
    PermutationInRange(p, DeckSize);
    FreshRound(Permute(InitialDeck(), p))
  }

  /** The click on button index. */
  function Flip(s: GameState, index: int): (r: GameState)
    requires Shaped(s) && 0 <= index < |s.matched|
    ensures Shaped(r) && r.cards == s.cards
  {
    if s.matched[index] || s.processing then s
    else
      var t := if s.timerStarted then s else s.(timerStarted := true, timerActive := true);
      var cardImage := ImagePath(s.cards[index]);
      if t.lastPushed != NoCard && index != t.lastPushed then
        if t.lastCardName != cardImage then
          t.(processing := true, hideIndex := index)
        else
          var m := t.matched[index := true][t.lastPushed := true];
          var u := t.(matched := m, lastPushed := NoCard, lastCardName := "");
          if AllMatched(m) then u.(timerActive := false) else u
      else
        t.(lastPushed := index, lastCardName := cardImage)
  }

  /** The turn-back callback scheduled by a mismatch; the remembered image name is left as it is. */
  function Resolve(s: GameState): (r: GameState)
    requires s.processing
    ensures !r.processing && r.lastPushed == NoCard
    ensures r.(lastPushed := s.lastPushed, processing := s.processing, hideIndex := s.hideIndex) == s
  {
    s.(lastPushed := NoCard, processing := false, hideIndex := NoCard)
  }

  /** One timeout of the running one-second timer: one more second counted, nothing else touched. */
  function Tick(s: GameState): (r: GameState)
    requires s.timerActive
    ensures r.elapsed == s.elapsed + 1
    ensures r.(elapsed := s.elapsed) == s
  {
    s.(elapsed := s.elapsed + 1)
  }

  /** The restart button, with p the shuffle drawn for the new round; refused while a mismatch is on show. */
  function Restart(s: GameState, p: seq<nat>): (r: GameState)
    requires IsIndexPermutation(p, |s.cards|)
    ensures s.processing ==> r == s
    ensures !s.processing ==> r == FreshRound(r.cards) && multiset(r.cards) == multiset(s.cards)
  {
    if s.processing then s
    else
      PermutePreservesCards(s.cards, p);
      FreshRound(Permute(s.cards, p))
  }

  // ---------------------------------------------------------------------------
  // Invariant

  lemma FreshRoundInv(d: seq<Face>)
    requires |d| == DeckSize && EachFaceTwice(d)
    ensures Inv(FreshRound(d))
  {
    assert NoneMatched(FreshRound(d).matched);
  }

  lemma InitialInv(p: seq<nat>)
    requires IsIndexPermutation(p, DeckSize)
    ensures Inv(Initial(p))
    ensures multiset(Initial(p).cards) == multiset(InitialDeck())
  {
    var d := InitialDeck();
    InitialDeckEachFaceTwice();
    PermutePreservesCards(d, p);
    assert Initial(p) == FreshRound(Permute(d, p));
    FreshRoundInv(Permute(d, p));
  }

  /** Under the invariant, comparing image names is comparing faces. */
  lemma NameComparesFaces(s: GameState, index: int)
    requires Inv(s) && 0 <= index < DeckSize && s.lastPushed != NoCard
    ensures s.lastCardName == ImagePath(s.cards[index]) <==> s.cards[index] == s.cards[s.lastPushed]
  {
    ImagePathInjective(s.cards[index], s.cards[s.lastPushed]);
  }

  lemma FlipPreservesInv(s: GameState, index: int)
    requires Inv(s) && 0 <= index < DeckSize
    ensures Inv(Flip(s, index))
  {
    if !s.matched[index] && !s.processing && s.lastPushed != NoCard && index != s.lastPushed {
      NameComparesFaces(s, index);
      if s.cards[index] == s.cards[s.lastPushed] {
        var r := Flip(s, index);
        forall i, j | 0 <= i < DeckSize && 0 <= j < DeckSize && i != j && s.cards[i] == s.cards[j]
          ensures r.matched[i] == r.matched[j]
        {
          if i == index || i == s.lastPushed || j == index || j == s.lastPushed {
            if i != index && i != s.lastPushed {
              PartnerUnique(s.cards, index, s.lastPushed, i);
            } else if j != index && j != s.lastPushed {
              PartnerUnique(s.cards, index, s.lastPushed, j);
            }
          }
        }
      }
    }
  }

  lemma ResolvePreservesInv(s: GameState)
    requires Inv(s) && s.processing
    ensures Inv(Resolve(s))
  {
  }

  lemma TickPreservesInv(s: GameState)
    requires Inv(s) && s.timerActive
    ensures Inv(Tick(s))
  {
  }

  lemma RestartPreservesInv(s: GameState, p: seq<nat>)
    requires Inv(s) && IsIndexPermutation(p, |s.cards|)
    ensures Inv(Restart(s, p))
  {
    if !s.processing {
      ShuffleKeepsPairs(s.cards, p);
      FreshRoundInv(Permute(s.cards, p));
    }
  }

  // ---------------------------------------------------------------------------
  // Flipping a card

  /** A click changes nothing exactly when the card is matched, a mismatch is on show, or it is the waiting card. */
  lemma FlipNoOpExactly(s: GameState, index: int)
    requires Inv(s) && 0 <= index < DeckSize
    ensures Flip(s, index) == s <==> s.matched[index] || s.processing || index == s.lastPushed
  {
    var r := Flip(s, index);
    if !s.matched[index] && !s.processing && s.lastPushed != NoCard && index != s.lastPushed {
      NameComparesFaces(s, index);
      if s.cards[index] == s.cards[s.lastPushed] {
        assert r.matched[index] != s.matched[index];
      }
    }
  }

  /** Clicking the same card twice in a row has the effect of clicking it once. */
  lemma FlipTwiceIsFlipOnce(s: GameState, index: int)
    requires Inv(s) && 0 <= index < DeckSize
    ensures Flip(Flip(s, index), index) == Flip(s, index)
  {
    FlipPreservesInv(s, index);
    FlipNoOpExactly(Flip(s, index), index);
  }

  /** The first accepted click of a round starts the timer; later clicks never start it again. */
  lemma FlipStartsTimerOnce(s: GameState, index: int)
    requires Inv(s) && 0 <= index < DeckSize
    ensures !s.matched[index] && !s.processing ==> Flip(s, index).timerStarted
    ensures !s.timerStarted && !s.matched[index] && !s.processing ==> Flip(s, index).timerActive
    ensures s.timerStarted ==> Flip(s, index).timerStarted
    ensures Flip(s, index).timerActive ==> s.timerActive || !s.timerStarted
    ensures Flip(s, index).elapsed == s.elapsed
  {
    if !s.timerStarted && !s.matched[index] && !s.processing {
      assert s.lastPushed == NoCard;
    }
  }

  /** With no card waiting, or on the waiting card itself, a click makes this card the waiting one. */
  lemma FlipFirstCard(s: GameState, index: int)
    requires Inv(s) && 0 <= index < DeckSize
    requires !s.matched[index] && !s.processing
    requires s.lastPushed == NoCard || s.lastPushed == index
    ensures Flip(s, index).lastPushed == index
    ensures Flip(s, index).lastCardName == ImagePath(s.cards[index])
    ensures Flip(s, index).matched == s.matched
    ensures !Flip(s, index).processing && Flip(s, index).timerActive
  {
  }

  /** A second card with the waiting card's face: both are matched, nothing else is, and nothing waits any more. */
  lemma FlipMatch(s: GameState, index: int)
    requires Inv(s) && 0 <= index < DeckSize
    requires !s.matched[index] && !s.processing
    requires s.lastPushed != NoCard && index != s.lastPushed
    requires s.cards[index] == s.cards[s.lastPushed]
    ensures Flip(s, index).matched[index] && Flip(s, index).matched[s.lastPushed]
    ensures forall k :: 0 <= k < DeckSize && k != index && k != s.lastPushed ==>
              Flip(s, index).matched[k] == s.matched[k]
    ensures Flip(s, index).lastPushed == NoCard && Flip(s, index).lastCardName == ""
    ensures !Flip(s, index).processing
    ensures Flip(s, index).timerActive <==> !AllMatched(Flip(s, index).matched)
  {
    NameComparesFaces(s, index);
  }

  /** A second card with a different face: the game locks, no flag changes, and the waiting card stays remembered. */
  lemma FlipMismatch(s: GameState, index: int)
    requires Inv(s) && 0 <= index < DeckSize
    requires !s.matched[index] && !s.processing
    requires s.lastPushed != NoCard && index != s.lastPushed
    requires s.cards[index] != s.cards[s.lastPushed]
    ensures Flip(s, index).processing && Flip(s, index).hideIndex == index
    ensures Flip(s, index).matched == s.matched
    ensures Flip(s, index).lastPushed == s.lastPushed && Flip(s, index).lastCardName == s.lastCardName
    ensures forall k :: 0 <= k < DeckSize ==> Flip(Flip(s, index), k) == Flip(s, index)
  {
    NameComparesFaces(s, index);
  }

  /** The turn-back after a mismatch: nothing waits, the lock is released, no flag changes;
      the stale image name of the first card is kept. */
  lemma ResolveAfterMismatch(s: GameState, index: int)
    requires Inv(s) && 0 <= index < DeckSize
    requires !s.matched[index] && !s.processing
    requires s.lastPushed != NoCard && index != s.lastPushed
    requires s.cards[index] != s.cards[s.lastPushed]
    ensures Resolve(Flip(s, index)).lastPushed == NoCard && !Resolve(Flip(s, index)).processing
    ensures Resolve(Flip(s, index)).matched == s.matched
    ensures Resolve(Flip(s, index)).lastCardName == ImagePath(s.cards[s.lastPushed]) != ""
  {
    FlipMismatch(s, index);
  }

  /** The two cards the turn-back callback hides are distinct, unmatched and of different faces. */
  lemma ResolveHidesMismatchedPair(s: GameState)
    requires Inv(s) && s.processing
    ensures 0 <= s.hideIndex < DeckSize && 0 <= s.lastPushed < DeckSize && s.hideIndex != s.lastPushed
    ensures !s.matched[s.hideIndex] && !s.matched[s.lastPushed]
    ensures s.cards[s.hideIndex] != s.cards[s.lastPushed]
    ensures Resolve(s).matched == s.matched && Resolve(s).timerActive == s.timerActive
  {
  }

  // ---------------------------------------------------------------------------
  // Completion

  /** Once every card is matched the timer is stopped, so the elapsed time is frozen, and every click is ignored. */
  lemma CompletedGameIsFrozen(s: GameState)
    requires Inv(s) && AllMatched(s.matched)
    ensures !s.timerActive && !s.processing && s.lastPushed == NoCard
    ensures forall k :: 0 <= k < DeckSize ==> Flip(s, k) == s
  {
  }

  /** The round is completed only by a matching click, and that click stops the timer. */
  lemma CompletionStopsTimer(s: GameState, index: int)
    requires Inv(s) && 0 <= index < DeckSize
    requires !AllMatched(s.matched) && AllMatched(Flip(s, index).matched)
    ensures s.lastPushed != NoCard && index != s.lastPushed && s.cards[index] == s.cards[s.lastPushed]
    ensures s.timerActive && !Flip(s, index).timerActive
  {
    if s.lastPushed != NoCard {
      NameComparesFaces(s, index);
    }
  }

  // ---------------------------------------------------------------------------
  // Restart

  /** Restart outside a mismatch: the deck is a permutation of the old one and everything else is reset. */
  lemma RestartResets(s: GameState, p: seq<nat>)
    requires IsIndexPermutation(p, |s.cards|) && !s.processing
    ensures multiset(Restart(s, p).cards) == multiset(s.cards)
    ensures EachFaceTwice(s.cards) ==> EachFaceTwice(Restart(s, p).cards)
    ensures |Restart(s, p).matched| == DeckSize && NoneMatched(Restart(s, p).matched)
    ensures Restart(s, p).lastPushed == NoCard && Restart(s, p).lastCardName == ""
    ensures !Restart(s, p).processing && !Restart(s, p).timerStarted && !Restart(s, p).timerActive
    ensures Restart(s, p).elapsed == 0
  {
    PermutePreservesCards(s.cards, p);
  }

  /** Restart during a mismatch is refused; once the turn-back has fired it resets the round. */
  lemma RestartDuringMismatch(s: GameState, index: int, p: seq<nat>)
    requires Inv(s) && 0 <= index < DeckSize
    requires !s.matched[index] && !s.processing
    requires s.lastPushed != NoCard && index != s.lastPushed
    requires s.cards[index] != s.cards[s.lastPushed]
    requires IsIndexPermutation(p, DeckSize)
    ensures Restart(Flip(s, index), p) == Flip(s, index)
    ensures NoneMatched(Restart(Resolve(Flip(s, index)), p).matched)
    ensures Restart(Resolve(Flip(s, index)), p).elapsed == 0
  {
    FlipMismatch(s, index);
  }
}
