# Memory Match: the game state machine

The game in this repository is a Qt memory game. Sixteen face-down cards lie
on a grid, and the eight faces each occur twice. The player turns cards over
two at a time. A matching pair stays face up. A mismatch is shown for one
second and then turned face down again. A one-second timer runs from the
first flip until every pair is found. A restart button reshuffles the deck
and resets the round.

All of this logic sits in the `Widget` class. It is one `flipCard` slot and one
`restartGame` slot, plus two lambdas: the timer's timeout handler and the
one-shot callback that turns a mismatch back. This project models that state
machine and proves its properties.

- `cards.dfy`, module `Cards`: the eight faces and the image resource each is
  shown with. Also the unshuffled deck of sixteen cards and the shuffle. The
  shuffle is modelled as an arbitrary permutation `p` of the positions, so
  position `k` of the new deck holds the card that was at `p[k]`. It is proved
  that a shuffle keeps every card, so each face still occurs exactly twice.
- `rules.dfy`, module `Rules`: a snapshot of the game state (`GameState`) and
  the invariant `Inv` that every reachable state satisfies. It also holds one
  pure function per event: `Flip` (a click), `Resolve` (the pending turn-back
  callback), `Tick` (a timer timeout) and `Restart`. The lemmas state what each
  event does and prove that it keeps `Inv`. Some lemmas relate several events:
  a double click, completing the round, and a restart during a mismatch.
- `widget.dfy`, module `Widget`: class `Game`. It has the widget's fields, and
  the matched flags are an `array<bool>`. Its methods `FlipCard`,
  `ResolveMismatch`, `Tick` and `Restart` update these fields in place. Each
  method is proved to produce exactly the state the matching `Rules` function
  computes, and to keep `Inv`.

The environment is modelled as the caller. It calls `Tick` only while the
timer is running and `ResolveMismatch` only while a mismatch is pending. It
also supplies the permutation that the random shuffle would have drawn.

Facts the invariant `Inv` captures:
- Each face occurs twice in the deck.
- The matched flags come in pairs: two distinct cards with equal faces are
  both matched or both unmatched.
- The waiting card (`lastPushed`) is unmatched, and `lastCardName` is its image
  name.
- The timer runs exactly when the round has started and not every card is
  matched. So once all pairs are found, `elapsed` is frozen.
- Before the first flip of a round, `elapsed` is 0, nothing waits and nothing is
  matched.
- A pending turn-back concerns two distinct unmatched cards with different
  faces.

The code has these quirks, and the model keeps them:
- A click on the card that is already waiting is not ignored by a guard. It
  goes through the "first card" branch again and rewrites the same two values.
  `FlipNoOpExactly` proves that this leaves the state unchanged.
- A restart during a mismatch does not cancel the turn-back callback. The
  restart is simply refused while `processing` holds.
- No completion notification exists. Completion only stops the timer, and
  `timerStarted` stays true.
- A click's index is not range-checked. The slot indexes its vectors
  directly, and its callers pass only 0..15. So `FlipCard` requires the index
  to be in range.
- The mismatch path leaves `lastCardName` stale. The model keeps it, and
  `ResolveAfterMismatch` states it.

## Model

| member | source | states |
|---|---|---|
| Cards.ImagePath | widget.cpp:85-94 | every card's image name is non-empty, so it never equals the cleared name |
| Cards.ImagePathInjective | widget.cpp:85-94 | two faces have the same image name if and only if they are the same face, so comparing names compares faces |
| Cards.InitialDeck | widget.cpp:85-94 | the unshuffled deck has sixteen cards, the faces listed in order and each twice in a row |
| Cards.InitialDeckEachFaceTwice | widget.cpp:85-94 | in the unshuffled deck every face occurs exactly twice |
| Cards.PermutationInRange | widget.cpp:101 | a shuffle of n positions has length n and names only positions below n |
| Cards.Permute | widget.cpp:101 | the shuffled deck has one card per position of the shuffle, and position k holds the card that was at position p[k]; its partner PermutePreservesCards proves the result is a permutation |
| Cards.PermutePreservesCards | widget.cpp:97-104 | a shuffled deck has as many cards as before and is a permutation of the deck (equal multisets) |
| Cards.ShuffleKeepsPairs | widget.cpp:201-205 | reshuffling a deck in which each face occurs twice gives a deck in which each face occurs twice |
| Cards.PartnerExists | widget.cpp:85-94 | in such a deck every card has another card with its face |
| Cards.PartnerUnique | widget.cpp:85-94 | in such a deck a card that has one partner has no other card of its face, so together with PartnerExists every card has exactly one partner |
| Rules.Initial | widget.cpp:82-104 | the initial state is well-shaped: one matched flag per card and no waiting card out of range |
| Rules.FreshRound | widget.h:32-42 | the state at the start of a round has one cleared flag per button (widget.cpp:82, 207), and it is well-shaped exactly when the deck has sixteen cards |
| Rules.FreshRoundInv | widget.h:32-42 | a fresh round over a deck in which each face occurs twice satisfies the invariant |
| Rules.InitialInv | widget.h:32-42 | the freshly built game satisfies the invariant, and its deck is a permutation of the unshuffled deck |
| Rules.Flip | widget.cpp:142-193 | a click keeps the state well-shaped and never changes the deck |
| Rules.Resolve | widget.cpp:164-172 | after the turn-back callback nothing is waiting and the lock is released; the deck, the flags, the stale name, the timer flags and elapsed are kept |
| Rules.Tick | widget.cpp:27-30 | a timeout, possible only while the timer runs, counts one more second and leaves every other field as it was |
| Rules.Restart | widget.cpp:195-213 | while a mismatch is pending the state is unchanged; otherwise the result is a fresh round whose deck is a permutation of the old deck |
| Rules.NameComparesFaces | widget.cpp:154-160 | under the invariant, the click's name comparison succeeds exactly when the two cards have the same face |
| Rules.FlipPreservesInv | widget.cpp:142-193 | a click keeps the invariant: flags only in equal-face pairs, a waiting card unmatched with its name, the timer running exactly between the first flip and completion |
| Rules.ResolvePreservesInv | widget.cpp:164-172 | the turn-back callback keeps the invariant |
| Rules.TickPreservesInv | widget.cpp:27-30 | a timer timeout keeps the invariant, since only elapsed changes |
| Rules.RestartPreservesInv | widget.cpp:195-213 | a restart, refused or performed, keeps the invariant |
| Rules.FlipNoOpExactly | widget.cpp:144-192 | a click leaves every field unchanged if and only if the card is matched, a mismatch is pending, or the card is the one already waiting |
| Rules.FlipTwiceIsFlipOnce | widget.cpp:158-192 | clicking a card twice in a row has the same effect as clicking it once |
| Rules.FlipStartsTimerOnce | widget.cpp:149-152 | the first accepted click of a round starts the timer; once started it is never started again by a click; a click never changes elapsed |
| Rules.FlipFirstCard | widget.cpp:188-192 | with no card waiting, or on the waiting card, a click makes that card wait with its image name, changes no flag, takes no lock and leaves the timer running |
| Rules.FlipMatch | widget.cpp:174-185 | a second, different card with the waiting card's face sets both flags and no other, clears the waiting card and its name, and stops the timer exactly when all cards are matched |
| Rules.FlipMismatch | widget.cpp:160-163 | a second, different card with another face takes the lock, keeps the two cards and every flag, and makes every further click a no-op |
| Rules.ResolveAfterMismatch | widget.cpp:164-172 | after the mismatch's turn-back nothing waits, the lock is released, no flag changed, and the stale name of the first card remains |
| Rules.ResolveHidesMismatchedPair | widget.cpp:164-168 | the two cards the callback turns face down are distinct, unmatched and of different faces, and the callback changes no flag and leaves the timer alone |
| Rules.CompletedGameIsFrozen | widget.cpp:181-185 | once every card is matched the timer is stopped (elapsed is frozen), no lock is held, nothing waits, and every click is ignored |
| Rules.CompletionStopsTimer | widget.cpp:181-183 | the round is completed only by a matching click, and that click stops the running timer |
| Rules.RestartResets | widget.cpp:195-213 | a restart outside a mismatch makes the deck a permutation of the old one, keeps each face twice, clears every flag, the waiting card and its name, both timer flags and the lock, and sets elapsed to 0 |
| Rules.RestartDuringMismatch | widget.cpp:197-198 | a restart while a mismatch is pending changes nothing; after the turn-back fires a restart resets the round |
| Widget.Game.constructor | widget.h:32-42 | a new game has no waiting card, an empty name, elapsed 0, no lock, the timer neither started nor running, one false flag per card, and a deck that is a permutation of the unshuffled deck |
| Widget.Game.FlipCard | widget.cpp:142-193 | updating the fields and the flag array in place yields exactly Rules.Flip of the old state; the invariant is kept; a matched card or a pending mismatch changes nothing |
| Widget.Game.ResolveMismatch | widget.cpp:164-172 | the state becomes Rules.Resolve of the old one, in the same flag array; it returns the captured card and the waiting card, which are distinct, unmatched and of different faces |
| Widget.Game.Tick | widget.cpp:27-30 | allowed only while the timer runs; elapsed grows by one and nothing else changes, the flag array included |
| Widget.Game.Restart | widget.cpp:195-215 | the state becomes Rules.Restart of the old one: unchanged while a mismatch is pending, otherwise a permuted deck, all flags false in the same array, and every other field reset |

## Left out

- Presentation: window title, icons, pixmaps, style sheets, the button list and
  the icon changes that show or hide a face (widget.cpp:38-79, 106-135,
  155-156, 165-168). `ResolveMismatch` returns the two buttons it would turn
  face down instead.
- Signal/slot wiring and the destructor (widget.cpp:19-25, 33-36). These are Qt
  plumbing. The click handlers for the buttons become the `index` parameter of
  `FlipCard`.
- Real time. `QTimer::start(1000)` and `stop` become the `timerActive` flag.
  The timeout and the 1000 ms `singleShot` become the `Tick` and
  `ResolveMismatch` methods, which the environment calls.
- Randomness: `std::random_device` and `std::mt19937`. The shuffle is some
  permutation that the caller supplies. Whether it is uniform, or differs
  between rounds, cannot be stated here.
- `qDebug` output and the timer label text (widget.cpp:29, 147, 184, 214).
- `elapsed` is an unbounded integer. It does not model the overflow of the
  source's `int` (undefined behaviour in C++), which would need about 68 years
  of play.
- `Ui::Widget`, `ui_widget.h` and the resource files are not part of this model.
