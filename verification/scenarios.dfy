/** Concrete runs of the rules with three players A, B and C who each
    brought one gift, listed and taking turns in the order A, B, C. Every
    intermediate game is written out, and each lemma relates one game to
    the next. */
module Scenarios {
  import opened Model
  import opened Indexing
  import opened Engine

  const A: User := 1
  const B: User := 2
  const C: User := 3

  /** The wrapped gift brought by `u`. */
  function BoxOf(u: User): Gift
  {
    Gift(u, u, "box", "gift", "", Wrapped)
  }

  /** The gift brought by `u`, opened, held by `holder` with `status`. */
  function Held(u: User, holder: User, status: int): Gift
  {
    BoxOf(u).(holder := holder, status := status)
  }

  const Party: Game := Game([BoxOf(A), BoxOf(B), BoxOf(C)], [], 0, None, None, Prep, None)
  const Begun: Game := Game([BoxOf(A), BoxOf(B), BoxOf(C)], [A, B, C], 1, Some(A), Some(A), Play, None)
  const FirstOpen: Game := Game([BoxOf(A), Held(B, A, 2), BoxOf(C)], [A, B, C], 2, Some(A), Some(B), Play, None)
  const SecondOpen: Game := Game([BoxOf(A), Held(B, A, 2), Held(C, B, 2)], [A, B, C], 3, Some(A), Some(C), Play, None)
  const Chained: Game := Game([BoxOf(A), Held(B, C, 1), Held(C, B, 2)], [A, B, C], 3, Some(A), Some(A), Play, None)
  const Revenge: Game := Game([BoxOf(A), Held(B, C, 1), Held(C, A, 1)], [A, B, C], 3, Some(A), Some(B), Play, None)
  const Called: Game := Game([Held(A, B, 2), Held(B, C, 1), Held(C, A, 1)], [A, B, C], 3, Some(A), Some(A), Last, Some(7))
  const Swapped: Game := Game([Held(A, B, 2), Held(B, A, 1), Held(C, C, 1)], [A, B, C], 3, Some(A), Some(A), End, Some(7))
  const Ended: Game := Called.(stage := End)
  const StolenAfterEnd: Game := Game([Held(A, B, 2), Held(B, A, 0), Held(C, A, 1)], [A, B, C], 3, Some(A), Some(C), End, Some(7))

  /** `/game start` with both shuffles the identity: A goes first. */
  lemma StartParty()
    ensures multiset(Buyers(Party.gifts)) == multiset([A, B, C])
    ensures Start(Party, Party.gifts, [A, B, C]) == Success(Begun)
  {
    assert Buyers(Party.gifts) == [A, B, C];
  }

  /** A opens #2, also addressed as -1 as in a Python list; the turn passes
      to B. B opens #3; the turn passes to C. */
  lemma Opens()
    ensures OpenGift(Begun, A, 2, 0) == Success(FirstOpen)
    ensures OpenGift(Begun, A, -1, 0) == Success(FirstOpen)
    ensures OpenGift(FirstOpen, B, 3, 0) == Success(SecondOpen)
  {
    assert ResolveIndex(-1, 3) == Some(1);
    assert Begun.gifts[1 := Held(B, A, 2)] == FirstOpen.gifts;
    assert FirstOpen.gifts[2 := Held(C, B, 2)] == SecondOpen.gifts;
  }

  /** C steals #2 from A: the gift loses a steal and A, the player robbed,
      takes the turn. Before that C is refused #1 (wrapped), #3 (C's own)
      and #4 (no such gift), and A may not act out of turn. */
  lemma ChainedSteal()
    ensures StealGift(SecondOpen, C, 2) == Success(Chained)
    ensures StealGift(SecondOpen, C, 1) == Failure(NotOpened)
    ensures StealGift(SecondOpen, C, 3) == Failure(OwnGiftSteal)
    ensures StealGift(SecondOpen, C, 4) == Failure(NotAGift)
    ensures StealGift(SecondOpen, A, 2) == Failure(NotYourTurn)
  {
    assert SecondOpen.gifts[1 := Held(B, C, 1)] == Chained.gifts;
  }

  /** A steals #3 from B; B opens the last wrapped gift #1, the turn order
      is exhausted and the first player A is called back for last call on
      prompt 7. B could not open an opened gift. */
  lemma ToLastCall()
    ensures StealGift(Chained, A, 3) == Success(Revenge)
    ensures OpenGift(Revenge, B, 2, 7) == Failure(AlreadyOpened)
    ensures OpenGift(Revenge, B, 1, 7) == Success(Called)
  {
    assert Chained.gifts[2 := Held(C, A, 1)] == Revenge.gifts;
    assert Revenge.gifts[0 := Held(A, B, 2)] == Called.gifts;
  }

  /** At last call, A's steal of #2 passes every guard, and A holds #3. */
  lemma LastCallGuards()
    ensures StealGuard(Called, A, 2) == Success(1)
    ensures StealGuard(Ended, A, 2) == Success(1)
    ensures HeldIndex(Called.gifts, A) == Some(2)
  {
    assert ResolveIndex(2, 3) == Some(1);
    assert Called.gifts[2].holder == A;
  }

  /** At last call a steal of #2 swaps it with the gift A holds (#3) and
      ends the game, changing no status. */
  lemma LastCallSwap()
    ensures StealGift(Called, A, 2) == Success(Swapped)
  {
    LastCallGuards();
    var g := Called;
    var swapped := g.gifts[2 := g.gifts[2].(holder := g.gifts[1].holder)][1 := g.gifts[1].(holder := A)];
    assert swapped == Swapped.gifts;
  }

  /** A cross-mark from A on prompt 7 ends the game; one on another message,
      one from another user, or another emoji is ignored. */
  lemma LastCallReactions()
    ensures React(Called, EndEmoji, A, 7) == Ended
    ensures React(Called, EndEmoji, A, 8) == Called
    ensures React(Called, EndEmoji, B, 7) == Called
    ensures React(Called, "x", A, 7) == Called
  {
  }

  /** The end stage does not stop a normal steal: once A has ended the game
      by reaction, A can still steal #2 from C, and C takes the turn. */
  lemma StealAfterEnd()
    ensures StealGift(Ended, A, 2) == Success(StolenAfterEnd)
  {
    LastCallGuards();
    var g := Ended;
    var stolen := g.gifts[1 := g.gifts[1].(status := g.gifts[1].status - 1, holder := A)];
    assert stolen == StolenAfterEnd.gifts;
  }
}
