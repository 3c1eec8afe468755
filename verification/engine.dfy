/** The game rules of blurple-elephant/commands.py: `/game start`,
    `/gift open`, `/gift steal` (with its last-call swap), the guard of
    `/gift inspect` and the cross-mark reaction that ends the game. Each
    handler checks its guards in the program's order and either refuses
    with the first failing guard, changing nothing, or applies its small
    mutation. */
module Engine {
  import opened Model
  import opened Indexing
  import opened Turns

  /** `h` follows from `g` by moves on the gifts alone: the same gifts in the
      same places with the same buyers, no status raised, and the same
      turn order and first player. */
  predicate Descends(g: Game, h: Game)
  {
    && |h.gifts| == |g.gifts|
    && (forall i :: 0 <= i < |g.gifts| ==>
          && h.gifts[i].buyer == g.gifts[i].buyer
          && h.gifts[i].status <= g.gifts[i].status
          && h.gifts[i].boxDescription == g.gifts[i].boxDescription
          && h.gifts[i].giftDescription == g.gifts[i].giftDescription
          && h.gifts[i].imageLink == g.gifts[i].imageLink)
    && h.turns == g.turns
    && h.first == g.first
  }

  /** `game_start`. The two shuffles are supplied by the caller: `shuffled`
      is a rearrangement of the gifts and `order` one of the shuffled gifts'
      buyers. A started game is refused; an empty turn order (no gifts)
      is refused; otherwise the first user is taken from the turn order
      and becomes both first and active player, and play begins. */
  function Start(g: Game, shuffled: seq<Gift>, order: seq<User>): (r: Result<Game>)
    requires multiset(shuffled) == multiset(g.gifts)
    requires multiset(order) == multiset(Buyers(shuffled))
    ensures g.stage != Prep <==> r == Failure(AlreadyStarted)
    ensures g.stage == Prep && |g.gifts| == 0 <==> r == Failure(NoPlayers)
    ensures r.Failure? ==> r.error in {AlreadyStarted, NoPlayers}
    ensures r.Success? ==>
      && r.value.stage == Play
      && r.value.gifts == shuffled
      && r.value.turns == order
      && multiset(r.value.gifts) == multiset(g.gifts)
      && multiset(r.value.turns) == multiset(Buyers(r.value.gifts))
      && |r.value.turns| == |g.gifts| > 0
      && r.value.first == Some(r.value.turns[0])
      && r.value.active == r.value.first
      && r.value.cursor == 1
      && r.value.lastMessage == g.lastMessage
  {
    assert |order| == |Buyers(shuffled)| == |shuffled| == |g.gifts| by {
      assert |multiset(order)| == |multiset(Buyers(shuffled))|;
      assert |multiset(shuffled)| == |multiset(g.gifts)|;
    }
    if g.stage != Prep then Failure(AlreadyStarted)
    else match Advance(order, 0)
      case Exhausted => Failure(NoPlayers)
      case Next(u, c) =>
        Success(g.(gifts := shuffled, turns := order, cursor := c,
                   first := Some(u), active := Some(u), stage := Play))
  }

  /** `gift_open`. Guards, in order: the number addresses a gift, it is the
      caller's turn, the gift is wrapped, the caller did not bring it. The
      gift then passes to the caller with status 2, and the next user of the
      turn order becomes active; when the turn order is exhausted the first
      player becomes active again, the game moves to last call and the
      prompt message posted for it is recorded. The stage itself is not
      checked: before start no user is active. */
  function OpenGift(g: Game, user: User, number: int, prompt: MessageId): (r: Result<Game>)
    ensures var k := ResolveIndex(number, |g.gifts|);
      && (k.None? <==> r == Failure(NotAGift))
      && (r == Failure(NotYourTurn) <==> k.Some? && g.active != Some(user))
      && (r == Failure(AlreadyOpened) <==>
            k.Some? && g.active == Some(user) && g.gifts[k.value].status != Wrapped)
      && (r == Failure(OwnGiftOpen) <==>
            k.Some? && g.active == Some(user) && g.gifts[k.value].status == Wrapped &&
            g.gifts[k.value].buyer == user)
    ensures r.Failure? ==> r.error in {NotAGift, NotYourTurn, AlreadyOpened, OwnGiftOpen}
    ensures r.Success? ==>
      var i := ResolveIndex(number, |g.gifts|).value;
      var h := r.value;
      && Descends(g, h)
      && h.gifts[i] == g.gifts[i].(status := 2, holder := user)
      && (forall j :: 0 <= j < |g.gifts| && j != i ==> h.gifts[j] == g.gifts[j])
      && (g.cursor < |g.turns| ==>
            h == g.(gifts := h.gifts, active := Some(g.turns[g.cursor]), cursor := g.cursor + 1))
      && (g.cursor >= |g.turns| ==>
            h == g.(gifts := h.gifts, active := g.first, stage := Last, lastMessage := Some(prompt)))
  {
    match ResolveIndex(number, |g.gifts|)
    case None => Failure(NotAGift)
    case Some(i) =>
      var gift := g.gifts[i];
      if g.active != Some(user) then Failure(NotYourTurn)
      else if gift.status != Wrapped then Failure(AlreadyOpened)
      else if user == gift.buyer then Failure(OwnGiftOpen)
      else
        var unwrapped := g.(gifts := g.gifts[i := gift.(status := gift.status - 1, holder := user)]);
        match Advance(g.turns, g.cursor)
        case Next(u, c) => Success(unwrapped.(active := Some(u), cursor := c))
        case Exhausted => Success(unwrapped.(active := g.first, stage := Last, lastMessage := Some(prompt)))
  }

  /** The guards `gift_steal` shares by both of its branches, in order:
      the number addresses a gift, it is the caller's turn, the gift is
      opened, it is not locked, the caller does not hold it, the caller did
      not bring it. */
  function StealGuard(g: Game, user: User, number: int): (r: Result<nat>)
    ensures var k := ResolveIndex(number, |g.gifts|);
      && (k.None? <==> r == Failure(NotAGift))
      && (r == Failure(NotYourTurn) <==> k.Some? && g.active != Some(user))
      && (r == Failure(NotOpened) <==>
            k.Some? && g.active == Some(user) && g.gifts[k.value].status == Wrapped)
      && (r == Failure(Locked) <==>
            k.Some? && g.active == Some(user) && g.gifts[k.value].status == 0)
      && (r == Failure(StealFromSelf) <==>
            k.Some? && g.active == Some(user) && g.gifts[k.value].status !in {0, Wrapped} &&
            g.gifts[k.value].holder == user)
      && (r == Failure(OwnGiftSteal) <==>
            k.Some? && g.active == Some(user) && g.gifts[k.value].status !in {0, Wrapped} &&
            g.gifts[k.value].holder != user && g.gifts[k.value].buyer == user)
      && (r.Success? ==> k == Some(r.value))
    ensures r.Failure? ==> r.error in {NotAGift, NotYourTurn, NotOpened, Locked, StealFromSelf, OwnGiftSteal}
  {
    match ResolveIndex(number, |g.gifts|)
    case None => Failure(NotAGift)
    case Some(i) =>
      var gift := g.gifts[i];
      if g.active != Some(user) then Failure(NotYourTurn)
      else if gift.status == Wrapped then Failure(NotOpened)
      else if gift.status == 0 then Failure(Locked)
      else if user == gift.holder then Failure(StealFromSelf)
      else if user == gift.buyer then Failure(OwnGiftSteal)
      else Success(i)
  }

  /** The position of the first gift `user` holds (`discord.utils.find`
      on the holder), present exactly when `user` holds some gift. */
  function HeldIndex(gifts: seq<Gift>, user: User): (r: Option<nat>)
    ensures r.Some? <==> exists j :: 0 <= j < |gifts| && gifts[j].holder == user
    ensures r.Some? ==> r.value < |gifts| && gifts[r.value].holder == user
    ensures r.Some? ==> forall j :: 0 <= j < r.value ==> gifts[j].holder != user
  {
    FindFirst(gifts, (x: Gift) => x.holder == user)
  }

  /** `gift_steal`. After the guards, at last call the caller's first held
      gift and the target swap holders and the game ends; no status
      changes. (A caller holding no gift is refused here; the program would
      fail on `None`.) In every other stage, the end included, it is a
      normal steal: the target loses one steal, the caller becomes its
      holder and the previous holder becomes the active user. */
  function StealGift(g: Game, user: User, number: int): (r: Result<Game>)
    ensures StealGuard(g, user, number).Failure? ==> r == Failure(StealGuard(g, user, number).error)
    ensures StealGuard(g, user, number).Success? ==>
      (r == Failure(NoHeldGift) <==>
         g.stage == Last && forall j :: 0 <= j < |g.gifts| ==> g.gifts[j].holder != user)
    ensures StealGuard(g, user, number).Success? && r.Failure? ==> r.error == NoHeldGift
    ensures r.Success? ==> StealGuard(g, user, number).Success? && Descends(g, r.value)
    ensures r.Success? && g.stage != Last ==>
      var i := StealGuard(g, user, number).value;
      var h := r.value;
      && h == g.(gifts := h.gifts, active := Some(g.gifts[i].holder))
      && h.gifts[i] == g.gifts[i].(status := g.gifts[i].status - 1, holder := user)
      && (forall j :: 0 <= j < |g.gifts| && j != i ==> h.gifts[j] == g.gifts[j])
    ensures r.Success? && g.stage == Last ==>
      var i := StealGuard(g, user, number).value;
      var h := r.value;
      && h == g.(gifts := h.gifts, stage := End)
      && exists j :: 0 <= j < |g.gifts| && j != i && g.gifts[j].holder == user &&
           (forall k :: 0 <= k < j ==> g.gifts[k].holder != user) &&
           h.gifts[j] == g.gifts[j].(holder := g.gifts[i].holder) &&
           h.gifts[i] == g.gifts[i].(holder := user) &&
           (forall k :: 0 <= k < |g.gifts| && k != i && k != j ==> h.gifts[k] == g.gifts[k])
  {
    match StealGuard(g, user, number)
    case Failure(e) => Failure(e)
    case Success(i) =>
      var gift := g.gifts[i];
      if g.stage == Last then
        match HeldIndex(g.gifts, user)
        case None => Failure(NoHeldGift)
        case Some(j) =>
          var swapped := g.gifts[j := g.gifts[j].(holder := gift.holder)][i := gift.(holder := user)];
          assert swapped[j] == g.gifts[j].(holder := gift.holder) && swapped[i] == gift.(holder := user);
          Success(g.(gifts := swapped, stage := End))
      else
        Success(g.(gifts := g.gifts[i := gift.(status := gift.status - 1, holder := user)],
                   active := Some(gift.holder)))
  }

  /** The guard of `gift_inspect`: the number addresses a gift and the
      gift is opened; the inspected gift is returned. */
  function InspectGift(g: Game, number: int): (r: Result<Gift>)
    ensures var k := ResolveIndex(number, |g.gifts|);
      && (k.None? <==> r == Failure(NotAGift))
      && (r == Failure(NotOpened) <==> k.Some? && g.gifts[k.value].status == Wrapped)
      && (r.Success? ==> k.Some? && r.value == g.gifts[k.value] && r.value.status != Wrapped)
    ensures r.Failure? ==> r.error in {NotAGift, NotOpened}
  {
    match ResolveIndex(number, |g.gifts|)
    case None => Failure(NotAGift)
    case Some(i) => if g.gifts[i].status == Wrapped then Failure(NotOpened) else Success(g.gifts[i])
  }

  /** The conditions under which a reaction ends the game: the cross-mark
      emoji, at last call, by the active user, on the last-call prompt. */
  predicate EndsGame(g: Game, emoji: Emoji, user: User, message: MessageId)
  {
    && emoji == EndEmoji
    && g.stage == Last
    && g.active == Some(user)
    && g.lastMessage == Some(message)
  }

  /** `on_reaction_add` on a channel that has a game: the game ends exactly
      when the reaction meets all four conditions; any other reaction is
      ignored. Only the stage can change. */
  function React(g: Game, emoji: Emoji, user: User, message: MessageId): (h: Game)
    ensures h == g.(stage := h.stage)
    ensures h.stage != g.stage <==> EndsGame(g, emoji, user, message)
    ensures h.stage != g.stage ==> h.stage == End
  {
    if EndsGame(g, emoji, user, message) then g.(stage := End) else g
  }
}
