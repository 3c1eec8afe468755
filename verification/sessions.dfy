/** The session registry: one game per channel (the bot's `games`
    dictionary), `/game create`, `/game delete`, and the dispatch of every
    other command to the channel's game (blurple-elephant/commands.py). */
module Sessions {
  import opened Model
  import Gifts
  import Engine

  type Registry = map<ChannelId, Game>

  /** `game_create`: refused when the channel already has a game;
      otherwise the channel gets a fresh game and no other channel's game
      changes. */
  function CreateGame(reg: Registry, ch: ChannelId): (r: Result<Registry>)
    ensures ch in reg <==> r == Failure(GameExists)
    ensures ch !in reg ==> r.Success?
    ensures r.Success? ==>
      && r.value.Keys == reg.Keys + {ch}
      && r.value[ch].stage == Prep && r.value[ch].gifts == []
      && r.value[ch].turns == [] && r.value[ch].cursor == 0
      && r.value[ch].first.None? && r.value[ch].active.None?
      && r.value[ch].lastMessage.None?
      && forall c :: c in reg ==> r.value[c] == reg[c]
  {
    if ch in reg then Failure(GameExists) else Success(reg[ch := NewGame()])
  }

  /** `game_delete`: refused when the channel has no game; otherwise the
      channel's game is dropped and every other game is kept. */
  function DeleteGame(reg: Registry, ch: ChannelId): (r: Result<Registry>)
    ensures ch !in reg <==> r == Failure(NoGame)
    ensures ch in reg ==> r.Success?
    ensures r.Success? ==>
      && r.value.Keys == reg.Keys - {ch}
      && forall c :: c in r.value ==> r.value[c] == reg[c]
  {
    if ch !in reg then Failure(NoGame) else Success(reg - {ch})
  }

  /** Deleting a game just created in a free channel restores the registry,
      and a deleted channel can be given a fresh game again. */
  lemma DeleteUndoesCreate(reg: Registry, ch: ChannelId)
    requires ch !in reg
    ensures CreateGame(reg, ch).Success?
    ensures DeleteGame(CreateGame(reg, ch).value, ch) == Success(reg)
    ensures CreateGame(DeleteGame(CreateGame(reg, ch).value, ch).value, ch) == CreateGame(reg, ch)
  {
    assert CreateGame(reg, ch).value - {ch} == reg;
  }

  /** The commands addressed to a channel's game. The two shuffles of
      `/game start` and the prompt message posted at last call are supplied
      by the caller. */
  datatype Command =
    | Start(shuffled: seq<Gift>, order: seq<User>)
    | Add(user: User, box: string, desc: string, link: string)
    | Remove(user: User)
    | Open(user: User, number: int, prompt: MessageId)
    | Steal(user: User, number: int)
    | Inspect(number: int)
    | React(emoji: Emoji, user: User, message: MessageId)

  /** The supplied shuffles of a start command rearrange the channel's
      gifts and their buyers. */
  predicate ShufflesFit(reg: Registry, ch: ChannelId, cmd: Command)
  {
    cmd.Start? && ch in reg ==>
      && multiset(cmd.shuffled) == multiset(reg[ch].gifts)
      && multiset(cmd.order) == multiset(Buyers(cmd.shuffled))
  }

  /** `r` is the registry outcome of `step`, the outcome of a command on
      the game of `ch`: the command's refusal with the same reason, or the
      registry with that channel's game replaced. */
  predicate Mirrors(r: Result<Registry>, reg: Registry, ch: ChannelId, step: Result<Game>)
  {
    && (step.Failure? ==> r == Failure(step.error))
    && (step.Success? ==> r == Success(reg[ch := step.value]))
  }

  /** The game command applied to the channel's game. A channel without a
      game refuses every command except a reaction, which is ignored. Only
      the channel's own game can change. */
  function Apply(reg: Registry, ch: ChannelId, cmd: Command): (r: Result<Registry>)
    requires ShufflesFit(reg, ch, cmd)
    ensures ch !in reg && !cmd.React? ==> r == Failure(NoGame)
    ensures ch !in reg && cmd.React? ==> r == Success(reg)
    ensures r.Success? ==>
      && r.value.Keys == reg.Keys
      && forall c :: c in reg && c != ch ==> r.value[c] == reg[c]
    ensures r.Success? && ch in reg ==>
      var g := reg[ch];
      match cmd
      case Start(s, o) => Engine.Start(g, s, o) == Success(r.value[ch])
      case Add(u, b, d, l) => Gifts.AddGift(g, u, b, d, l) == Success(r.value[ch])
      case Remove(u) => Gifts.RemoveGift(g, u) == Success(r.value[ch])
      case Open(u, n, m) => Engine.OpenGift(g, u, n, m) == Success(r.value[ch])
      case Steal(u, n) => Engine.StealGift(g, u, n) == Success(r.value[ch])
      case Inspect(n) => Engine.InspectGift(g, n).Success? && r.value[ch] == g
      case React(e, u, m) => Engine.React(g, e, u, m) == r.value[ch]
    ensures ch in reg ==>
      var g := reg[ch];
      match cmd
      case Start(s, o) => Mirrors(r, reg, ch, Engine.Start(g, s, o))
      case Add(u, b, d, l) => Mirrors(r, reg, ch, Gifts.AddGift(g, u, b, d, l))
      case Remove(u) => Mirrors(r, reg, ch, Gifts.RemoveGift(g, u))
      case Open(u, n, m) => Mirrors(r, reg, ch, Engine.OpenGift(g, u, n, m))
      case Steal(u, n) => Mirrors(r, reg, ch, Engine.StealGift(g, u, n))
      case Inspect(n) =>
        && (Engine.InspectGift(g, n).Failure? ==> r == Failure(Engine.InspectGift(g, n).error))
        && (Engine.InspectGift(g, n).Success? ==> r == Success(reg))
      case React(e, u, m) => r == Success(reg[ch := Engine.React(g, e, u, m)])
  {
    if ch !in reg then
      if cmd.React? then Success(reg) else Failure(NoGame)
    else
      var g := reg[ch];
      var next: Result<Game> :=
        match cmd
        case Start(s, o) => Engine.Start(g, s, o)
        case Add(u, b, d, l) => Gifts.AddGift(g, u, b, d, l)
        case Remove(u) => Gifts.RemoveGift(g, u)
        case Open(u, n, m) => Engine.OpenGift(g, u, n, m)
        case Steal(u, n) => Engine.StealGift(g, u, n)
        case Inspect(n) =>
          (match Engine.InspectGift(g, n)
           case Failure(e) => Failure(e)
           case Success(_) => Success(g))
        case React(e, u, m) => Success(Engine.React(g, e, u, m));
      match next
      case Failure(e) => Failure(e)
      case Success(g') =>
        assert cmd.Inspect? ==> reg[ch := g'] == reg;
        Success(reg[ch := g'])
  }
}
