# White Elephant rule engine in Dafny

A model of the rules of the "blurple elephant" Discord bot, which runs
White Elephant gift-exchange games, one per channel. Players register one
wrapped gift each during preparation. Once the game starts, each player in a
shuffled turn order either opens a wrapped gift or steals an opened one. A
gift can be stolen until it locks: its status goes 3 (wrapped) → 2 → 1 → 0.
When the turn order runs out, the first player gets a last call: one final
swap, or a ❌ reaction on the prompt, ends the game.

The model is functional. A game is an immutable `Game` value and the
channel registry an immutable map. Each slash command is a pure function
returning a `Result`:
- `/gift add`, `/gift remove`, `/game start`, `/gift open` and `/gift steal`
  map a game to `Result<Game>`;
- `/game create` and `/game delete` map the registry to `Result<Registry>`;
- the guard of `/gift inspect` yields `Result<Gift>`, the gift to show.

A result is either `Failure(reason)` for the first guard that fails, in the
handler's order, or `Success(...)`, so a refusal never changes anything. The
❌ reaction is an event, not a command: it never refuses, and maps a game
to a game (`Engine.React`). `Sessions.Apply` sends any of these to the
game of one channel.

Modules, one per file:

- `Model` (model.dfy): users, the `Stage` enumeration, the `Gift` and `Game`
  records, the error reasons, and the fresh game.
- `Indexing` (indexing.dfy): Python's `list[number - 1]`, including negative
  indices, and `discord.utils.find`.
- `Turns` (turns.dfy): the turn iterator, modelled as a sequence plus a cursor.
- `Gifts` (gifts.dfy): `/gift add` and `/gift remove` during preparation.
- `Engine` (engine.dfy): covers
  - `/game start`, `/gift open` and `/gift steal`, including the last-call swap;
  - the guard of `/gift inspect`;
  - the ❌ reaction.
- `Sessions` (sessions.dfy): the channel → game registry, `/game create`,
  `/game delete`, and dispatch of a command to the channel's game.
- `Views` (views.dfy): covers
  - the gift description line and the gift card;
  - the game board, as abstract values: which marker, which text, whose
    name, whether an image.
- `Invariants` (invariants.dfy): the invariant of every reachable game and
  its preservation by every command. Its consequences:
  - statuses stay in 0..3 and never rise;
  - stages only move forward;
  - at last call every gift is opened and the stealer holds one.
- `Scenarios` (scenarios.dfy): a three-player game, step by step, with every
  intermediate state written out.

Behaviour of the code that a reader might not expect, modelled as written:

- A gift number is resolved the way Python indexes a list. Numbers
  `1 - len .. 0` address gifts from the end, so only `number > len` or
  `number < 1 - len` is "not a gift".
- Neither `/gift open` nor `/gift steal` checks the stage.
  - Before start nobody is active, so both are refused: as "not a gift"
    when the number addresses no gift (in a game without gifts, every
    number), and as "not your turn" otherwise.
  - After the game has ended, the active user is still set. The last-call
    branch is taken only at stage `last`, so a normal steal still succeeds
    in stage `end` (`Scenarios.StealAfterEnd`). The end stage is therefore
    not terminal for stealing, although the program announces "The game is
    now over!" when it enters that stage (blurple-elephant/commands.py:342
    and :424).
- At last call the program swaps with the first gift the stealer holds.
  - If the stealer held none, the program would fail on `None`. The model
    refuses with `NoHeldGift`.
  - `Invariants.SwapAlwaysFindsGift` proves this refusal cannot happen in a
    reachable game.

The two shuffles of `/game start`, and the id of the prompt message posted at
last call, are parameters supplied by the caller. Each shuffle is
constrained to be a rearrangement (multiset equality).

## Model

| member | source | states |
|---|---|---|
| `Indexing.ResolveIndex` | blurple-elephant/commands.py:240-246 | `gifts[number - 1]` succeeds exactly for `1 - len <= number <= len`; a positive number addresses gift `number - 1`, a non-positive one counts back from the end |
| `Indexing.ResolveIndexAliases` | blurple-elephant/commands.py:302-308 | gift `k` is addressed by exactly two numbers, `k + 1` and `k + 1 - len`, and by no other |
| `Indexing.FindFirst` | blurple-elephant/commands.py:166-168 | `discord.utils.find` returns the first position satisfying the predicate, and none exactly when no gift satisfies it |
| `Turns.Advance` | blurple-elephant/commands.py:275-278 | `next(turns)` yields the user at the cursor and moves past it, and raises StopIteration exactly when the order is exhausted |
| `Turns.DrainYieldsRest` | blurple-elephant/commands.py:87-90 | repeatedly drawing from the iterator at a cursor yields exactly the rest of the turn order, in order |
| `Turns.EveryPlayerOneTurn` | blurple-elephant/commands.py:86-90 | the head consumed at start followed by every later draw is the whole shuffled order, after which the iterator stays exhausted |
| `Gifts.AddGift` | blurple-elephant/commands.py:160-190 | refused exactly outside preparation; a newcomer's wrapped gift (buyer = holder = caller, status 3) is appended; otherwise the caller's first gift, and no other, gets new descriptions and link while the list length and every buyer, holder and status stay |
| `Gifts.GiftIndex` | blurple-elephant/commands.py:211-213 | the caller's gift is found exactly when the caller brought one, and it is the first such gift |
| `Gifts.RemoveGift` | blurple-elephant/commands.py:205-223 | refused outside preparation and for a caller without a gift; otherwise the caller's gift is dropped and the others keep their order |
| `Gifts.AddKeepsOneGiftPerBuyer` | blurple-elephant/commands.py:166-176 | adding never creates a second gift for a buyer, and the caller then has a gift |
| `Gifts.AddTwiceEditsInPlace` | blurple-elephant/commands.py:166-185 | in any preparation-stage game, two adds by the same user equal one add with the second call's fields: the second call edits in place whether the first one appended or edited |
| `Gifts.RemoveDropsCallersGift` | blurple-elephant/commands.py:215-220 | after a removal the caller has no gift left and buyers stay unique |
| `Gifts.RemoveUndoesAdd` | blurple-elephant/commands.py:170-176 | removing a newcomer's just-added gift restores the game exactly |
| `Engine.Start` | blurple-elephant/commands.py:77-107 | refused exactly once started (already started) and on an empty game (no players), for no other reason; otherwise the gifts are the supplied shuffle of the old ones and the turn order the supplied shuffle of their buyers, the head of the order is both first and active player, and play begins |
| `Engine.OpenGift` | blurple-elephant/commands.py:240-281 | guards in the order index, turn, wrapped, not own gift, each failing exactly under its condition, and no other refusal; then only the target changes (status 2, caller holds it) and the next user becomes active, or, when the order is exhausted, the first player returns, the stage becomes last and the prompt is recorded |
| `Engine.StealGuard` | blurple-elephant/commands.py:302-338 | guards in the order index, turn, opened, not locked, not the holder, not the buyer, each failing exactly under its condition; when all pass, the addressed gift is selected |
| `Engine.HeldIndex` | blurple-elephant/commands.py:345 | the stealer's gift found at last call is the first one the stealer holds, present exactly when the stealer holds any |
| `Engine.StealGift` | blurple-elephant/commands.py:302-368 | fails exactly as its guards do and, past them, only at last call for a stealer holding no gift; a normal steal lowers the target's status by one, makes the stealer its holder and the robbed holder active, and touches nothing else; at last call the target and the stealer's first held gift swap holders, no status changes, and the stage becomes end |
| `Engine.InspectGift` | blurple-elephant/commands.py:385-397 | inspection is refused for a number that addresses no gift and for a wrapped gift, and otherwise hands out exactly the addressed opened gift |
| `Engine.React` | blurple-elephant/commands.py:417-427 | the game ends exactly when the emoji is ❌, the stage is last, the reactor is the active user and the message is the last-call prompt; otherwise nothing changes, and only the stage ever changes |
| `Sessions.CreateGame` | blurple-elephant/commands.py:26-32 | refused exactly when the channel has a game; otherwise it succeeds: the channel gets a fresh preparation-stage game (no gifts, no turn order, cursor 0, nobody first or active, no prompt) and no other channel's game changes |
| `Sessions.DeleteGame` | blurple-elephant/commands.py:120-128 | "no game" exactly when the channel has none; otherwise it succeeds and only that channel's game goes |
| `Sessions.DeleteUndoesCreate` | blurple-elephant/commands.py:118-128 | deleting a just-created game restores the registry, and the channel can be given a new game again |
| `Sessions.Apply` | blurple-elephant/commands.py:232-238 | every command on a channel without a game is refused, except a reaction, which is ignored; on a channel with a game the command's own outcome is passed through: its refusal with the same reason, or the registry with only that channel's game replaced by the rule's result |
| `Invariants.NewGameValid` | blurple-elephant/game.py:67-73 | a fresh game (preparation, no gifts, no turn order, nobody first or active, no prompt) satisfies the game invariant |
| `Invariants.AddPreservesValid` | blurple-elephant/commands.py:160-190 | adding or editing a gift keeps the game invariant: all wrapped, one gift per buyer |
| `Invariants.RemovePreservesValid` | blurple-elephant/commands.py:205-223 | removing a gift keeps the game invariant |
| `Invariants.StartEstablishesValid` | blurple-elephant/commands.py:83-107 | a started game has one turn per gift, nobody twice in the order, the first player active and no gift opened |
| `Invariants.OpenPreservesValid` | blurple-elephant/commands.py:254-281 | an open only succeeds during play, keeps statuses in 0..3 and keeps the holder bookkeeping that makes every gift opened and the first player a holder at last call |
| `Invariants.StealPreservesValid` | blurple-elephant/commands.py:340-368 | a steal never succeeds before start and keeps the game invariant, at last call and after |
| `Invariants.ReactPreservesValid` | blurple-elephant/commands.py:417-427 | ending the game by reaction keeps the game invariant |
| `Invariants.LastCallStealerHoldsGift` | blurple-elephant/commands.py:275-281 | at last call the player called back holds a gift |
| `Invariants.SwapAlwaysFindsGift` | blurple-elephant/commands.py:344-346 | in a reachable game the last-call swap always finds a gift held by the stealer |
| `Invariants.NoOpeningAfterPlay` | blurple-elephant/commands.py:254-258 | at last call and after, no gift can be opened, since none is wrapped |
| `Invariants.CreateDeletePreserveValid` | blurple-elephant/commands.py:24-128 | creating or deleting a game keeps every channel's game valid |
| `Invariants.ApplyPreservesValid` | blurple-elephant/commands.py:67-427 | every command keeps every game valid; the stage's enumeration value never decreases; once started, buyers, descriptions, turn order and first player never change and no status rises |
| `Views.Describe` | blurple-elephant/game.py:28-38 | statuses 0, 1 and 2 reveal the gift behind a lock, one or two marker; every other status shows only the box |
| `Views.MarkerEncodesStatus` | blurple-elephant/game.py:30-38 | on statuses 0..3 the marker determines the status |
| `Views.GiftCard` | blurple-elephant/game.py:40-62 | the card's body is the gift description; the footer names the holder exactly for statuses 0..2 and shows the box otherwise; an image is attached exactly when the link is non-empty |
| `Views.Board` | blurple-elephant/game.py:75-88 | one line per gift in list order, numbered from 1, with the gift's description; the holder is shown exactly for status below 3 |
| `Views.BoardNumbersAddressGifts` | blurple-elephant/game.py:82-83 | the number the board shows for a gift is one that the open, steal and inspect commands resolve to that gift |
| `Views.BoardHolderIffRevealed` | blurple-elephant/game.py:82-86 | with statuses in 0..3, the board names a holder exactly for the gifts whose contents it reveals |
| `Views.InspectRevealsOnlyOpened` | blurple-elephant/commands.py:393-402 | inspection only hands out a card for a gift the board already reveals |
| `Model.Stage.Rank` | blurple-elephant/game.py:10-15 | prep, play, last and end carry the enumeration values 0, 1, 2 and 3, one each, so the order of the stages is the order of their values |
| `Model.DistinctIffSingleCounts` | blurple-elephant/commands.py:85-87 | a turn order has nobody twice exactly when every user occurs in its multiset at most once, which is what carries uniqueness of buyers across the shuffle |

## Left out

- blurple-elephant/bot.py: the bot class only creates the `games`
  dictionary and loads extensions. It has no rules.
- Discord I/O is not modelled: message texts, ephemeral flags, embed
  colours, mentions and the pauses (`asyncio.sleep`). Handlers are assumed
  to run one at a time, with no interleaving at their `await` points. A
  normal steal, for instance, mutates only after its messages are sent.
- `random.shuffle`: both shuffles of `/game start` are inputs, constrained to
  be permutations.
- The last-call prompt message is an input id (`MessageId`); posting it is
  not modelled.
- `/game list` is left out: it changes nothing and only renders one
  numbered line per gift, with the buyer's mention and the gift's
  description line.
- `/gift inspect` is modelled only up to its guard; the rendering is left out.
- The views are abstract. Markers, texts, holders and the image choice are
  modelled; the strings, emoji and formatting are not.
- `Engine.StealGift`: the program crashes on `None` when a last-call
  stealer holds no gift. The model instead refuses with `NoHeldGift`, and
  `Invariants.SwapAlwaysFindsGift` proves the case unreachable.
- `Engine.Start`: on an empty game the program has already replaced the turn
  iterator with an empty one before refusing. The model returns a refusal
  with no new state. This is the same state, since a preparation-stage game
  has an empty turn order.
- A failed `next()` on an exhausted iterator keeps it exhausted. The model's
  cursor stays at the end of the order, which does the same
  (`Turns.EveryPlayerOneTurn`).
- Users, channels and messages are natural-number ids, compared only for
  equality. `None` is `Option.None`.
