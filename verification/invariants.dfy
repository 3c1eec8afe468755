/** The invariant every reachable game keeps, and what follows from it:
    statuses stay in 0..3 and never rise, stages only move forward, at last
    call every gift is opened and the active player holds one of them (so
    the last-call swap always finds the stealer's gift). */
module Invariants {
  import opened Model
  import opened Indexing
  import opened Turns
  import opened Gifts
  import opened Engine
  import Sessions

  /** Before start: every gift is wrapped and held by its buyer. */
  predicate AllWrapped(gifts: seq<Gift>)
  {
    forall i :: 0 <= i < |gifts| ==> gifts[i].status == Wrapped && gifts[i].holder == gifts[i].buyer
  }

  /** Every gift has been opened. */
  predicate AllOpened(gifts: seq<Gift>)
  {
    forall i :: 0 <= i < |gifts| ==> gifts[i].status < Wrapped
  }

  /** The users holding an opened gift. */
  function OpenedHolders(gifts: seq<Gift>): set<User>
  {
    set i | 0 <= i < |gifts| && gifts[i].status < Wrapped :: gifts[i].holder
  }

  /** Nobody holds two opened gifts. */
  predicate HoldersDistinct(gifts: seq<Gift>)
  {
    forall i, j ::
      0 <= i < |gifts| && 0 <= j < |gifts| && i != j && gifts[i].status < Wrapped && gifts[j].status < Wrapped
      ==> gifts[i].holder != gifts[j].holder
  }

  /** The number of opened gifts. */
  function CountOpened(gifts: seq<Gift>): nat
  {
    if |gifts| == 0 then 0
    else (if gifts[0].status < Wrapped then 1 else 0) + CountOpened(gifts[1..])
  }

  /** The bookkeeping of a started game: one turn per gift, nobody twice in
      the turn order, its head the first player, and someone active. */
  predicate Started(g: Game)
  {
    && |g.turns| == |g.gifts| > 0
    && Distinct(g.turns)
    && g.first == Some(g.turns[0])
    && g.active.Some?
    && 1 <= g.cursor <= |g.turns|
  }

  /** The invariant of a reachable game. During play, the users who have
      taken a turn from the turn order are exactly the holders of opened
      gifts plus the active user, who holds none; every open consumed one
      turn. At last call all gifts are opened and the first player, active
      again, holds one. */
  predicate Valid(g: Game)
  {
    && StatusesInRange(g.gifts)
    && UniqueBuyers(g.gifts)
    && match g.stage
       case Prep =>
         g.turns == [] && g.cursor == 0 && g.first.None? && g.active.None? && AllWrapped(g.gifts)
       case Play =>
         && Started(g)
         && CountOpened(g.gifts) + 1 == g.cursor
         && HoldersDistinct(g.gifts)
         && g.active.value !in OpenedHolders(g.gifts)
         && OpenedHolders(g.gifts) + {g.active.value} == Elems(g.turns[..g.cursor])
       case Last =>
         && Started(g) && g.cursor == |g.turns| && AllOpened(g.gifts)
         && g.active == g.first && g.active.value in OpenedHolders(g.gifts)
       case End =>
         Started(g) && g.cursor == |g.turns| && AllOpened(g.gifts)
  }

  // ---------------------------------------------------------------------
  // Counting and holder bookkeeping under a single-gift update

  lemma {:induction false} CountOpenedUpdate(gifts: seq<Gift>, i: nat, x: Gift)
    requires i < |gifts|
    ensures CountOpened(gifts[i := x]) + (if gifts[i].status < Wrapped then 1 else 0)
         == CountOpened(gifts) + (if x.status < Wrapped then 1 else 0)
  {
    if i == 0 {
      assert gifts[i := x][1..] == gifts[1..];
    } else {
      assert gifts[i := x][1..] == gifts[1..][i - 1 := x];
      CountOpenedUpdate(gifts[1..], i - 1, x);
    }
  }

  lemma {:induction false} CountOpenedAll(gifts: seq<Gift>)
    ensures CountOpened(gifts) <= |gifts|
    ensures CountOpened(gifts) == |gifts| ==> AllOpened(gifts)
  {
    if |gifts| > 0 {
      CountOpenedAll(gifts[1..]);
      if CountOpened(gifts) == |gifts| {
        forall i | 0 <= i < |gifts| ensures gifts[i].status < Wrapped {
          if i > 0 {
            assert gifts[i] == gifts[1..][i - 1];
          }
        }
      }
    }
  }

  lemma {:induction false} CountOpenedNone(gifts: seq<Gift>)
    requires AllWrapped(gifts)
    ensures CountOpened(gifts) == 0
  {
    if |gifts| > 0 {
      assert AllWrapped(gifts[1..]) by {
        forall i | 0 <= i < |gifts| - 1 ensures gifts[1..][i] == gifts[i + 1] {}
      }
      CountOpenedNone(gifts[1..]);
    }
  }

  lemma OpenedHolderMember(gifts: seq<Gift>, k: nat)
    requires k < |gifts| && gifts[k].status < Wrapped
    ensures gifts[k].holder in OpenedHolders(gifts)
  {
  }

  /** Opening a wrapped gift adds its new holder to the opened holders. */
  lemma HoldersAfterOpen(gifts: seq<Gift>, i: nat, x: Gift)
    requires i < |gifts| && gifts[i].status >= Wrapped && x.status < Wrapped
    ensures OpenedHolders(gifts[i := x]) == OpenedHolders(gifts) + {x.holder}
  {
    var gifts' := gifts[i := x];
    forall u | u in OpenedHolders(gifts') ensures u in OpenedHolders(gifts) + {x.holder} {
      var k :| 0 <= k < |gifts'| && gifts'[k].status < Wrapped && gifts'[k].holder == u;
      if k != i {
        OpenedHolderMember(gifts, k);
      }
    }
    forall u | u in OpenedHolders(gifts) + {x.holder} ensures u in OpenedHolders(gifts') {
      if u == x.holder {
        OpenedHolderMember(gifts', i);
      } else {
        var k :| 0 <= k < |gifts| && gifts[k].status < Wrapped && gifts[k].holder == u;
        OpenedHolderMember(gifts', k);
      }
    }
  }

  /** Passing an opened gift to a new holder replaces its old holder among
      the opened holders. */
  lemma HoldersAfterSteal(gifts: seq<Gift>, i: nat, x: Gift)
    requires i < |gifts| && gifts[i].status < Wrapped && x.status < Wrapped
    requires HoldersDistinct(gifts)
    ensures OpenedHolders(gifts[i := x]) == OpenedHolders(gifts) - {gifts[i].holder} + {x.holder}
  {
    var gifts' := gifts[i := x];
    forall u | u in OpenedHolders(gifts')
      ensures u in OpenedHolders(gifts) - {gifts[i].holder} + {x.holder}
    {
      var k :| 0 <= k < |gifts'| && gifts'[k].status < Wrapped && gifts'[k].holder == u;
      if k != i {
        OpenedHolderMember(gifts, k);
      }
    }
    forall u | u in OpenedHolders(gifts) - {gifts[i].holder} + {x.holder}
      ensures u in OpenedHolders(gifts')
    {
      if u == x.holder {
        OpenedHolderMember(gifts', i);
      } else {
        var k :| 0 <= k < |gifts| && gifts[k].status < Wrapped && gifts[k].holder == u;
        OpenedHolderMember(gifts', k);
      }
    }
  }

  /** A gift handed to someone holding no opened gift keeps holders
      distinct. */
  lemma DistinctAfterMove(gifts: seq<Gift>, i: nat, x: Gift)
    requires i < |gifts|
    requires HoldersDistinct(gifts)
    requires x.holder !in OpenedHolders(gifts)
    ensures HoldersDistinct(gifts[i := x])
  {
    var gifts' := gifts[i := x];
    forall a, b | 0 <= a < |gifts'| && 0 <= b < |gifts'| && a != b &&
      gifts'[a].status < Wrapped && gifts'[b].status < Wrapped
      ensures gifts'[a].holder != gifts'[b].holder
    {
      if a == i {
        OpenedHolderMember(gifts, b);
      } else if b == i {
        OpenedHolderMember(gifts, a);
      }
    }
  }

  lemma ElemsPrefixExtend(s: seq<User>, c: nat)
    requires c < |s|
    ensures Elems(s[..c + 1]) == Elems(s[..c]) + {s[c]}
  {
    assert s[..c + 1] == s[..c] + [s[c]];
  }

  lemma DescendsKeepsBuyers(g: Game, h: Game)
    requires Descends(g, h)
    requires UniqueBuyers(g.gifts)
    ensures UniqueBuyers(h.gifts)
  {
    forall a, b | 0 <= a < |h.gifts| && 0 <= b < |h.gifts| && a != b
      ensures h.gifts[a].buyer != h.gifts[b].buyer
    {
      assert h.gifts[a].buyer == g.gifts[a].buyer && h.gifts[b].buyer == g.gifts[b].buyer;
    }
  }

  // ---------------------------------------------------------------------
  // Every command keeps the invariant

  /** A freshly created game is valid. */
  lemma NewGameValid()
    ensures Valid(NewGame())
  {
  }

  lemma AddPreservesValid(g: Game, user: User, box: string, desc: string, link: string)
    requires Valid(g)
    requires AddGift(g, user, box, desc, link).Success?
    ensures Valid(AddGift(g, user, box, desc, link).value)
  {
    AddKeepsOneGiftPerBuyer(g, user, box, desc, link);
    var h := AddGift(g, user, box, desc, link).value;
    if !HasGift(g.gifts, user) {
      assert forall i :: 0 <= i < |g.gifts| ==> h.gifts[i] == g.gifts[i];
    }
  }

  lemma RemovePreservesValid(g: Game, user: User)
    requires Valid(g)
    requires RemoveGift(g, user).Success?
    ensures Valid(RemoveGift(g, user).value)
  {
    RemoveDropsCallersGift(g, user);
    var h := RemoveGift(g, user).value;
    var i := GiftIndex(g.gifts, user).value;
    forall j | 0 <= j < |h.gifts| ensures h.gifts[j] == g.gifts[if j < i then j else j + 1] {}
  }

  /** Starting a valid game in preparation yields a valid game in play. */
  lemma StartEstablishesValid(g: Game, shuffled: seq<Gift>, order: seq<User>)
    requires Valid(g)
    requires multiset(shuffled) == multiset(g.gifts)
    requires multiset(order) == multiset(Buyers(shuffled))
    requires Start(g, shuffled, order).Success?
    ensures Valid(Start(g, shuffled, order).value)
  {
    var h := Start(g, shuffled, order).value;
    assert |multiset(shuffled)| == |multiset(g.gifts)|;
    forall k | 0 <= k < |shuffled| ensures shuffled[k] in g.gifts {
      assert shuffled[k] in multiset(shuffled);
    }
    assert AllWrapped(shuffled) && StatusesInRange(shuffled);
    assert Distinct(g.gifts);
    DistinctPermutation(shuffled, g.gifts);
    forall a, b | 0 <= a < |shuffled| && 0 <= b < |shuffled| && a != b
      ensures shuffled[a].buyer != shuffled[b].buyer
    {
      var a' :| 0 <= a' < |g.gifts| && g.gifts[a'] == shuffled[a];
      var b' :| 0 <= b' < |g.gifts| && g.gifts[b'] == shuffled[b];
      assert shuffled[a] != shuffled[b];
    }
    assert Distinct(Buyers(shuffled));
    DistinctPermutation(order, Buyers(shuffled));
    CountOpenedNone(shuffled);
    assert OpenedHolders(shuffled) == {};
    assert order[..1] == [order[0]];
  }

  /** A successful open keeps the invariant; it only ever succeeds in play. */
  lemma OpenPreservesValid(g: Game, user: User, number: int, prompt: MessageId)
    requires Valid(g)
    requires OpenGift(g, user, number, prompt).Success?
    ensures g.stage == Play
    ensures Valid(OpenGift(g, user, number, prompt).value)
  {
    var h := OpenGift(g, user, number, prompt).value;
    var i := ResolveIndex(number, |g.gifts|).value;
    assert g.active == Some(user) && g.gifts[i].status == Wrapped;
    var x := g.gifts[i].(status := 2, holder := user);
    assert h.gifts == g.gifts[i := x];
    CountOpenedUpdate(g.gifts, i, x);
    HoldersAfterOpen(g.gifts, i, x);
    DistinctAfterMove(g.gifts, i, x);
    if g.cursor < |g.turns| {
      ElemsPrefixExtend(g.turns, g.cursor);
      assert g.turns[g.cursor] !in Elems(g.turns[..g.cursor]);
    } else {
      CountOpenedAll(h.gifts);
      assert g.turns[0] in Elems(g.turns[..g.cursor]);
    }
  }

  /** A successful steal keeps the invariant; it never succeeds in
      preparation. */
  lemma StealPreservesValid(g: Game, user: User, number: int)
    requires Valid(g)
    requires StealGift(g, user, number).Success?
    ensures g.stage != Prep
    ensures Valid(StealGift(g, user, number).value)
  {
    var h := StealGift(g, user, number).value;
    var i := StealGuard(g, user, number).value;
    assert g.active == Some(user);
    DescendsKeepsBuyers(g, h);
    if g.stage == Last {
      var j :| 0 <= j < |g.gifts| && j != i && g.gifts[j].holder == user &&
        h.gifts[j] == g.gifts[j].(holder := g.gifts[i].holder) &&
        h.gifts[i] == g.gifts[i].(holder := user) &&
        (forall k :: 0 <= k < |g.gifts| && k != i && k != j ==> h.gifts[k] == g.gifts[k]);
      assert forall k :: 0 <= k < |g.gifts| ==> h.gifts[k].status == g.gifts[k].status;
    } else {
      var x := g.gifts[i].(status := g.gifts[i].status - 1, holder := user);
      assert h.gifts == g.gifts[i := x];
      if g.stage == Play {
        CountOpenedUpdate(g.gifts, i, x);
        HoldersAfterSteal(g.gifts, i, x);
        DistinctAfterMove(g.gifts, i, x);
        OpenedHolderMember(g.gifts, i);
      }
    }
  }

  /** A reaction keeps the invariant. */
  lemma ReactPreservesValid(g: Game, emoji: Emoji, user: User, message: MessageId)
    requires Valid(g)
    ensures Valid(React(g, emoji, user, message))
  {
  }

  // ---------------------------------------------------------------------
  // Consequences

  /** At last call the active player holds a gift. */
  lemma LastCallStealerHoldsGift(g: Game)
    requires Valid(g)
    requires g.stage == Last
    ensures exists j :: 0 <= j < |g.gifts| && g.gifts[j].holder == g.active.value
  {
    var u := g.active.value;
    assert u in OpenedHolders(g.gifts);
    var j :| 0 <= j < |g.gifts| && g.gifts[j].status < Wrapped && g.gifts[j].holder == u;
  }

  /** On a valid game the last-call swap never lacks the stealer's gift:
      the program's `None` case cannot arise. */
  lemma SwapAlwaysFindsGift(g: Game, user: User, number: int)
    requires Valid(g)
    ensures StealGift(g, user, number) != Failure(NoHeldGift)
  {
    if StealGuard(g, user, number).Success? && g.stage == Last {
      assert g.active == Some(user);
      LastCallStealerHoldsGift(g);
    }
  }

  /** At last call and after, no gift can be opened. */
  lemma NoOpeningAfterPlay(g: Game, user: User, number: int, prompt: MessageId)
    requires Valid(g)
    requires g.stage == Last || g.stage == End
    ensures OpenGift(g, user, number, prompt).Failure?
  {
    if OpenGift(g, user, number, prompt).Success? {
      OpenPreservesValid(g, user, number, prompt);
    }
  }

  /** The registry invariant: every channel's game is valid. */
  predicate AllValid(reg: Sessions.Registry)
  {
    forall c :: c in reg ==> Valid(reg[c])
  }

  lemma CreateDeletePreserveValid(reg: Sessions.Registry, ch: ChannelId)
    requires AllValid(reg)
    ensures Sessions.CreateGame(reg, ch).Success? ==> AllValid(Sessions.CreateGame(reg, ch).value)
    ensures Sessions.DeleteGame(reg, ch).Success? ==> AllValid(Sessions.DeleteGame(reg, ch).value)
  {
    NewGameValid();
  }

  /** Every successful command keeps every game valid, never moves a game
      back to an earlier stage, and once a game has started never raises a
      status, moves a gift or changes a buyer or the turn order. */
  lemma ApplyPreservesValid(reg: Sessions.Registry, ch: ChannelId, cmd: Sessions.Command)
    requires AllValid(reg)
    requires Sessions.ShufflesFit(reg, ch, cmd)
    requires Sessions.Apply(reg, ch, cmd).Success?
    ensures AllValid(Sessions.Apply(reg, ch, cmd).value)
    ensures ch in reg ==> Sessions.Apply(reg, ch, cmd).value[ch].stage.Rank() >= reg[ch].stage.Rank()
    ensures ch in reg && reg[ch].stage != Prep ==> Descends(reg[ch], Sessions.Apply(reg, ch, cmd).value[ch])
  {
    var reg' := Sessions.Apply(reg, ch, cmd).value;
    if ch in reg {
      var g := reg[ch];
      match cmd
      case Start(s, o) => StartEstablishesValid(g, s, o);
      case Add(u, b, d, l) => AddPreservesValid(g, u, b, d, l);
      case Remove(u) => RemovePreservesValid(g, u);
      case Open(u, n, m) => OpenPreservesValid(g, u, n, m);
      case Steal(u, n) => StealPreservesValid(g, u, n);
      case Inspect(n) =>
      case React(e, u, m) => ReactPreservesValid(g, e, u, m);
    }
  }
}
