/** The gift registry of a game in preparation: `/gift add` and
    `/gift remove` (blurple-elephant/commands.py). */
module Gifts {
  import opened Model
  import opened Indexing

  /** `gift_add`: outside preparation the game has already started;
      otherwise the caller's first gift has its three descriptive fields
      rewritten, or, when the caller has none, a new wrapped gift bought
      and held by the caller is appended. */
  function AddGift(g: Game, user: User, box: string, desc: string, link: string): (r: Result<Game>)
    ensures r.Failure? <==> g.stage != Prep
    ensures r.Failure? ==> r.error == AlreadyStarted
    ensures r.Success? ==> r.value == g.(gifts := r.value.gifts)
    ensures r.Success? && !HasGift(g.gifts, user) ==>
      r.value.gifts == g.gifts + [Gift(user, user, box, desc, link, Wrapped)]
    ensures r.Success? && HasGift(g.gifts, user) ==>
      && |r.value.gifts| == |g.gifts|
      && (forall i :: 0 <= i < |g.gifts| ==>
            && r.value.gifts[i].buyer == g.gifts[i].buyer
            && r.value.gifts[i].holder == g.gifts[i].holder
            && r.value.gifts[i].status == g.gifts[i].status
            && (r.value.gifts[i] == g.gifts[i] || g.gifts[i].buyer == user))
      && (exists i :: 0 <= i < |g.gifts| && g.gifts[i].buyer == user &&
            r.value.gifts[i] == g.gifts[i].(boxDescription := box, giftDescription := desc, imageLink := link))
    ensures r.Success? && HasGift(g.gifts, user) ==>
      var i := GiftIndex(g.gifts, user).value;
      && r.value.gifts[i] == g.gifts[i].(boxDescription := box, giftDescription := desc, imageLink := link)
      && (forall j :: 0 <= j < |g.gifts| && j != i ==> r.value.gifts[j] == g.gifts[j])
  {
    if g.stage != Prep then Failure(AlreadyStarted)
    else match GiftIndex(g.gifts, user)
      case None =>
        Success(g.(gifts := g.gifts + [Gift(user, user, box, desc, link, Wrapped)]))
      case Some(i) =>
        var updated := g.gifts[i].(boxDescription := box, giftDescription := desc, imageLink := link);
        assert g.gifts[i := updated][i] == updated;
        Success(g.(gifts := g.gifts[i := updated]))
  }

  /** The position of the caller's first gift (`discord.utils.find` on the
      buyer), present exactly when the caller has brought a gift. */
  function GiftIndex(gifts: seq<Gift>, user: User): (r: Option<nat>)
    ensures r.Some? <==> HasGift(gifts, user)
    ensures r.Some? ==> r.value < |gifts| && gifts[r.value].buyer == user
    ensures r.Some? ==> forall j :: 0 <= j < r.value ==> gifts[j].buyer != user
  {
    FindFirst(gifts, (x: Gift) => x.buyer == user)
  }

  /** `gift_remove`: outside preparation the game has already started; a
      caller without a gift is refused; otherwise the caller's first gift is
      deleted and the others keep their order. */
  function RemoveGift(g: Game, user: User): (r: Result<Game>)
    ensures g.stage != Prep ==> r == Failure(AlreadyStarted)
    ensures g.stage == Prep && !HasGift(g.gifts, user) ==> r == Failure(NoGiftToRemove)
    ensures g.stage == Prep && HasGift(g.gifts, user) ==>
      && r.Success?
      && r.value == g.(gifts := r.value.gifts)
      && |r.value.gifts| + 1 == |g.gifts|
      && var i := GiftIndex(g.gifts, user).value;
         && (forall j :: 0 <= j < i ==> r.value.gifts[j] == g.gifts[j])
         && (forall j :: i <= j < |r.value.gifts| ==> r.value.gifts[j] == g.gifts[j + 1])
  {
    if g.stage != Prep then Failure(AlreadyStarted)
    else match GiftIndex(g.gifts, user)
      case None => Failure(NoGiftToRemove)
      case Some(i) => Success(g.(gifts := g.gifts[..i] + g.gifts[i + 1..]))
  }

  /** Adding keeps one gift per buyer, and afterwards the caller has one. */
  lemma AddKeepsOneGiftPerBuyer(g: Game, user: User, box: string, desc: string, link: string)
    requires UniqueBuyers(g.gifts)
    requires AddGift(g, user, box, desc, link).Success?
    ensures UniqueBuyers(AddGift(g, user, box, desc, link).value.gifts)
    ensures HasGift(AddGift(g, user, box, desc, link).value.gifts, user)
  {
    var gifts' := AddGift(g, user, box, desc, link).value.gifts;
    if !HasGift(g.gifts, user) {
      assert gifts'[|g.gifts|].buyer == user;
    } else {
      var i :| 0 <= i < |g.gifts| && g.gifts[i].buyer == user;
      assert gifts'[i].buyer == user;
    }
  }

  /** Adding twice for the same caller is the same as adding once with the
      second call's fields: the second call edits in place whatever the
      first call did, whether it appended or edited. */
  lemma AddTwiceEditsInPlace(g: Game, user: User, box1: string, desc1: string, link1: string,
                             box2: string, desc2: string, link2: string)
    requires g.stage == Prep
    ensures AddGift(g, user, box1, desc1, link1).Success?
    ensures AddGift(AddGift(g, user, box1, desc1, link1).value, user, box2, desc2, link2)
         == AddGift(g, user, box2, desc2, link2)
  {
    if HasGift(g.gifts, user) {
      EditTwiceEditsOnce(g, user, box1, desc1, link1, box2, desc2, link2);
    } else {
      AppendThenEdit(g, user, box1, desc1, link1, box2, desc2, link2);
    }
  }

  /** The second add by a caller who already had a gift edits the same
      (first) gift again. */
  lemma EditTwiceEditsOnce(g: Game, user: User, box1: string, desc1: string, link1: string,
                           box2: string, desc2: string, link2: string)
    requires g.stage == Prep
    requires HasGift(g.gifts, user)
    ensures AddGift(AddGift(g, user, box1, desc1, link1).value, user, box2, desc2, link2)
         == AddGift(g, user, box2, desc2, link2)
  {
    var once := AddGift(g, user, box1, desc1, link1).value;
    var i := GiftIndex(g.gifts, user).value;
    assert once.gifts[i].buyer == user;
    var j := GiftIndex(once.gifts, user).value;
    assert forall k :: 0 <= k < |g.gifts| ==> once.gifts[k].buyer == g.gifts[k].buyer;
    assert j == i;
    var twice := AddGift(once, user, box2, desc2, link2).value;
    var target := AddGift(g, user, box2, desc2, link2).value;
    forall k | 0 <= k < |g.gifts| ensures twice.gifts[k] == target.gifts[k] {
      if k != i {
        assert twice.gifts[k] == once.gifts[k];
      }
    }
    assert twice.gifts == target.gifts;
  }

  /** The second add by a newcomer edits the gift the first add appended. */
  lemma AppendThenEdit(g: Game, user: User, box1: string, desc1: string, link1: string,
                       box2: string, desc2: string, link2: string)
    requires g.stage == Prep
    requires !HasGift(g.gifts, user)
    ensures AddGift(AddGift(g, user, box1, desc1, link1).value, user, box2, desc2, link2)
         == AddGift(g, user, box2, desc2, link2)
  {
    var once := AddGift(g, user, box1, desc1, link1).value;
    var n := |g.gifts|;
    assert once.gifts[n].buyer == user;
    var twice := AddGift(once, user, box2, desc2, link2).value;
    assert |twice.gifts| == n + 1;
    var target := g.gifts + [Gift(user, user, box2, desc2, link2, Wrapped)];
    forall i | 0 <= i < n + 1 ensures twice.gifts[i] == target[i] {
      if i < n {
        assert once.gifts[i] == g.gifts[i];
        assert g.gifts[i].buyer != user;
      } else {
        assert forall j :: 0 <= j < n ==> once.gifts[j] == g.gifts[j];
        var k :| 0 <= k < |once.gifts| && once.gifts[k].buyer == user &&
          twice.gifts[k] == once.gifts[k].(boxDescription := box2, giftDescription := desc2, imageLink := link2);
        assert k == n;
      }
    }
    assert twice.gifts == target;
  }

  /** Removing leaves the caller without a gift when buyers are unique,
      and keeps buyers unique. */
  lemma RemoveDropsCallersGift(g: Game, user: User)
    requires UniqueBuyers(g.gifts)
    requires RemoveGift(g, user).Success?
    ensures !HasGift(RemoveGift(g, user).value.gifts, user)
    ensures UniqueBuyers(RemoveGift(g, user).value.gifts)
  {
    var gifts' := RemoveGift(g, user).value.gifts;
    var i := GiftIndex(g.gifts, user).value;
    forall j | 0 <= j < |gifts'| ensures gifts'[j].buyer != user {
      var k := if j < i then j else j + 1;
      assert gifts'[j] == g.gifts[k] && k != i;
    }
    forall a, b | 0 <= a < |gifts'| && 0 <= b < |gifts'| && a != b
      ensures gifts'[a].buyer != gifts'[b].buyer
    {
      var ka := if a < i then a else a + 1;
      var kb := if b < i then b else b + 1;
      assert gifts'[a] == g.gifts[ka] && gifts'[b] == g.gifts[kb];
    }
  }

  /** Removing a gift just added by a newcomer restores the game. */
  lemma RemoveUndoesAdd(g: Game, user: User, box: string, desc: string, link: string)
    requires g.stage == Prep
    requires !HasGift(g.gifts, user)
    ensures AddGift(g, user, box, desc, link).Success?
    ensures RemoveGift(AddGift(g, user, box, desc, link).value, user) == Success(g)
  {
    var added := AddGift(g, user, box, desc, link).value;
    var n := |g.gifts|;
    assert added.gifts[n].buyer == user;
    var removed := RemoveGift(added, user).value;
    assert removed.gifts == g.gifts;
  }
}
