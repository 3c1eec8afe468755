/** The data model of the White Elephant game (blurple-elephant/game.py):
    the four game stages, the gift record and the per-channel game state,
    plus the outcome type every command handler returns. */
module Model {

  /** A platform user; users are compared by equality only. */
  type User = nat

  /** A handle on a posted message (the last-call prompt a reaction targets). */
  type MessageId = nat

  /** The channel a game lives in; the key of the session registry. */
  type ChannelId = nat

  /** A reaction emoji, compared for equality only. */
  type Emoji = string

  /** The cross-mark emoji that ends the game at last call. */
  const EndEmoji: Emoji := "\U{274C}"

  /** The status of a gift that is still wrapped. Opening a gift takes it
      to 2; every steal takes one more off, down to 0 (locked). */
  const Wrapped: int := 3

  datatype Option<+T> = None | Some(value: T)

  /** GameStage: preparation, play, last call and end, in that order. */
  datatype Stage = Prep | Play | Last | End {
    /** The enumeration value the stage carries in the program (0..3). */
    function Rank(): (n: nat)
      ensures n <= 3
      ensures this.Prep? <==> n == 0
      ensures this.Play? <==> n == 1
      ensures this.Last? <==> n == 2
      ensures this.End? <==> n == 3
    {
      match this
      case Prep => 0
      case Play => 1
      case Last => 2
      case End => 3
    }
  }

  /** One contributed gift. `status` is kept as an unbounded integer, as in
      the program; the invariants pin it to 0..3. */
  datatype Gift = Gift(
    buyer: User,
    holder: User,
    boxDescription: string,
    giftDescription: string,
    imageLink: string,
    status: int)

  /** The state of one game. The turn iterator is the turn order `turns`
      together with `cursor`, the number of entries already taken from it;
      the iterator is exhausted once `cursor` reaches `|turns|`. The
      optional fields are the program's `None`-initialised attributes. */
  datatype Game = Game(
    gifts: seq<Gift>,
    turns: seq<User>,
    cursor: nat,
    first: Option<User>,
    active: Option<User>,
    stage: Stage,
    lastMessage: Option<MessageId>)

  /** The reasons a command is refused, one per user-facing refusal. */
  datatype Error =
    | NoGame          // there is no game in this channel
    | GameExists      // there is already a game in this channel
    | AlreadyStarted  // the game has already started
    | NoPlayers       // no users have entered the game
    | NoGiftToRemove  // the caller has no gift to remove
    | NotAGift        // the number does not address a gift
    | NotYourTurn     // the caller is not the active user
    | AlreadyOpened   // open: the gift is already opened
    | OwnGiftOpen     // open: the caller brought the gift
    | NotOpened       // steal/inspect: the gift is still wrapped
    | Locked          // steal: the gift has no steals left
    | StealFromSelf   // steal: the caller already holds the gift
    | OwnGiftSteal    // steal: the caller brought the gift
    | NoHeldGift      // last-call swap: the caller holds no gift

  datatype Result<+T> = Success(value: T) | Failure(error: Error)

  /** A freshly created game: preparation stage, no gifts, no turn order. */
  function NewGame(): Game
  {
    Game([], [], 0, None, None, Prep, None)
  }

  /** The buyers of `gifts`, in list order. */
  function Buyers(gifts: seq<Gift>): seq<User>
  {
    seq(|gifts|, i requires 0 <= i < |gifts| => gifts[i].buyer)
  }

  /** True iff `user` brought one of `gifts`. */
  predicate HasGift(gifts: seq<Gift>, user: User)
  {
    exists i :: 0 <= i < |gifts| && gifts[i].buyer == user
  }

  /** At most one gift per buyer. */
  predicate UniqueBuyers(gifts: seq<Gift>)
  {
    forall i, j :: 0 <= i < |gifts| && 0 <= j < |gifts| && i != j ==> gifts[i].buyer != gifts[j].buyer
  }

  /** Every status is one of 0, 1, 2, 3. */
  predicate StatusesInRange(gifts: seq<Gift>)
  {
    forall i :: 0 <= i < |gifts| ==> 0 <= gifts[i].status <= Wrapped
  }

  /** No value occurs twice in `s`. */
  predicate Distinct<T(==)>(s: seq<T>)
  {
    forall i, j :: 0 <= i < j < |s| ==> s[i] != s[j]
  }

  /** The values occurring in `s`. */
  function Elems<T>(s: seq<T>): set<T>
  {
    set x | x in s
  }

  /** A sequence without repetitions is one in which every value occurs at
      most once, counted as a multiset. */
  lemma {:induction false} DistinctIffSingleCounts<T>(s: seq<T>)
    ensures Distinct(s) <==> forall x :: multiset(s)[x] <= 1
  {
    if |s| == 0 {
    } else {
      var t := s[1..];
      assert s == [s[0]] + t;
      DistinctIffSingleCounts(t);
      if Distinct(s) {
        assert Distinct(t) by {
          forall i, j | 0 <= i < j < |t| ensures t[i] != t[j] {
            assert t[i] == s[i + 1] && t[j] == s[j + 1];
          }
        }
        assert s[0] !in t;
        forall x ensures multiset(s)[x] <= 1 {
          assert multiset(s)[x] == multiset(t)[x] + (if x == s[0] then 1 else 0);
        }
      } else {
        var i, j :| 0 <= i < j < |s| && s[i] == s[j];
        if i == 0 {
          assert s[j] == t[j - 1];
          assert multiset(t)[s[0]] >= 1;
          assert multiset(s)[s[0]] == multiset(t)[s[0]] + 1;
        } else {
          assert t[i - 1] == t[j - 1];
          assert !Distinct(t);
          var x :| multiset(t)[x] > 1;
          assert multiset(s)[x] >= multiset(t)[x];
        }
      }
    }
  }

  /** Rearranging a sequence (same multiset) keeps it free of repetitions. */
  lemma DistinctPermutation<T>(s: seq<T>, t: seq<T>)
    requires multiset(s) == multiset(t)
    requires Distinct(t)
    ensures Distinct(s)
  {
    DistinctIffSingleCounts(s);
    DistinctIffSingleCounts(t);
  }
}
