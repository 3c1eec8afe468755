/** The turn iterator of a game (`game.turns = iter(users)`): a fixed turn
    order and a cursor counting the entries already taken by `next`. */
module Turns {
  import opened Model

  /** What one `next(game.turns)` produces: the next user together with
      the moved cursor, or StopIteration. */
  datatype Advanced = Next(user: User, cursor: nat) | Exhausted

  /** One `next` call on the iterator positioned at `cursor`. An exhausted
      iterator stays exhausted: the cursor only moves on success. */
  function Advance(turns: seq<User>, cursor: nat): (r: Advanced)
    ensures r.Next? <==> cursor < |turns|
    ensures r.Next? ==> r.user == turns[cursor] && r.cursor == cursor + 1
  {
    if cursor < |turns| then Next(turns[cursor], cursor + 1) else Exhausted
  }

  /** Every user the iterator yields from `cursor` on, calling `next`
      until StopIteration. */
  function Drain(turns: seq<User>, cursor: nat): seq<User>
    decreases |turns| - cursor
  {
    match Advance(turns, cursor)
    case Exhausted => []
    case Next(u, c) => [u] + Drain(turns, c)
  }

  /** The iterator yields the rest of the turn order, in order, each entry
      once. */
  lemma {:induction false} DrainYieldsRest(turns: seq<User>, cursor: nat)
    requires cursor <= |turns|
    ensures Drain(turns, cursor) == turns[cursor..]
    decreases |turns| - cursor
  {
    if cursor < |turns| {
      DrainYieldsRest(turns, cursor + 1);
      assert turns[cursor..] == [turns[cursor]] + turns[cursor + 1..];
    }
  }

  /** The first user taken at game start followed by everything later `next`
      calls yield is the whole turn order: every player gets exactly one
      turn from the iterator, and no `next` after StopIteration yields
      anyone. */
  lemma {:induction false} EveryPlayerOneTurn(turns: seq<User>)
    requires |turns| > 0
    ensures [turns[0]] + Drain(turns, 1) == turns
    ensures Advance(turns, |turns|).Exhausted?
  {
    DrainYieldsRest(turns, 1);
    assert turns == [turns[0]] + turns[1..];
  }
}
