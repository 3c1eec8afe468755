/** How the command handlers address gifts: the 1-based gift number typed by
    a user is turned into a Python list index (`gifts[number - 1]`), and
    `discord.utils.find` picks the first gift satisfying a predicate. */
module Indexing {
  import opened Model

  /** The list position `gifts[number - 1]` reads for a list of length `len`,
      with Python's negative indexing: 1..len address positions 0..len-1,
      and 1-len..0 count back from the end of the list. Any other number
      raises IndexError, modelled as None. */
  function ResolveIndex(number: int, len: nat): (r: Option<nat>)
    ensures r.Some? <==> 1 - len <= number <= len
    ensures r.Some? ==> r.value < len
    ensures r.Some? && 1 <= number ==> r.value + 1 == number
    ensures r.Some? && number < 1 ==> r.value + 1 == number + len
  {
    var i := number - 1;
    if 0 <= i < len then Some(i)
    else if -(len as int) <= i < 0 then Some(i + len)
    else None
  }

  /** Every position is addressed by exactly two numbers: its 1-based
      number and that number minus the length of the list. */
  lemma ResolveIndexAliases(number: int, len: nat, k: nat)
    ensures ResolveIndex(number, len) == Some(k) <==> k < len && (number == k + 1 || number == k + 1 - len)
  {
  }

  /** `discord.utils.find(p, gifts)`: the position of the first gift
      satisfying `p`, or None when no gift does. */
  function FindFirst(gifts: seq<Gift>, p: Gift -> bool): (r: Option<nat>)
    ensures r.Some? ==> r.value < |gifts| && p(gifts[r.value])
    ensures r.Some? ==> forall j :: 0 <= j < r.value ==> !p(gifts[j])
    ensures r.None? ==> forall j :: 0 <= j < |gifts| ==> !p(gifts[j])
  {
    if |gifts| == 0 then None
    else if p(gifts[0]) then Some(0)
    else match FindFirst(gifts[1..], p)
      case None => None
      case Some(k) => Some(k + 1)
  }
}
