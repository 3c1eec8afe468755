/** What the program shows of gifts and games (blurple-elephant/game.py),
    abstracted from message text: which marker is shown, which description
    is revealed, whose name appears and whether an image is attached. */
module Views {
  import opened Model
  import opened Indexing
  import opened Engine

  /** The marker in front of a gift: locked, one steal left, two steals
      left, or the wrapped box. */
  datatype Marker = LockMark | OneMark | TwoMark | BoxMark

  /** A gift's one-line description: a marker and the text it reveals. */
  datatype Label = Label(marker: Marker, text: string)

  /** `Gift.description`: statuses 0, 1 and 2 reveal the gift behind a
      marker naming the steals left; every other status shows only the
      box. */
  function Describe(x: Gift): (r: Label)
    ensures r.marker == BoxMark <==> x.status !in {0, 1, 2}
    ensures r.marker == BoxMark ==> r.text == x.boxDescription
    ensures r.marker != BoxMark ==> r.text == x.giftDescription
  {
    match x.status
    case 0 => Label(LockMark, x.giftDescription)
    case 1 => Label(OneMark, x.giftDescription)
    case 2 => Label(TwoMark, x.giftDescription)
    case _ => Label(BoxMark, x.boxDescription)
  }

  /** The status a marker stands for. */
  function MarkerStatus(m: Marker): int
  {
    match m
    case LockMark => 0
    case OneMark => 1
    case TwoMark => 2
    case BoxMark => Wrapped
  }

  /** On statuses 0..3 the marker is a faithful encoding of the status. */
  lemma MarkerEncodesStatus(x: Gift)
    requires 0 <= x.status <= Wrapped
    ensures MarkerStatus(Describe(x).marker) == x.status
  {
  }

  /** The footer of a gift's card: the holder's name behind the status
      marker, or the box description. */
  datatype Footer = HeldBy(marker: Marker, holder: User) | BoxFooter(box: string)

  /** A gift's card: body text, footer, optional image. */
  datatype Card = Card(body: string, footer: Footer, image: Option<string>)

  /** `Gift.embed`: the body always carries the gift description; the
      footer names the holder for statuses 0..2 and shows the box
      otherwise; an image is attached exactly when the link is non-empty. */
  function GiftCard(x: Gift): (r: Card)
    ensures r.body == x.giftDescription
    ensures r.footer.HeldBy? <==> x.status in {0, 1, 2}
    ensures r.footer.HeldBy? ==> r.footer.holder == x.holder && r.footer.marker == Describe(x).marker
    ensures r.footer.BoxFooter? ==> r.footer.box == x.boxDescription
    ensures r.image.Some? <==> x.imageLink != ""
    ensures r.image.Some? ==> r.image.value == x.imageLink
  {
    var footer :=
      match x.status
      case 0 => HeldBy(LockMark, x.holder)
      case 1 => HeldBy(OneMark, x.holder)
      case 2 => HeldBy(TwoMark, x.holder)
      case _ => BoxFooter(x.boxDescription);
    Card(x.giftDescription, footer, if x.imageLink != "" then Some(x.imageLink) else None)
  }

  /** One line of a game's board: the gift's number, its description and,
      when shown, its holder. */
  datatype Line = Line(number: int, shown: Label, holder: Option<User>)

  /** `Game.embed`: one line per gift, in list order, numbered from 1; the
      holder is shown exactly for gifts with status below 3. */
  function Board(gifts: seq<Gift>): (r: seq<Line>)
    ensures |r| == |gifts|
    ensures forall i :: 0 <= i < |r| ==> r[i].number == i + 1 && r[i].shown == Describe(gifts[i])
    ensures forall i :: 0 <= i < |r| ==> (r[i].holder.Some? <==> gifts[i].status < Wrapped)
    ensures forall i :: 0 <= i < |r| && r[i].holder.Some? ==> r[i].holder.value == gifts[i].holder
  {
    if |gifts| == 0 then []
    else
      var n := |gifts| - 1;
      var last := gifts[n];
      Board(gifts[..n]) + [Line(n + 1, Describe(last), if last.status < Wrapped then Some(last.holder) else None)]
  }

  /** The number shown on a board line is the number that `/gift open`,
      `/gift steal` and `/gift inspect` resolve to that very gift. */
  lemma BoardNumbersAddressGifts(gifts: seq<Gift>, i: nat)
    requires i < |gifts|
    ensures ResolveIndex(Board(gifts)[i].number, |gifts|) == Some(i)
  {
    var number := Board(gifts)[i].number;
    assert number == i + 1;
    ResolveIndexAliases(number, |gifts|, i);
  }

  /** With statuses in 0..3 the board names a holder exactly for the gifts
      whose description it reveals. */
  lemma BoardHolderIffRevealed(gifts: seq<Gift>)
    requires StatusesInRange(gifts)
    ensures forall i :: 0 <= i < |gifts| ==>
      (Board(gifts)[i].holder.Some? <==> Board(gifts)[i].shown.marker != BoxMark)
  {
    var board := Board(gifts);
    forall i | 0 <= i < |gifts|
      ensures board[i].holder.Some? <==> board[i].shown.marker != BoxMark
    {
      assert board[i].shown == Describe(gifts[i]);
      assert gifts[i].status < Wrapped <==> gifts[i].status in {0, 1, 2};
    }
  }

  /** The card handed out by `/gift inspect`, whose body always reveals
      the gift, is only handed out for a gift the board already reveals. */
  lemma InspectRevealsOnlyOpened(g: Game, number: int)
    requires StatusesInRange(g.gifts)
    requires InspectGift(g, number).Success?
    ensures Describe(InspectGift(g, number).value).marker != BoxMark
    ensures GiftCard(InspectGift(g, number).value).footer.HeldBy?
  {
    var i := ResolveIndex(number, |g.gifts|).value;
    assert 0 <= g.gifts[i].status <= Wrapped;
  }
}
