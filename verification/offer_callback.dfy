/** The callback data of the auto-open variant's offer buttons (bot.py):
    `"<action>:<offer>:<player case>:<v1>,<v2>,..."`, written when an offer is made
    and read back by the offer handler. */
module OfferCallback {
  import opened Basics
  import opened Text

  datatype Action = Accept | Decline

  /** Everything one offer button carries. */
  datatype Callback = Callback(action: Action, offer: int, playerCase: int, remaining: seq<int>)

  /** The two ways the handler's parsing raises: the wrong number of `:`-fields
      (tuple unpacking) or a field that `int` rejects. */
  datatype DecodeError = WrongFieldCount | NotAnInteger

  function ActionName(a: Action): string
  {
    match a
    case Accept => "accept"
    case Decline => "decline"
  }

  /** `map(str, xs)` */
  function ShowAll(xs: seq<int>): (parts: seq<string>)
    ensures |parts| == |xs|
    ensures forall k :: 0 <= k < |xs| ==> parts[k] == ShowInt(xs[k])
  {
    if xs == [] then [] else [ShowInt(xs[0])] + ShowAll(xs[1..])
  }

  /** `list(map(int, parts))`; `None` when some part is not an integer. */
  function ParseAll(parts: seq<string>): Option<seq<int>>
  {
    if parts == [] then Some([])
    else
      match (ParseInt(parts[0]), ParseAll(parts[1..]))
      case (Some(x), Some(xs)) => Some([x] + xs)
      case _ => None
  }

  /** The four `:`-separated fields of the offer buttons' f-string. */
  function Fields(c: Callback): seq<string>
  {
    [ActionName(c.action), ShowInt(c.offer), ShowInt(c.playerCase), Join(ShowAll(c.remaining), ',')]
  }

  /** The f-string of the offer buttons. */
  function Encode(c: Callback): string
  {
    Join(Fields(c), ':')
  }

  /** The parsing at the top of the offer handler: split on `:`, unpack four fields,
      `int` the offer and the player's case, split the last field on `,` and `int` each piece.
      Any action other than `"accept"` is handled as a decline. */
  function Decode(data: string): Result<Callback, DecodeError>
  {
    var fields := Split(data, ':');
    if |fields| != 4 then Err(WrongFieldCount)
    else
      var action := if fields[0] == "accept" then Accept else Decline;
      match ParseInt(fields[1])
      case None => Err(NotAnInteger)
      case Some(offer) =>
        match ParseInt(fields[2])
        case None => Err(NotAnInteger)
        case Some(playerCase) =>
          match ParseAll(Split(fields[3], ','))
          case None => Err(NotAnInteger)
          case Some(remaining) => Ok(Callback(action, offer, playerCase, remaining))
  }

  lemma {:induction false} ParseShowAll(xs: seq<int>)
    ensures ParseAll(ShowAll(xs)) == Some(xs)
  {
    if xs != [] {
      ShowParse(xs[0]);
      ParseShowAll(xs[1..]);
      assert ShowAll(xs)[1..] == ShowAll(xs[1..]);
      assert [xs[0]] + xs[1..] == xs;
    }
  }

  lemma {:induction false} NoColonInJoin(parts: seq<string>)
    requires forall k :: 0 <= k < |parts| ==> ':' !in parts[k]
    ensures ':' !in Join(parts, ',')
  {
    if |parts| > 1 {
      NoColonInJoin(parts[1..]);
    }
  }

  /** No field holds a `:`, so splitting the data gives back the four fields. */
  lemma FieldsSplit(c: Callback)
    ensures Split(Encode(c), ':') == Fields(c)
  {
    var shown := ShowAll(c.remaining);
    forall k | 0 <= k < |shown| ensures ':' !in shown[k] {
      ShowIntAvoids(c.remaining[k], ':');
    }
    NoColonInJoin(shown);
    ShowIntAvoids(c.offer, ':');
    ShowIntAvoids(c.playerCase, ':');
    SplitJoin(Fields(c), ':');
  }

  /** The last field reads back as the list it was written from, unless that list was empty. */
  lemma ListFieldDecodes(xs: seq<int>)
    ensures ParseAll(Split(Join(ShowAll(xs), ','), ',')) == if xs == [] then None else Some(xs)
  {
    var shown := ShowAll(xs);
    if xs == [] {
      assert Split(Join(shown, ','), ',') == [""];
    } else {
      forall k | 0 <= k < |shown| ensures ',' !in shown[k] {
        ShowIntAvoids(xs[k], ',');
      }
      SplitJoin(shown, ',');
      ParseShowAll(xs);
    }
  }

  /** Decoding what was encoded gives back the callback exactly when its list is non-empty;
      an empty list becomes the empty last field, which `int("")` rejects. */
  lemma EncodeDecode(c: Callback)
    ensures Decode(Encode(c)) == if c.remaining == [] then Err(NotAnInteger) else Ok(c)
  {
    FieldsSplit(c);
    ShowParse(c.offer);
    ShowParse(c.playerCase);
    ListFieldDecodes(c.remaining);
  }
}
