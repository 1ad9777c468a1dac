/** The auto-open variant (bot.py): the player's case is drawn from ten shuffled values,
    each round opens the head of the list, and while values remain the Whale offers
    the truncated mean of what is left. */
module BriefcaseBot {
  import opened Basics
  import opened Sequences
  import opened OfferCallback

  /** The ten case values before shuffling. */
  const InitialCases: seq<int> := [1, 5, 10, 25, 50, 100, 250, 500, 750, 1000]

  /** What one call of the round logic shows the player. */
  datatype Round =
    | NoRound
      // the list was empty on entry: the loop body never runs
    | Offer(openedCase: int, offer: int, remaining: seq<int>)
      // a case was opened and the Whale offers on the values that remain
    | Reveal(openedCase: int, payout: int)
      // the last case was opened; the player's own case is revealed

  /** What the offer handler does with one button press. */
  datatype Reply = Won(payout: int, playerCase: int) | Continued(next: Round)

  /** Python's `int(a / n)` for n > 0: true division, then truncation toward zero. */
  function TruncDiv(a: int, n: int): int
    requires n > 0
  {
    if a >= 0 then a / n else -((-a) / n)
  }

  /** Euclidean division by a positive count brackets the dividend. */
  lemma DivBrackets(a: int, n: int)
    requires a >= 0 && n > 0
    ensures (a / n) * n <= a < (a / n + 1) * n
  {
    ScaleStep(a / n, n, n);
  }

  /** The floor of a / n stays between lo and hi when n * lo <= a <= n * hi. */
  lemma FloorBetween(a: int, n: int, lo: int, hi: int)
    requires a >= 0 && n > 0
    requires n * lo <= a <= n * hi
    ensures lo <= a / n <= hi
  {
    var q := a / n;
    DivBrackets(a, n);
    assert n * (hi + 1) == n * hi + n && n * (q + 1) == n * q + n;
    if q > hi {
      ScaleStep(n, hi + 1, q);
      assert false;
    }
    if q < lo {
      ScaleStep(n, q + 1, lo);
      assert false;
    }
  }

  /** Truncating a / n stays between lo and hi when n * lo <= a <= n * hi. */
  lemma TruncDivBetween(a: int, n: int, lo: int, hi: int)
    requires n > 0
    requires n * lo <= a <= n * hi
    ensures lo <= TruncDiv(a, n) <= hi
  {
    if a >= 0 {
      FloorBetween(a, n, lo, hi);
    } else {
      assert n * -hi == -(n * hi) && n * -lo == -(n * lo);
      FloorBetween(-a, n, -hi, -lo);
    }
  }

  /** The Whale's offer: `int(sum(briefcases) / len(briefcases))`. */
  function WhaleOffer(cases: seq<int>): int
    requires cases != []
  {
    TruncDiv(Sum(cases), |cases|)
  }

  /** The offer never leaves the range of the remaining values. */
  lemma WhaleOfferInRange(cases: seq<int>)
    requires cases != []
    ensures Min(cases) <= WhaleOffer(cases) <= Max(cases)
  {
    SumBounds(cases);
    TruncDivBetween(Sum(cases), |cases|, Min(cases), Max(cases));
  }

  /** For a non-negative sum the offer is the floor of the mean: `len` offers fit in the sum,
      one more does not. */
  lemma WhaleOfferFloor(cases: seq<int>)
    requires cases != [] && Sum(cases) >= 0
    ensures WhaleOffer(cases) * |cases| <= Sum(cases) < (WhaleOffer(cases) + 1) * |cases|
  {
    DivBrackets(Sum(cases), |cases|);
  }

  /** One round: pop the head; if values remain, offer on them, otherwise reveal the
      player's case. An empty list makes no round at all. */
  function NextRound(playerCase: int, cases: seq<int>): (r: Round)
    ensures r.NoRound? <==> cases == []
    ensures cases != [] ==> r.openedCase == cases[0]
    ensures r.Offer? <==> |cases| >= 2
    ensures r.Reveal? ==> r.payout == playerCase
  {
    if cases == [] then NoRound
    else if |cases| == 1 then Reveal(cases[0], playerCase)
    else Offer(cases[0], WhaleOffer(cases[1..]), cases[1..])
  }

  /** An offer is over the values left after the opened head: it is `int(sum / len)` of them
      and lies within their range. */
  lemma NextRoundOffer(playerCase: int, cases: seq<int>)
    requires |cases| >= 2
    ensures NextRound(playerCase, cases).remaining == cases[1..]
    ensures NextRound(playerCase, cases).offer == TruncDiv(Sum(cases[1..]), |cases| - 1)
    ensures Min(cases[1..]) <= NextRound(playerCase, cases).offer <= Max(cases[1..])
  {
    WhaleOfferInRange(cases[1..]);
  }

  /** The callback data of an offer's button for `action`: the f-string that carries the
      action, the offer, the player's case and the remaining list. */
  function ButtonData(action: Action, playerCase: int, r: Round): string
    requires r.Offer?
  {
    Encode(Callback(action, r.offer, playerCase, r.remaining))
  }

  /** Each button of an offer decodes to its own action, the round's offer, the player's
      case and exactly the list left after the opened head. */
  lemma OfferButtonsDecode(action: Action, playerCase: int, cases: seq<int>)
    requires |cases| >= 2
    ensures Decode(ButtonData(action, playerCase, NextRound(playerCase, cases)))
      == Ok(Callback(action, NextRound(playerCase, cases).offer, playerCase, cases[1..]))
  {
    var r := NextRound(playerCase, cases);
    EncodeDecode(Callback(action, r.offer, playerCase, r.remaining));
  }

  /** `continue_game`. Its `while briefcases` loop leaves on the first pass in both
      branches, so one call is one round: pop the head, then offer or reveal.
      `left` is the caller's list after the in-place `pop(0)`; `buttons` is the callback
      data of the offer's two buttons, Moon (accept) then Dust (decline). */
  method ContinueGame(playerCase: int, briefcases: seq<int>) returns (r: Round, left: seq<int>, buttons: seq<string>)
    ensures r == NextRound(playerCase, briefcases)
    ensures left == if briefcases == [] then [] else briefcases[1..]
    ensures buttons == if r.Offer? then [ButtonData(Accept, playerCase, r), ButtonData(Decline, playerCase, r)] else []
  {
    left := briefcases;
    r := NoRound;
    buttons := [];
    if left != [] {
      var openedCase := left[0];
      left := left[1..];
      if left != [] {
        var offer := WhaleOffer(left);
        var accept := Encode(Callback(Accept, offer, playerCase, left));
        var decline := Encode(Callback(Decline, offer, playerCase, left));
        r := Offer(openedCase, offer, left);
        buttons := [accept, decline];
      } else {
        r := Reveal(openedCase, playerCase);
      }
    }
  }

  lemma InitialCasesDistinct()
    ensures Distinct(InitialCases)
  {
  }

  /** A shuffle of the ten initial values has ten values and no repeats. */
  lemma ShuffledCasesDistinct(shuffled: seq<int>)
    requires multiset(shuffled) == multiset(InitialCases)
    ensures |shuffled| == 10 && Distinct(shuffled)
  {
    InitialCasesDistinct();
    PermutationOfDistinct(shuffled, InitialCases);
  }

  /** `start_game` up to the hand-off to the first round: `shuffled` is the list after
      `random.shuffle`, and `choice` the position of the value `random.choice` returns.
      The player's value is then removed from the list by value. */
  method StartGame(shuffled: seq<int>, choice: nat) returns (playerCase: int, briefcases: seq<int>)
    requires multiset(shuffled) == multiset(InitialCases)
    requires choice < |shuffled|
    ensures playerCase == shuffled[choice]
    ensures briefcases == shuffled[..choice] + shuffled[choice + 1..]
    ensures |briefcases| == 9 && playerCase !in briefcases
    ensures multiset([playerCase] + briefcases) == multiset(InitialCases)
  {
    ShuffledCasesDistinct(shuffled);
    briefcases := shuffled;
    playerCase := briefcases[choice];
    briefcases := RemoveFirst(briefcases, playerCase);
    RemoveFirstAt(shuffled, choice);
    OnlyAt(shuffled, choice);
    TakeOutPermutes(shuffled, choice);
  }

  /** `handle_offer`: decode the button's data; accepting pays the decoded offer, declining
      resumes the rounds on the decoded list. A decoding failure is the exception the
      parsing raises. */
  method HandleOffer(data: string) returns (r: Result<Reply, DecodeError>)
    ensures Decode(data).Err? ==> r == Err(Decode(data).error)
    ensures Decode(data).Ok? && Decode(data).value.action == Accept ==>
      r == Ok(Won(Decode(data).value.offer, Decode(data).value.playerCase))
    ensures Decode(data).Ok? && Decode(data).value.action == Decline ==>
      r == Ok(Continued(NextRound(Decode(data).value.playerCase, Decode(data).value.remaining)))
  {
    var decoded := Decode(data);
    if decoded.Err? {
      return Err(decoded.error);
    }
    var c := decoded.value;
    if c.action == Accept {
      r := Ok(Won(c.offer, c.playerCase));
    } else {
      var next, _, _ := ContinueGame(c.playerCase, c.remaining);
      r := Ok(Continued(next));
    }
  }

  /** The rounds a player sees who declines every offer: round k is played on the list from
      position k, since every decline resumes on the list after the opened head. */
  function DeclinedRounds(playerCase: int, cases: seq<int>): (rs: seq<Round>)
    ensures |rs| == |cases|
  {
    seq(|cases|, k requires 0 <= k < |cases| => NextRound(playerCase, cases[k..]))
  }

  /** Round k before the last: it opens case k and offers, and its decline button decodes to
      the list from position k + 1, on which round k + 1 is played. */
  lemma DeclinedRoundOffers(playerCase: int, cases: seq<int>, k: nat)
    requires k < |cases| - 1
    ensures var r := NextRound(playerCase, cases[k..]);
      && r.Offer? && r.openedCase == cases[k]
      && Decode(ButtonData(Decline, playerCase, r)) == Ok(Callback(Decline, r.offer, playerCase, cases[k + 1..]))
  {
    OfferButtonsDecode(Decline, playerCase, cases[k..]);
    assert cases[k..][1..] == cases[k + 1..];
  }

  /** Declining every offer from n cases: round k opens case k and offers, and its decline
      button decodes to the list on which the handler plays round k + 1; after n - 1 offers
      the last round reveals the player's own case. */
  lemma DecliningEveryOffer(playerCase: int, cases: seq<int>)
    requires cases != []
    ensures forall k {:trigger DeclinedRounds(playerCase, cases)[k]} :: 0 <= k < |cases| - 1 ==>
      && DeclinedRounds(playerCase, cases)[k].Offer?
      && DeclinedRounds(playerCase, cases)[k].openedCase == cases[k]
      && Decode(ButtonData(Decline, playerCase, DeclinedRounds(playerCase, cases)[k]))
         == Ok(Callback(Decline, DeclinedRounds(playerCase, cases)[k].offer, playerCase, cases[k + 1..]))
      && DeclinedRounds(playerCase, cases)[k + 1]
         == NextRound(playerCase, Decode(ButtonData(Decline, playerCase, DeclinedRounds(playerCase, cases)[k])).value.remaining)
    ensures DeclinedRounds(playerCase, cases)[|cases| - 1] == Reveal(cases[|cases| - 1], playerCase)
  {
    var rs := DeclinedRounds(playerCase, cases);
    forall k | 0 <= k < |cases| - 1
      ensures rs[k].Offer? && rs[k].openedCase == cases[k]
      ensures Decode(ButtonData(Decline, playerCase, rs[k])) == Ok(Callback(Decline, rs[k].offer, playerCase, cases[k + 1..]))
      ensures rs[k + 1] == NextRound(playerCase, Decode(ButtonData(Decline, playerCase, rs[k])).value.remaining)
    {
      DeclinedRoundOffers(playerCase, cases, k);
    }
    var last := |cases| - 1;
    assert cases[last..] == [cases[last]];
  }
}
