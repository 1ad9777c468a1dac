/** The box-picking variant (main.py): a process-wide registry of games, one per user.
    The first `choose_<i>` callback picks the player's box; every later one opens box i
    and computes the Whale's offer from the values still hidden. */
module MysteryBoxes {
  import opened Basics
  import opened Sequences
  import opened Text

  /** The ten box values before shuffling. */
  const BoxValues: seq<int> := [10, 50, 100, 500, 1000, 5000, 10000, 50000, 100000, 500000]

  /** `random.shuffle(values)` on the fresh list of the ten values: the boxes hold the ten values in some order. */
  predicate IsShuffle(boxes: seq<int>)
  {
    multiset(boxes) == multiset(BoxValues)
  }

  /** The contents of one game record: `{boxes, chosen_box, opened_boxes}`. */
  datatype GameState = GameState(boxes: seq<int>, chosenBox: Option<int>, openedBoxes: seq<int>)

  /** The exact mean `sum(remaining) / len(remaining)` as a total and a count. */
  datatype Mean = Mean(total: int, count: nat)

  /** What one callback leads to. The three exceptions the handler can raise are
      BadIndex (`int` rejects the index text, or there is no text after `_`), NoSuchBox
      (`boxes[index]` is out of range) and DivisionByZero (the offer of an empty list);
      the first two leave the record as it was, the last one comes after the append. */
  datatype BoxOutcome =
    | NoActiveGame
    | NotAChoice
    | BadIndex
    | Chosen(index: int)
    | CannotOpen
    | NoSuchBox
    | Opened(index: int, value: int, offer: Mean)
    | DivisionByZero(index: int, value: int)

  datatype Step = Step(state: GameState, outcome: BoxOutcome)

  /** The callback data of the keyboard's button for box i: `f"choose_{i}"`. */
  function ChoiceData(i: int): string
  {
    "choose_" + ShowInt(i)
  }

  /** `int(data.split("_")[1])`; `None` when the handler would raise instead. */
  function ParseIndex(data: string): Option<int>
  {
    var parts := Split(data, '_');
    if |parts| < 2 then None else ParseInt(parts[1])
  }

  /** A box index survives the comprehension: not opened and not the chosen one. */
  predicate Kept(g: GameState, i: int)
  {
    i !in g.openedBoxes && Some(i) != g.chosenBox
  }

  /** The indices the comprehension keeps, from position i on. */
  function KeptFrom(g: GameState, i: nat): seq<nat>
    requires i <= |g.boxes|
    decreases |g.boxes| - i
  {
    if i == |g.boxes| then [] else (if Kept(g, i) then [i] else []) + KeptFrom(g, i + 1)
  }

  /** `[v for i, v in enumerate(boxes) if i not in opened_boxes and i != chosen_box]`,
      from position i on. */
  function RemainingFrom(g: GameState, i: nat): seq<int>
    requires i <= |g.boxes|
    decreases |g.boxes| - i
  {
    if i == |g.boxes| then [] else (if Kept(g, i) then [g.boxes[i]] else []) + RemainingFrom(g, i + 1)
  }

  function RemainingValues(g: GameState): seq<int>
  {
    RemainingFrom(g, 0)
  }

  /** `calculate_whale_offer`: the mean of the remaining values, which needs at least one.
      The mean lies between the least and the greatest remaining value. */
  function CalculateWhaleOffer(remaining: seq<int>): (m: Mean)
    requires remaining != []
    ensures m.count == |remaining| && m.count > 0
    ensures m.count * Min(remaining) <= m.total <= m.count * Max(remaining)
  {
    SumBounds(remaining);
    Mean(Sum(remaining), |remaining|)
  }

  /** One `choose_` callback against an existing record (`handle_box` after its
      registry lookup): the first one picks the player's box, every later one opens a box. */
  function HandleChoice(g: GameState, data: string): Step
  {
    if !StartsWith(data, "choose_") then Step(g, NotAChoice)
    else
      match ParseIndex(data)
      case None => Step(g, BadIndex)
      case Some(index) =>
        if g.chosenBox.None? then Step(g.(chosenBox := Some(index)), Chosen(index))
        else OpenBox(g, index)
  }

  /** The opening branch of `handle_box`, once a box is chosen: refuse the chosen box and
      opened ones, index `boxes` as Python does (a negative index counts from the end),
      append the index, then make the offer over the values left. */
  function OpenBox(g: GameState, index: int): Step
  {
    if Some(index) == g.chosenBox || index in g.openedBoxes then Step(g, CannotOpen)
    else if !(-|g.boxes| <= index < |g.boxes|) then Step(g, NoSuchBox)
    else
      var value := g.boxes[if index < 0 then index + |g.boxes| else index];
      var afterOpen := g.(openedBoxes := g.openedBoxes + [index]);
      var remaining := RemainingValues(afterOpen);
      if remaining == [] then Step(afterOpen, DivisionByZero(index, value))
      else Step(afterOpen, Opened(index, value, CalculateWhaleOffer(remaining)))
  }

  /** What every record satisfies: ten boxes, nothing opened before a box
      is chosen, the chosen box never opened, no box opened twice, and every opened index
      a valid Python index of `boxes`. */
  predicate Consistent(g: GameState)
  {
    && |g.boxes| == |BoxValues|
    && (g.chosenBox.None? ==> g.openedBoxes == [])
    && (g.chosenBox.Some? ==> g.chosenBox.value !in g.openedBoxes)
    && Distinct(g.openedBoxes)
    && forall k :: 0 <= k < |g.openedBoxes| ==> -|g.boxes| <= g.openedBoxes[k] < |g.boxes|
  }

  /** Every index in the record is one the keyboard offers, 0 to 9. */
  predicate OnKeyboard(g: GameState)
  {
    && (g.chosenBox.Some? ==> 0 <= g.chosenBox.value < |g.boxes|)
    && forall k :: 0 <= k < |g.openedBoxes| ==> 0 <= g.openedBoxes[k] < |g.boxes|
  }

  /** The keyboard's buttons reach the handler as the index they were made for. */
  lemma ChoiceDataParses(i: int)
    ensures StartsWith(ChoiceData(i), "choose_")
    ensures ParseIndex(ChoiceData(i)) == Some(i)
  {
    ShowIntAvoids(i, '_');
    assert ChoiceData(i) == Join(["choose", ShowInt(i)], '_');
    SplitJoin(["choose", ShowInt(i)], '_');
    ShowParse(i);
  }

  /** Opening a box keeps a record consistent. */
  lemma OpenKeepsConsistent(g: GameState, index: int)
    requires Consistent(g) && g.chosenBox.Some?
    ensures Consistent(OpenBox(g, index).state)
  {
    var s := OpenBox(g, index);
    if s.state != g {
      assert s.state == g.(openedBoxes := g.openedBoxes + [index]);
      assert index !in g.openedBoxes && Some(index) != g.chosenBox;
      DistinctAppend(g.openedBoxes, index);
    }
  }

  /** Every callback keeps a record consistent. */
  lemma StepKeepsConsistent(g: GameState, data: string)
    requires Consistent(g)
    ensures Consistent(HandleChoice(g, data).state)
  {
    match ParseIndex(data)
    case None =>
    case Some(index) =>
      if g.chosenBox.Some? {
        OpenKeepsConsistent(g, index);
      }
  }

  /** Only a choice or an open changes the record, and neither touches `boxes`; every
      rejection and the exceptions raised before the append leave the record as it was. */
  lemma StepFrame(g: GameState, data: string)
    ensures var s := HandleChoice(g, data);
      && s.state.boxes == g.boxes
      && (s.outcome.Chosen? ==> s.state == g.(chosenBox := Some(s.outcome.index)))
      && (s.outcome.Opened? || s.outcome.DivisionByZero? ==>
            s.state == g.(openedBoxes := g.openedBoxes + [s.outcome.index]))
      && (!s.outcome.Chosen? && !s.outcome.Opened? && !s.outcome.DivisionByZero? ==> s.state == g)
  {
  }

  /** The first `choose_<i>` sets the chosen box to i and changes nothing else. */
  lemma FirstChoice(g: GameState, i: int)
    requires g.chosenBox.None?
    ensures HandleChoice(g, ChoiceData(i)) == Step(g.(chosenBox := Some(i)), Chosen(i))
  {
    ChoiceDataParses(i);
  }

  /** Once a box is chosen, asking to open the chosen box or an opened one is refused and
      changes nothing. */
  lemma OpenRefused(g: GameState, i: int)
    requires g.chosenBox.Some?
    requires Some(i) == g.chosenBox || i in g.openedBoxes
    ensures HandleChoice(g, ChoiceData(i)) == Step(g, CannotOpen)
  {
    ChoiceDataParses(i);
  }

  /** Once a box is chosen, opening any other unopened box on the keyboard appends its index
      and reveals the value in it; the offer, when there is one, is over the values left. */
  lemma OpenReveals(g: GameState, i: int)
    requires g.chosenBox.Some?
    requires 0 <= i < |g.boxes| && Kept(g, i)
    ensures var s := HandleChoice(g, ChoiceData(i));
      && s.state == g.(openedBoxes := g.openedBoxes + [i])
      && (s.outcome == DivisionByZero(i, g.boxes[i]) <==> RemainingValues(s.state) == [])
      && (RemainingValues(s.state) != [] ==>
            s.outcome == Opened(i, g.boxes[i], CalculateWhaleOffer(RemainingValues(s.state))))
  {
    ChoiceDataParses(i);
  }

  /** The kept indices from position i on are increasing, lie in i..|boxes|, and are
      exactly the positions from i on that are neither opened nor chosen; the remaining
      values are the boxes at those indices, in that order. */
  lemma {:induction false} KeptFromFacts(g: GameState, i: nat)
    requires i <= |g.boxes|
    ensures |RemainingFrom(g, i)| == |KeptFrom(g, i)|
    ensures forall k :: 0 <= k < |KeptFrom(g, i)| ==>
      i <= KeptFrom(g, i)[k] < |g.boxes| && RemainingFrom(g, i)[k] == g.boxes[KeptFrom(g, i)[k]]
    ensures forall k, l :: 0 <= k < l < |KeptFrom(g, i)| ==> KeptFrom(g, i)[k] < KeptFrom(g, i)[l]
    ensures forall j :: i <= j < |g.boxes| ==> (j in KeptFrom(g, i) <==> Kept(g, j))
    decreases |g.boxes| - i
  {
    if i < |g.boxes| {
      KeptFromFacts(g, i + 1);
    }
  }

  /** `remaining_values` holds exactly the values of the boxes that are neither opened nor
      chosen, in index order: there is an increasing list of exactly those indices whose
      boxes are the remaining values. */
  lemma RemainingInIndexOrder(g: GameState)
    ensures var idx, r := KeptFrom(g, 0), RemainingValues(g);
      && |r| == |idx|
      && (forall k, l :: 0 <= k < l < |idx| ==> idx[k] < idx[l])
      && (forall j :: 0 <= j < |g.boxes| ==> (j in idx <==> Kept(g, j)))
      && (forall k :: 0 <= k < |idx| ==> idx[k] < |g.boxes| && r[k] == g.boxes[idx[k]])
  {
    KeptFromFacts(g, 0);
  }

  /** The indices a record excludes from the remaining values. */
  function Excluded(g: GameState): set<int>
  {
    (set j | j in g.openedBoxes) + (if g.chosenBox.Some? then {g.chosenBox.value} else {})
  }

  lemma {:induction false} DistinctSetSize(s: seq<int>)
    requires Distinct(s)
    ensures |set j | j in s| == |s|
  {
    if s != [] {
      DistinctTail(s);
      DistinctSetSize(s[1..]);
      assert (set j | j in s) == (set j | j in s[1..]) + {s[0]};
    }
  }

  /** The excluded indices from position i on. */
  function ExcludedFrom(g: GameState, i: int): set<int>
  {
    set j | j in Excluded(g) && i <= j
  }

  /** From position i on, every position is kept except the excluded ones. */
  lemma {:induction false} KeptCount(g: GameState, i: nat)
    requires i <= |g.boxes|
    requires forall j :: j in Excluded(g) ==> 0 <= j < |g.boxes|
    ensures |KeptFrom(g, i)| == (|g.boxes| - i) - |ExcludedFrom(g, i)|
    decreases |g.boxes| - i
  {
    if i == |g.boxes| {
      assert ExcludedFrom(g, i) == {};
    } else {
      KeptCount(g, i + 1);
      var later := ExcludedFrom(g, i + 1);
      assert i !in later;
      if Kept(g, i) {
        assert i !in Excluded(g);
        assert ExcludedFrom(g, i) == later;
      } else {
        assert i in Excluded(g);
        assert ExcludedFrom(g, i) == later + {i};
      }
    }
  }

  /** With every index on the keyboard, the remaining values number ten minus the opened
      boxes minus the chosen one. */
  lemma RemainingCount(g: GameState)
    requires Consistent(g) && OnKeyboard(g)
    requires g.chosenBox.Some?
    ensures |RemainingValues(g)| == |g.boxes| - |g.openedBoxes| - 1
  {
    KeptFromFacts(g, 0);
    KeptCount(g, 0);
    DistinctSetSize(g.openedBoxes);
    assert ExcludedFrom(g, 0) == Excluded(g);
  }

  /** After opening one more box on the keyboard, eight minus the previously opened boxes
      are left. */
  lemma OpenedCount(g: GameState, i: int)
    requires Consistent(g) && OnKeyboard(g)
    requires g.chosenBox.Some?
    requires 0 <= i < |g.boxes| && Kept(g, i)
    ensures |RemainingValues(g.(openedBoxes := g.openedBoxes + [i]))| == 8 - |g.openedBoxes|
  {
    var next := g.(openedBoxes := g.openedBoxes + [i]);
    DistinctAppend(g.openedBoxes, i);
    assert Consistent(next);
    assert OnKeyboard(next);
    RemainingCount(next);
  }

  /** Opening a box empties `remaining_values` exactly when it is the ninth box opened, the
      last one besides the chosen box: `calculate_whale_offer` then divides by zero. Before
      that, the offer is over 8 - |opened| values. */
  lemma LastOpenDividesByZero(g: GameState, i: int)
    requires Consistent(g) && OnKeyboard(g)
    requires g.chosenBox.Some?
    requires 0 <= i < |g.boxes| && Kept(g, i)
    ensures HandleChoice(g, ChoiceData(i)).outcome.DivisionByZero? <==> |g.openedBoxes| == 8
    ensures HandleChoice(g, ChoiceData(i)).outcome.Opened? ==>
      HandleChoice(g, ChoiceData(i)).outcome.offer.count == 8 - |g.openedBoxes|
  {
    ChoiceDataParses(i);
    assert HandleChoice(g, ChoiceData(i)) == OpenBox(g, i);
    OpenedCount(g, i);
  }

  /** One game record, updated in place through the alias the handler takes out of the
      registry. `owner` is the user whose entry holds it. */
  class GameRecord {
    var boxes: seq<int>
    var chosenBox: Option<int>
    var openedBoxes: seq<int>
    ghost const owner: int

    constructor (ghost user: int, values: seq<int>)
      ensures State() == GameState(values, None, []) && owner == user
    {
      owner := user;
      boxes := values;
      chosenBox := None;
      openedBoxes := [];
    }

    function State(): GameState
      reads this
    {
      GameState(boxes, chosenBox, openedBoxes)
    }

    /** The opening branch of `handle_box`, carried out on the record in place. */
    method Open(index: int) returns (o: BoxOutcome)
      modifies this
      ensures Step(State(), o) == OpenBox(old(State()), index)
    {
      if Some(index) == chosenBox || index in openedBoxes {
        return CannotOpen;
      }
      if !(-|boxes| <= index < |boxes|) {
        return NoSuchBox;
      }
      var value := boxes[if index < 0 then index + |boxes| else index];
      openedBoxes := openedBoxes + [index];
      var remaining := RemainingValues(State());
      if remaining == [] {
        return DivisionByZero(index, value);
      }
      o := Opened(index, value, CalculateWhaleOffer(remaining));
    }
  }

  datatype StartOutcome = Started | GameInProgress

  /** Every shuffle of the ten values deals ten boxes, so a fresh record holding it is
      consistent. */
  lemma ShuffleDealsTen(shuffled: seq<int>)
    requires IsShuffle(shuffled)
    ensures |shuffled| == |BoxValues|
    ensures Consistent(GameState(shuffled, None, []))
  {
    assert |shuffled| == |multiset(shuffled)| == |multiset(BoxValues)|;
  }

  /** `active_games`: each user's record. Every record belongs to the user whose entry
      holds it, so no record is shared between users. */
  class Registry {
    var activeGames: map<int, GameRecord>

    ghost predicate Valid()
      reads this, activeGames.Values
    {
      forall u :: u in activeGames ==> activeGames[u].owner == u && Consistent(activeGames[u].State())
    }

    constructor ()
      ensures Valid() && activeGames == map[]
    {
      activeGames := map[];
    }

    /** `start_game`: refused while the user has a record; otherwise a fresh record holding
        the shuffle `shuffled`, no chosen box and nothing opened. Other users' records are
        untouched. */
    method StartGame(user: int, shuffled: seq<int>) returns (o: StartOutcome)
      requires Valid()
      requires |shuffled| == |BoxValues|
      modifies this
      ensures Valid()
      ensures o == if user in old(activeGames) then GameInProgress else Started
      ensures user in old(activeGames) ==> activeGames == old(activeGames)
      ensures user !in old(activeGames) ==>
        && activeGames.Keys == old(activeGames).Keys + {user}
        && fresh(activeGames[user])
        && activeGames[user].State() == GameState(shuffled, None, [])
        && forall u :: u in old(activeGames) ==> activeGames[u] == old(activeGames)[u]
    {
      if user in activeGames {
        return GameInProgress;
      }
      var game := new GameRecord(user, shuffled);
      ghost var before := activeGames;
      activeGames := activeGames[user := game];
      forall u | u in activeGames
        ensures activeGames[u].owner == u && Consistent(activeGames[u].State())
      {
        if u != user {
          var r := before[u];
          assert activeGames[u] == r;
          assert r.State() == old(r.State());
        }
      }
      o := Started;
    }

    /** `handle_box`: without a record the callback is refused; otherwise the user's record is
        updated in place as HandleChoice says, and no other record changes. */
    method HandleBox(user: int, data: string) returns (o: BoxOutcome)
      requires Valid()
      modifies if user in activeGames then {activeGames[user]} else {}
      ensures Valid()
      ensures activeGames == old(activeGames)
      ensures user !in activeGames ==> o == NoActiveGame
      ensures user in activeGames ==>
        Step(activeGames[user].State(), o) == HandleChoice(old(activeGames[user].State()), data)
      ensures forall u :: u in activeGames && u != user ==> activeGames[u].State() == old(activeGames[u].State())
    {
      if user !in activeGames {
        return NoActiveGame;
      }
      var game := activeGames[user];
      ghost var before := game.State();
      StepKeepsConsistent(before, data);
      if !StartsWith(data, "choose_") {
        o := NotAChoice;
      } else {
        var parsed := ParseIndex(data);
        if parsed.None? {
          o := BadIndex;
        } else if game.chosenBox.None? {
          game.chosenBox := Some(parsed.value);
          o := Chosen(parsed.value);
        } else {
          o := game.Open(parsed.value);
          assert Step(game.State(), o) == OpenBox(before, parsed.value);
        }
      }
      assert Step(game.State(), o) == HandleChoice(before, data);
      forall u | u in activeGames && u != user
        ensures activeGames[u].State() == old(activeGames[u].State())
      {
        assert activeGames[u] != game;
      }
    }
  }
}
