# Moon or Dust — a verified model of the game engine

Moon or Dust is a Telegram "Deal or No Deal" game. The repository holds two variants of it, and
this project models the game logic of both, without the chat transport:

- **The auto-open variant (`bot.py`).** Ten case values are shuffled and the player's case is
  drawn by value and removed from the list. Each round opens the head of the list. While values
  remain, the Whale offers `int(sum / len)` of what is left. The offer's two buttons carry the
  whole game state as callback data: `"<accept|decline>:<offer>:<player case>:<v1>,<v2>,..."`.
  Accepting pays the offer. Declining decodes the list and plays the next round on it. Once the
  last case is opened, the player's own case is revealed.
- **The box-picking variant (`main.py`).** A process-wide registry `active_games` maps each user
  to a record `{boxes, chosen_box, opened_boxes}`. Starting a second game is refused. The first
  `choose_<i>` callback picks the player's box. Every later one opens box `i`, unless it is the
  chosen or an opened box. Opening appends the index, then offers the mean of the values
  neither opened nor chosen.

Modules:

| file | module | what it holds |
|---|---|---|
| `basics.dfy` | `Basics` | `Option` and `Result` |
| `sequences.dfy` | `Sequences` | `sum`, `min`, `max`, `list.remove` and the no-repeats predicate, with their lemmas |
| `text.dfy` | `Text` | Python's `str(int)`, `int(str)`, `str.split`, `str.join` and `str.startswith` on `seq<char>`, and their round trips |
| `offer_callback.dfy` | `OfferCallback` | the offer buttons' callback data: its encoder, its decoder and the round trip |
| `briefcase_bot.dfy` | `BriefcaseBot` | the auto-open variant: dealing, one round, the offer handler, and a game in which every offer is declined |
| `mystery_boxes.dfy` | `MysteryBoxes` | the box-picking variant: the record as a value (`GameState`), the callback step as a function (`HandleChoice`), the comprehension of remaining values, and the registry as classes (`Registry`, `GameRecord`) that update records in place |

How the Python semantics are modelled:

- `int(sum / len)` in `bot.py` is true division followed by truncation toward zero (`TruncDiv`). Dafny's `/` is Euclidean, so negative sums are handled explicitly.
- Python's indexing counts a negative index from the end. `boxes[index]` outside `-10..9` raises `IndexError` before anything is appended (outcome `NoSuchBox`).
- Every exception the handlers can raise is an outcome:
  - the four-field unpacking (`WrongFieldCount`);
  - `int` on a bad field (`NotAnInteger`, `BadIndex`);
  - the out-of-range index (`NoSuchBox`);
  - the division by zero in `calculate_whale_offer` (`DivisionByZero`). This one is raised after the index has been appended, so the record keeps the append.
- `random.shuffle` and `random.choice` are parameters: the shuffled list and the position of the value drawn.

The model keeps these behaviours of the code:

- `main.py` does not range-check indices. Any integer is accepted as the chosen box, and opening uses Python indexing.
- `main.py` computes an offer after every open and `bot.py` after every round.
- Opening the last non-chosen box in `main.py` is not a reveal. It divides by zero.
- The value sets are `[1, 5, …, 1000]` in `bot.py` and `[10, 50, …, 500000]` in `main.py`.

## Model

| member | source | states |
|---|---|---|
| Sequences.SumBounds | bot.py:46 | the sum of a non-empty list lies between length × min and length × max, so a mean lies between the least and the greatest value |
| Sequences.RemoveFirst | bot.py:19 | `list.remove(x)` leaves one element fewer: the multiset of the list minus one `x` |
| Sequences.DistinctAppend | main.py:69 | appending an index not yet in a list without repeats keeps it without repeats |
| Sequences.TakeOutPermutes | bot.py:18-19 | the value at position i together with the list without that position is a rearrangement of the list |
| Sequences.RemoveFirstAt | bot.py:18-19 | in a list without repeats, removing the value found at position i removes exactly position i |
| Sequences.PermutationOfDistinct | bot.py:14-15 | a shuffle of a list without repeats has no repeats |
| Sequences.OnlyAt | bot.py:18-19 | in a list without repeats, the value at position i occurs nowhere else |
| Text.ShowParse | bot.py:66-67 | `int(str(x)) == x` for every integer, negative ones included |
| Text.SplitJoin | bot.py:65 | splitting a join on its separator gives back the parts, when no part contains the separator |
| Text.JoinSplit | bot.py:65 | joining the pieces of a split gives back the string |
| Text.SplitPiecesAvoidSep | bot.py:65 | no piece of a split contains the separator |
| OfferCallback.FieldsSplit | bot.py:65 | the encoded data splits on `:` into exactly the four written fields |
| OfferCallback.ListFieldDecodes | bot.py:68 | the `,`-joined list parses back to itself when non-empty; the empty list leaves `""`, which `int` rejects |
| OfferCallback.EncodeDecode | bot.py:65-68 | decoding the data the offer buttons carry (bot.py:50-51) gives back the action, offer, player's case and list exactly, for any integers and any non-empty list; an empty list is a decoding error |
| BriefcaseBot.TruncDivBetween | bot.py:46 | `int(a / n)` stays between lo and hi whenever n × lo ≤ a ≤ n × hi, for negative a too |
| BriefcaseBot.WhaleOfferInRange | bot.py:46 | the offer lies between the least and the greatest remaining value |
| BriefcaseBot.WhaleOfferFloor | bot.py:46 | for a non-negative sum the offer is the floor of the mean: len offers fit in the sum and one more does not |
| BriefcaseBot.NextRound | bot.py:37-61 | one round: no round exactly on an empty list; otherwise the head is opened; an offer exactly when at least two values were there; a reveal otherwise, paying the player's case |
| BriefcaseBot.NextRoundOffer | bot.py:38-46 | an offer is over the list after the opened head, equals `int(sum / len)` of it and lies within its range |
| BriefcaseBot.OfferButtonsDecode | bot.py:50-51 | each offer button decodes to its own action with the round's offer, the player's case and exactly the list left after the opened case |
| BriefcaseBot.ContinueGame | bot.py:35-61 | one call is the round `NextRound` describes; the caller's list becomes its tail; an offer carries the Moon (accept) and Dust (decline) button data, and any other round carries none |
| BriefcaseBot.ShuffledCasesDistinct | bot.py:14-15 | a shuffle of the ten initial values has ten values and no repeats |
| BriefcaseBot.StartGame | bot.py:14-19 | the player's case is the drawn value; the list left has 9 values, all except that position, and does not contain the player's case; player's case plus list is a permutation of the ten initial values |
| BriefcaseBot.HandleOffer | bot.py:64-76 | undecodable data is the parsing error; accept pays exactly the decoded offer, whatever the player's case; decline plays the next round on exactly the decoded list |
| BriefcaseBot.DeclinedRoundOffers | bot.py:73-76 | in a game where every offer is declined, round k before the last opens case k and offers, and its decline button decodes to the list from position k + 1 |
| BriefcaseBot.DecliningEveryOffer | bot.py:37-61 | declining every offer from n cases: rounds 0..n-2 each open case k and offer, with a decline button that decodes to the list from position k+1; the last round reveals the player's case |
| MysteryBoxes.CalculateWhaleOffer | main.py:23-24 | the offer needs at least one remaining value; its exact mean is over all of them and lies between their least and greatest |
| MysteryBoxes.ChoiceDataParses | main.py:57-58 | the data of the button for box i (main.py:42) starts with `choose_` and parses back to i |
| MysteryBoxes.FirstChoice | main.py:59-61 | with no box chosen, `choose_i` sets the chosen box to i and changes nothing else |
| MysteryBoxes.OpenRefused | main.py:64-66 | once a box is chosen, asking for the chosen box or an opened one is refused with no change |
| MysteryBoxes.OpenReveals | main.py:68-71 | opening another box appends its index and reveals `boxes[i]`; the offer is over the values then remaining, and dividing by zero happens exactly when none remain |
| MysteryBoxes.OpenKeepsConsistent | main.py:64-69 | an open keeps the record consistent: chosen box never opened, no box opened twice, opened indices valid |
| MysteryBoxes.StepKeepsConsistent | main.py:57-71 | every callback keeps a consistent record consistent |
| MysteryBoxes.StepFrame | main.py:57-71 | no callback changes `boxes`; a choice changes only the chosen box; an open only appends to the opened boxes (also when the offer then divides by zero); every other outcome changes nothing |
| MysteryBoxes.KeptFromFacts | main.py:70 | the kept indices are increasing, in range, exactly those neither opened nor chosen, and the remaining values are the boxes at them |
| MysteryBoxes.RemainingInIndexOrder | main.py:70 | `remaining_values` holds exactly the values of the boxes neither opened nor chosen, in index order |
| MysteryBoxes.KeptCount | main.py:70 | from position i, every position is kept except the excluded ones |
| MysteryBoxes.RemainingCount | main.py:70 | with indices from the keyboard, `remaining_values` has 10 − opened − 1 values |
| MysteryBoxes.OpenedCount | main.py:69-70 | after one more open, 8 − previously opened values remain |
| MysteryBoxes.LastOpenDividesByZero | main.py:69-71 | opening divides by zero exactly when it is the ninth open, and before that the offer is over 8 − previously opened values |
| MysteryBoxes.ShuffleDealsTen | main.py:35-36 | every shuffle of the ten values has ten values, and a fresh record holding it is consistent |
| MysteryBoxes.GameRecord.constructor | main.py:37-41 | a new record holds the boxes given, no chosen box and nothing opened |
| MysteryBoxes.GameRecord.Open | main.py:64-71 | the in-place open does to the record what `OpenBox` says, outcome included |
| MysteryBoxes.Registry.constructor | main.py:20 | the registry starts empty and consistent |
| MysteryBoxes.Registry.StartGame | main.py:28-41 | a user with a game is refused and the registry is unchanged; otherwise the user gets a fresh record holding the shuffled list given, with no chosen box and nothing opened, and every other user keeps their record; the registry stays consistent |
| MysteryBoxes.Registry.HandleBox | main.py:49-71 | a user without a game is refused; otherwise the user's record becomes what `HandleChoice` says, with the outcome `HandleChoice` gives; no other record changes; the registry stays consistent |

## Left out

- The chat transport is not modelled: sending and editing messages, answering callbacks, keyboards (`briefcase_keyboard`), the dispatcher and its filters, polling and the entry points. Only the callback data the buttons carry is modelled.
- `round_num` and every message text in `continue_game` are not modelled. The counter only numbers messages.
- Logging and environment variables (main.py:7-13) are not modelled.
- `random.shuffle` and `random.choice` are inputs, not computed: the shuffled list and the drawn position are parameters.
- Async scheduling and two callbacks of one user running at once are not modelled. Each handler is one atomic step.
- Everything after main.py:72 is not part of this model. The visible file ends while building the offer keyboard, so an `Opened` outcome stops at the offer and data not starting with `choose_` changes nothing.
- MysteryBoxes.CalculateWhaleOffer: returns the exact mean as a total and a count instead of the float `round(sum / len, 2)`.
- BriefcaseBot.WhaleOfferInRange: the offer is modelled as exact integer truncation. The float quotient in `int(sum / len)` agrees with it only while sums stay below 2^53, which holds for the game's values.
- Text.ParseInt: accepts an optional sign and ASCII digits. Python's `int` also accepts surrounding whitespace, `_` between digits and non-ASCII digits; data holding those is a decoding error in this model.
- MysteryBoxes.Registry.StartGame: requires only that the shuffle has ten values, which is all the record invariant needs. That every shuffle of the ten values qualifies is `ShuffleDealsTen`, and a shuffle passed in is stored unchanged.
- BriefcaseBot.StartGame and BriefcaseBot.ContinueGame: the in-place `briefcases.remove` (bot.py:19) and `pop(0)` on the caller's list (bot.py:38) are modelled as returned lists (`briefcases` and `left`), not as updates of a shared list. No caller reads its list after the call (bot.py:25, bot.py:76), so no aliasing is lost.
- The `continue_game` loop is modelled by `ContinueGame` as a single conditional. Both branches of its body end in `break`, so the loop never runs a second pass.
