# Snake-draft co-occurrence analysis, modelled in Dafny

This project models the analytical core of a best-ball draft explorer (`helpers.py`).
The explorer reads historical snake-draft records, one row per pick, and answers two
questions about them:

* **Next pick.** Given a player, which player did the same team usually take next in
  the same draft?
* **Co-draft.** Given a list of players, how often did one team take all of them in
  one draft, compared with how often it took the first of them?

Both questions rest on one derived column, `draft_slot`. It is the team that owns an
overall pick under snake ordering: picks go 1..N in odd rounds and N..1 in even rounds.

Modules, one per concern:

* `DraftModel` (`draft_model.dfy`) holds the round, position-in-round and slot
  arithmetic, with its inverse `PickNumber`. Its class `DraftFrame` is the draft table
  whose `round`, `pick_in_round` and `draft_slot` columns are added in place.
* `NextPick` (`next_pick.dfy`) holds the next-pick distribution. It is a pipeline of
  functions over the enriched rows: find the player's rows, take each row's next team
  pick with the smallest later pick number, then count the next players.
* `Frequency` (`frequency.dfy`) is the frequency table that `value_counts` builds:
  distinct names with their counts, in non-increasing count order.
* `CoDraft` (`co_draft.dfy`) holds the co-draft query. It is a method whose loop
  gathers each player's set of (draft, slot) keys, proved equal to a reference function.
* `Percent` (`percent.dfy`) and `Wrappers` (`wrappers.dfy`) hold shares in percent and
  the `Option`/`Result` types.

The team count `NUM_TEAMS` (12 in the source) is a parameter `numTeams >= 1`. The
analyses read the `draft_slot` column of the rows they are given. They do not
recompute it; `main.py` likewise passes the uploaded table to them as it is.
`DraftFrame.AddDraftColumns` proves that a table enriched by loading has
`draft_slot == DraftSlot(overallPick, numTeams)` on every row.

## Model

| member | source | states |
|---|---|---|
| `DraftModel.Round` | helpers.py:124 | the round r is the integer ceiling of pick / numTeams: (r-1)·numTeams < pick <= r·numTeams; and r >= 1 exactly when pick >= 1 |
| `DraftModel.RoundUnique` | helpers.py:124 | the ceiling is unique: any r with (r-1)·numTeams < pick <= r·numTeams is the round |
| `DraftModel.PickInRound` | helpers.py:125-127 | the position of every pick within its round lies in 1..numTeams |
| `DraftModel.Slot` | helpers.py:100-106 | a position in 1..numTeams is mapped to a slot in 1..numTeams, in either round parity |
| `DraftModel.DraftSlot` | helpers.py:124-128 | the `draft_slot` of every overall pick lies in 1..numTeams |
| `DraftModel.PickFromRoundAndSlot` | helpers.py:100-106 | a pick is recovered from its round and slot by the inverse `PickNumber` |
| `DraftModel.RoundAndSlotOfPickNumber` | helpers.py:100-106 | for every round and every slot in 1..numTeams, the pick `PickNumber` names lies in that round and belongs to that slot (with the previous row: picks and (round, slot) pairs correspond one to one) |
| `DraftModel.RoundIsPermutationOfSlots` | helpers.py:100-106 | the picks of any one round go to distinct slots, and together they cover exactly the slots 1..numTeams |
| `DraftModel.PickInRoundIncreasing` | helpers.py:125-127 | within a round, the position grows strictly with the overall pick number |
| `DraftModel.SnakeTurn` | helpers.py:101-106 | the last pick of every round r and the first pick of round r+1 belong to the same slot, whether r is odd or even |
| `DraftModel.FirstTwoRounds` | helpers.py:124-128 | picks 1..N go to slots 1..N, picks N+1..2N to slots N..1 (with N = 12: pick 13 to slot 12, pick 24 to slot 1), and pick 2N+1 goes to slot 1 |
| `DraftModel.DraftFrame.AddDraftColumns` | helpers.py:124-128 | adds the columns `round`, `pick_in_round` and `draft_slot`, one per row, computed from each row in turn, and leaves the rows unchanged; every `pick_in_round` is in 1..numTeams, and the enriched table carries `DraftSlot` of each row's pick |
| `DraftModel.EnrichedColumns` | helpers.py:124-128 | in a table whose columns were derived from its rows, every row's slot is `DraftSlot` of its pick and its position is in 1..numTeams |
| `NextPick.NextPickDistribution` | helpers.py:12-52 | every row's share lies between 0 and 100 percent. What the table holds is given by `DistributionEmptyIff`, `DistributionShape`, `DistributionRows`, `DistributionOrder`, `DistributionComplete` and `DistributionTotals` below |
| `NextPick.EarliestLaterPick` | helpers.py:31-44 | over rows k.., returns None exactly when there is no later pick with the same (draft, slot). Otherwise it returns such a pick whose number is minimal, and the first row in table order that reaches that minimum |
| `NextPick.NextTeamPick` | helpers.py:31-44 | the chosen next row has the same (draft, slot) as the occurrence and a strictly larger pick number. Its number is the smallest among all such rows, and no earlier such row ties it. None exactly when the occurrence was the team's last pick |
| `NextPick.NextPlayerAfter` | helpers.py:19-44 | the next player taken by the team of one row, when that row names the player. It has no contract of its own; its meaning is given by `NextPick.NextTeamPick` above (same team, smallest later pick, first among ties, None when there is none) |
| `NextPick.NextPlayers` | helpers.py:43-44 | `next_players`, the next player of every occurrence in row order. It has no contract of its own; its meaning is given by `NextPick.NextPlayersCount`, `NextPick.NextPlayersLength` and `NextPick.NextPlayersNonEmpty` below |
| `NextPick.NextPlayersCount` | helpers.py:43-44 | each name appears among the next players exactly as often as there are occurrences of the player after which that name was the team's next pick |
| `NextPick.NextPlayersLength` | helpers.py:43-44 | there is exactly one next player per occurrence that has a next team pick |
| `NextPick.NextPlayersNonEmpty` | helpers.py:37-40 | the next players are non-empty exactly when some row naming the player has a later pick with the same (draft, slot) |
| `NextPick.DistributionEmptyIff` | helpers.py:27-28 | the distribution is empty exactly when no row naming the player has a next team pick; this covers both early returns (no occurrence, or no later candidates) |
| `NextPick.DistributionShape` | helpers.py:46-51 | an empty set of next players gives an empty table; otherwise the table is the frequency table of the next players, with total = number of next players > 0 |
| `NextPick.DistributionRows` | helpers.py:43-51 | every row's count equals the number of occurrences followed by that row's next player, and is positive. Its pct is that count's share, in percent, of all occurrences that have a next pick |
| `NextPick.DistributionOrder` | helpers.py:48 | the rows have pairwise distinct next players and come in non-increasing count order |
| `NextPick.DistributionComplete` | helpers.py:43-48 | every player taken next after some occurrence has a row in the distribution |
| `NextPick.DistributionTotals` | helpers.py:50-51 | the counts add up to the number of occurrences with a next pick, and the percentages of a non-empty distribution add up to exactly 100 |
| `NextPick.WithPercentages` | helpers.py:51 | one output row per input row, with the same name and count, and pct = count / total · 100 |
| `NextPick.SharesBounded` | helpers.py:50-51 | when the counts add up to at most the total, every row's pct lies between 0 and 100 |
| `NextPick.PercentagesAddUp` | helpers.py:50-51 | the shares of the counts add up to the share of their sum |
| `Frequency.ValueCounts` | helpers.py:48 | the frequency table of `value_counts`; it has no contract of its own, and its meaning is stated by `Frequency.ValueCountsFacts` on the next row |
| `Frequency.ValueCountsFacts` | helpers.py:48 | the frequency table lists every name of the input once (distinct names, no name missing). Each row has its name's multiplicity, which is positive; the rows are in non-increasing count order; the counts add up to the input length |
| `Frequency.PresentCount` | helpers.py:44 | gathering the present values keeps each value once per position that holds it |
| `Percent.Percentage` | helpers.py:89 | the share r of part in whole satisfies r · whole = part · 100 when whole > 0, and r is 0.0 when whole is 0 |
| `Percent.PercentageBounds` | helpers.py:89 | when num_all <= num_first the percentage lies in 0..100, and it is 100 exactly when num_first > 0 and num_all == num_first |
| `CoDraft.PlayerKeys` | helpers.py:72-78 | the (draft, slot) key of every row naming the player is in the set, and every key in the set comes from such a row |
| `CoDraft.Intersection` | helpers.py:85 | a key is in the intersection exactly when it is in every set of the list |
| `CoDraft.CoDraftMultiple` | helpers.py:67-97 | the loop gathers each player's (draft, slot) set in list order; the result equals the reference `CoDraftSummary`, which fails on an empty list |
| `CoDraft.CoDraftSummary` | helpers.py:67-97 | the query fails exactly when the player list is empty, with the source's message; a result echoes the player list. Its counts and common pairs are stated by `CommonPairsMeaning` |
| `CoDraft.CommonPairsMeaning` | helpers.py:71-96 | a (draft, slot) is a common pair exactly when every listed player was picked by that team in that draft. num_first is the number of the first player's teams, num_all the number of common pairs, and the percentage is guarded against num_first = 0 |
| `CoDraft.CommonWithinFirst` | helpers.py:82-88 | the common pairs are a subset of the first player's pairs, so num_all <= num_first |
| `CoDraft.OrderIndependent` | helpers.py:85-88 | any permutation of the player list gives the same common pairs and the same num_all |
| `CoDraft.FortyPercentTogether` | helpers.py:82-89 | for two players, when the first was drafted by 10 teams and 4 of those also drafted the second, num_first = 10, num_all = 4 and the percentage is 40 |
| `CoDraft.SinglePlayer` | helpers.py:85-89 | for one player the common pairs are that player's pairs and num_all == num_first. The percentage is 100, or 0.0 when the player was never drafted |

## Left out

- Loading the draft and player CSV files and joining player metadata (helpers.py:109-122) are file I/O and a pandas merge. So is the `print` of the table head (helpers.py:130). The model starts from the rows in memory.
- All of `main.py` is left out: the Streamlit page, upload, widgets, the roster listing for the common pairs and the rendering of tables.
- Percentages are exact `real` numbers, not IEEE doubles.
- `np.ceil(p / NUM_TEAMS)` is modelled as exact integer ceiling division. Floating-point rounding for pick numbers beyond 2^53 is not modelled.
- Missing values (NaN names or slots) are not modelled, and neither are the column layout or dtypes of the returned DataFrames. The distribution is a sequence of (next player, count, pct) rows.
- `SNAKEDRAFTNUM` is modelled as an integer; player names are strings.
- NextPick.DistributionOrder: only non-increasing counts are stated. Among equal counts the model keeps first-occurrence order (a stable insertion sort), but the tie order of `value_counts` is implementation-defined, so no tie order is claimed.
- `helpers.py` raises nothing for an out-of-range position or slot, so the model has no error path there. It proves instead that the position and the slot always lie in 1..numTeams.
- A single-player co-draft gives 100 percent, except that a player who was never drafted gives 0.0, not 100. `CoDraft.SinglePlayer` states both cases.
