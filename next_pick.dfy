/**
 * The next-pick distribution: for every row naming a player, the pick that
 * the same team made next in the same draft, and how often each next player
 * occurs, most frequent first.
 */
module NextPick {
  import opened Wrappers
  import opened DraftModel
  import opened Frequency
  import opened Percent

  /** Row j is a later pick of the team (same draft, same slot) that made row i. */
  predicate IsLaterTeamPick(rows: seq<Row>, i: nat, j: int)
    requires i < |rows|
  {
    && 0 <= j < |rows|
    && Key(rows[j]) == Key(rows[i])
    && rows[j].overallPick > rows[i].overallPick
  }

  /**
   * Among rows k.., the first row that holds the smallest later pick of the
   * team of row i (the first label reaching the minimum, as `idxmin` returns).
   */
  function EarliestLaterPick(rows: seq<Row>, i: nat, k: nat): (r: Option<nat>)
    requires i < |rows| && k <= |rows|
    ensures r.None? <==> forall j :: k <= j < |rows| ==> !IsLaterTeamPick(rows, i, j)
    ensures r.Some? ==> k <= r.value < |rows| && IsLaterTeamPick(rows, i, r.value)
    ensures r.Some? ==> forall j :: k <= j < |rows| && IsLaterTeamPick(rows, i, j) ==>
      rows[r.value].overallPick <= rows[j].overallPick
    ensures r.Some? ==> forall j :: k <= j < r.value && IsLaterTeamPick(rows, i, j) ==>
      rows[r.value].overallPick < rows[j].overallPick
    decreases |rows| - k
  {
    if k == |rows| then None
    else
      var rest := EarliestLaterPick(rows, i, k + 1);
      if IsLaterTeamPick(rows, i, k) &&
         (rest.None? || rows[k].overallPick <= rows[rest.value].overallPick)
      then Some(k)
      else rest
  }

  /**
   * The row of the next pick made by the team of row i in the same draft:
   * a later pick of that team with the smallest pick number, or None when row i
   * was the team's last pick.
   */
  function NextTeamPick(rows: seq<Row>, i: nat): (r: Option<nat>)
    requires i < |rows|
    ensures r.None? <==> forall j :: 0 <= j < |rows| ==> !IsLaterTeamPick(rows, i, j)
    ensures r.Some? ==> IsLaterTeamPick(rows, i, r.value)
    ensures r.Some? ==> forall j :: IsLaterTeamPick(rows, i, j) ==>
      rows[r.value].overallPick <= rows[j].overallPick
    ensures r.Some? ==> forall j :: 0 <= j < r.value && IsLaterTeamPick(rows, i, j) ==>
      rows[r.value].overallPick < rows[j].overallPick
  {
    EarliestLaterPick(rows, i, 0)
  }

  /**
   * The player that the team of row i took next, when row i names `player`
   * and its team made a later pick in that draft; None otherwise.
   */
  function NextPlayerAfter(rows: seq<Row>, player: string, i: nat): Option<string>
    requires i < |rows|
  {
    if rows[i].name != player then None
    else match NextTeamPick(rows, i)
      case Some(j) => Some(rows[j].name)
      case None => None
  }

  /** The next player of every row, None for the rows that contribute nothing. */
  function Followers(rows: seq<Row>, player: string): (f: seq<Option<string>>)
    ensures |f| == |rows|
  {
    seq(|rows|, i requires 0 <= i < |rows| => NextPlayerAfter(rows, player, i))
  }

  /** The next players after the occurrences of `player`, in row order (`next_players`). */
  function NextPlayers(rows: seq<Row>, player: string): seq<string>
  {
    Present(Followers(rows, player))
  }

  /** The occurrences of `player` after which the team took `next`. */
  ghost function OccurrencesFollowedBy(rows: seq<Row>, player: string, next: string): set<nat>
  {
    set i: nat | i < |rows| && NextPlayerAfter(rows, player, i) == Some(next)
  }

  /** The occurrences of `player` after which the team made another pick. */
  ghost function OccurrencesWithNext(rows: seq<Row>, player: string): set<nat>
  {
    set i: nat | i < |rows| && NextPlayerAfter(rows, player, i).Some?
  }

  /** Each name occurs in the next players once per occurrence it followed. */
  lemma NextPlayersCount(rows: seq<Row>, player: string, next: string)
    ensures multiset(NextPlayers(rows, player))[next] == |OccurrencesFollowedBy(rows, player, next)|
  {
    var f := Followers(rows, player);
    PresentCount(f, next);
    assert OccurrencesFollowedBy(rows, player, next) == IndicesOf(f, next);
  }

  /** There is one next player per occurrence that has a next pick. */
  lemma NextPlayersLength(rows: seq<Row>, player: string)
    ensures |NextPlayers(rows, player)| == |OccurrencesWithNext(rows, player)|
  {
    var f := Followers(rows, player);
    PresentLength(f);
    assert OccurrencesWithNext(rows, player) == PresentIndices(f);
  }

  /** Some occurrence has a next pick exactly when the next players are not empty. */
  lemma NextPlayersNonEmpty(rows: seq<Row>, player: string)
    ensures NextPlayers(rows, player) != [] <==>
      exists i, j | 0 <= i < |rows| && 0 <= j < |rows| ::
        rows[i].name == player && IsLaterTeamPick(rows, i, j)
  {
    NextPlayersLength(rows, player);
    var occ := OccurrencesWithNext(rows, player);
    if NextPlayers(rows, player) != [] {
      assert occ != {};
      var i :| i in occ;
      var j := NextTeamPick(rows, i).value;
      assert 0 <= j < |rows| && rows[i].name == player && IsLaterTeamPick(rows, i, j);
    }
    if exists i, j | 0 <= i < |rows| && 0 <= j < |rows| ::
        rows[i].name == player && IsLaterTeamPick(rows, i, j) {
      var i, j :| 0 <= i < |rows| && 0 <= j < |rows| &&
        rows[i].name == player && IsLaterTeamPick(rows, i, j);
      assert i in occ;
    }
  }

  /** One row of the distribution: a next player, how often, and its share in percent. */
  datatype Entry = Entry(nextPlayer: string, count: nat, pct: real)

  /** Adds each row's share of `total`, in percent. */
  function WithPercentages(t: seq<Count>, total: nat): (r: seq<Entry>)
    requires total > 0
    ensures |r| == |t|
    ensures forall k :: 0 <= k < |t| ==> r[k].nextPlayer == t[k].name && r[k].count == t[k].count
    ensures forall k :: 0 <= k < |t| ==> r[k].pct == Percentage(t[k].count, total)
  {
    if t == [] then
      []
    else
      [Entry(t[0].name, t[0].count, Percentage(t[0].count, total))]
      + WithPercentages(t[1..], total)
  }

  /** When the counts add up to at most the total, every share lies between 0 and 100 percent. */
  lemma {:induction false} SharesBounded(t: seq<Count>, total: nat)
    requires total > 0 && Sum(t) <= total
    ensures forall k :: 0 <= k < |t| ==> 0.0 <= WithPercentages(t, total)[k].pct <= 100.0
  {
    if t != [] {
      SharesBounded(t[1..], total);
      PercentageBounds(t[0].count, total);
    }
  }

  function SumCounts(d: seq<Entry>): nat
  {
    if d == [] then 0 else d[0].count + SumCounts(d[1..])
  }

  function SumPct(d: seq<Entry>): real
  {
    if d == [] then 0.0 else d[0].pct + SumPct(d[1..])
  }

  lemma {:induction false} PercentagesAddUp(t: seq<Count>, total: nat)
    requires total > 0
    ensures SumCounts(WithPercentages(t, total)) == Sum(t)
    ensures SumPct(WithPercentages(t, total)) == Percentage(Sum(t), total)
  {
    if t != [] {
      PercentagesAddUp(t[1..], total);
      PercentageAdds(t[0].count, Sum(t[1..]), total);
    }
  }

  /**
   * The distribution of the players that the same team took next in the same
   * draft after `player`, most frequent first.
   */
  function NextPickDistribution(rows: seq<Row>, player: string): (d: seq<Entry>)
    ensures forall k :: 0 <= k < |d| ==> 0.0 <= d[k].pct <= 100.0
  {
    if !(exists i | 0 <= i < |rows| :: rows[i].name == player) then []
    else if !(exists i, j | 0 <= i < |rows| && 0 <= j < |rows| ::
                rows[i].name == player && IsLaterTeamPick(rows, i, j)) then []
    else
      var next := NextPlayers(rows, player);
      var dist := ValueCounts(next);
      NextPlayersNonEmpty(rows, player);
      ValueCountsFacts(next);
      SharesBounded(dist, Sum(dist));
      WithPercentages(dist, Sum(dist))
  }

  /** The distribution is empty exactly when no occurrence of the player has a next team pick. */
  lemma DistributionEmptyIff(rows: seq<Row>, player: string)
    ensures NextPickDistribution(rows, player) == [] <==>
      forall i :: 0 <= i < |rows| && rows[i].name == player ==> NextTeamPick(rows, i).None?
  {
    NextPlayersNonEmpty(rows, player);
    var next := NextPlayers(rows, player);
    ValueCountsFacts(next);
    if next != [] {
      assert next[0] in next;
    }
  }

  /** The distribution is the percentage table of the next players' frequency table, or empty when there are none. */
  lemma DistributionShape(rows: seq<Row>, player: string)
    ensures var next := NextPlayers(rows, player);
      var d := NextPickDistribution(rows, player);
      if next == [] then d == []
      else Sum(ValueCounts(next)) == |next| > 0 && d == WithPercentages(ValueCounts(next), |next|)
  {
    NextPlayersNonEmpty(rows, player);
    var next := NextPlayers(rows, player);
    ValueCountsFacts(next);
  }

  /**
   * Each row of the distribution names a next player with the number of
   * occurrences of `player` that it followed, which is positive, and with
   * that number's share of all occurrences that have a next pick.
   */
  lemma DistributionRows(rows: seq<Row>, player: string)
    ensures var d := NextPickDistribution(rows, player);
      forall k :: 0 <= k < |d| ==>
        && d[k].count == |OccurrencesFollowedBy(rows, player, d[k].nextPlayer)| > 0
        && d[k].pct == Percentage(d[k].count, |OccurrencesWithNext(rows, player)|)
  {
    DistributionShape(rows, player);
    NextPlayersLength(rows, player);
    var d := NextPickDistribution(rows, player);
    var next := NextPlayers(rows, player);
    ValueCountsFacts(next);
    forall k | 0 <= k < |d|
      ensures d[k].count == |OccurrencesFollowedBy(rows, player, d[k].nextPlayer)| > 0
    {
      NextPlayersCount(rows, player, d[k].nextPlayer);
    }
  }

  /** The rows of the distribution have distinct next players and non-increasing counts. */
  lemma DistributionOrder(rows: seq<Row>, player: string)
    ensures var d := NextPickDistribution(rows, player);
      && (forall a, b :: 0 <= a < b < |d| ==> d[a].nextPlayer != d[b].nextPlayer)
      && (forall a, b :: 0 <= a < b < |d| ==> d[a].count >= d[b].count)
  {
    DistributionShape(rows, player);
    ValueCountsFacts(NextPlayers(rows, player));
  }

  /** Every player taken next after an occurrence of `player` has a row. */
  lemma DistributionComplete(rows: seq<Row>, player: string, i: nat, name: string)
    requires i < |rows| && NextPlayerAfter(rows, player, i) == Some(name)
    ensures var d := NextPickDistribution(rows, player);
      exists k :: 0 <= k < |d| && d[k].nextPlayer == name
  {
    var next := NextPlayers(rows, player);
    NextPlayersCount(rows, player, name);
    assert i in OccurrencesFollowedBy(rows, player, name);
    assert multiset(next)[name] > 0;
    assert name in next;
    DistributionShape(rows, player);
    ValueCountsFacts(next);
  }

  /**
   * The counts add up to the number of occurrences that have a next pick, and
   * a non-empty distribution's shares add up to 100 percent.
   */
  lemma DistributionTotals(rows: seq<Row>, player: string)
    ensures var d := NextPickDistribution(rows, player);
      && SumCounts(d) == |OccurrencesWithNext(rows, player)|
      && (d != [] ==> SumPct(d) == 100.0)
  {
    DistributionShape(rows, player);
    NextPlayersLength(rows, player);
    var next := NextPlayers(rows, player);
    var d := NextPickDistribution(rows, player);
    if next == [] {
      assert SumCounts(d) == 0;
    } else {
      var dist := ValueCounts(next);
      PercentagesAddUp(dist, |next|);
      PercentageBounds(|next|, |next|);
    }
  }
}
