/**
 * The co-draft query: how often a list of players all went to the same team
 * in the same draft, compared with how often the first of them was drafted.
 */
module CoDraft {
  import opened Wrappers
  import opened DraftModel
  import opened Percent

  /** The teams (draft, slot) that drafted `player`. */
  function PlayerKeys(rows: seq<Row>, player: string): (r: set<TeamKey>)
    ensures forall i :: 0 <= i < |rows| && rows[i].name == player ==> Key(rows[i]) in r
    ensures forall key :: key in r ==>
      exists i :: 0 <= i < |rows| && rows[i].name == player && Key(rows[i]) == key
  {
    set i | 0 <= i < |rows| && rows[i].name == player :: Key(rows[i])
  }

  /** The intersection of a non-empty list of sets. */
  function Intersection(sets: seq<set<TeamKey>>): (r: set<TeamKey>)
    requires |sets| > 0
    ensures forall x :: x in r <==> forall k :: 0 <= k < |sets| ==> x in sets[k]
  {
    if |sets| == 1 then sets[0] else sets[0] * Intersection(sets[1..])
  }

  /** The result of the query. */
  datatype Summary = Summary(
    players: seq<string>,
    numFirst: nat,
    numAll: nat,
    pctTogether: real,
    commonPairs: set<TeamKey>)

  const NoPlayers: string := "Please supply at least one player name."

  /** The query as a function of the table and the player list. */
  function CoDraftSummary(rows: seq<Row>, players: seq<string>): (r: Result<Summary>)
    ensures r.Err? <==> players == []
    ensures r.Err? ==> r.message == NoPlayers
    ensures r.Ok? ==> r.value.players == players
  {
    if players == [] then Err(NoPlayers)
    else
      var sets := seq(|players|, k requires 0 <= k < |players| => PlayerKeys(rows, players[k]));
      var common := Intersection(sets);
      Ok(Summary(players, |sets[0]|, |common|, Percentage(|common|, |sets[0]|), common))
  }

  /** Collects each player's teams into a list, then intersects the list. */
  method CoDraftMultiple(rows: seq<Row>, players: seq<string>) returns (r: Result<Summary>)
    ensures r == CoDraftSummary(rows, players)
  {
    if players == [] {
      return Err(NoPlayers);
    }
    var pairSets: seq<set<TeamKey>> := [];
    for i := 0 to |players|
      invariant |pairSets| == i
      invariant forall k :: 0 <= k < i ==> pairSets[k] == PlayerKeys(rows, players[k])
    {
      var ps := PlayerKeys(rows, players[i]);
      pairSets := pairSets + [ps];
    }
    var firstSet := pairSets[0];
    var common := Intersection(pairSets);
    var numFirst := |firstSet|;
    var numAll := |common|;
    var pct := Percentage(numAll, numFirst);
    r := Ok(Summary(players, numFirst, numAll, pct, common));
    assert pairSets == seq(|players|, k requires 0 <= k < |players| => PlayerKeys(rows, players[k]));
  }

  /**
   * A team is a common pair exactly when every listed player was drafted by it;
   * the counts are those of the first player's teams and of the common pairs.
   */
  lemma CommonPairsMeaning(rows: seq<Row>, players: seq<string>)
    requires players != []
    ensures var s := CoDraftSummary(rows, players).value;
      && s.players == players
      && s.numFirst == |PlayerKeys(rows, players[0])|
      && s.numAll == |s.commonPairs|
      && s.pctTogether == Percentage(s.numAll, s.numFirst)
      && forall key :: key in s.commonPairs <==>
           forall p :: p in players ==> key in PlayerKeys(rows, p)
  {
    var sets := seq(|players|, k requires 0 <= k < |players| => PlayerKeys(rows, players[k]));
    var s := CoDraftSummary(rows, players).value;
    forall key ensures key in s.commonPairs <==>
      forall p :: p in players ==> key in PlayerKeys(rows, p)
    {
      if key in s.commonPairs {
        forall p | p in players ensures key in PlayerKeys(rows, p) {
          var k :| 0 <= k < |players| && players[k] == p;
          assert key in sets[k];
        }
      }
    }
  }

  /** Every common pair is one of the first player's teams, so num_all <= num_first. */
  lemma CommonWithinFirst(rows: seq<Row>, players: seq<string>)
    requires players != []
    ensures var s := CoDraftSummary(rows, players).value;
      s.commonPairs <= PlayerKeys(rows, players[0]) && s.numAll <= s.numFirst
  {
    CommonPairsMeaning(rows, players);
    var s := CoDraftSummary(rows, players).value;
    assert players[0] in players;
    assert s.commonPairs <= PlayerKeys(rows, players[0]);
    SubsetCardinality(s.commonPairs, PlayerKeys(rows, players[0]));
  }

  lemma SubsetCardinality(a: set<TeamKey>, b: set<TeamKey>)
    requires a <= b
    ensures |a| <= |b|
  {
    assert b == a + (b - a);
  }

  /** Reordering the player list leaves the common pairs and their number unchanged. */
  lemma OrderIndependent(rows: seq<Row>, players: seq<string>, reordered: seq<string>)
    requires players != []
    requires multiset(players) == multiset(reordered)
    ensures reordered != []
    ensures CoDraftSummary(rows, reordered).value.commonPairs
         == CoDraftSummary(rows, players).value.commonPairs
    ensures CoDraftSummary(rows, reordered).value.numAll
         == CoDraftSummary(rows, players).value.numAll
  {
    assert players[0] in multiset(reordered);
    CommonPairsMeaning(rows, players);
    CommonPairsMeaning(rows, reordered);
    forall p ensures p in players <==> p in reordered {
      assert p in players <==> p in multiset(players);
      assert p in reordered <==> p in multiset(reordered);
    }
  }

  /** A single player is always drafted with itself: 100 percent unless never drafted. */
  lemma SinglePlayer(rows: seq<Row>, player: string)
    ensures var s := CoDraftSummary(rows, [player]).value;
      && s.commonPairs == PlayerKeys(rows, player)
      && s.numAll == s.numFirst
      && s.pctTogether == if s.numFirst == 0 then 0.0 else 100.0
  {
    var s := CoDraftSummary(rows, [player]).value;
    CommonPairsMeaning(rows, [player]);
    assert s.commonPairs == PlayerKeys(rows, player);
    PercentageBounds(s.numAll, s.numFirst);
  }

  /**
   * Two players: the first drafted by ten teams, four of which also drafted
   * the second, are drafted together 40 percent of the time.
   */
  lemma FortyPercentTogether(rows: seq<Row>, a: string, b: string)
    requires |PlayerKeys(rows, a)| == 10
    requires |PlayerKeys(rows, a) * PlayerKeys(rows, b)| == 4
    ensures var s := CoDraftSummary(rows, [a, b]).value;
      s.numFirst == 10 && s.numAll == 4 && s.pctTogether == 40.0
  {
    var s := CoDraftSummary(rows, [a, b]).value;
    CommonPairsMeaning(rows, [a, b]);
    assert s.commonPairs == PlayerKeys(rows, a) * PlayerKeys(rows, b);
  }
}
