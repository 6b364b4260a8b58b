/**
 * Snake-draft positions: the round and the position within the round of an
 * overall pick number, and the team slot that owns that pick.  Picks go
 * 1..numTeams in odd rounds and numTeams..1 in even rounds.
 */
module DraftModel {

  /** One raw row of the draft table: which draft, which overall pick, which player. */
  datatype Pick = Pick(draftId: int, overallPick: int, name: string)

  /** A row of the enriched table, as the analyses read it: a raw row with its team slot. */
  datatype Row = Row(draftId: int, overallPick: int, name: string, draftSlot: int)

  /** A team inside one draft: (draft, slot). */
  type TeamKey = (int, int)

  lemma MulMonotone(a: int, b: int, n: int)
    requires n >= 1 && a <= b
    ensures a * n <= b * n
  {
    assert b * n - a * n == (b - a) * n;
  }

  /** The round of an overall pick: `ceil(pick / numTeams)` computed on integers. */
  function Round(pick: int, numTeams: int): (r: int)
    requires numTeams >= 1
    ensures (r - 1) * numTeams < pick <= r * numTeams
    ensures pick >= 1 <==> r >= 1
  {
    var q := (-pick) / numTeams;
    assert -pick == q * numTeams + (-pick) % numTeams;
    assert (-q) * numTeams == -(q * numTeams);
    assert (-q - 1) * numTeams == (-q) * numTeams - numTeams;
    if -q <= 0 then MulMonotone(-q, 0, numTeams); -q
    else MulMonotone(0, -q - 1, numTeams); -q
  }

  /** The round is the only r with (r - 1) * numTeams < pick <= r * numTeams. */
  lemma RoundUnique(pick: int, numTeams: int, r: int)
    requires numTeams >= 1
    requires (r - 1) * numTeams < pick <= r * numTeams
    ensures Round(pick, numTeams) == r
  {
    var q := Round(pick, numTeams);
    if q < r {
      MulMonotone(q, r - 1, numTeams);
    } else if q > r {
      MulMonotone(r, q - 1, numTeams);
    }
  }

  /** The 1-based position of a pick inside its round. */
  function PickInRound(pick: int, numTeams: int): (k: int)
    requires numTeams >= 1
    ensures 1 <= k <= numTeams
  {
    pick - (Round(pick, numTeams) - 1) * numTeams
  }

  /** The slots 1..numTeams. */
  function SlotRange(numTeams: int): (r: set<int>)
    ensures forall s :: s in r <==> 1 <= s <= numTeams
    decreases numTeams
  {
    if numTeams <= 0 then {} else SlotRange(numTeams - 1) + {numTeams}
  }

  /** The team slot that makes the pick at `pickInRound` in `round`. */
  function Slot(round: int, pickInRound: int, numTeams: int): (s: int)
    ensures 1 <= pickInRound <= numTeams ==> 1 <= s <= numTeams
  {
    if round % 2 == 1 then
      pickInRound         // odd round: forward order
    else
      numTeams - pickInRound + 1  // even round: reversed order
  }

  /** The team slot owning an overall pick (the `draft_slot` column). */
  function DraftSlot(pick: int, numTeams: int): (s: int)
    requires numTeams >= 1
    ensures 1 <= s <= numTeams
  {
    Slot(Round(pick, numTeams), PickInRound(pick, numTeams), numTeams)
  }

  /** The (draft, slot) pair of a row. */
  function Key(r: Row): TeamKey
  {
    (r.draftId, r.draftSlot)
  }

  /** The overall pick number that `slot` makes in `round`: the inverse of the derivation. */
  function PickNumber(round: int, slot: int, numTeams: int): int
  {
    (round - 1) * numTeams + (if round % 2 == 1 then slot else numTeams - slot + 1)
  }

  /** Every pick is recovered from its round and its slot. */
  lemma PickFromRoundAndSlot(pick: int, numTeams: int)
    requires numTeams >= 1
    ensures PickNumber(Round(pick, numTeams), DraftSlot(pick, numTeams), numTeams) == pick
  {
  }

  /** Every slot of every round owns exactly the pick PickNumber names. */
  lemma RoundAndSlotOfPickNumber(round: int, slot: int, numTeams: int)
    requires numTeams >= 1 && 1 <= slot <= numTeams
    ensures Round(PickNumber(round, slot, numTeams), numTeams) == round
    ensures DraftSlot(PickNumber(round, slot, numTeams), numTeams) == slot
  {
    var p := PickNumber(round, slot, numTeams);
    RoundUnique(p, numTeams, round);
  }

  /** The picks of one round go to distinct slots, and together to all slots 1..numTeams. */
  lemma RoundIsPermutationOfSlots(round: int, numTeams: int)
    requires numTeams >= 1
    ensures forall p, q ::
      ((round - 1) * numTeams < p <= round * numTeams &&
       (round - 1) * numTeams < q <= round * numTeams &&
       DraftSlot(p, numTeams) == DraftSlot(q, numTeams)) ==> p == q
    ensures (set p | (round - 1) * numTeams < p <= round * numTeams :: DraftSlot(p, numTeams))
      == SlotRange(numTeams)
  {
    forall p, q |
      (round - 1) * numTeams < p <= round * numTeams &&
      (round - 1) * numTeams < q <= round * numTeams &&
      DraftSlot(p, numTeams) == DraftSlot(q, numTeams)
      ensures p == q
    {
      RoundUnique(p, numTeams, round);
      RoundUnique(q, numTeams, round);
      PickFromRoundAndSlot(p, numTeams);
      PickFromRoundAndSlot(q, numTeams);
    }
    var slots := set p | (round - 1) * numTeams < p <= round * numTeams :: DraftSlot(p, numTeams);
    forall s | s in SlotRange(numTeams)
      ensures s in slots
    {
      RoundAndSlotOfPickNumber(round, s, numTeams);
      var p := PickNumber(round, s, numTeams);
      assert (round - 1) * numTeams < p <= round * numTeams;
    }
  }

  /** Inside a round, the position grows with the overall pick number. */
  lemma PickInRoundIncreasing(p: int, q: int, numTeams: int)
    requires numTeams >= 1 && p < q && Round(p, numTeams) == Round(q, numTeams)
    ensures PickInRound(p, numTeams) < PickInRound(q, numTeams)
  {
  }

  /** The snake turn: the last pick of a round and the first pick of the next belong to one team. */
  lemma SnakeTurn(round: int, numTeams: int)
    requires numTeams >= 1
    ensures DraftSlot(round * numTeams, numTeams) == DraftSlot(round * numTeams + 1, numTeams)
  {
    RoundUnique(round * numTeams, numTeams, round);
    RoundUnique(round * numTeams + 1, numTeams, round + 1);
  }

  /** The slot of a pick, given the round it falls in. */
  lemma DraftSlotInRound(pick: int, numTeams: int, round: int)
    requires numTeams >= 1
    requires (round - 1) * numTeams < pick <= round * numTeams
    ensures DraftSlot(pick, numTeams) == Slot(round, pick - (round - 1) * numTeams, numTeams)
  {
    RoundUnique(pick, numTeams, round);
  }

  /**
   * The first two rounds: picks 1..numTeams go to slots 1..numTeams and picks
   * numTeams+1..2*numTeams to slots numTeams..1, so with twelve teams pick 13
   * goes to slot 12 and pick 24 to slot 1; pick 2*numTeams+1 goes back to slot 1.
   */
  lemma FirstTwoRounds(numTeams: int)
    requires numTeams >= 1
    ensures forall p :: 1 <= p <= numTeams ==> DraftSlot(p, numTeams) == p
    ensures forall p :: numTeams < p <= 2 * numTeams ==> DraftSlot(p, numTeams) == 2 * numTeams + 1 - p
    ensures DraftSlot(2 * numTeams + 1, numTeams) == 1
  {
    forall p | 1 <= p <= numTeams ensures DraftSlot(p, numTeams) == p {
      DraftSlotInRound(p, numTeams, 1);
    }
    forall p | numTeams < p <= 2 * numTeams ensures DraftSlot(p, numTeams) == 2 * numTeams + 1 - p {
      DraftSlotInRound(p, numTeams, 2);
    }
    DraftSlotInRound(2 * numTeams + 1, numTeams, 3);
  }

  /**
   * The draft table with the derived columns that loading adds to it in place:
   * `round`, `pick_in_round` and `draft_slot`, one entry per row.
   */
  class DraftFrame {
    var rows: seq<Pick>
    var round: seq<int>
    var pickInRound: seq<int>
    var draftSlot: seq<int>

    constructor (rows: seq<Pick>)
      ensures this.rows == rows && round == [] && pickInRound == [] && draftSlot == []
    {
      this.rows := rows;
      round, pickInRound, draftSlot := [], [], [];
    }

    /** Every row carries its round, its position in the round and its team slot. */
    ghost predicate Enriched(numTeams: int)
      reads this
      requires numTeams >= 1
    {
      && |round| == |pickInRound| == |draftSlot| == |rows|
      && (forall i :: 0 <= i < |rows| ==> round[i] == Round(rows[i].overallPick, numTeams))
      && (forall i :: 0 <= i < |rows| ==> pickInRound[i] == rows[i].overallPick - (round[i] - 1) * numTeams)
      && (forall i :: 0 <= i < |rows| ==> draftSlot[i] == Slot(round[i], pickInRound[i], numTeams))
    }

    /** The enriched table: each raw row with its `draft_slot`. */
    function Table(): (t: seq<Row>)
      reads this
      requires |draftSlot| == |rows|
      ensures |t| == |rows|
    {
      var r, s := rows, draftSlot;
      seq(|r|, i requires 0 <= i < |r| && |s| == |r| => Row(r[i].draftId, r[i].overallPick, r[i].name, s[i]))
    }

    /** Adds the three derived columns, one after the other, as loading does. */
    method AddDraftColumns(numTeams: int)
      requires numTeams >= 1
      modifies this
      ensures rows == old(rows) && Enriched(numTeams)
      ensures forall i :: 0 <= i < |rows| ==>
        && 1 <= pickInRound[i] <= numTeams
        && Table()[i] == Row(rows[i].draftId, rows[i].overallPick, rows[i].name, DraftSlot(rows[i].overallPick, numTeams))
    {
      var r := rows;
      round := seq(|r|, i requires 0 <= i < |r| => Round(r[i].overallPick, numTeams));
      var rd := round;
      pickInRound := seq(|r|, i requires 0 <= i < |r| && |rd| == |r| => r[i].overallPick - (rd[i] - 1) * numTeams);
      var pr := pickInRound;
      draftSlot := seq(|r|, i requires 0 <= i < |r| && |rd| == |pr| == |r| => Slot(rd[i], pr[i], numTeams));
      EnrichedColumns(this, numTeams);
    }
  }

  /** Enriched columns hold each row's position in its round and its team slot. */
  lemma EnrichedColumns(f: DraftFrame, numTeams: int)
    requires numTeams >= 1 && f.Enriched(numTeams)
    ensures forall i :: 0 <= i < |f.rows| ==>
      && 1 <= f.pickInRound[i] <= numTeams
      && f.Table()[i] == Row(f.rows[i].draftId, f.rows[i].overallPick, f.rows[i].name,
                             DraftSlot(f.rows[i].overallPick, numTeams))
  {
    forall i | 0 <= i < |f.rows|
      ensures 1 <= f.pickInRound[i] <= numTeams
      ensures f.Table()[i].draftSlot == DraftSlot(f.rows[i].overallPick, numTeams)
    {
      assert f.pickInRound[i] == PickInRound(f.rows[i].overallPick, numTeams);
    }
  }
}
