/**
 * Saddle seats: the two short-circuit percentage rolls of UpdateHorse
 * (ChanceSucceeded over Random.Range(0, 100)) and SetSeatCount, which
 * encodes the seat count in the Reserved9 / Reserved10 entity flags.
 */
module Seating {
  import opened Wrappers
  import opened Entities

  /** A draw of Random.Range(0, 100): an int in [0, 100). */
  predicate IsPercentRoll(roll: int)
  {
    0 <= roll < 100
  }

  /** ChanceSucceeded: the roll falls below the percentage. */
  function ChanceSucceeded(percentage: int, roll: int): (ok: bool)
    requires IsPercentRoll(roll)
    ensures percentage >= 100 ==> ok
    ensures percentage <= 0 ==> !ok
  {
    roll < percentage
  }

  /** What UpdateHorse does with the seats (a seat count, or None for "flags untouched") and how many rolls it used. */
  datatype SeatDecision = SeatDecision(seats: Option<int>, rollsUsed: nat)

  /** The rolls the decision reads are percent rolls; the second is needed only when the first fails. */
  predicate SeatRollsValid(doubleChance: int, rolls: seq<int>)
  {
    |rolls| >= 1 && IsPercentRoll(rolls[0]) &&
    (rolls[0] >= doubleChance ==> |rolls| >= 2 && IsPercentRoll(rolls[1]))
  }

  /**
   * The seat decision of UpdateHorse. The double-seat roll comes first; the
   * single-seat roll is drawn only when it fails; when both fail the flags
   * are left as they are (not reset).
   */
  function DecideSeats(doubleChance: int, singleChance: int, rolls: seq<int>): (d: SeatDecision)
    requires SeatRollsValid(doubleChance, rolls)
    ensures d.seats == Some(2) <==> rolls[0] < doubleChance
    ensures d.seats == Some(1) <==> rolls[0] >= doubleChance && rolls[1] < singleChance
    ensures d.seats == None <==> rolls[0] >= doubleChance && rolls[1] >= singleChance
    ensures d.rollsUsed == if d.seats == Some(2) then 1 else 2
    ensures doubleChance >= 100 ==> d == SeatDecision(Some(2), 1)
    ensures doubleChance <= 0 && singleChance >= 100 ==> d.seats == Some(1)
    ensures doubleChance <= 0 && singleChance <= 0 ==> d.seats == None
  {
    if ChanceSucceeded(doubleChance, rolls[0]) then SeatDecision(Some(2), 1)
    else if ChanceSucceeded(singleChance, rolls[1]) then SeatDecision(Some(1), 2)
    else SeatDecision(None, 2)
  }

  /** The decision depends only on the rolls it uses: after a successful double-seat roll the next roll is left for later draws. */
  lemma DecisionReadsOnlyUsedRolls(doubleChance: int, singleChance: int, rolls: seq<int>, rest: seq<int>)
    requires SeatRollsValid(doubleChance, rolls)
    ensures var d := DecideSeats(doubleChance, singleChance, rolls);
      d.rollsUsed <= |rolls| &&
      SeatRollsValid(doubleChance, rolls[..d.rollsUsed] + rest) &&
      DecideSeats(doubleChance, singleChance, rolls[..d.rollsUsed] + rest) == d
  {
    var d := DecideSeats(doubleChance, singleChance, rolls);
    var r := rolls[..d.rollsUsed] + rest;
    assert r[0] == rolls[0];
    if d.rollsUsed == 2 {
      assert r[1] == rolls[1];
    }
  }

  /** Reserved9 and Reserved10 are never both set. */
  predicate SeatFlagsExclusive(flags: set<Flag>)
  {
    !(Reserved9 in flags && Reserved10 in flags)
  }

  /** The flags after SetSeatCount(numberOfSeats). */
  function SeatFlags(flags: set<Flag>, numberOfSeats: int): (r: set<Flag>)
    ensures Reserved9 in r <==> numberOfSeats == 1
    ensures Reserved10 in r <==> numberOfSeats == 2
    ensures SeatFlagsExclusive(r)
    ensures forall g :: g != Reserved9 && g != Reserved10 ==> (g in r <==> g in flags)
  {
    var cleared := flags - {Reserved9, Reserved10};
    if numberOfSeats == 1 then cleared + {Reserved9}
    else if numberOfSeats == 2 then cleared + {Reserved10}
    else cleared
  }

  /** Only the last SetSeatCount counts: an earlier call leaves no trace. */
  lemma LastSeatCountWins(flags: set<Flag>, first: int, second: int)
    ensures SeatFlags(SeatFlags(flags, first), second) == SeatFlags(flags, second)
  {
    var a, b := SeatFlags(SeatFlags(flags, first), second), SeatFlags(flags, second);
    forall g ensures g in a <==> g in b {
      if g != Reserved9 && g != Reserved10 {
        assert g in SeatFlags(flags, first) <==> g in flags;
      }
    }
  }

  /** Only the seat flags may differ, and the seat flags stay exclusive when they were. */
  predicate SeatUpdate(before: set<Flag>, after: set<Flag>)
  {
    after - {Reserved9, Reserved10} == before - {Reserved9, Reserved10} &&
    (SeatFlagsExclusive(before) ==> SeatFlagsExclusive(after))
  }

  /** The horse's flags after UpdateHorse's seat rolls: SetSeatCount for the decided count, or untouched when both rolls fail. */
  function FlagsAfterSeatRolls(flags: set<Flag>, doubleChance: int, singleChance: int, rolls: seq<int>): (after: set<Flag>)
    requires SeatRollsValid(doubleChance, rolls)
  {
    var d := DecideSeats(doubleChance, singleChance, rolls);
    if d.seats.Some? then SeatFlags(flags, d.seats.value) else flags
  }

  /** Whatever the rolls, UpdateHorse changes the flags only as a seat update. */
  lemma SeatRollsAreSeatUpdate(flags: set<Flag>, doubleChance: int, singleChance: int, rolls: seq<int>)
    requires SeatRollsValid(doubleChance, rolls)
    ensures SeatUpdate(flags, FlagsAfterSeatRolls(flags, doubleChance, singleChance, rolls))
  {
    var d := DecideSeats(doubleChance, singleChance, rolls);
    if d.seats.Some? {
      var r := SeatFlags(flags, d.seats.value);
      assert r - {Reserved9, Reserved10} == flags - {Reserved9, Reserved10};
    }
  }

  /** SetSeatCount: clear both seat flags, then set the one for 1 or 2 seats. */
  method SetSeatCount(horse: RidableHorse, numberOfSeats: int)
    modifies horse
    ensures horse.flags == SeatFlags(old(horse.flags), numberOfSeats)
  {
    horse.SetFlag(Reserved9, false);
    horse.SetFlag(Reserved10, false);
    if numberOfSeats == 1 {
      horse.SetFlag(Reserved9, true);
    } else if numberOfSeats == 2 {
      horse.SetFlag(Reserved10, true);
    }
  }
}
