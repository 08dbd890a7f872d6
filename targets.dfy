/** The per-slot target state and what a target-update frame does to it:
    the x-axis flip, the distance gate with its hysteresis margin, and the
    occupancy recomputed from the slots. */
module Targets {
  import opened Wire

  /** One tracked slot: the values it stores and whether it reports itself
      present. How a target decides that it is present (its hold-off and
      fast-off logic) is not part of this model; see PresenceRule. */
  datatype Target = Target(reading: Reading, present: bool)

  /** A slot after `clear()`: zero values, absent. */
  const Cleared := Target(Reading(0, 0, 0, 0), false)

  /** The presence a target reports after `update_values`, as a function of
      its previous state and the new values. */
  type PresenceRule = (Target, Reading) -> bool

  /** `update_values(x, y, speed, distance_resolution)`. */
  function UpdateValues(t: Target, r: Reading, presence: PresenceRule): (u: Target)
    ensures u.reading == r
  {
    Target(r, presence(t, r))
  }

  /** The hub's gating settings: `flip_x_axis_`, `max_detection_distance_`
      and `max_distance_margin_`. */
  datatype Gating = Gating(flipX: bool, maxDistance: int, maxMargin: int)

  /** `x = x * (flip_x_axis_ ? -1 : 1)` in an `int16_t`; on decoded values
      the narrowing never bites, so x is negated exactly when flipping. */
  function Flipped(r: Reading, flipX: bool): (f: Reading)
    ensures f.y == r.y && f.speed == r.speed && f.resolution == r.resolution
    ensures -0x7FFF <= r.x <= 0x7FFF ==> f.x == (if flipX then -r.x else r.x)
    ensures InRange(r) ==> InRange(f)
  {
    r.(x := Int16(r.x * (if flipX then -1 else 1)))
  }

  /** One slot of `process_message`: the decoded record is flipped, stored
      unconditionally, then stored again when the target is near or still
      present within the margin, and cleared when it is beyond the margin. */
  function SlotAfter(t: Target, raw: Reading, g: Gating, presence: PresenceRule): (r: Target)
    requires InRange(raw)
    // the slot holds the frame's (flipped) values unless it is cleared
    ensures r == Cleared || r.reading == Flipped(raw, g.flipX)
    // a near target is always tracked
    ensures Flipped(raw, g.flipX).y <= g.maxDistance ==> r.reading == Flipped(raw, g.flipX)
    // a present target is kept up to and including the end of the margin
    ensures var rd := Flipped(raw, g.flipX);
      presence(t, rd) && rd.y <= g.maxDistance + g.maxMargin ==> r.reading == rd
    // near, or present within the margin: the values are stored a second
    // time, so presence is decided again against the first update
    ensures var rd := Flipped(raw, g.flipX);
      rd.y <= g.maxDistance || (presence(t, rd) && rd.y <= g.maxDistance + g.maxMargin) ==>
        r == UpdateValues(UpdateValues(t, rd, presence), rd, presence)
    // beyond the gate and not held by the margin: cleared
    ensures var rd := Flipped(raw, g.flipX);
      (rd.y > g.maxDistance && rd.y >= g.maxDistance + g.maxMargin &&
       !(presence(t, rd) && rd.y <= g.maxDistance + g.maxMargin)) ==> r == Cleared
    // inside the band and not present: left as the unconditional update made it
    ensures var rd := Flipped(raw, g.flipX);
      g.maxDistance < rd.y < g.maxDistance + g.maxMargin && !presence(t, rd) ==>
        r == UpdateValues(t, rd, presence)
  {
    var rd := Flipped(raw, g.flipX);
    var first := UpdateValues(t, rd, presence);
    if rd.y <= g.maxDistance || (first.present && rd.y <= g.maxDistance + g.maxMargin) then
      UpdateValues(first, rd, presence)
    else if rd.y >= g.maxDistance + g.maxMargin then
      Cleared
    else
      first
  }

  /** All slots after `process_message`: the first three are gated against
      the three records of the payload, any further slot is untouched. */
  function TargetsAfter(ts: seq<Target>, payload: seq<byte>, g: Gating, presence: PresenceRule): (r: seq<Target>)
    requires |ts| >= 3 && |payload| >= 24
    ensures |r| == |ts|
  {
    seq(|ts|, i requires 0 <= i < |ts| =>
      if i < 3 then SlotAfter(ts[i], DecodeRecord(payload, 8 * i), g, presence) else ts[i])
  }

  /** Slot `i < 3` is gated against the record at `8 * i`; the rest are
      untouched. */
  lemma TargetsAfterSlots(ts: seq<Target>, payload: seq<byte>, g: Gating, presence: PresenceRule)
    requires |ts| >= 3 && |payload| >= 24
    ensures forall i :: 0 <= i < 3 ==>
      TargetsAfter(ts, payload, g, presence)[i] == SlotAfter(ts[i], DecodeRecord(payload, 8 * i), g, presence)
    ensures forall i :: 3 <= i < |ts| ==> TargetsAfter(ts, payload, g, presence)[i] == ts[i]
  {
  }

  /** Only the first 24 bytes of the payload matter. */
  lemma TargetsAfterPrefix(ts: seq<Target>, p: seq<byte>, q: seq<byte>, g: Gating, presence: PresenceRule)
    requires |ts| >= 3 && |p| >= 24 && |q| >= 24 && p[..24] == q[..24]
    ensures TargetsAfter(ts, p, g, presence) == TargetsAfter(ts, q, g, presence)
  {
    forall k | 0 <= k < 24
      ensures p[k] == q[k]
    {
      assert p[k] == p[..24][k];
    }
    forall i | 0 <= i < 3
      ensures DecodeRecord(p, 8 * i) == DecodeRecord(q, 8 * i)
    {
    }
  }

  /** The number of slots that report themselves present (`target_count`). */
  function CountPresent(ts: seq<Target>): (n: nat)
    ensures n <= |ts|
    ensures n == 0 <==> forall i :: 0 <= i < |ts| ==> !ts[i].present
    ensures n == |ts| <==> forall i :: 0 <= i < |ts| ==> ts[i].present
  {
    if ts == [] then 0
    else CountPresent(ts[..|ts| - 1]) + (if ts[|ts| - 1].present then 1 else 0)
  }

  /** Occupancy as `process_message` computes it: occupied exactly when
      some slot is present. */
  predicate Occupied(ts: seq<Target>): (b: bool)
    ensures b <==> exists i :: 0 <= i < |ts| && ts[i].present
  {
    CountPresent(ts) > 0
  }

  /** Hysteresis at the boundary: a target that stays present after the
      update is kept at `y == D + M` (values updated, not cleared), while an
      absent one there is cleared when the margin is positive. */
  lemma MarginBoundary(t: Target, raw: Reading, g: Gating, presence: PresenceRule)
    requires InRange(raw) && g.maxMargin > 0
    requires Flipped(raw, g.flipX).y == g.maxDistance + g.maxMargin
    ensures presence(t, Flipped(raw, g.flipX)) ==> SlotAfter(t, raw, g, presence).reading == Flipped(raw, g.flipX)
    ensures !presence(t, Flipped(raw, g.flipX)) ==> SlotAfter(t, raw, g, presence) == Cleared
  {
  }
}
