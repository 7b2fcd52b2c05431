// What is common to the two places that write to a non-blocking output stream of the host: ask for a permit, write
// that much, wait where there is no room.
module HostStreams {
  import opened Common

  /** What `check-write` reports at a poll. */
  datatype Permit = Allowed(bytes: nat) | Refused

  /** How many of the polls after `from` up to `to` find no room to write. */
  ghost function Stalls(permits: nat -> Permit, from: nat, to: nat): (n: nat)
    decreases to
  {
    if to <= from then 0 else Stalls(permits, from, to - 1) + if permits(to) == Allowed(0) then 1 else 0
  }

  /** How much the polls after `from` up to `to` allow in all. */
  ghost function Room(permits: nat -> Permit, from: nat, to: nat): (n: nat)
    decreases to
  {
    if to <= from then 0
    else Room(permits, from, to - 1) + if permits(to).Allowed? then permits(to).bytes else 0
  }

  lemma {:induction false} StallsAdd(permits: nat -> Permit, a: nat, b: nat, c: nat)
    requires a <= b <= c
    ensures Stalls(permits, a, c) == Stalls(permits, a, b) + Stalls(permits, b, c)
    decreases c
  {
    if b < c {
      StallsAdd(permits, a, b, c - 1);
    }
  }

  lemma PrefixGrows(before: Bytes, p: Bytes, written: nat, chunk: Bytes)
    requires written + |chunk| <= |p| && chunk == p[written..written + |chunk|]
    ensures before + p[..written] + chunk == before + p[..written + |chunk|]
    ensures before <= before + p[..written] <= before + p
  {
  }
}
