/**
 * lib/dhcp/lease_db.h: the lease table, a fixed number of slots each holding a
 * client hash and the absolute time its lease ends; hash 0 marks a free slot.
 * The index of a slot is the client's offset into the address range.
 *
 * The functions below state what each operation does to the slots as a
 * sequence; class LeaseDb holds the slots in an array and updates them in
 * place with the source's loops, proved to agree with those functions.
 */
module LeaseDatabase {
  import opened Wrappers

  /** struct lease. */
  datatype Lease = Lease(clientHash: bv32, leaseEnd: nat)

  /** The value of a free slot, as the table starts and as flush_expired leaves it. */
  const Free := Lease(0, 0)

  predicate Occupied(l: Lease)
  {
    l.clientHash != 0
  }

  /** The lowest index at or after `from` whose slot holds hash h. */
  function FirstWith(s: seq<Lease>, h: bv32, from: nat): (r: Option<nat>)
    decreases |s| - from
    ensures r.Some? ==> from <= r.value < |s| && s[r.value].clientHash == h
    ensures r.Some? ==> forall j :: from <= j < r.value ==> s[j].clientHash != h
    ensures r.None? <==> forall j :: from <= j < |s| ==> s[j].clientHash != h
  {
    if from >= |s| then None
    else if s[from].clientHash == h then Some(from)
    else FirstWith(s, h, from + 1)
  }

  /** get_lease(h): the first slot holding h; never a slot for the free marker 0. */
  function Lookup(s: seq<Lease>, h: bv32): (r: Option<nat>)
    ensures r.Some? <==> h != 0 && exists j :: 0 <= j < |s| && s[j].clientHash == h
    ensures r.Some? ==> r.value < |s| && s[r.value].clientHash == h
    ensures r.Some? ==> forall j :: 0 <= j < r.value ==> s[j].clientHash != h
  {
    if h == 0 then None else FirstWith(s, h, 0)
  }

  /**
   * new_lease(h, _): the slot it takes, if any. None for h = 0, for a client
   * that already holds a slot, and for a full table; otherwise the lowest free slot.
   */
  function NewLeaseSlot(s: seq<Lease>, h: bv32): (r: Option<nat>)
    ensures r.None? <==>
      h == 0 || Lookup(s, h).Some? || forall j :: 0 <= j < |s| ==> Occupied(s[j])
    ensures r.Some? ==> r.value < |s| && !Occupied(s[r.value])
    ensures r.Some? ==> forall j :: 0 <= j < r.value ==> Occupied(s[j])
  {
    if h == 0 || Lookup(s, h).Some? then None else FirstWith(s, 0, 0)
  }

  /** The slots after new_lease(h, end): the slot taken, if any, holds (h, end). */
  function Allocated(s: seq<Lease>, h: bv32, end: nat): (t: seq<Lease>)
    ensures |t| == |s|
  {
    match NewLeaseSlot(s, h)
    case None => s
    case Some(i) => s[i := Lease(h, end)]
  }

  /** The slots after update_lease(h, end): the first slot holding h, if any, now ends at `end`. */
  function Renewed(s: seq<Lease>, h: bv32, end: nat): (t: seq<Lease>)
    ensures |t| == |s|
  {
    match Lookup(s, h)
    case None => s
    case Some(i) => s[i := s[i].(leaseEnd := end)]
  }

  /** Whether a slot has expired at time `now`. */
  predicate Expired(l: Lease, now: nat)
  {
    l.leaseEnd <= now
  }

  /** The slots after flush_expired(now): every expired slot freed, every other kept. */
  function Flush(s: seq<Lease>, now: nat): (t: seq<Lease>)
    ensures |t| == |s|
  {
    seq(|s|, i requires 0 <= i < |s| => if Expired(s[i], now) then Free else s[i])
  }

  /** active_leases(): the number of occupied slots. */
  function Active(s: seq<Lease>): (n: nat)
    ensures n <= |s|
  {
    if s == [] then 0
    else Active(s[..|s| - 1]) + (if Occupied(s[|s| - 1]) then 1 else 0)
  }

  /** The indices of the occupied slots. */
  function OccupiedSlots(s: seq<Lease>): set<nat>
  {
    set i: nat | i < |s| && Occupied(s[i])
  }

  /** Occupied slots never share a hash. */
  predicate Distinct(s: seq<Lease>)
  {
    forall i, j :: 0 <= i < j < |s| && Occupied(s[i]) ==> s[i].clientHash != s[j].clientHash
  }

  // -- Properties of the operations.

  /** active_leases() counts exactly the occupied slots. */
  lemma {:induction false} ActiveCountsOccupied(s: seq<Lease>)
    ensures Active(s) == |OccupiedSlots(s)|
  {
    if s != [] {
      var n := |s| - 1;
      ActiveCountsOccupied(s[..n]);
      if Occupied(s[n]) {
        assert OccupiedSlots(s) == OccupiedSlots(s[..n]) + {n};
      } else {
        assert OccupiedSlots(s) == OccupiedSlots(s[..n]);
      }
    }
  }

  /** The table is full, active_leases() == LEASES, exactly when no slot is free. */
  lemma {:induction false} ActiveFull(s: seq<Lease>)
    ensures Active(s) == |s| <==> forall j :: 0 <= j < |s| ==> Occupied(s[j])
  {
    if s != [] {
      var n := |s| - 1;
      ActiveFull(s[..n]);
      assert forall j :: 0 <= j < n ==> s[..n][j] == s[j];
    }
  }

  /** A table that is all free slots has no active lease. */
  lemma {:induction false} ActiveEmpty(s: seq<Lease>)
    requires forall j :: 0 <= j < |s| ==> s[j] == Free
    ensures Active(s) == 0
  {
    if s != [] {
      ActiveEmpty(s[..|s| - 1]);
    }
  }

  /** new_lease fails, and changes nothing, when the client already holds a slot. */
  lemma NewLeaseTwice(s: seq<Lease>, h: bv32, end: nat)
    requires Lookup(s, h).Some?
    ensures NewLeaseSlot(s, h) == None && Allocated(s, h, end) == s
  {
  }

  /** A successful new_lease takes the slot get_lease then finds, and changes no other slot. */
  lemma AllocateThenLookup(s: seq<Lease>, h: bv32, end: nat)
    requires NewLeaseSlot(s, h).Some?
    ensures Allocated(s, h, end)[NewLeaseSlot(s, h).value] == Lease(h, end)
    ensures forall j :: 0 <= j < |s| && j != NewLeaseSlot(s, h).value ==> Allocated(s, h, end)[j] == s[j]
    ensures Lookup(Allocated(s, h, end), h) == NewLeaseSlot(s, h)
  {
    var i := NewLeaseSlot(s, h).value;
    var t := Allocated(s, h, end);
    assert t == s[i := Lease(h, end)];
    assert forall j :: 0 <= j < |s| ==> s[j].clientHash != h;
    assert forall j :: 0 <= j < i ==> t[j].clientHash != h;
  }

  /** A successful new_lease adds one active lease. */
  lemma AllocateCounts(s: seq<Lease>, h: bv32, end: nat)
    requires NewLeaseSlot(s, h).Some?
    ensures Active(Allocated(s, h, end)) == Active(s) + 1
  {
    var i := NewLeaseSlot(s, h).value;
    var t := Allocated(s, h, end);
    assert t == s[i := Lease(h, end)];
    ActiveCountsOccupied(s);
    ActiveCountsOccupied(t);
    assert OccupiedSlots(t) == OccupiedSlots(s) + {i};
  }

  /** update_lease sets the end of the client's first slot and changes no other slot. */
  lemma RenewThenLookup(s: seq<Lease>, h: bv32, end: nat)
    ensures Lookup(s, h).None? ==> Renewed(s, h, end) == s
    ensures Lookup(s, h).Some? ==>
      && Renewed(s, h, end)[Lookup(s, h).value] == Lease(h, end)
      && forall j :: 0 <= j < |s| && j != Lookup(s, h).value ==> Renewed(s, h, end)[j] == s[j]
  {
  }

  /** update_lease changes only the end of the client's slot, so get_lease finds the same slot. */
  lemma RenewKeepsSlots(s: seq<Lease>, h: bv32, end: nat)
    ensures forall j :: 0 <= j < |s| ==> Renewed(s, h, end)[j].clientHash == s[j].clientHash
    ensures Lookup(Renewed(s, h, end), h) == Lookup(s, h)
  {
    var t := Renewed(s, h, end);
    assert forall j :: 0 <= j < |s| ==> t[j].clientHash == s[j].clientHash;
    if Lookup(s, h).Some? {
      assert t[Lookup(s, h).value].clientHash == h;
    }
  }

  /** update_lease keeps the number of active leases. */
  lemma RenewCounts(s: seq<Lease>, h: bv32, end: nat)
    ensures Active(Renewed(s, h, end)) == Active(s)
  {
    var t := Renewed(s, h, end);
    RenewKeepsSlots(s, h, end);
    ActiveCountsOccupied(s);
    ActiveCountsOccupied(t);
    assert OccupiedSlots(t) == OccupiedSlots(s);
  }

  /** After flush_expired(now) no occupied slot ends at or before now, and unexpired slots are kept. */
  lemma FlushLeavesNoExpired(s: seq<Lease>, now: nat)
    ensures forall j :: 0 <= j < |s| && Occupied(Flush(s, now)[j]) ==> Flush(s, now)[j].leaseEnd > now
    ensures forall j :: 0 <= j < |s| && !Expired(s[j], now) ==> Flush(s, now)[j] == s[j]
    ensures forall j :: 0 <= j < |s| && Expired(s[j], now) ==> Flush(s, now)[j] == Free
  {
  }

  /** A client whose lease ends after now keeps its slot through flush_expired(now). */
  lemma FlushKeepsLive(s: seq<Lease>, h: bv32, now: nat)
    requires Lookup(s, h).Some? && s[Lookup(s, h).value].leaseEnd > now
    ensures Lookup(Flush(s, now), h) == Lookup(s, h)
  {
    var i := Lookup(s, h).value;
    var t := Flush(s, now);
    assert t[i] == s[i];
    assert forall j :: 0 <= j < i ==> t[j].clientHash != h;
  }

  /**
   * A slot taken by new_lease(h, end) is found again by get_lease(h) after
   * flush_expired(now) for any now before end, and update_lease(h, end2)
   * then sets that slot to (h, end2).
   */
  lemma AllocateFlushRenew(s: seq<Lease>, h: bv32, end: nat, now: nat, end2: nat)
    requires NewLeaseSlot(s, h).Some? && now < end
    ensures Lookup(Flush(Allocated(s, h, end), now), h).Some?
    ensures Lookup(Flush(Allocated(s, h, end), now), h).value == NewLeaseSlot(s, h).value
    ensures Lookup(Renewed(Flush(Allocated(s, h, end), now), h, end2), h).Some?
    ensures Lookup(Renewed(Flush(Allocated(s, h, end), now), h, end2), h).value == NewLeaseSlot(s, h).value
    ensures Renewed(Flush(Allocated(s, h, end), now), h, end2)[NewLeaseSlot(s, h).value] == Lease(h, end2)
  {
    AllocateThenLookup(s, h, end);
    var f := Flush(Allocated(s, h, end), now);
    FlushKeepsLive(Allocated(s, h, end), h, now);
    RenewThenLookup(f, h, end2);
    RenewKeepsSlots(f, h, end2);
  }

  /** flush_expired is idempotent for the same time. */
  lemma FlushIdempotent(s: seq<Lease>, now: nat)
    ensures Flush(Flush(s, now), now) == Flush(s, now)
  {
  }

  /** Flushing never adds an active lease. */
  lemma FlushNeverGrows(s: seq<Lease>, now: nat)
    ensures Active(Flush(s, now)) <= Active(s)
  {
    ActiveCountsOccupied(s);
    ActiveCountsOccupied(Flush(s, now));
    assert OccupiedSlots(Flush(s, now)) <= OccupiedSlots(s);
    SubsetCardinality(OccupiedSlots(Flush(s, now)), OccupiedSlots(s));
  }

  lemma {:induction false} SubsetCardinality(a: set<nat>, b: set<nat>)
    requires a <= b
    ensures |a| <= |b|
  {
    if a != {} {
      var x :| x in a;
      SubsetCardinality(a - {x}, b - {x});
    }
  }

  /** Every operation keeps the occupied hashes pairwise distinct. */
  lemma OperationsKeepDistinct(s: seq<Lease>, h: bv32, end: nat, now: nat)
    requires Distinct(s)
    ensures Distinct(Allocated(s, h, end))
    ensures Distinct(Renewed(s, h, end))
    ensures Distinct(Flush(s, now))
  {
    AllocateKeepsDistinct(s, h, end);
    RenewKeepsDistinct(s, h, end);
    FlushKeepsDistinct(s, now);
  }

  /** new_lease places a hash no slot holds: no duplicate appears. */
  lemma AllocateKeepsDistinct(s: seq<Lease>, h: bv32, end: nat)
    requires Distinct(s)
    ensures Distinct(Allocated(s, h, end))
  {
    if NewLeaseSlot(s, h).Some? {
      assert forall j :: 0 <= j < |s| ==> s[j].clientHash != h;
    }
  }

  /** update_lease changes an end time only: the hashes stay as they were. */
  lemma RenewKeepsDistinct(s: seq<Lease>, h: bv32, end: nat)
    requires Distinct(s)
    ensures Distinct(Renewed(s, h, end))
  {
  }

  /** flush_expired only frees slots: no duplicate appears. */
  lemma FlushKeepsDistinct(s: seq<Lease>, now: nat)
    requires Distinct(s)
    ensures Distinct(Flush(s, now))
  {
  }

  /** In a table without duplicates, the slot get_lease finds is the only one holding the hash. */
  lemma LookupUnique(s: seq<Lease>, h: bv32, j: nat)
    requires Distinct(s)
    requires Lookup(s, h).Some? && j < |s| && s[j].clientHash == h
    ensures j == Lookup(s, h).value
  {
  }

  /** test/native/lease_db.cc: with two slots, 10 and 20 are placed, 30 finds the table full. */
  lemma TwoSlotScenario()
    ensures var s0 := [Free, Free];
            var s1 := Allocated(s0, 10, 0);
            var s2 := Allocated(s1, 20, 0);
            && NewLeaseSlot(s0, 10) == Some(0) && NewLeaseSlot(s1, 20) == Some(1)
            && NewLeaseSlot(s2, 30) == None && NewLeaseSlot(s1, 10) == None
            && Lookup(s2, 10) == Some(0) && Lookup(s2, 20) == Some(1) && Lookup(s2, 30) == None
            && Active(s2) == 2 && Active(s1) == 1
  {
    var s0 := [Free, Free];
    assert Lookup(s0, 10) == None;
    assert NewLeaseSlot(s0, 10) == Some(0);
    var s1 := Allocated(s0, 10, 0);
    assert s1 == [Lease(10, 0), Free];
    assert Lookup(s1, 10) == Some(0);
    assert Lookup(s1, 20) == None;
    assert Occupied(s1[0]) && !Occupied(s1[1]);
    assert FirstWith(s1, 0, 0) == Some(1);
    assert NewLeaseSlot(s1, 20) == Some(1);
    var s2 := Allocated(s1, 20, 0);
    assert s2 == [Lease(10, 0), Lease(20, 0)];
    assert s2[0].clientHash != 20 && s2[1].clientHash == 20;
    assert FirstWith(s2, 20, 0) == Some(1);
    assert Lookup(s2, 20) == Some(1);
    assert Lookup(s2, 30) == None;
    assert Active(s2[..1]) == 1;
  }

  /** The two leases both scenarios below start from: 10 ending at 100, then 20 ending at 200. */
  lemma TwoLeases()
    ensures Allocated(Allocated([Free, Free], 10, 100), 20, 200) == [Lease(10, 100), Lease(20, 200)]
    ensures NewLeaseSlot([Free, Free], 10) == Some(0)
    ensures NewLeaseSlot([Lease(10, 100), Free], 20) == Some(1)
    ensures Active([Lease(10, 100), Lease(20, 200)]) == 2
  {
    var s0 := [Free, Free];
    assert Lookup(s0, 10) == None;
    assert NewLeaseSlot(s0, 10) == Some(0);
    var s1 := Allocated(s0, 10, 100);
    assert s1 == [Lease(10, 100), Free];
    assert Lookup(s1, 20) == None;
    assert FirstWith(s1, 0, 0) == Some(1);
    assert NewLeaseSlot(s1, 20) == Some(1);
    var s2 := [Lease(10, 100), Lease(20, 200)];
    assert s2[..1] == [Lease(10, 100)];
    assert [Lease(10, 100)][..0] == [];
  }

  /**
   * test/native/lease_db.cc, flush_expired: nothing has expired at 50, the
   * lease ending at 100 has at 150, both have at 250.
   */
  lemma FlushScenario()
    ensures var s := Allocated(Allocated([Free, Free], 10, 100), 20, 200);
            && Flush(s, 50) == s
            && Active(Flush(s, 50)) == 2
            && Lookup(Flush(s, 50), 10) == Some(0) && Lookup(Flush(s, 50), 20) == Some(1)
            && Active(Flush(Flush(s, 50), 150)) == 1
            && Lookup(Flush(Flush(s, 50), 150), 10) == None
            && Lookup(Flush(Flush(s, 50), 150), 20) == Some(1)
            && Active(Flush(Flush(Flush(s, 50), 150), 250)) == 0
            && Lookup(Flush(Flush(Flush(s, 50), 150), 250), 10) == None
            && Lookup(Flush(Flush(Flush(s, 50), 150), 250), 20) == None
  {
    TwoLeases();
    var s := [Lease(10, 100), Lease(20, 200)];
    assert Flush(s, 50) == s;
    assert s[0].clientHash == 10 && s[1].clientHash == 20;
    assert FirstWith(s, 20, 0) == Some(1);
    var s1 := Flush(s, 150);
    assert s1 == [Free, Lease(20, 200)];
    assert s1[1].clientHash == 20;
    assert FirstWith(s1, 20, 0) == Some(1);
    assert s1[..1] == [Free];
    assert [Free][..0] == [];
    var s2 := Flush(s1, 250);
    assert s2 == [Free, Free];
    assert s2[..1] == [Free];
    ActiveEmpty(s2);
  }

  /**
   * test/native/lease_db.cc, update_lease: after the flush at 150 only 20 holds a
   * slot, so renewing 10 fails and renewing 20 to 300 keeps it through the flush at 250.
   */
  lemma UpdateScenario()
    ensures var s := Allocated(Allocated([Free, Free], 10, 100), 20, 200);
            var s1 := Flush(s, 150);
            var s2 := Renewed(Renewed(s1, 10, 300), 20, 300);
            && Active(s) == 2
            && Active(s1) == 1 && Lookup(s1, 10) == None && Lookup(s1, 20) == Some(1)
            && Renewed(s1, 10, 300) == s1
            && s2 == [Free, Lease(20, 300)]
            && Active(Flush(s2, 250)) == 1
            && Lookup(Flush(s2, 250), 10) == None && Lookup(Flush(s2, 250), 20) == Some(1)
            && Active(Flush(Flush(s2, 250), 350)) == 0
            && Lookup(Flush(Flush(s2, 250), 350), 10) == None
            && Lookup(Flush(Flush(s2, 250), 350), 20) == None
  {
    TwoLeases();
    var s := [Lease(10, 100), Lease(20, 200)];
    var s1 := Flush(s, 150);
    assert s1 == [Free, Lease(20, 200)];
    assert s1[1].clientHash == 20;
    assert FirstWith(s1, 20, 0) == Some(1);
    assert s1[..1] == [Free];
    assert [Free][..0] == [];
    var s2 := Renewed(s1, 20, 300);
    assert s2 == [Free, Lease(20, 300)];
    var s3 := Flush(s2, 250);
    assert s3 == s2;
    assert s2[1].clientHash == 20;
    assert FirstWith(s2, 20, 0) == Some(1);
    assert s2[..1] == [Free];
    var s4 := Flush(s3, 350);
    assert s4 == [Free, Free];
    ActiveEmpty(s4);
  }

  /**
   * class lease_db<LEASES>: `leases` is the std::array of slots, LEASES its length.
   */
  class LeaseDb {
    const leases: array<Lease>

    /** The invariant the operations keep: no two occupied slots share a hash. */
    ghost predicate Valid()
      reads leases
    {
      Distinct(leases[..])
    }

    /** lease_db(): every slot free. */
    constructor (capacity: nat)
      ensures Valid() && fresh(leases)
      ensures leases.Length == capacity
      ensures forall j :: 0 <= j < capacity ==> leases[j] == Free
    {
      leases := new Lease[capacity](_ => Free);
    }

    /** get_lease. */
    method GetLease(clientHash: bv32) returns (slot: Option<nat>)
      ensures slot == Lookup(leases[..], clientHash)
    {
      var l := 0;
      while clientHash != 0 && l < leases.Length
        invariant 0 <= l <= leases.Length
        invariant forall j :: 0 <= j < l ==> leases[j].clientHash != clientHash
      {
        if leases[l].clientHash == clientHash {
          return Some(l);
        }
        l := l + 1;
      }
      return None;
    }

    /** new_lease. */
    method NewLease(clientHash: bv32, leaseEnd: nat) returns (slot: Option<nat>)
      requires Valid()
      modifies leases
      ensures Valid()
      ensures slot == NewLeaseSlot(old(leases[..]), clientHash)
      ensures leases[..] == Allocated(old(leases[..]), clientHash, leaseEnd)
    {
      var existing := GetLease(clientHash);
      if existing.Some? {
        return None;
      }
      var l := 0;
      while clientHash != 0 && l < leases.Length
        invariant 0 <= l <= leases.Length
        invariant forall j :: 0 <= j < l ==> Occupied(leases[j])
      {
        if leases[l].clientHash == 0 {
          OperationsKeepDistinct(leases[..], clientHash, leaseEnd, 0);
          leases[l] := Lease(clientHash, leaseEnd);
          return Some(l);
        }
        l := l + 1;
      }
      return None;
    }

    /** update_lease. */
    method UpdateLease(clientHash: bv32, leaseEnd: nat) returns (updated: bool)
      requires Valid()
      modifies leases
      ensures Valid()
      ensures updated <==> Lookup(old(leases[..]), clientHash).Some?
      ensures leases[..] == Renewed(old(leases[..]), clientHash, leaseEnd)
    {
      var l := 0;
      while clientHash != 0 && l < leases.Length
        invariant 0 <= l <= leases.Length
        invariant forall j :: 0 <= j < l ==> leases[j].clientHash != clientHash
      {
        if leases[l].clientHash == clientHash {
          OperationsKeepDistinct(leases[..], clientHash, leaseEnd, 0);
          leases[l] := leases[l].(leaseEnd := leaseEnd);
          return true;
        }
        l := l + 1;
      }
      return false;
    }

    /** flush_expired. */
    method FlushExpired(currTime: nat)
      requires Valid()
      modifies leases
      ensures Valid()
      ensures leases[..] == Flush(old(leases[..]), currTime)
    {
      ghost var before := leases[..];
      OperationsKeepDistinct(before, 0, 0, currTime);
      for l := 0 to leases.Length
        invariant forall j :: 0 <= j < l ==> leases[j] == Flush(before, currTime)[j]
        invariant forall j :: l <= j < leases.Length ==> leases[j] == before[j]
      {
        if leases[l].leaseEnd <= currTime {
          leases[l] := Free;
        }
      }
      assert leases[..] == Flush(before, currTime);
    }

    /** active_leases. */
    method ActiveLeases() returns (cnt: nat)
      ensures cnt == Active(leases[..])
      ensures cnt == |OccupiedSlots(leases[..])|
    {
      cnt := 0;
      for l := 0 to leases.Length
        invariant cnt == Active(leases[..l])
      {
        assert leases[..l + 1][..l] == leases[..l];
        if leases[l].clientHash != 0 {
          cnt := cnt + 1;
        }
      }
      assert leases[..leases.Length] == leases[..];
      ActiveCountsOccupied(leases[..]);
    }
  }
}
