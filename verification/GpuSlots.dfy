/** config/gpu_scheduler.py: GPUSlotTracker, the reservations of concurrent crews. */
module GpuSlots {
  import opened Collections
  import opened OrderedDicts
  import opened GpuScheduler

  datatype Grant = Grant(device: int, memoryMb: int)

  /** `_reservations`: crew id to the list of its grants. */
  type Ledger = Dict<string, seq<Grant>>

  // --------------------------------------------------------- specification

  /** A sum over every grant of every crew. */
  function Weight(l: Ledger, w: Grant -> int): int {
    SumBy(l, (e: Entry<string, seq<Grant>>) => SumBy(e.value, w))
  }

  function OnDevice(d: int): Grant -> int {
    (g: Grant) => if g.device == d then g.memoryMb else 0
  }

  /** `total_reserved`: what all crews hold on device `d`. */
  function Total(l: Ledger, d: int): int { Weight(l, OnDevice(d)) }

  /** What a crew holds; nothing when it is absent. */
  function Held(l: Ledger, crewId: string): seq<Grant> {
    OrElse(Get(l, crewId), [])
  }

  function Add(l: Ledger, crewId: string, g: Grant): Ledger {
    Set(l, crewId, Held(l, crewId) + [g])
  }

  /** Reserving adds exactly the new grant. */
  lemma AddWeight(l: Ledger, crewId: string, g: Grant, w: Grant -> int)
    ensures Weight(Add(l, crewId, g), w) == Weight(l, w) + w(g)
  {
    hide IndexOf, SumBy;
    var crew := (e: Entry<string, seq<Grant>>) => SumBy(e.value, w);
    var i, m := IndexOf(l, crewId), Add(l, crewId, g);
    SumSnoc(Held(l, crewId), g, w);
    if i < |l| {
      SumSplit(l, i, crew);
      SumSplit(m, i, crew);
    } else {
      SumSnoc(l, Entry(crewId, [] + [g]), crew);
      SumEmpty(w);
    }
  }

  lemma SumEmpty(w: Grant -> int)
    ensures SumBy([], w) == 0
  {
  }

  /** Releasing removes exactly what the crew held. */
  lemma ReleaseWeight(l: Ledger, crewId: string, w: Grant -> int)
    ensures Weight(Remove(l, crewId), w) == Weight(l, w) - SumBy(Held(l, crewId), w)
  {
    hide IndexOf, SumBy;
    var crew := (e: Entry<string, seq<Grant>>) => SumBy(e.value, w);
    var i := IndexOf(l, crewId);
    if i < |l| {
      SumSplit(l, i, crew);
      SumAppend(l[..i], l[i + 1..], crew);
    } else {
      SumEmpty(w);
    }
  }

  /** `adjusted_free` as a dict: hardware free memory less every crew's reservations, never below 0. */
  function AdjustedFree(devices: seq<Device>, l: Ledger): FreeTable {
    if devices == [] then []
    else
      var d := devices[|devices| - 1];
      Set(AdjustedFree(devices[..|devices| - 1], l), d.index, Max(0, d.memoryFreeMb - Total(l, d.index)))
  }

  // ------------------------------------------------------------ the program

  class GPUSlotTracker {
    var reservations: Ledger

    constructor ()
      ensures reservations == []
    {
      reservations := [];
    }

    method Reserve(crewId: string, deviceIndex: int, memoryMb: int)
      requires Valid(reservations)
      modifies this
      ensures Valid(reservations) && reservations == Add(old(reservations), crewId, Grant(deviceIndex, memoryMb))
      ensures forall d :: Total(reservations, d) == old(Total(reservations, d)) + if d == deviceIndex then memoryMb else 0
      ensures forall c :: Held(reservations, c)
                == old(Held(reservations, c)) + if c == crewId then [Grant(deviceIndex, memoryMb)] else []
    {
      hide IndexOf;
      ghost var was := reservations;
      var g := Grant(deviceIndex, memoryMb);
      if !Has(reservations, crewId) {
        reservations := Set(reservations, crewId, []);
      }
      SetGet(was, crewId, [], crewId);
      SetTwice(was, crewId, [], Held(was, crewId) + [g]);
      reservations := Set(reservations, crewId, Get(reservations, crewId).value + [g]);
      forall d { AddWeight(was, crewId, g, OnDevice(d)); }
      forall c { SetGet(was, crewId, Held(was, crewId) + [g], c); }
      SetGet(was, crewId, Held(was, crewId) + [g], crewId);
    }

    method Release(crewId: string)
      requires Valid(reservations)
      modifies this
      ensures Valid(reservations) && reservations == Remove(old(reservations), crewId)
      ensures forall d :: Total(reservations, d) == old(Total(reservations, d) - SumBy(Held(reservations, crewId), OnDevice(d)))
      ensures forall c :: Held(reservations, c) == if c == crewId then [] else old(Held(reservations, c))
    {
      hide IndexOf;
      ghost var was := reservations;
      reservations := Remove(reservations, crewId);
      forall d { ReleaseWeight(was, crewId, OnDevice(d)); }
      forall c { RemoveGet(was, crewId, c); }
      RemoveGet(was, crewId, crewId);
    }

    method TotalReserved(deviceIndex: int) returns (total: int)
      ensures total == Total(reservations, deviceIndex)
    {
      ghost var each := OnDevice(deviceIndex);
      ghost var crew := (e: Entry<string, seq<Grant>>) => SumBy(e.value, each);
      total := 0;
      for i := 0 to |reservations|
        invariant total == SumBy(reservations[..i], crew)
      {
        var grants := reservations[i].value;
        ghost var before := total;
        for j := 0 to |grants|
          invariant total == before + SumBy(grants[..j], each)
        {
          assert grants[..j + 1] == grants[..j] + [grants[j]];
          SumSnoc(grants[..j], grants[j], each);
          if grants[j].device == deviceIndex {
            total := total + grants[j].memoryMb;
          }
        }
        assert grants[..|grants|] == grants;
        assert reservations[..i + 1] == reservations[..i] + [reservations[i]];
        SumSnoc(reservations[..i], reservations[i], crew);
      }
      assert reservations[..|reservations|] == reservations;
    }

    method AdjustedFreeOf(status: GpuStatus) returns (result: FreeTable)
      ensures result == AdjustedFree(status.devices, reservations)
    {
      result := [];
      for i := 0 to |status.devices|
        invariant result == AdjustedFree(status.devices[..i], reservations)
      {
        var dev := status.devices[i];
        var reserved := TotalReserved(dev.index);
        assert status.devices[..i + 1][..i] == status.devices[..i];
        result := Set(result, dev.index, Max(0, dev.memoryFreeMb - reserved));
      }
      assert status.devices[..|status.devices|] == status.devices;
    }
  }
}
