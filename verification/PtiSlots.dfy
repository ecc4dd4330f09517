/** Slots and the firmware's PID table (driver/pti/pti_main.c, pti_hal_*).  The table holds the
    PIDs to collect without gaps; removing one moves the last entry into its place. */
module PtiSlots {

  const SLOTS := 32
  const SLOT_HANDLE_OFFSET := 20000
  const NO_PID := 0xffff

  type Pid = x: int | 0 <= x <= 0xffff

  class Slot {
    const handle: int
    var inUse: int
    var tcIndex: int   // position in the PID table, -1 for none
    var pid: Pid

    constructor (handle: int)
      ensures this.handle == handle && inUse == 0 && tcIndex == -1 && pid == NO_PID
    {
      this.handle, inUse, tcIndex, pid := handle, 0, -1, NO_PID;
    }
  }

  class Slots {
    const slots: seq<Slot>
    const pidTable: array<Pid>
    var numPids: nat
    ghost var owner: seq<nat>   // which slot each table entry belongs to

    /** The slots and the table as they are laid out by pti_hal_init. */
    ghost predicate Layout()
      reads slots
    {
      && |slots| == SLOTS && pidTable.Length >= SLOTS
      && (forall i, j | 0 <= i < j < SLOTS :: slots[i] != slots[j])
      && (forall i | 0 <= i < SLOTS :: slots[i].handle == SLOT_HANDLE_OFFSET + i)
    }

    /** The used positions are a bijection onto [0, numPids): every slot with a position owns
        the table entry there, every entry has an owner, and no PID occurs twice. */
    ghost predicate Valid()
      reads this, slots, pidTable
    {
      && Layout() && |owner| == numPids <= pidTable.Length
      && (forall i | 0 <= i < SLOTS :: SlotOk(i))
      && (forall k | 0 <= k < numPids :: owner[k] < SLOTS && slots[owner[k]].tcIndex == k)
      && (forall k, l | 0 <= k < l < numPids :: pidTable[k] != pidTable[l])
    }

    ghost predicate SlotOk(i: nat)
      reads this, slots, pidTable
      requires i < |slots| && |owner| == numPids <= pidTable.Length
    {
      var s := slots[i];
      if s.tcIndex == -1 then true
      else 0 <= s.tcIndex < numPids && owner[s.tcIndex] == i && s.inUse == 1
           && pidTable[s.tcIndex] == s.pid && s.pid != NO_PID
    }

    /** Every entry of the table is the PID of a slot in use that has its position. */
    ghost predicate EachHasSlot()
      reads this, slots, pidTable
      requires numPids <= pidTable.Length
    {
      forall k | 0 <= k < numPids :: HasSlot(k)
    }

    ghost predicate HasSlot(k: nat)
      reads slots, pidTable
      requires k < pidTable.Length
    {
      exists j | 0 <= j < |slots| ::
        slots[j].tcIndex == k && slots[j].inUse == 1 && slots[j].pid == pidTable[k] != NO_PID
    }

    lemma ValidHasSlots()
      requires Valid()
      ensures EachHasSlot()
    {
      forall k | 0 <= k < numPids ensures HasSlot(k) {
        assert SlotOk(owner[k]);
      }
    }

    /** The slots that collect, with their PIDs. */
    ghost function Active(): map<nat, Pid>
      reads this, slots
    {
      map i: nat | i < |slots| && slots[i].tcIndex != -1 :: slots[i].pid
    }

    /** Clearing one slot, wherever the indices of the others go. */
    twostate lemma ActiveCleared(h: nat)
      requires h < |slots| && slots[h].tcIndex == -1
      requires forall j | 0 <= j < |slots| && j != h ::
                 slots[j].pid == old(slots[j].pid) && (slots[j].tcIndex == -1 <==> old(slots[j].tcIndex) == -1)
      ensures Active() == old(Active()) - {h}
    {
    }

    /** One slot starts to collect. */
    twostate lemma ActiveSet(h: nat)
      requires h < |slots| && slots[h].tcIndex != -1
      requires forall j | 0 <= j < |slots| && j != h ::
                 slots[j].pid == old(slots[j].pid) && (slots[j].tcIndex == -1 <==> old(slots[j].tcIndex) == -1)
      ensures Active() == old(Active())[h := slots[h].pid]
    {
    }

    /** There are never more entries than slots, and a slot without a PID leaves room. */
    lemma RoomForPid(free: nat)
      requires Valid() && free < SLOTS
      ensures numPids <= SLOTS
      ensures slots[free].tcIndex == -1 ==> numPids < SLOTS
    {
      var owners := Owners(numPids);
      var all := Below(SLOTS);
      Cardinality(owners, all);
      if slots[free].tcIndex == -1 {
        Cardinality(owners, all - {free});
      }
    }

    /** The slots that own one of the first n entries; there are n of them. */
    ghost function Owners(n: nat): (r: set<nat>)
      reads this, slots, pidTable
      requires Valid() && n <= numPids
      ensures |r| == n && forall i: nat :: i in r ==> i < SLOTS && 0 <= slots[i].tcIndex < n
    {
      if n == 0 then {} else Owners(n - 1) + {owner[n - 1]}
    }

    static ghost function Below(n: nat): (r: set<nat>)
      ensures |r| == n && forall i: nat :: i in r <==> i < n
    {
      if n == 0 then {} else Below(n - 1) + {n - 1}
    }

    static lemma {:induction false} Cardinality(a: set<nat>, b: set<nat>)
      requires a <= b
      ensures |a| <= |b|
    {
      if a != {} {
        var x :| x in a;
        Cardinality(a - {x}, b - {x});
      }
    }

    constructor ()
      ensures Valid() && numPids == 0 && Active() == map[]
      ensures |slots| == 32 && forall i | 0 <= i < 32 ::
                slots[i].handle == 20000 + i && slots[i].inUse == 0 && slots[i].pid == 0xffff
      ensures fresh(pidTable) && forall i | 0 <= i < SLOTS :: fresh(slots[i])
    {
      var ss: seq<Slot> := [];
      while |ss| < SLOTS
        invariant |ss| <= SLOTS
        invariant forall i | 0 <= i < |ss| :: fresh(ss[i]) && ss[i].handle == SLOT_HANDLE_OFFSET + i
                                              && ss[i].pid == NO_PID && ss[i].inUse == 0 && ss[i].tcIndex == -1
        invariant forall i, j | 0 <= i < j < |ss| :: ss[i] != ss[j]
      {
        var s := new Slot(SLOT_HANDLE_OFFSET + |ss|);
        ss := ss + [s];
      }
      slots := ss;
      pidTable := new Pid[SLOTS](_ => 0);
      numPids, owner := 0, [];
    }

    /** Reserves the first slot that is not in use; -1 when there is none. */
    method GetNewSlotHandle() returns (handle: int)
      requires Valid()
      modifies slots
      ensures Valid() && Active() == old(Active())
      ensures handle == -1 ==> forall i | 0 <= i < SLOTS :: slots[i].inUse == old(slots[i].inUse) != 0
      ensures handle != -1 ==> forall i | 0 <= i < SLOTS && i < handle - SLOT_HANDLE_OFFSET :: old(slots[i].inUse) != 0
      ensures handle != -1 ==>
                && SLOT_HANDLE_OFFSET <= handle < SLOT_HANDLE_OFFSET + SLOTS
                && old(slots[handle - SLOT_HANDLE_OFFSET].inUse) == 0
                && slots[handle - SLOT_HANDLE_OFFSET].inUse == 1 && slots[handle - SLOT_HANDLE_OFFSET].tcIndex == -1
                && forall i | 0 <= i < SLOTS && i != handle - SLOT_HANDLE_OFFSET ::
                     slots[i].inUse == old(slots[i].inUse)
    {
      for i := 0 to SLOTS
        invariant forall j | 0 <= j < i :: slots[j].inUse != 0
      {
        if slots[i].inUse == 0 {
          assert SlotOk(i);
          slots[i].inUse := 1;
          slots[i].tcIndex := -1;
          assert forall j | 0 <= j < SLOTS :: old(SlotOk(j)) ==> SlotOk(j);
          return slots[i].handle;
        }
      }
      handle := -1;
    }

    /** The slot is in use and the PID is not collected yet. */
    ghost predicate Accepts(handle: int, pid: Pid)
      reads this, slots, pidTable
      requires Layout() && numPids <= pidTable.Length
    {
      && SLOT_HANDLE_OFFSET <= handle < SLOT_HANDLE_OFFSET + SLOTS
      && slots[handle - SLOT_HANDLE_OFFSET].inUse == 1
      && pid !in pidTable[..numPids]
    }

    /** Starts collecting a PID on a slot.  On success the table stays in order exactly when the
        slot had no PID before and the PID is not the reserved one.  Otherwise an entry is left
        without a slot: the one at the former position, or the new one. */
    method SetPid(handle: int, pid: Pid) returns (ret: int)
      requires Valid() && (Accepts(handle, pid) ==> numPids < pidTable.Length)
      modifies this, slots, pidTable
      ensures ret == 0 <==> old(Accepts(handle, pid))
      ensures ret != 0 ==> ret == -1 && Valid() && numPids == old(numPids) && Active() == old(Active())
      ensures ret == 0 ==>
                var i := handle - SLOT_HANDLE_OFFSET;
                && numPids == old(numPids) + 1 && slots[i].tcIndex == old(numPids) && slots[i].pid == pid
                && pidTable[..numPids] == old(pidTable[..numPids]) + [pid]
                && (Valid() <==> old(slots[i].tcIndex) == -1 && pid != NO_PID)
                && (EachHasSlot() <==> old(slots[i].tcIndex) == -1 && pid != NO_PID)
                && (forall j | 0 <= j < SLOTS && old(slots[i].tcIndex) != -1 ::
                      slots[j].tcIndex != old(slots[i].tcIndex))
                && Active() == old(Active())[i := pid]
      ensures forall j | 0 <= j < SLOTS :: slots[j].inUse == old(slots[j].inUse)
    {
      hide Active, SlotOk, EachHasSlot;
      for v := 0 to numPids
        invariant pid !in pidTable[..v]
      {
        if pidTable[v] == pid {
          return -1;
        }
      }
      for v := 0 to SLOTS
        invariant forall j | 0 <= j < v :: slots[j].handle != handle
      {
        if slots[v].handle == handle {
          if slots[v].inUse == 1 {
            StorePid(v, pid);
            return 0;
          } else {
            return -1;
          }
        }
      }
      ret := -1;
    }

    /** The position that a slot gives up for a new one is nobody's. */
    twostate lemma Orphaned(v: nat)
      requires old(Valid()) && v < SLOTS && old(slots[v].tcIndex) != -1 && slots[v].tcIndex == old(numPids)
      requires forall j | 0 <= j < SLOTS && j != v :: slots[j].tcIndex == old(slots[j].tcIndex)
      ensures 0 <= old(slots[v].tcIndex) < old(numPids)
      ensures forall j | 0 <= j < SLOTS :: slots[j].tcIndex != old(slots[v].tcIndex)
    {
      assert old(SlotOk(v));
      forall j | 0 <= j < SLOTS ensures slots[j].tcIndex != old(slots[v].tcIndex) {
        assert old(SlotOk(j));
      }
    }

    /** Enters a PID into the table and the slot. */
    method StorePid(v: nat, pid: Pid)
      requires Valid() && v < SLOTS && slots[v].inUse == 1 && pid !in pidTable[..numPids] && numPids < pidTable.Length
      modifies this, slots[v], pidTable
      ensures numPids == old(numPids) + 1 && slots[v].tcIndex == old(numPids) && slots[v].pid == pid
      ensures pidTable[..numPids] == old(pidTable[..numPids]) + [pid] && slots[v].inUse == 1
      ensures Valid() <==> old(slots[v].tcIndex) == -1 && pid != NO_PID
      ensures EachHasSlot() <==> old(slots[v].tcIndex) == -1 && pid != NO_PID
      ensures old(slots[v].tcIndex) != -1 ==>
                forall j | 0 <= j < SLOTS :: slots[j].tcIndex != old(slots[v].tcIndex)
      ensures Active() == old(Active())[v := pid]
    {
      hide Active;
      assert SlotOk(v);
      ghost var was := slots[v].tcIndex;
      slots[v].pid := pid;
      slots[v].tcIndex := numPids;
      pidTable[numPids] := pid;
      numPids := numPids + 1;
      owner := owner + [v];
      ActiveSet(v);
      if was == -1 && pid != NO_PID {
        assert forall j | 0 <= j < SLOTS :: old(SlotOk(j)) ==> SlotOk(j);
        ValidHasSlots();
      } else if was != -1 {
        assert owner[was] == v && slots[v].tcIndex != was;
        Orphaned(v);
        assert !HasSlot(was);
      } else {
        assert !SlotOk(v) && !HasSlot(numPids - 1);
      }
    }

    /** The first slot with the given position. */
    method FindPosition(k: int, ghost owner: nat) returns (i: nat)
      requires |slots| == SLOTS && owner < SLOTS && slots[owner].tcIndex == k
      requires forall j | 0 <= j < SLOTS && slots[j].tcIndex == k :: j == owner
      ensures i == owner
    {
      i := 0;
      while i < SLOTS && k != slots[i].tcIndex
        invariant i <= owner
      {
        i := i + 1;
      }
    }

    /** Stops collecting a slot's PID: the last table entry takes the place of the removed one. */
    method ClearPid(handle: int) returns (ret: int)
      requires Valid() && SLOT_HANDLE_OFFSET <= handle < SLOT_HANDLE_OFFSET + SLOTS
      modifies this, slots, pidTable
      ensures Valid()
      ensures forall j | 0 <= j < SLOTS :: slots[j].inUse == old(slots[j].inUse)
      ensures var i := handle - SLOT_HANDLE_OFFSET;
              if old(slots[i].tcIndex) == -1 then
                ret == -1 && numPids == old(numPids) && Active() == old(Active())
              else
                && ret == 0 && slots[i].tcIndex == -1 && numPids == old(numPids) - 1
                && Active() == old(Active()) - {i}
    {
      hide Active;
      var h := handle - SLOT_HANDLE_OFFSET;
      assert SlotOk(h);
      if slots[h].tcIndex < 0 || slots[h].pid == NO_PID {
        return -1;
      }
      ghost var tc, moved := slots[h].tcIndex, owner[numPids - 1];
      pidTable[slots[h].tcIndex] := pidTable[numPids - 1];
      numPids := numPids - 1;
      forall j | 0 <= j < SLOTS && slots[j].tcIndex == numPids ensures j == moved {
        assert old(SlotOk(j));
      }
      var i := FindPosition(numPids, moved);
      if i < SLOTS {
        slots[i].tcIndex := slots[h].tcIndex;
      }
      slots[h].tcIndex := -1;
      owner := owner[tc := moved][..numPids];
      assert forall j | 0 <= j < SLOTS :: old(SlotOk(j)) ==> SlotOk(j);
      ActiveCleared(h);
      ret := 0;
    }

    /** Gives a slot back, clearing its PID first if it has one. */
    method SlotFree(handle: int)
      requires Valid() && SLOT_HANDLE_OFFSET <= handle < SLOT_HANDLE_OFFSET + SLOTS
      modifies this, slots, pidTable
      ensures Valid() && Active() == old(Active()) - {handle - SLOT_HANDLE_OFFSET}
      ensures slots[handle - SLOT_HANDLE_OFFSET].inUse == 0 && slots[handle - SLOT_HANDLE_OFFSET].pid == NO_PID
      ensures forall j | 0 <= j < SLOTS && j != handle - SLOT_HANDLE_OFFSET :: slots[j].inUse == old(slots[j].inUse)
    {
      var h := handle - SLOT_HANDLE_OFFSET;
      if slots[h].tcIndex != -1 {
        var r := ClearPid(handle);
      }
      Release(h);
    }

    method Release(h: nat)
      requires Valid() && h < SLOTS && slots[h].tcIndex == -1
      modifies slots[h]
      ensures Valid() && Active() == old(Active())
      ensures slots[h].inUse == 0 && slots[h].pid == NO_PID
    {
      slots[h].inUse := 0;
      slots[h].pid := NO_PID;
      slots[h].tcIndex := -1;
      assert forall j | 0 <= j < SLOTS :: old(SlotOk(j)) ==> SlotOk(j);
    }
  }

  /** A second PID on the same slot puts the table out of order: the first one keeps its entry, but
      no slot has its position any more, and only one slot collects. */
  method SecondPidBreaks() returns (slots: Slots)
    ensures !slots.Valid() && slots.numPids == 2 <= slots.pidTable.Length && slots.pidTable[..2] == [100, 200]
    ensures forall j | 0 <= j < |slots.slots| :: slots.slots[j].tcIndex != 0
    ensures |slots.Active()| == 1 && !slots.EachHasSlot()
  {
    hide Slots.Active, Slots.EachHasSlot, Slots.SlotOk;
    slots := new Slots();
    assert slots.slots[0].inUse == 0;
    var handle := slots.GetNewSlotHandle();
    var i := handle - SLOT_HANDLE_OFFSET;
    var first := slots.SetPid(handle, 100);
    var second := slots.SetPid(handle, 200);
    OneKey(map[], i, 100, 200);
  }

  lemma OneKey(active: map<nat, Pid>, i: nat, a: Pid, b: Pid)
    requires active == map[]
    ensures |active[i := a][i := b]| == 1
  {
    assert active[i := a][i := b] == map[i := b];
  }

  /** So does the reserved PID: its slot looks as if it had none, and will not be cleared. */
  method ReservedPidBreaks() returns (slots: Slots, handle: int)
    ensures !slots.Valid() && slots.numPids == 1 <= slots.pidTable.Length && slots.pidTable[0] == NO_PID
    ensures var i := handle - SLOT_HANDLE_OFFSET;
            0 <= i < |slots.slots| && slots.slots[i].tcIndex == 0 && slots.slots[i].pid == NO_PID
    ensures !slots.EachHasSlot()
  {
    hide Slots.Active, Slots.EachHasSlot, Slots.SlotOk;
    slots := new Slots();
    assert slots.slots[0].inUse == 0;
    handle := slots.GetNewSlotHandle();
    var ret := slots.SetPid(handle, NO_PID);
  }
}
