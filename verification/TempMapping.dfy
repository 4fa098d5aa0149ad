/** Four fixed virtual pages through which the kernel reaches any physical page. */
module TempMapping {
  import opened Paging

  const TEMP_MAPPING_ADDR: nat := 0xC03F_F000
  const TEMP_MAPPING_COUNT: nat := 4

  /** Virtual address of slot `i`. */
  function SlotAddr(i: nat): nat
    requires i < TEMP_MAPPING_COUNT
  {
    TEMP_MAPPING_ADDR - i * PAGE_SIZE
  }

  /** Index in its page table of the page at virtual address `va`. */
  function TableIndex(va: nat): (r: nat)
    ensures r < 1024
  {
    va / PAGE_SIZE % 1024
  }

  function DirectoryIndex(va: nat): nat
  {
    va / 0x40_0000
  }

  function SlotOf(va: nat): nat
    requires va <= TEMP_MAPPING_ADDR
  {
    (TEMP_MAPPING_ADDR - va) / PAGE_SIZE
  }

  lemma SlotGeometry(i: nat)
    requires i < TEMP_MAPPING_COUNT
    ensures DirectoryIndex(SlotAddr(i)) == 768 && TableIndex(SlotAddr(i)) == 1023 - i
    ensures SlotOf(SlotAddr(i)) == i && InSlots(SlotAddr(i)) && SlotAddr(i) % PAGE_SIZE == 0
  {
  }

  /** The lowest slot that is not held, or the number of slots. */
  function LowestFree(held: map<nat, nat>): (r: nat)
    ensures r <= TEMP_MAPPING_COUNT
    ensures r < TEMP_MAPPING_COUNT ==> r !in held
    ensures forall j: nat | j < r :: j in held
  {
    if 0 !in held then 0 else if 1 !in held then 1 else if 2 !in held then 2 else if 3 !in held then 3 else 4
  }

  predicate InSlots(va: nat)
  {
    TEMP_MAPPING_ADDR - (TEMP_MAPPING_COUNT - 1) * PAGE_SIZE <= va <= TEMP_MAPPING_ADDR
  }

  /** An address inside a slot, but not at its start, is taken for the slot one number lower, while its
      table entry is that of the slot it lies in. */
  lemma UnalignedSlot(va: nat)
    requires InSlots(va) && va % PAGE_SIZE != 0
    ensures SlotOf(va) + 1 < TEMP_MAPPING_COUNT && TableIndex(va) == 1023 - (SlotOf(va) + 1)
  {
  }

  class Mapper {
    const refCount: array<nat>
    const directory: array<nat>        // the page directory in use
    const table: array<nat>            // the page table behind directory entry 768
    const available: array<bool>       // bit i of available_slots
    ghost var held: map<nat, nat>      // the physical address each held slot shows
    ghost var peak: nat                // the largest number of slots held so far

    ghost predicate Valid()
      reads this, refCount, directory, table, available
    {
      && refCount.Length == available.Length == TEMP_MAPPING_COUNT && directory.Length == 1024 && table.Length == 1024
      && refCount != directory && refCount != table && directory != table
      && directory[768] % 2 == 1
      && (forall i: nat | i < TEMP_MAPPING_COUNT :: available[i] <==> refCount[i] == 0)
      && (forall i: nat | i < TEMP_MAPPING_COUNT :: refCount[i] == if i in held then 1 else 0)
      && (forall i | i in held :: i < TEMP_MAPPING_COUNT && table[1023 - i] == held[i] + 3)
    }

    /** `temp_mapping_init`, over a directory whose entry 768 is present. */
    constructor (directory: array<nat>, table: array<nat>)
      requires directory.Length == 1024 && table.Length == 1024 && directory != table
      requires directory[768] % 2 == 1
      ensures Valid() && held == map[] && peak == 0 && this.directory == directory && this.table == table
      ensures fresh(refCount) && fresh(available)
    {
      this.directory, this.table := directory, table;
      refCount := new nat[TEMP_MAPPING_COUNT](i => 0);
      available := new bool[TEMP_MAPPING_COUNT](i => true);
      held, peak := map[], 0;
    }

    /** `map_page` where the page table is present, as it is for every slot. */
    method MapPage(va: nat, pa: nat, flags: nat)
      requires table.Length == 1024 && directory.Length == 1024
      requires DirectoryIndex(va) == 768 && directory[768] % 2 == 1 && pa % PAGE_SIZE == 0 && flags < PAGE_SIZE
      modifies table
      ensures forall k | 0 <= k < 1024 :: table[k] == if k == TableIndex(va) then pa + flags else old(table[k])
    {
      table[TableIndex(va)] := pa + flags;
    }

    method UnmapPage(va: nat)
      requires table.Length == 1024
      modifies table
      ensures forall k | 0 <= k < 1024 :: table[k] == if k == TableIndex(va) then 0 else old(table[k])
    {
      table[TableIndex(va)] := 0;
    }

    /** The search loop of `temp_map_page`. */
    method FindSlot() returns (slot: nat)
      requires Valid()
      ensures slot == LowestFree(held)
    {
      slot := 0;
      while slot < TEMP_MAPPING_COUNT
        invariant slot <= TEMP_MAPPING_COUNT
        invariant forall i: nat | i < slot :: i in held
      {
        if available[slot] { return; }
        slot := slot + 1;
      }
    }

    /** `temp_map_page`: show the page at `physical` through the lowest free slot; 0 if it is
        not page aligned or every slot is held. */
    method Map(physical: nat) returns (va: nat)
      requires Valid()
      modifies this, refCount, table, available
      ensures Valid()
      ensures var slot := LowestFree(old(held));
              if physical % PAGE_SIZE != 0 || slot == TEMP_MAPPING_COUNT then
                va == 0 && held == old(held) && peak == old(peak)
              else
                && va == SlotAddr(slot) && held == old(held)[slot := physical]
                && InSlots(va) && SlotOf(va) == slot && va % PAGE_SIZE == 0
                && peak == if |held| > old(peak) then |held| else old(peak)
      ensures forall k | 0 <= k < 1024 ::
                table[k] == if va != 0 && k == TableIndex(va) then physical + 3 else old(table[k])
    {
      if physical % PAGE_SIZE != 0 { return 0; }
      var slot := FindSlot();
      if slot == TEMP_MAPPING_COUNT { return 0; }
      Occupy(slot, physical);
      SlotGeometry(slot);
      va := SlotAddr(slot);
    }

    /** The locked update of `temp_map_page` for a slot that is free. */
    method Occupy(slot: nat, physical: nat)
      requires Valid() && slot < TEMP_MAPPING_COUNT && slot !in held && physical % PAGE_SIZE == 0
      modifies this, refCount, table, available
      ensures Valid() && held == old(held)[slot := physical]
      ensures peak == if |held| > old(peak) then |held| else old(peak)
      ensures forall k | 0 <= k < 1024 :: table[k] == if k == 1023 - slot then physical + 3 else old(table[k])
    {
      SlotGeometry(slot);
      MapPage(SlotAddr(slot), physical, 3);
      available[slot] := false;
      refCount[slot] := refCount[slot] + 1;
      held := held[slot := physical];
      peak := if |held| > peak then |held| else peak;
    }

    /** `temp_unmap_page`.  An address outside the slots, or of a slot not held, is ignored.  An address
        inside a slot but not at its start releases the slot one number lower and clears the entry of
        the slot it lies in; so the mapping stays sound exactly when these are not both held. */
    method Unmap(va: nat)
      requires Valid()
      modifies this, refCount, table, available
      ensures held == if InSlots(va) then old(held) - {SlotOf(va)} else old(held)
      ensures peak == old(peak)
      ensures forall k | 0 <= k < 1024 ::
                table[k] == if InSlots(va) && SlotOf(va) in old(held) && k == TableIndex(va) then 0 else old(table[k])
      ensures Valid() <==> (va % PAGE_SIZE == 0 || !InSlots(va)
                            || SlotOf(va) !in old(held) || SlotOf(va) + 1 !in old(held))
    {
      if va < TEMP_MAPPING_ADDR - (TEMP_MAPPING_COUNT - 1) * PAGE_SIZE || va > TEMP_MAPPING_ADDR { return; }
      var slot := (TEMP_MAPPING_ADDR - va) / PAGE_SIZE;
      assert slot == SlotOf(va) < TEMP_MAPPING_COUNT;
      if refCount[slot] == 0 { return; }
      EntryOf(va);
      Vacate(slot, va);
    }

    lemma EntryOf(va: nat)
      requires InSlots(va)
      ensures TableIndex(va) == 1023 - (if va % PAGE_SIZE == 0 then SlotOf(va) else SlotOf(va) + 1)
    {
      if va % PAGE_SIZE == 0 {
        assert va == SlotAddr(SlotOf(va));
        SlotGeometry(SlotOf(va));
      } else {
        UnalignedSlot(va);
      }
    }

    /** The locked update of `temp_unmap_page` for a held slot; `va` decides which entry is cleared. */
    method Vacate(slot: nat, va: nat)
      requires Valid() && slot < TEMP_MAPPING_COUNT && slot in held
      requires TableIndex(va) == 1023 - slot || (slot + 1 < TEMP_MAPPING_COUNT && TableIndex(va) == 1023 - (slot + 1))
      modifies this, refCount, table, available
      ensures held == old(held) - {slot} && peak == old(peak)
      ensures forall k | 0 <= k < 1024 :: table[k] == if k == TableIndex(va) then 0 else old(table[k])
      ensures Valid() <==> (TableIndex(va) == 1023 - slot || slot + 1 !in old(held))
    {
      refCount[slot] := refCount[slot] - 1;
      if refCount[slot] == 0 {
        UnmapPage(va);
        available[slot] := true;
      }
      held := held - {slot};
      if TableIndex(va) != 1023 - slot && slot + 1 in held {
        assert table[1023 - (slot + 1)] != held[slot + 1] + 3;
      }
    }
  }
}
