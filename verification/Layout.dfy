/**
 The sizes app_setup_uring() maps, and the addresses that the ring code forms from 32-bit counters: whether every
 slot lies inside its mapping.
 */
module Layout {
  import opened Words

  const SIZEOF_UNSIGNED: nat := 4
  const SIZEOF_SQE: nat := 64
  const SIZEOF_CQE: nat := 16

  /** What io_uring_setup() reports: offsets into the mappings, numbers of entries, IORING_FEAT_SINGLE_MMAP. */
  datatype Params = Params(sqArray: u32, sqEntries: u32, cqCqes: u32, cqEntries: u32, singleMmap: bool)

  ghost predicate FromKernel(p: Params) {
    IsRingSize(p.sqEntries) && IsRingSize(p.cqEntries)
  }

  /** The lengths passed to mmap(), which the code keeps in `int` variables. */
  method RingSizes(p: Params) returns (sringSz: int, cringSz: int)
    ensures var s, c := Int32(SqBytes(p)), Int32(CqBytes(p));
            if p.singleMmap then sringSz == cringSz && s <= sringSz && c <= sringSz && (sringSz == s || sringSz == c)
            else sringSz == s && cringSz == c
    ensures SqBytes(p) < TWO_31 && CqBytes(p) < TWO_31 ==>
              if p.singleMmap
              then SqBytes(p) <= sringSz && CqBytes(p) <= sringSz && (sringSz == SqBytes(p) || sringSz == CqBytes(p))
              else sringSz == SqBytes(p) && cringSz == CqBytes(p)
    ensures FromKernel(p) ==> (SqSlotsMapped(p, sringSz) <==> SqBytes(p) < TWO_31)
    ensures FromKernel(p) ==> (CqSlotsMapped(p, cringSz) <==> CqBytes(p) < TWO_31)
  {
    sringSz := Int32(p.sqArray + p.sqEntries * SIZEOF_UNSIGNED);
    cringSz := Int32(p.cqCqes + p.cqEntries * SIZEOF_CQE);
    if p.singleMmap {
      if cringSz > sringSz {
        sringSz := cringSz;
      }
      cringSz := sringSz;
    }
    if FromKernel(p) {
      MappedIff(p, sringSz, cringSz);
    }
  }

  /** The bytes from the start of a mapping to the end of its last slot. */
  function SqBytes(p: Params): nat {
    p.sqArray + p.sqEntries * SIZEOF_UNSIGNED
  }

  function CqBytes(p: Params): nat {
    p.cqCqes + p.cqEntries * SIZEOF_CQE
  }

  /** The end of `array[counter & mask]`, counted from the start of the mapping. */
  function ArraySlotEnd(p: Params, counter: u32): nat
    requires p.sqEntries > 0
  {
    p.sqArray + Slot(counter, p.sqEntries) * SIZEOF_UNSIGNED + SIZEOF_UNSIGNED
  }

  /** The end of `cqes[counter & mask]`. */
  function CqeSlotEnd(p: Params, counter: u32): nat
    requires p.cqEntries > 0
  {
    p.cqCqes + Slot(counter, p.cqEntries) * SIZEOF_CQE + SIZEOF_CQE
  }

  /** A length that is not positive maps nothing: as a size_t it is zero or close to 2^64, and mmap() refuses it. */
  ghost predicate SqSlotsMapped(p: Params, sz: int)
    requires p.sqEntries > 0
  {
    forall counter: u32 :: ArraySlotEnd(p, counter) <= sz
  }

  ghost predicate CqSlotsMapped(p: Params, sz: int)
    requires p.cqEntries > 0
  {
    forall counter: u32 :: CqeSlotEnd(p, counter) <= sz
  }

  /** The largest slot is reached by some counter, and its end is the end of the ring. */
  lemma LastSlot(entries: nat)
    requires IsRingSize(entries)
    ensures 0 < entries <= TWO_31 && Slot(entries - 1, entries) == entries - 1
  {
    RingSizeBound(entries);
    SlotIsResidue(entries - 1, entries);
    ResidueIs(entries - 1, entries, 0, entries - 1);
    WrapCases(entries - 1);
  }

  lemma SqSlotsMappedIff(p: Params, sz: int)
    requires FromKernel(p)
    ensures p.sqEntries > 0 && SqBytes(p) == p.sqArray + 4 * p.sqEntries && (SqSlotsMapped(p, sz) <==> SqBytes(p) <= sz)
  {
    LastSlot(p.sqEntries);
    assert ArraySlotEnd(p, p.sqEntries - 1) == SqBytes(p);
  }

  lemma CqSlotsMappedIff(p: Params, sz: int)
    requires FromKernel(p)
    ensures p.cqEntries > 0 && CqBytes(p) == p.cqCqes + 16 * p.cqEntries && (CqSlotsMapped(p, sz) <==> CqBytes(p) <= sz)
  {
    LastSlot(p.cqEntries);
    assert CqeSlotEnd(p, p.cqEntries - 1) == CqBytes(p);
  }

  /** In both modes a ring's slots are all mapped exactly when the ring's size survives the conversion to `int`. */
  lemma MappedIff(p: Params, sringSz: int, cringSz: int)
    requires FromKernel(p)
    requires var s, c := Int32(SqBytes(p)), Int32(CqBytes(p));
             if p.singleMmap then sringSz == cringSz == (if c > s then c else s) else sringSz == s && cringSz == c
    ensures p.sqEntries > 0 && (SqSlotsMapped(p, sringSz) <==> SqBytes(p) < TWO_31)
    ensures p.cqEntries > 0 && (CqSlotsMapped(p, cringSz) <==> CqBytes(p) < TWO_31)
  {
    SqSlotsMappedIff(p, sringSz);
    CqSlotsMappedIff(p, cringSz);
  }

  /** The SQE mapping, whose length is not narrowed, holds the SQE of every counter. */
  lemma SqeSlotsMapped(p: Params, counter: u32)
    requires p.sqEntries > 0
    ensures 64 * Slot(counter, p.sqEntries) + 64 <= p.sqEntries * SIZEOF_SQE
  {
  }

  /** Slots of counters less than a ring apart do not overlap: neither their indices, their SQEs nor their CQEs. */
  lemma SlotsDisjoint(p: Params, head: u32, i: nat, j: nat)
    requires FromKernel(p)
    requires i < j < i + p.sqEntries && j < i + p.cqEntries
    ensures var a, b := ArraySlotEnd(p, Wrap32(head + i)), ArraySlotEnd(p, Wrap32(head + j));
            a + 4 <= b || b + 4 <= a
    ensures var a, b := CqeSlotEnd(p, Wrap32(head + i)), CqeSlotEnd(p, Wrap32(head + j));
            a + 16 <= b || b + 16 <= a
    ensures var a, b := Slot(Wrap32(head + i), p.sqEntries), Slot(Wrap32(head + j), p.sqEntries);
            SIZEOF_SQE * a + 64 <= SIZEOF_SQE * b || SIZEOF_SQE * b + 64 <= SIZEOF_SQE * a
  {
    SlotsDiffer(head, i, j, p.sqEntries);
    SlotsDiffer(head, i, j, p.cqEntries);
  }
}
