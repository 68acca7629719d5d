/** Interrupt descriptor table entries. Each 8-byte gate descriptor is
    two 32-bit words in `idt`: word 2i holds the segment selector above
    offset bits 0-15, word 2i+1 holds offset bits 16-31 above the present
    flag, the privilege level and the gate type (Intel 64 and IA-32
    Architectures Software Developer's Manual, Volume 3A, section 6.11,
    "IDT Descriptors"). */
module Idt {

  datatype GateKind = InterruptGate32 | TrapGate32 | OtherKind(bits: bv32)

  /** The fields of a gate descriptor as the processor reads them. */
  datatype Gate = Gate(offset: bv32, selector: bv32, present: bool, dpl: bv32, kind: GateKind)

  /** Reads the two words of a descriptor the way the processor does. */
  function Decode(lo: bv32, hi: bv32): (g: Gate)
    ensures g.dpl < 4
    ensures g.selector < 0x1_0000
  {
    var t := (hi >> 8) & 0x1F;
    Gate((lo & 0xFFFF) | (hi & 0xFFFF_0000),
         lo >> 16,
         hi & 0x8000 != 0,
         (hi >> 13) & 3,
         if t == 0x0E then InterruptGate32 else if t == 0x0F then TrapGate32 else OtherKind(t))
  }

  /** The low word both `IDT::interrupt` and `IDT::trap` store. */
  function LowWord(kernelCS: bv32, handler: bv32): bv32 {
    (kernelCS << 16) + (handler & 0xFFFF)
  }

  /** The high word `IDT::interrupt` stores: present, DPL 0, 32-bit
      interrupt gate. */
  function InterruptHigh(handler: bv32): bv32 {
    (handler & 0xFFFF_0000) | 0x8E00
  }

  /** The high word `IDT::trap` stores: present, 32-bit trap gate, `dpl`
      shifted into bits 13-14 (a wider value spills into the bits above). */
  function TrapHigh(handler: bv32, dpl: bv32): bv32 {
    (handler & 0xFFFF_0000) | 0x8F00 | (dpl << 13)
  }

  /** The interrupt gate gives back the handler, the low half of the
      code selector, and a present DPL 0 interrupt gate. */
  lemma InterruptGateDecodes(kernelCS: bv32, handler: bv32)
    ensures Decode(LowWord(kernelCS, handler), InterruptHigh(handler))
         == Gate(handler, kernelCS & 0xFFFF, true, 0, InterruptGate32)
  {
    LowWordFields(kernelCS, handler);
    HighWordFields(handler, 0x8E00);
  }

  /** A trap gate with a privilege level below 4 gives back the handler,
      the low half of the code selector, and a present trap gate at that
      level. */
  lemma TrapGateDecodes(kernelCS: bv32, handler: bv32, dpl: bv32)
    requires dpl < 4
    ensures Decode(LowWord(kernelCS, handler), TrapHigh(handler, dpl))
         == Gate(handler, kernelCS & 0xFFFF, true, dpl, TrapGate32)
  {
    LowWordFields(kernelCS, handler);
    TrapHighFields(handler, dpl);
    DecodeTrap(LowWord(kernelCS, handler), TrapHigh(handler, dpl), handler, kernelCS & 0xFFFF, dpl);
  }

  /** Decoding a pair of words whose fields are known. */
  lemma DecodeTrap(lo: bv32, hi: bv32, handler: bv32, selector: bv32, dpl: bv32)
    requires lo & 0xFFFF == handler & 0xFFFF && hi & 0xFFFF_0000 == handler & 0xFFFF_0000
    requires lo >> 16 == selector
    requires (hi >> 8) & 0x1F == 0x0F && (hi >> 13) & 3 == dpl && hi & 0x8000 != 0
    ensures Decode(lo, hi) == Gate(handler, selector, true, dpl, TrapGate32)
  {
    OffsetHalves(lo, hi, handler);
  }

  /** The fields of a trap gate's high word. */
  lemma TrapHighFields(handler: bv32, dpl: bv32)
    requires dpl < 4
    ensures TrapHigh(handler, dpl) & 0xFFFF_0000 == handler & 0xFFFF_0000
    ensures (TrapHigh(handler, dpl) >> 8) & 0x1F == 0x0F
    ensures (TrapHigh(handler, dpl) >> 13) & 3 == dpl
    ensures TrapHigh(handler, dpl) & 0x8000 != 0
  {
    var flags := 0x8F00 | (dpl << 13);
    assert TrapHigh(handler, dpl) == (handler & 0xFFFF_0000) | flags;
    TrapFlags(dpl);
    HighWordFields(handler, flags);
  }

  /** The flag half of a trap gate's high word. */
  lemma TrapFlags(dpl: bv32)
    requires dpl < 4
    ensures 0x8F00 | (dpl << 13) < 0x1_0000
    ensures ((0x8F00 | (dpl << 13)) >> 8) & 0x1F == 0x0F
    ensures ((0x8F00 | (dpl << 13)) >> 13) & 3 == dpl
    ensures (0x8F00 | (dpl << 13)) & 0x8000 != 0
  {
  }

  /** The two halves of the offset put together. */
  lemma OffsetHalves(lo: bv32, hi: bv32, handler: bv32)
    requires lo & 0xFFFF == handler & 0xFFFF && hi & 0xFFFF_0000 == handler & 0xFFFF_0000
    ensures (lo & 0xFFFF) | (hi & 0xFFFF_0000) == handler
  {
  }

  /** Offset bits 0-15 and the selector sit apart in the low word. */
  lemma LowWordFields(kernelCS: bv32, handler: bv32)
    ensures LowWord(kernelCS, handler) & 0xFFFF == handler & 0xFFFF
    ensures LowWord(kernelCS, handler) >> 16 == kernelCS & 0xFFFF
  {
  }

  /** Offset bits 16-31 and flags below bit 16 sit apart in the high word. */
  lemma HighWordFields(handler: bv32, flags: bv32)
    requires flags < 0x1_0000
    ensures ((handler & 0xFFFF_0000) | flags) & 0xFFFF_0000 == handler & 0xFFFF_0000
    ensures (((handler & 0xFFFF_0000) | flags) >> 8) & 0x1F == (flags >> 8) & 0x1F
    ensures (((handler & 0xFFFF_0000) | flags) >> 13) & 3 == (flags >> 13) & 3
    ensures ((handler & 0xFFFF_0000) | flags) & 0x8000 == flags & 0x8000
  {
  }

  /** `IDT::interrupt(index, handler)`. */
  method Interrupt(idt: array<bv32>, kernelCS: bv32, index: int, handler: bv32)
    requires 0 <= index && 2 * index + 1 < idt.Length
    modifies idt
    ensures idt[2 * index] == LowWord(kernelCS, handler) && idt[2 * index + 1] == InterruptHigh(handler)
    ensures Decode(idt[2 * index], idt[2 * index + 1]) == Gate(handler, kernelCS & 0xFFFF, true, 0, InterruptGate32)
    ensures forall k | 0 <= k < idt.Length && k != 2 * index && k != 2 * index + 1 :: idt[k] == old(idt[k])
  {
    var i0 := 2 * index;
    var i1 := i0 + 1;
    idt[i0] := (kernelCS << 16) + (handler & 0xFFFF);
    idt[i1] := (handler & 0xFFFF_0000) | 0x8E00;
    InterruptGateDecodes(kernelCS, handler);
  }

  /** `IDT::trap(index, handler, dpl)`. */
  method Trap(idt: array<bv32>, kernelCS: bv32, index: int, handler: bv32, dpl: bv32)
    requires 0 <= index && 2 * index + 1 < idt.Length
    modifies idt
    ensures idt[2 * index] == LowWord(kernelCS, handler) && idt[2 * index + 1] == TrapHigh(handler, dpl)
    ensures dpl < 4 ==> Decode(idt[2 * index], idt[2 * index + 1]) == Gate(handler, kernelCS & 0xFFFF, true, dpl, TrapGate32)
    ensures forall k | 0 <= k < idt.Length && k != 2 * index && k != 2 * index + 1 :: idt[k] == old(idt[k])
  {
    var i0 := 2 * index;
    var i1 := i0 + 1;
    idt[i0] := (kernelCS << 16) + (handler & 0xFFFF);
    idt[i1] := (handler & 0xFFFF_0000) | 0x8F00 | (dpl << 13);
    if dpl < 4 {
      TrapGateDecodes(kernelCS, handler, dpl);
    }
  }
}
