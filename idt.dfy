/**
 * The interrupt descriptor table (kernel/src/arch/i686/idt.c): 256
 * interrupt gates in the layout of section 6.11 of the Intel 64 and IA-32
 * Architectures Software Developer's Manual, Volume 3A, and the
 * limit/base pair loaded into IDTR.
 *
 * The address of the table is a parameter, and the lidt instruction is
 * outside the model.  isr_install (kernel/src/arch/i686/isr.c), which
 * interrupts_init calls first to fill the gates, is not part of this
 * model.
 */
module Idt {
  import opened Kernel

  const IDT_ENTRIES: nat := 256
  /** sizeof(idt_gate_t): a gate is packed into eight bytes. */
  const GATE_SIZE: nat := 8
  /** KERNEL_CODE_SELECTOR: index 1 of the GDT, ring 0. */
  const KERNEL_CODE_SELECTOR: bv16 := 0x08
  /** Present, ring 0, 32-bit interrupt gate. */
  const GATE_FLAGS: bv8 := 0x8E

  /** idt_gate_t, fields in memory order. */
  datatype Gate = Gate(offsetLow: bv16, selector: bv16, reserved: bv8, flags: bv8, offsetHigh: bv16)

  const NULL_GATE := Gate(0, 0, 0, 0, 0)

  /** low_16. */
  function Low16(address: bv32): bv16 {
    (address & 0xFFFF) as bv16
  }

  /** high_16. */
  function High16(address: bv32): bv16 {
    ((address >> 16) & 0xFFFF) as bv16
  }

  /** The handler address a gate points to, as the processor assembles it. */
  function Offset(g: Gate): bv32 {
    ((g.offsetHigh as bv32) << 16) | (g.offsetLow as bv32)
  }

  /**
   * The gate set_idt_gate stores: it points at `handler` through the
   * kernel code segment, as a present ring 0 interrupt gate.
   */
  function HandlerGate(handler: bv32): (g: Gate)
    ensures Offset(g) == handler
    ensures g.selector == KERNEL_CODE_SELECTOR && g.reserved == 0 && g.flags == GATE_FLAGS
  {
    Gate(Low16(handler), KERNEL_CODE_SELECTOR, 0x00, GATE_FLAGS, High16(handler))
  }

  /** Every present kernel interrupt gate is the gate of the handler it points to. */
  lemma HandlerGateDecodes(g: Gate)
    requires g.selector == KERNEL_CODE_SELECTOR && g.reserved == 0 && g.flags == GATE_FLAGS
    ensures HandlerGate(Offset(g)) == g
  {
  }

  /** The idt_register_t loaded into IDTR. */
  datatype Register = Register(limit: u16, base: u32)

  class Table {
    const idt: array<Gate>
    var idtReg: Register

    /** The global table starts out zeroed. */
    constructor ()
      ensures idt.Length == IDT_ENTRIES && fresh(idt) && idtReg == Register(0, 0)
      ensures forall i :: 0 <= i < IDT_ENTRIES ==> idt[i] == NULL_GATE
    {
      idt := new Gate[IDT_ENTRIES](_ => NULL_GATE);
      idtReg := Register(0, 0);
    }

    /** set_idt_gate: gate `n` becomes HandlerGate(handler), field by field; no other gate changes. */
    method SetIdtGate(n: int, handler: bv32)
      requires idt.Length == IDT_ENTRIES && 0 <= n < IDT_ENTRIES
      modifies idt
      ensures idt[..] == old(idt[..])[n := HandlerGate(handler)]
    {
      idt[n] := idt[n].(offsetLow := Low16(handler));
      idt[n] := idt[n].(selector := KERNEL_CODE_SELECTOR);
      idt[n] := idt[n].(reserved := 0x00);
      idt[n] := idt[n].(flags := GATE_FLAGS);
      idt[n] := idt[n].(offsetHigh := High16(handler));
    }

    /**
     * interrupts_init, after isr_install: IDTR gets the table's address
     * and a limit of 256 gates less one byte; the gates are left as they
     * are.  It always returns EOK.
     */
    method InterruptsInit(tableAddress: u32) returns (res: u32)
      modifies this
      ensures res == EOK && idtReg == Register(TableLimit(), tableAddress)
    {
      idtReg := idtReg.(base := tableAddress);
      idtReg := idtReg.(limit := (IDT_ENTRIES * GATE_SIZE - 1) as u16);
      return EOK;
    }
  }

  /** The limit IDTR gets: it covers exactly the 256 gates, and its last byte is the last byte of gate 255. */
  function TableLimit(): (r: u16)
    ensures r as nat + 1 == IDT_ENTRIES * GATE_SIZE && r as nat == 255 * GATE_SIZE + GATE_SIZE - 1
  {
    (IDT_ENTRIES * GATE_SIZE - 1) as u16
  }
}
