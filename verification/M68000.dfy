/** The part of a 68000 that the two checksum routines use: D0-D2, A0, A1, SP, the flags X, Z
    and C, byte memory with 32-bit addresses, and eighteen instruction forms. Semantics follow
    section 4, Integer Instructions, of the M68000 Family Programmer's Reference Manual.
    N and V are left out because no instruction here reads them. */
module M68000 {
  import opened MachineInts

  /** Any memory content; an address that is not listed holds 0. */
  type Memory = map<U32, Byte>

  function Peek(mem: Memory, addr: int): Byte {
    var a := Trunc32(addr);
    if a in mem then mem[a] else 0
  }

  /** The n bytes at addr, wrapping past the top of the address space. */
  function Load(mem: Memory, addr: int, n: nat): (s: seq<Byte>)
    ensures |s| == n
    decreases n
  {
    if n == 0 then [] else [Peek(mem, addr)] + Load(mem, addr + 1, n - 1)
  }

  /** A big-endian long word. */
  function PeekLong(mem: Memory, addr: int): U32 {
    var b0: int, b1: int, b2: int, b3: int :=
      Peek(mem, addr), Peek(mem, addr + 1), Peek(mem, addr + 2), Peek(mem, addr + 3);
    0x100_0000 * b0 + 0x1_0000 * b1 + 0x100 * b2 + b3
  }

  function PeekWord(mem: Memory, addr: int): U16 {
    var b0: int, b1: int := Peek(mem, addr), Peek(mem, addr + 1);
    0x100 * b0 + b1
  }

  function PokeLong(mem: Memory, addr: int, v: U32): Memory {
    mem[Trunc32(addr) := v / 0x100_0000]
       [Trunc32(addr + 1) := v / 0x1_0000 % 0x100]
       [Trunc32(addr + 2) := v / 0x100 % 0x100]
       [Trunc32(addr + 3) := v % 0x100]
  }

  /** The most significant byte comes first: a word's bytes, and a long word's words. */
  lemma BigEndian(mem: Memory, addr: int)
    ensures PeekWord(mem, addr) / 0x100 == Peek(mem, addr) && PeekWord(mem, addr) % 0x100 == Peek(mem, addr + 1)
    ensures PeekLong(mem, addr) / TWO16 == PeekWord(mem, addr) && PeekLong(mem, addr) % TWO16 == PeekWord(mem, addr + 2)
  {
    hide Peek;
    assert PeekLong(mem, addr) == TWO16 * PeekWord(mem, addr) + PeekWord(mem, addr + 2);
  }

  /** Is addr one of the four bytes that start at base (modulo 2^32)? */
  predicate InLong(base: int, addr: int) { Trunc32(addr - base) < 4 }

  /** None of the n bytes at addr lies in the long word at base. */
  ghost predicate ClearOfLong(base: int, addr: int, n: nat) {
    forall a: int | addr <= a < addr + n :: !InLong(base, a)
  }

  function LowByte(r: U32): Byte { r % 0x100 }
  function LowWord(r: U32): U16 { r % 0x1_0000 }
  /** Writing part of a data register leaves its upper bits alone. */
  function SetByte(r: U32, b: Byte): U32 { r / 0x100 * 0x100 + b }
  function SetWord(r: U32, w: U16): U32 { r / 0x1_0000 * 0x1_0000 + w }

  /** A byte write replaces the low byte and nothing else. */
  lemma ByteWrite(r: U32, b: Byte)
    ensures LowByte(SetByte(r, b)) == b && SetByte(r, b) / 0x100 == r / 0x100
  {
  }

  datatype Instr =
    | MoveLongSpToA0(disp: nat)   // move.l  disp(%sp),%a0
    | MoveWordSpToD1(disp: nat)   // move.w  disp(%sp),%d1
    | PushD2                      // move.l  %d2,-(%sp)
    | PopD2                       // move.l  (%sp)+,%d2
    | ClearD0                     // moveq   #0,%d0
    | ClearD2                     // moveq   #0,%d2
    | TestWordD1                  // tst.w   %d1
    | MoveWordD1ToD2              // move.w  %d1,%d2
    | LeaA0D2ToA1                 // lea     (%a0,%d2.l),%a1
    | AddBytePostIncA0            // add.b   (%a0)+,%d0
    | AddxByteD2ToD0              // addx.b  %d2,%d0
    | CompareA1A0                 // cmp.l   %a1,%a0
    | SubqWord1D1                 // subq.w  #1,%d1
    | AddqByte1D0                 // addq.b  #1,%d0
    | Beq(target: nat)
    | Bne(target: nat)
    | Bcc(target: nat)
    | DbraD1(target: nat)
    | Rts

  type Program = seq<Instr>

  /** Either about to execute an instruction of the routine, or back in the caller at an address. */
  datatype Control = At(index: nat) | Returned(to: U32)

  datatype Cpu = Cpu(d0: U32, d1: U32, d2: U32, a0: U32, a1: U32, sp: U32,
                     x: bool, z: bool, c: bool, mem: Memory, pc: Control)

  /** The effect of one instruction; `next` is the fall-through successor. */
  function Exec(i: Instr, s: Cpu, next: nat): Cpu {
    var n := s.(pc := At(next));
    match i
    case MoveLongSpToA0(disp) => n.(a0 := PeekLong(s.mem, s.sp + disp))
    case MoveWordSpToD1(disp) =>
      var w := PeekWord(s.mem, s.sp + disp);
      n.(d1 := SetWord(s.d1, w), z := w == 0, c := false)
    case PushD2 =>
      var top := Trunc32(s.sp - 4);
      n.(sp := top, mem := PokeLong(s.mem, top, s.d2), z := s.d2 == 0, c := false)
    case PopD2 =>
      var v := PeekLong(s.mem, s.sp);
      n.(d2 := v, sp := Trunc32(s.sp + 4), z := v == 0, c := false)
    case ClearD0 => n.(d0 := 0, z := true, c := false)
    case ClearD2 => n.(d2 := 0, z := true, c := false)
    case TestWordD1 => n.(z := LowWord(s.d1) == 0, c := false)
    case MoveWordD1ToD2 => n.(d2 := SetWord(s.d2, LowWord(s.d1)), z := LowWord(s.d1) == 0, c := false)
    case LeaA0D2ToA1 => n.(a1 := Trunc32(s.a0 + s.d2))
    case AddBytePostIncA0 =>
      var sum := LowByte(s.d0) + Peek(s.mem, s.a0);
      n.(d0 := SetByte(s.d0, sum % 0x100), a0 := Trunc32(s.a0 + 1),
         x := sum >= 0x100, c := sum >= 0x100, z := sum % 0x100 == 0)
    case AddxByteD2ToD0 =>
      var sum := LowByte(s.d0) + LowByte(s.d2) + (if s.x then 1 else 0);
      // ADDX clears Z for a non-zero result and otherwise leaves it unchanged.
      n.(d0 := SetByte(s.d0, sum % 0x100),
         x := sum >= 0x100, c := sum >= 0x100, z := s.z && sum % 0x100 == 0)
    case CompareA1A0 => n.(z := s.a0 == s.a1, c := s.a0 < s.a1)
    case SubqWord1D1 =>
      var borrow := LowWord(s.d1) == 0;
      var w := if borrow then 0xFFFF else LowWord(s.d1) - 1;
      n.(d1 := SetWord(s.d1, w), x := borrow, c := borrow, z := w == 0)
    case AddqByte1D0 =>
      var sum := LowByte(s.d0) + 1;
      n.(d0 := SetByte(s.d0, sum % 0x100), x := sum >= 0x100, c := sum >= 0x100, z := sum % 0x100 == 0)
    case Beq(target) => if s.z then s.(pc := At(target)) else n
    case Bne(target) => if s.z then n else s.(pc := At(target))
    case Bcc(target) => if s.c then n else s.(pc := At(target))
    case DbraD1(target) =>
      // The counter is the low word only; no flag changes. Falls through when it reaches -1.
      if LowWord(s.d1) == 0
      then n.(d1 := SetWord(s.d1, 0xFFFF))
      else s.(d1 := SetWord(s.d1, LowWord(s.d1) - 1), pc := At(target))
    case Rts => s.(sp := Trunc32(s.sp + 4), pc := Returned(PeekLong(s.mem, s.sp)))
  }

  /** One fetch-execute cycle; a processor that has left the routine stays put. */
  function Step(p: Program, s: Cpu): Cpu {
    if s.pc.At? && s.pc.index < |p| then Exec(p[s.pc.index], s, s.pc.index + 1) else s
  }

  function Run(p: Program, s: Cpu, n: nat): Cpu
    decreases n
  {
    if n == 0 then s else Run(p, Step(p, s), n - 1)
  }

  lemma {:induction false} RunAppend(p: Program, s: Cpu, m: nat, n: nat)
    ensures Run(p, s, m + n) == Run(p, Run(p, s, m), n)
    decreases m
  {
    if m > 0 {
      RunAppend(p, Step(p, s), m - 1, n);
    }
  }

  lemma SameAddress(a: int, b: int, k: nat)
    requires k < 4
    ensures Trunc32(a) == Trunc32(b + k) ==> InLong(b, a)
    ensures 0 < b - a < TWO32 ==> Trunc32(a) != Trunc32(b)
  {
    if Trunc32(a) == Trunc32(b + k) {
      var q := (a - b - k) / TWO32;
      assert (a - b - k) % TWO32 == 0;
      assert a - b == k + q * TWO32;
    }
  }

  /** Storing a long word and loading it back gives the word, and no other byte moves. */
  lemma PokePeek(mem: Memory, addr: int, v: U32)
    ensures PeekLong(PokeLong(mem, addr, v), addr) == v
    ensures forall a: int :: !InLong(addr, a) ==> Peek(PokeLong(mem, addr, v), a) == Peek(mem, a)
  {
    forall a: int | !InLong(addr, a)
      ensures Peek(PokeLong(mem, addr, v), a) == Peek(mem, a)
    {
      SameAddress(a, addr, 0);
      SameAddress(a, addr, 1);
      SameAddress(a, addr, 2);
      SameAddress(a, addr, 3);
    }
    FourBytes(mem, addr, v);
    Recombine(v);
  }

  lemma FourBytes(mem: Memory, addr: int, v: U32)
    ensures var m := PokeLong(mem, addr, v);
      Peek(m, addr) == v / 0x100_0000 && Peek(m, addr + 1) == v / 0x1_0000 % 0x100 &&
      Peek(m, addr + 2) == v / 0x100 % 0x100 && Peek(m, addr + 3) == v % 0x100
  {
    SameAddress(addr, addr + 1, 0);
    SameAddress(addr, addr + 2, 0);
    SameAddress(addr, addr + 3, 0);
    SameAddress(addr + 1, addr + 2, 0);
    SameAddress(addr + 1, addr + 3, 0);
    SameAddress(addr + 2, addr + 3, 0);
  }

  lemma Recombine(v: U32)
    ensures 0x100_0000 * (v / 0x100_0000) + 0x1_0000 * (v / 0x1_0000 % 0x100)
            + 0x100 * (v / 0x100 % 0x100) + v % 0x100 == v
  {
    assert v == v / 0x100 * 0x100 + v % 0x100;
    assert v / 0x100 == v / 0x1_0000 * 0x100 + v / 0x100 % 0x100;
    assert v / 0x1_0000 == v / 0x100_0000 * 0x100 + v / 0x1_0000 % 0x100;
  }

  lemma {:induction false} LoadOfDisjoint(mem: Memory, slot: int, v: U32, addr: int, n: nat)
    requires ClearOfLong(slot, addr, n)
    ensures Load(PokeLong(mem, slot, v), addr, n) == Load(mem, addr, n)
    decreases n
  {
    if n > 0 {
      PokePeek(mem, slot, v);
      assert !InLong(slot, addr);
      LoadOfDisjoint(mem, slot, v, addr + 1, n - 1);
    }
  }

  /** The k-th byte loaded is the one k places up. */
  lemma {:induction false} LoadAt(mem: Memory, addr: int, n: nat, k: nat)
    requires k < n
    ensures Load(mem, addr, n)[k] == Peek(mem, addr + k)
    decreases k
  {
    hide Peek;
    if k > 0 {
      LoadAt(mem, addr + 1, n - 1, k - 1);
    }
  }

  /** Addresses that differ by a multiple of 2^32 name the same byte. */
  lemma {:induction false} LoadWraps(mem: Memory, a: int, b: int, n: nat)
    requires Trunc32(a) == Trunc32(b)
    ensures Load(mem, a, n) == Load(mem, b, n)
    decreases n
  {
    if n > 0 {
      NextAddress(a, b);
      hide Trunc32;
      LoadWraps(mem, a + 1, b + 1, n - 1);
    }
  }

  lemma NextAddress(a: int, b: int)
    requires Trunc32(a) == Trunc32(b)
    ensures Trunc32(a + 1) == Trunc32(b + 1)
  {
  }

  /** The processor itself: registers that every cycle updates in place. */
  class Processor {
    var d0: U32
    var d1: U32
    var d2: U32
    var a0: U32
    var a1: U32
    var sp: U32
    var x: bool
    var z: bool
    var c: bool
    var mem: Memory
    var pc: Control

    function View(): Cpu
      reads this
    {
      Cpu(d0, d1, d2, a0, a1, sp, x, z, c, mem, pc)
    }

    constructor (s: Cpu)
      ensures View() == s
    {
      d0, d1, d2, a0, a1, sp := s.d0, s.d1, s.d2, s.a0, s.a1, s.sp;
      x, z, c, mem, pc := s.x, s.z, s.c, s.mem, s.pc;
    }

    /** Loads of the arguments, relative to SP. */
    method LoadArgument(i: Instr, next: nat)
      requires i.MoveLongSpToA0? || i.MoveWordSpToD1?
      modifies this
      ensures View() == Exec(i, old(View()), next)
    {
      hide PeekLong, PeekWord, SetWord;
      pc := At(next);
      match i
      case MoveLongSpToA0(disp) =>
        a0 := PeekLong(mem, sp + disp);
      case MoveWordSpToD1(disp) =>
        var w := PeekWord(mem, sp + disp);
        d1, z, c := SetWord(d1, w), w == 0, false;
    }

    /** Saving and restoring D2. */
    method MoveStack(i: Instr, next: nat)
      requires i.PushD2? || i.PopD2?
      modifies this
      ensures View() == Exec(i, old(View()), next)
    {
      hide PeekLong, PokeLong;
      pc := At(next);
      match i
      case PushD2 =>
        sp := Trunc32(sp - 4);
        mem := PokeLong(mem, sp, d2);
        z, c := d2 == 0, false;
      case PopD2 =>
        d2 := PeekLong(mem, sp);
        sp := Trunc32(sp + 4);
        z, c := d2 == 0, false;
    }

    /** Transfers between registers and from immediate data. */
    method MoveRegister(i: Instr, next: nat)
      requires i.ClearD0? || i.ClearD2? || i.MoveWordD1ToD2? || i.LeaA0D2ToA1?
      modifies this
      ensures View() == Exec(i, old(View()), next)
    {
      pc := At(next);
      match i
      case ClearD0 =>
        d0, z, c := 0, true, false;
      case ClearD2 =>
        d2, z, c := 0, true, false;
      case MoveWordD1ToD2 =>
        d2 := SetWord(d2, LowWord(d1));
        z, c := LowWord(d1) == 0, false;
      case LeaA0D2ToA1 =>
        a1 := Trunc32(a0 + d2);
    }

    /** ADD.B (A0)+,D0. */
    method AddByte(next: nat)
      modifies this
      ensures View() == Exec(AddBytePostIncA0, old(View()), next)
    {
      hide Peek;
      pc := At(next);
      var sum := LowByte(d0) + Peek(mem, a0);
      d0, a0 := SetByte(d0, sum % 0x100), Trunc32(a0 + 1);
      x, c, z := sum >= 0x100, sum >= 0x100, sum % 0x100 == 0;
    }

    /** ADDX.B D2,D0. */
    method AddxByte(next: nat)
      modifies this
      ensures View() == Exec(AddxByteD2ToD0, old(View()), next)
    {
      pc := At(next);
      var sum := LowByte(d0) + LowByte(d2) + (if x then 1 else 0);
      d0 := SetByte(d0, sum % 0x100);
      x, c, z := sum >= 0x100, sum >= 0x100, z && sum % 0x100 == 0;
    }

    /** ADDQ.B #1,D0. */
    method AddqByte(next: nat)
      modifies this
      ensures View() == Exec(AddqByte1D0, old(View()), next)
    {
      pc := At(next);
      var sum := LowByte(d0) + 1;
      d0 := SetByte(d0, sum % 0x100);
      x, c, z := sum >= 0x100, sum >= 0x100, sum % 0x100 == 0;
    }

    /** SUBQ on the low word of D1, and the comparisons, which keep X. */
    method Compare(i: Instr, next: nat)
      requires i.TestWordD1? || i.CompareA1A0? || i.SubqWord1D1?
      modifies this
      ensures View() == Exec(i, old(View()), next)
    {
      pc := At(next);
      match i
      case TestWordD1 =>
        z, c := LowWord(d1) == 0, false;
      case CompareA1A0 =>
        z, c := a0 == a1, a0 < a1;
      case SubqWord1D1 =>
        var borrow := LowWord(d1) == 0;
        var w := if borrow then 0xFFFF else LowWord(d1) - 1;
        d1 := SetWord(d1, w);
        x, c, z := borrow, borrow, w == 0;
    }

    /** The conditional branches. */
    method Branch(i: Instr, next: nat)
      requires i.Beq? || i.Bne? || i.Bcc?
      modifies this
      ensures View() == Exec(i, old(View()), next)
    {
      pc := At(next);
      match i
      case Beq(target) =>
        if z { pc := At(target); }
      case Bne(target) =>
        if !z { pc := At(target); }
      case Bcc(target) =>
        if !c { pc := At(target); }
    }

    /** DBRA on D1, and RTS. */
    method LoopOrReturn(i: Instr, next: nat)
      requires i.DbraD1? || i.Rts?
      modifies this
      ensures View() == Exec(i, old(View()), next)
    {
      pc := At(next);
      match i
      case DbraD1(target) =>
        if LowWord(d1) == 0 {
          d1 := SetWord(d1, 0xFFFF);
        } else {
          d1 := SetWord(d1, LowWord(d1) - 1);
          pc := At(target);
        }
      case Rts =>
        pc := Returned(PeekLong(mem, sp));
        sp := Trunc32(sp + 4);
    }

    /** Fetch, decode and execute one instruction. */
    method Cycle(p: Program)
      requires pc.At? && pc.index < |p|
      modifies this
      ensures View() == Step(p, old(View()))
    {
      var i, next := p[pc.index], pc.index + 1;
      match i
      case MoveLongSpToA0(_) => LoadArgument(i, next);
      case MoveWordSpToD1(_) => LoadArgument(i, next);
      case PushD2 => MoveStack(i, next);
      case PopD2 => MoveStack(i, next);
      case ClearD0 => MoveRegister(i, next);
      case ClearD2 => MoveRegister(i, next);
      case MoveWordD1ToD2 => MoveRegister(i, next);
      case LeaA0D2ToA1 => MoveRegister(i, next);
      case Beq(_) => Branch(i, next);
      case Bne(_) => Branch(i, next);
      case Bcc(_) => Branch(i, next);
      case DbraD1(_) => LoopOrReturn(i, next);
      case Rts => LoopOrReturn(i, next);
      case AddBytePostIncA0 => AddByte(next);
      case AddxByteD2ToD0 => AddxByte(next);
      case AddqByte1D0 => AddqByte(next);
      case _ => Compare(i, next);
    }

    /** Cycle until the routine returns. `steps` witnesses that it does. */
    method Call(p: Program, ghost steps: nat)
      requires Run(p, View(), steps).pc.Returned?
      modifies this
      ensures View() == Run(p, old(View()), steps)
    {
      ghost var left: nat := steps;
      while pc.At? && pc.index < |p|
        invariant left <= steps
        invariant Run(p, View(), left) == Run(p, old(View()), steps)
        decreases left
      {
        Cycle(p);
        left := left - 1;
      }
      Stuck(p, View(), left);
    }
  }

  lemma {:induction false} Stuck(p: Program, s: Cpu, n: nat)
    requires s.pc.Returned? || s.pc.index >= |p|
    ensures Run(p, s, n) == s
    decreases n
  {
    if n > 0 {
      Stuck(p, s, n - 1);
    }
  }
}
