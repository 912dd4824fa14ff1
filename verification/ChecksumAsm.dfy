/** The two hand-written checksum routines of apps/test/checksumbench_asm.s, as programs for the
    M68000 model, and the proof that each computes the reference checksum from any machine state. */
module ChecksumAsm {
  import opened MachineInts
  import opened EndAroundCarry
  import opened M68000

  const ADDX_LOOP := 10
  const ADDX_DONE := 14

  /** _fn_calc_checksum_asm: ADD/ADDX with an end pointer. */
  const ADDX: Program := [
    MoveLongSpToA0(4),
    MoveWordSpToD1(10),
    PushD2,
    ClearD0,
    TestWordD1,
    Beq(ADDX_DONE),
    ClearD2,
    MoveWordD1ToD2,
    LeaA0D2ToA1,
    ClearD2,
    AddBytePostIncA0,   // .loop
    AddxByteD2ToD0,
    CompareA1A0,
    Bne(ADDX_LOOP),
    PopD2,              // .done
    Rts
  ]

  const BRANCH_LOOP := 6
  const BRANCH_NO_CARRY := 9
  const BRANCH_DONE := 10

  /** _fn_calc_checksum_asm_branch: BCC/ADDQ with a DBRA counter. */
  const BRANCH: Program := [
    MoveLongSpToA0(4),
    MoveWordSpToD1(10),
    ClearD0,
    TestWordD1,
    Beq(BRANCH_DONE),
    SubqWord1D1,
    AddBytePostIncA0,   // .loop_b
    Bcc(BRANCH_NO_CARRY),
    AddqByte1D0,
    DbraD1(BRANCH_LOOP), // .no_carry
    Rts                 // .done_b
  ]

  /** The arguments as the C calling convention leaves them above the return address: two long words,
      of which the second holds the 16-bit length in its low half. */
  function DataArg(s: Cpu): U32 { PeekLong(s.mem, s.sp + 4) }
  function LenArg(s: Cpu): U16 { LowWord(PeekLong(s.mem, s.sp + 8)) }

  /** The word the routines load is that low half. */
  lemma LengthWord(s: Cpu)
    ensures PeekWord(s.mem, s.sp + 10) == LenArg(s)
  {
    BigEndian(s.mem, s.sp + 8);
  }

  function AddxSteps(len: nat): nat { if len == 0 then 8 else 12 + 4 * len }

  /** Cycles of the BCC loop: three for a byte that does not carry, four for one that does. */
  function BranchLoopSteps(chk: Byte, data: seq<Byte>): nat
    decreases |data|
  {
    if data == [] then 0
    else (if chk + data[0] >= 0x100 then 4 else 3) + BranchLoopSteps(Fold(chk, data[0]), data[1..])
  }

  function BranchSteps(data: seq<Byte>): nat {
    if data == [] then 6 else 7 + BranchLoopSteps(0, data)
  }

  lemma Unroll(p: Program, s: Cpu, n: nat)
    requires n > 0
    ensures Run(p, s, n) == Run(p, Step(p, s), n - 1)
  {
    hide Step;
  }

  lemma TwoSteps(p: Program, s: Cpu, t: Cpu)
    requires Step(p, s) == t
    ensures Run(p, s, 2) == Step(p, t)
  {
    hide Step;
    assert Run(p, s, 2) == Run(p, t, 1) == Run(p, Step(p, t), 0);
  }

  /** In a register that holds just a byte, byte operations act on the whole register. */
  lemma ByteRegister(r: U32, b: Byte)
    requires r < 0x100
    ensures LowByte(r) == r && SetByte(r, b) == b
  {
  }

  // ----- the ADDX routine

  lemma AddxAdd(s: Cpu)
    requires s.pc == At(ADDX_LOOP) && s.d0 < 0x100
    ensures var sum := s.d0 + Peek(s.mem, s.a0);
      Step(ADDX, s) == s.(d0 := sum % 0x100, a0 := Trunc32(s.a0 + 1),
                          x := sum >= 0x100, c := sum >= 0x100, z := sum % 0x100 == 0, pc := At(11))
  {
    hide Peek, Trunc32, LowByte, SetByte;
    var sum := s.d0 + Peek(s.mem, s.a0);
    ByteRegister(s.d0, sum % 0x100);
  }

  /** After a carry the low byte is at most 0xFE, so adding X cannot carry again. */
  lemma AddxFold(s: Cpu)
    requires s.pc == At(11) && s.d0 < 0x100 && s.d2 == 0 && (s.x ==> s.d0 < 0xFF)
    ensures Step(ADDX, s) == s.(d0 := s.d0 + (if s.x then 1 else 0),
                                x := false, c := false, z := s.z && s.d0 == 0 && !s.x, pc := At(12))
  {
    hide LowByte, SetByte;
    ByteRegister(s.d0, s.d0 + (if s.x then 1 else 0));
    ByteRegister(s.d2, 0);
  }

  lemma AddxTest(s: Cpu)
    requires s.pc == At(12)
    ensures Run(ADDX, s, 2) == s.(z := s.a0 == s.a1, c := s.a0 < s.a1,
                                  pc := At(if s.a0 == s.a1 then ADDX_DONE else ADDX_LOOP))
  {
    var t := s.(z := s.a0 == s.a1, c := s.a0 < s.a1, pc := At(13));
    assert Step(ADDX, s) == t;
    TwoSteps(ADDX, s, t);
  }

  lemma FoldIs(chk: Byte, b: Byte)
    ensures Fold(chk, b) == (chk + b) % 0x100 + (if chk + b >= 0x100 then 1 else 0)
    ensures chk + b >= 0x100 ==> (chk + b) % 0x100 < 0xFF
  {
  }

  lemma AddxRound(s: Cpu)
    requires s.pc == At(ADDX_LOOP) && s.d0 < 0x100 && s.d2 == 0
    ensures var a0 := Trunc32(s.a0 + 1);
      Run(ADDX, s, 4) == s.(d0 := Fold(s.d0, Peek(s.mem, s.a0)), a0 := a0,
                            x := false, z := a0 == s.a1, c := a0 < s.a1,
                            pc := At(if a0 == s.a1 then ADDX_DONE else ADDX_LOOP))
  {
    hide Step, Run, Peek, Fold, Trunc32;
    FoldIs(s.d0, Peek(s.mem, s.a0));
    AddxAdd(s);
    var s1 := Step(ADDX, s);
    AddxFold(s1);
    var s2 := Step(ADDX, s1);
    AddxTest(s2);
    Unroll(ADDX, s, 4);
    Unroll(ADDX, s1, 3);
  }

  lemma {:induction false} AddxLoop(s: Cpu, k: nat)
    requires s.pc == At(ADDX_LOOP) && s.d0 < 0x100 && s.d2 == 0
    requires 0 < k < TWO16 && s.a1 == Trunc32(s.a0 + k)
    ensures var e := Run(ADDX, s, 4 * k);
      && e.pc == At(ADDX_DONE)
      && e.d0 == ChecksumFrom(s.d0, Load(s.mem, s.a0, k))
      && e.d1 == s.d1 && e.a0 == e.a1 == s.a1 && e.sp == s.sp && e.mem == s.mem
    decreases k
  {
    hide Step;
    hide Fold;
    hide Peek;
    AddxRound(s);
    var r := Run(ADDX, s, 4);
    var data := Load(s.mem, s.a0, k);
    assert data[0] == Peek(s.mem, s.a0) && data[1..] == Load(s.mem, s.a0 + 1, k - 1);
    if k == 1 {
      assert r.a0 == s.a1;
    } else {
      assert r.a0 != s.a1;
      RunAppend(ADDX, s, 4, 4 * (k - 1));
      LoadWraps(s.mem, s.a0 + 1, r.a0, k - 1);
      AddxLoop(r, k - 1);
    }
  }

  lemma AddxDataArgument(s: Cpu)
    requires s.pc == At(0)
    ensures Step(ADDX, s) == s.(a0 := DataArg(s), pc := At(1))
  {
    hide PeekLong;
  }

  lemma AddxLengthArgument(s: Cpu)
    requires s.pc == At(1)
    ensures var w := PeekWord(s.mem, s.sp + 10);
      Step(ADDX, s) == s.(d1 := SetWord(s.d1, w), z := w == 0, c := false, pc := At(2))
  {
    hide PeekWord, SetWord;
  }

  lemma AddxArguments(s: Cpu)
    requires s.pc == At(0)
    ensures Run(ADDX, s, 2) == s.(a0 := DataArg(s), d1 := SetWord(s.d1, LenArg(s)),
                                  z := LenArg(s) == 0, c := false, pc := At(2))
  {
    hide Run, Step, PeekLong, PeekWord, SetWord, LenArg;
    LengthWord(s);
    AddxDataArgument(s);
    AddxLengthArgument(Step(ADDX, s));
    TwoSteps(ADDX, s, Step(ADDX, s));
  }

  lemma AddxPush(s: Cpu)
    requires s.pc == At(2)
    ensures var top := Trunc32(s.sp - 4);
      Run(ADDX, s, 2) == s.(d0 := 0, sp := top, mem := PokeLong(s.mem, top, s.d2),
                            z := true, c := false, pc := At(4))
  {
    hide PokeLong, Trunc32;
    var top := Trunc32(s.sp - 4);
    var t := s.(sp := top, mem := PokeLong(s.mem, top, s.d2), z := s.d2 == 0, c := false, pc := At(3));
    assert Step(ADDX, s) == t;
    TwoSteps(ADDX, s, t);
  }

  lemma AddxLengthTest(s: Cpu)
    requires s.pc == At(4)
    ensures Run(ADDX, s, 2) == s.(z := LowWord(s.d1) == 0, c := false,
                                  pc := At(if LowWord(s.d1) == 0 then ADDX_DONE else 6))
  {
    hide LowWord;
    var t := s.(z := LowWord(s.d1) == 0, c := false, pc := At(5));
    assert Step(ADDX, s) == t;
    TwoSteps(ADDX, s, t);
  }

  lemma WordOfSetWord(r: U32, w: U16)
    ensures LowWord(SetWord(r, w)) == w && SetWord(r, w) / TWO16 == r / TWO16
  {
  }

  /** The six instructions up to and including the length test. */
  lemma AddxEntry(s: Cpu)
    requires s.pc == At(0)
    ensures var e := Run(ADDX, s, 6);
      && e.a0 == DataArg(s) && e.d1 == SetWord(s.d1, LenArg(s)) && e.a1 == s.a1
      && e.d0 == 0 && e.d2 == s.d2 && e.sp == Trunc32(s.sp - 4)
      && e.mem == PokeLong(s.mem, Trunc32(s.sp - 4), s.d2)
      && e.pc == At(if LenArg(s) == 0 then ADDX_DONE else 6)
  {
    hide *;
    AddxArguments(s);
    var t := Run(ADDX, s, 2);
    AddxPush(t);
    var u := Run(ADDX, t, 2);
    AddxLengthTest(u);
    WordOfSetWord(s.d1, LenArg(s));
    RunAppend(ADDX, s, 2, 4);
    RunAppend(ADDX, t, 2, 2);
  }

  /** The four instructions that set the end pointer, for a non-zero length. */
  lemma AddxSetUp(s: Cpu)
    requires s.pc == At(6)
    ensures var e := Run(ADDX, s, 4);
      && e.pc == At(ADDX_LOOP) && e.d0 == s.d0 && e.d1 == s.d1 && e.d2 == 0
      && e.a0 == s.a0 && e.a1 == Trunc32(s.a0 + LowWord(s.d1)) && e.sp == s.sp && e.mem == s.mem
  {
    hide Step;
    AddxLengthCopy(s);
    var t := Run(ADDX, s, 2);
    AddxEndPointer(t);
    RunAppend(ADDX, s, 2, 2);
  }

  lemma AddxLengthCopy(s: Cpu)
    requires s.pc == At(6)
    ensures Run(ADDX, s, 2) == s.(d2 := LowWord(s.d1), z := LowWord(s.d1) == 0, c := false, pc := At(8))
  {
    var t := s.(d2 := 0, z := true, c := false, pc := At(7));
    assert Step(ADDX, s) == t;
    TwoSteps(ADDX, s, t);
  }

  lemma AddxEndPointer(s: Cpu)
    requires s.pc == At(8)
    ensures Run(ADDX, s, 2) == s.(a1 := Trunc32(s.a0 + s.d2), d2 := 0, z := true, c := false, pc := At(ADDX_LOOP))
  {
    hide Trunc32;
    var t := s.(a1 := Trunc32(s.a0 + s.d2), pc := At(9));
    assert Step(ADDX, s) == t;
    TwoSteps(ADDX, s, t);
  }

  /** The epilogue restores D2 from the slot and returns through the word above it. */
  lemma AddxEpilogue(s: Cpu)
    requires s.pc == At(ADDX_DONE)
    ensures var e := Run(ADDX, s, 2);
      && e.pc == Returned(PeekLong(s.mem, Trunc32(s.sp + 4))) && e.sp == Trunc32(Trunc32(s.sp + 4) + 4)
      && e.d2 == PeekLong(s.mem, s.sp) && e.d0 == s.d0 && e.d1 == s.d1 && e.mem == s.mem
      && e.a0 == s.a0 && e.a1 == s.a1
  {
    hide PeekLong, Trunc32;
    var t := s.(d2 := PeekLong(s.mem, s.sp), sp := Trunc32(s.sp + 4),
                z := PeekLong(s.mem, s.sp) == 0, c := false, pc := At(15));
    assert Step(ADDX, s) == t;
    TwoSteps(ADDX, s, t);
  }

  /** What the routine promises of the state e it leaves, entered in state s. */
  ghost predicate AddxContract(s: Cpu, e: Cpu) {
    var slot := s.sp - 4;
    var pushed := PokeLong(s.mem, Trunc32(slot), s.d2);
    && e.pc == Returned(PeekLong(s.mem, s.sp))
    && e.sp == Trunc32(s.sp + 4)
    && e.d0 == Checksum(Load(pushed, DataArg(s), LenArg(s)))
    && (ClearOfLong(slot, DataArg(s), LenArg(s)) ==>
          e.d0 == Checksum(Load(s.mem, DataArg(s), LenArg(s))))
    && e.d2 == s.d2
    && e.d1 == SetWord(s.d1, LenArg(s))
    && e.a0 == Trunc32(DataArg(s) + LenArg(s))
    && e.a1 == (if LenArg(s) == 0 then s.a1 else e.a0)
    && (forall a: int :: !InLong(slot, a) ==> Peek(e.mem, a) == Peek(s.mem, a))
  }

  /** From any state at its entry the ADDX routine returns after 8 or 12 + 4 len instructions. */
  lemma AddxCorrect(s: Cpu)
    requires s.pc == At(0)
    ensures AddxContract(s, Run(ADDX, s, AddxSteps(LenArg(s))))
  {
    hide Step, Run, Load, PokeLong, PeekLong, PeekWord, ChecksumFrom, AddxContract;
    var len: nat := LenArg(s);
    AddxEntry(s);
    WordOfSetWord(s.d1, LenArg(s));
    var t := Run(ADDX, s, 6);
    if len == 0 {
      NoRound(0);
      RunAppend(ADDX, s, 6, 2);
      AddxEpilogue(t);
      AddxFinish(s, t, Run(ADDX, t, 2));
    } else {
      AddxSetUp(t);
      var u := Run(ADDX, t, 4);
      AddxLoop(u, len);
      var v := Run(ADDX, u, 4 * len);
      AddxEpilogue(v);
      RunAppend(ADDX, u, 4 * len, 2);
      RunAppend(ADDX, t, 4, 4 * len + 2);
      RunAppend(ADDX, s, 6, 4 + (4 * len + 2));
      AddxFinish(s, v, Run(ADDX, v, 2));
    }
  }

  /** From the registers at .done to the whole contract: stack and memory facts. */
  lemma AddxFinish(s: Cpu, v: Cpu, e: Cpu)
    requires v.mem == PokeLong(s.mem, Trunc32(s.sp - 4), s.d2) && v.sp == Trunc32(s.sp - 4)
    requires v.d0 == Checksum(Load(v.mem, DataArg(s), LenArg(s))) && v.d1 == SetWord(s.d1, LenArg(s))
    requires v.a0 == Trunc32(DataArg(s) + LenArg(s)) && v.a1 == (if LenArg(s) == 0 then s.a1 else v.a0)
    requires e.a0 == v.a0 && e.a1 == v.a1
    requires e.pc == Returned(PeekLong(v.mem, Trunc32(v.sp + 4))) && e.sp == Trunc32(Trunc32(v.sp + 4) + 4)
    requires e.d2 == PeekLong(v.mem, v.sp) && e.d0 == v.d0 && e.d1 == v.d1 && e.mem == v.mem
    ensures AddxContract(s, e)
  {
    hide PokeLong, Load, Checksum, Peek, PeekLong, PeekWord, LenArg, DataArg, InLong, ClearOfLong;
    var slot := s.sp - 4;
    PokeWraps(s.mem, slot, s.d2);
    PokePeek(s.mem, slot, s.d2);
    PokePeek(s.mem, Trunc32(slot), s.d2);
    assert Trunc32(Trunc32(slot) + 4) == s.sp;
    ReturnAddressKept(s.mem, s.sp, s.d2);
    if ClearOfLong(slot, DataArg(s), LenArg(s)) {
      LoadOfDisjoint(s.mem, slot, s.d2, DataArg(s), LenArg(s));
    }
  }

  /** Pushing below SP leaves the long word at SP alone, even across the address wrap. */
  lemma ReturnAddressKept(mem: Memory, sp: U32, v: U32)
    ensures PeekLong(PokeLong(mem, sp - 4, v), sp) == PeekLong(mem, sp)
  {
    hide PokeLong, Peek;
    PokePeek(mem, sp - 4, v);
    assert !InLong(sp - 4, sp) && !InLong(sp - 4, sp + 1) && !InLong(sp - 4, sp + 2) && !InLong(sp - 4, sp + 3);
  }

  lemma PokeWraps(mem: Memory, addr: int, v: U32)
    ensures PokeLong(mem, Trunc32(addr), v) == PokeLong(mem, addr, v)
  {
    assert Trunc32(Trunc32(addr)) == Trunc32(addr);
    assert Trunc32(Trunc32(addr) + 1) == Trunc32(addr + 1);
    assert Trunc32(Trunc32(addr) + 2) == Trunc32(addr + 2);
    assert Trunc32(Trunc32(addr) + 3) == Trunc32(addr + 3);
  }

  // ----- the BCC/DBRA routine

  lemma BranchAdd(s: Cpu)
    requires s.pc == At(BRANCH_LOOP) && s.d0 < 0x100
    ensures var sum := s.d0 + Peek(s.mem, s.a0);
      Step(BRANCH, s) == s.(d0 := sum % 0x100, a0 := Trunc32(s.a0 + 1),
                            x := sum >= 0x100, c := sum >= 0x100, z := sum % 0x100 == 0, pc := At(7))
  {
    hide Peek, Trunc32, LowByte, SetByte;
    var sum := s.d0 + Peek(s.mem, s.a0);
    ByteRegister(s.d0, sum % 0x100);
  }

  /** BCC skips the increment; without the skip the byte has room for it. */
  lemma BranchCarry(s: Cpu)
    requires s.pc == At(7) && s.d0 < 0x100 && (s.c ==> s.d0 < 0xFF)
    ensures var e := Run(BRANCH, s, if s.c then 2 else 1);
      && e.d0 == s.d0 + (if s.c then 1 else 0) && e.pc == At(BRANCH_NO_CARRY)
      && e.a0 == s.a0 && e.d1 == s.d1 && e.d2 == s.d2 && e.a1 == s.a1 && e.sp == s.sp && e.mem == s.mem
  {
    hide LowByte, SetByte;
    var t := Step(BRANCH, s);
    if s.c {
      ByteRegister(s.d0, s.d0 + 1);
      assert Run(BRANCH, s, 2) == Run(BRANCH, t, 1) == Run(BRANCH, Step(BRANCH, t), 0);
    } else {
      assert Run(BRANCH, s, 1) == Run(BRANCH, t, 0);
    }
  }

  lemma BranchCount(s: Cpu)
    requires s.pc == At(BRANCH_NO_CARRY)
    ensures Run(BRANCH, s, 1) ==
      s.(d1 := SetWord(s.d1, if LowWord(s.d1) == 0 then 0xFFFF else LowWord(s.d1) - 1),
         pc := At(if LowWord(s.d1) == 0 then BRANCH_DONE else BRANCH_LOOP))
  {
    assert Run(BRANCH, s, 1) == Run(BRANCH, Step(BRANCH, s), 0);
  }

  lemma BranchRound(s: Cpu)
    requires s.pc == At(BRANCH_LOOP) && s.d0 < 0x100
    ensures var b := Peek(s.mem, s.a0);
      var e := Run(BRANCH, s, if s.d0 + b >= 0x100 then 4 else 3);
      && e.d0 == Fold(s.d0, b) && e.a0 == Trunc32(s.a0 + 1)
      && e.d1 == SetWord(s.d1, if LowWord(s.d1) == 0 then 0xFFFF else LowWord(s.d1) - 1)
      && e.d2 == s.d2 && e.a1 == s.a1 && e.sp == s.sp && e.mem == s.mem
      && e.pc == At(if LowWord(s.d1) == 0 then BRANCH_DONE else BRANCH_LOOP)
  {
    hide Step, SetWord, LowWord, Peek;
    BranchAdd(s);
    var t := Step(BRANCH, s);
    BranchCarry(t);
    var n := if t.c then 2 else 1;
    BranchCount(Run(BRANCH, t, n));
    RunAppend(BRANCH, t, n, 1);
    Unroll(BRANCH, s, n + 2);
  }

  lemma CountDown(d1: U32)
    ensures LowWord(d1) > 0 ==> LowWord(SetWord(d1, LowWord(d1) - 1)) == LowWord(d1) - 1
    ensures LowWord(d1) > 0 ==> SetWord(SetWord(d1, LowWord(d1) - 1), 0xFFFF) == SetWord(d1, 0xFFFF)
  {
  }

  /** DBRA entered with counter k - 1 runs the body exactly k times. */
  lemma {:induction false} BranchLoop(s: Cpu, k: nat)
    requires s.pc == At(BRANCH_LOOP) && s.d0 < 0x100 && k == LowWord(s.d1) + 1
    ensures var data := Load(s.mem, s.a0, k);
      var e := Run(BRANCH, s, BranchLoopSteps(s.d0, data));
      && e.pc == At(BRANCH_DONE) && e.d0 == ChecksumFrom(s.d0, data)
      && e.a0 == Trunc32(s.a0 + k) && e.d1 == SetWord(s.d1, 0xFFFF)
      && e.d2 == s.d2 && e.a1 == s.a1 && e.sp == s.sp && e.mem == s.mem
    decreases k
  {
    hide Step, Peek, Fold, SetWord, LowWord;
    BranchRound(s);
    CountDown(s.d1);
    var data := Load(s.mem, s.a0, k);
    var round := if s.d0 + data[0] >= 0x100 then 4 else 3;
    var r := Run(BRANCH, s, round);
    var rest := data[1..];
    assert rest == Load(s.mem, s.a0 + 1, k - 1);
    LoadWraps(s.mem, s.a0 + 1, r.a0, k - 1);
    RunAppend(BRANCH, s, round, BranchLoopSteps(r.d0, rest));
    if k > 1 {
      BranchLoop(r, k - 1);
      assert Trunc32(r.a0 + (k - 1)) == Trunc32(s.a0 + k);
    } else {
      assert rest == [];
      assert BranchLoopSteps(r.d0, rest) == 0;
      assert ChecksumFrom(r.d0, rest) == r.d0;
    }
  }

  lemma BranchLengthArgument(s: Cpu)
    requires s.pc == At(1)
    ensures Run(BRANCH, s, 2) == s.(d1 := SetWord(s.d1, PeekWord(s.mem, s.sp + 10)), d0 := 0,
                                    z := true, c := false, pc := At(3))
  {
    hide PeekWord, SetWord;
    var w := PeekWord(s.mem, s.sp + 10);
    var t := s.(d1 := SetWord(s.d1, w), z := w == 0, c := false, pc := At(2));
    assert Step(BRANCH, s) == t;
    TwoSteps(BRANCH, s, t);
  }

  lemma BranchDataArgument(s: Cpu)
    requires s.pc == At(0)
    ensures Step(BRANCH, s) == s.(a0 := DataArg(s), pc := At(1))
  {
    hide PeekLong;
  }

  lemma BranchArguments(s: Cpu)
    requires s.pc == At(0)
    ensures Run(BRANCH, s, 3) == s.(a0 := DataArg(s), d1 := SetWord(s.d1, LenArg(s)), d0 := 0,
                                    z := true, c := false, pc := At(3))
  {
    hide Run, Step, PeekLong, PeekWord, SetWord, LenArg;
    LengthWord(s);
    BranchDataArgument(s);
    Unroll(BRANCH, s, 3);
    BranchLengthArgument(Step(BRANCH, s));
  }

  lemma BranchLengthTest(s: Cpu)
    requires s.pc == At(3)
    ensures Run(BRANCH, s, 2) == s.(z := LowWord(s.d1) == 0, c := false,
                                    pc := At(if LowWord(s.d1) == 0 then BRANCH_DONE else 5))
  {
    hide LowWord;
    var t := s.(z := LowWord(s.d1) == 0, c := false, pc := At(4));
    assert Step(BRANCH, s) == t;
    TwoSteps(BRANCH, s, t);
  }

  lemma BranchEntry(s: Cpu)
    requires s.pc == At(0)
    ensures var e := Run(BRANCH, s, 5);
      && e.a0 == DataArg(s) && e.d1 == SetWord(s.d1, LenArg(s)) && e.d0 == 0
      && e.d2 == s.d2 && e.a1 == s.a1 && e.sp == s.sp && e.mem == s.mem
      && e.pc == At(if LenArg(s) == 0 then BRANCH_DONE else 5)
  {
    hide Step, PeekWord, PeekLong, SetWord, LowWord;
    BranchArguments(s);
    BranchLengthTest(Run(BRANCH, s, 3));
    WordOfSetWord(s.d1, LenArg(s));
    RunAppend(BRANCH, s, 3, 2);
  }

  lemma BranchDecrement(s: Cpu)
    requires s.pc == At(5) && LowWord(s.d1) > 0
    ensures var e := Step(BRANCH, s);
      && e.pc == At(BRANCH_LOOP) && e.d1 == SetWord(s.d1, LowWord(s.d1) - 1)
      && e.d0 == s.d0 && e.d2 == s.d2 && e.a0 == s.a0 && e.a1 == s.a1 && e.sp == s.sp && e.mem == s.mem
  {
  }

  lemma BranchReturn(s: Cpu)
    requires s.pc == At(BRANCH_DONE)
    ensures Run(BRANCH, s, 1) == s.(sp := Trunc32(s.sp + 4), pc := Returned(PeekLong(s.mem, s.sp)))
  {
    assert Run(BRANCH, s, 1) == Run(BRANCH, Step(BRANCH, s), 0);
  }

  /** What the routine promises: the checksum, one pass over the data, and nothing else written. */
  ghost predicate BranchContract(s: Cpu, e: Cpu) {
    && e.pc == Returned(PeekLong(s.mem, s.sp))
    && e.sp == Trunc32(s.sp + 4)
    && e.d0 == Checksum(Load(s.mem, DataArg(s), LenArg(s)))
    && e.a0 == Trunc32(DataArg(s) + LenArg(s))
    && e.d1 == SetWord(s.d1, if LenArg(s) == 0 then 0 else 0xFFFF)
    && e.d2 == s.d2 && e.a1 == s.a1 && e.mem == s.mem
  }

  /** From any state at its entry the branch routine returns; it needs no stack slot. */
  lemma BranchCorrect(s: Cpu)
    requires s.pc == At(0)
    ensures BranchContract(s, Run(BRANCH, s, BranchSteps(Load(s.mem, DataArg(s), LenArg(s)))))
  {
    hide Step, Run, PeekWord, PeekLong, SetWord, LowWord, Load, Trunc32, ChecksumFrom, BranchLoopSteps;
    var len: nat := LenArg(s);
    var data := Load(s.mem, DataArg(s), len);
    BranchEntry(s);
    var t := Run(BRANCH, s, 5);
    WordOfSetWord(s.d1, LenArg(s));
    if len == 0 {
      NoRound(0);
      RunAppend(BRANCH, s, 5, 1);
      BranchReturn(t);
    } else {
      BranchDecrement(t);
      CountDown(t.d1);
      SetWordTwice(s.d1, LenArg(s), 0xFFFF);
      var u := Step(BRANCH, t);
      BranchLoop(u, len);
      var n := BranchLoopSteps(0, data);
      BranchReturn(Run(BRANCH, u, n));
      RunAppend(BRANCH, u, n, 1);
      Unroll(BRANCH, t, n + 2);
      RunAppend(BRANCH, s, 5, n + 2);
    }
  }

  lemma SetWordTwice(r: U32, v: U16, w: U16)
    ensures SetWord(SetWord(r, v), w) == SetWord(r, w)
  {
  }

  /** Both routines agree with each other and with the closed form on any call whose saved-D2
      slot does not overlap the data. */
  lemma RoutinesAgree(s: Cpu)
    requires s.pc == At(0)
    requires ClearOfLong(s.sp - 4, DataArg(s), LenArg(s))
    ensures var data := Load(s.mem, DataArg(s), LenArg(s));
      && Run(ADDX, s, AddxSteps(LenArg(s))).d0 == Residue(Sum(data))
      && Run(BRANCH, s, BranchSteps(data)).d0 == Residue(Sum(data))
  {
    hide Step, Run, Load, PeekWord, PeekLong, Peek, PokeLong, Residue;
    AddxCorrect(s);
    BranchCorrect(s);
    ClosedForm(0, Load(s.mem, DataArg(s), LenArg(s)));
  }

  // ----- the call

  /** What a C caller leaves on the stack: it pushes the length and the data address as long words, and
      the call pushes the return address. */
  function Called(mem: Memory, sp: U32, data: U32, len: U32, ret: U32): Memory {
    PokeLong(PokeLong(PokeLong(mem, sp - 4, len), sp - 8, data), sp - 12, ret)
  }

  /** The sixteen bytes below sp (modulo 2^32), which the call and the saved D2 use. */
  predicate InFrame(sp: U32, a: int) { Trunc32(a - (sp - 16)) < 16 }

  ghost predicate ClearOfFrame(sp: U32, addr: U32, n: nat) {
    forall a: int | addr <= a < addr + n :: !InFrame(sp, a)
  }

  lemma FrameLong(sp: U32, addr: U32, n: nat, k: nat)
    requires ClearOfFrame(sp, addr, n) && k in {4, 8, 12, 16}
    ensures ClearOfLong(sp - k, addr, n)
  {
    var base := sp - k;
    forall a: int | addr <= a < addr + n
      ensures !InLong(base, a)
    {
      assert !InFrame(sp, a);
      AddressShift(a - (sp - 16), 16 - k);
    }
  }

  lemma AddressShift(x: int, k: nat)
    requires Trunc32(x) >= 16 && k <= 12
    ensures Trunc32(x - k) >= 4
  {
    assert (x - k) / TWO32 == x / TWO32 && (x - k) % TWO32 == x % TWO32 - k;
  }

  /** Four bytes in one long word, none in another. */
  lemma LongKept(mem: Memory, at: int, v: U32, addr: int)
    requires 4 <= addr - at <= 12
    ensures PeekLong(PokeLong(mem, at, v), addr) == PeekLong(mem, addr)
  {
    hide PokeLong, Peek;
    PokePeek(mem, at, v);
    assert !InLong(at, addr) && !InLong(at, addr + 1) && !InLong(at, addr + 2) && !InLong(at, addr + 3);
  }

  lemma PeekWraps(mem: Memory, a: int, b: int, k: nat)
    requires Trunc32(a) == Trunc32(b)
    ensures PeekLong(mem, a + k) == PeekLong(mem, b + k)
  {
    SameShifted(a, b, k);
    SameShifted(a, b, k + 1);
    SameShifted(a, b, k + 2);
    SameShifted(a, b, k + 3);
    hide Trunc32;
  }

  lemma SameShifted(a: int, b: int, k: nat)
    requires Trunc32(a) == Trunc32(b)
    ensures Trunc32(a + k) == Trunc32(b + k)
  {
  }

  /** The routine finds the arguments the caller pushed, whatever the stack address. */
  lemma ArgumentsArrive(s: Cpu, mem: Memory, sp: U32, data: U32, len: U32, ret: U32)
    requires s.mem == Called(mem, sp, data, len, ret) && s.sp == Trunc32(sp - 12)
    ensures DataArg(s) == data && LenArg(s) == LowWord(len) && PeekLong(s.mem, s.sp) == ret
  {
    hide PokeLong, PeekLong;
    var m1 := PokeLong(mem, sp - 4, len);
    var m2 := PokeLong(m1, sp - 8, data);
    PokePeek(mem, sp - 4, len);
    PokePeek(m1, sp - 8, data);
    PokePeek(m2, sp - 12, ret);
    LongKept(m1, sp - 8, data, sp - 4);
    LongKept(m2, sp - 12, ret, sp - 4);
    LongKept(m2, sp - 12, ret, sp - 8);
    PeekWraps(s.mem, s.sp, sp - 12, 0);
    PeekWraps(s.mem, s.sp, sp - 12, 4);
    PeekWraps(s.mem, s.sp, sp - 12, 8);
  }

  lemma DataUntouched(mem: Memory, sp: U32, data: U32, len: U32, ret: U32, n: nat)
    requires ClearOfFrame(sp, data, n)
    ensures Load(Called(mem, sp, data, len, ret), data, n) == Load(mem, data, n)
  {
    hide PokeLong, Load;
    FrameLong(sp, data, n, 4);
    FrameLong(sp, data, n, 8);
    FrameLong(sp, data, n, 12);
    hide ClearOfFrame, ClearOfLong;
    var m1 := PokeLong(mem, sp - 4, len);
    LoadOfDisjoint(mem, sp - 4, len, data, n);
    LoadOfDisjoint(m1, sp - 8, data, data, n);
    LoadOfDisjoint(PokeLong(m1, sp - 8, data), sp - 12, ret, data, n);
  }

  /** A C call of either routine on data away from the stack returns to the caller, with the arguments
      still on the stack, and the checksum of the data as it was, whatever the upper half of the
      pushed length holds. */
  lemma CallReturnsChecksum(s: Cpu, mem: Memory, sp: U32, data: U32, len: U32, ret: U32)
    requires s.pc == At(0) && s.mem == Called(mem, sp, data, len, ret) && s.sp == Trunc32(sp - 12)
    requires ClearOfFrame(sp, data, LowWord(len))
    ensures var bytes := Load(mem, data, LowWord(len));
      var a, b := Run(ADDX, s, AddxSteps(LowWord(len))), Run(BRANCH, s, BranchSteps(bytes));
      && a.pc == b.pc == Returned(ret) && a.sp == b.sp == Trunc32(sp - 8)
      && a.d0 == b.d0 == Checksum(bytes) && a.d2 == b.d2 == s.d2
  {
    hide Run, Step, Load, PokeLong, PeekLong, PeekWord, Peek, ChecksumFrom, LenArg, DataArg, LowWord, Called, BranchSteps, ClearOfLong;
    ArgumentsArrive(s, mem, sp, data, len, ret);
    DataUntouched(mem, sp, data, len, ret, LowWord(len));
    FrameLong(sp, data, LowWord(len), 16);
    ClearWraps(s.sp - 4, sp - 16, data, LowWord(len));
    AddxCorrect(s);
    BranchCorrect(s);
    assert Trunc32(s.sp + 4) == Trunc32(sp - 8);
  }

  lemma ClearWraps(a: int, b: int, addr: int, n: nat)
    requires Trunc32(a) == Trunc32(b) && ClearOfLong(b, addr, n)
    ensures ClearOfLong(a, addr, n)
  {
    forall x: int | addr <= x < addr + n
      ensures !InLong(a, x)
    {
      assert !InLong(b, x);
      assert Trunc32(x - a) == Trunc32(x - b);
    }
  }

  /** Run the ADDX routine on a processor. */
  method CalcChecksumAsm(cpu: Processor)
    requires cpu.pc == At(0)
    modifies cpu
    ensures AddxContract(old(cpu.View()), cpu.View())
  {
    ghost var s := cpu.View();
    AddxCorrect(s);
    cpu.Call(ADDX, AddxSteps(LenArg(s)));
  }

  /** Run the branch routine on a processor. */
  method CalcChecksumAsmBranch(cpu: Processor)
    requires cpu.pc == At(0)
    modifies cpu
    ensures BranchContract(old(cpu.View()), cpu.View())
  {
    ghost var s := cpu.View();
    BranchCorrect(s);
    cpu.Call(BRANCH, BranchSteps(Load(s.mem, DataArg(s), LenArg(s))));
  }
}
