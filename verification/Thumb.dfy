/** An abstract Thumb-2 machine: program counter, registers r0-r14, the conditions an IT instruction has
    put on the instructions after it, and an opaque rest (flags and data memory). The instruction forms the
    interceptor rewrites or emits, and IT, are interpreted; what a condition tests and every other
    instruction are parameters of the machine. Data is little-endian, and code memory is read-only while it
    runs. */
module Thumb {
  import opened Bytes

  /** Registers r0 to r14. */
  type Regs = s: seq<u32> | |s| == 15 witness [0, 0, 0, 0, 0, 0, 0, 0, 0, 0, 0, 0, 0, 0, 0]

  /** `it` holds the conditions of the next instructions: section A7.3.3, ITSTATE written out. */
  datatype Core<R> = Core(regs: Regs, rest: R, it: seq<nat>) {
    /** One instruction further in the IT block. */
    function Advanced(): Core<R> {
      this.(it := Later(it))
    }
  }

  function Later(it: seq<nat>): seq<nat> {
    if it == [] then [] else it[1..]
  }

  datatype State<R> = State(pc: int, core: Core<R>)

  /** An instruction as it lies in memory. */
  datatype Raw = Half(h: u16) | Wide(h1: u16, h2: u16) {
    function Halves(): seq<u16> {
      match this
      case Half(h) => [h]
      case Wide(h1, h2) => [h1, h2]
    }

    function Size(): nat {
      2 * |Halves()|
    }

    /** The encoding agrees with the 16/32-bit split. */
    predicate WellFormed() {
      match this
      case Half(h) => !Is32Bit(h)
      case Wide(h1, _) => Is32Bit(h1)
    }
  }

  datatype Insn =
    | Nop
    | Movw(rd: nat, imm: u16)
    | Movt(rd: nat, imm: u16)
    | LdrLiteral(rt: nat, offset: int)
    | IfThen(conditions: seq<nat>)
    | SetEnd(big: bool)
    | Other(raw: Raw)

  /** How an uninterpreted instruction ends. */
  datatype Outcome<R> = Next(core: Core<R>) | Branch(target: int, to: Core<R>) | Fault

  /** When a condition holds, and what every uninterpreted instruction does, given its address. */
  datatype Semantics<!R> = Semantics(holds: (nat, R) -> bool, act: (Raw, int, Core<R>) -> Outcome<R>)

  /** Section A6.1: a first halfword 0b11101, 0b11110 or 0b11111 in bits 15:11 starts a 32-bit instruction. */
  predicate Is32Bit(h: u16) {
    h / 2048 == 29 || h / 2048 == 30 || h / 2048 == 31
  }

  function Fetch(text: Mem, pc: int): (raw: Raw)
    ensures raw.WellFormed()
  {
    var h := Get16(text, pc);
    if Is32Bit(h) then Wide(h, Get16(text, pc + 2)) else Half(h)
  }

  /** The 16-bit immediate imm4:i:imm3:imm8 of MOVW (T3) and MOVT (T1). */
  function MovImmediate(h1: u16, h2: u16): u16
    requires h2 < 0x8000
  {
    h1 % 16 * 4096 + h1 / 1024 % 2 * 2048 + h2 / 4096 * 256 + h2 % 256
  }

  /** Section A7.7.38, IT: the first condition, then one for each mask bit above the lowest one set. */
  function IfThenConditions(first: nat, mask: nat): (it: seq<nat>)
    ensures 1 <= |it| <= 4
  {
    var base := first / 2 * 2;
    if mask % 8 == 0 then [first]
    else if mask % 4 == 0 then [first, base + mask / 8]
    else if mask % 2 == 0 then [first, base + mask / 8, base + mask / 4 % 2]
    else [first, base + mask / 8, base + mask / 4 % 2, base + mask / 2 % 2]
  }

  function Decode(raw: Raw): Insn {
    match raw
    case Half(h) =>
      if h == 0xBF00 then Nop
      else if h / 256 == 0xBF && h % 16 != 0 then IfThen(IfThenConditions(h / 16 % 16, h % 16))
      else if h == 0xB650 || h == 0xB658 then SetEnd(h == 0xB658)
      else if h / 2048 == 9 then LdrLiteral(h / 256 % 8, h % 256 * 4)
      else Other(raw)
    case Wide(h1, h2) =>
      // 11110 i 10 0100 imm4 : 0 imm3 Rd imm8
      if (h1 / 16 == 0xF24 || h1 / 16 == 0xF64) && h2 < 0x8000 then Movw(h2 / 256 % 16, MovImmediate(h1, h2))
      // 11110 i 10 1100 imm4 : 0 imm3 Rd imm8
      else if (h1 / 16 == 0xF2C || h1 / 16 == 0xF6C) && h2 < 0x8000 then Movt(h2 / 256 % 16, MovImmediate(h1, h2))
      // 1111 1000 U101 1111 : Rt imm12
      else if h1 == 0xF8DF then LdrLiteral(h2 / 4096, h2 % 4096)
      else if h1 == 0xF85F then LdrLiteral(h2 / 4096, -(h2 % 4096))
      else Other(raw)
  }

  /** Align(PC, 4) plus the offset, where PC reads as the instruction's address plus 4. */
  function LiteralAddress(pc: int, offset: int): int {
    AlignDown(pc + 4, 4) + offset
  }

  function SetReg<R>(core: Core<R>, rd: nat, v: u32): Core<R>
    requires rd < 15
  {
    core.(regs := core.regs[rd := v])
  }

  /** The instruction is passed over: it is in an IT block and its condition fails. */
  predicate Skips<R>(exec: Semantics<R>, core: Core<R>) {
    core.it != [] && !exec.holds(core.it[0], core.rest)
  }

  /** MOVW and MOVT into sp or pc are unpredictable, as are a branch before the end of an IT block and an
      IT within one; loading pc with an even word would leave Thumb state, and SETEND BE little-endian
      data. All of these stop the machine. */
  function Perform<R>(exec: Semantics<R>, text: Mem, raw: Raw, st: State<R>): Option<State<R>> {
    var next := st.pc + raw.Size();
    var core := st.core.Advanced();
    match Decode(raw)
    case Nop => Some(State(next, core))
    case Movw(rd, imm) =>
      if rd == 13 || rd == 15 then None else Some(State(next, SetReg(core, rd, imm)))
    case Movt(rd, imm) =>
      if rd == 13 || rd == 15 then None
      else Some(State(next, SetReg(core, rd, imm * 0x1_0000 + core.regs[rd] % 0x1_0000)))
    case LdrLiteral(rt, offset) =>
      var w := Get32(text, LiteralAddress(st.pc, offset));
      if rt < 15 then Some(State(next, SetReg(core, rt, w)))
      else if w % 2 == 1 && core.it == [] then Some(State(w - 1, core))
      else None
    case IfThen(conditions) =>
      if st.core.it == [] then Some(State(next, core.(it := conditions))) else None
    case SetEnd(big) =>
      if big then None else Some(State(next, core))
    case Other(_) =>
      match exec.act(raw, st.pc, st.core)
      case Next(to) => Some(State(next, to.(it := core.it)))
      case Branch(target, to) => if core.it == [] then Some(State(target, to.(it := []))) else None
      case Fault => None
  }

  function Execute<R>(exec: Semantics<R>, text: Mem, raw: Raw, st: State<R>): Option<State<R>> {
    if Skips(exec, st.core) then Some(State(st.pc + raw.Size(), st.core.Advanced())) else Perform(exec, text, raw, st)
  }

  function Step<R>(exec: Semantics<R>, text: Mem, st: State<R>): Option<State<R>> {
    Execute(exec, text, Fetch(text, st.pc), st)
  }

  function Run<R>(exec: Semantics<R>, text: Mem, k: nat, st: State<R>): Option<State<R>> {
    if k == 0 then Some(st)
    else
      match Step(exec, text, st)
      case None => None
      case Some(st') => Run(exec, text, k - 1, st')
  }

  lemma {:induction false} RunCompose<R>(exec: Semantics<R>, text: Mem, j: nat, k: nat, st: State<R>)
    requires Run(exec, text, j, st).Some?
    ensures Run(exec, text, j + k, st) == Run(exec, text, k, Run(exec, text, j, st).value)
  {
    if j > 0 {
      RunCompose(exec, text, j - 1, k, Step(exec, text, st).value);
    }
  }

  /** A part of memory, from the first address up to the second. */
  type Region = (int, int)

  predicate ClearOf(lo: int, hi: int, places: seq<Region>) {
    forall i :: 0 <= i < |places| ==> Disjoint(lo, hi, places[i].0, places[i].1)
  }

  predicate Within(x: int, places: seq<Region>) {
    exists i :: 0 <= i < |places| && places[i].0 <= x < places[i].1
  }

  /** Two memories differ in `places` at most. */
  ghost predicate SameBut(text: Mem, text': Mem, places: seq<Region>) {
    forall x {:trigger Get(text', x)} :: !Within(x, places) ==> Get(text', x) == Get(text, x)
  }

  /** Every byte step `st` fetches, and every literal it loads, lies outside `places`. */
  predicate StepAvoids<R>(text: Mem, st: State<R>, places: seq<Region>) {
    && ClearOf(st.pc, st.pc + 4, places)
    && match Decode(Fetch(text, st.pc))
       case LdrLiteral(_, offset) =>
         var a := LiteralAddress(st.pc, offset);
         ClearOf(a, a + 4, places)
       case _ => true
  }

  predicate RunAvoids<R>(exec: Semantics<R>, text: Mem, k: nat, st: State<R>, places: seq<Region>) {
    k > 0 ==>
      && StepAvoids(text, st, places)
      && match Step(exec, text, st)
         case None => true
         case Some(st') => RunAvoids(exec, text, k - 1, st', places)
  }

  lemma WordSame(text: Mem, text': Mem, a: int, places: seq<Region>)
    requires SameBut(text, text', places) && ClearOf(a, a + 4, places)
    ensures Get16(text', a) == Get16(text, a) && Get16(text', a + 2) == Get16(text, a + 2)
    ensures Get32(text', a) == Get32(text, a)
  {
    assert !Within(a, places) && !Within(a + 1, places) && !Within(a + 2, places) && !Within(a + 3, places);
  }

  lemma StepFrame<R>(exec: Semantics<R>, text: Mem, text': Mem, st: State<R>, places: seq<Region>)
    requires SameBut(text, text', places) && StepAvoids(text, st, places)
    ensures Step(exec, text', st) == Step(exec, text, st)
  {
    hide Decode, Is32Bit, Get16, Get32, SameBut, ClearOf;
    WordSame(text, text', st.pc, places);
    assert Fetch(text', st.pc) == Fetch(text, st.pc);
    match Decode(Fetch(text, st.pc))
    case LdrLiteral(_, offset) =>
      WordSame(text, text', LiteralAddress(st.pc, offset), places);
    case _ =>
  }

  /** A run that never looks at some places is the same in any memory that differs only there. */
  lemma {:induction false} RunFrame<R>(exec: Semantics<R>, text: Mem, text': Mem, k: nat, st: State<R>,
                                       places: seq<Region>)
    requires SameBut(text, text', places) && RunAvoids(exec, text, k, st, places)
    ensures Run(exec, text', k, st) == Run(exec, text, k, st)
  {
    hide SameBut, StepAvoids, Step;
    if k > 0 {
      StepFrame(exec, text, text', st, places);
      match Step(exec, text, st)
      case None =>
      case Some(st') => RunFrame(exec, text, text', k - 1, st', places);
    }
  }
}
