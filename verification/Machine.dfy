/** A small-step machine for the A64 instructions that the platform patch writes or replaces
    (Arm ARM, ARM DDI 0487, section C6.2).

    Code is fetched from the image; data memory is a separate store of aligned doublewords, in which a
    cell that was never written reads as zero. */
module Machine {
  import opened Bits
  import opened Wrappers
  import opened Arm64

  type Regs = x: seq<u64> | |x| == 31 witness seq(31, _ => 0)

  datatype Flags = Flags(n: bool, z: bool, c: bool, v: bool)

  datatype State = State(pc: u64, x: Regs, sp: u64, flags: Flags, mem: map<u64, u64>)

  datatype Instr =
    | Br(n: nat) | Blr(n: nat) | Ret(n: nat)
    | B(words: int) | Bl(words: int) | BCond(cond: nat, words: int)
    | Movz(d: nat, value: u64)
    | SubsImm(d: nat, n: nat, imm: nat) | AddImm(d: nat, n: nat, imm: nat)
    | StpPre(t: nat, t2: nat, n: nat, bytes: int) | LdpPost(t: nat, t2: nat, n: nat, bytes: int)
    | Other

  function Rd(w: u32): (r: nat) ensures r < 32 { w % 32 }

  function Rt2(w: u32): (r: nat) ensures r < 32 { w / 0x400 % 32 }

  function Decode(w: u32): Instr {
    if w / 0x400 == 0x3587c0 && w % 32 == 0 then Br(JumpReg(w))
    else if w / 0x400 == 0x358fc0 && w % 32 == 0 then Blr(JumpReg(w))
    else if w / 0x400 == 0x3597c0 && w % 32 == 0 then Ret(JumpReg(w))
    else if w / 0x400_0000 == 5 then Instr.B(SignExtend(w % 0x400_0000, 26))
    else if w / 0x400_0000 == 37 then Bl(SignExtend(w % 0x400_0000, 26))
    else if w / 0x100_0000 == 0x54 && w / 16 % 2 == 0 then
      BCond(w % 16, SignExtend(w / 32 % 0x8_0000, 19))
    else if w / 0x20_0000 == 0x694 then Movz(Rd(w), w / 32 % 0x1_0000)
    else if w / 0x40_0000 == 0x3c4 then SubsImm(Rd(w), JumpReg(w), w / 0x400 % 0x1000)
    else if w / 0x40_0000 == 0x244 then AddImm(Rd(w), JumpReg(w), w / 0x400 % 0x1000)
    else if w / 0x40_0000 == 0x2a6 then
      StpPre(Rd(w), Rt2(w), JumpReg(w), 8 * SignExtend(w / 0x8000 % 0x80, 7))
    else if w / 0x40_0000 == 0x2a3 then
      LdpPost(Rd(w), Rt2(w), JumpReg(w), 8 * SignExtend(w / 0x8000 % 0x80, 7))
    else Other
  }

  /** Decoded code at an address. */
  datatype Program = Program(base: u64, code: seq<Instr>) {
    /** The code is word-aligned and inside the address space. */
    ghost predicate Valid() {
      base % 4 == 0 && base + 4 * |code| <= TWO64
    }

    function Addr(i: nat): (a: u64)
      requires i < |code| && base + 4 * |code| <= TWO64
    {
      base + 4 * i
    }

    function Fetch(pc: u64): Option<Instr> {
      if pc >= base && (pc - base) % 4 == 0 && (pc - base) / 4 < |code|
      then Some(code[(pc - base) / 4]) else None
    }
  }

  /** The program that the words of an image are. */
  function Load(base: u64, words: seq<u32>): (p: Program)
    ensures p.base == base && |p.code| == |words|
    ensures forall i :: 0 <= i < |words| ==> p.code[i] == Decode(words[i])
  {
    Program(base, seq(|words|, i requires 0 <= i < |words| => Decode(words[i])))
  }

  /** Register 31 reads as zero here, and as the stack pointer in `XSp`. */
  function X(s: State, n: nat): u64
    requires n < 32
  {
    if n == 31 then 0 else s.x[n]
  }

  function XSp(s: State, n: nat): u64
    requires n < 32
  {
    if n == 31 then s.sp else s.x[n]
  }

  function SetX(s: State, n: nat, v: u64): State
    requires n < 32
  {
    if n == 31 then s else s.(x := s.x[n := v])
  }

  function SetXSp(s: State, n: nat, v: u64): State
    requires n < 32
  {
    if n == 31 then s.(sp := v) else s.(x := s.x[n := v])
  }

  function Wrap(v: int): u64 { v % TWO64 }

  function Next(s: State): State { s.(pc := Wrap(s.pc + 4)) }

  function Read(mem: map<u64, u64>, a: u64): u64 { if a in mem then mem[a] else 0 }

  /** NZCV of the subtraction `a - b`. */
  function SubFlags(a: u64, b: u64): Flags {
    var r := Wrap(a - b);
    var half := TWO64 / 2;
    Flags(r >= half, r == 0, a >= b, (a >= half) != (b >= half) && (r >= half) != (a >= half))
  }

  predicate Holds(cond: nat, f: Flags) {
    var base := match cond / 2
      case 0 => f.z
      case 1 => f.c
      case 2 => f.n
      case 3 => f.v
      case 4 => f.c && !f.z
      case 5 => f.n == f.v
      case 6 => f.n == f.v && !f.z
      case _ => true;
    if cond % 2 == 1 && cond != 15 then !base else base
  }

  /** The base address of a pair access; none if the stack pointer or the address is misaligned. */
  function PairBase(s: State, n: nat, bytes: int): Option<u64>
    requires n < 32
  {
    if n == 31 && s.sp % 16 != 0 then None
    else if Wrap(XSp(s, n) + bytes) % 8 != 0 then None
    else Some(Wrap(XSp(s, n) + bytes))
  }

  function Execute(i: Instr, s: State): Option<State> {
    match i
    case Br(n) => if n < 32 then Some(s.(pc := X(s, n))) else None
    case Blr(n) => if n < 32 then Some(SetX(s, 30, Wrap(s.pc + 4)).(pc := X(s, n))) else None
    case Ret(n) => if n < 32 then Some(s.(pc := X(s, n))) else None
    case B(words) => Some(s.(pc := Wrap(s.pc + 4 * words)))
    case Bl(words) => Some(SetX(s, 30, Wrap(s.pc + 4)).(pc := Wrap(s.pc + 4 * words)))
    case BCond(cond, words) =>
      if Holds(cond, s.flags) then Some(s.(pc := Wrap(s.pc + 4 * words))) else Some(Next(s))
    case Movz(d, value) => if d < 32 then Some(Next(SetX(s, d, value))) else None
    case SubsImm(d, n, imm) =>
      if d < 32 && n < 32 && imm < 0x1000 then
        var a := XSp(s, n);
        Some(Next(SetX(s, d, Wrap(a - imm)).(flags := SubFlags(a, imm))))
      else None
    case AddImm(d, n, imm) =>
      if d < 32 && n < 32 then Some(Next(SetXSp(s, d, Wrap(XSp(s, n) + imm)))) else None
    case StpPre(t, t2, n, bytes) =>
      if t < 32 && t2 < 32 && n < 32 && PairBase(s, n, bytes).Some? then
        var a := PairBase(s, n, bytes).value;
        Some(Next(SetXSp(s.(mem := s.mem[a := X(s, t)][Wrap(a + 8) := X(s, t2)]), n, a)))
      else None
    case LdpPost(t, t2, n, bytes) =>
      if t < 32 && t2 < 32 && n < 32 && PairBase(s, n, 0).Some? then
        var a := PairBase(s, n, 0).value;
        var loaded := SetX(SetX(s, t, Read(s.mem, a)), t2, Read(s.mem, Wrap(a + 8)));
        Some(Next(SetXSp(loaded, n, Wrap(a + bytes))))
      else None
    case Other => None
  }

  /** One instruction; none when the program counter has left the code, or on a fault or an
      instruction outside the model. */
  function Step(p: Program, s: State): Option<State> {
    match p.Fetch(s.pc)
    case Some(i) => Execute(i, s)
    case None => None
  }

  function Run(p: Program, s: State, steps: nat): Option<State>
    decreases steps
  {
    if steps == 0 then Some(s)
    else match Step(p, s)
      case Some(t) => Run(p, t, steps - 1)
      case None => None
  }
}
