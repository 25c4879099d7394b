/** What the two shellcode templates of patches/platform/shellcode.c do when the machine runs them
    in place of the jump that they replace. */
module Shellcode {
  import opened Bits
  import opened Wrappers
  import opened Arm64
  import opened Machine

  const CMP_X1_10: u32 := 0xf100283f
  const BEQ_SKIP: u32 := 0x54000040
  const MOV_X1: u32 := 0xd2800001
  const PUSH_FP_LR: u32 := 0xa9bf7bfd
  const MOV_FP_SP: u32 := 0x910003fd
  const POP_FP_LR: u32 := 0xa8c17bfd
  const RET: u32 := 0xd65f03c0

  function MovPlatform(platform: nat): u32
    requires platform < 0x1_0000
  {
    MOV_X1 + 32 * platform
  }

  function BrShellcode(platform: nat, jmp: u32): (s: seq<u32>)
    requires platform < 0x1_0000
    ensures |s| == 4
  {
    [CMP_X1_10, BEQ_SKIP, MovPlatform(platform), jmp]
  }

  function BlrShellcode(platform: nat, jmp: u32): (s: seq<u32>)
    requires platform < 0x1_0000
    ensures |s| == 8
  {
    [PUSH_FP_LR, MOV_FP_SP, CMP_X1_10, BEQ_SKIP, MovPlatform(platform), jmp, POP_FP_LR, RET]
  }

  /** The copy that a jump word calls for. */
  function ShellcodeFor(platform: nat, jmp: u32): seq<u32>
    requires platform < 0x1_0000
  {
    if IsBr(jmp) then BrShellcode(platform, jmp) else BlrShellcode(platform, jmp)
  }

  ghost predicate CodeAt(words: seq<u32>, at: nat, code: seq<u32>) {
    at + |code| <= |words| && words[at..at + |code|] == code
  }

  lemma CodeAtIndex(words: seq<u32>, at: nat, code: seq<u32>, i: nat)
    requires CodeAt(words, at, code) && i < |code|
    ensures words[at + i] == code[i]
  {
    assert words[at..at + |code|][i] == code[i];
  }

  /** x1 after the shellcode: a platform argument of 10 is left alone, any other becomes the
      patched platform. */
  function NewX1(s: State, platform: nat): u64
    requires platform < 0x1_0000
  {
    if s.x[1] == 10 then 10 else platform
  }

  // ---------------------------------------------------------------------------------------------
  // Decoding of the template words.

  lemma DecodeFixed()
    ensures Decode(CMP_X1_10) == SubsImm(31, 1, 10)
    ensures Decode(RET) == Ret(30)
  {
  }

  lemma DecodeSkip()
    ensures Decode(BEQ_SKIP) == BCond(0, 2)
  {
    var w := BEQ_SKIP;
    assert w / 0x400_0000 == 21 && w / 0x100_0000 == 0x54 && w / 16 % 2 == 0;
    assert Decode(w) == BCond(w % 16, SignExtend(w / 32 % 0x8_0000, 19));
    TwoOf19();
  }

  lemma TwoOf19()
    ensures SignExtend(2, 19) == 2
  {
    assert Pow2(18) == 2 * Pow2(17) && Pow2(17) == 2 * Pow2(16);
  }

  lemma DecodeFrame()
    ensures Decode(PUSH_FP_LR) == StpPre(29, 30, 31, -16)
    ensures Decode(MOV_FP_SP) == AddImm(29, 31, 0)
    ensures Decode(POP_FP_LR) == LdpPost(29, 30, 31, 16)
  {
    assert Pow2(7) == 128 && Pow2(6) == 64;
  }

  lemma DecodeMov(platform: nat)
    requires platform < 0x1_0000
    ensures Decode(MovPlatform(platform)) == Movz(1, platform)
  {
    var w := MovPlatform(platform);
    assert w / 0x20_0000 == 0x694 && w % 32 == 1;
    assert w / 32 == 0x694 * 0x1_0000 + platform;
    DivModUnique(w / 32, 0x1_0000, 0x694, platform);
    assert w / 0x400 != 0x3587c0 && w / 0x400_0000 == 52 && w / 0x100_0000 != 0x54;
  }

  lemma DecodeJump(n: nat)
    requires n < 32
    ensures Decode(BrWord(n)) == Br(n) && Decode(BlrWord(n)) == Blr(n)
  {
    JumpParts(BrWord(n), 0x3587c0, n);
    JumpParts(BlrWord(n), 0x358fc0, n);
  }

  lemma JumpParts(w: u32, top: nat, n: nat)
    requires n < 32 && w == top * 0x400 + 32 * n
    ensures w / 0x400 == top && w % 32 == 0 && JumpReg(w) == n
  {
    DivModUnique(w, 0x400, top, 32 * n);
    DivModUnique(w, 32, top * 32 + n, 0);
    DivModUnique(w / 32, 32, top, n);
  }

  /** The branch word that sends word `i` of an image at `base` to word `j`. */
  function BranchWord(base: u64, i: nat, j: nat, link: bool): u32
    requires base + 4 * i < TWO64 && base + 4 * j < TWO64
  {
    Arm64Branch(base + 4 * i, base + 4 * j, link)
  }

  /** An in-range branch word makes the machine go to the word that it was encoded for. */
  lemma DecodeBranch(base: u64, i: nat, j: nat, link: bool)
    requires base + 4 * i < TWO64 && base + 4 * j < TWO64
    requires -0x200_0000 <= j - i < 0x200_0000
    ensures Decode(BranchWord(base, i, j, link)) == if link then Bl(j - i) else Instr.B(j - i)
  {
    BranchWordAt(base, i, j, link);
    BranchWordDecodes(BranchWord(base, i, j, link), (j - i) % TWO32 % 0x400_0000, link);
    Field26(j - i);
  }

  lemma BranchWordAt(base: u64, i: nat, j: nat, link: bool)
    requires base + 4 * i < TWO64 && base + 4 * j < TWO64
    requires -0x200_0000 <= j - i < 0x200_0000
    ensures BranchWord(base, i, j, link)
         == (if link then BL else Arm64.B) + (j - i) % TWO32 % 0x400_0000
  {
    SmallDiff(4 * (j - i));
    BranchValue(base + 4 * i, base + 4 * j, link);
    assert 4 * (j - i) / 4 == j - i;
  }

  /** And `pf_follow_branch` reads the same word displacement. */
  lemma BranchWordFollows(base: u64, i: nat, j: nat, link: bool)
    requires base + 4 * i < TWO64 && base + 4 * j < TWO64
    requires -0x200_0000 <= j - i < 0x200_0000
    ensures BranchDisplacement(BranchWord(base, i, j, link)) == Some(j - i)
  {
    BranchWordAt(base, i, j, link);
    BranchOpcodeReads(BranchWord(base, i, j, link), (j - i) % TWO32 % 0x400_0000, link);
    Field26(j - i);
  }

  /** Different targets give different branch words. */
  lemma BranchWordInjective(base: u64, i: nat, j: nat, k: nat, link: bool)
    requires base + 4 * i < TWO64 && base + 4 * j < TWO64 && base + 4 * k < TWO64
    requires -0x200_0000 <= j - i < 0x200_0000 && -0x200_0000 <= k - i < 0x200_0000
    requires BranchWord(base, i, j, link) == BranchWord(base, i, k, link)
    ensures j == k
  {
    BranchWordAt(base, i, j, link);
    BranchWordAt(base, i, k, link);
    Field26(j - i);
    Field26(k - i);
  }

  lemma SmallDiff(d: int)
    requires -0x8000_0000 <= d < 0x8000_0000
    ensures SignExtend(d % TWO64, 64) == d
  {
    assert Pow2(63) == 0x8000_0000_0000_0000 && Pow2(64) == TWO64 by {
      Pow2Values();
    }
  }

  lemma BranchWordDecodes(w: u32, f: nat, link: bool)
    requires f < 0x400_0000 && w == (if link then BL else Arm64.B) + f
    ensures Decode(w) == if link then Bl(SignExtend(f, 26)) else Instr.B(SignExtend(f, 26))
  {
    assert w / 0x400_0000 == (if link then 37 else 5) && w % 0x400_0000 == f;
    assert w / 0x400 < 0x3587c0;
  }

  // ---------------------------------------------------------------------------------------------
  // Execution.

  lemma {:induction false} RunAppend(p: Program, s: State, j: nat, t: State, k: nat)
    requires Run(p, s, j) == Some(t)
    ensures Run(p, s, j + k) == Run(p, t, k)
    decreases j
  {
    if j > 0 {
      RunAppend(p, Step(p, s).value, j - 1, t, k);
    }
  }

  lemma RunTwo(p: Program, s: State, s1: State, s2: State)
    requires Step(p, s) == Some(s1) && Step(p, s1) == Some(s2)
    ensures Run(p, s, 1) == Some(s1) && Run(p, s, 2) == Some(s2)
  {
    assert Run(p, s, 2) == Run(p, s1, 1) == Run(p, s2, 0);
  }

  /** The instruction at word `i` is executed, and the following word is the next one. */
  lemma StepAt(p: Program, s: State, i: nat, instr: Instr)
    requires p.Valid() && i < |p.code| && s.pc == p.Addr(i) && p.code[i] == instr
    ensures Step(p, s) == Execute(instr, s)
    ensures i + 1 < |p.code| ==> Wrap(s.pc + 4) == p.Addr(i + 1)
    ensures i + 2 < |p.code| ==> Wrap(s.pc + 8) == p.Addr(i + 2)
  {
    assert (s.pc - p.base) / 4 == i;
  }

  lemma ExecuteCheck(s: State, platform: u64)
    ensures Execute(SubsImm(31, 1, 10), s) == Some(Next(s.(flags := SubFlags(s.x[1], 10))))
    ensures SubFlags(s.x[1], 10).z <==> s.x[1] == 10
    ensures Execute(BCond(0, 2), s) == Some(if s.flags.z then s.(pc := Wrap(s.pc + 8)) else Next(s))
    ensures Execute(Movz(1, platform), s) == Some(Next(s.(x := s.x[1 := platform])))
  {
  }

  /** Steps from the comparison to the jump: the move is skipped when x1 is 10. */
  function CheckSteps(s: State): nat { if s.x[1] == 10 then 2 else 3 }

  function Checked(s: State, platform: nat, pc: u64): State
    requires platform < 0x1_0000
  {
    s.(pc := pc, x := s.x[1 := NewX1(s, platform)], flags := SubFlags(s.x[1], 10))
  }

  ghost predicate ChecksAt(p: Program, at: nat, platform: nat) {
    && p.Valid() && platform < 0x1_0000 && at + 3 < |p.code|
    && p.code[at] == SubsImm(31, 1, 10) && p.code[at + 1] == BCond(0, 2)
    && p.code[at + 2] == Movz(1, platform)
  }

  function Compared(s: State, pc: u64): State {
    s.(pc := pc, flags := SubFlags(s.x[1], 10))
  }

  lemma CompareStep(p: Program, s: State, at: nat, platform: nat)
    requires ChecksAt(p, at, platform) && s.pc == p.Addr(at)
    ensures Step(p, s) == Some(Compared(s, p.Addr(at + 1)))
  {
    StepAt(p, s, at, SubsImm(31, 1, 10));
    ExecuteCheck(s, 0);
  }

  lemma SkipStep(p: Program, s: State, at: nat, platform: nat)
    requires ChecksAt(p, at, platform)
    ensures Step(p, Compared(s, p.Addr(at + 1)))
         == Some(Compared(s, p.Addr(if s.x[1] == 10 then at + 3 else at + 2)))
  {
    var s1 := Compared(s, p.Addr(at + 1));
    StepAt(p, s1, at + 1, BCond(0, 2));
    ExecuteCheck(s, 0);
    ExecuteCheck(s1, 0);
  }

  lemma MoveStep(p: Program, s: State, at: nat, platform: nat)
    requires ChecksAt(p, at, platform) && s.x[1] != 10
    ensures Step(p, Compared(s, p.Addr(at + 2))) == Some(Checked(s, platform, p.Addr(at + 3)))
  {
    var s2 := Compared(s, p.Addr(at + 2));
    StepAt(p, s2, at + 2, Movz(1, platform));
    ExecuteCheck(s2, platform);
  }

  /** The check falls through to the fourth word with x1 and the flags changed. */
  lemma CheckRuns(p: Program, s: State, at: nat, platform: nat)
    requires ChecksAt(p, at, platform) && s.pc == p.Addr(at)
    ensures Run(p, s, CheckSteps(s)) == Some(Checked(s, platform, p.Addr(at + 3)))
  {
    var s1 := Compared(s, p.Addr(at + 1));
    var s2 := Compared(s, p.Addr(if s.x[1] == 10 then at + 3 else at + 2));
    CompareStep(p, s, at, platform);
    SkipStep(p, s, at, platform);
    RunTwo(p, s, s1, s2);
    if s.x[1] == 10 {
      assert s.x[1 := 10] == s.x;
    } else {
      MoveStep(p, s, at, platform);
      RunAppend(p, s, 2, s2, 1);
    }
  }

  // The `br` shellcode.

  ghost predicate BrRedirected(p: Program, site: nat, loc: nat, platform: nat, n: nat) {
    && n < 32 && site < |p.code| && ChecksAt(p, loc, platform)
    && p.code[loc + 3] == Br(n) && p.code[site] == Instr.B(loc - site)
  }

  lemma BrJumpStep(p: Program, s: State, i: nat, n: nat)
    requires p.Valid() && i < |p.code| && n < 32 && p.code[i] == Br(n) && s.pc == p.Addr(i)
    ensures Step(p, s) == Some(s.(pc := X(s, n)))
  {
    StepAt(p, s, i, Br(n));
  }

  lemma BranchStep(p: Program, s: State, site: nat, loc: nat)
    requires p.Valid() && site < |p.code| && loc < |p.code|
    requires p.code[site] == Instr.B(loc - site) && s.pc == p.Addr(site)
    ensures Step(p, s) == Some(s.(pc := p.Addr(loc)))
  {
    StepAt(p, s, site, Instr.B(loc - site));
  }

  /** From any state at a redirected `br` site the machine goes to the register's value, read after
      x1 was adjusted, with only x1 and the flags changed. */
  lemma BrRuns(p: Program, site: nat, loc: nat, platform: nat, n: nat, s: State)
    requires BrRedirected(p, site, loc, platform, n) && s.pc == p.Addr(site)
    ensures Run(p, s, 2 + CheckSteps(s))
         == Some(Checked(s, platform, X(Checked(s, platform, 0), n)))
  {
    var k := CheckSteps(s);
    var s1, s2 := s.(pc := p.Addr(loc)), Checked(s, platform, p.Addr(loc + 3));
    var s3 := Checked(s, platform, X(Checked(s, platform, 0), n));
    BranchStep(p, s, site, loc);
    CheckRuns(p, s1, loc, platform);
    BrJumpStep(p, s2, loc + 3, n);
    assert Run(p, s2, 1) == Run(p, s3, 0);
    RunAppend(p, s1, k, s2, 1);
    assert Run(p, s, 1) == Run(p, s1, 0);
    RunAppend(p, s, 1, s1, k + 1);
  }

  // The `blr` shellcode.

  ghost predicate BlrRedirected(p: Program, site: nat, loc: nat, platform: nat, n: nat) {
    && n < 32 && site < |p.code| && loc + 7 < |p.code| && ChecksAt(p, loc + 2, platform)
    && p.code[site] == Bl(loc - site)
    && p.code[loc] == StpPre(29, 30, 31, -16) && p.code[loc + 1] == AddImm(29, 31, 0)
    && p.code[loc + 5] == Blr(n)
    && p.code[loc + 6] == LdpPost(29, 30, 31, 16) && p.code[loc + 7] == Ret(30)
  }

  function Linked(s: State, pc: u64, ret: u64): State {
    s.(pc := pc, x := s.x[30 := ret])
  }

  /** `s` with x29 and x30 pushed as a frame record and x29 pointing to it. */
  function Framed(s: State, pc: u64): State {
    var sp := Wrap(s.sp - 16);
    s.(pc := pc, x := s.x[29 := sp], sp := sp,
       mem := s.mem[sp := s.x[29]][Wrap(sp + 8) := s.x[30]])
  }

  /** The state just before the copied `blr`, for a site whose return address is `ret`. */
  function BeforeCall(s: State, ret: u64, platform: nat, pc: u64): State
    requires platform < 0x1_0000
  {
    Checked(Framed(Linked(s, pc, ret), pc), platform, pc)
  }

  lemma CallStep(p: Program, s: State, site: nat, loc: nat)
    requires p.Valid() && site < |p.code| && loc < |p.code|
    requires p.code[site] == Bl(loc - site) && s.pc == p.Addr(site)
    ensures Step(p, s) == Some(Linked(s, p.Addr(loc), Wrap(s.pc + 4)))
  {
    StepAt(p, s, site, Bl(loc - site));
  }

  lemma AlignedPush(sp: u64)
    requires sp % 16 == 0
    ensures Wrap(sp - 16) % 16 == 0 && Wrap(sp - 16) % 8 == 0
    ensures Wrap(Wrap(sp - 16) + 16) == sp
    ensures Wrap(Wrap(sp - 16) + 8) != Wrap(sp - 16)
  {
    var q := sp / 16;
    assert sp == 16 * q;
    var p, k := if q == 0 then TWO64 - 16 else sp - 16, if q == 0 then TWO64 / 16 - 1 else q - 1;
    assert p == k * 16 && 0 <= p <= TWO64 - 16;
    DivModUnique(sp - 16, TWO64, if q == 0 then -1 else 0, p);
    DivModUnique(p, 16, k, 0);
    DivModUnique(p, 8, 2 * k, 0);
    DivModUnique(p + 16, TWO64, if q == 0 then 1 else 0, sp);
    SmallMod(p + 8, TWO64);
  }

  lemma ExecutePush(s: State)
    requires s.sp % 16 == 0
    ensures Execute(StpPre(29, 30, 31, -16), s)
         == Some(Next(s.(sp := Wrap(s.sp - 16),
                         mem := s.mem[Wrap(s.sp - 16) := s.x[29]]
                                     [Wrap(Wrap(s.sp - 16) + 8) := s.x[30]])))
  {
    AlignedPush(s.sp);
  }

  lemma PushStep(p: Program, s: State, i: nat)
    requires p.Valid() && i + 1 < |p.code| && p.code[i] == StpPre(29, 30, 31, -16)
    requires s.pc == p.Addr(i) && s.sp % 16 == 0
    ensures Step(p, s) == Some(Framed(s, p.Addr(i + 1)).(x := s.x))
  {
    StepAt(p, s, i, StpPre(29, 30, 31, -16));
    ExecutePush(s);
  }

  lemma FrameStep(p: Program, s: State, i: nat)
    requires p.Valid() && i + 1 < |p.code| && p.code[i] == AddImm(29, 31, 0)
    ensures Step(p, Framed(s, p.Addr(i)).(x := s.x)) == Some(Framed(s, p.Addr(i + 1)))
  {
    StepAt(p, Framed(s, p.Addr(i)).(x := s.x), i, AddImm(29, 31, 0));
  }

  lemma BlrJumpStep(p: Program, s: State, i: nat, n: nat)
    requires p.Valid() && i + 1 < |p.code| && n < 32 && p.code[i] == Blr(n) && s.pc == p.Addr(i)
    ensures Step(p, s) == Some(Linked(s, X(s, n), p.Addr(i + 1)))
  {
    StepAt(p, s, i, Blr(n));
  }

  /** The callee is entered with x1 adjusted, x30 pointing into the copy and a frame record pushed;
      the target register is read after all of these. */
  lemma BlrCalls(p: Program, site: nat, loc: nat, platform: nat, n: nat, s: State)
    requires BlrRedirected(p, site, loc, platform, n) && s.pc == p.Addr(site) && s.sp % 16 == 0
    ensures Run(p, s, 4 + CheckSteps(s))
         == Some(Entered(p, loc, n, BeforeCall(s, Wrap(s.pc + 4), platform, p.Addr(loc + 5))))
  {
    var e := BeforeCall(s, Wrap(s.pc + 4), platform, p.Addr(loc + 5));
    BlrChecks(p, site, loc, platform, n, s);
    BlrLeaves(p, e, loc, n);
    RunAppend(p, s, 3 + CheckSteps(s), e, 1);
  }

  lemma BlrChecks(p: Program, site: nat, loc: nat, platform: nat, n: nat, s: State)
    requires BlrRedirected(p, site, loc, platform, n) && s.pc == p.Addr(site) && s.sp % 16 == 0
    ensures Run(p, s, 3 + CheckSteps(s))
         == Some(BeforeCall(s, Wrap(s.pc + 4), platform, p.Addr(loc + 5)))
  {
    var f := BlrEnters(p, site, loc, platform, n, s);
    var e := FramedChecks(p, loc, platform, s, Wrap(s.pc + 4), f);
    RunJoins(p, s, 3, f, CheckSteps(s), e);
  }

  lemma RunJoins(p: Program, s: State, a: nat, t: State, b: nat, u: State)
    requires Run(p, s, a) == Some(t) && Run(p, t, b) == Some(u)
    ensures Run(p, s, a + b) == Some(u)
  {
    RunAppend(p, s, a, t, b);
  }

  lemma FramedChecks(p: Program, loc: nat, platform: nat, s: State, ret: u64, f: State) returns (e: State)
    requires ChecksAt(p, loc + 2, platform) && f == Framed(Linked(s, p.Addr(loc), ret), p.Addr(loc + 2))
    ensures e == BeforeCall(s, ret, platform, p.Addr(loc + 5)) && Run(p, f, CheckSteps(s)) == Some(e)
  {
    e := BeforeCall(s, ret, platform, p.Addr(loc + 5));
    CheckedFrame(s, ret, platform, p.Addr(loc + 5), p.Addr(loc), p.Addr(loc + 2));
    CheckRuns(p, f, loc + 2, platform);
  }

  /** Linking and framing leave x1 alone. */
  lemma CheckedFrame(s: State, ret: u64, platform: nat, pc: u64, pc1: u64, pc2: u64)
    requires platform < 0x1_0000
    ensures var f := Framed(Linked(s, pc1, ret), pc2);
      CheckSteps(f) == CheckSteps(s) && Checked(f, platform, pc) == BeforeCall(s, ret, platform, pc)
  {
  }

  lemma BlrLeaves(p: Program, e: State, loc: nat, n: nat)
    requires p.Valid() && loc + 6 < |p.code| && n < 32 && p.code[loc + 5] == Blr(n)
    requires e.pc == p.Addr(loc + 5)
    ensures Run(p, e, 1) == Some(Entered(p, loc, n, e))
  {
    BlrJumpStep(p, e, loc + 5, n);
    RunOne(p, e, Entered(p, loc, n, e));
  }

  lemma BlrEnters(p: Program, site: nat, loc: nat, platform: nat, n: nat, s: State) returns (f: State)
    requires BlrRedirected(p, site, loc, platform, n) && s.pc == p.Addr(site) && s.sp % 16 == 0
    ensures f == Framed(Linked(s, p.Addr(loc), Wrap(s.pc + 4)), p.Addr(loc + 2)) && Run(p, s, 3) == Some(f)
  {
    f := Framed(Linked(s, p.Addr(loc), Wrap(s.pc + 4)), p.Addr(loc + 2));
    var s1 := Linked(s, p.Addr(loc), Wrap(s.pc + 4));
    CallStep(p, s, site, loc);
    RunOne(p, s, s1);
    FrameRuns(p, s1, loc);
    RunAppend(p, s, 1, s1, 2);
  }

  lemma FrameRuns(p: Program, s: State, i: nat)
    requires p.Valid() && i + 2 < |p.code| && s.pc == p.Addr(i) && s.sp % 16 == 0
    requires p.code[i] == StpPre(29, 30, 31, -16) && p.code[i + 1] == AddImm(29, 31, 0)
    ensures Run(p, s, 2) == Some(Framed(s, p.Addr(i + 2)))
  {
    PushStep(p, s, i);
    FrameStep(p, s, i + 1);
    RunTwo(p, s, Framed(s, p.Addr(i + 1)).(x := s.x), Framed(s, p.Addr(i + 2)));
  }

  function Entered(p: Program, loc: nat, n: nat, e: State): State
    requires p.Valid() && loc + 6 < |p.code| && n < 32
  {
    Linked(e, X(e, n), p.Addr(loc + 6))
  }

  lemma RunOne(p: Program, s: State, t: State)
    requires Step(p, s) == Some(t)
    ensures Run(p, s, 1) == Some(t)
  {
    assert Run(p, s, 1) == Run(p, t, 0);
  }

  /** A callee that returns to its x30 with the stack pointer and the frame record as it found them
      comes back to the word after the site, with the site's sp, x29 and return address. */
  lemma BlrReturns(p: Program, site: nat, loc: nat, platform: nat, n: nat, s: State, r: State)
    requires BlrRedirected(p, site, loc, platform, n) && s.sp % 16 == 0
    requires r.pc == p.Addr(loc + 6) && r.sp == Wrap(s.sp - 16)
    requires Read(r.mem, r.sp) == s.x[29] && Read(r.mem, Wrap(r.sp + 8)) == Wrap(s.pc + 4)
    ensures Run(p, r, 2) == Some(r.(pc := Wrap(s.pc + 4), sp := s.sp,
                                    x := r.x[29 := s.x[29]][30 := Wrap(s.pc + 4)]))
  {
    var t := r.(pc := p.Addr(loc + 7), sp := s.sp, x := r.x[29 := s.x[29]][30 := Wrap(s.pc + 4)]);
    PopStep(p, loc + 6, s, r);
    RetStep(p, loc + 7, t);
    RunTwo(p, r, t, t.(pc := t.x[30]));
  }

  lemma PopStep(p: Program, i: nat, s: State, r: State)
    requires p.Valid() && i + 1 < |p.code| && p.code[i] == LdpPost(29, 30, 31, 16)
    requires s.sp % 16 == 0 && r.pc == p.Addr(i) && r.sp == Wrap(s.sp - 16)
    ensures Step(p, r)
         == Some(r.(pc := p.Addr(i + 1), sp := s.sp,
                    x := r.x[29 := Read(r.mem, r.sp)][30 := Read(r.mem, Wrap(r.sp + 8))]))
  {
    StepAt(p, r, i, LdpPost(29, 30, 31, 16));
    ExecutePop(r, s);
  }

  lemma RetStep(p: Program, i: nat, t: State)
    requires p.Valid() && i < |p.code| && p.code[i] == Ret(30) && t.pc == p.Addr(i)
    ensures Step(p, t) == Some(t.(pc := t.x[30]))
  {
    StepAt(p, t, i, Ret(30));
  }

  lemma ExecutePop(r: State, s: State)
    requires s.sp % 16 == 0 && r.sp == Wrap(s.sp - 16)
    ensures Execute(LdpPost(29, 30, 31, 16), r)
         == Some(Next(r.(sp := s.sp, x := r.x[29 := Read(r.mem, r.sp)]
                                             [30 := Read(r.mem, Wrap(r.sp + 8))])))
  {
    AlignedPush(s.sp);
    SmallMod(r.sp, TWO64);
    assert PairBase(r, 31, 0) == Some(r.sp);
    var x := r.x[29 := Read(r.mem, r.sp)][30 := Read(r.mem, Wrap(r.sp + 8))];
    assert SetX(SetX(r, 29, Read(r.mem, r.sp)), 30, Read(r.mem, Wrap(r.sp + 8))) == r.(x := x);
  }
}
