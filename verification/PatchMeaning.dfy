/** What a run of the platform patch means for the machine: every rewritten jump still transfers
    control as the original did, with x1 adjusted. */
module PatchMeaning {
  import opened Bits
  import opened Wrappers
  import opened Arm64
  import opened Machine
  import opened Shellcode
  import opened Rewrite
  import opened PatchRun

  /** The start of a run: nothing cached and nothing patched yet, and all zero runs that will be
      chosen lie outside the patched region. */
  ghost predicate Start(c: Config, st: Patch, f: nat, end: nat) {
    && Setup(c, st.img, f, end) && Templates(c, st) && st.loc.None? && !st.found
    && Shaped(c, st) && Clear(c, st, f, f, end)
  }

  /** A caller can tell from the image alone: it suffices that no zero run of the text section meets
      the region. */
  lemma SeparateStart(c: Config, st: Patch, f: nat, end: nat)
    requires Setup(c, st.img, f, end) && Templates(c, st) && st.loc.None? && !st.found
    requires Separate(c, st.img, f, end)
    ensures Start(c, st, f, end)
  {
    StartInv(c, st, f, end);
    SeparateIsClear(c, st.img, f, f, end, st, History([], map[]));
  }

  /** The state after the run, and the image in it. */
  ghost function Final(c: Config, st: Patch, f: nat, end: nat): (r: Patch)
    requires Start(c, st, f, end)
    ensures |r.img| == |st.img|
  {
    Scan(c, st, f, end)
  }

  ghost function Patched(c: Config, st: Patch, f: nat, end: nat): (out: seq<u32>)
    requires Start(c, st, f, end)
    ensures |out| == |st.img|
  {
    Final(c, st, f, end).img
  }

  /** What the history `h` of a finished run says about its image `out`. */
  ghost predicate Outcome(c: Config, orig: seq<u32>, f: nat, end: nat, out: seq<u32>, h: History)
    requires Setup(c, orig, f, end)
  {
    && |out| == |orig|
    && Copies(c, orig, f, end, out, h) && Sites(c, orig, f, end, out, h) && Apart(h)
    && Frame(orig, out, h) && Skipped(c, orig, f, end, out, h)
    && (Known(orig, f, end, h) ==>
          forall s :: s in h.sites ==>
            f <= s < |orig| && h.sites[s] < |h.copies| && Carries(orig, f, h, s))
  }

  lemma RunHistory(c: Config, st: Patch, f: nat, end: nat) returns (h: History)
    requires Start(c, st, f, end)
    ensures Outcome(c, st.img, f, end, Patched(c, st, f, end), h)
    ensures Final(c, st, f, end).found <==> h.sites.Keys != {}
  {
    StartInv(c, st, f, end);
    h := ScanKeeps(c, st.img, f, f, end, end, st, History([], map[]));
  }

  /** The copy that a changed word of the region branches to. */
  lemma RewrittenCopy(c: Config, orig: seq<u32>, f: nat, end: nat, out: seq<u32>, h: History, i: nat)
    returns (k: Copied)
    requires Setup(c, orig, f, end) && Outcome(c, orig, f, end, out, h)
    requires f <= i < end && out[i] != orig[i]
    ensures i in h.sites && h.sites[i] < |h.copies| && k == h.copies[h.sites[i]]
    ensures SiteOk(c, orig, f, end, out, h, i) && CopyOk(c, orig, f, end, out, k)
  {
    assert Touched(h, i);
    forall a | 0 <= a < |h.copies| ensures !InCopy(h.copies[a], i) {
      assert CopyOk(c, orig, f, end, out, h.copies[a]);
    }
    assert SiteOk(c, orig, f, end, out, h, i);
    k := h.copies[h.sites[i]];
  }

  /** The frame of a run.  A word changes only if it is a jump of the region, or lies in a shellcode
      copy; copies are made over zero words outside the region and never overlap; and a jump is left
      alone only if at the end there is no room for its shellcode in the text section.  The run
      reports success exactly when some word of the region changed. */
  lemma PatchedFrame(c: Config, st: Patch, f: nat, end: nat) returns (h: History)
    requires Start(c, st, f, end)
    ensures var out := Patched(c, st, f, end);
      && (forall m :: 0 <= m < |out| && out[m] != st.img[m] ==>
            || (f <= m < end && IsJump(st.img[m]))
            || (st.img[m] == 0 && !(f <= m < end)
                && exists a :: 0 <= a < |h.copies| && InCopy(h.copies[a], m)))
      && Copies(c, st.img, f, end, out, h) && Apart(h)
      && (forall m :: f <= m < end && IsJump(st.img[m]) && out[m] == st.img[m] ==>
            NoRoom(c, out, Length(st.img[m])))
      && (Final(c, st, f, end).found <==> exists m :: f <= m < end && out[m] != st.img[m])
  {
    h := RunHistory(c, st, f, end);
    var out := Patched(c, st, f, end);
    forall m | 0 <= m < |out| && out[m] != st.img[m]
      ensures || (f <= m < end && IsJump(st.img[m]))
              || (st.img[m] == 0 && !(f <= m < end)
                  && exists a :: 0 <= a < |h.copies| && InCopy(h.copies[a], m))
    {
      assert Touched(h, m);
      if m in h.sites {
        assert SiteOk(c, st.img, f, end, out, h, m);
      } else {
        var a :| 0 <= a < |h.copies| && InCopy(h.copies[a], m);
        assert CopyOk(c, st.img, f, end, out, h.copies[a]);
      }
    }
    forall m | f <= m < end && IsJump(st.img[m]) && out[m] == st.img[m]
      ensures NoRoom(c, out, Length(st.img[m]))
    {
      if m in h.sites {
        assert SiteOk(c, st.img, f, end, out, h, m);
        BranchIsNoJump(c.base, m, h.copies[h.sites[m]].loc, !IsBr(st.img[m]));
      }
    }
    ChangedSites(c, st.img, f, end, out, h);
  }

  lemma ChangedSites(c: Config, orig: seq<u32>, f: nat, end: nat, out: seq<u32>, h: History)
    requires Setup(c, orig, f, end) && Outcome(c, orig, f, end, out, h)
    ensures h.sites.Keys != {} <==> exists m :: f <= m < end && out[m] != orig[m]
  {
    if h.sites.Keys != {} {
      var m :| m in h.sites;
      assert SiteOk(c, orig, f, end, out, h, m);
      BranchIsNoJump(c.base, m, h.copies[h.sites[m]].loc, !IsBr(orig[m]));
    } else if m :| f <= m < end && out[m] != orig[m] {
      var _ := RewrittenCopy(c, orig, f, end, out, h, m);
    }
  }

  /** A branch word is never taken for a register-indirect jump. */
  lemma BranchIsNoJump(base: u64, i: nat, j: nat, link: bool)
    requires base + 4 * i < TWO64 && base + 4 * j < TWO64
    ensures !IsJump(BranchWord(base, i, j, link))
  {
    BranchValue(base + 4 * i, base + 4 * j, link);
    OpcodeIsNoJump(BranchWord(base, i, j, link));
  }

  lemma OpcodeIsNoJump(w: u32)
    requires w < BR
    ensures !IsJump(w)
  {
    JumpWords(w);
  }

  // ---------------------------------------------------------------------------------------------
  // From words to instructions.

  ghost predicate Redirected(base: u64, words: seq<u32>, site: nat, loc: nat, platform: nat, jmp: u32) {
    && base % 4 == 0 && base + 4 * |words| <= TWO64 && |words| <= 0x200_0000
    && platform < 0x1_0000 && site < |words| && loc < |words| && IsJump(jmp)
    && CodeAt(words, loc, ShellcodeFor(platform, jmp))
    && words[site] == BranchWord(base, site, loc, !IsBr(jmp))
  }

  lemma LoadsBr(base: u64, words: seq<u32>, site: nat, loc: nat, platform: nat, jmp: u32)
    requires Redirected(base, words, site, loc, platform, jmp) && IsBr(jmp)
    ensures BrRedirected(Load(base, words), site, loc, platform, JumpReg(jmp))
  {
    var p, shc := Load(base, words), BrShellcode(platform, jmp);
    forall i | 0 <= i < 4 ensures p.code[loc + i] == Decode(shc[i]) {
      CodeAtIndex(words, loc, shc, i);
    }
    BrDecodes(platform, jmp);
    assert p.code[loc + 0] == Decode(shc[0]) && p.code[loc + 1] == Decode(shc[1]);
    assert p.code[loc + 2] == Decode(shc[2]) && p.code[loc + 3] == Decode(shc[3]);
    DecodeBranch(base, site, loc, false);
  }

  lemma BrDecodes(platform: nat, jmp: u32)
    requires platform < 0x1_0000 && IsBr(jmp)
    ensures var shc := BrShellcode(platform, jmp);
      && Decode(shc[0]) == SubsImm(31, 1, 10) && Decode(shc[1]) == BCond(0, 2)
      && Decode(shc[2]) == Movz(1, platform) && Decode(shc[3]) == Br(JumpReg(jmp))
  {
    DecodeFixed();
    DecodeSkip();
    DecodeMov(platform);
    JumpWords(jmp);
    DecodeJump(JumpReg(jmp));
  }

  lemma LoadsBlr(base: u64, words: seq<u32>, site: nat, loc: nat, platform: nat, jmp: u32)
    requires Redirected(base, words, site, loc, platform, jmp) && !IsBr(jmp)
    ensures BlrRedirected(Load(base, words), site, loc, platform, JumpReg(jmp))
  {
    var p, shc := Load(base, words), BlrShellcode(platform, jmp);
    forall i | 0 <= i < 8 ensures p.code[loc + i] == Decode(shc[i]) {
      CodeAtIndex(words, loc, shc, i);
    }
    BlrDecodes(platform, jmp);
    assert p.code[loc + 0] == Decode(shc[0]) && p.code[loc + 1] == Decode(shc[1]);
    assert p.code[loc + 2] == Decode(shc[2]) && p.code[loc + 3] == Decode(shc[3]);
    assert p.code[loc + 4] == Decode(shc[4]) && p.code[loc + 5] == Decode(shc[5]);
    assert p.code[loc + 6] == Decode(shc[6]) && p.code[loc + 7] == Decode(shc[7]);
    DecodeBranch(base, site, loc, true);
  }

  lemma BlrDecodes(platform: nat, jmp: u32)
    requires platform < 0x1_0000 && IsJump(jmp) && !IsBr(jmp)
    ensures var shc := BlrShellcode(platform, jmp);
      && Decode(shc[0]) == StpPre(29, 30, 31, -16) && Decode(shc[1]) == AddImm(29, 31, 0)
      && Decode(shc[2]) == SubsImm(31, 1, 10) && Decode(shc[3]) == BCond(0, 2)
      && Decode(shc[4]) == Movz(1, platform) && Decode(shc[5]) == Blr(JumpReg(jmp))
      && Decode(shc[6]) == LdpPost(29, 30, 31, 16) && Decode(shc[7]) == Ret(30)
  {
    var shc := BlrShellcode(platform, jmp);
    assert Decode(shc[0]) == StpPre(29, 30, 31, -16) && Decode(shc[1]) == AddImm(29, 31, 0)
      && Decode(shc[6]) == LdpPost(29, 30, 31, 16) by { DecodeFrame(); }
    assert Decode(shc[2]) == SubsImm(31, 1, 10) && Decode(shc[7]) == Ret(30) by { DecodeFixed(); }
    assert Decode(shc[3]) == BCond(0, 2) by { DecodeSkip(); }
    assert Decode(shc[4]) == Movz(1, platform) by { DecodeMov(platform); }
    assert Decode(shc[5]) == Blr(JumpReg(jmp)) by {
      JumpWords(jmp);
      DecodeJump(JumpReg(jmp));
    }
  }

  /** What the original jump at word `i` does. */
  lemma OriginalJump(base: u64, words: seq<u32>, i: nat, s: State)
    requires base % 4 == 0 && base + 4 * |words| <= TWO64 && i < |words| && IsJump(words[i])
    requires s.pc == base + 4 * i
    ensures Step(Load(base, words), s)
         == Some(if IsBr(words[i]) then s.(pc := X(s, JumpReg(words[i])))
                 else Linked(s, X(s, JumpReg(words[i])), Wrap(s.pc + 4)))
  {
    var n := JumpReg(words[i]);
    JumpWords(words[i]);
    DecodeJump(n);
    StepAt(Load(base, words), s, i, if IsBr(words[i]) then Br(n) else Blr(n));
  }

  // ---------------------------------------------------------------------------------------------
  // Rewritten jumps keep their meaning.

  /** A rewritten site branches to shellcode with its own jump word, unless it is a `br` that found
      another register's shellcode cached. */
  lemma RewrittenSite(c: Config, st: Patch, f: nat, end: nat, i: nat) returns (loc: nat)
    requires Start(c, st, f, end) && f <= i < end && IsJump(st.img[i])
    requires Patched(c, st, f, end)[i] != st.img[i]
    requires IsBr(st.img[i]) ==> OneRegister(st.img, f, end)
    ensures Redirected(c.base, Patched(c, st, f, end), i, loc, c.platform, st.img[i])
  {
    var h := RunHistory(c, st, f, end);
    var k := RewrittenCopy(c, st.img, f, end, Patched(c, st, f, end), h, i);
    assert IsBr(st.img[i]) ==> Carries(st.img, f, h, i);
    loc := k.loc;
  }

  /** `br Xn` (n not 1): from any state at the site, the patched image reaches the state that the
      original instruction leads to, with x1 adjusted and the flags overwritten. */
  lemma BrPreserved(c: Config, st: Patch, f: nat, end: nat, i: nat, s: State)
    requires Start(c, st, f, end) && f <= i < end && IsJump(st.img[i]) && IsBr(st.img[i])
    requires OneRegister(st.img, f, end) && JumpReg(st.img[i]) != 1
    requires Patched(c, st, f, end)[i] != st.img[i] && s.pc == c.base + 4 * i
    ensures Step(Load(c.base, st.img), s).Some?
    ensures Run(Load(c.base, Patched(c, st, f, end)), s, 2 + CheckSteps(s))
         == Some(Checked(s, c.platform, Step(Load(c.base, st.img), s).value.pc))
  {
    var out := Patched(c, st, f, end);
    var n := JumpReg(st.img[i]);
    OriginalJump(c.base, st.img, i, s);
    var loc := RewrittenSite(c, st, f, end, i);
    LoadsBr(c.base, out, i, loc, c.platform, st.img[i]);
    BrRuns(Load(c.base, out), i, loc, c.platform, n, s);
    BrTarget(s, c.platform, n);
  }

  lemma BrTarget(s: State, platform: nat, n: nat)
    requires platform < 0x1_0000 && n < 32 && n != 1
    ensures X(Checked(s, platform, 0), n) == X(s, n)
  {
  }

  /** The shellcode of a `br` reads the register after adjusting x1, so it keeps every target exactly
      when the register is not x1. */
  lemma BrRegisterExact(platform: nat, n: nat)
    requires platform < 0x1_0000 && n < 32
    ensures (forall s: State :: X(Checked(s, platform, 0), n) == X(s, n)) <==> n != 1
  {
    if n == 1 {
      var s := AnyState(0, 0)[1 := 11 + platform];
      var t := State(0, s, 0, Flags(false, false, false, false), map[]);
      assert X(Checked(t, platform, 0), 1) == platform != X(t, 1);
    } else {
      forall s: State ensures X(Checked(s, platform, 0), n) == X(s, n) {
        BrTarget(s, platform, n);
      }
    }
  }

  function AnyState(v: u64, w: u64): Regs {
    seq(31, i => if i == 29 then v else w)
  }

  /** The state `e` is the callee's entry of the original call `o` from `s`, as seen through the
      shellcode: x1 adjusted, x29 and x30 set for the shellcode, a frame record of x29 and the
      original return address pushed, and all else as the original call has it. */
  ghost predicate EntersAs(s: State, o: State, e: State, platform: nat)
    requires platform < 0x1_0000
  {
    && e.pc == o.pc && e.sp == Wrap(o.sp - 16)
    && e.x == o.x[1 := NewX1(s, platform)][29 := e.sp][30 := e.x[30]]
    && e.mem == o.mem[e.sp := s.x[29]][Wrap(e.sp + 8) := o.x[30]]
  }

  /** What the callee finds on its stack.  Every doubleword of the caller's stack keeps its value; but it
      lies 16 bytes further from the stack pointer, where the frame record now is.  So the k-th
      stack-passed argument of the original call is the (k+2)-nd here, and the first two are the caller's
      x29 and the return address. */
  lemma StackArguments(s: State, o: State, e: State, platform: nat, k: nat)
    requires platform < 0x1_0000 && EntersAs(s, o, e, platform) && o.sp % 16 == 0
    requires o.sp + 8 * k < TWO64 && o.sp >= 16
    ensures Read(e.mem, e.sp + 8 * (k + 2)) == Read(o.mem, o.sp + 8 * k)
    ensures Read(e.mem, e.sp) == s.x[29] && Read(e.mem, e.sp + 8) == o.x[30]
  {
    assert e.sp == o.sp - 16 && Wrap(e.sp + 8) == e.sp + 8;
  }

  /** The first stack-passed argument is kept if and only if it is equal to the caller's x29. */
  lemma FirstStackArgument(s: State, o: State, e: State, platform: nat)
    requires platform < 0x1_0000 && EntersAs(s, o, e, platform) && o.sp % 16 == 0 && o.sp >= 16
    ensures Read(e.mem, e.sp) == Read(o.mem, o.sp) <==> Read(o.mem, o.sp) == s.x[29]
  {
    StackArguments(s, o, e, platform, 0);
  }

  /** A callee entered in `e` returns in `r` to its x30, with the stack pointer and the frame record
      as it was given them (AAPCS64 section 6.1.1). */
  ghost predicate ReturnsFrom(e: State, r: State) {
    && r.pc == e.x[30] && r.sp == e.sp && Read(r.mem, e.sp) == Read(e.mem, e.sp)
    && Read(r.mem, Wrap(e.sp + 8)) == Read(e.mem, Wrap(e.sp + 8))
  }

  /** The callee's result with sp, x29, x30 and the program counter of a return from the call `o`. */
  function Resumed(o: State, r: State): State {
    r.(pc := o.x[30], sp := o.sp, x := r.x[29 := o.x[29]][30 := o.x[30]])
  }

  /** `blr Xn` (n not 1, 29 or 30): the callee is entered where the original call enters it, and
      however it returns, execution resumes as after the original call. */
  lemma BlrPreserved(c: Config, st: Patch, f: nat, end: nat, i: nat, s: State) returns (e: State)
    requires Start(c, st, f, end) && f <= i < end && IsJump(st.img[i]) && !IsBr(st.img[i])
    requires JumpReg(st.img[i]) !in {1, 29, 30}
    requires Patched(c, st, f, end)[i] != st.img[i] && s.pc == c.base + 4 * i && s.sp % 16 == 0
    ensures Step(Load(c.base, st.img), s).Some?
    ensures var o := Step(Load(c.base, st.img), s).value;
      var p := Load(c.base, Patched(c, st, f, end));
      && Run(p, s, 4 + CheckSteps(s)) == Some(e) && EntersAs(s, o, e, c.platform)
      && forall r :: ReturnsFrom(e, r) ==> Run(p, r, 2) == Some(Resumed(o, r))
  {
    OriginalJump(c.base, st.img, i, s);
    var out, n := Patched(c, st, f, end), JumpReg(st.img[i]);
    var loc := RewrittenSite(c, st, f, end, i);
    LoadsBlr(c.base, out, i, loc, c.platform, st.img[i]);
    e := CallMeaning(Load(c.base, out), i, loc, c.platform, n, s);
  }

  lemma CallMeaning(p: Program, site: nat, loc: nat, platform: nat, n: nat, s: State)
    returns (e: State)
    requires BlrRedirected(p, site, loc, platform, n) && s.pc == p.Addr(site) && s.sp % 16 == 0
    requires n !in {1, 29, 30}
    ensures var o := Linked(s, X(s, n), Wrap(s.pc + 4));
      && Run(p, s, 4 + CheckSteps(s)) == Some(e) && EntersAs(s, o, e, platform)
      && forall r :: ReturnsFrom(e, r) ==> Run(p, r, 2) == Some(Resumed(o, r))
  {
    var o := Linked(s, X(s, n), Wrap(s.pc + 4));
    e := Entered(p, loc, n, BeforeCall(s, Wrap(s.pc + 4), platform, p.Addr(loc + 5)));
    EntryMeaning(p, loc, platform, n, s, o);
    ReturnMeaning(p, site, loc, platform, n, s, e);
    BlrCalls(p, site, loc, platform, n, s);
  }

  ghost predicate EntryRecord(p: Program, loc: nat, s: State, e: State)
    requires p.Valid() && loc + 6 < |p.code|
  {
    && e.sp == Wrap(s.sp - 16) && e.x[30] == p.Addr(loc + 6)
    && Read(e.mem, e.sp) == s.x[29] && Read(e.mem, Wrap(e.sp + 8)) == Wrap(s.pc + 4)
  }

  lemma EntryMeaning(p: Program, loc: nat, platform: nat, n: nat, s: State, o: State)
    requires p.Valid() && loc + 6 < |p.code| && n < 32 && n !in {1, 29, 30}
    requires platform < 0x1_0000 && s.sp % 16 == 0 && o == Linked(s, X(s, n), Wrap(s.pc + 4))
    ensures var e := Entered(p, loc, n, BeforeCall(s, Wrap(s.pc + 4), platform, p.Addr(loc + 5)));
      EntersAs(s, o, e, platform) && EntryRecord(p, loc, s, e)
  {
    BlrTarget(s, Wrap(s.pc + 4), platform, p.Addr(loc + 5), p.Addr(loc + 6), n);
    FrameRecord(s, Wrap(s.pc + 4), platform, p.Addr(loc + 5));
  }

  lemma ReturnMeaning(p: Program, site: nat, loc: nat, platform: nat, n: nat, s: State, e: State)
    requires BlrRedirected(p, site, loc, platform, n) && s.sp % 16 == 0 && EntryRecord(p, loc, s, e)
    ensures forall r :: ReturnsFrom(e, r) ==>
      Run(p, r, 2) == Some(Resumed(Linked(s, X(s, n), Wrap(s.pc + 4)), r))
  {
    forall r | ReturnsFrom(e, r)
      ensures Run(p, r, 2) == Some(Resumed(Linked(s, X(s, n), Wrap(s.pc + 4)), r))
    {
      BlrReturns(p, site, loc, platform, n, s, r);
    }
  }

  lemma BlrTarget(s: State, ret: u64, platform: nat, pc: u64, link: u64, n: nat)
    requires platform < 0x1_0000 && n < 32 && n !in {1, 29, 30}
    ensures var b := BeforeCall(s, ret, platform, pc);
      && X(b, n) == X(s, n) && b.sp == Wrap(s.sp - 16)
      && b.x[30 := link] == s.x[30 := ret][1 := NewX1(s, platform)][29 := b.sp][30 := link]
      && b.mem == s.mem[b.sp := s.x[29]][Wrap(b.sp + 8) := ret]
  {
  }

  lemma FrameRecord(s: State, ret: u64, platform: nat, pc: u64)
    requires platform < 0x1_0000 && s.sp % 16 == 0
    ensures var b := BeforeCall(s, ret, platform, pc);
      && b.sp == Wrap(s.sp - 16) && Read(b.mem, b.sp) == s.x[29] && Read(b.mem, Wrap(b.sp + 8)) == ret
  {
    AlignedPush(s.sp);
  }

  /** The shellcode of a `blr` reads the register after the frame is pushed and x1 adjusted, so it
      keeps every target exactly when the register is not x1, x29 or x30. */
  lemma BlrRegisterExact(platform: nat, n: nat)
    requires platform < 0x1_0000 && n < 32
    ensures (forall s: State, ret: u64 :: X(BeforeCall(s, ret, platform, 0), n) == X(s, n))
       <==> n !in {1, 29, 30}
  {
    if n in {1, 29, 30} {
      var regs := AnyState(7, 3)[1 := 11 + platform];
      var t := State(0, regs, 64, Flags(false, false, false, false), map[]);
      assert X(BeforeCall(t, 5, platform, 0), n) != X(t, n);
    } else {
      forall s: State, ret: u64 ensures X(BeforeCall(s, ret, platform, 0), n) == X(s, n) {
        BlrTarget(s, ret, platform, 0, 0, n);
      }
    }
  }

  // ---------------------------------------------------------------------------------------------
  // Following a rewritten site, and when the shared shellcode is the right one.

  /** Word `s` of the image is the branch to word `loc`. */
  ghost predicate Leads(base: u64, out: seq<u32>, s: nat, loc: nat, link: bool) {
    && s < |out| && loc < |out| && |out| <= 0x200_0000 && base + 4 * |out| <= TWO64
    && out[s] == BranchWord(base, s, loc, link)
  }

  /** No copy begins like a veneer. */
  lemma CopyIsNoVeneer(platform: nat, jmp: u32)
    requires platform < 0x1_0000
    ensures !MaskMatch(ShellcodeFor(platform, jmp)[0], 0x9000_0010, 0x9f00_001f)
  {
    var w := ShellcodeFor(platform, jmp)[0];
    assert w == CMP_X1_10 || w == PUSH_FP_LR;
    NoVeneer(w);
  }

  lemma NoVeneer(w: u32)
    requires w / 0x100_0000 % 32 != 16
    ensures !MaskMatch(w, 0x9000_0010, 0x9f00_001f)
  {
    VeneerMask(w);
  }

  lemma VeneerMask(w: u32)
    ensures And(w, 0x9f00_001f) / 0x100_0000 % 32 == w / 0x100_0000 % 32
  {
    var top, v := w / 0x8000_0000, w % 0x8000_0000;
    assert And(w, 0x9f00_001f) == top % 2 * 0x8000_0000 + And(v, 0x1f00_001f) by {
      Pow2Values();
      MaskBlock(w, 0x9f00_001f, 31, 1, 0x1f00_001f, 0x8000_0000, 2);
    }
    var u := v % 0x100_0000;
    assert And(v, 0x1f00_001f) == v / 0x100_0000 % 32 * 0x100_0000 + And(u, 0x1f) by {
      Pow2Values();
      MaskBlock(v, 0x1f00_001f, 24, 5, 0x1f, 0x100_0000, 32);
    }
    assert And(u, 0x1f) == u % 32 by { MaskEnd(u, 0x1f, 5, 32); }
    VeneerFields(w);
  }

  lemma VeneerFields(w: u32)
    ensures var f := w % 0x8000_0000 / 0x100_0000 % 32;
      var r := w / 0x8000_0000 % 2 * 0x8000_0000 + (f * 0x100_0000 + w % 0x8000_0000 % 0x100_0000 % 32);
      r / 0x100_0000 % 32 == w / 0x100_0000 % 32
  {
    var top, f, lo := w / 0x8000_0000 % 2, w % 0x8000_0000 / 0x100_0000 % 32,
      w % 0x8000_0000 % 0x100_0000 % 32;
    DivModUnique(top * 0x8000_0000 + (f * 0x100_0000 + lo), 0x100_0000, top * 0x80 + f, lo);
    DivModUnique(top * 0x80 + f, 32, top * 4, f);
    assert w % 0x8000_0000 / 0x100_0000 == w / 0x100_0000 % 0x80 by { DivModSplit(w, 0x100_0000, 0x80); }
    assert w / 0x100_0000 % 0x80 % 32 == w / 0x100_0000 % 32 by { DivModSplit(w / 0x100_0000, 32, 4); }
  }

  /** `pf_follow_branch` on a rewritten site returns the start of the shellcode copy that the site
      branches to. */
  lemma FollowPatched(c: Config, st: Patch, f: nat, end: nat, i: nat, resolve: int -> int)
    returns (loc: nat, jmp: u32)
    requires Start(c, st, f, end) && f <= i < end && Patched(c, st, f, end)[i] != st.img[i]
    ensures FollowBranch(Patched(c, st, f, end), i, resolve) == Some(loc)
    ensures CodeAt(Patched(c, st, f, end), loc, ShellcodeFor(c.platform, jmp))
    ensures !IsBr(st.img[i]) ==> jmp == st.img[i]
  {
    var h := RunHistory(c, st, f, end);
    var k := RewrittenCopy(c, st.img, f, end, Patched(c, st, f, end), h, i);
    loc, jmp := k.loc, k.jmp;
    FollowCopy(c.base, Patched(c, st, f, end), i, loc, !IsBr(st.img[i]), c.platform, jmp, resolve);
  }

  lemma FollowCopy(base: u64, out: seq<u32>, i: nat, loc: nat, link: bool, platform: nat, jmp: u32,
                   resolve: int -> int)
    requires Leads(base, out, i, loc, link) && platform < 0x1_0000
    requires CodeAt(out, loc, ShellcodeFor(platform, jmp))
    ensures FollowBranch(out, i, resolve) == Some(loc)
  {
    FirstWordIsNoVeneer(out, loc, platform, jmp);
    FollowLeads(base, out, i, loc, link);
  }

  lemma FollowLeads(base: u64, out: seq<u32>, i: nat, loc: nat, link: bool)
    requires Leads(base, out, i, loc, link)
    ensures BranchDisplacement(out[i]) == Some(loc - i)
  {
    BranchWordFollows(base, i, loc, link);
  }

  lemma FirstWordIsNoVeneer(out: seq<u32>, loc: nat, platform: nat, jmp: u32)
    requires platform < 0x1_0000 && CodeAt(out, loc, ShellcodeFor(platform, jmp))
    ensures loc + 4 <= |out| && !MaskMatch(out[loc], 0x9000_0010, 0x9f00_001f)
  {
    CodeAtIndex(out, loc, ShellcodeFor(platform, jmp), 0);
    CopyIsNoVeneer(platform, jmp);
  }

  /** The branch at `s` leads to shellcode that carries the jump that was at `s`. */
  ghost predicate OwnCopy(c: Config, img: seq<u32>, out: seq<u32>, s: nat)
    requires c.platform < 0x1_0000 && s < |out| == |img|
  {
    exists loc :: Leads(c.base, out, s, loc, !IsBr(img[s]))
               && CodeAt(out, loc, ShellcodeFor(c.platform, img[s]))
  }

  /** Two copies at one place carry the same jump. */
  lemma SameCopy(c: Config, out: seq<u32>, loc: nat, v: u32, w: u32)
    requires c.platform < 0x1_0000
    requires CodeAt(out, loc, ShellcodeFor(c.platform, v))
    requires CodeAt(out, loc, ShellcodeFor(c.platform, w))
    ensures v == w
  {
    CodeAtIndex(out, loc, ShellcodeFor(c.platform, v), 0);
    CodeAtIndex(out, loc, ShellcodeFor(c.platform, w), 0);
    var k := if IsBr(v) then 3 else 5;
    CodeAtIndex(out, loc, ShellcodeFor(c.platform, v), k);
    CodeAtIndex(out, loc, ShellcodeFor(c.platform, w), k);
  }

  ghost predicate AllJumpsChanged(orig: seq<u32>, f: nat, end: nat, out: seq<u32>)
    requires f <= end <= |orig| == |out|
  {
    forall s :: f <= s < end && IsJump(orig[s]) ==> out[s] != orig[s]
  }

  /** When every jump of the region is rewritten, every site leads to its own jump exactly when no
      `br` comes after a different jump: the cached location is reused for `br` whatever its
      register. */
  lemma SharedCacheExact(c: Config, st: Patch, f: nat, end: nat)
    requires Start(c, st, f, end) && AllJumpsChanged(st.img, f, end, Patched(c, st, f, end))
    ensures (forall s :: f <= s < end && IsJump(st.img[s]) ==>
              OwnCopy(c, st.img, Patched(c, st, f, end), s)) <==> OneRegister(st.img, f, end)
  {
    var h := RunHistory(c, st, f, end);
    forall s | f <= s < end && IsJump(st.img[s])
      ensures OwnCopy(c, st.img, Patched(c, st, f, end), s)
         <==> (IsBr(st.img[s]) ==> Carried(st.img, f, s) in {None, Some(st.img[s])})
    {
      OwnExact(c, st.img, f, end, Patched(c, st, f, end), h, s);
    }
  }

  lemma OwnExact(c: Config, orig: seq<u32>, f: nat, end: nat, out: seq<u32>, h: History, s: nat)
    requires Setup(c, orig, f, end) && Outcome(c, orig, f, end, out, h)
    requires AllJumpsChanged(orig, f, end, out) && f <= s < end && IsJump(orig[s])
    ensures OwnCopy(c, orig, out, s)
       <==> (IsBr(orig[s]) ==> Carried(orig, f, s) in {None, Some(orig[s])})
  {
    forall m | f <= m < end && IsJump(orig[m]) ensures m in h.sites {
      var _ := RewrittenCopy(c, orig, f, end, out, h, m);
    }
    assert AllRewritten(orig, f, end, h) && Carries(orig, f, h, s);
    var k := RewrittenCopy(c, orig, f, end, out, h, s);
    OwnIsCarried(c, orig, f, end, out, h, s, k);
  }

  lemma OwnIsCarried(c: Config, orig: seq<u32>, f: nat, end: nat, out: seq<u32>, h: History, s: nat,
                     k: Copied)
    requires c.platform < 0x1_0000 && |out| == |orig| <= 0x200_0000 && s in h.sites
    requires SiteOk(c, orig, f, end, out, h, s) && k == h.copies[h.sites[s]]
    requires CopyOk(c, orig, f, end, out, k)
    ensures OwnCopy(c, orig, out, s) <==> k.jmp == orig[s]
  {
    assert Leads(c.base, out, s, k.loc, !IsBr(orig[s]));
    if OwnCopy(c, orig, out, s) {
      var loc :| Leads(c.base, out, s, loc, !IsBr(orig[s]))
              && CodeAt(out, loc, ShellcodeFor(c.platform, orig[s]));
      BranchWordInjective(c.base, s, loc, k.loc, !IsBr(orig[s]));
      SameCopy(c, out, k.loc, k.jmp, orig[s]);
    }
  }

  /** Where it goes wrong: at a `br` that finds another jump's shellcode cached, such as the second
      of `br x2` and `br x3`. */
  lemma SharedShellcodeLost(c: Config, st: Patch, f: nat, end: nat, i: nat)
    requires Start(c, st, f, end) && AllJumpsChanged(st.img, f, end, Patched(c, st, f, end))
    requires f <= i < end && IsJump(st.img[i]) && IsBr(st.img[i])
    requires Carried(st.img, f, i).Some? && Carried(st.img, f, i).value != st.img[i]
    ensures !OwnCopy(c, st.img, Patched(c, st, f, end), i)
  {
    var h := RunHistory(c, st, f, end);
    OwnExact(c, st.img, f, end, Patched(c, st, f, end), h, i);
  }
}
