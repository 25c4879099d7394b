/** The mask test, the branch encoder and the immediate decoders of the patch finder
    (plooshfinder32.c, plooshfinder64.c, arm64.c, plooshfinder.c).

    Pointers are byte addresses; a code buffer is a sequence of 32-bit words indexed from its start. */
module Arm64 {
  import opened Bits
  import opened Wrappers

  /** `pf_maskmatch32`. */
  predicate MaskMatch(insn: u32, match_: u32, mask: u32) {
    And(insn, mask) == match_
  }

  const BR: u32 := 0xd61f0000
  const BLR: u32 := 0xd63f0000
  const B: u32 := 0x14000000
  const BL: u32 := 0x94000000

  /** `br Xn` and `blr Xn` as words (Arm ARM C6.2, BR and BLR). */
  function BrWord(n: nat): u32
    requires n < 32
  {
    BR + 32 * n
  }

  function BlrWord(n: nat): u32
    requires n < 32
  {
    BLR + 32 * n
  }

  /** The mask the platform patch searches with, and the one that tells `br` from `blr`. */
  predicate IsJump(w: u32) { MaskMatch(w, BR, 0xffdffc1f) }

  predicate IsBr(w: u32) { MaskMatch(w, BR, 0xfffffc1f) }

  function JumpReg(w: u32): (n: nat)
    ensures n < 32
  {
    w / 32 % 32
  }

  lemma BrMask(w: u32)
    ensures And(w, 0xfffffc1f) == w / 0x400 * 0x400 + w % 32
  {
    assert And(w, 0xfffffc1f) == w / 0x400 % 0x40_0000 * 0x400 + And(w % 0x400, 0x1f) by {
      Pow2Values();
      MaskBlock(w, 0xfffffc1f, 10, 22, 0x1f, 0x400, 0x40_0000);
    }
    assert w / 0x400 % 0x40_0000 == w / 0x400 by { SmallMod(w / 0x400, 0x40_0000); }
    assert And(w % 0x400, 0x1f) == w % 0x400 % 32 by { MaskEnd(w % 0x400, 0x1f, 5, 0x20); }
    assert w % 0x400 % 32 == w % 32 by { DivModSplit(w, 32, 32); }
  }

  lemma JumpMask(w: u32)
    ensures And(w, 0xffdffc1f) == w / 0x40_0000 * 0x40_0000 + w / 0x400 % 0x800 * 0x400 + w % 32
  {
    var v := w % 0x40_0000;
    assert And(w, 0xffdffc1f) == w / 0x40_0000 % 0x400 * 0x40_0000 + And(v, 0x1ffc1f) by {
      Pow2Values();
      MaskBlock(w, 0xffdffc1f, 22, 10, 0x1ffc1f, 0x40_0000, 0x400);
    }
    assert And(v, 0x1ffc1f) == v / 0x400 % 0x800 * 0x400 + And(v % 0x400, 0x1f) by {
      Pow2Values();
      MaskBlock(v, 0x1ffc1f, 10, 11, 0x1f, 0x400, 0x800);
    }
    assert And(v % 0x400, 0x1f) == v % 0x400 % 32 by { MaskEnd(v % 0x400, 0x1f, 5, 0x20); }
    assert w / 0x40_0000 % 0x400 == w / 0x40_0000 by { SmallMod(w / 0x40_0000, 0x400); }
    LowFields(w);
  }

  lemma LowFields(w: u32)
    ensures w % 0x40_0000 / 0x400 % 0x800 == w / 0x400 % 0x800
    ensures w % 0x40_0000 % 0x400 % 32 == w % 32
  {
    DivModSplit(w, 0x400, 0x1000);
    DivModSplit(w, 32, 32);
    DivModSplit(w / 0x400, 0x800, 2);
  }

  lemma WordFields(w: u32)
    ensures w == w / 0x400 * 0x400 + JumpReg(w) * 32 + w % 32
    ensures w / 0x400 == w / 0x40_0000 * 0x1000 + w / 0x20_0000 % 2 * 0x800 + w / 0x400 % 0x800
  {
    DivModSplit(w, 32, 32);
    DivModSplit(w, 0x400, 0x800);
    DivModSplit(w, 0x20_0000, 2);
  }

  /** The two masks select exactly the register-indirect jumps: `br Xn` or `blr Xn`, and `br Xn`. */
  lemma JumpWords(w: u32)
    ensures IsBr(w) <==> w == BrWord(JumpReg(w))
    ensures IsJump(w) && !IsBr(w) <==> w == BlrWord(JumpReg(w))
  {
    BrMask(w);
    JumpMask(w);
    WordFields(w);
    JumpCases(w, JumpReg(w), w / 0x20_0000 % 2);
  }

  lemma JumpCases(w: u32, n: nat, bit: nat)
    requires n < 32 && bit < 2 && bit == w / 0x20_0000 % 2
    ensures w - 32 * n == BR <==> w == BrWord(n)
    ensures w - 32 * n - bit * 0x20_0000 == BR <==> w == BrWord(n) || w == BlrWord(n)
  {
  }

  // ---------------------------------------------------------------------------------------------
  // Branch encoding and decoding.

  /** `target - caller` on byte pointers: a signed 64-bit difference. */
  function PtrDiff(target: u64, caller: u64): int {
    SignExtend((target - caller) % TWO64, 64)
  }

  /** `arm64_branch`: the difference in words, cut to the 26-bit field, under the opcode. */
  function Arm64Branch(caller: u64, target: u64, link: bool): u32 {
    var insn: nat := if link then Or(B, 0x8000_0000) else B;
    var offset: u32 := PtrDiff(target, caller) / 4 % TWO32;
    BranchFieldValue(offset, link);
    Or(insn, Shr(Shl(offset, 6) % TWO32, 6))
  }

  lemma BranchFieldValue(offset: u32, link: bool)
    ensures Shr(Shl(offset, 6) % TWO32, 6) == offset % 0x400_0000
    ensures Or(if link then Or(B, 0x8000_0000) else B, Shr(Shl(offset, 6) % TWO32, 6))
         == (if link then BL else B) + offset % 0x400_0000
  {
    FieldShift(offset);
    OpcodeOr(offset % 0x400_0000);
  }

  lemma FieldShift(offset: u32)
    ensures Shr(Shl(offset, 6) % TWO32, 6) == offset % 0x400_0000
  {
    Pow2Values();
    var f := offset % 0x400_0000;
    assert Shl(offset, 6) % TWO32 == f * 0x40 by {
      ShlIsMul(offset, 6);
      ModScale(offset, 0x400_0000, 0x40);
    }
    ShrIsDiv(f * 0x40, 6);
  }

  lemma OpcodeOr(f: nat)
    requires f < 0x400_0000
    ensures Or(B, f) == B + f && Or(BL, f) == BL + f && Or(B, 0x8000_0000) == BL
  {
    Pow2Values();
    assert Shl(5, 26) == B by { ShlIsMul(5, 26); }
    assert Shl(37, 26) == BL by { ShlIsMul(37, 26); }
    OrDisjoint(5, f, 26);
    OrDisjoint(37, f, 26);
    assert Shl(1, 31) == 0x8000_0000 by { ShlIsMul(1, 31); }
    OrDisjoint(1, B, 31);
    OrComm(B, 0x8000_0000);
  }

  lemma BranchValue(caller: u64, target: u64, link: bool)
    ensures Arm64Branch(caller, target, link)
         == (if link then BL else B) + PtrDiff(target, caller) / 4 % TWO32 % 0x400_0000
  {
    BranchFieldValue(PtrDiff(target, caller) / 4 % TWO32, link);
  }

  /** `pf_signextend_32`: shift the low bits to the top of the word and arithmetically back. */
  function PfSignExtend32(val: u32, bits: nat): int
    requires 0 < bits <= 32
  {
    Asr(ToSigned(Shl(val, 32 - bits), 32), 32 - bits)
  }

  /** `pf_signextend_64`. */
  function PfSignExtend64(val: u64, bits: nat): int
    requires 0 < bits <= 64
  {
    Asr(ToSigned(Shl(val, 64 - bits), 64), 64 - bits)
  }

  /** The displacement, in words, that `pf_follow_branch` reads from a branch word. */
  function BranchDisplacement(branch: u32): Option<int> {
    if MaskMatch(branch, 0x5400_0000, 0xff00_0010) then Some(PfSignExtend32(branch, 19))
    else if MaskMatch(branch, 0x1400_0000, 0x7c00_0000) then Some(PfSignExtend32(branch, 26))
    else None
  }

  /** `pf_follow_veneer`: the word index itself, unless the three words there are a stub
      `adrp x16; ldr x16, [x16, _]; br x16`, which `resolve` looks through. */
  function FollowVeneer(words: seq<u32>, j: int, resolve: int -> int): int
    requires 0 <= j < |words|
    requires MaskMatch(words[j], 0x9000_0010, 0x9f00_001f) ==> j + 2 < |words|
  {
    if !MaskMatch(words[j], 0x9000_0010, 0x9f00_001f) then j
    else if !MaskMatch(words[j + 1], 0xf940_0210, 0xffc0_03ff) then j
    else if !MaskMatch(words[j + 2], 0xd61f_0200, 0xffff_ffff) then j
    else resolve(j)
  }

  /** `pf_follow_branch` at word `i`: none where the code returns a null pointer for a word that is no
      branch, or where the words of a possible veneer are not all in the image. */
  function FollowBranch(words: seq<u32>, i: nat, resolve: int -> int): Option<int>
    requires i < |words|
  {
    var d := BranchDisplacement(words[i]);
    if d.None? || i + d.value < 0 || i + d.value + 2 >= |words| then None
    else Some(FollowVeneer(words, i + d.value, resolve))
  }

  lemma BranchMasks(w: u32)
    ensures And(w, 0xff00_0010) == w / 0x100_0000 * 0x100_0000 + w / 16 % 2 * 16
    ensures And(w, 0x7c00_0000) == w / 0x400_0000 % 32 * 0x400_0000
  {
    var top, v := w / 0x100_0000, w % 0x100_0000;
    assert And(w, 0xff00_0010) == top % 0x100 * 0x100_0000 + And(v, 0x10) by {
      Pow2Values();
      MaskBlock(w, 0xff00_0010, 24, 8, 0x10, 0x100_0000, 0x100);
    }
    assert top % 0x100 == top by { SmallMod(top, 0x100); }
    BitFour(w);
    assert And(w, 0x7c00_0000) == w / 0x400_0000 % 32 * 0x400_0000 + And(w % 0x400_0000, 0) by {
      Pow2Values();
      MaskBlock(w, 0x7c00_0000, 26, 5, 0, 0x400_0000, 32);
    }
  }

  lemma BitFour(w: u32)
    ensures And(w % 0x100_0000, 0x10) == w / 16 % 2 * 16
  {
    var v := w % 0x100_0000;
    assert And(v, 0x10) == v / 16 % 2 * 16 + And(v % 16, 0) by {
      MaskBlock(v, 0x10, 4, 1, 0, 16, 2);
    }
    assert v / 16 == w / 16 % 0x10_0000 by { DivModSplit(w, 16, 0x10_0000); }
    assert w / 16 % 0x10_0000 % 2 == w / 16 % 2 by { DivModSplit(w / 16, 2, 0x8_0000); }
  }

  /** The words that are followed: B.cond (bits 31 to 24 are 0x54, bit 4 is 0), B and BL (bits 30 to 26
      are 5). */
  lemma BranchWords(w: u32)
    ensures BranchDisplacement(w).Some?
       <==> (w / 0x100_0000 == 0x54 && w / 16 % 2 == 0) || w / 0x400_0000 % 32 == 5
  {
    BranchMasks(w);
    assert w / 0x100_0000 < 0x100;
  }

  /** B.cond (Arm ARM C6.2): a 19-bit word displacement above the condition. */
  function CondBranchWord(imm19: nat, cond: nat): u32
    requires imm19 < 0x8_0000 && cond < 16
  {
    0x5400_0000 + imm19 * 32 + cond
  }

  /** The displacement of a B.cond is read from the low 19 bits of the word, the condition included:
      it is right only where both happen to agree modulo 2^19. */
  lemma CondBranchExact(imm19: nat, cond: nat)
    requires imm19 < 0x8_0000 && cond < 16
    ensures BranchDisplacement(CondBranchWord(imm19, cond))
         == Some(SignExtend((imm19 * 32 + cond) % 0x8_0000, 19))
    ensures BranchDisplacement(CondBranchWord(imm19, cond)) == Some(SignExtend(imm19, 19))
       <==> (31 * imm19 + cond) % 0x8_0000 == 0
  {
    var w, low := CondBranchWord(imm19, cond), (imm19 * 32 + cond) % 0x8_0000;
    CondBranchParts(w, imm19, cond);
    CondBranchReads(w, low);
    SignExtendInjective(low, imm19);
    SameLow(imm19, cond);
  }

  lemma CondBranchReads(w: u32, low: nat)
    requires w / 0x100_0000 == 0x54 && w / 16 % 2 == 0 && w % 0x8_0000 == low
    ensures BranchDisplacement(w) == Some(SignExtend(low, 19))
  {
    assert MaskMatch(w, 0x5400_0000, 0xff00_0010) by { BranchMasks(w); }
    assert Low(w, 19) == low by {
      LowIsMod(w, 19);
      Pow2Values();
    }
    ShiftUpDown(w, 19, 32);
  }

  lemma CondBranchParts(w: u32, imm19: nat, cond: nat)
    requires imm19 < 0x8_0000 && cond < 16 && w == 0x5400_0000 + imm19 * 32 + cond
    ensures w / 0x100_0000 == 0x54 && w / 16 % 2 == 0
    ensures w % 0x8_0000 == (imm19 * 32 + cond) % 0x8_0000
  {
    assert w / 16 == 0x540_0000 + imm19 * 2;
    DivModUnique(w, 0x8_0000, 0xa80 + (imm19 * 32 + cond) / 0x8_0000, (imm19 * 32 + cond) % 0x8_0000);
  }

  lemma SignExtendInjective(x: nat, y: nat)
    requires x < 0x8_0000 && y < 0x8_0000
    ensures SignExtend(x, 19) == SignExtend(y, 19) <==> x == y
  {
    Pow2Values();
    assert Pow2(18) == 0x4_0000;
  }

  lemma SameLow(imm19: nat, cond: nat)
    requires imm19 < 0x8_0000 && cond < 16
    ensures (imm19 * 32 + cond) % 0x8_0000 == imm19 <==> (31 * imm19 + cond) % 0x8_0000 == 0
  {
    var v := 31 * imm19 + cond;
    if v % 0x8_0000 == 0 {
      DivModUnique(v + imm19, 0x8_0000, v / 0x8_0000, imm19);
    } else if (v + imm19) % 0x8_0000 == imm19 {
      DivModUnique(v, 0x8_0000, (v + imm19) / 0x8_0000, 0);
    }
  }

  /** Every encoded branch is read back as the sign-extended 26-bit word difference. */
  lemma BranchReadsBack(caller: u64, target: u64, link: bool)
    ensures BranchDisplacement(Arm64Branch(caller, target, link))
         == Some(SignExtend(PtrDiff(target, caller) / 4 % TWO32 % 0x400_0000, 26))
  {
    var w := Arm64Branch(caller, target, link);
    BranchValue(caller, target, link);
    BranchOpcodeReads(w, PtrDiff(target, caller) / 4 % TWO32 % 0x400_0000, link);
  }

  lemma BranchOpcodeReads(w: u32, f: nat, link: bool)
    requires f < 0x400_0000 && w == (if link then BL else B) + f
    ensures BranchDisplacement(w) == Some(SignExtend(f, 26))
  {
    BranchOpcode(w, f, link);
    assert !MaskMatch(w, 0x5400_0000, 0xff00_0010) && MaskMatch(w, 0x1400_0000, 0x7c00_0000) by {
      BranchMasks(w);
    }
    assert Low(w, 26) == f by {
      LowIsMod(w, 26);
      Pow2Values();
    }
    assert PfSignExtend32(w, 26) == SignExtend(f, 26) by { ShiftUpDown(w, 26, 32); }
  }

  lemma BranchOpcode(w: u32, f: nat, link: bool)
    requires f < 0x400_0000 && w == (if link then BL else B) + f
    ensures w / 0x400_0000 % 32 == 5 && w % 0x400_0000 == f
    ensures w / 0x100_0000 != 0x54
  {
  }

  /** Decoding an encoded branch gives back the target exactly when the word-aligned displacement
      fits the signed 28-bit byte range of B and BL. */
  lemma BranchRoundTrip(caller: u64, target: u64, link: bool)
    requires PtrDiff(target, caller) % 4 == 0
    ensures BranchDisplacement(Arm64Branch(caller, target, link)).Some?
    ensures 4 * BranchDisplacement(Arm64Branch(caller, target, link)).value == PtrDiff(target, caller)
       <==> -0x800_0000 <= PtrDiff(target, caller) < 0x800_0000
  {
    BranchReadsBack(caller, target, link);
    Field26(PtrDiff(target, caller) / 4);
  }

  lemma Field26(d: int)
    ensures SignExtend(d % TWO32 % 0x400_0000, 26) == d <==> -0x200_0000 <= d < 0x200_0000
  {
    FieldOf(d);
    var r := d % 0x400_0000;
    assert SignExtend(r, 26) == if r < 0x200_0000 then r else r - 0x400_0000 by { Pow2Values(); }
    FieldRange(d, d / 0x400_0000, r);
  }

  /** The low 26 bits of a word are those of the number. */
  lemma FieldOf(d: int)
    ensures d % TWO32 % 0x400_0000 == d % 0x400_0000
  {
    var q, r := d / TWO32, d % TWO32;
    var m, s := r / 0x400_0000, r % 0x400_0000;
    assert d == q * TWO32 + r && r == m * 0x400_0000 + s;
    DivModUnique(d, 0x400_0000, q * 64 + m, s);
  }

  lemma FieldRange(d: int, q: int, r: int)
    requires d == q * 0x400_0000 + r && 0 <= r < 0x400_0000
    ensures d == (if r < 0x200_0000 then r else r - 0x400_0000) <==> -0x200_0000 <= d < 0x200_0000
  {
  }

  // ---------------------------------------------------------------------------------------------
  // ADRP and ADD (immediate).

  /** `pf_adrp_offset`. */
  function PfAdrpOffset(adrp: u32): int {
    if !MaskMatch(adrp, 0x9000_0000, 0x9f00_0000) then 0
    else
      var immhi := Shl(And(Shr(adrp, 5), 0x7_ffff), 2);
      var immlo := And(Shr(adrp, 29), 3);
      AdrpFields(adrp);
      PfSignExtend64(Shl(Or(immhi, immlo), 12), 33)
  }

  /** The 21-bit page number that an ADRP word holds. */
  function AdrpImm(w: u32): (r: nat)
    ensures r < 0x20_0000
  {
    w / 32 % 0x8_0000 * 4 + w / 0x2000_0000 % 4
  }

  lemma AdrpFields(w: u32)
    ensures Or(Shl(And(Shr(w, 5), 0x7_ffff), 2), And(Shr(w, 29), 3)) == AdrpImm(w)
    ensures Shl(AdrpImm(w), 12) == AdrpImm(w) * 0x1000
  {
    Pow2Values();
    var hi, lo := w / 32 % 0x8_0000, w / 0x2000_0000 % 4;
    assert And(Shr(w, 5), 0x7_ffff) == hi by {
      ShrIsDiv(w, 5);
      MaskEnd(w / 32, 0x7_ffff, 19, 0x8_0000);
    }
    assert And(Shr(w, 29), 3) == lo by {
      ShrIsDiv(w, 29);
      MaskEnd(w / 0x2000_0000, 3, 2, 4);
    }
    ShlIsMul(hi, 2);
    OrDisjoint(hi, lo, 2);
    ShlIsMul(AdrpImm(w), 12);
  }

  lemma AdrpOffsetValue(w: u32)
    requires MaskMatch(w, 0x9000_0000, 0x9f00_0000)
    ensures PfAdrpOffset(w) == 0x1000 * SignExtend(AdrpImm(w), 21)
  {
    var v := AdrpImm(w) * 0x1000;
    AdrpFields(w);
    ShiftUpDown(v, 33, 64);
    Pow2Values();
    assert Low(v, 33) == v by {
      LowIsMod(v, 33);
      SmallMod(v, 0x2_0000_0000);
    }
  }

  /** Whatever the word, the offset is a whole number of pages within plus or minus 4 GiB. */
  lemma AdrpOffsetRange(w: u32)
    ensures PfAdrpOffset(w) % 0x1000 == 0 && -TWO32 <= PfAdrpOffset(w) < TWO32
  {
    if MaskMatch(w, 0x9000_0000, 0x9f00_0000) {
      var pages := SignExtend(AdrpImm(w), 21);
      AdrpOffsetValue(w);
      assert -0x10_0000 <= pages < 0x10_0000 by { Signed21(AdrpImm(w)); }
      WholePages(pages);
    }
  }

  lemma WholePages(pages: int)
    requires -0x10_0000 <= pages < 0x10_0000
    ensures 0x1000 * pages % 0x1000 == 0 && -TWO32 <= 0x1000 * pages < TWO32
  {
  }

  lemma Signed21(x: nat)
    requires x < 0x20_0000
    ensures -0x10_0000 <= SignExtend(x, 21) < 0x10_0000
    ensures SignExtend(x, 21) == if x < 0x10_0000 then x else x - 0x20_0000
  {
    Pow2Values();
  }

  /** ADRP Xd (Arm ARM C6.2, ADRP): `pages` is the signed 21-bit page displacement. */
  function AdrpWord(rd: nat, pages: int): u32
    requires rd < 32 && -0x10_0000 <= pages < 0x10_0000
  {
    var imm := pages % 0x20_0000;
    0x9000_0000 + imm % 4 * 0x2000_0000 + imm / 4 * 32 + rd
  }

  /** ADD Xd, Xn, #imm12{, LSL #12} (Arm ARM C6.2, ADD immediate). */
  function AddWord(rd: nat, rn: nat, imm12: nat, shift12: bool): u32
    requires rd < 32 && rn < 32 && imm12 < 0x1000
  {
    0x9100_0000 + (if shift12 then 0x40_0000 else 0) + imm12 * 0x400 + rn * 32 + rd
  }

  lemma AdrpWordFields(rd: nat, pages: int)
    requires rd < 32 && -0x10_0000 <= pages < 0x10_0000
    ensures MaskMatch(AdrpWord(rd, pages), 0x9000_0000, 0x9f00_0000)
    ensures SignExtend(AdrpImm(AdrpWord(rd, pages)), 21) == pages
  {
    var w, imm := AdrpWord(rd, pages), pages % 0x20_0000;
    assert imm / 4 < 0x8_0000 && imm == imm / 4 * 4 + imm % 4;
    AdrpWordParts(w, imm % 4, imm / 4, rd);
    AdrpMask(w);
    PagesField(pages);
  }

  lemma PagesField(pages: int)
    requires -0x10_0000 <= pages < 0x10_0000
    ensures SignExtend(pages % 0x20_0000, 21) == pages
  {
    Signed21(pages % 0x20_0000);
  }

  lemma AdrpWordParts(w: u32, lo: nat, hi: nat, rd: nat)
    requires lo < 4 && hi < 0x8_0000 && rd < 32
    requires w == 0x9000_0000 + lo * 0x2000_0000 + hi * 32 + rd
    ensures w / 0x8000_0000 == 1 && w / 0x100_0000 % 32 == 16
    ensures w / 0x2000_0000 % 4 == lo && w / 32 % 0x8_0000 == hi
  {
    assert w / 0x2000_0000 == 4 + lo;
    assert w / 32 == 0x480_0000 + lo * 0x100_0000 + hi;
    assert w / 32 == (0x90 + lo * 0x20) * 0x8_0000 + hi;
    DivModUnique(w / 32, 0x8_0000, 0x90 + lo * 0x20, hi);
    DivModSplit(w, 32, 0x8_0000);
    assert w / 0x100_0000 == 0x90 + lo * 0x20;
  }

  lemma AdrpMask(w: u32)
    ensures And(w, 0x9f00_0000) == w / 0x8000_0000 * 0x8000_0000 + w / 0x100_0000 % 32 * 0x100_0000
  {
    var top, v := w / 0x8000_0000, w % 0x8000_0000;
    assert And(w, 0x9f00_0000) == top % 2 * 0x8000_0000 + And(v, 0x1f00_0000) by {
      Pow2Values();
      MaskBlock(w, 0x9f00_0000, 31, 1, 0x1f00_0000, 0x8000_0000, 2);
    }
    assert top % 2 == top by { SmallMod(top, 2); }
    assert And(v, 0x1f00_0000) == v / 0x100_0000 % 32 * 0x100_0000 + And(v % 0x100_0000, 0) by {
      Pow2Values();
      MaskBlock(v, 0x1f00_0000, 24, 5, 0, 0x100_0000, 32);
    }
    assert v / 0x100_0000 == w / 0x100_0000 % 0x80 by { DivModSplit(w, 0x100_0000, 0x80); }
    assert w / 0x100_0000 % 0x80 % 32 == w / 0x100_0000 % 32 by {
      DivModSplit(w / 0x100_0000, 32, 4);
    }
  }

  lemma AddWordFields(rd: nat, rn: nat, imm12: nat, shift12: bool)
    requires rd < 32 && rn < 32 && imm12 < 0x1000
    ensures MaskMatch(AddWord(rd, rn, imm12, shift12), 0x9100_0000, 0xff80_0000)
    ensures And(Shr(AddWord(rd, rn, imm12, shift12), 10), 0xfff) == imm12
  {
    var w := AddWord(rd, rn, imm12, shift12);
    var sh := if shift12 then 1 else 0;
    var r := rn * 32 + rd;
    assert w == (0x122 * 2 + sh) * 0x40_0000 + imm12 * 0x400 + r;
    assert w / 0x400 == (0x122 * 2 + sh) * 0x1000 + imm12 by {
      DivModUnique(w, 0x400, (0x122 * 2 + sh) * 0x1000 + imm12, r);
    }
    assert And(Shr(w, 10), 0xfff) == imm12 by {
      Pow2Values();
      ShrIsDiv(w, 10);
      MaskEnd(w / 0x400, 0xfff, 12, 0x1000);
      DivModUnique(w / 0x400, 0x1000, 0x122 * 2 + sh, imm12);
    }
    assert w / 0x80_0000 == 0x122;
    AddMask(w);
  }

  lemma AddMask(w: u32)
    ensures And(w, 0xff80_0000) == w / 0x80_0000 * 0x80_0000
  {
    assert And(w, 0xff80_0000) == w / 0x80_0000 % 0x200 * 0x80_0000 + And(w % 0x80_0000, 0) by {
      Pow2Values();
      assert Pow2(9) == 0x200;
      MaskBlock(w, 0xff80_0000, 23, 9, 0, 0x80_0000, 0x200);
    }
    SmallMod(w / 0x80_0000, 0x200);
  }

  lemma AdrpRoundTrip(rd: nat, pages: int)
    requires rd < 32 && -0x10_0000 <= pages < 0x10_0000
    ensures MaskMatch(AdrpWord(rd, pages), 0x9000_0000, 0x9f00_0000)
    ensures PfAdrpOffset(AdrpWord(rd, pages)) == 0x1000 * pages
  {
    AdrpWordFields(rd, pages);
    AdrpOffsetValue(AdrpWord(rd, pages));
  }
}
