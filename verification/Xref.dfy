/** Following an ADRP and ADD pair to the data that it refers to (`pf_follow_xref` in
    plooshfinder.c). */
module Xref {
  import opened Bits
  import opened Arm64
  import opened Formats

  /** The address that `pf_follow_xref` computes for a pair at address `va`, in 64-bit arithmetic. */
  function XrefAddress(adrp: u32, add: u32, va: u64): u64 {
    (va - va % 0x1000 + PfAdrpOffset(adrp) + And(Shr(add, 10), 0xfff)) % TWO64
  }

  /** `pf_follow_xref` for the words `adrp` and `add` at pointer `p`: the pointer to the data, or null
      when the words are not such a pair or the address lies in no segment. */
  function FollowXref(m: MachO, adrp: u32, add: u32, p: u64): Outcome {
    if !MaskMatch(adrp, 0x9000_0000, 0x9f00_0000) then Null
    else if !MaskMatch(add, 0x9100_0000, 0xff80_0000) then Null
    else
      match PtrToVa(m, p)
      case Address(va) => VaToPtr(m, XrefAddress(adrp, add, va))
      case Null => VaToPtr(m, XrefAddress(adrp, add, 0))
      case Fault => Fault
  }

  /** An accepted pair that lies in no section makes the code dereference null, ... */
  lemma XrefFaults(m: MachO, adrp: u32, add: u32, p: u64)
    requires MachOOk(m) && IsAdrp(adrp) && IsAdd(add)
    requires forall seg :: seg in m.commands && InFile(seg, m.buf, p) ==> !InSectionOf(seg, m.buf, p)
    ensures FollowXref(m, adrp, add, p) == Fault
  {
    PairMasks(adrp, add);
    NoSectionForPtr(m, p);
  }

  /** ... and two words that are no ADRP and ADD (immediate) give null. */
  lemma XrefRejects(m: MachO, adrp: u32, add: u32, p: u64)
    requires !IsAdrp(adrp) || !IsAdd(add)
    ensures FollowXref(m, adrp, add, p) == Null
  {
    PairMasks(adrp, add);
  }

  /** Bits 31 and 28 to 24 of an ADRP; bits 31 to 23 of a 64-bit ADD (immediate). */
  predicate IsAdrp(w: u32) { w / 0x8000_0000 == 1 && w / 0x100_0000 % 32 == 16 }

  predicate IsAdd(w: u32) { w / 0x80_0000 == 0x122 }

  lemma PairMasks(adrp: u32, add: u32)
    ensures MaskMatch(adrp, 0x9000_0000, 0x9f00_0000) <==> IsAdrp(adrp)
    ensures MaskMatch(add, 0x9100_0000, 0xff80_0000) <==> IsAdd(add)
  {
    AdrpMask(adrp);
    AddMask(add);
  }

  /** What the pair means (Arm ARM C6.2, ADRP and ADD immediate): the page of the instruction, plus
      whole pages, plus the 12-bit immediate, possibly shifted by 12. */
  function PairTarget(va: u64, pages: int, imm12: nat, shift12: bool): u64 {
    (va - va % 0x1000 + 0x1000 * pages + (if shift12 then 0x1000 * imm12 else imm12)) % TWO64
  }

  lemma XrefAddressIs(rd: nat, pages: int, rd2: nat, rn: nat, imm12: nat, shift12: bool, va: u64)
    requires rd < 32 && -0x10_0000 <= pages < 0x10_0000 && rd2 < 32 && rn < 32 && imm12 < 0x1000
    ensures XrefAddress(AdrpWord(rd, pages), AddWord(rd2, rn, imm12, shift12), va)
         == (va - va % 0x1000 + 0x1000 * pages + imm12) % TWO64
  {
    AdrpRoundTrip(rd, pages);
    AddWordFields(rd2, rn, imm12, shift12);
    AddressSum(AdrpWord(rd, pages), AddWord(rd2, rn, imm12, shift12), va, 0x1000 * pages, imm12);
  }

  lemma AddressSum(adrp: u32, add: u32, va: u64, offset: int, imm12: nat)
    requires PfAdrpOffset(adrp) == offset && And(Shr(add, 10), 0xfff) == imm12
    ensures XrefAddress(adrp, add, va) == (va - va % 0x1000 + offset + imm12) % TWO64
  {
  }

  /** The computed address is the architectural one exactly when the ADD does not shift a non-zero
      immediate: the mask accepts the shifted form, but the shift is not applied. */
  lemma XrefExact(rd: nat, pages: int, rd2: nat, rn: nat, imm12: nat, shift12: bool, va: u64)
    requires rd < 32 && -0x10_0000 <= pages < 0x10_0000 && rd2 < 32 && rn < 32 && imm12 < 0x1000
    ensures (XrefAddress(AdrpWord(rd, pages), AddWord(rd2, rn, imm12, shift12), va)
             == PairTarget(va, pages, imm12, shift12)) <==> (!shift12 || imm12 == 0)
  {
    XrefAddressIs(rd, pages, rd2, rn, imm12, shift12, va);
    CompareTarget(XrefAddress(AdrpWord(rd, pages), AddWord(rd2, rn, imm12, shift12), va), va, pages,
                  imm12, shift12);
  }

  lemma CompareTarget(x: u64, va: u64, pages: int, imm12: nat, shift12: bool)
    requires imm12 < 0x1000 && x == (va - va % 0x1000 + 0x1000 * pages + imm12) % TWO64
    ensures x == PairTarget(va, pages, imm12, shift12) <==> (!shift12 || imm12 == 0)
  {
    var b := va - va % 0x1000 + 0x1000 * pages;
    if shift12 && imm12 > 0 {
      NearbyDiffer(b + imm12, 0xfff * imm12);
    }
  }

  /** Two sums that differ by less than 2^64 stay different modulo 2^64. */
  lemma NearbyDiffer(x: int, d: nat)
    requires 0 < d < TWO64
    ensures x % TWO64 != (x + d) % TWO64
  {
    var q, r := x / TWO64, x % TWO64;
    assert x == q * TWO64 + r;
    if r + d < TWO64 {
      DivModUnique(x + d, TWO64, q, r + d);
    } else {
      DivModUnique(x + d, TWO64, q + 1, r + d - TWO64);
    }
  }

  /** The page displacement from `va` to `target`. */
  function PagesTo(va: u64, target: u64): int { target / 0x1000 - va / 0x1000 }

  /** Following the pair that an assembler emits for `target`, placed at an instruction of a
      well-formed image, gives the translation of `target`. */
  lemma FollowXrefInverts(m: MachO, seg: Command, s: Section, va: u64, target: u64, rd: nat)
    requires MachOOk(m) && HasSection(m, seg, s) && Backed(s) && s.addr <= va < s.addr + s.size
    requires rd < 32
    requires -0x10_0000 <= PagesTo(va, target) < 0x10_0000
    ensures 0 <= FilePlace(m, s, va) < TWO64
    ensures FollowXref(m, AdrpWord(rd, PagesTo(va, target)), AddWord(rd, rd, target % 0x1000, false),
                       FilePlace(m, s, va)) == VaToPtr(m, target)
  {
    var adrp, add := AdrpWord(rd, PagesTo(va, target)), AddWord(rd, rd, target % 0x1000, false);
    MachOTranslates(m, seg, s, va);
    assert XrefAddress(adrp, add, va) == target by {
      XrefAddressIs(rd, PagesTo(va, target), rd, rd, target % 0x1000, false, va);
      PageSum(va, target);
    }
    AdrpRoundTrip(rd, PagesTo(va, target));
    AddWordFields(rd, rd, target % 0x1000, false);
    FollowPair(m, adrp, add, FilePlace(m, s, va), va);
  }

  lemma FollowPair(m: MachO, adrp: u32, add: u32, p: u64, va: u64)
    requires MaskMatch(adrp, 0x9000_0000, 0x9f00_0000) && MaskMatch(add, 0x9100_0000, 0xff80_0000)
    requires PtrToVa(m, p) == Address(va)
    ensures FollowXref(m, adrp, add, p) == VaToPtr(m, XrefAddress(adrp, add, va))
  {
  }

  lemma PageSum(va: u64, target: u64)
    ensures (va - va % 0x1000 + 0x1000 * PagesTo(va, target) + target % 0x1000) % TWO64 == target
  {
    assert va - va % 0x1000 == 0x1000 * (va / 0x1000);
    assert target == 0x1000 * (target / 0x1000) + target % 0x1000;
    SmallMod(target, TWO64);
  }
}
