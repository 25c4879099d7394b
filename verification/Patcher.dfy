/** The platform patcher in place: the image, the two static templates and the cached shellcode
    location as mutable state (patches/platform, and the search of plooshfinder32.c that drives it). */
module Patcher {
  import opened Bits
  import opened Wrappers
  import opened Arm64
  import opened Shellcode
  import opened Rewrite

  lemma FullMask(w: u32)
    ensures MaskMatch(w, 0, 0xffff_ffff) <==> w == 0
  {
    Pow2Values();
    MaskEnd(w, 0xffff_ffff, 32, 0x1_0000_0000);
  }

  class PlatformPatcher {
    const base: u64
    const img: array<u32>
    /** What `macho_find_section` answers for (__TEXT, __text). */
    const text: Option<Text>

    const templateBr: array<u32>
    const templateBlr: array<u32>
    var loc: Option<nat>
    var section: Option<Text>
    var platform: nat
    var found: bool

    ghost predicate Valid()
      reads this
    {
      && templateBr.Length == 4 && templateBlr.Length == 8
      && templateBr != templateBlr && img != templateBr && img != templateBlr
      && base + 4 * img.Length <= TWO64
      && (text.Some? ==> text.value.FitsIn(img.Length))
      && (section.Some? ==> section == text)
      && (loc.Some? ==> loc.value < img.Length)
    }

    ghost function Conf(): Config
      reads this
    {
      Config(base, text, platform)
    }

    ghost function View(): Patch
      reads this, img, templateBr, templateBlr
    {
      Patch(img[..], loc, templateBr[..], templateBlr[..], found)
    }

    constructor (base: u64, img: array<u32>, text: Option<Text>)
      requires base + 4 * img.Length <= TWO64
      requires text.Some? ==> text.value.FitsIn(img.Length)
      ensures Valid() && this.base == base && this.img == img && this.text == text
      ensures fresh(templateBr) && fresh(templateBlr) && loc.None? && !found
      ensures templateBr[..] == BrShellcode(0, 0) && templateBlr[..] == BlrShellcode(0, 0)
    {
      this.base, this.img, this.text := base, img, text;
      templateBr := new u32[] [CMP_X1_10, BEQ_SKIP, MOV_X1, 0];
      templateBlr := new u32[] [PUSH_FP_LR, MOV_FP_SP, CMP_X1_10, BEQ_SKIP, MOV_X1, 0, POP_FP_LR, RET];
      loc, section, platform, found := None, None, 0, false;
    }

    /** The inner loop of `pf_find_maskmatch32`: do the words from `i` on match? */
    method MatchesAt(i: nat, matches: seq<u32>, masks: seq<u32>) returns (b: bool)
      requires |matches| == |masks| && i + |matches| <= img.Length
      ensures b <==> forall x :: 0 <= x < |matches| ==> MaskMatch(img[i + x], matches[x], masks[x])
    {
      var x := 0;
      while x < |matches|
        invariant 0 <= x <= |matches|
        invariant forall y :: 0 <= y < x ==> MaskMatch(img[i + y], matches[y], masks[y])
      {
        if !MaskMatch(img[i + x], matches[x], masks[x]) {
          return false;
        }
        x := x + 1;
      }
      return true;
    }

    /** `pf_find_zero_buf`: the scan goes on over all of the range, but its one patch is disabled by
        the first hit. */
    method FindZeroBuf(start: nat, size: nat, count: nat) returns (zeroBuf: Option<nat>)
      requires start + size / 4 + count <= img.Length
      ensures zeroBuf == FirstZeroRun(img[..], start, size / 4, count)
    {
      var matches: seq<u32> := seq(count, _ => 0);
      var masks: seq<u32> := seq(count, _ => 0xffff_ffff);
      var disabled := false;
      zeroBuf := None;
      var i := 0;
      while i < size / 4
        invariant 0 <= i <= size / 4
        invariant disabled <==> zeroBuf.Some?
        invariant FirstZeroRun(img[..], start, size / 4, count)
               == if disabled then zeroBuf
                  else FirstZeroRun(img[..], start + i, size / 4 - i, count)
      {
        if !disabled {
          var b := MatchesAt(start + i, matches, masks);
          assert b <==> ZeroRun(img[..], start + i, count) by {
            ZeroRunMatches(img[..], start + i, count, matches, masks);
          }
          if b {
            zeroBuf, disabled := Some(start + i), true;
          }
        }
        i := i + 1;
      }
    }

    /** `copy_shc`. */
    method CopyShc(jmp: u32) returns (r: Option<nat>)
      requires Valid()
      modifies this`loc, this`section, img, templateBr, templateBlr
      ensures Valid() && Shaped(old(Conf()), old(View()))
      ensures (View(), r) == Copy(old(Conf()), old(View()), jmp)
    {
      var br := IsBr(jmp);
      FillTemplate(jmp);
      if br && loc.Some? {
        return loc;
      }
      if section.None? {
        section := text;
      }
      if section.None? {
        return None;
      }
      var code := if br then templateBr else templateBlr;
      FirstZeroRunFits(img[..], section.value.offset / 4, section.value.size / 4, code.Length);
      loc := FindZeroBuf(section.value.offset / 4, section.value.size, code.Length);
      if loc.Some? {
        CopyWords(loc.value, code);
      }
      return loc;
    }

    /** The platform and the jump written into the template that the jump selects. */
    method FillTemplate(jmp: u32)
      requires Valid()
      modifies templateBr, templateBlr
      ensures View() == Filled(Conf(), old(View()), jmp)
    {
      if IsBr(jmp) {
        templateBr[2] := Or(templateBr[2], Shl(platform, 5)) % TWO32;
        templateBr[3] := jmp;
      } else {
        templateBlr[4] := Or(templateBlr[4], Shl(platform, 5)) % TWO32;
        templateBlr[5] := jmp;
      }
    }

    /** The copying loop. */
    method CopyWords(at: nat, code: array<u32>)
      requires code != img && at + code.Length <= img.Length
      modifies img
      ensures img[..] == Overwrite(old(img[..]), at, code[..])
    {
      var i := 0;
      while i < code.Length
        invariant 0 <= i <= code.Length
        invariant img[..] == Overwrite(old(img[..]), at, code[..][..i])
      {
        OverwriteMore(old(img[..]), at, code[..], i);
        img[at + i] := code[i];
        i := i + 1;
      }
      assert code[..][..code.Length] == code[..];
    }

    lemma OverwriteMore(was: seq<u32>, at: nat, words: seq<u32>, i: nat)
      requires i < |words| && at + |words| <= |was|
      ensures Overwrite(was, at, words[..i])[at + i := words[i]] == Overwrite(was, at, words[..i + 1])
    {
    }

    /** `inject_shc` with word `i` as its stream. */
    method InjectShc(i: nat) returns (patched: bool)
      requires Valid() && i < img.Length
      modifies this`loc, this`section, this`found, img, templateBr, templateBlr
      ensures Valid() && Shaped(old(Conf()), old(View()))
      ensures (View(), patched) == Inject(old(Conf()), old(View()), i)
    {
      var shc := CopyShc(img[i]);
      if shc.None? {
        return false;
      }
      img[i] := Arm64Branch(base + 4 * i, base + 4 * shc.value, !IsBr(img[i]));
      found := true;
      return true;
    }

    /** `patch_platform_check` on the `len` bytes from word `f` on. */
    method PatchPlatformCheck(f: nat, len: nat, platform: nat)
      requires Valid() && f + len / 4 <= img.Length
      modifies this, img, templateBr, templateBlr
      ensures Valid() && this.platform == platform
      ensures Shaped(Conf(), old(View()))
      ensures View() == Scan(Conf(), old(View()), f, f + len / 4)
    {
      this.platform := platform;
      ghost var start := View();
      var i := 0;
      while i < len / 4
        invariant 0 <= i <= len / 4 && Valid() && this.platform == platform
        invariant Shaped(Conf(), start) && Shaped(Conf(), View())
        invariant |start.img| == img.Length
        invariant Scan(Conf(), start, f, f + len / 4) == Scan(Conf(), View(), f + i, f + len / 4)
      {
        Visit(f + i);
        i := i + 1;
      }
    }

    /** The body of the matcher's loop for the one patch of this search. */
    method Visit(i: nat)
      requires Valid() && i < img.Length
      modifies this`loc, this`section, this`found, img, templateBr, templateBlr
      ensures Valid() && Shaped(old(Conf()), old(View()))
      ensures View() == if old(IsJump(img[i])) then Inject(old(Conf()), old(View()), i).0
                        else old(View())
    {
      var b := MatchesAt(i, [BR], [0xffdf_fc1f]);
      assert b <==> IsJump(img[i]) by { SingleMatch(img[i], b, i); }
      if b {
        var _ := InjectShc(i);
      }
    }

    lemma SingleMatch(w: u32, b: bool, k: nat)
      requires k < img.Length && img[k] == w
      requires b <==> forall x :: 0 <= x < |[BR]| ==> MaskMatch(img[k + x], [BR][x], [0xffdf_fc1f][x])
      ensures b <==> IsJump(w)
    {
      assert [BR][0] == BR && img[k + 0] == w;
    }
  }

  lemma ZeroRunMatches(img: seq<u32>, at: nat, count: nat, matches: seq<u32>, masks: seq<u32>)
    requires at + count <= |img| && |matches| == |masks| == count
    requires forall x :: 0 <= x < count ==> matches[x] == 0 && masks[x] == 0xffff_ffff
    ensures (forall x :: 0 <= x < count ==> MaskMatch(img[at + x], matches[x], masks[x]))
       <==> ZeroRun(img, at, count)
  {
    forall x | 0 <= x < count ensures MaskMatch(img[at + x], matches[x], masks[x]) <==> img[at + x] == 0 {
      FullMask(img[at + x]);
    }
    if forall x :: 0 <= x < count ==> MaskMatch(img[at + x], matches[x], masks[x]) {
      forall m | at <= m < at + count ensures img[m] == 0 {
        assert MaskMatch(img[at + (m - at)], matches[m - at], masks[m - at]);
      }
    }
  }
}
