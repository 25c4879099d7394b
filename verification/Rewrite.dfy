/** The platform patch as a function on images: what copy_shc, inject_shc and patch_platform_check
    (patches/platform) compute, and what a whole run keeps. */
module Rewrite {
  import opened Bits
  import opened Wrappers
  import opened Arm64
  import opened Shellcode

  /** The (__TEXT, __text) section: byte offset in the image and size in bytes. */
  datatype Text = Text(offset: nat, size: nat) {
    /** Word-aligned, with backing words after the end for a template that is matched there. */
    predicate FitsIn(words: nat) { offset % 4 == 0 && offset / 4 + size / 4 + 8 <= words }
  }

  /** What a run does not change: the load address, the text section if there is one, and the
      platform that is patched in. */
  datatype Config = Config(base: u64, text: Option<Text>, platform: nat)

  /** What it does: the image, the cached shellcode location, the two static templates, and whether a
      site was patched. */
  datatype Patch = Patch(img: seq<u32>, loc: Option<nat>, br: seq<u32>, blr: seq<u32>, found: bool)

  // ---------------------------------------------------------------------------------------------
  // The operations.

  /** `count` zero words at `at`. */
  predicate ZeroRun(img: seq<u32>, at: nat, count: nat)
    requires at + count <= |img|
  {
    forall m :: at <= m < at + count ==> img[m] == 0
  }

  /** The first of `n` consecutive positions where a zero run starts. */
  function FirstZeroRun(img: seq<u32>, at: nat, n: nat, count: nat): Option<nat>
    requires at + n + count <= |img|
    decreases n
  {
    if n == 0 then None
    else if ZeroRun(img, at, count) then Some(at)
    else FirstZeroRun(img, at + 1, n - 1, count)
  }

  function Overwrite(img: seq<u32>, at: nat, code: seq<u32>): (r: seq<u32>)
    requires at + |code| <= |img|
    ensures |r| == |img|
  {
    img[..at] + code + img[at + |code|..]
  }

  /** The platform or-ed into the immediate of the template's move. */
  function SetPlatform(word: u32, platform: nat): u32 {
    Or(word, Shl(platform, 5)) % TWO32
  }

  ghost predicate Shaped(c: Config, st: Patch) {
    && |st.br| == 4 && |st.blr| == 8
    && (c.text.Some? ==> c.text.value.FitsIn(|st.img|))
    && c.base + 4 * |st.img| <= TWO64
    && (st.loc.Some? ==> st.loc.value < |st.img|)
  }

  /** The template that `jmp` selects, filled in. */
  function Filled(c: Config, st: Patch, jmp: u32): (st': Patch)
    requires |st.br| == 4 && |st.blr| == 8
    ensures st'.img == st.img && st'.loc == st.loc && st'.found == st.found
    ensures |st'.br| == 4 && |st'.blr| == 8
  {
    if IsBr(jmp) then st.(br := st.br[2 := SetPlatform(st.br[2], c.platform)][3 := jmp])
    else st.(blr := st.blr[4 := SetPlatform(st.blr[4], c.platform)][5 := jmp])
  }

  /** `copy_shc`: the new state and the location of the shellcode, or none. */
  function Copy(c: Config, st: Patch, jmp: u32): (r: (Patch, Option<nat>))
    requires Shaped(c, st)
    ensures Shaped(c, r.0) && |r.0.img| == |st.img|
    ensures r.1.Some? ==> r.1.value < |st.img|
  {
    var st1 := Filled(c, st, jmp);
    var code := if IsBr(jmp) then st1.br else st1.blr;
    if IsBr(jmp) && st.loc.Some? then (st1, st.loc)
    else if c.text.None? then (st1, None)
    else
      var at := FirstZeroRun(st.img, c.text.value.offset / 4, c.text.value.size / 4, |code|);
      FirstZeroRunFits(st.img, c.text.value.offset / 4, c.text.value.size / 4, |code|);
      if at.None? then (st1.(loc := None), None)
      else (st1.(loc := at, img := Overwrite(st.img, at.value, code)), at)
  }

  lemma {:induction false} FirstZeroRunFits(img: seq<u32>, at: nat, n: nat, count: nat)
    requires at + n + count <= |img|
    ensures var r := FirstZeroRun(img, at, n, count);
      r.Some? ==> at <= r.value < at + n && ZeroRun(img, r.value, count)
    ensures FirstZeroRun(img, at, n, count).None? ==>
      forall k :: at <= k < at + n ==> !ZeroRun(img, k, count)
    decreases n
  {
    if n > 0 && !ZeroRun(img, at, count) {
      FirstZeroRunFits(img, at + 1, n - 1, count);
    }
  }

  /** `inject_shc` at word `i`: the new state and whether the site was patched. */
  function Inject(c: Config, st: Patch, i: nat): (r: (Patch, bool))
    requires Shaped(c, st) && i < |st.img|
    ensures Shaped(c, r.0) && |r.0.img| == |st.img|
  {
    var (st1, loc) := Copy(c, st, st.img[i]);
    if loc.None? then (st1, false)
    else
      var w := BranchWord(c.base, i, loc.value, !IsBr(st1.img[i]));
      (st1.(img := st1.img[i := w], found := true), true)
  }

  /** The matcher's scan of words `i` to `end` with `inject_shc` as its callback. */
  function Scan(c: Config, st: Patch, i: nat, end: nat): (r: Patch)
    requires Shaped(c, st) && i <= end <= |st.img|
    ensures Shaped(c, r) && |r.img| == |st.img|
    decreases end - i
  {
    if i == end then st
    else Scan(c, if IsJump(st.img[i]) then Inject(c, st, i).0 else st, i + 1, end)
  }

  // ---------------------------------------------------------------------------------------------
  // What a run keeps.

  /** One shellcode copy: where it is and the jump word that it carries. */
  datatype Copied = Copied(loc: nat, jmp: u32)

  /** The history of a run: the copies in the order they were made, and for every rewritten site
      the index of the copy that it branches to. */
  datatype History = History(copies: seq<Copied>, sites: map<nat, nat>)

  function Length(jmp: u32): nat { if IsBr(jmp) then 4 else 8 }

  /** The demands of a run over words [f, end) of `orig`: a word-aligned image of at most 128 MiB in
      the address space, a platform that fits the 16-bit immediate, and backing words after the text
      section. */
  ghost predicate Setup(c: Config, orig: seq<u32>, f: nat, end: nat) {
    && c.base % 4 == 0 && c.base + 4 * |orig| <= TWO64 && |orig| <= 0x200_0000
    && f <= end <= |orig| && c.platform < 0x1_0000
    && (c.text.Some? ==> c.text.value.FitsIn(|orig|))
  }

  ghost predicate Outside(at: nat, len: nat, f: nat, end: nat) { at + len <= f || end <= at }

  /** The zero run that is chosen at word `i`, if one is, lies outside words [f, end). */
  ghost predicate Avoids(c: Config, st: Patch, f: nat, i: nat, end: nat)
    requires Shaped(c, st) && i < |st.img|
  {
    IsJump(st.img[i]) && !(IsBr(st.img[i]) && st.loc.Some?) && c.text.Some? ==>
      var t, len := c.text.value, Length(st.img[i]);
      var at := FirstZeroRun(st.img, t.offset / 4, t.size / 4, len);
      at.Some? ==> Outside(at.value, len, f, end)
  }

  /** All zero runs that the scan from `i` on chooses lie outside words [f, end). */
  ghost predicate Clear(c: Config, st: Patch, f: nat, i: nat, end: nat)
    requires Shaped(c, st) && i <= end <= |st.img|
    decreases end - i
  {
    i == end
    || (Avoids(c, st, f, i, end)
        && Clear(c, if IsJump(st.img[i]) then Inject(c, st, i).0 else st, f, i + 1, end))
  }

  /** No run of four zero words of the text section meets words [f, end). */
  ghost predicate Separate(c: Config, orig: seq<u32>, f: nat, end: nat) {
    c.text.Some? ==>
      var t := c.text.value;
      && t.FitsIn(|orig|)
      && forall k :: t.offset / 4 <= k < t.offset / 4 + t.size / 4 + 4 && ZeroRun(orig, k, 4)
           ==> Outside(k, 4, f, end)
  }

  /** The templates as compiled, or as an earlier copy for the same platform left them. */
  ghost predicate Templates(c: Config, st: Patch)
    requires c.platform < 0x1_0000
  {
    && |st.br| == 4 && st.br[0] == CMP_X1_10 && st.br[1] == BEQ_SKIP
    && (st.br[2] == MOV_X1 || st.br[2] == MovPlatform(c.platform))
    && |st.blr| == 8 && st.blr[0] == PUSH_FP_LR && st.blr[1] == MOV_FP_SP
    && st.blr[2] == CMP_X1_10 && st.blr[3] == BEQ_SKIP
    && (st.blr[4] == MOV_X1 || st.blr[4] == MovPlatform(c.platform))
    && st.blr[6] == POP_FP_LR && st.blr[7] == RET
  }

  lemma SetPlatformValue(word: u32, platform: nat)
    requires platform < 0x1_0000 && (word == MOV_X1 || word == MovPlatform(platform))
    ensures SetPlatform(word, platform) == MovPlatform(platform)
  {
    assert Or(MOV_X1, Shl(platform, 5)) == MOV_X1 + 32 * platform by { MoveOr(platform); }
    OrAgain(MOV_X1, Shl(platform, 5));
  }

  lemma MoveOr(platform: nat)
    requires platform < 0x1_0000
    ensures Shl(platform, 5) == 32 * platform
    ensures Or(MOV_X1, Shl(platform, 5)) == MOV_X1 + 32 * platform
  {
    assert Shl(platform, 5) == 32 * platform by { ShlIsMul(platform, 5); }
    OrMove(platform);
  }

  /** The set bits of the move template lie above bit 20 and at bit 0. */
  lemma OrMove(platform: nat)
    requires platform < 0x1_0000
    ensures Or(MOV_X1, 32 * platform) == MOV_X1 + 32 * platform
  {
    var v := 16 * platform;
    assert Or(MOV_X1, 2 * v) == 2 * Or(MOV_X1 / 2, v) + 1 || platform == 0;
    assert MOV_X1 / 2 == Shl(0x694, 20) by {
      ShlIsMul(0x694, 20);
      Pow2Values();
    }
    assert Or(Shl(0x694, 20), v) == Shl(0x694, 20) + v by {
      Pow2Values();
      OrDisjoint(0x694, v, 20);
    }
  }

  /** After filling, the selected template is the shellcode for the jump. */
  lemma FilledIs(c: Config, st: Patch, jmp: u32)
    requires c.platform < 0x1_0000 && Templates(c, st)
    ensures Templates(c, Filled(c, st, jmp))
    ensures (if IsBr(jmp) then Filled(c, st, jmp).br else Filled(c, st, jmp).blr)
         == ShellcodeFor(c.platform, jmp)
  {
    if IsBr(jmp) {
      SetPlatformValue(st.br[2], c.platform);
    } else {
      SetPlatformValue(st.blr[4], c.platform);
    }
  }
}
