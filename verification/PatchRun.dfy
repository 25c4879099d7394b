/** The invariant of a run of the platform patch over a function, and what it means at the end. */
module PatchRun {
  import opened Bits
  import opened Wrappers
  import opened Arm64
  import opened Shellcode
  import opened Rewrite

  // ---------------------------------------------------------------------------------------------
  // The invariant, for a run that has scanned words [f, i) of [f, end).

  ghost predicate InCopy(k: Copied, m: nat) { k.loc <= m < k.loc + Length(k.jmp) }

  /** Word `m` was written by the run. */
  ghost predicate Touched(h: History, m: nat) {
    m in h.sites || exists a :: 0 <= a < |h.copies| && InCopy(h.copies[a], m)
  }

  /** A copy is complete, was made over zero words, and lies outside the patched region. */
  ghost predicate CopyOk(c: Config, orig: seq<u32>, f: nat, end: nat, img: seq<u32>, k: Copied)
    requires c.platform < 0x1_0000
  {
    && IsJump(k.jmp) && k.loc + Length(k.jmp) <= |img| && |img| == |orig|
    && CodeAt(img, k.loc, ShellcodeFor(c.platform, k.jmp))
    && ZeroRun(orig, k.loc, Length(k.jmp))
    && Outside(k.loc, Length(k.jmp), f, end)
  }

  /** A rewritten site held a jump, branches to its copy, and a `blr` site has a copy of its own
      jump word. */
  ghost predicate SiteOk(c: Config, orig: seq<u32>, f: nat, i: nat, img: seq<u32>, h: History, s: nat)
    requires s in h.sites
  {
    && f <= s < i && s < |img| && |img| == |orig| && c.base + 4 * |img| <= TWO64
    && h.sites[s] < |h.copies| && h.copies[h.sites[s]].loc < |img|
    && IsJump(orig[s])
    && img[s] == BranchWord(c.base, s, h.copies[h.sites[s]].loc, !IsBr(orig[s]))
    && (!IsBr(orig[s]) ==> h.copies[h.sites[s]].jmp == orig[s])
  }

  ghost predicate Copies(c: Config, orig: seq<u32>, f: nat, end: nat, img: seq<u32>, h: History)
    requires c.platform < 0x1_0000
  {
    forall a :: 0 <= a < |h.copies| ==> CopyOk(c, orig, f, end, img, h.copies[a])
  }

  ghost predicate Sites(c: Config, orig: seq<u32>, f: nat, i: nat, img: seq<u32>, h: History) {
    forall s :: s in h.sites ==> SiteOk(c, orig, f, i, img, h, s)
  }

  ghost predicate Apart(h: History) {
    forall a, b :: 0 <= a < b < |h.copies| ==>
      || h.copies[a].loc + Length(h.copies[a].jmp) <= h.copies[b].loc
      || h.copies[b].loc + Length(h.copies[b].jmp) <= h.copies[a].loc
  }

  ghost predicate Frame(orig: seq<u32>, img: seq<u32>, h: History) {
    && |img| == |orig|
    && forall m :: 0 <= m < |img| && img[m] != orig[m] ==> Touched(h, m)
  }

  ghost predicate Cache(c: Config, loc: Option<nat>, h: History) {
    && (loc.Some? ==> |h.copies| > 0 && loc.value == h.copies[|h.copies| - 1].loc)
    && (c.text.None? ==> loc.None?)
  }

  /** No room for `len` words of shellcode anywhere in the text section. */
  ghost predicate NoRoom(c: Config, img: seq<u32>, len: nat)
    requires c.text.Some? ==> c.text.value.FitsIn(|img|)
    requires len <= 8
  {
    c.text.Some? ==>
      var t := c.text.value;
      forall k :: t.offset / 4 <= k < t.offset / 4 + t.size / 4 ==> !ZeroRun(img, k, len)
  }

  /** A jump was left alone only where no room was left for its shellcode. */
  ghost predicate Skipped(c: Config, orig: seq<u32>, f: nat, i: nat, img: seq<u32>, h: History)
    requires c.text.Some? ==> c.text.value.FitsIn(|img|)
  {
    i <= |orig| &&
    forall s :: f <= s < i && IsJump(orig[s]) && s !in h.sites ==> NoRoom(c, img, Length(orig[s]))
  }

  /** The jump word that the cached shellcode carries after words [f, i), if every copy succeeds: a
      `br` reuses what is cached, a `blr` always makes its own copy. */
  ghost function Carried(orig: seq<u32>, f: nat, i: nat): Option<u32>
    requires f <= i <= |orig|
    decreases i
  {
    if i == f then None
    else
      var w, before := orig[i - 1], Carried(orig, f, i - 1);
      if IsJump(w) && (!IsBr(w) || before.None?) then Some(w) else before
  }

  /** No `br` in words [f, i) finds another jump's shellcode cached. */
  ghost predicate OneRegister(orig: seq<u32>, f: nat, i: nat)
    requires f <= i <= |orig|
  {
    forall s :: f <= s < i && IsJump(orig[s]) && IsBr(orig[s]) ==>
      Carried(orig, f, s) == None || Carried(orig, f, s) == Some(orig[s])
  }

  ghost predicate AllRewritten(orig: seq<u32>, f: nat, i: nat, h: History)
    requires f <= i <= |orig|
  {
    forall s :: f <= s < i && IsJump(orig[s]) ==> s in h.sites
  }

  ghost predicate Known(orig: seq<u32>, f: nat, i: nat, h: History)
    requires f <= i <= |orig|
  {
    OneRegister(orig, f, i) || AllRewritten(orig, f, i, h)
  }

  /** The word that the shellcode of a rewritten site carries. */
  ghost predicate Carries(orig: seq<u32>, f: nat, h: History, s: nat)
    requires f <= s < |orig| && s in h.sites && h.sites[s] < |h.copies|
  {
    h.copies[h.sites[s]].jmp
      == if IsBr(orig[s]) && Carried(orig, f, s).Some? then Carried(orig, f, s).value else orig[s]
  }

  ghost predicate Carriers(orig: seq<u32>, f: nat, i: nat, loc: Option<nat>, h: History)
    requires f <= i <= |orig|
  {
    && (Known(orig, f, i, h) ==>
          && (loc.Some? ==>
                |h.copies| > 0 && Carried(orig, f, i) == Some(h.copies[|h.copies| - 1].jmp))
          && forall s :: s in h.sites ==>
               f <= s < |orig| && h.sites[s] < |h.copies| && Carries(orig, f, h, s))
    && (AllRewritten(orig, f, i, h) && Carried(orig, f, i).Some? ==> loc.Some?)
  }

  ghost predicate Core(c: Config, orig: seq<u32>, f: nat, i: nat, end: nat, img: seq<u32>,
                       loc: Option<nat>, h: History)
    requires Setup(c, orig, f, end)
  {
    && f <= i <= end && |img| == |orig|
    && Copies(c, orig, f, end, img, h)
    && Sites(c, orig, f, i, img, h)
    && Apart(h)
    && Frame(orig, img, h)
    && Cache(c, loc, h)
    && Skipped(c, orig, f, i, img, h)
  }

  ghost predicate Inv(c: Config, orig: seq<u32>, f: nat, i: nat, end: nat, st: Patch, h: History)
    requires Setup(c, orig, f, end)
  {
    && Core(c, orig, f, i, end, st.img, st.loc, h)
    && Templates(c, st)
    && Carriers(orig, f, i, st.loc, h)
    && (st.found <==> h.sites.Keys != {})
  }

  // ---------------------------------------------------------------------------------------------
  // Reading the invariant.

  lemma NonzeroBranch(base: u64, i: nat, j: nat, link: bool)
    requires base + 4 * i < TWO64 && base + 4 * j < TWO64
    ensures BranchWord(base, i, j, link) != 0
  {
    BranchValue(base + 4 * i, base + 4 * j, link);
  }

  /** Every word of a copy is nonzero, so a later search cannot find room inside it. */
  lemma NonzeroCopy(c: Config, orig: seq<u32>, f: nat, end: nat, img: seq<u32>, k: Copied, m: nat)
    requires c.platform < 0x1_0000 && CopyOk(c, orig, f, end, img, k) && InCopy(k, m)
    ensures img[m] != 0
  {
    CodeAtIndex(img, k.loc, ShellcodeFor(c.platform, k.jmp), m - k.loc);
    JumpWords(k.jmp);
    assert k.jmp != 0;
  }

  /** A word that is zero now was zero at the start. */
  lemma ZeroBefore(c: Config, orig: seq<u32>, f: nat, i: nat, end: nat, st: Patch, h: History, m: nat)
    requires Setup(c, orig, f, end) && Inv(c, orig, f, i, end, st, h)
    requires m < |st.img| && st.img[m] == 0
    ensures orig[m] == 0 && !Touched(h, m)
  {
    if m in h.sites {
      assert SiteOk(c, orig, f, i, st.img, h, m);
      NonzeroBranch(c.base, m, h.copies[h.sites[m]].loc, !IsBr(orig[m]));
    }
    forall a | 0 <= a < |h.copies| ensures !InCopy(h.copies[a], m) {
      assert CopyOk(c, orig, f, end, st.img, h.copies[a]);
      if InCopy(h.copies[a], m) {
        NonzeroCopy(c, orig, f, end, st.img, h.copies[a], m);
      }
    }
  }

  /** The word about to be scanned is still the original one. */
  lemma NextUntouched(c: Config, orig: seq<u32>, f: nat, i: nat, end: nat, st: Patch, h: History)
    requires Setup(c, orig, f, end) && Inv(c, orig, f, i, end, st, h) && i < end
    ensures st.img[i] == orig[i] && i !in h.sites
  {
    assert i in h.sites ==> SiteOk(c, orig, f, i, st.img, h, i);
    forall a | 0 <= a < |h.copies| ensures !InCopy(h.copies[a], i) {
      assert CopyOk(c, orig, f, end, st.img, h.copies[a]);
    }
    assert !Touched(h, i);
  }

  // ---------------------------------------------------------------------------------------------
  // Making a copy.

  /** `st` after `code` was copied to `at`, and the history with that copy. */
  function AddCopy(st: Patch, at: nat, code: seq<u32>): Patch
    requires at + |code| <= |st.img|
  {
    st.(img := Overwrite(st.img, at, code), loc := Some(at))
  }

  function WithCopy(h: History, k: Copied): History { h.(copies := h.copies + [k]) }

  /** Where a search result lies: over words that were zero at the start, outside every earlier copy. */
  lemma RoomIsFree(c: Config, orig: seq<u32>, f: nat, i: nat, end: nat, st: Patch, h: History,
                   at: nat, jmp: u32)
    requires Setup(c, orig, f, end) && Inv(c, orig, f, i, end, st, h) && i < end && c.text.Some?
    requires c.text.value.offset / 4 <= at < c.text.value.offset / 4 + c.text.value.size / 4
    requires ZeroRun(st.img, at, Length(jmp))
    ensures ZeroRun(orig, at, Length(jmp))
    ensures forall m :: at <= m < at + Length(jmp) ==> !Touched(h, m)
  {
    forall m | at <= m < at + Length(jmp) ensures orig[m] == 0 && !Touched(h, m) {
      ZeroBefore(c, orig, f, i, end, st, h, m);
    }
  }

  lemma SeparateRoom(c: Config, orig: seq<u32>, f: nat, end: nat, at: nat, len: nat)
    requires Separate(c, orig, f, end) && c.text.Some? && (len == 4 || len == 8)
    requires c.text.value.offset / 4 <= at < c.text.value.offset / 4 + c.text.value.size / 4
    requires at + len <= |orig| && ZeroRun(orig, at, len) && f < end
    ensures Outside(at, len, f, end)
  {
    assert ZeroRun(orig, at, 4);
    if len == 8 {
      assert ZeroRun(orig, at + 4, 4);
    }
  }


  lemma OverwriteAt(img: seq<u32>, at: nat, code: seq<u32>, m: nat)
    requires at + |code| <= |img| && m < |img|
    ensures Overwrite(img, at, code)[m] == if at <= m < at + |code| then code[m - at] else img[m]
  {
  }

  lemma CopyElsewhere(img: seq<u32>, img': seq<u32>, at: nat, code: seq<u32>)
    requires CodeAt(img, at, code) && |img'| == |img|
    requires forall m :: at <= m < at + |code| ==> img'[m] == img[m]
    ensures CodeAt(img', at, code)
  {
    assert img'[at..at + |code|] == img[at..at + |code|];
  }

  lemma CopiesKept(c: Config, orig: seq<u32>, f: nat, end: nat, img: seq<u32>, img': seq<u32>,
                   h: History)
    requires c.platform < 0x1_0000 && Copies(c, orig, f, end, img, h) && |img'| == |img|
    requires forall m: nat, a :: 0 <= a < |h.copies| && InCopy(h.copies[a], m) && m < |img| ==>
               img'[m] == img[m]
    ensures Copies(c, orig, f, end, img', h)
  {
    forall a | 0 <= a < |h.copies| ensures CopyOk(c, orig, f, end, img', h.copies[a]) {
      var k := h.copies[a];
      assert CopyOk(c, orig, f, end, img, k);
      forall m | k.loc <= m < k.loc + Length(k.jmp) ensures img'[m] == img[m] {
        assert InCopy(k, m);
      }
      CopyElsewhere(img, img', k.loc, ShellcodeFor(c.platform, k.jmp));
    }
  }

  lemma NewCopyOk(c: Config, orig: seq<u32>, f: nat, end: nat, img: seq<u32>, at: nat, jmp: u32)
    requires c.platform < 0x1_0000 && IsJump(jmp) && at + Length(jmp) <= |img| == |orig|
    requires ZeroRun(orig, at, Length(jmp)) && Outside(at, Length(jmp), f, end)
    ensures CopyOk(c, orig, f, end, Overwrite(img, at, ShellcodeFor(c.platform, jmp)), Copied(at, jmp))
  {
    var code := ShellcodeFor(c.platform, jmp);
    assert Overwrite(img, at, code)[at..at + |code|] == code;
  }

  lemma CopyKeeps(c: Config, orig: seq<u32>, f: nat, i: nat, end: nat, st: Patch, h: History,
                  at: nat, jmp: u32)
    requires Setup(c, orig, f, end) && Inv(c, orig, f, i, end, st, h) && i < end && c.text.Some?
    requires c.text.value.offset / 4 <= at < c.text.value.offset / 4 + c.text.value.size / 4
    requires ZeroRun(st.img, at, Length(jmp)) && IsJump(jmp) && Outside(at, Length(jmp), f, end)
    ensures var st' := AddCopy(st, at, ShellcodeFor(c.platform, jmp));
      var h' := WithCopy(h, Copied(at, jmp));
      Core(c, orig, f, i, end, st'.img, st'.loc, h')
  {
    var code := ShellcodeFor(c.platform, jmp);
    RoomIsFree(c, orig, f, i, end, st, h, at, jmp);
    CopyKeepsCopies(c, orig, f, i, end, st, h, at, jmp);
    CopyKeepsSites(c, orig, f, i, end, st, h, at, jmp);
    CopyKeepsFrame(orig, st.img, h, at, code, jmp);
    CopyKeepsApart(c, orig, f, i, end, st, h, at, jmp);
    CopyKeepsSkipped(c, orig, f, i, end, st, h, at, jmp);
  }

  lemma CopyKeepsCopies(c: Config, orig: seq<u32>, f: nat, i: nat, end: nat, st: Patch, h: History,
                        at: nat, jmp: u32)
    requires Setup(c, orig, f, end) && Inv(c, orig, f, i, end, st, h)
    requires at + Length(jmp) <= |orig| && IsJump(jmp)
    requires ZeroRun(orig, at, Length(jmp)) && Outside(at, Length(jmp), f, end)
    requires forall m :: at <= m < at + Length(jmp) ==> !Touched(h, m)
    ensures Copies(c, orig, f, end, Overwrite(st.img, at, ShellcodeFor(c.platform, jmp)),
                   WithCopy(h, Copied(at, jmp)))
  {
    var img', h' := Overwrite(st.img, at, ShellcodeFor(c.platform, jmp)), WithCopy(h, Copied(at, jmp));
    OldCopiesKept(c, orig, f, end, st.img, h, at, jmp);
    NewCopyOk(c, orig, f, end, st.img, at, jmp);
    forall a | 0 <= a < |h'.copies| ensures CopyOk(c, orig, f, end, img', h'.copies[a]) {
      assert a < |h.copies| ==> CopyOk(c, orig, f, end, img', h.copies[a]);
    }
  }

  lemma OldCopiesKept(c: Config, orig: seq<u32>, f: nat, end: nat, img: seq<u32>, h: History,
                      at: nat, jmp: u32)
    requires c.platform < 0x1_0000 && Copies(c, orig, f, end, img, h) && at + Length(jmp) <= |img|
    requires forall m :: at <= m < at + Length(jmp) ==> !Touched(h, m)
    ensures Copies(c, orig, f, end, Overwrite(img, at, ShellcodeFor(c.platform, jmp)), h)
  {
    var code := ShellcodeFor(c.platform, jmp);
    forall m: nat, a | 0 <= a < |h.copies| && InCopy(h.copies[a], m) && m < |img|
      ensures Overwrite(img, at, code)[m] == img[m]
    {
      assert Touched(h, m);
    }
    CopiesKept(c, orig, f, end, img, Overwrite(img, at, code), h);
  }

  lemma CopyKeepsSites(c: Config, orig: seq<u32>, f: nat, i: nat, end: nat, st: Patch, h: History,
                       at: nat, jmp: u32)
    requires Setup(c, orig, f, end) && Inv(c, orig, f, i, end, st, h)
    requires at + Length(jmp) <= |orig| && Outside(at, Length(jmp), f, end)
    ensures Sites(c, orig, f, i, Overwrite(st.img, at, ShellcodeFor(c.platform, jmp)),
                  WithCopy(h, Copied(at, jmp)))
  {
    var img', h' := Overwrite(st.img, at, ShellcodeFor(c.platform, jmp)), WithCopy(h, Copied(at, jmp));
    forall s | s in h'.sites ensures SiteOk(c, orig, f, i, img', h', s) {
      assert SiteOk(c, orig, f, i, st.img, h, s);
      OverwriteAt(st.img, at, ShellcodeFor(c.platform, jmp), s);
    }
  }

  lemma CopyKeepsFrame(orig: seq<u32>, img: seq<u32>, h: History, at: nat, code: seq<u32>, jmp: u32)
    requires Frame(orig, img, h) && at + |code| <= |img| && |code| == Length(jmp)
    ensures Frame(orig, Overwrite(img, at, code), WithCopy(h, Copied(at, jmp)))
  {
    var h' := WithCopy(h, Copied(at, jmp));
    forall m | 0 <= m < |img| && Overwrite(img, at, code)[m] != orig[m] ensures Touched(h', m) {
      OverwriteAt(img, at, code, m);
      if at <= m < at + |code| {
        assert InCopy(h'.copies[|h.copies|], m);
      } else {
        assert Touched(h, m);
        if m !in h.sites {
          var a :| 0 <= a < |h.copies| && InCopy(h.copies[a], m);
          assert InCopy(h'.copies[a], m);
        }
      }
    }
  }

  lemma CopyKeepsApart(c: Config, orig: seq<u32>, f: nat, i: nat, end: nat, st: Patch, h: History,
                       at: nat, jmp: u32)
    requires Setup(c, orig, f, end) && Inv(c, orig, f, i, end, st, h)
    requires forall m :: at <= m < at + Length(jmp) ==> !Touched(h, m)
    ensures Apart(WithCopy(h, Copied(at, jmp)))
  {
    forall a | 0 <= a < |h.copies|
      ensures h.copies[a].loc + Length(h.copies[a].jmp) <= at || at + Length(jmp) <= h.copies[a].loc
    {
      var k := h.copies[a];
      var m := if k.loc < at then at else k.loc;
      assert InCopy(k, m) ==> Touched(h, m);
    }
  }

  /** Room only ever shrinks. */
  lemma CopyKeepsSkipped(c: Config, orig: seq<u32>, f: nat, i: nat, end: nat, st: Patch, h: History,
                         at: nat, jmp: u32)
    requires Setup(c, orig, f, end) && Inv(c, orig, f, i, end, st, h)
    requires at + Length(jmp) <= |orig| && IsJump(jmp)
    requires ZeroRun(st.img, at, Length(jmp))
    ensures Skipped(c, orig, f, i, Overwrite(st.img, at, ShellcodeFor(c.platform, jmp)),
                    WithCopy(h, Copied(at, jmp)))
  {
    var code := ShellcodeFor(c.platform, jmp);
    var img' := Overwrite(st.img, at, code);
    forall m | 0 <= m < |st.img| && img'[m] == 0 ensures st.img[m] == 0 {
      OverwriteAt(st.img, at, code, m);
    }
    forall s | f <= s < i && IsJump(orig[s]) && s !in h.sites
      ensures NoRoom(c, img', Length(orig[s]))
    {
      RoomShrinks(c, st.img, img', Length(orig[s]));
    }
  }

  lemma RoomShrinks(c: Config, img: seq<u32>, img': seq<u32>, len: nat)
    requires c.text.Some? ==> c.text.value.FitsIn(|img|)
    requires len <= 8 && |img'| == |img| && NoRoom(c, img, len)
    requires forall m :: 0 <= m < |img| && img'[m] == 0 ==> img[m] == 0
    ensures NoRoom(c, img', len)
  {
    if c.text.Some? {
      var t := c.text.value;
      forall k | t.offset / 4 <= k < t.offset / 4 + t.size / 4 ensures !ZeroRun(img', k, len) {
        assert !ZeroRun(img, k, len);
      }
    }
  }

  // ---------------------------------------------------------------------------------------------
  // Rewriting a site.

  function WithSite(h: History, i: nat): History
    requires |h.copies| > 0
  {
    h.(sites := h.sites[i := |h.copies| - 1])
  }

  lemma SiteKeeps(c: Config, orig: seq<u32>, f: nat, i: nat, end: nat, img: seq<u32>,
                  loc: Option<nat>, h: History)
    requires Setup(c, orig, f, end) && Core(c, orig, f, i, end, img, loc, h) && i < end
    requires loc.Some? && loc.value < |orig| && IsJump(orig[i])
    requires |h.copies| > 0 && (IsBr(orig[i]) || h.copies[|h.copies| - 1].jmp == orig[i])
    ensures Core(c, orig, f, i + 1, end,
                 img[i := BranchWord(c.base, i, loc.value, !IsBr(orig[i]))], loc, WithSite(h, i))
  {
    var w := BranchWord(c.base, i, loc.value, !IsBr(orig[i]));
    SiteKeepsCopies(c, orig, f, i, end, img, h, w);
    SiteKeepsSites(c, orig, f, i, img, loc.value, h, w);
    SiteKeepsFrame(orig, img, h, i, w);
    NonzeroBranch(c.base, i, loc.value, !IsBr(orig[i]));
    SiteKeepsSkipped(c, orig, f, i, img, h, w);
  }

  lemma SiteKeepsCopies(c: Config, orig: seq<u32>, f: nat, i: nat, end: nat, img: seq<u32>, h: History,
                        w: u32)
    requires c.platform < 0x1_0000 && Copies(c, orig, f, end, img, h) && f <= i < end && i < |img|
    requires |h.copies| > 0
    ensures Copies(c, orig, f, end, img[i := w], WithSite(h, i))
  {
    var img' := img[i := w];
    forall m: nat, a | 0 <= a < |h.copies| && InCopy(h.copies[a], m) && m < |img|
      ensures img'[m] == img[m]
    {
      assert CopyOk(c, orig, f, end, img, h.copies[a]);
    }
    CopiesKept(c, orig, f, end, img, img', h);
  }

  lemma SiteKeepsSites(c: Config, orig: seq<u32>, f: nat, i: nat, img: seq<u32>, loc: nat, h: History,
                       w: u32)
    requires Sites(c, orig, f, i, img, h) && f <= i < |img| == |orig| && loc < |orig|
    requires c.base + 4 * |orig| <= TWO64 && IsJump(orig[i])
    requires |h.copies| > 0 && loc == h.copies[|h.copies| - 1].loc
    requires IsBr(orig[i]) || h.copies[|h.copies| - 1].jmp == orig[i]
    requires w == BranchWord(c.base, i, loc, !IsBr(orig[i]))
    ensures Sites(c, orig, f, i + 1, img[i := w], WithSite(h, i))
  {
    var img', h' := img[i := w], WithSite(h, i);
    assert SiteOk(c, orig, f, i + 1, img', h', i);
    forall s | s in h'.sites && s != i ensures SiteOk(c, orig, f, i + 1, img', h', s) {
      SiteElsewhere(c, orig, f, i, img, h, w, s);
    }
  }

  lemma SiteElsewhere(c: Config, orig: seq<u32>, f: nat, i: nat, img: seq<u32>, h: History, w: u32,
                      s: nat)
    requires s in h.sites && SiteOk(c, orig, f, i, img, h, s) && i < |img| && |h.copies| > 0
    ensures SiteOk(c, orig, f, i + 1, img[i := w], WithSite(h, i), s)
  {
  }

  lemma SiteKeepsFrame(orig: seq<u32>, img: seq<u32>, h: History, i: nat, w: u32)
    requires Frame(orig, img, h) && i < |img| && |h.copies| > 0
    ensures Frame(orig, img[i := w], WithSite(h, i))
  {
    forall m | 0 <= m < |img| && img[i := w][m] != orig[m] ensures Touched(WithSite(h, i), m) {
      if m != i {
        assert Touched(h, m);
      }
    }
  }

  lemma SiteKeepsSkipped(c: Config, orig: seq<u32>, f: nat, i: nat, img: seq<u32>, h: History, w: u32)
    requires c.text.Some? ==> c.text.value.FitsIn(|img|)
    requires Skipped(c, orig, f, i, img, h) && i < |img| == |orig| && |h.copies| > 0 && w != 0
    ensures Skipped(c, orig, f, i + 1, img[i := w], WithSite(h, i))
  {
    forall s | f <= s < i + 1 && IsJump(orig[s]) && s !in WithSite(h, i).sites
      ensures NoRoom(c, img[i := w], Length(orig[s]))
    {
      RoomShrinks(c, img, img[i := w], Length(orig[s]));
    }
  }

  // ---------------------------------------------------------------------------------------------
  // One scanned word.

  lemma KnownBefore(orig: seq<u32>, f: nat, i: nat, h: History, h': History)
    requires f <= i < |orig|
    requires h'.sites.Keys <= h.sites.Keys + {i}
    ensures OneRegister(orig, f, i + 1) ==> OneRegister(orig, f, i)
    ensures AllRewritten(orig, f, i + 1, h') ==> AllRewritten(orig, f, i, h)
  {
    if AllRewritten(orig, f, i + 1, h') {
      forall s | f <= s < i && IsJump(orig[s]) ensures s in h.sites {
        assert s in h'.sites;
      }
    }
  }

  /** Nothing to do at a word that is not a jump, or when there is no room. */
  lemma PassKeeps(c: Config, orig: seq<u32>, f: nat, i: nat, end: nat, st: Patch, h: History,
                  loc: Option<nat>)
    requires Setup(c, orig, f, end) && Inv(c, orig, f, i, end, st, h) && i < end
    requires IsJump(orig[i]) ==> NoRoom(c, st.img, Length(orig[i])) && loc.None?
    requires !IsJump(orig[i]) ==> loc == st.loc
    ensures Core(c, orig, f, i + 1, end, st.img, loc, h) && Carriers(orig, f, i + 1, loc, h)
  {
    NextUntouched(c, orig, f, i, end, st, h);
    PassKeepsSites(c, orig, f, i, st.img, h);
    PassKeepsCarriers(orig, f, i, st.loc, h, loc);
  }

  lemma PassKeepsSites(c: Config, orig: seq<u32>, f: nat, i: nat, img: seq<u32>, h: History)
    requires Sites(c, orig, f, i, img, h)
    ensures Sites(c, orig, f, i + 1, img, h)
  {
    forall s | s in h.sites ensures SiteOk(c, orig, f, i + 1, img, h, s) {
      assert SiteOk(c, orig, f, i, img, h, s);
    }
  }

  lemma PassKeepsCarriers(orig: seq<u32>, f: nat, i: nat, loc0: Option<nat>, h: History, loc: Option<nat>)
    requires f <= i < |orig| && Carriers(orig, f, i, loc0, h) && i !in h.sites
    requires if IsJump(orig[i]) then loc.None? else loc == loc0
    ensures Carriers(orig, f, i + 1, loc, h)
  {
    KnownBefore(orig, f, i, h, h);
  }

  lemma CarriedNext(orig: seq<u32>, f: nat, i: nat)
    requires f <= i < |orig|
    ensures Carried(orig, f, i + 1)
         == if IsJump(orig[i]) && (!IsBr(orig[i]) || Carried(orig, f, i).None?) then Some(orig[i])
            else Carried(orig, f, i)
  {
  }

  /** A `br` that reuses the cached shellcode. */
  lemma ReuseKeepsCarriers(orig: seq<u32>, f: nat, i: nat, loc: Option<nat>, h: History)
    requires f <= i < |orig| && Carriers(orig, f, i, loc, h)
    requires IsJump(orig[i]) && IsBr(orig[i]) && loc.Some? && |h.copies| > 0 && i !in h.sites
    ensures Carriers(orig, f, i + 1, loc, WithSite(h, i))
  {
    var h' := WithSite(h, i);
    KnownBefore(orig, f, i, h, h');
    CarriedNext(orig, f, i);
    if Known(orig, f, i + 1, h') {
      forall s | s in h'.sites
        ensures f <= s < |orig| && h'.sites[s] < |h'.copies| && Carries(orig, f, h', s)
      {
        assert s != i ==> s in h.sites && Carries(orig, f, h, s);
      }
    }
  }

  /** A jump that gets a copy of its own. */
  lemma FreshKeepsCarriers(orig: seq<u32>, f: nat, i: nat, loc: Option<nat>, h: History, at: nat)
    requires f <= i < |orig| && Carriers(orig, f, i, loc, h)
    requires IsJump(orig[i]) && (IsBr(orig[i]) ==> loc.None?) && i !in h.sites
    ensures Carriers(orig, f, i + 1, Some(at), WithSite(WithCopy(h, Copied(at, orig[i])), i))
  {
    var h1 := WithCopy(h, Copied(at, orig[i]));
    var h' := WithSite(h1, i);
    KnownBefore(orig, f, i, h, h');
    CarriedNext(orig, f, i);
    if Known(orig, f, i + 1, h') {
      assert Known(orig, f, i, h);
      if IsBr(orig[i]) {
        assert Carried(orig, f, i).None? || Carried(orig, f, i) == Some(orig[i]);
      }
      forall s | s in h'.sites
        ensures f <= s < |orig| && h'.sites[s] < |h'.copies| && Carries(orig, f, h', s)
      {
        assert s != i ==> s in h.sites && Carries(orig, f, h, s);
      }
    }
  }

  lemma InvShaped(c: Config, orig: seq<u32>, f: nat, i: nat, end: nat, st: Patch, h: History)
    requires Setup(c, orig, f, end) && Inv(c, orig, f, i, end, st, h)
    ensures Shaped(c, st)
  {
    if st.loc.Some? {
      assert CopyOk(c, orig, f, end, st.img, h.copies[|h.copies| - 1]);
    }
  }

  /** Scanning one word keeps the invariant. */
  lemma VisitKeeps(c: Config, orig: seq<u32>, f: nat, i: nat, end: nat, st: Patch, h: History)
    returns (h': History)
    requires Setup(c, orig, f, end) && Inv(c, orig, f, i, end, st, h) && i < end
    requires Shaped(c, st) && Avoids(c, st, f, i, end)
    ensures Inv(c, orig, f, i + 1, end, if IsJump(st.img[i]) then Inject(c, st, i).0 else st, h')
  {
    NextUntouched(c, orig, f, i, end, st, h);
    var w := orig[i];
    if !IsJump(w) {
      h' := h;
      PassKeeps(c, orig, f, i, end, st, h, st.loc);
    } else {
      FilledIs(c, st, w);
      if IsBr(w) && st.loc.Some? {
        h' := WithSite(h, i);
        SiteKeeps(c, orig, f, i, end, st.img, st.loc, h);
        ReuseKeepsCarriers(orig, f, i, st.loc, h);
      } else {
        h' := CopyVisit(c, orig, f, i, end, st, h);
      }
    }
  }

  lemma CopyVisit(c: Config, orig: seq<u32>, f: nat, i: nat, end: nat, st: Patch, h: History)
    returns (h': History)
    requires Setup(c, orig, f, end) && Inv(c, orig, f, i, end, st, h) && i < end && Shaped(c, st)
    requires st.img[i] == orig[i] && IsJump(orig[i]) && i !in h.sites
    requires (IsBr(orig[i]) ==> st.loc.None?) && Avoids(c, st, f, i, end)
    ensures Inv(c, orig, f, i + 1, end, Inject(c, st, i).0, h')
  {
    var w := orig[i];
    var st1 := Filled(c, st, w);
    FilledIs(c, st, w);
    if c.text.None? {
      h' := h;
      PassKeeps(c, orig, f, i, end, st, h, None);
    } else {
      var t := c.text.value;
      var at := FirstZeroRun(st.img, t.offset / 4, t.size / 4, Length(w));
      FirstZeroRunFits(st.img, t.offset / 4, t.size / 4, Length(w));
      if at.None? {
        h' := h;
        PassKeeps(c, orig, f, i, end, st, h, None);
      } else {
        h' := FreshVisit(c, orig, f, i, end, st, h, at.value);
      }
    }
  }

  lemma FreshVisit(c: Config, orig: seq<u32>, f: nat, i: nat, end: nat, st: Patch, h: History, at: nat)
    returns (h': History)
    requires Setup(c, orig, f, end) && Inv(c, orig, f, i, end, st, h) && i < end && Shaped(c, st)
    requires st.img[i] == orig[i] && IsJump(orig[i]) && i !in h.sites && c.text.Some?
    requires IsBr(orig[i]) ==> st.loc.None?
    requires FirstZeroRun(st.img, c.text.value.offset / 4, c.text.value.size / 4, Length(orig[i]))
          == Some(at)
    requires Outside(at, Length(orig[i]), f, end)
    ensures Inv(c, orig, f, i + 1, end, Inject(c, st, i).0, h')
  {
    var w := orig[i];
    var code := ShellcodeFor(c.platform, w);
    var h1 := WithCopy(h, Copied(at, w));
    FilledIs(c, st, w);
    FirstZeroRunFits(st.img, c.text.value.offset / 4, c.text.value.size / 4, Length(w));
    RoomIsFree(c, orig, f, i, end, st, h, at, w);
    CopyKeeps(c, orig, f, i, end, st, h, at, w);
    var img1 := Overwrite(st.img, at, code);
    OverwriteAt(st.img, at, code, i);
    SiteKeeps(c, orig, f, i, end, img1, Some(at), h1);
    FreshKeepsCarriers(orig, f, i, st.loc, h, at);
    h' := WithSite(h1, i);
  }

  /** The invariant after the scan of words [i, j). */
  lemma {:induction false} ScanKeeps(c: Config, orig: seq<u32>, f: nat, i: nat, j: nat, end: nat,
                                     st: Patch, h: History)
    returns (h': History)
    requires Setup(c, orig, f, end) && Inv(c, orig, f, i, end, st, h) && i <= j <= end
    requires Shaped(c, st) && Clear(c, st, f, i, end)
    ensures Inv(c, orig, f, j, end, Scan(c, st, i, j), h') && Clear(c, Scan(c, st, i, j), f, j, end)
    decreases j - i
  {
    if i == j {
      h' := h;
    } else {
      h' := VisitKeeps(c, orig, f, i, end, st, h);
      h' := ScanKeeps(c, orig, f, i + 1, j, end,
                      if IsJump(st.img[i]) then Inject(c, st, i).0 else st, h');
    }
  }

  /** A region that no zero run of the text section meets is clear of every run that is chosen. */
  lemma {:induction false} SeparateIsClear(c: Config, orig: seq<u32>, f: nat, i: nat, end: nat,
                                           st: Patch, h: History)
    requires Setup(c, orig, f, end) && Inv(c, orig, f, i, end, st, h) && Separate(c, orig, f, end)
    ensures Shaped(c, st) && Clear(c, st, f, i, end)
    decreases end - i
  {
    InvShaped(c, orig, f, i, end, st, h);
    if i < end {
      SeparateAvoids(c, orig, f, i, end, st, h);
      var h' := VisitKeeps(c, orig, f, i, end, st, h);
      SeparateIsClear(c, orig, f, i + 1, end, if IsJump(st.img[i]) then Inject(c, st, i).0 else st, h');
    }
  }

  lemma SeparateAvoids(c: Config, orig: seq<u32>, f: nat, i: nat, end: nat, st: Patch, h: History)
    requires Setup(c, orig, f, end) && Inv(c, orig, f, i, end, st, h) && i < end && Shaped(c, st)
    requires Separate(c, orig, f, end)
    ensures Avoids(c, st, f, i, end)
  {
    var w := st.img[i];
    if c.text.Some? {
      var t := c.text.value;
      FirstZeroRunFits(st.img, t.offset / 4, t.size / 4, Length(w));
      var at := FirstZeroRun(st.img, t.offset / 4, t.size / 4, Length(w));
      if at.Some? {
        RoomIsFree(c, orig, f, i, end, st, h, at.value, w);
        SeparateRoom(c, orig, f, end, at.value, Length(w));
      }
    }
  }

  lemma StartInv(c: Config, st: Patch, f: nat, end: nat)
    requires Setup(c, st.img, f, end) && Templates(c, st) && st.loc.None? && !st.found
    ensures Inv(c, st.img, f, f, end, st, History([], map[]))
  {
  }
}
