/** How much room a run of the platform patch needs: a zero run of that length is enough for all its
    jumps, because every search takes the first place there is. */
module PatchRoom {
  import opened Bits
  import opened Wrappers
  import opened Arm64
  import opened Shellcode
  import opened Rewrite
  import opened PatchRun
  import opened PatchMeaning

  /** The words of shellcode that the jumps of words [i, end) need: a `br` none if something is cached,
      every other jump those of its own copy. */
  function Demand(orig: seq<u32>, i: nat, end: nat, cached: bool): nat
    requires i <= end <= |orig|
    decreases end - i
  {
    if i == end then 0
    else if !IsJump(orig[i]) || (IsBr(orig[i]) && cached) then Demand(orig, i + 1, end, cached)
    else Length(orig[i]) + Demand(orig, i + 1, end, true)
  }

  /** `len` zero words at `z`, in the text section and outside words [f, end). */
  ghost predicate Roomy(c: Config, img: seq<u32>, z: nat, len: nat, f: nat, end: nat) {
    && c.text.Some?
    && var t := c.text.value;
       && t.FitsIn(|img|) && t.offset / 4 <= z && z + len <= t.offset / 4 + t.size / 4
       && ZeroRun(img, z, len) && Outside(z, len, f, end)
  }

  lemma RoomTakes(img: seq<u32>, at: nat, code: seq<u32>, z: nat, len: nat, i: nat, w: u32)
      returns (z': nat, len': nat)
    requires |code| <= len && z + len <= |img| && ZeroRun(img, z, len) && at <= z
    requires i < |img| && (i < z || z + len <= i)
    ensures z <= z' && z' + len' == z + len && len' + |code| >= len
    ensures ZeroRun(Overwrite(img, at, code)[i := w], z', len')
  {
    z' := if at + |code| <= z then z else at + |code|;
    len' := z + len - z';
    var out := Overwrite(img, at, code)[i := w];
    forall m | z' <= m < z' + len' ensures out[m] == 0 {
      OverwriteAt(img, at, code, m);
    }
  }

  lemma {:induction false} FirstIsBefore(img: seq<u32>, at: nat, n: nat, count: nat, z: nat)
    requires at + n + count <= |img| && at <= z < at + n && ZeroRun(img, z, count)
    ensures FirstZeroRun(img, at, n, count).Some? && FirstZeroRun(img, at, n, count).value <= z
    decreases n
  {
    if !ZeroRun(img, at, count) {
      FirstIsBefore(img, at + 1, n - 1, count, z);
    }
  }

  /** A visit with room patches its jump, and leaves the room that the later ones need. */
  lemma VisitFinds(c: Config, st: Patch, f: nat, i: nat, end: nat, z: nat, len: nat)
      returns (z': nat, len': nat)
    requires Shaped(c, st) && f <= i < end <= |st.img| && IsJump(st.img[i])
    requires Roomy(c, st.img, z, len, f, end) && len >= Demand(st.img, i, end, st.loc.Some?)
    ensures Inject(c, st, i).1 && Inject(c, st, i).0.loc.Some?
    ensures Roomy(c, Inject(c, st, i).0.img, z', len', f, end)
    ensures len' >= Demand(st.img, i + 1, end, true)
  {
    var w := st.img[i];
    if IsBr(w) && st.loc.Some? {
      z', len' := z, len;
    } else {
      var t := c.text.value;
      FirstIsBefore(st.img, t.offset / 4, t.size / 4, Length(w), z);
      z', len' := CopyFinds(c, st, i, z, len);
    }
  }

  lemma CopyFinds(c: Config, st: Patch, i: nat, z: nat, len: nat) returns (z': nat, len': nat)
    requires Shaped(c, st) && i < |st.img| && c.text.Some? && z + len <= |st.img|
    requires (i < z || z + len <= i) && ZeroRun(st.img, z, len) && len >= Length(st.img[i])
    requires !(IsBr(st.img[i]) && st.loc.Some?)
    requires var t := c.text.value;
      var at := FirstZeroRun(st.img, t.offset / 4, t.size / 4, Length(st.img[i]));
      at.Some? && at.value <= z
    ensures Inject(c, st, i).1 && Inject(c, st, i).0.loc.Some?
    ensures z <= z' && z' + len' == z + len && len' + Length(st.img[i]) >= len
    ensures ZeroRun(Inject(c, st, i).0.img, z', len')
  {
    var t, jmp := c.text.value, st.img[i];
    var at := FirstZeroRun(st.img, t.offset / 4, t.size / 4, Length(jmp)).value;
    var st1 := Filled(c, st, jmp);
    var code := if IsBr(jmp) then st1.br else st1.blr;
    FirstZeroRunFits(st.img, t.offset / 4, t.size / 4, Length(jmp));
    var img1 := Overwrite(st.img, at, code);
    z', len' := RoomTakes(st.img, at, code, z, len, i, BranchWord(c.base, i, at, !IsBr(img1[i])));
  }

  lemma {:induction false} SameDemand(a: seq<u32>, b: seq<u32>, i: nat, end: nat, cached: bool)
    requires i <= end <= |a| == |b| && forall m :: i <= m < end ==> a[m] == b[m]
    ensures Demand(a, i, end, cached) == Demand(b, i, end, cached)
    decreases end - i
  {
    if i < end {
      SameDemand(a, b, i + 1, end, cached);
      SameDemand(a, b, i + 1, end, true);
    }
  }

  /** A visit changes no other word of the region. */
  lemma VisitLeaves(c: Config, st: Patch, f: nat, i: nat, end: nat, m: nat)
    requires Shaped(c, st) && f <= i < end <= |st.img| && Avoids(c, st, f, i, end) && IsJump(st.img[i])
    requires f <= m < end && m != i
    ensures Inject(c, st, i).0.img[m] == st.img[m]
  {
    var jmp := st.img[i];
    if !(IsBr(jmp) && st.loc.Some?) && c.text.Some? {
      var t := c.text.value;
      FirstZeroRunFits(st.img, t.offset / 4, t.size / 4, Length(jmp));
      var at := FirstZeroRun(st.img, t.offset / 4, t.size / 4, Length(jmp));
      if at.Some? {
        var st1 := Filled(c, st, jmp);
        OverwriteAt(st.img, at.value, if IsBr(jmp) then st1.br else st1.blr, m);
      }
    }
  }

  /** A patched site is a branch. */
  lemma VisitBranches(c: Config, st: Patch, i: nat)
    requires Shaped(c, st) && i < |st.img| && Inject(c, st, i).1
    ensures !IsJump(Inject(c, st, i).0.img[i])
  {
    var (st1, loc) := Copy(c, st, st.img[i]);
    BranchIsNoJump(c.base, i, loc.value, !IsBr(st1.img[i]));
  }

  function Visited(c: Config, st: Patch, i: nat): (st': Patch)
    requires Shaped(c, st) && i < |st.img|
    ensures Shaped(c, st') && |st'.img| == |st.img|
  {
    if IsJump(st.img[i]) then Inject(c, st, i).0 else st
  }

  lemma ScanStep(c: Config, st: Patch, f: nat, i: nat, end: nat)
    requires Shaped(c, st) && i < end <= |st.img| && Clear(c, st, f, i, end)
    ensures Avoids(c, st, f, i, end) && Clear(c, Visited(c, st, i), f, i + 1, end)
    ensures Scan(c, st, i, end) == Scan(c, Visited(c, st, i), i + 1, end)
  {
  }

  /** The scan changes no word of the region that lies behind it. */
  lemma {:induction false} ScanLeaves(c: Config, st: Patch, f: nat, i: nat, end: nat, m: nat)
    requires Shaped(c, st) && f <= m < i <= end <= |st.img| && Clear(c, st, f, i, end)
    ensures Scan(c, st, i, end).img[m] == st.img[m]
    decreases end - i
  {
    if i < end {
      ScanStep(c, st, f, i, end);
      if IsJump(st.img[i]) {
        VisitLeaves(c, st, f, i, end, m);
      }
      ScanLeaves(c, Visited(c, st, i), f, i + 1, end, m);
    }
  }

  /** One visit with enough room for the rest of the region. */
  lemma VisitWithRoom(c: Config, st: Patch, f: nat, i: nat, end: nat, z: nat, len: nat)
    returns (z': nat, len': nat)
    requires Shaped(c, st) && f <= i < end <= |st.img| && Avoids(c, st, f, i, end)
    requires Roomy(c, st.img, z, len, f, end) && len >= Demand(st.img, i, end, st.loc.Some?)
    ensures var st' := Visited(c, st, i);
      && !IsJump(st'.img[i]) && (forall m :: i < m < end ==> st'.img[m] == st.img[m])
      && Roomy(c, st'.img, z', len', f, end) == true && len' >= Demand(st'.img, i + 1, end, st'.loc.Some?)
  {
    z', len' := z, len;
    if IsJump(st.img[i]) {
      z', len' := VisitFinds(c, st, f, i, end, z, len);
      VisitBranches(c, st, i);
      forall m | i < m < end ensures Inject(c, st, i).0.img[m] == st.img[m] {
        VisitLeaves(c, st, f, i, end, m);
      }
      SameDemand(st.img, Inject(c, st, i).0.img, i + 1, end, true);
    }
  }

  /** The scan behind such a visit still has enough room. */
  lemma RoomStep(c: Config, st: Patch, f: nat, i: nat, end: nat, z: nat, len: nat)
    returns (st': Patch, z': nat, len': nat)
    requires Shaped(c, st) && f <= i < end <= |st.img| && Clear(c, st, f, i, end)
    requires Roomy(c, st.img, z, len, f, end) == true && len >= Demand(st.img, i, end, st.loc.Some?)
    ensures Shaped(c, st') && |st'.img| == |st.img| && Clear(c, st', f, i + 1, end)
    ensures Scan(c, st, i, end) == Scan(c, st', i + 1, end) && !IsJump(st'.img[i])
    ensures Roomy(c, st'.img, z', len', f, end) == true && len' >= Demand(st'.img, i + 1, end, st'.loc.Some?)
  {
    st' := Visited(c, st, i);
    ScanStep(c, st, f, i, end);
    z', len' := VisitWithRoom(c, st, f, i, end, z, len);
  }

  /** With enough room no jump of the rest of the region is left. */
  lemma {:induction false} RoomSuffices(c: Config, st: Patch, f: nat, i: nat, end: nat, z: nat, len: nat,
                                        s: nat)
    requires Shaped(c, st) && f <= i <= s < end <= |st.img| && Clear(c, st, f, i, end)
    requires Roomy(c, st.img, z, len, f, end) == true && len >= Demand(st.img, i, end, st.loc.Some?)
    ensures !IsJump(Scan(c, st, i, end).img[s])
    decreases end - i
  {
    var st', z', len' := RoomStep(c, st, f, i, end, z, len);
    if i == s {
      ScanLeaves(c, st', f, i + 1, end, s);
    } else {
      RoomSuffices(c, st', f, i + 1, end, z', len', s);
    }
  }

  /** An input for which every jump of the region is rewritten: the text section has a zero run, outside
      the region, of as many words as the jumps demand. */
  lemma RoomForAll(c: Config, st: Patch, f: nat, end: nat, z: nat, len: nat)
    requires Start(c, st, f, end) && Roomy(c, st.img, z, len, f, end)
    requires len >= Demand(st.img, f, end, false)
    ensures AllJumpsChanged(st.img, f, end, Patched(c, st, f, end))
  {
    forall s | f <= s < end && IsJump(st.img[s]) ensures Patched(c, st, f, end)[s] != st.img[s] {
      RoomSuffices(c, st, f, f, end, z, len, s);
    }
  }

  /** With that room, the condition of `SharedCacheExact` is one on the input alone. */
  lemma SharedCacheWithRoom(c: Config, st: Patch, f: nat, end: nat, z: nat, len: nat)
    requires Start(c, st, f, end) && Roomy(c, st.img, z, len, f, end)
    requires len >= Demand(st.img, f, end, false)
    ensures (forall s :: f <= s < end && IsJump(st.img[s]) ==>
              OwnCopy(c, st.img, Patched(c, st, f, end), s)) <==> OneRegister(st.img, f, end)
  {
    RoomForAll(c, st, f, end, z, len);
    SharedCacheExact(c, st, f, end);
  }

  // ---------------------------------------------------------------------------------------------
  // Runs with and without room: what the cache holds when a site is visited.

  /** The scan changes nonzero words only inside the region. */
  lemma {:induction false} ScanSpares(c: Config, st: Patch, f: nat, i: nat, end: nat, m: nat)
    requires Shaped(c, st) && f <= i <= end <= |st.img| && Clear(c, st, f, i, end)
    requires m < |st.img| && st.img[m] != 0 && !(f <= m < end)
    ensures Scan(c, st, i, end).img[m] == st.img[m]
    decreases end - i
  {
    if i < end {
      ScanStep(c, st, f, i, end);
      if IsJump(st.img[i]) {
        VisitSpares(c, st, i, m);
      }
      ScanSpares(c, Visited(c, st, i), f, i + 1, end, m);
    }
  }

  lemma VisitSpares(c: Config, st: Patch, i: nat, m: nat)
    requires Shaped(c, st) && i < |st.img| && m < |st.img| && m != i && st.img[m] != 0
    ensures Inject(c, st, i).0.img[m] == st.img[m]
  {
    var jmp := st.img[i];
    if !(IsBr(jmp) && st.loc.Some?) && c.text.Some? {
      var t := c.text.value;
      FirstZeroRunFits(st.img, t.offset / 4, t.size / 4, Length(jmp));
      var at := FirstZeroRun(st.img, t.offset / 4, t.size / 4, Length(jmp));
      if at.Some? {
        var st1 := Filled(c, st, jmp);
        OverwriteAt(st.img, at.value, if IsBr(jmp) then st1.br else st1.blr, m);
      }
    }
  }

  lemma {:induction false} ScanSplits(c: Config, st: Patch, i: nat, j: nat, end: nat)
    requires Shaped(c, st) && i <= j <= end <= |st.img|
    ensures Scan(c, st, i, end) == Scan(c, Scan(c, st, i, j), j, end)
    decreases j - i
  {
    if i < j {
      ScanSplits(c, Visited(c, st, i), i + 1, j, end);
    }
  }

  /** The code at `l` is a copy outside the region that carries the jump `w`. */
  ghost predicate HoldsCopy(c: Config, img: seq<u32>, f: nat, end: nat, l: nat, w: u32) {
    && c.platform < 0x1_0000 && IsJump(w) && CodeAt(img, l, ShellcodeFor(c.platform, w))
    && Outside(l, Length(w), f, end)
  }

  /** The rest of the scan leaves a copy as it is. */
  lemma CopyStays(c: Config, st: Patch, f: nat, i: nat, end: nat, l: nat, w: u32)
    requires Shaped(c, st) && f <= i <= end <= |st.img| && Clear(c, st, f, i, end)
    requires HoldsCopy(c, st.img, f, end, l, w)
    ensures HoldsCopy(c, Scan(c, st, i, end).img, f, end, l, w)
  {
    var code, out := ShellcodeFor(c.platform, w), Scan(c, st, i, end).img;
    forall m | l <= m < l + |code| ensures out[m] == st.img[m] {
      CodeAtIndex(st.img, l, code, m - l);
      NonzeroWord(c.platform, w, m - l);
      if i < end {
        ScanSpares(c, st, f, i, end, m);
      }
    }
    CopyElsewhere(st.img, out, l, code);
  }

  lemma NonzeroWord(platform: nat, w: u32, k: nat)
    requires platform < 0x1_0000 && IsJump(w) && k < Length(w)
    ensures ShellcodeFor(platform, w)[k] != 0
  {
    JumpWords(w);
    assert w != 0;
  }

  /** A site whose branch leads to the copy of jump `v` has its own copy just if it is that jump. */
  lemma LedTo(c: Config, orig: seq<u32>, out: seq<u32>, f: nat, end: nat, s: nat, l: nat, v: u32)
    requires HoldsCopy(c, out, f, end, l, v) && s < |out| == |orig|
    requires Leads(c.base, out, s, l, !IsBr(orig[s]))
    ensures OwnCopy(c, orig, out, s) <==> v == orig[s]
  {
    if OwnCopy(c, orig, out, s) {
      var k :| Leads(c.base, out, s, k, !IsBr(orig[s]))
            && CodeAt(out, k, ShellcodeFor(c.platform, orig[s]));
      BranchWordInjective(c.base, s, k, l, !IsBr(orig[s]));
      SameCopy(c, out, l, v, orig[s]);
    }
  }

  /** The jump of the shellcode that a visit uses: that of the cache for a `br` that finds one, else the
      site's own. */
  ghost predicate Uses(c: Config, st: Patch, s: nat, v: u32)
    requires s < |st.img| && c.platform < 0x1_0000
  {
    if IsBr(st.img[s]) && st.loc.Some?
    then CodeAt(st.img, st.loc.value, ShellcodeFor(c.platform, v))
    else v == st.img[s]
  }

  /** What the invariant says about the cache and the templates. */
  ghost predicate CacheOk(c: Config, st: Patch, f: nat, end: nat) {
    && c.platform < 0x1_0000 && Templates(c, st)
    && (st.loc.Some? ==> exists v :: HoldsCopy(c, st.img, f, end, st.loc.value, v))
  }

  lemma InvCache(c: Config, orig: seq<u32>, f: nat, i: nat, end: nat, st: Patch, h: History)
    requires Setup(c, orig, f, end) && Inv(c, orig, f, i, end, st, h)
    ensures CacheOk(c, st, f, end)
  {
    if st.loc.Some? {
      var k := h.copies[|h.copies| - 1];
      assert CopyOk(c, orig, f, end, st.img, k);
      assert HoldsCopy(c, st.img, f, end, st.loc.value, k.jmp);
    }
  }

  /** A patched site branches to a copy of the jump that the visit uses. */
  lemma VisitLeads(c: Config, f: nat, s: nat, end: nat, st: Patch) returns (l: nat, v: u32)
    requires CacheOk(c, st, f, end) && Shaped(c, st) && f <= s < end <= |st.img|
    requires Avoids(c, st, f, s, end) && IsJump(st.img[s]) && Inject(c, st, s).1
    ensures Uses(c, st, s, v) && HoldsCopy(c, Inject(c, st, s).0.img, f, end, l, v)
    ensures l < |st.img| && Inject(c, st, s).0.img[s] == BranchWord(c.base, s, l, !IsBr(st.img[s]))
  {
    if IsBr(st.img[s]) && st.loc.Some? {
      l := st.loc.value;
      v :| HoldsCopy(c, st.img, f, end, l, v);
      CopyElsewhere(st.img, Inject(c, st, s).0.img, l, ShellcodeFor(c.platform, v));
    } else {
      l, v := FreshLeads(c, f, s, end, st);
    }
  }

  lemma FreshLeads(c: Config, f: nat, s: nat, end: nat, st: Patch) returns (l: nat, v: u32)
    requires c.platform < 0x1_0000 && Templates(c, st) && Shaped(c, st) && f <= s < end <= |st.img|
    requires IsJump(st.img[s]) && !(IsBr(st.img[s]) && st.loc.Some?) && Avoids(c, st, f, s, end)
    requires Inject(c, st, s).1
    ensures v == st.img[s] && HoldsCopy(c, Inject(c, st, s).0.img, f, end, l, v)
    ensures l < |st.img| && Inject(c, st, s).0.img[s] == BranchWord(c.base, s, l, !IsBr(st.img[s]))
  {
    v := st.img[s];
    var t := c.text.value;
    FilledIs(c, st, v);
    FirstZeroRunFits(st.img, t.offset / 4, t.size / 4, Length(v));
    l := FirstZeroRun(st.img, t.offset / 4, t.size / 4, Length(v)).value;
    var code := ShellcodeFor(c.platform, v);
    var img1 := Overwrite(st.img, l, code);
    assert img1[l..l + |code|] == code;
    OverwriteAt(st.img, l, code, s);
    CopyElsewhere(img1, Inject(c, st, s).0.img, l, code);
  }

  /** The cache serves site `s`: no `br` finds the shellcode of another jump there. */
  ghost predicate Serves(c: Config, st: Patch, f: nat, s: nat)
    requires Shaped(c, st) && f <= s < |st.img| && c.platform < 0x1_0000
  {
    var now := Scan(c, st, f, s);
    IsBr(st.img[s]) && now.loc.Some? ==>
      CodeAt(now.img, now.loc.value, ShellcodeFor(c.platform, st.img[s]))
  }

  /** In every run, with or without room for all its jumps, a rewritten site leads to shellcode of its
      own jump if and only if the cache serves it when it is visited. */
  lemma CacheExact(c: Config, st: Patch, f: nat, end: nat, s: nat)
    requires Start(c, st, f, end) && f <= s < end && IsJump(st.img[s])
    requires Patched(c, st, f, end)[s] != st.img[s]
    ensures OwnCopy(c, st.img, Patched(c, st, f, end), s) <==> Serves(c, st, f, s)
  {
    StartInv(c, st, f, end);
    var h := ScanKeeps(c, st.img, f, f, s, end, st, History([], map[]));
    ScanSplits(c, st, f, s, end);
    SiteExact(c, st.img, f, s, end, Scan(c, st, f, s), h);
  }

  /** The visit of a site that is rewritten in the end. */
  lemma SiteIsPatched(c: Config, f: nat, s: nat, end: nat, now: Patch)
    requires Shaped(c, now) && f <= s < end <= |now.img| && Clear(c, now, f, s, end) && IsJump(now.img[s])
    requires Scan(c, now, s, end).img[s] != now.img[s]
    ensures var st' := Visited(c, now, s);
      && st' == Inject(c, now, s).0 && Inject(c, now, s).1 && Avoids(c, now, f, s, end)
      && Clear(c, st', f, s + 1, end) && Scan(c, now, s, end) == Scan(c, st', s + 1, end)
      && Scan(c, st', s + 1, end).img[s] == st'.img[s]
  {
    ScanStep(c, now, f, s, end);
    ScanLeaves(c, Visited(c, now, s), f, s + 1, end, s);
  }

  /** Site `s` of the image branches to a copy of jump `v` at `l`. */
  ghost predicate SiteHolds(c: Config, img: seq<u32>, f: nat, end: nat, s: nat, link: bool, l: nat, v: u32) {
    HoldsCopy(c, img, f, end, l, v) && Leads(c.base, img, s, l, link)
  }

  /** Where a rewritten site leads, after its visit ... */
  lemma VisitHolds(c: Config, f: nat, s: nat, end: nat, now: Patch) returns (st': Patch, l: nat, v: u32)
    requires CacheOk(c, now, f, end) && Shaped(c, now) && f <= s < end <= |now.img| <= 0x200_0000
    requires Clear(c, now, f, s, end) && IsJump(now.img[s])
    requires Scan(c, now, s, end).img[s] != now.img[s]
    ensures Shaped(c, st') && |st'.img| == |now.img| && Clear(c, st', f, s + 1, end)
    ensures Scan(c, now, s, end) == Scan(c, st', s + 1, end)
    ensures Uses(c, now, s, v) && SiteHolds(c, st'.img, f, end, s, !IsBr(now.img[s]), l, v)
  {
    st' := Visited(c, now, s);
    SiteIsPatched(c, f, s, end, now);
    l, v := VisitLeads(c, f, s, end, now);
  }

  /** ... and at the end of the run. */
  lemma HoldsAfter(c: Config, f: nat, s: nat, end: nat, st: Patch, link: bool, l: nat, v: u32)
    requires Shaped(c, st) && f <= s < end <= |st.img| && Clear(c, st, f, s + 1, end)
    requires SiteHolds(c, st.img, f, end, s, link, l, v)
    ensures SiteHolds(c, Scan(c, st, s + 1, end).img, f, end, s, link, l, v)
  {
    CopyStays(c, st, f, s + 1, end, l, v);
    ScanLeaves(c, st, f, s + 1, end, s);
  }

  lemma SiteExact(c: Config, orig: seq<u32>, f: nat, s: nat, end: nat, now: Patch, h: History)
    requires Setup(c, orig, f, end) && Inv(c, orig, f, s, end, now, h) && s < end && IsJump(orig[s])
    requires Shaped(c, now) && Clear(c, now, f, s, end) && Scan(c, now, s, end).img[s] != orig[s]
    ensures OwnCopy(c, orig, Scan(c, now, s, end).img, s)
       <==> (IsBr(orig[s]) && now.loc.Some? ==>
               CodeAt(now.img, now.loc.value, ShellcodeFor(c.platform, orig[s])))
  {
    NextUntouched(c, orig, f, s, end, now, h);
    var out := Scan(c, now, s, end).img;
    InvCache(c, orig, f, s, end, now, h);
    var st', l, v := VisitHolds(c, f, s, end, now);
    HoldsAfter(c, f, s, end, st', !IsBr(orig[s]), l, v);
    LedTo(c, orig, out, f, end, s, l, v);
    UsesOwn(c, now, s, v);
  }

  lemma UsesOwn(c: Config, now: Patch, s: nat, v: u32)
    requires s < |now.img| && c.platform < 0x1_0000 && Uses(c, now, s, v)
    ensures v == now.img[s]
       <==> (IsBr(now.img[s]) && now.loc.Some? ==>
               CodeAt(now.img, now.loc.value, ShellcodeFor(c.platform, now.img[s])))
  {
    var w := now.img[s];
    if IsBr(w) && now.loc.Some? && CodeAt(now.img, now.loc.value, ShellcodeFor(c.platform, w)) {
      SameCopy(c, now.img, now.loc.value, v, w);
    }
  }

  // ---------------------------------------------------------------------------------------------
  // The failing runs: `br Xn` and `br Xm` in one region, followed by a text section of zeros.

  function TwoBranches(v: u32, w: u32): (img: seq<u32>)
    ensures |img| == 14 && img[0] == v && img[1] == w && forall m :: 2 <= m < 14 ==> img[m] == 0
  {
    [v, w, 0, 0, 0, 0, 0, 0, 0, 0, 0, 0, 0, 0]
  }

  const TWO_CONFIG: Config := Config(0, Some(Text(8, 16)), 2)

  function TwoStart(v: u32, w: u32): Patch {
    Patch(TwoBranches(v, w), None, BrShellcode(0, 0), BlrShellcode(0, 0), false)
  }

  lemma BrWordJumps(n: nat)
    requires n < 32
    ensures IsJump(BrWord(n)) && IsBr(BrWord(n))
  {
    var w := BrWord(n);
    assert JumpReg(w) == n && w / 0x20_0000 % 2 == 0;
    JumpWords(w);
    BrMask(w);
    JumpMask(w);
    WordFields(w);
  }

  lemma TwoStarts(v: u32, w: u32)
    requires IsJump(v) && IsBr(v) && IsJump(w) && IsBr(w)
    ensures Start(TWO_CONFIG, TwoStart(v, w), 0, 2)
    ensures Roomy(TWO_CONFIG, TwoBranches(v, w), 2, 4, 0, 2) && Demand(TwoBranches(v, w), 0, 2, false) == 4
    ensures Carried(TwoBranches(v, w), 0, 1) == Some(v)
  {
    var img := TwoBranches(v, w);
    SeparateStart(TWO_CONFIG, TwoStart(v, w), 0, 2);
    assert Demand(img, 2, 2, true) == 0;
    assert Demand(img, 1, 2, true) == 0;
    assert Carried(img, 0, 0) == None;
  }

  /** For any two different registers all jumps of this run are rewritten, but the second site does not
      lead to its own shellcode. */
  lemma TwoBranchesLost(n: nat, m: nat)
    requires n < 32 && m < 32 && n != m
    ensures var img, st := TwoBranches(BrWord(n), BrWord(m)), TwoStart(BrWord(n), BrWord(m));
      && Start(TWO_CONFIG, st, 0, 2) && AllJumpsChanged(img, 0, 2, Patched(TWO_CONFIG, st, 0, 2))
      && !OwnCopy(TWO_CONFIG, img, Patched(TWO_CONFIG, st, 0, 2), 1)
  {
    BrWordJumps(n);
    BrWordJumps(m);
    TwoStarts(BrWord(n), BrWord(m));
    LostAt(TwoStart(BrWord(n), BrWord(m)));
  }

  lemma LostAt(st: Patch)
    requires Start(TWO_CONFIG, st, 0, 2) && |st.img| == 14 && IsJump(st.img[1]) && IsBr(st.img[1])
    requires Roomy(TWO_CONFIG, st.img, 2, 4, 0, 2) && Demand(st.img, 0, 2, false) == 4
    requires Carried(st.img, 0, 1) == Some(st.img[0]) && st.img[0] != st.img[1]
    ensures var out := Patched(TWO_CONFIG, st, 0, 2);
      AllJumpsChanged(st.img, 0, 2, out) && !OwnCopy(TWO_CONFIG, st.img, out, 1)
  {
    RoomForAll(TWO_CONFIG, st, 0, 2, 2, 4);
    SharedShellcodeLost(TWO_CONFIG, st, 0, 2, 1);
  }
}
