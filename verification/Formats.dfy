/** Translation between file pointers and virtual addresses for Mach-O, ELF and PE images
    (plooshfinder/src/formats): lookups of the first range that contains an address, and the round
    trips that disjoint ranges give. */
module Formats {
  import opened Bits
  import opened Wrappers

  // ---------------------------------------------------------------------------------------------
  // First matching entry of a table.

  function First<T>(s: seq<T>, p: T -> bool): (r: Option<T>)
    ensures r.Some? ==> p(r.value)
  {
    if s == [] then None else if p(s[0]) then Some(s[0]) else First(s[1..], p)
  }

  lemma {:induction false} FirstIs<T>(s: seq<T>, p: T -> bool, i: nat)
    requires i < |s| && p(s[i])
    requires forall j :: 0 <= j < i ==> !p(s[j])
    ensures First(s, p) == Some(s[i])
  {
    if i > 0 {
      FirstIs(s[1..], p, i - 1);
    }
  }

  lemma {:induction false} FirstNone<T>(s: seq<T>, p: T -> bool)
    requires forall j :: 0 <= j < |s| ==> !p(s[j])
    ensures First(s, p) == None
  {
    if s != [] {
      FirstNone(s[1..], p);
    }
  }

  /** The range test of every lookup; the end wraps around like the 64-bit sum in the code. */
  predicate InRange(start: u64, size: u64, a: u64) {
    start <= a && (start + size) % TWO64 > a
  }

  ghost predicate Fits(start: int, size: int) { 0 <= start && 0 <= size && start + size < TWO64 }

  ghost predicate Disjoint(a: int, asize: int, b: int, bsize: int) {
    asize <= 0 || bsize <= 0 || a + asize <= b || b + bsize <= a
  }

  lemma InRangeFits(start: u64, size: u64, a: u64)
    requires Fits(start, size)
    ensures InRange(start, size, a) <==> start <= a < start + size
  {
  }

  /** The range test never holds outside the range, also where the sum wraps around. */
  lemma InRangeWithin(start: u64, size: u64, a: u64)
    ensures InRange(start, size, a) ==> start <= a < start + size
  {
    if start + size >= TWO64 {
      DivModUnique(start + size, TWO64, 1, start + size - TWO64);
    } else {
      SmallMod(start + size, TWO64);
    }
  }

  /** The range test with a base that the start is relative to. */
  lemma InRangeAt(base: u64, start: nat, size: u64, a: u64)
    requires Fits(base + start, size)
    ensures InRange((base + start) % TWO64, size, a) <==> start <= a - base < start + size
  {
    SmallMod(base + start, TWO64);
    InRangeFits(base + start, size, a);
  }

  // ---------------------------------------------------------------------------------------------
  // Mach-O.

  datatype Section = Section(addr: u64, size: u64, offset: u32)

  datatype Command =
    | Segment(vmaddr: u64, vmsize: u64, fileoff: u64, filesize: u64, sections: seq<Section>)
    | OtherCommand

  /** An image at pointer `buf`; `magic` is the answer of `macho_check`. */
  datatype MachO = MachO(magic: bool, buf: u64, commands: seq<Command>)

  /** The result of a translation: an address or pointer, a null result, or the dereference of a null
      section. */
  datatype Outcome = Address(value: u64) | Null | Fault

  predicate SegmentHasVa(c: Command, a: u64) { c.Segment? && InRange(c.vmaddr, c.vmsize, a) }

  predicate SegmentHasPtr(c: Command, buf: u64, p: u64) {
    c.Segment? && InRange((buf + c.fileoff) % TWO64, c.filesize, p)
  }

  predicate SectionHasVa(s: Section, a: u64) { InRange(s.addr, s.size, a) }

  predicate SectionHasPtr(s: Section, buf: u64, p: u64) {
    InRange((buf + s.offset) % TWO64, s.size, p)
  }

  function SegmentForVa(m: MachO, a: u64): Option<Command> {
    if m.magic then First(m.commands, c => SegmentHasVa(c, a)) else None
  }

  function SectionForVa(seg: Command, a: u64): Option<Section>
    requires seg.Segment?
  {
    First(seg.sections, s => SectionHasVa(s, a))
  }

  function SegmentForPtr(m: MachO, p: u64): Option<Command> {
    if m.magic then First(m.commands, c => SegmentHasPtr(c, m.buf, p)) else None
  }

  function SectionForPtr(seg: Command, buf: u64, p: u64): Option<Section>
    requires seg.Segment?
  {
    First(seg.sections, s => SectionHasPtr(s, buf, p))
  }

  /** `macho_va_to_ptr`. */
  function VaToPtr(m: MachO, a: u64): Outcome {
    var seg := SegmentForVa(m, a);
    if seg.None? then Null
    else if seg.value.vmaddr == a then Address((m.buf + seg.value.fileoff) % TWO64)
    else
      var sect := SectionForVa(seg.value, a);
      if sect.None? then Fault
      else Address((m.buf + sect.value.offset + (a - sect.value.addr)) % TWO64)
  }

  /** `macho_ptr_to_va`; the null result is the address 0. */
  function PtrToVa(m: MachO, p: u64): Outcome {
    if !m.magic then Null
    else
      var seg := SegmentForPtr(m, p);
      if seg.None? then Fault
      else
        var sect := SectionForPtr(seg.value, m.buf, p);
        if sect.None? then Fault
        else Address((sect.value.addr + (p - m.buf - sect.value.offset)) % TWO64)
  }

  method FindSegmentForVa(m: MachO, a: u64) returns (r: Option<Command>)
    ensures r == SegmentForVa(m, a)
  {
    if !m.magic { return None; }
    var i := 0;
    while i < |m.commands|
      invariant 0 <= i <= |m.commands|
      invariant forall j :: 0 <= j < i ==> !SegmentHasVa(m.commands[j], a)
    {
      var c := m.commands[i];
      if c.Segment? && c.vmaddr <= a && (c.vmaddr + c.vmsize) % TWO64 > a {
        FirstIs(m.commands, c => SegmentHasVa(c, a), i);
        return Some(c);
      }
      i := i + 1;
    }
    FirstNone(m.commands, c => SegmentHasVa(c, a));
    return None;
  }

  method FindSectionForVa(seg: Command, a: u64) returns (r: Option<Section>)
    requires seg.Segment?
    ensures r == SectionForVa(seg, a)
  {
    var i := 0;
    while i < |seg.sections|
      invariant 0 <= i <= |seg.sections|
      invariant forall j :: 0 <= j < i ==> !SectionHasVa(seg.sections[j], a)
    {
      var s := seg.sections[i];
      if s.addr <= a && (s.addr + s.size) % TWO64 > a {
        FirstIs(seg.sections, s => SectionHasVa(s, a), i);
        return Some(s);
      }
      i := i + 1;
    }
    FirstNone(seg.sections, s => SectionHasVa(s, a));
    return None;
  }

  method FindSegmentForPtr(m: MachO, p: u64) returns (r: Option<Command>)
    ensures r == SegmentForPtr(m, p)
  {
    if !m.magic { return None; }
    var i := 0;
    while i < |m.commands|
      invariant 0 <= i <= |m.commands|
      invariant forall j :: 0 <= j < i ==> !SegmentHasPtr(m.commands[j], m.buf, p)
    {
      var c := m.commands[i];
      if c.Segment? {
        var start := (m.buf + c.fileoff) % TWO64;
        if start <= p && (start + c.filesize) % TWO64 > p {
          FirstIs(m.commands, c => SegmentHasPtr(c, m.buf, p), i);
          return Some(c);
        }
      }
      i := i + 1;
    }
    FirstNone(m.commands, c => SegmentHasPtr(c, m.buf, p));
    return None;
  }

  method FindSectionForPtr(seg: Command, buf: u64, p: u64) returns (r: Option<Section>)
    requires seg.Segment?
    ensures r == SectionForPtr(seg, buf, p)
  {
    var i := 0;
    while i < |seg.sections|
      invariant 0 <= i <= |seg.sections|
      invariant forall j :: 0 <= j < i ==> !SectionHasPtr(seg.sections[j], buf, p)
    {
      var s := seg.sections[i];
      var start := (buf + s.offset) % TWO64;
      if start <= p && (start + s.size) % TWO64 > p {
        FirstIs(seg.sections, s => SectionHasPtr(s, buf, p), i);
        return Some(s);
      }
      i := i + 1;
    }
    FirstNone(seg.sections, s => SectionHasPtr(s, buf, p));
    return None;
  }

  /** A section with contents in the file; a zero-fill section has the offset 0. */
  predicate Backed(s: Section) { s.offset != 0 }

  /** A segment and its sections fit the address space and the file, the sections lie inside the
      segment, and no two of them overlap in memory, nor does one with contents in the file overlap an
      earlier one there. */
  ghost predicate SegmentOk(seg: Command, buf: u64)
    requires seg.Segment?
  {
    && Fits(seg.vmaddr, seg.vmsize) && Fits(buf + seg.fileoff, seg.filesize)
    && (forall i :: 0 <= i < |seg.sections| ==> SectionOk(seg, seg.sections[i]))
    && (forall i, j :: 0 <= i < j < |seg.sections| ==> SectionsApart(seg.sections[i], seg.sections[j]))
  }

  ghost predicate SectionOk(seg: Command, s: Section)
    requires seg.Segment?
  {
    && seg.vmaddr <= s.addr && s.addr + s.size <= seg.vmaddr + seg.vmsize
    && (Backed(s) ==> seg.fileoff <= s.offset && s.offset + s.size <= seg.fileoff + seg.filesize)
  }

  ghost predicate SectionsApart(s: Section, t: Section) {
    && Disjoint(s.addr, s.size, t.addr, t.size)
    && (Backed(t) ==> Disjoint(s.offset, s.size, t.offset, t.size))
  }

  ghost predicate CommandsApart(c: Command, d: Command) {
    c.Segment? && d.Segment? ==>
      && Disjoint(c.vmaddr, c.vmsize, d.vmaddr, d.vmsize)
      && Disjoint(c.fileoff, c.filesize, d.fileoff, d.filesize)
  }

  ghost predicate MachOOk(m: MachO) {
    && m.magic
    && (forall i :: 0 <= i < |m.commands| && m.commands[i].Segment? ==> SegmentOk(m.commands[i], m.buf))
    && (forall i, j :: 0 <= i < j < |m.commands| ==> CommandsApart(m.commands[i], m.commands[j]))
  }

  /** A section that starts its segment in memory also starts it in the file. */
  ghost predicate StartsAlike(seg: Command, s: Section)
    requires seg.Segment?
  {
    s.addr == seg.vmaddr ==> s.offset == seg.fileoff
  }

  /** The pointer `p` lies in segment `seg` in the file as the address `a` does in memory. */
  ghost predicate InSegment(seg: Command, buf: u64, a: u64, p: u64)
    requires seg.Segment?
  {
    && seg.vmaddr <= a < seg.vmaddr + seg.vmsize
    && seg.fileoff <= p - buf < seg.fileoff + seg.filesize
  }

  ghost predicate InSection(s: Section, buf: u64, a: u64, p: u64) {
    s.addr <= a < s.addr + s.size && p - buf == s.offset + (a - s.addr)
  }

  lemma SegmentHit(seg: Command, buf: u64, a: u64, p: u64)
    requires seg.Segment? && SegmentOk(seg, buf)
    ensures SegmentHasVa(seg, a) <==> seg.vmaddr <= a < seg.vmaddr + seg.vmsize
    ensures SegmentHasPtr(seg, buf, p) <==> seg.fileoff <= p - buf < seg.fileoff + seg.filesize
  {
    InRangeFits(seg.vmaddr, seg.vmsize, a);
    InRangeFits(buf + seg.fileoff, seg.filesize, p);
  }

  lemma SectionHit(seg: Command, s: Section, buf: u64, a: u64, p: u64)
    requires seg.Segment? && SegmentOk(seg, buf) && SectionOk(seg, s)
    ensures SectionHasVa(s, a) <==> s.addr <= a < s.addr + s.size
    ensures Backed(s) ==> (SectionHasPtr(s, buf, p) <==> s.offset <= p - buf < s.offset + s.size)
    ensures !Backed(s) && SectionHasPtr(s, buf, p) ==> 0 <= p - buf < s.size
  {
    InRangeFits(s.addr, s.size, a);
    if Backed(s) {
      InRangeFits(buf + s.offset, s.size, p);
    } else {
      InRangeWithin(buf, s.size, p);
      SmallMod(buf, TWO64);
    }
  }

  /** In a well-formed image the lookups find the only segment that qualifies, ... */
  lemma SegmentFound(m: MachO, i: nat, a: u64, p: u64)
    requires MachOOk(m) && i < |m.commands| && m.commands[i].Segment?
    requires InSegment(m.commands[i], m.buf, a, p)
    ensures SegmentForVa(m, a) == Some(m.commands[i]) == SegmentForPtr(m, p)
  {
    SegmentHit(m.commands[i], m.buf, a, p);
    forall k | 0 <= k < i
      ensures !SegmentHasVa(m.commands[k], a) && !SegmentHasPtr(m.commands[k], m.buf, p)
    {
      if m.commands[k].Segment? {
        SegmentHit(m.commands[k], m.buf, a, p);
        assert CommandsApart(m.commands[k], m.commands[i]);
      }
    }
    FirstIs(m.commands, c => SegmentHasVa(c, a), i);
    FirstIs(m.commands, c => SegmentHasPtr(c, m.buf, p), i);
  }

  /** ... and in it the only section. */
  lemma SectionFound(seg: Command, buf: u64, j: nat, a: u64, p: u64)
    requires seg.Segment? && SegmentOk(seg, buf) && j < |seg.sections| && Backed(seg.sections[j])
    requires InSection(seg.sections[j], buf, a, p)
    ensures SectionForVa(seg, a) == Some(seg.sections[j]) == SectionForPtr(seg, buf, p)
  {
    SectionHit(seg, seg.sections[j], buf, a, p);
    forall k | 0 <= k < j
      ensures !SectionHasVa(seg.sections[k], a) && !SectionHasPtr(seg.sections[k], buf, p)
    {
      SectionHit(seg, seg.sections[k], buf, a, p);
      assert SectionsApart(seg.sections[k], seg.sections[j]);
    }
    FirstIs(seg.sections, t => SectionHasVa(t, a), j);
    FirstIs(seg.sections, t => SectionHasPtr(t, buf, p), j);
  }

  /** The place in the file that belongs to address `a` of section `s`. */
  function FilePlace(m: MachO, s: Section, a: u64): int { m.buf + s.offset + (a - s.addr) }

  ghost predicate HasSection(m: MachO, seg: Command, s: Section) {
    seg in m.commands && seg.Segment? && s in seg.sections
  }

  /** From a pointer into a file-backed section to its address always; from the address back to the
      pointer except, possibly, at the first address of the segment, where the segment's file offset
      is used. */
  lemma MachOTranslates(m: MachO, seg: Command, s: Section, a: u64)
    requires MachOOk(m) && HasSection(m, seg, s) && Backed(s) && s.addr <= a < s.addr + s.size
    ensures 0 <= FilePlace(m, s, a) < TWO64
    ensures PtrToVa(m, FilePlace(m, s, a)) == Address(a)
    ensures VaToPtr(m, a)
         == Address(if a == seg.vmaddr then m.buf + seg.fileoff else FilePlace(m, s, a))
  {
    var i :| 0 <= i < |m.commands| && m.commands[i] == seg;
    var j :| 0 <= j < |seg.sections| && seg.sections[j] == s;
    assert SegmentOk(seg, m.buf) && SectionOk(seg, s);
    var p := FilePlace(m, s, a);
    SegmentFound(m, i, a, p);
    SectionFound(seg, m.buf, j, a, p);
    Translates(m, seg, s, a, p);
  }

  lemma Translates(m: MachO, seg: Command, s: Section, a: u64, p: u64)
    requires m.magic && seg.Segment? && Fits(m.buf + seg.fileoff, seg.filesize)
    requires p == FilePlace(m, s, a) && s.addr <= a
    requires SegmentForVa(m, a) == Some(seg) == SegmentForPtr(m, p)
    requires SectionForVa(seg, a) == Some(s) == SectionForPtr(seg, m.buf, p)
    ensures PtrToVa(m, p) == Address(a)
    ensures VaToPtr(m, a) == Address(if a == seg.vmaddr then m.buf + seg.fileoff else p)
  {
    SmallMod(p, TWO64);
    SmallMod(a, TWO64);
    SmallMod(m.buf + seg.fileoff, TWO64);
  }

  /** At address `a` of section `s` the two translations undo each other. */
  ghost predicate RoundTripAt(m: MachO, s: Section, a: u64) {
    var p := FilePlace(m, s, a);
    0 <= p < TWO64 && VaToPtr(m, a) == Address(p) && PtrToVa(m, p) == Address(a)
  }

  lemma MachORoundTripAt(m: MachO, seg: Command, s: Section, a: u64)
    requires MachOOk(m) && HasSection(m, seg, s) && Backed(s) && s.addr <= a < s.addr + s.size
    ensures RoundTripAt(m, s, a) <==> (a == seg.vmaddr ==> StartsAlike(seg, s))
  {
    assert SegmentOk(seg, m.buf) && SectionOk(seg, s);
    MachOTranslates(m, seg, s, a);
  }

  /** The round trips hold on every file-backed section of a well-formed image exactly when every
      non-empty one that starts its segment in memory also starts it in the file. */
  lemma MachORoundTrip(m: MachO)
    requires MachOOk(m)
    ensures (forall seg, s, a: u64 ::
              HasSection(m, seg, s) && Backed(s) && s.addr <= a < s.addr + s.size ==> RoundTripAt(m, s, a))
       <==> forall seg, s :: HasSection(m, seg, s) && Backed(s) && s.size > 0 ==> StartsAlike(seg, s)
  {
    forall seg, s, a: u64 | HasSection(m, seg, s) && Backed(s) && s.addr <= a < s.addr + s.size
      ensures RoundTripAt(m, s, a) <==> (a == seg.vmaddr ==> StartsAlike(seg, s))
    {
      MachORoundTripAt(m, seg, s, a);
    }
    forall seg, s | HasSection(m, seg, s) && Backed(s) && s.size > 0
      ensures RoundTripAt(m, s, s.addr) <==> StartsAlike(seg, s)
      ensures forall a: u64 :: s.addr <= a < s.addr + s.size && StartsAlike(seg, s) ==> RoundTripAt(m, s, a)
    {
      MachORoundTripAt(m, seg, s, s.addr);
    }
  }

  // Every address and every pointer, also those that belong to no section.

  /** `a` lies in the memory of segment `seg`. */
  ghost predicate InMemory(seg: Command, a: u64) {
    seg.Segment? && seg.vmaddr <= a < seg.vmaddr + seg.vmsize
  }

  /** `p` lies in the file range of segment `seg`. */
  ghost predicate InFile(seg: Command, buf: u64, p: u64) {
    seg.Segment? && buf + seg.fileoff <= p < buf + seg.fileoff + seg.filesize
  }

  lemma SegmentForVaIs(m: MachO, seg: Command, a: u64)
    requires MachOOk(m) && seg in m.commands && InMemory(seg, a)
    ensures SegmentForVa(m, a) == Some(seg)
  {
    var i :| 0 <= i < |m.commands| && m.commands[i] == seg;
    SegmentHit(seg, m.buf, a, 0);
    forall k | 0 <= k < i ensures !SegmentHasVa(m.commands[k], a) {
      if m.commands[k].Segment? {
        SegmentHit(m.commands[k], m.buf, a, 0);
        assert CommandsApart(m.commands[k], m.commands[i]);
      }
    }
    FirstIs(m.commands, c => SegmentHasVa(c, a), i);
  }

  lemma SectionForVaIs(seg: Command, buf: u64, s: Section, a: u64)
    requires seg.Segment? && SegmentOk(seg, buf) && s in seg.sections && s.addr <= a < s.addr + s.size
    ensures SectionForVa(seg, a) == Some(s)
  {
    var j :| 0 <= j < |seg.sections| && seg.sections[j] == s;
    SectionHit(seg, s, buf, a, 0);
    forall k | 0 <= k < j ensures !SectionHasVa(seg.sections[k], a) {
      SectionHit(seg, seg.sections[k], buf, a, 0);
      assert SectionsApart(seg.sections[k], seg.sections[j]);
    }
    FirstIs(seg.sections, t => SectionHasVa(t, a), j);
  }

  /** The first address of every non-empty segment is translated by the file offset of the segment,
      whether a section lies there or not. */
  lemma SegmentStartTranslates(m: MachO, seg: Command)
    requires MachOOk(m) && seg in m.commands && seg.Segment? && seg.vmsize > 0
    ensures VaToPtr(m, seg.vmaddr) == Address((m.buf + seg.fileoff) % TWO64)
    ensures m.buf + seg.fileoff < TWO64
  {
    assert SegmentOk(seg, m.buf);
    SegmentForVaIs(m, seg, seg.vmaddr);
  }

  /** Any other address of a section is translated by the file offset of the section, also where that
      is the 0 of a zero-fill section. */
  lemma SectionTranslates(m: MachO, seg: Command, s: Section, a: u64)
    requires MachOOk(m) && HasSection(m, seg, s) && s.addr <= a < s.addr + s.size && a != seg.vmaddr
    ensures VaToPtr(m, a) == Address((m.buf + s.offset + (a - s.addr)) % TWO64)
  {
    assert SegmentOk(seg, m.buf) && SectionOk(seg, s);
    SegmentForVaIs(m, seg, a);
    SectionForVaIs(seg, m.buf, s, a);
  }

  /** An address in no segment has no pointer. */
  lemma NoSegmentForVa(m: MachO, a: u64)
    requires MachOOk(m) && forall seg :: seg in m.commands ==> !InMemory(seg, a)
    ensures VaToPtr(m, a) == Null
  {
    forall k | 0 <= k < |m.commands| ensures !SegmentHasVa(m.commands[k], a) {
      assert m.commands[k] in m.commands;
      if m.commands[k].Segment? {
        SegmentHit(m.commands[k], m.buf, a, 0);
      }
    }
    FirstNone(m.commands, c => SegmentHasVa(c, a));
  }

  /** An address in a segment that is neither its first nor in one of its sections makes the code
      dereference null. */
  lemma NoSectionForVa(m: MachO, seg: Command, a: u64)
    requires MachOOk(m) && seg in m.commands && InMemory(seg, a) && a != seg.vmaddr
    requires forall s :: s in seg.sections ==> !(s.addr <= a < s.addr + s.size)
    ensures VaToPtr(m, a) == Fault
  {
    SegmentForVaIs(m, seg, a);
    forall k | 0 <= k < |seg.sections| ensures !SectionHasVa(seg.sections[k], a) {
      assert seg.sections[k] in seg.sections;
      InRangeWithin(seg.sections[k].addr, seg.sections[k].size, a);
    }
    FirstNone(seg.sections, s => SectionHasVa(s, a));
  }

  /** The pointer lies in a section, by its file range, of the segment. */
  ghost predicate InSectionOf(seg: Command, buf: u64, p: u64) {
    seg.Segment? && exists s :: s in seg.sections && buf + s.offset <= p < buf + s.offset + s.size
  }

  /** A pointer into no segment of the file, or into one but into no section of it, makes the code
      dereference null. */
  lemma NoSectionForPtr(m: MachO, p: u64)
    requires MachOOk(m)
    requires forall seg :: seg in m.commands && InFile(seg, m.buf, p) ==> !InSectionOf(seg, m.buf, p)
    ensures PtrToVa(m, p) == Fault
  {
    var seg := SegmentForPtr(m, p);
    if seg.Some? {
      FirstIn(m.commands, c => SegmentHasPtr(c, m.buf, p));
      assert SegmentOk(seg.value, m.buf);
      SegmentHit(seg.value, m.buf, 0, p);
      NoSectionHasPtr(seg.value, m.buf, p);
    }
  }

  lemma NoSectionHasPtr(seg: Command, buf: u64, p: u64)
    requires seg.Segment? && SegmentOk(seg, buf) && !InSectionOf(seg, buf, p)
    ensures SectionForPtr(seg, buf, p) == None
  {
    forall k | 0 <= k < |seg.sections| ensures !SectionHasPtr(seg.sections[k], buf, p) {
      assert seg.sections[k] in seg.sections && SectionOk(seg, seg.sections[k]);
      SectionHit(seg, seg.sections[k], buf, 0, p);
    }
    FirstNone(seg.sections, s => SectionHasPtr(s, buf, p));
  }

  lemma {:induction false} FirstIn<T>(s: seq<T>, p: T -> bool)
    ensures First(s, p).Some? ==> First(s, p).value in s
  {
    if s != [] && !p(s[0]) {
      FirstIn(s[1..], p);
    }
  }

  /** What is not a Mach-O image has neither. */
  lemma NotMachO(m: MachO, a: u64, p: u64)
    requires !m.magic
    ensures VaToPtr(m, a) == Null == PtrToVa(m, p)
  {
  }

  /** A well-formed image on which a round trip fails: its one section starts its segment in memory,
      but not in the file. */
  lemma MachORoundTripLost()
    ensures var s := Section(0x4000, 0x10, 0x180);
      var seg := Segment(0x4000, 0x100, 0x100, 0x100, [s]);
      var m := MachO(true, 0x1_0000, [seg]);
      && MachOOk(m) && HasSection(m, seg, s) && Backed(s) && PtrToVa(m, 0x1_0180) == Address(0x4000)
      && VaToPtr(m, 0x4000) == Address(0x1_0100) && !RoundTripAt(m, s, 0x4000)
  {
    var s := Section(0x4000, 0x10, 0x180);
    var seg := Segment(0x4000, 0x100, 0x100, 0x100, [s]);
    var m := MachO(true, 0x1_0000, [seg]);
    assert MachOOk(m) && seg in m.commands && s in seg.sections;
    MachOTranslates(m, seg, s, 0x4000);
    MachORoundTripAt(m, seg, s, 0x4000);
  }

  // ---------------------------------------------------------------------------------------------
  // ELF program headers and PE sections.  Here a null result is the number 0.

  /** A program header; `load` says that its type is PT_LOAD. */
  datatype ProgramHeader = ProgramHeader(load: bool, vaddr: u64, offset: u64, filesize: u64)

  datatype Elf = Elf(buf: u64, headers: seq<ProgramHeader>)

  predicate HeaderHasVa(h: ProgramHeader, a: u64) { h.load && InRange(h.vaddr, h.filesize, a) }

  predicate HeaderHasPtr(h: ProgramHeader, buf: u64, p: u64) {
    h.load && InRange((buf + h.offset) % TWO64, h.filesize, p)
  }

  function ElfVaToPtr(e: Elf, a: u64): u64 {
    var h := First(e.headers, h => HeaderHasVa(h, a));
    if h.None? then 0 else (e.buf + h.value.offset + (a - h.value.vaddr)) % TWO64
  }

  function ElfPtrToVa(e: Elf, p: u64): u64 {
    var h := First(e.headers, h => HeaderHasPtr(h, e.buf, p));
    if h.None? then 0
    else (h.value.vaddr + (p - (e.buf + h.value.offset) % TWO64)) % TWO64
  }

  method ElfTranslateVa(e: Elf, a: u64) returns (p: u64)
    ensures p == ElfVaToPtr(e, a)
  {
    var i := 0;
    while i < |e.headers|
      invariant 0 <= i <= |e.headers|
      invariant forall j :: 0 <= j < i ==> !HeaderHasVa(e.headers[j], a)
    {
      var h := e.headers[i];
      if h.load && h.vaddr <= a && (h.vaddr + h.filesize) % TWO64 > a {
        FirstIs(e.headers, h => HeaderHasVa(h, a), i);
        return (e.buf + h.offset + (a - h.vaddr)) % TWO64;
      }
      i := i + 1;
    }
    FirstNone(e.headers, h => HeaderHasVa(h, a));
    return 0;
  }

  method ElfTranslatePtr(e: Elf, p: u64) returns (a: u64)
    ensures a == ElfPtrToVa(e, p)
  {
    var i := 0;
    while i < |e.headers|
      invariant 0 <= i <= |e.headers|
      invariant forall j :: 0 <= j < i ==> !HeaderHasPtr(e.headers[j], e.buf, p)
    {
      var h := e.headers[i];
      var start := (e.buf + h.offset) % TWO64;
      if h.load && start <= p && (start + h.filesize) % TWO64 > p {
        FirstIs(e.headers, h => HeaderHasPtr(h, e.buf, p), i);
        return (h.vaddr + (p - start)) % TWO64;
      }
      i := i + 1;
    }
    FirstNone(e.headers, h => HeaderHasPtr(h, e.buf, p));
    return 0;
  }

  ghost predicate HeaderOk(h: ProgramHeader, buf: u64) {
    h.load ==> Fits(h.vaddr, h.filesize) && Fits(buf + h.offset, h.filesize)
  }

  ghost predicate HeadersApart(g: ProgramHeader, h: ProgramHeader) {
    g.load && h.load ==>
      && Disjoint(g.vaddr, g.filesize, h.vaddr, h.filesize)
      && Disjoint(g.offset, g.filesize, h.offset, h.filesize)
  }

  ghost predicate ElfOk(e: Elf) {
    && (forall i :: 0 <= i < |e.headers| ==> HeaderOk(e.headers[i], e.buf))
    && (forall i, j :: 0 <= i < j < |e.headers| ==> HeadersApart(e.headers[i], e.headers[j]))
  }

  lemma HeaderHit(h: ProgramHeader, buf: u64, a: u64, p: u64)
    requires h.load && HeaderOk(h, buf)
    ensures HeaderHasVa(h, a) <==> h.vaddr <= a < h.vaddr + h.filesize
    ensures HeaderHasPtr(h, buf, p) <==> h.offset <= p - buf < h.offset + h.filesize
  {
    InRangeFits(h.vaddr, h.filesize, a);
    InRangeFits(buf + h.offset, h.filesize, p);
  }

  /** Over the file-backed range of a loaded header of a well-formed ELF image the translations undo
      each other, in both directions. */
  lemma ElfRoundTrip(e: Elf, h: ProgramHeader, a: u64)
    requires ElfOk(e) && h in e.headers && h.load && h.vaddr <= a < h.vaddr + h.filesize
    ensures var p := e.buf + h.offset + (a - h.vaddr);
      0 <= p < TWO64 && ElfVaToPtr(e, a) == p && ElfPtrToVa(e, p) == a
  {
    var i :| 0 <= i < |e.headers| && e.headers[i] == h;
    var p := e.buf + h.offset + (a - h.vaddr);
    HeaderHit(h, e.buf, a, p);
    forall k | 0 <= k < i
      ensures !HeaderHasVa(e.headers[k], a) && !HeaderHasPtr(e.headers[k], e.buf, p)
    {
      if e.headers[k].load {
        HeaderHit(e.headers[k], e.buf, a, p);
        assert HeadersApart(e.headers[k], h);
      }
    }
    FirstIs(e.headers, g => HeaderHasVa(g, a), i);
    FirstIs(e.headers, g => HeaderHasPtr(g, e.buf, p), i);
    SmallMod(p, TWO64);
    SmallMod(a, TWO64);
    SmallMod(e.buf + h.offset, TWO64);
  }

  /** Where no loaded header has the address, or the pointer, the result is 0. */
  lemma ElfMisses(e: Elf, a: u64, p: u64)
    requires ElfOk(e)
    ensures (forall h :: h in e.headers && h.load ==> !(h.vaddr <= a < h.vaddr + h.filesize))
            ==> ElfVaToPtr(e, a) == 0
    ensures (forall h :: h in e.headers && h.load ==> !(h.offset <= p - e.buf < h.offset + h.filesize))
            ==> ElfPtrToVa(e, p) == 0
  {
    forall k | 0 <= k < |e.headers| && e.headers[k].load
      ensures HeaderHasVa(e.headers[k], a)
         <==> e.headers[k].vaddr <= a < e.headers[k].vaddr + e.headers[k].filesize
      ensures HeaderHasPtr(e.headers[k], e.buf, p)
         <==> e.headers[k].offset <= p - e.buf < e.headers[k].offset + e.headers[k].filesize
    {
      HeaderHit(e.headers[k], e.buf, a, p);
    }
    if forall k :: 0 <= k < |e.headers| ==> !HeaderHasVa(e.headers[k], a) {
      FirstNone(e.headers, h => HeaderHasVa(h, a));
    }
    if forall k :: 0 <= k < |e.headers| ==> !HeaderHasPtr(e.headers[k], e.buf, p) {
      FirstNone(e.headers, h => HeaderHasPtr(h, e.buf, p));
    }
  }

  datatype PeSection = PeSection(vaddr: u32, vsize: u32, raw: u32, rawSize: u32)

  datatype Pe = Pe(buf: u64, imageBase: u64, sections: seq<PeSection>)

  predicate PeHasVa(s: PeSection, imageBase: u64, a: u64) {
    InRange((imageBase + s.vaddr) % TWO64, s.vsize, a)
  }

  predicate PeHasPtr(s: PeSection, buf: u64, p: u64) { InRange((buf + s.raw) % TWO64, s.rawSize, p) }

  function PeVaToPtr(e: Pe, a: u64): u64 {
    var s := First(e.sections, s => PeHasVa(s, e.imageBase, a));
    if s.None? then 0
    else (e.buf + s.value.raw + (a - (e.imageBase + s.value.vaddr) % TWO64)) % TWO64
  }

  function PePtrToVa(e: Pe, p: u64): u64 {
    var s := First(e.sections, s => PeHasPtr(s, e.buf, p));
    if s.None? then 0
    else (e.imageBase + s.value.vaddr + (p - (e.buf + s.value.raw) % TWO64)) % TWO64
  }

  method PeTranslateVa(e: Pe, a: u64) returns (p: u64)
    ensures p == PeVaToPtr(e, a)
  {
    var i := 0;
    while i < |e.sections|
      invariant 0 <= i <= |e.sections|
      invariant forall j :: 0 <= j < i ==> !PeHasVa(e.sections[j], e.imageBase, a)
    {
      var s := e.sections[i];
      var start := (e.imageBase + s.vaddr) % TWO64;
      if start <= a && (start + s.vsize) % TWO64 > a {
        FirstIs(e.sections, s => PeHasVa(s, e.imageBase, a), i);
        return (e.buf + s.raw + (a - start)) % TWO64;
      }
      i := i + 1;
    }
    FirstNone(e.sections, s => PeHasVa(s, e.imageBase, a));
    return 0;
  }

  method PeTranslatePtr(e: Pe, p: u64) returns (a: u64)
    ensures a == PePtrToVa(e, p)
  {
    var i := 0;
    while i < |e.sections|
      invariant 0 <= i <= |e.sections|
      invariant forall j :: 0 <= j < i ==> !PeHasPtr(e.sections[j], e.buf, p)
    {
      var s := e.sections[i];
      var start := (e.buf + s.raw) % TWO64;
      if start <= p && (start + s.rawSize) % TWO64 > p {
        FirstIs(e.sections, s => PeHasPtr(s, e.buf, p), i);
        return (e.imageBase + s.vaddr + (p - start)) % TWO64;
      }
      i := i + 1;
    }
    FirstNone(e.sections, s => PeHasPtr(s, e.buf, p));
    return 0;
  }

  ghost predicate PeSectionOk(e: Pe, s: PeSection) {
    Fits(e.imageBase + s.vaddr, s.vsize) && Fits(e.buf + s.raw, s.rawSize)
  }

  ghost predicate PeSectionsApart(s: PeSection, t: PeSection) {
    Disjoint(s.vaddr, s.vsize, t.vaddr, t.vsize) && Disjoint(s.raw, s.rawSize, t.raw, t.rawSize)
  }

  ghost predicate PeOk(e: Pe) {
    && (forall i :: 0 <= i < |e.sections| ==> PeSectionOk(e, e.sections[i]))
    && (forall i, j :: 0 <= i < j < |e.sections| ==> PeSectionsApart(e.sections[i], e.sections[j]))
  }

  lemma PeHit(e: Pe, s: PeSection, a: u64, p: u64)
    requires PeSectionOk(e, s)
    ensures PeHasVa(s, e.imageBase, a) <==> s.vaddr <= a - e.imageBase < s.vaddr + s.vsize
    ensures PeHasPtr(s, e.buf, p) <==> s.raw <= p - e.buf < s.raw + s.rawSize
  {
    InRangeAt(e.imageBase, s.vaddr, s.vsize, a);
    InRangeAt(e.buf, s.raw, s.rawSize, p);
  }

  lemma PeSectionForVaIs(e: Pe, s: PeSection, a: u64)
    requires PeOk(e) && s in e.sections && s.vaddr <= a - e.imageBase < s.vaddr + s.vsize
    ensures First(e.sections, t => PeHasVa(t, e.imageBase, a)) == Some(s)
  {
    var i :| 0 <= i < |e.sections| && e.sections[i] == s;
    PeHit(e, s, a, 0);
    forall j | 0 <= j < i ensures !PeHasVa(e.sections[j], e.imageBase, a) {
      PeHit(e, e.sections[j], a, 0);
      assert PeSectionsApart(e.sections[j], s);
    }
    FirstIs(e.sections, t => PeHasVa(t, e.imageBase, a), i);
  }

  lemma PeSectionForPtrIs(e: Pe, s: PeSection, p: u64)
    requires PeOk(e) && s in e.sections && s.raw <= p - e.buf < s.raw + s.rawSize
    ensures First(e.sections, t => PeHasPtr(t, e.buf, p)) == Some(s)
  {
    var i :| 0 <= i < |e.sections| && e.sections[i] == s;
    PeHit(e, s, 0, p);
    forall j | 0 <= j < i ensures !PeHasPtr(e.sections[j], e.buf, p) {
      PeHit(e, e.sections[j], 0, p);
      assert PeSectionsApart(e.sections[j], s);
    }
    FirstIs(e.sections, t => PeHasPtr(t, e.buf, p), i);
  }

  /** Every address in the memory of a section is translated to the byte as far behind the start of its
      raw data, also where the raw data has ended before, ... */
  lemma PeVaTranslates(e: Pe, s: PeSection, k: nat)
    requires PeOk(e) && s in e.sections && k < s.vsize
    ensures e.imageBase + s.vaddr + k < TWO64
    ensures PeVaToPtr(e, e.imageBase + s.vaddr + k) == (e.buf + s.raw + k) % TWO64
  {
    assert PeSectionOk(e, s);
    PeSectionForVaIs(e, s, e.imageBase + s.vaddr + k);
    SmallMod(e.imageBase + s.vaddr, TWO64);
  }

  /** ... and every pointer into its raw data to the address as far behind its start. */
  lemma PePtrTranslates(e: Pe, s: PeSection, k: nat)
    requires PeOk(e) && s in e.sections && k < s.rawSize
    ensures e.buf + s.raw + k < TWO64
    ensures PePtrToVa(e, e.buf + s.raw + k) == (e.imageBase + s.vaddr + k) % TWO64
  {
    assert PeSectionOk(e, s);
    PeSectionForPtrIs(e, s, e.buf + s.raw + k);
    SmallMod(e.buf + s.raw, TWO64);
  }

  /** Over the part of a section of a well-formed PE image that is both in memory and in the file, the
      translations undo each other, in both directions. */
  lemma PeRoundTrip(e: Pe, s: PeSection, k: nat)
    requires PeOk(e) && s in e.sections && k < s.vsize && k < s.rawSize
    ensures var a, p := e.imageBase + s.vaddr + k, e.buf + s.raw + k;
      a < TWO64 && p < TWO64 && PeVaToPtr(e, a) == p && PePtrToVa(e, p) == a
  {
    PeVaTranslates(e, s, k);
    PePtrTranslates(e, s, k);
    SmallMod(e.imageBase + s.vaddr + k, TWO64);
    SmallMod(e.buf + s.raw + k, TWO64);
  }

  /** Where no section has the address, or the pointer, the result is 0. */
  lemma PeMisses(e: Pe, a: u64, p: u64)
    requires PeOk(e)
    ensures (forall s :: s in e.sections ==> !(s.vaddr <= a - e.imageBase < s.vaddr + s.vsize))
            ==> PeVaToPtr(e, a) == 0
    ensures (forall s :: s in e.sections ==> !(s.raw <= p - e.buf < s.raw + s.rawSize))
            ==> PePtrToVa(e, p) == 0
  {
    forall k | 0 <= k < |e.sections|
      ensures PeHasVa(e.sections[k], e.imageBase, a)
         <==> e.sections[k].vaddr <= a - e.imageBase < e.sections[k].vaddr + e.sections[k].vsize
      ensures PeHasPtr(e.sections[k], e.buf, p)
         <==> e.sections[k].raw <= p - e.buf < e.sections[k].raw + e.sections[k].rawSize
    {
      PeHit(e, e.sections[k], a, p);
    }
    if forall k :: 0 <= k < |e.sections| ==> !PeHasVa(e.sections[k], e.imageBase, a) {
      FirstNone(e.sections, s => PeHasVa(s, e.imageBase, a));
    }
    if forall k :: 0 <= k < |e.sections| ==> !PeHasPtr(e.sections[k], e.buf, p) {
      FirstNone(e.sections, s => PeHasPtr(s, e.buf, p));
    }
  }

  // ---------------------------------------------------------------------------------------------
  // Dispatch on the format (multi.c).

  /** A binary by the answers of the three format checks. */
  datatype Binary = MachOBinary(m: MachO) | ElfBinary(e: Elf) | PeBinary(p: Pe) | UnknownBinary

  /** `pf_va_to_ptr` and `pf_ptr_to_va`; null is the number 0. */
  function AnyVaToPtr(b: Binary, a: u64): Outcome {
    match b
    case MachOBinary(m) => VaToPtr(m, a)
    case ElfBinary(e) => Address(ElfVaToPtr(e, a))
    case PeBinary(p) => Address(PeVaToPtr(p, a))
    case UnknownBinary => Null
  }

  function AnyPtrToVa(b: Binary, p: u64): Outcome {
    match b
    case MachOBinary(m) => PtrToVa(m, p)
    case ElfBinary(e) => Address(ElfPtrToVa(e, p))
    case PeBinary(pe) => Address(PePtrToVa(pe, p))
    case UnknownBinary => Null
  }

  /** Address `a` is at pointer `p` by an entry of the tables of a well-formed binary. */
  ghost predicate MachOMaps(m: MachO, seg: Command, s: Section, a: u64, p: u64) {
    && MachOOk(m) && HasSection(m, seg, s) && Backed(s) && StartsAlike(seg, s)
    && s.addr <= a < s.addr + s.size && p == FilePlace(m, s, a)
  }

  ghost predicate ElfMaps(e: Elf, h: ProgramHeader, a: u64, p: u64) {
    && ElfOk(e) && h in e.headers && h.load
    && h.vaddr <= a < h.vaddr + h.filesize && p == e.buf + h.offset + (a - h.vaddr)
  }

  ghost predicate PeMaps(e: Pe, s: PeSection, a: u64, p: u64) {
    var k := a - e.imageBase - s.vaddr;
    PeOk(e) && s in e.sections && 0 <= k < s.vsize && k < s.rawSize && p == e.buf + s.raw + k
  }

  ghost predicate Maps(b: Binary, a: u64, p: u64) {
    match b
    case MachOBinary(m) => exists seg, s :: MachOMaps(m, seg, s, a, p)
    case ElfBinary(e) => exists h :: ElfMaps(e, h, a, p)
    case PeBinary(e) => exists s :: PeMaps(e, s, a, p)
    case UnknownBinary => false
  }

  lemma MachOMapsBoth(m: MachO, seg: Command, s: Section, a: u64, p: u64)
    requires MachOMaps(m, seg, s, a, p)
    ensures VaToPtr(m, a) == Address(p) && PtrToVa(m, p) == Address(a)
  {
    MachORoundTripAt(m, seg, s, a);
  }

  lemma ElfMapsBoth(e: Elf, h: ProgramHeader, a: u64, p: u64)
    requires ElfMaps(e, h, a, p)
    ensures ElfVaToPtr(e, a) == p && ElfPtrToVa(e, p) == a
  {
    ElfRoundTrip(e, h, a);
  }

  lemma PeMapsBoth(e: Pe, s: PeSection, a: u64, p: u64)
    requires PeMaps(e, s, a, p)
    ensures PeVaToPtr(e, a) == p && PePtrToVa(e, p) == a
  {
    PeRoundTrip(e, s, a - e.imageBase - s.vaddr);
  }

  /** Whatever the format, an address and a pointer that the tables relate are translated into each
      other. */
  lemma AnyRoundTrip(b: Binary, a: u64, p: u64)
    requires Maps(b, a, p)
    ensures AnyVaToPtr(b, a) == Address(p) && AnyPtrToVa(b, p) == Address(a)
  {
    match b
    case MachOBinary(m) =>
      var seg, s :| MachOMaps(m, seg, s, a, p);
      MachOMapsBoth(m, seg, s, a, p);
    case ElfBinary(e) =>
      var h :| ElfMaps(e, h, a, p);
      ElfMapsBoth(e, h, a, p);
    case PeBinary(e) =>
      var s :| PeMaps(e, s, a, p);
      PeMapsBoth(e, s, a, p);
    case UnknownBinary =>
  }

  /** Without a format that is recognised there is no translation. */
  lemma UnknownHasNone(a: u64, p: u64)
    ensures AnyVaToPtr(UnknownBinary, a) == Null == AnyPtrToVa(UnknownBinary, p)
  {
  }
}
