/** `memcpy`, `memmove` and `memset` (src/fakedyld/lib) on a byte memory.  Pointers are indices into
    the memory, so source and destination may overlap. */
module MemOps {
  import opened Bits

  /** `memcpy`: copies upwards, or downwards when the destination lies above the source.  `pos` is a
      C int. */
  method Memcpy(mem: array<u8>, dst: nat, src: nat, n: nat)
    requires dst + n <= mem.Length && src + n <= mem.Length && n < 0x8000_0000
    modifies mem
    ensures mem[..] == old(mem[..dst]) + old(mem[src..src + n]) + old(mem[dst + n..])
  {
    var pos: i32, dir: i32 := 0, 1;
    if dst > src {
      dir := -1;
      pos := n - 1;
    }
    var left := n;
    while left > 0
      invariant 0 <= left <= n
      invariant dir == (if dst > src then -1 else 1)
      invariant pos == if dst > src then left - 1 else n - left
      invariant forall i :: 0 <= i < mem.Length ==>
        mem[i] == if Copied(dst, src, n, left, i) then old(mem[i - dst + src]) else old(mem[i])
    {
      left := left - 1;
      mem[dst + pos] := mem[src + pos];
      pos := pos + dir;
    }
    CopiedParts(old(mem[..]), mem[..], dst, src, n);
  }

  /** The destination holds the old source bytes, and no other byte has changed. */
  ghost predicate CopiedOver(was: seq<u8>, now: seq<u8>, dst: nat, src: nat, n: nat) {
    && dst + n <= |was| && src + n <= |was| && |now| == |was|
    && forall i :: 0 <= i < |now| ==> now[i] == was[if dst <= i < dst + n then i - dst + src else i]
  }

  lemma CopiedParts(was: seq<u8>, now: seq<u8>, dst: nat, src: nat, n: nat)
    requires CopiedOver(was, now, dst, src, n)
    ensures now == was[..dst] + was[src..src + n] + was[dst + n..]
  {
    forall i | 0 <= i < |now| ensures now[i] == (was[..dst] + was[src..src + n] + was[dst + n..])[i] {
      assert now[i] == was[if dst <= i < dst + n then i - dst + src else i];
    }
  }

  /** Byte `i` was copied by the time that `left` bytes remain. */
  ghost predicate Copied(dst: nat, src: nat, n: nat, left: nat, i: int)
    requires left <= n
  {
    if dst > src then dst + left <= i < dst + n else dst <= i < dst + n - left
  }

  method Memmove(mem: array<u8>, dst: nat, src: nat, n: nat)
    requires dst + n <= mem.Length && src + n <= mem.Length && n < 0x8000_0000
    modifies mem
    ensures mem[..] == old(mem[..dst]) + old(mem[src..src + n]) + old(mem[dst + n..])
  {
    Memcpy(mem, dst, src, n);
  }

  /** The fill byte in all four bytes of a word. */
  function FillWord(b: u8): (w: nat) {
    Or(b, Or(Or(Shl(b, 8), Shl(b, 16)), Shl(b, 24)))
  }

  lemma FillWordBytes(b: u8)
    ensures FillWord(b) == b * 0x101_0101
    ensures FillWord(b) % 0x100 == b && FillWord(b) / 0x100 % 0x100 == b
    ensures FillWord(b) / 0x1_0000 % 0x100 == b && FillWord(b) / 0x100_0000 == b
  {
    FillWordValue(b);
    var w := b * 0x101_0101;
    DivModUnique(w, 0x100, b * 0x1_0101, b);
    DivModUnique(w / 0x100, 0x100, b * 0x101, b);
    DivModUnique(w, 0x1_0000, b * 0x101, b * 0x101);
    DivModUnique(w / 0x1_0000, 0x100, b, b);
    DivModUnique(w, 0x100_0000, b, b * 0x1_0101);
  }

  lemma FillWordValue(b: u8)
    ensures FillWord(b) == b * 0x101_0101
  {
    assert Shl(b, 8) == b * 0x100 && Shl(b, 16) == b * 0x1_0000 && Shl(b, 24) == b * 0x100_0000 by {
      Pow2Values();
      ShlIsMul(b, 8);
      ShlIsMul(b, 16);
      ShlIsMul(b, 24);
    }
    OrBytes(b, Shl(b, 8), Shl(b, 16), Shl(b, 24));
  }

  lemma OrBytes(b: u8, x: nat, y: nat, z: nat)
    requires x == b * 0x100 && y == b * 0x1_0000 && z == b * 0x100_0000
    ensures Or(b, Or(Or(x, y), z)) == b * 0x101_0101
  {
    var v := Or(x, y);
    OrThird(b, x, y);
    var w := Or(v, z);
    OrFourth(b, v, z);
    OrFirst(b, w);
  }

  lemma OrThird(b: u8, x: nat, y: nat)
    requires x == b * 0x100 && y == b * 0x1_0000
    ensures Or(x, y) == b * 0x1_0100
  {
    Pow2Values();
    OrAbove(b, x, 16, 0x1_0000);
  }

  lemma OrFourth(b: u8, v: nat, z: nat)
    requires v == b * 0x1_0100 && z == b * 0x100_0000
    ensures Or(v, z) == b * 0x101_0100
  {
    Pow2Values();
    OrAbove(b, v, 24, 0x100_0000);
  }

  lemma OrFirst(b: u8, w: nat)
    requires w == b * 0x101_0100
    ensures Or(b, w) == b * 0x101_0101
  {
    Pow2Values();
    OrAbove(b * 0x1_0101, b, 8, 0x100);
  }

  /** With bits that lie above, an or is a sum. */
  lemma OrAbove(hi: nat, lo: nat, k: nat, p: nat)
    requires p == Pow2(k) && lo < p
    ensures Or(lo, hi * p) == hi * p + lo
  {
    ShlIsMul(hi, k);
    OrDisjoint(hi, lo, k);
    OrComm(hi * p, lo);
  }

  /** A little-endian 32-bit store at an aligned address. */
  method StoreWord(mem: array<u8>, addr: nat, at: nat, w: u32)
    requires at + 4 <= mem.Length && (addr + at) % 4 == 0
    modifies mem
    ensures mem[at] == w % 0x100 && mem[at + 1] == w / 0x100 % 0x100
    ensures mem[at + 2] == w / 0x1_0000 % 0x100 && mem[at + 3] == w / 0x100_0000
    ensures forall i :: 0 <= i < mem.Length && !(at <= i < at + 4) ==> mem[i] == old(mem[i])
  {
    mem[at] := w % 0x100;
    mem[at + 1] := w / 0x100 % 0x100;
    mem[at + 2] := w / 0x1_0000 % 0x100;
    mem[at + 3] := w / 0x100_0000;
  }

  /** Every byte of the range is `b`, and no other byte has changed. */
  ghost predicate FilledWith(was: seq<u8>, now: seq<u8>, s: nat, n: nat, b: u8) {
    |now| == |was| && forall i :: 0 <= i < |now| ==> now[i] == if s <= i < s + n then b else was[i]
  }

  lemma FilledParts(was: seq<u8>, now: seq<u8>, s: nat, n: nat, b: u8)
    requires s + n <= |was| && FilledWith(was, now, s, n, b)
    ensures now == was[..s] + seq(n, _ => b) + was[s + n..]
  {
  }

  /** `memset` of the `n` bytes at index `s` of a memory that starts at address `addr`: the head and
      tail stores and the aligned word loop together write every byte once or more and no other. */
  method Memset(mem: array<u8>, addr: nat, s: nat, c: int, n: nat)
    requires s + n <= mem.Length
    modifies mem
    ensures mem[..] == old(mem[..s]) + seq(n, _ => c % 0x100) + old(mem[s + n..])
  {
    FillBytes(mem, addr, s, c % 0x100, n);
    FilledParts(old(mem[..]), mem[..], s, n, c % 0x100);
  }

  method FillBytes(mem: array<u8>, addr: nat, s: nat, b: u8, n: nat)
    requires s + n <= mem.Length
    modifies mem
    ensures FilledWith(old(mem[..]), mem[..], s, n, b)
  {
    if n == 0 {
      return;
    }
    mem[s + n - 1] := b;
    mem[s] := b;
    if n <= 2 {
      return;
    }
    mem[s + n - 2] := b;
    mem[s + 1] := b;
    mem[s + n - 3] := b;
    mem[s + 2] := b;
    if n <= 6 {
      return;
    }
    mem[s + n - 4] := b;
    mem[s + 3] := b;
    if n <= 8 {
      return;
    }
    var k := -(addr + s) % 4;
    FillWords(mem, addr, s + k, b, (n - k - (n - k) % 4) / 4);
  }

  /** One store of the fill word. */
  method StoreFill(mem: array<u8>, addr: nat, at: nat, b: u8)
    requires at + 4 <= mem.Length && (addr + at) % 4 == 0
    modifies mem
    ensures forall i :: 0 <= i < mem.Length ==> mem[i] == if at <= i < at + 4 then b else old(mem[i])
  {
    FillWordBytes(b);
    StoreWord(mem, addr, at, FillWord(b));
  }

  /** The word loop. */
  method FillWords(mem: array<u8>, addr: nat, start: nat, b: u8, words: nat)
    requires start + 4 * words <= mem.Length && (addr + start) % 4 == 0
    modifies mem
    ensures forall i :: 0 <= i < mem.Length ==>
      mem[i] == if start <= i < start + 4 * words then b else old(mem[i])
  {
    var ws, left := start, words;
    while left > 0
      invariant 0 <= left <= words && ws == start + 4 * (words - left)
      invariant forall i :: 0 <= i < mem.Length ==>
        mem[i] == if start <= i < ws then b else old(mem[i])
    {
      StoreFill(mem, addr, ws, b);
      left, ws := left - 1, ws + 4;
    }
  }
}
