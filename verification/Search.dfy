/** Substring search: Boyer-Moore-Horspool, backtracking and naive (memmem.c, strstr.c), all equal to
    one reference search. */
module Search {
  import opened Bits
  import opened Wrappers

  ghost predicate Occurs(hay: seq<u8>, needle: seq<u8>, at: nat) {
    at + |needle| <= |hay| && hay[at..at + |needle|] == needle
  }

  /** The reference: try every position from `at` on. */
  ghost function FindFrom(hay: seq<u8>, needle: seq<u8>, at: nat): (r: Option<nat>)
    decreases |hay| - at
  {
    if at + |needle| > |hay| then None
    else if Occurs(hay, needle, at) then Some(at)
    else FindFrom(hay, needle, at + 1)
  }

  ghost function Find(hay: seq<u8>, needle: seq<u8>): Option<nat> { FindFrom(hay, needle, 0) }

  /** The reference finds the first occurrence, and none exactly when there is none. */
  lemma {:induction false} FindIsFirst(hay: seq<u8>, needle: seq<u8>, at: nat)
    ensures var r := FindFrom(hay, needle, at);
      && (r.Some? ==> at <= r.value && Occurs(hay, needle, r.value)
                      && forall k :: at <= k < r.value ==> !Occurs(hay, needle, k))
      && (r.None? ==> forall k :: at <= k ==> !Occurs(hay, needle, k))
    decreases |hay| - at
  {
    if at + |needle| <= |hay| && !Occurs(hay, needle, at) {
      FindIsFirst(hay, needle, at + 1);
    }
  }

  /** Positions without an occurrence can be skipped. */
  lemma {:induction false} SkipTo(hay: seq<u8>, needle: seq<u8>, at: nat, next: nat)
    requires at <= next && forall k :: at <= k < next ==> !Occurs(hay, needle, k)
    ensures FindFrom(hay, needle, at) == FindFrom(hay, needle, next)
    decreases next - at
  {
    if at < next {
      SkipTo(hay, needle, at + 1, next);
    }
  }

  // ---------------------------------------------------------------------------------------------
  // Boyer-Moore-Horspool.

  /** What the shift table knows about the first `n` bytes of the needle: a shift is at least one, at
      most the needle's length, and never jumps past an earlier copy of its byte. */
  ghost predicate SkipTable(skip: seq<nat>, needle: seq<u8>, n: nat)
    requires n < |needle|
  {
    && |skip| == 256
    && (forall c :: 0 <= c < 256 ==> 1 <= skip[c] <= |needle|)
    && (forall i :: 0 <= i < n ==> skip[needle[i]] <= |needle| - 1 - i)
  }

  /** A shift by the table passes over no occurrence. */
  lemma ShiftIsSafe(hay: seq<u8>, needle: seq<u8>, skip: seq<nat>, h: nat, k: nat)
    requires |needle| > 0 && h + |needle| <= |hay|
    requires SkipTable(skip, needle, |needle| - 1)
    requires h < k < h + skip[hay[h + |needle| - 1]]
    ensures !Occurs(hay, needle, k)
  {
    var i := |needle| - 1 - (k - h);
    assert skip[needle[i]] <= |needle| - 1 - i;
    assert hay[k + i] != needle[i];
    MismatchAt(hay, needle, k, i);
  }

  lemma ShiftKeeps(hay: seq<u8>, needle: seq<u8>, skip: seq<nat>, h: nat, next: nat)
    requires |needle| > 0 && h + |needle| <= |hay| && SkipTable(skip, needle, |needle| - 1)
    requires !Occurs(hay, needle, h) && next == h + skip[hay[h + |needle| - 1]]
    ensures FindFrom(hay, needle, h) == FindFrom(hay, needle, next)
  {
    forall k | h <= k < next ensures !Occurs(hay, needle, k) {
      if h < k {
        ShiftIsSafe(hay, needle, skip, h, k);
      }
    }
    SkipTo(hay, needle, h, next);
  }

  /** The preprocessing: the default shift everywhere, then the last place of every byte before the
      needle's end. */
  method ShiftTable(needle: seq<u8>) returns (badCharSkip: array<nat>)
    requires needle != []
    ensures SkipTable(badCharSkip[..], needle, |needle| - 1)
  {
    var nlen := |needle|;
    badCharSkip := new nat[256];
    var scan: nat := 0;
    while scan <= 255
      invariant 0 <= scan <= 256
      invariant forall c :: 0 <= c < scan ==> badCharSkip[c] == nlen
    {
      badCharSkip[scan] := nlen;
      scan := scan + 1;
    }
    var last := nlen - 1;
    scan := 0;
    while scan < last
      invariant 0 <= scan <= last && SkipTable(badCharSkip[..], needle, scan)
    {
      badCharSkip[needle[scan]] := last - scan;
      scan := scan + 1;
    }
  }

  /** The comparison from the needle's end; on a mismatch it stops at the mismatching byte. */
  method MatchesBackwards(haystack: seq<u8>, needle: seq<u8>, h: nat) returns (found: bool)
    requires needle != [] && h + |needle| <= |haystack|
    ensures found <==> Occurs(haystack, needle, h)
  {
    var last := |needle| - 1;
    var scan := last;
    while haystack[h + scan] == needle[scan]
      invariant 0 <= scan <= last
      invariant forall i :: scan < i <= last ==> haystack[h + i] == needle[i]
      decreases scan
    {
      if scan == 0 {
        return true;
      }
      scan := scan - 1;
    }
    MismatchAt(haystack, needle, h, scan);
    return false;
  }

  /** `h` is how far the haystack pointer has advanced, and `hlen` what is left from there. */
  method BoyerMooreHorspool(haystack: seq<u8>, needle: seq<u8>) returns (r: Option<nat>)
    ensures r == if needle == [] then None else Find(haystack, needle)
  {
    if needle == [] {
      return None;
    }
    var nlen, last := |needle|, |needle| - 1;
    var badCharSkip := ShiftTable(needle);
    var h: nat, hlen: nat := 0, |haystack|;
    while hlen >= nlen
      invariant h + hlen == |haystack| && SkipTable(badCharSkip[..], needle, last)
      invariant Find(haystack, needle) == FindFrom(haystack, needle, h)
      decreases hlen
    {
      var found := MatchesBackwards(haystack, needle, h);
      if found {
        return Some(h);
      }
      var shift := badCharSkip[haystack[h + last]];
      ShiftKeeps(haystack, needle, badCharSkip[..], h, h + shift);
      hlen := hlen - shift;
      h := h + shift;
    }
    return None;
  }

  // ---------------------------------------------------------------------------------------------
  // memmem.

  method Memmem(haystack: seq<u8>, needle: seq<u8>) returns (r: Option<nat>)
    ensures r == Find(haystack, needle)
  {
    var hlen, nlen := |haystack|, |needle|;
    if nlen == 0 {
      return Some(0);
    }
    if nlen > hlen {
      return None;
    }
    if nlen >= 4 && hlen >= 256 {
      r := BoyerMooreHorspool(haystack, needle);
    } else {
      r := Backtrack(haystack, needle);
    }
  }

  /** The short-input path: `j` bytes of the needle match before `i`; a mismatch backs `i` up to the
      position after the attempt. */
  method Backtrack(haystack: seq<u8>, needle: seq<u8>) returns (r: Option<nat>)
    requires needle != []
    ensures r == Find(haystack, needle)
  {
    var hlen, nlen := |haystack|, |needle|;
    var i, j := 0, 0;
    ghost var start := 0;
    while i < hlen
      invariant i == start + j <= hlen && 0 <= j < nlen && start >= 0
      invariant haystack[start..i] == needle[..j]
      invariant Find(haystack, needle) == FindFrom(haystack, needle, start)
      decreases hlen - start, nlen - j
    {
      if haystack[i] == needle[j] {
        MatchGrows(haystack, needle, start, i, j);
        j := j + 1;
        if j == nlen {
          return Some(i - nlen + 1);
        }
      } else {
        MismatchAt(haystack, needle, start, j);
        start := start + 1;
        i := i - j;
        j := 0;
      }
      i := i + 1;
    }
    return None;
  }

  lemma MatchGrows(hay: seq<u8>, needle: seq<u8>, at: nat, i: nat, j: nat)
    requires at + j == i < |hay| && j < |needle| && hay[at..i] == needle[..j] && hay[i] == needle[j]
    ensures hay[at..i + 1] == needle[..j + 1]
  {
    assert hay[at..i + 1] == hay[at..i] + [hay[i]];
    assert needle[..j + 1] == needle[..j] + [needle[j]];
  }

  lemma MismatchAt(hay: seq<u8>, needle: seq<u8>, at: nat, j: nat)
    requires j < |needle| && at + j < |hay| && hay[at + j] != needle[j]
    ensures !Occurs(hay, needle, at) && FindFrom(hay, needle, at) == FindFrom(hay, needle, at + 1)
  {
    if at + |needle| <= |hay| {
      assert hay[at..at + |needle|][j] == hay[at + j];
    }
  }

  // ---------------------------------------------------------------------------------------------
  // strstr on NUL-terminated strings.

  /** The bytes of a string up to its terminator. */
  function CString(s: seq<u8>): (r: seq<u8>)
    requires 0 in s
  {
    if s[0] == 0 then [] else [s[0]] + CString(s[1..])
  }

  lemma {:induction false} CStringIs(s: seq<u8>)
    requires 0 in s
    ensures |CString(s)| < |s| && s[|CString(s)|] == 0
    ensures CString(s) == s[..|CString(s)|]
    ensures forall i :: 0 <= i < |CString(s)| ==> s[i] != 0
  {
    if s[0] != 0 {
      CStringIs(s[1..]);
      assert s[1..][..|CString(s[1..])|] == s[1..|CString(s)|];
    }
  }

  /** A NUL-free text and its terminator are the C string of that text. */
  lemma {:induction false} CStringOf(text: seq<u8>)
    requires 0 !in text
    ensures 0 in text + [0] && CString(text + [0]) == text
  {
    if text != [] {
      assert (text + [0])[1..] == text[1..] + [0];
      CStringOf(text[1..]);
    }
  }

  /** On NUL-free texts `memmem` and `strstr` (by their contracts) have the same result. */
  lemma MemmemIsStrstr(hay: seq<u8>, needle: seq<u8>)
    requires 0 !in hay && 0 !in needle
    ensures 0 in hay + [0] && 0 in needle + [0]
    ensures Find(CString(hay + [0]), CString(needle + [0])) == Find(hay, needle)
  {
    CStringOf(hay);
    CStringOf(needle);
  }

  method Strstr(str: seq<u8>, substring: seq<u8>) returns (r: Option<nat>)
    requires 0 in str && 0 in substring
    ensures r == Find(CString(str), CString(substring))
  {
    ghost var hay, needle := CString(str), CString(substring);
    CStringIs(str);
    CStringIs(substring);
    var b := 0;
    if substring[b] == 0 {
      assert Occurs(hay, needle, 0);
      return Some(0);
    }
    var p := 0;
    while str[p] != 0
      invariant 0 <= p <= |hay|
      invariant Find(hay, needle) == FindFrom(hay, needle, p)
      decreases |hay| - p
    {
      if str[p] != substring[0] {
        MismatchAt(hay, needle, p, 0);
      } else {
        var found := MatchHere(str, substring, p);
        if found {
          return Some(p);
        }
      }
      SkipTo(hay, needle, p, p + 1);
      p := p + 1;
    }
    return None;
  }

  /** The inner loop: does the whole substring follow at `p`? */
  method MatchHere(str: seq<u8>, substring: seq<u8>, p: nat) returns (found: bool)
    requires 0 in str && 0 in substring && p < |CString(str)| && substring[0] != 0
    ensures found <==> Occurs(CString(str), CString(substring), p)
  {
    ghost var hay, needle := CString(str), CString(substring);
    CStringIs(str);
    CStringIs(substring);
    var a, b := p, 0;
    while true
      invariant 0 <= b <= |needle| && a == p + b && a <= |hay|
      invariant hay[p..a] == needle[..b]
      decreases |needle| - b
    {
      if substring[b] == 0 {
        return true;
      }
      if str[a] != substring[b] {
        if a < |hay| {
          MismatchAt(hay, needle, p, b);
        }
        return false;
      }
      a, b := a + 1, b + 1;
      assert hay[p..a] == hay[p..a - 1] + [hay[a - 1]];
    }
  }
}
