/** `strtoull` (src/fakedyld/lib/stroull.c) with its overflow test, and when its result is the number
    that the text denotes.  Characters are ASCII; a string ends at its NUL. */
module Strtoull {
  import opened Bits
  import opened Wrappers

  const ULLONG_MAX: int := 0xffff_ffff_ffff_ffff

  predicate IsSpace(c: char) { 9 <= c as int <= 13 || c == ' ' }

  predicate IsDigit(c: char) { '0' <= c <= '9' }

  predicate IsAlpha(c: char) { 'a' <= c <= 'z' || 'A' <= c <= 'Z' }

  /** The library's `isupper`, as written: everything from 'Z' upwards. */
  predicate IsUpper(c: char) { c >= 'A' && c >= 'Z' }

  /** The digit that the conversion loop computes for a character, if it is alphanumeric. */
  function Digit(c: char): Option<int> {
    if IsDigit(c) then Some(c as int - '0' as int)
    else if IsAlpha(c) then Some(c as int - if IsUpper(c) then 'A' as int - 10 else 'a' as int - 10)
    else None
  }

  /** The character ends the number. */
  predicate Stops(c: char, base: nat) {
    Digit(c).None? || Digit(c).value >= base
  }

  datatype Progress = Progress(acc: u64, any: int)

  /** One digit: saturate for good once a digit does not fit, else multiply and add in 64 bits. */
  function AddDigit(p: Progress, base: nat, d: int): Progress
    requires base > 0
  {
    if p.any < 0 || p.acc > ULLONG_MAX / base || (p.acc == ULLONG_MAX / base && d > ULLONG_MAX % base)
    then p.(any := -1)
    else Progress((p.acc * base + d) % TWO64, 1)
  }

  /** A NUL follows at or after index `i`. */
  predicate Terminated(s: seq<char>, i: nat)
    decreases |s| - i
  {
    i < |s| && (s[i] == '\0' || Terminated(s, i + 1))
  }

  /** The conversion loop from index `i`: the progress and the index of the character that stops it. */
  function Convert(s: seq<char>, i: nat, base: nat, p: Progress): (r: (Progress, nat))
    requires Terminated(s, i) && base > 0
    ensures i <= r.1 < |s| && Stops(s[r.1], base)
    decreases |s| - i
  {
    if Stops(s[i], base) then (p, i)
    else Convert(s, i + 1, base, AddDigit(p, base, Digit(s[i]).value))
  }

  function SkipSpaces(s: seq<char>, i: nat): (r: nat)
    requires Terminated(s, i)
    ensures i <= r && Terminated(s, r) && !IsSpace(s[r])
    ensures forall k :: i <= k < r ==> IsSpace(s[k])
    decreases |s| - i
  {
    if IsSpace(s[i]) then SkipSpaces(s, i + 1) else i
  }

  predicate IsSign(c: char) { c == '-' || c == '+' }

  /** A `0x` that a base of 0 or 16 skips. */
  predicate HexPrefix(s: seq<char>, i: nat, base: nat)
    requires Terminated(s, i)
  {
    assert s[i] == '0' ==> Terminated(s, i + 1);
    (base == 0 || base == 16) && s[i] == '0' && (s[i + 1] == 'x' || s[i + 1] == 'X')
  }

  /** Where the digits start and in which base. */
  function Prefix(s: seq<char>, i: nat, base: nat): (r: (nat, nat))
    requires Terminated(s, i)
    ensures Terminated(s, r.0) && (base != 0 ==> r.1 == base) && (base == 0 ==> r.1 in {8, 10, 16})
  {
    if HexPrefix(s, i, base) then
      assert Terminated(s, i + 1) && Terminated(s, i + 2);
      (i + 2, 16)
    else (i, if base == 0 then if s[i] == '0' then 8 else 10 else base)
  }

  function Finish(negative: bool, p: Progress): u64 {
    if p.any < 0 then ULLONG_MAX else if negative then (TWO64 - p.acc) % TWO64 else p.acc
  }

  /** The value and the end index that `strtoull` computes. */
  function StrtoullSpec(s: seq<char>, base: nat): (r: (u64, nat))
    requires Terminated(s, 0) && (base == 0 || 2 <= base <= 36)
  {
    var i := SkipSpaces(s, 0);
    var (j, b) := Prefix(s, if IsSign(s[i]) then i + 1 else i, base);
    var (p, end) := Convert(s, j, b, Progress(0, 0));
    (Finish(s[i] == '-', p), if p.any != 0 then end else 0)
  }

  /** `strtoull`: `s` is one past the character held in `c`, as in the code. */
  method Strtoull(nptr: seq<char>, base0: nat) returns (result: u64, endptr: nat)
    requires Terminated(nptr, 0) && (base0 == 0 || 2 <= base0 <= 36)
    ensures (result, endptr) == StrtoullSpec(nptr, base0)
  {
    var s := PassSpaces(nptr);
    ghost var i := s - 1;
    var c := nptr[s - 1];
    var neg := c == '-';
    if c == '-' || c == '+' {
      assert Terminated(nptr, s);
      c := nptr[s];
      s := s + 1;
    }
    var base;
    s, base := ReadPrefix(nptr, s, base0);
    var acc: u64, any, last := Accumulate(nptr, s - 1, base);
    endptr := if any != 0 then last else 0;
    result := if any < 0 then ULLONG_MAX else if neg then (TWO64 - acc) % TWO64 else acc;
    SpecIs(nptr, base0, i, s - 1, base, Progress(acc, any), last);
  }

  lemma SpecIs(s: seq<char>, base: nat, i: nat, j: nat, b: nat, p: Progress, end: nat)
    requires Terminated(s, 0) && (base == 0 || 2 <= base <= 36) && i == SkipSpaces(s, 0)
    requires Terminated(s, if IsSign(s[i]) then i + 1 else i)
    requires (j, b) == Prefix(s, if IsSign(s[i]) then i + 1 else i, base)
    requires (p, end) == Convert(s, j, b, Progress(0, 0))
    ensures StrtoullSpec(s, base) == (Finish(s[i] == '-', p), if p.any != 0 then end else 0)
  {
  }

  /** The loop over white space; `s` ends one past the first other character. */
  method PassSpaces(nptr: seq<char>) returns (s: nat)
    requires Terminated(nptr, 0)
    ensures 1 <= s <= |nptr| && s - 1 == SkipSpaces(nptr, 0)
  {
    var c;
    c, s := nptr[0], 1;
    while IsSpace(c)
      invariant 1 <= s <= |nptr| && c == nptr[s - 1] && Terminated(nptr, s - 1)
      invariant SkipSpaces(nptr, 0) == SkipSpaces(nptr, s - 1)
      decreases |nptr| - s
    {
      c := nptr[s];
      s := s + 1;
    }
  }

  /** The base prefix, with `s` one past the current character before and after. */
  method ReadPrefix(nptr: seq<char>, s0: nat, base0: nat) returns (s: nat, base: nat)
    requires s0 > 0 && Terminated(nptr, s0 - 1)
    ensures s > 0 && (s - 1, base) == Prefix(nptr, s0 - 1, base0)
  {
    var c := nptr[s0 - 1];
    s, base := s0, base0;
    assert c == '0' ==> Terminated(nptr, s);
    if (base == 0 || base == 16) && c == '0' && (nptr[s] == 'x' || nptr[s] == 'X') {
      assert Terminated(nptr, s + 1);
      c := nptr[s + 1];
      s := s + 2;
      base := 16;
    }
    if base == 0 {
      base := if c == '0' then 8 else 10;
    }
  }

  /** The conversion loop. */
  method Accumulate(nptr: seq<char>, start: nat, base: nat) returns (acc: u64, any: int, last: nat)
    requires Terminated(nptr, start) && base > 0
    ensures (Progress(acc, any), last) == Convert(nptr, start, base, Progress(0, 0))
  {
    var cutoff, cutlim := ULLONG_MAX / base, ULLONG_MAX % base;
    acc, any, last := 0, 0, start;
    while true
      invariant start <= last && Terminated(nptr, last)
      invariant Convert(nptr, start, base, Progress(0, 0))
             == Convert(nptr, last, base, Progress(acc, any))
      decreases |nptr| - last
    {
      var ch := nptr[last];
      var c := ch as int;
      if IsDigit(ch) {
        c := c - '0' as int;
      } else if IsAlpha(ch) {
        c := c - if IsUpper(ch) then 'A' as int - 10 else 'a' as int - 10;
      } else {
        break;
      }
      if c >= base {
        break;
      }
      if any < 0 || acc > cutoff || (acc == cutoff && c > cutlim) {
        any := -1;
      } else {
        any := 1;
        acc := (acc * base + c) % TWO64;
      }
      last := last + 1;
    }
  }

  // ---------------------------------------------------------------------------------------------
  // The number that a text denotes.

  /** All characters are decimal digits below `base`. */
  ghost predicate Digits(ds: seq<char>, base: nat) {
    forall k :: 0 <= k < |ds| ==> '0' <= ds[k] <= '9' && ds[k] as int - '0' as int < base
  }

  /** The white space of C17 section 7.4.1.10: tab, the four line and page breaks, and blank. */
  ghost predicate WhiteSpace(c: char) { c as int in {9, 10, 11, 12, 13, 32} }

  lemma SpacesAreWhite(c: char)
    ensures IsSpace(c) <==> WhiteSpace(c)
  {
  }

  /** A character that is no digit of the base, nor one of the capital letters that are misread as a
      digit of it. */
  ghost predicate EndsNumber(c: char, base: nat) {
    && !('0' <= c <= '9' && c as int - '0' as int < base)
    && !('A' <= c <= (if base == 2 then 'X' else 'Y')) && !(c == 'Z' && base == 36)
  }

  lemma StopsExact(c: char, base: nat)
    requires 2 <= base <= 36
    ensures Stops(c, base) <==> EndsNumber(c, base)
  {
    assert 'Z' as int == 'A' as int + 25 && 'a' as int == 'A' as int + 32 && 'A' as int == 65;
  }

  /** The digit that a letter is read as: 'A' to 'Y' are -22 to 2, 'Z' is 35, and the lower-case letters
      are 42 to 67, which no base has. */
  lemma LetterDigits(c: char)
    ensures 'A' <= c <= 'Y' ==> Digit(c) == Some(c as int - 87)
    ensures c == 'Z' ==> Digit(c) == Some(35)
    ensures 'a' <= c <= 'z' ==> Digit(c) == Some(c as int - 55)
  {
    assert 'Z' as int == 90 && 'a' as int == 97 && 'A' as int == 65 && 'Y' as int == 89 && 'z' as int == 122;
  }

  /** The value of `ds` read after digits of value `v`. */
  ghost function ValueFrom(v: nat, ds: seq<char>, base: nat): nat
    requires Digits(ds, base)
    decreases ds
  {
    if ds == [] then v
    else
      assert Digits(ds[1..], base);
      ValueFrom(v * base + (ds[0] as int - '0' as int), ds[1..], base)
  }

  ghost function Value(ds: seq<char>, base: nat): nat
    requires Digits(ds, base)
  {
    ValueFrom(0, ds, base)
  }

  /** The cutoff test is exact: it fires just when the next value does not fit 64 bits. */
  lemma CutoffExact(acc: nat, base: nat, d: nat)
    requires base > 0 && d < base
    ensures (acc > ULLONG_MAX / base || (acc == ULLONG_MAX / base && d > ULLONG_MAX % base))
       <==> acc * base + d > ULLONG_MAX
  {
    var cutoff, cutlim := ULLONG_MAX / base, ULLONG_MAX % base;
    assert ULLONG_MAX == cutoff * base + cutlim;
    if acc > cutoff {
      MulMono(cutoff + 1, acc, base);
      DistributeSub(cutoff + 1, 1, base);
    } else if acc < cutoff {
      MulMono(acc + 1, cutoff, base);
      DistributeSub(acc + 1, 1, base);
    }
  }

  /** The progress that denotes the value `v` read so far, after at least one digit. */
  ghost predicate Denotes(p: Progress, v: nat) {
    if v > ULLONG_MAX then p.any < 0 else p == Progress(v, 1) || (p == Progress(0, 0) && v == 0)
  }

  lemma AddDigitExact(p: Progress, v: nat, base: nat, d: nat)
    requires 0 < base && d < base && Denotes(p, v)
    ensures Denotes(AddDigit(p, base, d), v * base + d) && AddDigit(p, base, d).any != 0
  {
    if v > ULLONG_MAX {
      assert v * base >= v by { MulMono(1, base, v); }
    } else {
      CutoffExact(v, base, d);
    }
  }

  /** The loop over digits that something stops: it computes their value, or saturates. */
  lemma {:induction false} ConvertExact(s: seq<char>, i: nat, base: nat, p: Progress, v: nat,
                                        ds: seq<char>)
    requires Terminated(s, i) && base > 0 && Denotes(p, v) && Digits(ds, base)
    requires i + |ds| < |s| && s[i..i + |ds|] == ds && Stops(s[i + |ds|], base)
    ensures var (q, end) := Convert(s, i, base, p);
      && end == i + |ds| && Denotes(q, ValueFrom(v, ds, base)) && (ds != [] ==> q.any != 0)
      && (ds == [] ==> q == p)
    decreases ds
  {
    if ds != [] {
      assert s[i] == ds[0];
      var d := ds[0] as int - '0' as int;
      AddDigitExact(p, v, base, d);
      assert s[i + 1..i + 1 + |ds[1..]|] == ds[1..];
      ConvertExact(s, i + 1, base, AddDigit(p, base, d), v * base + d, ds[1..]);
    }
  }

  /** What the number text `ds` with an optional minus means to `strtoull` (C17 section 7.22.1.4): the
      value modulo 2^64 after negation, or the largest value if it does not fit. */
  ghost function Meaning(negative: bool, ds: seq<char>, base: nat): u64
    requires Digits(ds, base)
  {
    var v := Value(ds, base);
    if v > 0xffff_ffff_ffff_ffff then 0xffff_ffff_ffff_ffff
    else if negative && v > 0 then 0x1_0000_0000_0000_0000 - v else v
  }

  lemma FinishMeans(negative: bool, ds: seq<char>, base: nat, p: Progress)
    requires Digits(ds, base) && Denotes(p, Value(ds, base))
    ensures Finish(negative, p) == Meaning(negative, ds, base)
  {
  }

  /** `s` is white space, an optional sign, the digits `ds`, and a character that stops them. */
  ghost predicate NumberText(s: seq<char>, spaces: nat, sign: seq<char>, ds: seq<char>, base: nat) {
    && Terminated(s, 0) && sign in {"", "+", "-"} && Digits(ds, base)
    && spaces + |sign| + |ds| < |s|
    && (forall k :: 0 <= k < spaces ==> WhiteSpace(s[k]))
    && s[spaces..spaces + |sign| + |ds|] == sign + ds
    && EndsNumber(s[spaces + |sign| + |ds|], base)
    && (sign == "" && ds == [] ==> !WhiteSpace(s[spaces]) && s[spaces] != '+' && s[spaces] != '-')
  }

  lemma {:induction false} SkipsAll(s: seq<char>, i: nat, n: nat)
    requires Terminated(s, i) && i <= n < |s| && !WhiteSpace(s[n])
    requires forall k :: i <= k < n ==> WhiteSpace(s[k])
    ensures SkipSpaces(s, i) == n
    decreases n - i
  {
    SpacesAreWhite(s[i]);
    if i < n {
      SkipsAll(s, i + 1, n);
    }
  }

  /** What is computed once white space, sign and prefix have been read. */
  lemma NumberReads(s: seq<char>, base: nat, i: nat, j: nat, b: nat, ds: seq<char>)
    requires Terminated(s, 0) && (base == 0 || 2 <= base <= 36) && i == SkipSpaces(s, 0)
    requires Terminated(s, if IsSign(s[i]) then i + 1 else i)
    requires (j, b) == Prefix(s, if IsSign(s[i]) then i + 1 else i, base) && 2 <= b <= 36
    requires Digits(ds, b) && j + |ds| < |s| && s[j..j + |ds|] == ds && EndsNumber(s[j + |ds|], b)
    ensures StrtoullSpec(s, base) == (Meaning(s[i] == '-', ds, b), if ds == [] then 0 else j + |ds|)
  {
    StopsExact(s[j + |ds|], b);
    ConvertExact(s, j, b, Progress(0, 0), 0, ds);
    var (p, end) := Convert(s, j, b, Progress(0, 0));
    SpecIs(s, base, i, j, b, p, end);
    FinishMeans(s[i] == '-', ds, b, p);
  }

  /** In every explicit base but 16 the result is exact: the meaning of the digits, and the end of the digits
      if there are any, else the start of the text. */
  lemma StrtoullExact(s: seq<char>, spaces: nat, sign: seq<char>, ds: seq<char>, base: nat)
    requires 2 <= base <= 36 && base != 16 && NumberText(s, spaces, sign, ds, base)
    ensures StrtoullSpec(s, base)
         == (Meaning(sign == "-", ds, base), if ds == [] then 0 else spaces + |sign| + |ds|)
  {
    var j := spaces + |sign|;
    NumberParts(s, spaces, sign, ds, base);
    SkipsAll(s, 0, spaces);
    NumberReads(s, base, spaces, j, base, ds);
  }

  lemma NumberParts(s: seq<char>, spaces: nat, sign: seq<char>, ds: seq<char>, base: nat)
    requires NumberText(s, spaces, sign, ds, base)
    ensures !WhiteSpace(s[spaces]) && (IsSign(s[spaces]) <==> sign != "")
    ensures s[spaces] == '-' <==> sign == "-"
    ensures s[spaces + |sign|..spaces + |sign| + |ds|] == ds
  {
    var t := s[spaces..spaces + |sign| + |ds|];
    if sign != "" {
      assert t[0] == sign[0] == s[spaces];
    } else if ds != [] {
      assert t[0] == ds[0] == s[spaces];
    }
    assert t[|sign|..] == ds;
  }

  // The bases that look for a prefix.

  /** A hexadecimal prefix stands at `j`. */
  ghost predicate HexAt(s: seq<char>, j: nat) {
    j + 1 < |s| && s[j] == '0' && (s[j + 1] == 'x' || s[j + 1] == 'X')
  }

  /** The base of a number without a hexadecimal prefix: base 0 takes a leading 0 for octal. */
  ghost function BaseOf(s: seq<char>, j: nat, base: nat): nat
    requires j < |s|
  {
    if base == 0 then if s[j] == '0' then 8 else 10 else base
  }

  /** In the bases 0 and 16, without a hexadecimal prefix, the result is exact in the detected base. */
  lemma StrtoullDetects(s: seq<char>, spaces: nat, sign: seq<char>, ds: seq<char>, base: nat)
    requires (base == 0 || base == 16) && spaces + |sign| < |s| && !HexAt(s, spaces + |sign|)
    requires NumberText(s, spaces, sign, ds, BaseOf(s, spaces + |sign|, base))
    ensures StrtoullSpec(s, base)
         == (Meaning(sign == "-", ds, BaseOf(s, spaces + |sign|, base)),
             if ds == [] then 0 else spaces + |sign| + |ds|)
  {
    var j := spaces + |sign|;
    var b := BaseOf(s, j, base);
    NumberParts(s, spaces, sign, ds, b);
    SkipsAll(s, 0, spaces);
    NoHexIsKept(s, j, base);
    NumberReads(s, base, spaces, j, b, ds);
  }

  lemma NoHexIsKept(s: seq<char>, j: nat, base: nat)
    requires (base == 0 || base == 16) && Terminated(s, j) && !HexAt(s, j)
    ensures Prefix(s, j, base) == (j, BaseOf(s, j, base))
  {
  }

  /** With the prefix the digits behind it are read in base 16.  Without any digit there the end is the
      start of the text, where C17 section 7.22.1.4 has it behind the 0. */
  lemma StrtoullHex(s: seq<char>, spaces: nat, sign: seq<char>, ds: seq<char>, base: nat)
    requires (base == 0 || base == 16) && Terminated(s, 0) && HexAt(s, spaces + |sign|)
    requires (sign == "" || sign == "+" || sign == "-") && Digits(ds, 16)
    requires forall k :: 0 <= k < spaces ==> WhiteSpace(s[k])
    requires s[spaces..spaces + |sign|] == sign
    requires var j := spaces + |sign| + 2;
      j + |ds| < |s| && s[j..j + |ds|] == ds && EndsNumber(s[j + |ds|], 16)
    ensures StrtoullSpec(s, base)
         == (Meaning(sign == "-", ds, 16), if ds == [] then 0 else spaces + |sign| + 2 + |ds|)
  {
    var j := spaces + |sign|;
    assert sign != "" ==> s[spaces] == s[spaces..j][0] == sign[0];
    SkipsAll(s, 0, spaces);
    HexIsSkipped(s, j, base);
    NumberReads(s, base, spaces, j + 2, 16, ds);
  }

  lemma HexIsSkipped(s: seq<char>, j: nat, base: nat)
    requires (base == 0 || base == 16) && HexAt(s, j) && Terminated(s, j)
    ensures Terminated(s, j + 2) && Prefix(s, j, base) == (j + 2, 16)
  {
    assert Terminated(s, j + 1);
  }

  // ---------------------------------------------------------------------------------------------
  // Letters.

  /** The digit that a character is in C17 section 7.22.1.4: letters of either case count from 10. */
  function StandardDigit(c: char): Option<int> {
    if '0' <= c <= '9' then Some(c as int - '0' as int)
    else if 'a' <= c <= 'z' then Some(c as int - 'a' as int + 10)
    else if 'A' <= c <= 'Z' then Some(c as int - 'A' as int + 10)
    else None
  }

  /** The loop treats `c` as the standard does: it stops for both, or is the same digit for both. */
  predicate ReadsStandard(c: char, base: nat) {
    var d := StandardDigit(c);
    if d.None? || d.value >= base then Stops(c, base) else !Stops(c, base) && Digit(c) == d
  }

  /** Because of `isupper`, 'A' to 'Y' are read as the digits -22 to 2, and lower-case letters never
      count; every other character is read as the standard says. */
  lemma LettersExact(c: char, base: nat)
    requires 2 <= base <= 36
    ensures ReadsStandard(c, base)
       <==> !('A' <= c <= (if base == 2 then 'X' else 'Y'))
            && !('a' <= c <= 'z' && c as int - 'a' as int + 10 < base)
  {
    assert 'Z' as int == 'A' as int + 25 && 'a' as int == 'A' as int + 32;
    assert 'z' as int == 'a' as int + 25 && '0' as int == 48 && 'A' as int == 65;
  }

  /** A text where this shows: "A" in base 16 denotes 10, but is read as 2^64 - 22. */
  lemma UpperCaseMisread()
    ensures StandardDigit('A') == Some(10)
    ensures StrtoullSpec("A\0", 16) == (0xffff_ffff_ffff_ffea, 1)
  {
    var s := "A\0";
    assert Terminated(s, 1) && SkipSpaces(s, 0) == 0 && Prefix(s, 0, 16) == (0, 16);
    var q := AddDigit(Progress(0, 0), 16, -22);
    assert Digit('A') == Some(-22) && q == Progress(0xffff_ffff_ffff_ffea, 1);
    assert Convert(s, 0, 16, Progress(0, 0)) == Convert(s, 1, 16, q) == (q, 1);
  }
}
