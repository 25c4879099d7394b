/** What the parsed directives and the printed digits of printf (src/fakedyld/lib/printf.c) mean: every
    directive that is written by the syntax of C17 section 7.21.6.1 is read back, and in every base the
    digits denote the number, as far as they fit the digit buffer. */
module Directives {
  import opened Bits
  import opened Wrappers
  import opened Printf
  import Strtoull

  // ---------------------------------------------------------------------------------------------
  // Directives.

  /** The text stands in the format at index `i`. */
  ghost predicate Stands(f: seq<char>, i: nat, text: seq<char>) {
    i + |text| <= |f| && f[i..i + |text|] == text
  }

  predicate IsFlag(c: char) { c == '0' || c == '-' || c == '+' || c == ' ' || c == '#' }

  function FlagOf(c: char): Flag {
    if c == '0' then ZeroPad else if c == '-' then Left else if c == '+' then Plus
    else if c == ' ' then Space else Hash
  }

  ghost function FlagSet(cs: seq<char>): Flags {
    if cs == [] then {} else {FlagOf(cs[0])} + FlagSet(cs[1..])
  }

  lemma FlagChars(c: char, fl: Flags)
    ensures SetFlag(c, fl) == if IsFlag(c) then Some(fl + {FlagOf(c)}) else None
  {
  }

  lemma {:induction false} FlagsParse(f: seq<char>, i: nat, cs: seq<char>, fl: Flags)
    requires Stands(f, i, cs) && (forall k :: 0 <= k < |cs| ==> IsFlag(cs[k])) && !IsFlag(At(f, i + |cs|))
    ensures ParseFlags(f, i, fl) == (fl + FlagSet(cs), i + |cs|)
    decreases cs
  {
    FlagChars(At(f, i), fl);
    if cs == [] {
      assert fl + {} == fl;
    } else {
      var one := {FlagOf(cs[0])};
      assert f[i] == cs[0];
      assert f[i + 1..i + 1 + |cs[1..]|] == cs[1..];
      FlagsParse(f, i + 1, cs[1..], fl + one);
      assert fl + one + FlagSet(cs[1..]) == fl + (one + FlagSet(cs[1..]));
    }
  }

  lemma ModStep(v: nat, d: nat)
    ensures (v % TWO32 * 10 + d) % TWO32 == (v * 10 + d) % TWO32
  {
    var q := v / TWO32;
    assert v * 10 + d == v % TWO32 * 10 + d + TWO32 * (10 * q);
  }

  /** `_atoi` computes the value of the digits modulo 2^32. */
  lemma {:induction false} NumberParses(f: seq<char>, i: nat, ds: seq<char>, v: nat)
    requires Stands(f, i, ds) && Strtoull.Digits(ds, 10) && !IsDigit(At(f, i + |ds|))
    ensures ParseNumber(f, i, v % TWO32) == (Strtoull.ValueFrom(v, ds, 10) % TWO32, i + |ds|)
    decreases ds
  {
    if ds != [] {
      assert f[i] == ds[0];
      var d := ds[0] as int - '0' as int;
      ModStep(v, d);
      assert f[i + 1..i + 1 + |ds[1..]|] == ds[1..];
      NumberParses(f, i + 1, ds[1..], v * 10 + d);
    }
  }

  /** A width or precision: none, a number, or the next argument. */
  datatype Field = Absent | Number(ds: seq<char>) | Star {
    function Text(): seq<char> {
      match this case Absent => [] case Number(ds) => ds case Star => ['*']
    }

    ghost predicate Valid() { Number? ==> ds != [] && Strtoull.Digits(ds, 10) }

    /** The arguments that it uses. */
    function Uses(): nat { if Star? then 1 else 0 }
  }

  ghost function WidthOf(w: Field, arg: int): nat
    requires w.Valid()
  {
    match w
    case Absent => 0
    case Number(ds) => Strtoull.Value(ds, 10) % TWO32
    case Star => (if arg < 0 then -arg else arg) % TWO32
  }

  /** `d` with the width read, up to `m`. */
  ghost function WithWidth(d: Directive, w: Field, arg: int, m: nat): Directive
    requires w.Valid()
  {
    d.(fl := d.fl + if w.Star? && arg < 0 then {Left} else {}, width := WidthOf(w, arg), i := m,
       k := d.k + w.Uses())
  }

  lemma WidthParses(f: seq<char>, d: Directive, va: Args, w: Field, j: nat, m: nat)
    requires w.Valid() && Stands(f, j, w.Text()) && d.width == 0 && d.i == j && m == j + |w.Text()|
    requires !IsDigit(At(f, m)) && (w.Absent? ==> At(f, m) != '*')
    ensures ParseWidth(f, d, va) == WithWidth(d, w, ReadSigned(va(d.k), W32), m)
  {
    assert d.fl + {} == d.fl;
    match w
    case Number(ds) =>
      assert f[j] == ds[0];
      NumberParses(f, j, ds, 0);
    case Star =>
      assert f[j] == w.Text()[0];
    case Absent =>
  }

  /** A precision: none, or a dot and a field, which may be empty. */
  datatype Dot = NoDot | Dot(p: Field) {
    function Text(): seq<char> {
      match this case NoDot => [] case Dot(p) => ['.'] + p.Text()
    }

    ghost predicate Valid() { Dot? ==> p.Valid() }

    function Uses(): nat { if Dot? then p.Uses() else 0 }
  }

  ghost function PrecisionOf(p: Dot, arg: int): nat
    requires p.Valid()
  {
    match p
    case NoDot => 0
    case Dot(Absent) => 0
    case Dot(Number(ds)) => Strtoull.Value(ds, 10) % TWO32
    case Dot(Star) => if arg > 0 then arg % TWO32 else 0
  }

  /** `d` with the precision read, up to `n`. */
  ghost function WithPrecision(d: Directive, p: Dot, arg: int, n: nat): Directive
    requires p.Valid()
  {
    d.(fl := d.fl + if p.Dot? then {Precision} else {}, precision := PrecisionOf(p, arg), i := n,
       k := d.k + p.Uses())
  }

  lemma PrecisionParses(f: seq<char>, d: Directive, va: Args, p: Dot, m: nat, n: nat)
    requires p.Valid() && Stands(f, m, p.Text()) && d.precision == 0 && d.i == m && n == m + |p.Text()|
    requires !IsDigit(At(f, n)) && At(f, n) != '.' && At(f, n) != '*'
    ensures ParsePrecision(f, d, va) == WithPrecision(d, p, ReadSigned(va(d.k), W32), n)
  {
    if p.Dot? {
      assert f[m] == p.Text()[0];
      assert f[m + 1..m + 1 + |p.p.Text()|] == p.Text()[1..];
      DotParses(f, d, va, p.p, m, n);
    } else {
      assert d.fl + {} == d.fl;
    }
  }

  /** The precision behind a dot. */
  lemma DotParses(f: seq<char>, d: Directive, va: Args, p: Field, m: nat, n: nat)
    requires p.Valid() && Stands(f, m + 1, p.Text()) && d.i == m && n == m + 1 + |p.Text()|
    requires At(f, m) == '.' && !IsDigit(At(f, n)) && At(f, n) != '*'
    ensures ParsePrecision(f, d, va) == WithPrecision(d, Dot(p), ReadSigned(va(d.k), W32), n)
  {
    match p
    case Number(ds) =>
      assert f[m + 1] == ds[0];
      NumberParses(f, m + 1, ds, 0);
    case Star =>
      assert f[m + 1] == p.Text()[0];
    case Absent =>
  }

  /** The length modifiers. */
  predicate IsLength(text: seq<char>) {
    || text == "" || text == "l" || text == "ll" || text == "h" || text == "hh" || text == "t"
    || text == "j" || text == "z"
  }

  function LengthFlags(text: seq<char>): Flags {
    if text == "" then {}
    else if text == "ll" then {LongSize, LongLongSize}
    else if text == "hh" then {ShortSize, CharSize}
    else if text == "h" then {ShortSize} else {LongSize}
  }

  predicate IsLengthChar(c: char) { c == 'l' || c == 'h' || c == 't' || c == 'j' || c == 'z' }

  lemma LengthParses(f: seq<char>, d: Directive, text: seq<char>, n: nat, end: nat)
    requires IsLength(text) && Stands(f, n, text) && d.i == n && end == n + |text|
    requires !IsLengthChar(At(f, end))
    ensures ParseLength(f, d) == d.(fl := d.fl + LengthFlags(text), i := end)
  {
    if text == "" {
      assert d.fl + {} == d.fl;
    } else {
      assert f[n] == text[0];
      if |text| == 2 {
        assert f[n + 1] == f[n..n + 2][1] == text[1];
      }
    }
  }

  /** A character that ends a directive: none of those that the parts before it are made of. */
  predicate IsConversion(c: char) {
    !IsFlag(c) && !IsDigit(c) && c != '.' && c != '*' && !IsLengthChar(c)
  }

  /** The parts of a directive in the format: flags at `i`, width at `j`, precision at `m`, length
      modifier at `n`, and the conversion character at `end`. */
  ghost predicate Written(f: seq<char>, i: nat, flags: seq<char>, j: nat, w: Field, m: nat, p: Dot,
                          n: nat, length: seq<char>, end: nat) {
    && (forall k :: 0 <= k < |flags| ==> IsFlag(flags[k]))
    && w.Valid() && (w.Number? ==> w.ds[0] != '0') && p.Valid() && IsLength(length)
    && Stands(f, i, flags) && Stands(f, j, w.Text()) && Stands(f, m, p.Text()) && Stands(f, n, length)
    && j == i + |flags| && m == j + |w.Text()| && n == m + |p.Text()| && end == n + |length|
    && end < |f| && IsConversion(f[end])
  }

  // What follows a part of a directive cannot be taken for more of it.

  /** The first character of a length modifier or a conversion. */
  predicate StartsLength(c: char) { !IsFlag(c) && !IsDigit(c) && c != '.' && c != '*' }

  /** The first character of a precision or what follows it. */
  predicate StartsPrecision(c: char) { !IsFlag(c) && !IsDigit(c) && c != '*' }

  lemma LengthStarts(f: seq<char>, n: nat, length: seq<char>, end: nat)
    requires IsLength(length) && Stands(f, n, length) && end == n + |length| < |f| && IsConversion(f[end])
    ensures StartsLength(At(f, n)) && !IsLengthChar(At(f, end))
  {
    assert length != "" ==> f[n] == length[0];
  }

  lemma PrecisionStarts(f: seq<char>, m: nat, p: Dot, n: nat)
    requires Stands(f, m, p.Text()) && n == m + |p.Text()| && StartsLength(At(f, n))
    ensures StartsPrecision(At(f, m))
  {
    assert p.Dot? ==> f[m] == p.Text()[0] == '.';
  }

  lemma WidthStarts(f: seq<char>, j: nat, w: Field, m: nat)
    requires w.Valid() && (w.Number? ==> w.ds[0] != '0')
    requires Stands(f, j, w.Text()) && m == j + |w.Text()| && StartsPrecision(At(f, m))
    ensures !IsFlag(At(f, j))
  {
    assert w.Star? ==> f[j] == w.Text()[0] == '*';
    if w.Number? {
      assert f[j] == w.ds[0] && Strtoull.IsDigit(w.ds[0]);
    }
  }

  /** No part runs on into the next. */
  lemma Starts(f: seq<char>, j: nat, w: Field, m: nat, p: Dot, n: nat, length: seq<char>, end: nat)
    requires w.Valid() && (w.Number? ==> w.ds[0] != '0') && IsLength(length)
    requires Stands(f, j, w.Text()) && Stands(f, m, p.Text()) && Stands(f, n, length)
    requires m == j + |w.Text()| && n == m + |p.Text()| && end == n + |length| < |f| && IsConversion(f[end])
    ensures !IsFlag(At(f, j)) && StartsPrecision(At(f, m)) && StartsLength(At(f, n))
    ensures !IsLengthChar(At(f, end))
  {
    LengthStarts(f, n, length, end);
    PrecisionStarts(f, m, p, n);
    WidthStarts(f, j, w, m);
  }

  lemma FlagsRead(f: seq<char>, i: nat, flags: seq<char>, j: nat)
    requires Stands(f, i, flags) && (forall k :: 0 <= k < |flags| ==> IsFlag(flags[k]))
    requires j == i + |flags| && !IsFlag(At(f, j))
    ensures ParseFlags(f, i, {}) == (FlagSet(flags), j)
  {
    FlagsParse(f, i, flags, {});
    assert {} + FlagSet(flags) == FlagSet(flags);
  }

  /** Every directive that is written by the syntax is read back: its flags, its width and precision as
      numbers or from arguments, and its length modifier. */
  lemma DirectiveParses(f: seq<char>, i: nat, va: Args, k: nat, flags: seq<char>, j: nat, w: Field, m: nat,
                        p: Dot, n: nat, length: seq<char>, end: nat)
    requires Written(f, i, flags, j, w, m, p, n, length, end)
    ensures ParseDirective(f, i, va, k) == Meant(va, k, flags, w, p, length, end)
  {
    Starts(f, j, w, m, p, n, length, end);
    FlagsRead(f, i, flags, j);
    Composes(f, i, va, k, FlagSet(flags), j, w, m, p, n, length, end);
  }

  /** What a directive with these parts means. */
  ghost function Meant(va: Args, k: nat, flags: seq<char>, w: Field, p: Dot, length: seq<char>, end: nat)
    : Directive
    requires w.Valid() && p.Valid()
  {
    var warg, parg := ReadSigned(va(k), W32), ReadSigned(va(k + w.Uses()), W32);
    Directive(FlagSet(flags) + (if w.Star? && warg < 0 then {Left} else {})
                + (if p.Dot? then {Precision} else {}) + LengthFlags(length),
              WidthOf(w, warg), PrecisionOf(p, parg), end, k + w.Uses() + p.Uses())
  }

  lemma Composes(f: seq<char>, i: nat, va: Args, k: nat, fl: Flags, j: nat, w: Field, m: nat, p: Dot,
                 n: nat, length: seq<char>, end: nat)
    requires ParseFlags(f, i, {}) == (fl, j) && w.Valid() && p.Valid() && IsLength(length)
    requires Stands(f, j, w.Text()) && m == j + |w.Text()| && StartsPrecision(At(f, m))
    requires Stands(f, m, p.Text()) && n == m + |p.Text()| && StartsLength(At(f, n))
    requires Stands(f, n, length) && end == n + |length| && !IsLengthChar(At(f, end))
    ensures var d1 := WithWidth(Directive(fl, 0, 0, j, k), w, ReadSigned(va(k), W32), m);
      var d2 := WithPrecision(d1, p, ReadSigned(va(k + w.Uses()), W32), n);
      ParseDirective(f, i, va, k) == d2.(fl := d2.fl + LengthFlags(length), i := end)
  {
    var d0 := Directive(fl, 0, 0, j, k);
    var d1 := WithWidth(d0, w, ReadSigned(va(k), W32), m);
    var d2 := WithPrecision(d1, p, ReadSigned(va(k + w.Uses()), W32), n);
    var d3 := d2.(fl := d2.fl + LengthFlags(length), i := end);
    WidthParses(f, d0, va, w, j, m);
    PrecisionParses(f, d1, va, p, m, n);
    LengthParses(f, d2, length, n, end);
    InSteps(f, i, va, k, fl, j, d1, d2, d3);
  }

  lemma InSteps(f: seq<char>, i: nat, va: Args, k: nat, fl: Flags, j: nat, d1: Directive, d2: Directive,
                d3: Directive)
    requires ParseFlags(f, i, {}) == (fl, j) && ParseWidth(f, Directive(fl, 0, 0, j, k), va) == d1
    requires ParsePrecision(f, d1, va) == d2 && ParseLength(f, d2) == d3
    ensures ParseDirective(f, i, va, k) == d3
  {
  }

  // ---------------------------------------------------------------------------------------------
  // Digits in any base.

  /** The number that a printed digit stands for. */
  function DigitValue(c: char): int {
    if '0' <= c <= '9' then c as int - '0' as int
    else if 'A' <= c <= 'F' then c as int - 'A' as int + 10 else c as int - 'a' as int + 10
  }

  /** The number that digits denote, least significant first. */
  function LeastFirst(ds: seq<char>, base: nat): int {
    if ds == [] then 0 else DigitValue(ds[0]) + base * LeastFirst(ds[1..], base)
  }

  ghost function Power(b: nat, n: nat): nat { if n == 0 then 1 else b * Power(b, n - 1) }

  lemma DigitCharValue(d: nat, uppercase: bool)
    requires d < 16
    ensures DigitValue(DigitChar(d, uppercase)) == d
  {
    assert '0' as int == 48 && '9' as int == 57 && 'A' as int == 65 && 'F' as int == 70;
    assert 'a' as int == 97;
  }

  lemma FirstDigit(c: char, ds: seq<char>, base: nat)
    ensures LeastFirst([c] + ds, base) == DigitValue(c) + base * LeastFirst(ds, base)
    ensures Power(base, |[c] + ds|) == base * Power(base, |ds|)
  {
    assert ([c] + ds)[1..] == ds;
  }

  /** The digits and the quotient that is left make up the number, and nothing is left before the room
      is used up. */
  ghost predicate MakesUp(value: nat, ds: seq<char>, base: nat, rest: nat) {
    value == LeastFirst(ds, base) + Power(base, |ds|) * rest && 0 <= LeastFirst(ds, base) < Power(base, |ds|)
  }

  lemma {:induction false} DigitsAndRest(value: nat, base: nat, uppercase: bool, room: nat)
      returns (rest: nat)
    requires 2 <= base <= 16 && room > 0
    ensures var ds := NtoaDigits(value, base, uppercase, room);
      MakesUp(value, ds, base, rest) && (|ds| < room ==> rest == 0)
    decreases room
  {
    var d, q := value % base, value / base;
    var c := DigitChar(d, uppercase);
    DigitCharValue(d, uppercase);
    QuotientRemainder(value, base);
    if q != 0 && room > 1 {
      rest := DigitsAndRest(q, base, uppercase, room - 1);
      GrowsBy(value, c, NtoaDigits(q, base, uppercase, room - 1), base, q, rest);
    } else {
      rest := q;
      GrowsBy(value, c, [], base, q, rest);
      assert [c] + [] == [c];
    }
  }

  lemma QuotientRemainder(value: nat, base: nat)
    requires base > 0
    ensures value == base * (value / base) + value % base && value / base >= 0 && 0 <= value % base < base
  {
  }

  lemma GrowsBy(value: nat, c: char, ds: seq<char>, base: nat, q: nat, rest: nat)
    requires 0 <= DigitValue(c) < base && value == base * q + DigitValue(c) && MakesUp(q, ds, base, rest)
    ensures MakesUp(value, [c] + ds, base, rest)
  {
    FirstDigit(c, ds, base);
    OneMore(base, DigitValue(c), q, LeastFirst(ds, base), Power(base, |ds|), rest);
  }

  lemma OneMore(b: nat, d: nat, q: nat, x: int, p: nat, rest: nat)
    requires q == x + p * rest && 0 <= x < p && d < b
    ensures b * q + d == (d + b * x) + b * p * rest && 0 <= d + b * x < b * p
  {
    assert b * q == b * x + b * (p * rest);
    assert b * (p * rest) == b * p * rest;
    assert b * x >= 0 && b * (x + 1) <= b * p by {
      MulMono(0, x, b);
      MulMono(x + 1, p, b);
    }
    assert b * (x + 1) == b * x + b;
  }

  /** In every base the digits denote the number if and only if they have room for all of it. */
  lemma DigitsExact(value: nat, base: nat, uppercase: bool, room: nat)
    requires 2 <= base <= 16 && room > 0
    ensures LeastFirst(NtoaDigits(value, base, uppercase, room), base) == value
       <==> value < Power(base, room)
  {
    var ds := NtoaDigits(value, base, uppercase, room);
    var rest := DigitsAndRest(value, base, uppercase, room);
    PowerGrows(base, |ds|, room);
    FitsExact(value, LeastFirst(ds, base), Power(base, |ds|), Power(base, room), rest);
  }

  lemma FitsExact(value: nat, low: int, p: nat, whole: nat, rest: nat)
    requires value == low + p * rest && 0 <= low < p <= whole && (rest > 0 ==> p == whole)
    ensures low == value <==> value < whole
  {
    if rest > 0 {
      MulMono(1, rest, p);
    }
  }

  lemma {:induction false} PowerGrows(b: nat, m: nat, n: nat)
    requires m <= n && b >= 1
    ensures 1 <= Power(b, m) <= Power(b, n)
    decreases n
  {
    if m < n {
      PowerGrows(b, m, n - 1);
      MulMono(1, b, Power(b, n - 1));
    } else if n > 0 {
      PowerGrows(b, n - 1, n - 1);
      MulMono(1, b, Power(b, n - 1));
    }
  }

  /** The conversion characters of integers and their bases; `b` is an extension. */
  ghost predicate Radix(c: char, base: nat) {
    || ((c == 'd' || c == 'i' || c == 'u') && base == 10)
    || ((c == 'x' || c == 'X') && base == 16)
    || (c == 'o' && base == 8)
    || (c == 'b' && base == 2)
  }

  /** Of the bases of the conversions only binary can lose digits of a 64-bit number: those above 32. */
  lemma ConversionDigitsExact(value: u64, c: char, base: nat, uppercase: bool)
    requires Radix(c, base)
    ensures IsInteger(c) && Base(c) == base
    ensures LeastFirst(NtoaDigits(value, base, uppercase, 32), base) == value <==> c != 'b' || value < TWO32
  {
    DigitsExact(value, base, uppercase, 32);
    PowerOf32(base);
  }

  lemma PowerOf32(b: nat)
    requires b == 2 || b == 8 || b == 10 || b == 16
    ensures if b == 2 then Power(b, 32) == TWO32 else Power(b, 32) >= TWO64
  {
    PowerOf8(b);
    var p := Power(b, 8);
    PowerAdd(b, 8, 8);
    PowerAdd(b, 16, 16);
    SquareTwice(b, p, Power(b, 16), Power(b, 32));
  }

  lemma SquareTwice(b: nat, p: nat, s: nat, q: nat)
    requires (b == 2 && p == 0x100) || p == 0x100_0000 || p == 100000000 || p == 0x1_0000_0000
    requires b == 2 ==> p == 0x100
    requires s == p * p && q == s * s
    ensures if b == 2 then q == TWO32 else q >= TWO64
  {
    if b != 2 {
      MulMono(0x1_0000, p, p);
      MulMono(0x1_0000, p, 0x1_0000);
      MulMono(TWO32, s, TWO32);
      MulMono(TWO32, s, s);
    }
  }

  lemma PowerOf8(b: nat)
    requires b == 2 || b == 8 || b == 10 || b == 16
    ensures Power(b, 8) == if b == 2 then 0x100 else if b == 8 then 0x100_0000
                           else if b == 10 then 100000000 else 0x1_0000_0000
  {
    assert Power(b, 8) == if b == 2 then 0x100 else if b == 8 then 0x100_0000 else if b == 10 then 100000000
                else 0x1_0000_0000 by {
      assert Power(b, 4) == b * (b * (b * b)) by { assert Power(b, 2) == b * b; }
      assert Power(b, 6) == b * (b * Power(b, 4));
      assert Power(b, 8) == b * (b * Power(b, 6));
    }
  }

  lemma TimesProduct(b: nat, p: nat, q: nat)
    ensures b * (p * q) == (b * p) * q
  {
  }

  lemma {:induction false} PowerAdd(b: nat, m: nat, n: nat)
    ensures Power(b, m + n) == Power(b, m) * Power(b, n)
    decreases m
  {
    if m > 0 {
      PowerAdd(b, m - 1, n);
      TimesProduct(b, Power(b, m - 1), Power(b, n));
    }
  }

  // ---------------------------------------------------------------------------------------------
  // Fields.

  /** `text` is `body` with blanks up to the width, behind it if left-justified, else before it. */
  ghost predicate Justified(text: seq<char>, body: seq<char>, width: nat, left: bool) {
    && |text| == (if width > |body| then width else |body|)
    && (left ==> text[..|body|] == body && forall k :: |body| <= k < |text| ==> text[k] == ' ')
    && (!left ==> text[|text| - |body|..] == body
                  && forall k :: 0 <= k < |text| - |body| ==> text[k] == ' ')
  }

  /** Strings and characters are justified in their field. */
  lemma PadTextJustifies(text: seq<char>, width: nat, fl: Flags)
    ensures Justified(PadText(text, width, fl), text, width, Left in fl)
  {
  }

  /** So are numbers, unless zeros are to fill the field. */
  lemma OutRevJustifies(buf: seq<char>, width: nat, fl: Flags)
    ensures Left in fl || ZeroPad !in fl ==>
              Justified(OutRev(buf, width, fl), Reverse(buf), width, Left in fl)
    ensures Left !in fl && ZeroPad in fl ==> OutRev(buf, width, fl) == Reverse(buf)
  {
    var body, out := Reverse(buf), OutRev(buf, width, fl);
    if Left in fl {
      assert out[..|body|] == body;
    } else if ZeroPad !in fl {
      assert out[|out| - |body|..] == body;
    }
  }
}
