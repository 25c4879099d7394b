/** The flag `#` of the integer conversions: what C17 section 7.21.6.1 asks of the alternate form, and
    exactly when the output of printf (src/fakedyld/lib/printf.c) is that text. */
module AlternateForm {
  import opened Bits
  import opened Wrappers
  import opened Printf
  import opened Directives
  import opened Conversions
  import RoundTrip
  import Strtoull

  // ---------------------------------------------------------------------------------------------
  // What the printer does.

  /** The digits that are taken from the buffer because it is as long as the field is wide. */
  function Dropped(len: nat, base: nat, width: nat, precise: bool): (k: nat)
    ensures k <= len
  {
    if precise || len == 0 || len != width then 0 else if len > 1 && base == 16 then 2 else 1
  }

  /** As much of the prefix as the buffer has room for, from its end. */
  function Pushed(len: nat, prefix: string): string
    requires 1 <= |prefix| <= 2
  {
    if len + |prefix| <= 32 then prefix else if len < 32 then prefix[1..] else ""
  }

  /** The prefix of a base. */
  ghost predicate PrefixOf(prefix: string, base: nat, capital: bool) {
    || (base == 16 && prefix == (if capital then "0X" else "0x"))
    || (base == 2 && prefix == "0b")
    || (base == 8 && prefix == "0")
  }

  lemma ReverseTaken(p: seq<char>, k: nat)
    requires k <= |p|
    ensures Reverse(p[..|p| - k]) == Reverse(p)[k..]
  {
    var b, tail := p[..|p| - k], p[|p| - k..];
    assert p == b + tail;
    RoundTrip.ReverseAppend(b, tail);
    assert (Reverse(tail) + Reverse(b))[k..] == Reverse(b);
  }

  lemma ReversePush(b: seq<char>, c: char)
    ensures Reverse(b + [c]) == [c] + Reverse(b)
  {
    RoundTrip.ReverseAppend(b, [c]);
    assert Reverse([c]) == [c];
  }

  /** The buffer after the handling of `#`, in reading order. */
  lemma HashedReversed(p: seq<char>, base: nat, prec: nat, width: nat, fl: Flags, prefix: string, k: nat)
    requires |p| <= 32 && Hash in fl && (Precision in fl || prec == 0)
    requires PrefixOf(prefix, base, Uppercase in fl) && k == Dropped(|p|, base, width, Precision in fl)
    ensures Reverse(Hashed(p, base, prec, width, fl)) == Pushed(|p| - k, prefix) + Reverse(p)[k..]
  {
    var b := p[..|p| - k];
    ReverseTaken(p, k);
    PushedReversed(b, prefix, if base == 8 then b else Push(b, prefix[1]));
    HashedIs(p, base, prec, width, fl, prefix, k);
  }

  lemma HashedIs(p: seq<char>, base: nat, prec: nat, width: nat, fl: Flags, prefix: string, k: nat)
    requires |p| <= 32 && Hash in fl && (Precision in fl || prec == 0)
    requires PrefixOf(prefix, base, Uppercase in fl) && k == Dropped(|p|, base, width, Precision in fl)
    ensures Hashed(p, base, prec, width, fl)
         == Push(if base == 8 then p[..|p| - k] else Push(p[..|p| - k], prefix[1]), '0')
  {
    assert p[..|p|] == p;
  }

  lemma PushedReversed(b: seq<char>, prefix: string, c: seq<char>)
    requires |b| <= 32 && 1 <= |prefix| <= 2 && prefix[0] == '0'
    requires c == if |prefix| == 1 then b else Push(b, prefix[1])
    ensures Reverse(Push(c, '0')) == Pushed(|b|, prefix) + Reverse(b)
  {
    assert "" + Reverse(b) == Reverse(b);
    if |prefix| == 1 {
      assert prefix == ['0'];
      ReversePush(b, '0');
    } else if |b| < 32 {
      assert prefix[1..] == [prefix[1]];
      ReversePush(b, prefix[1]);
      if |b| < 31 {
        TwoPushed(b, prefix, c);
      }
    }
  }

  lemma TwoPushed(b: seq<char>, prefix: string, c: seq<char>)
    requires |prefix| == 2 && prefix[0] == '0' && Reverse(c) == [prefix[1]] + Reverse(b)
    ensures Reverse(c + ['0']) == prefix + Reverse(b)
  {
    ReversePush(c, '0');
    assert prefix == ['0'] + [prefix[1]];
    Associates(['0'], [prefix[1]], Reverse(b));
  }

  /** The text that the buffer `buf` is printed as. */
  lemma BufferHash(buf: seq<char>, base: nat, prec: nat, width: nat, fl: Flags, left: bool, zero: bool,
                   precise: bool, prefix: string)
      returns (q: seq<char>, k: nat)
    requires |buf| <= 32 && Hash in fl && (precise || prec == 0) && (precise <==> Precision in fl)
    requires (left <==> Left in fl) && (zero <==> ZeroPad in fl) && PrefixOf(prefix, base, Uppercase in fl)
    ensures InBuffer(q, Reverse(buf), prec, width, left, zero) == true && |q| <= 32
    ensures k == Dropped(|q|, base, width, precise)
    ensures OutRev(Hashed(Padded(buf, prec, width, fl), base, prec, width, fl), width, fl)
         == Printed(Pushed(|q| - k, prefix), q[k..], width, left, zero)
  {
    var p := Padded(buf, prec, width, fl);
    PaddedIs(buf, prec, width, fl);
    PaddedReversed(buf, |p| - |buf|, p);
    q := Reverse(p);
    k := Dropped(|p|, base, width, precise);
    HashedPrints(p, base, prec, width, fl, left, zero, prefix, k);
  }

  lemma HashedPrints(p: seq<char>, base: nat, prec: nat, width: nat, fl: Flags, left: bool, zero: bool,
                     prefix: string, k: nat)
    requires |p| <= 32 && Hash in fl && (Precision in fl || prec == 0)
    requires (left <==> Left in fl) && (zero <==> ZeroPad in fl)
    requires PrefixOf(prefix, base, Uppercase in fl) && k == Dropped(|p|, base, width, Precision in fl)
    ensures OutRev(Hashed(p, base, prec, width, fl), width, fl)
         == Printed(Pushed(|p| - k, prefix), Reverse(p)[k..], width, left, zero)
  {
    HashedReversed(p, base, prec, width, fl, prefix, k);
    OutRevPrinted(Hashed(p, base, prec, width, fl), Pushed(|p| - k, prefix), Reverse(p)[k..], width, fl);
  }

  lemma HashSteps(v: u64, base: nat, prec: nat, width: nat, fl: Flags, capital: bool, buf: seq<char>,
                  p: seq<char>)
    requires 2 <= base <= 16 && v != 0 && Plus !in fl && Space !in fl && (capital <==> Uppercase in fl)
    requires buf == Buffered(v, base, capital, false) && p == Padded(buf, prec, width, fl)
    ensures Ntoa(v, false, base, prec, width, fl) == OutRev(Hashed(p, base, prec, width, fl), width, fl)
  {
    assert FieldWidth(false, width, fl) == width;
    var h := Hashed(p, base, prec, width, fl);
    assert Signed(h, false, fl) == h;
  }

  // ---------------------------------------------------------------------------------------------
  // A prefix of two characters.

  /** No digit of the number is dropped from the buffer, and no zero too few: what is printed in a field
      as wide as its digits, or filled with zeros, lacks the two characters that the prefix takes. */
  predicate KeepsDigits(base: nat, n: nat, width: nat, filled: bool) {
    if !filled then n != width
    else if base == 16 then n != width && n + 1 != width
    else width < n || width == n + 1
  }

  /** Prefix and digits fit the digit buffer, no zeros are asked for in a left-justified field, and all
      digits are kept.  `n` counts the digits of the numeral, `m` those of the precision as well. */
  predicate PrefixFits(base: nat, n: nat, m: nat, width: nat, left: bool, zero: bool, precise: bool) {
    var d := if zero && !left && width > 2 + m then width - 2 else m;
    && d + 2 <= 32 && (left ==> m == n)
    && (precise || KeepsDigits(base, n, width, zero && !left))
  }

  lemma PrefixLengths(base: nat, n: nat, prec: nat, m: nat, d: nat, width: nat, left: bool, zero: bool,
                      precise: bool, len: nat, k: nat)
    requires (base == 16 || base == 2) && n > 0 && m == (if prec > n then prec else n)
    requires precise || prec == 0
    requires precise ==> !zero
    requires d == if zero && !left && width > 2 + m then width - 2 else m
    requires len == PaddedLength(if n < 32 then n else 32, prec, width, left, zero)
    requires k == Dropped(len, base, width, precise)
    ensures PrefixFits(base, n, m, width, left, zero, precise)
       ==> n <= 32 && len - k == d && d >= n && len - k + 2 <= 32
    ensures !PrefixFits(base, n, m, width, left, zero, precise)
       ==> len - k + (if len - k + 2 <= 32 then 2 else if len - k < 32 then 1 else 0) != d + 2
           || (len - k == 31 && d == 30 && zero && !left && width == 32)
  {
  }

  /** Zeros before a numeral stay zeros before it. */
  lemma ZerosDropped(q: seq<char>, num: seq<char>, k: nat)
    requires |num| + k <= |q| && q == Repeat(|q| - |num|, '0') + num
    ensures q[k..] == Repeat(|q| - k - |num|, '0') + num
  {
  }

  lemma PrefixDecides(base: nat, num: seq<char>, figures: seq<char>, back: seq<char>, prec: nat, width: nat,
                      left: bool, zero: bool, precise: bool, prefix: string, q: seq<char>, k: nat)
    requires (base == 16 || base == 2) && |prefix| == 2 && ' ' !in prefix && prefix[0] != prefix[1] && num != []
    requires (precise || prec == 0) && (precise ==> !zero)
    requires Numbers(num, figures, back, prec) == true && InBuffer(q, back, prec, width, left, zero) == true
    requires k == Dropped(|q|, base, width, precise)
    ensures Printed(Pushed(|q| - k, prefix), q[k..], width, left, zero)
         == FieldText(prefix, figures, width, left, zero)
       <==> PrefixFits(base, |num|, |figures|, width, left, zero, precise)
  {
    var full := FullIs(prefix, num, figures, prec, width, left, zero);
    FieldTextIs(prefix, figures, width, left, zero);
    PrefixLengths(base, |num|, prec, |figures|, |full|, width, left, zero, precise, |q|, k);
    DarkRest(q, |q| - |back|, back, k);
    PrefixSides(prefix, num, q, k, full, width, left, zero,
                PrefixFits(base, |num|, |figures|, width, left, zero, precise), |back|);
  }

  lemma PrefixSides(prefix: string, num: seq<char>, q: seq<char>, k: nat, full: seq<char>, width: nat, left: bool,
                    zero: bool, fits: bool, n: nat)
    requires |prefix| == 2 && ' ' !in prefix && prefix[0] != prefix[1] && k <= |q| <= 32 && ' ' !in q[k..]
    requires ' ' !in full && full == Repeat(|full| - |num|, '0') + num
    requires zero && !left ==> |prefix| + |full| >= width
    requires fits ==> n == |num| && q == Repeat(|q| - n, '0') + num && n + k <= |q|
    requires fits ==> |q| - k == |full| <= 30
    requires !fits ==> |q| - k + |Pushed(|q| - k, prefix)| != |full| + 2
                       || (|q| - k == 31 && |full| == 30 && zero && !left && width == 32)
    ensures Printed(Pushed(|q| - k, prefix), q[k..], width, left, zero) == InField(prefix + full, width, left)
       <==> fits
  {
    if fits {
      PrefixRight(prefix, num, q, k, full, width, left, zero);
    } else {
      PrefixWrong(prefix, q[k..], full, width, left, zero);
    }
  }

  lemma DarkRest(q: seq<char>, n: int, back: seq<char>, k: nat)
    requires q == Repeat(n, '0') + back && ' ' !in back && k <= |q|
    ensures ' ' !in q[k..]
  {
  }

  lemma PrefixRight(prefix: string, num: seq<char>, q: seq<char>, k: nat, full: seq<char>, width: nat, left: bool,
                    zero: bool)
    requires |prefix| == 2 && |num| + k <= |q| && q == Repeat(|q| - |num|, '0') + num && |q| - k <= 30
    requires full == Repeat(|full| - |num|, '0') + num && |full| == |q| - k
    requires zero && !left ==> |prefix| + |full| >= width
    ensures Printed(Pushed(|q| - k, prefix), q[k..], width, left, zero) == InField(prefix + full, width, left)
  {
    ZerosDropped(q, num, k);
    PrefixAgrees(prefix, full, width, left, zero);
  }

  lemma PrefixWrong(prefix: string, rest: seq<char>, full: seq<char>, width: nat, left: bool, zero: bool)
    requires |prefix| == 2 && ' ' !in prefix && prefix[0] != prefix[1] && ' ' !in rest && ' ' !in full
    requires |rest| + |Pushed(|rest|, prefix)| != |full| + |prefix|
             || (|rest| == 31 && |full| == 30 && zero && !left && width == 32)
    ensures Printed(Pushed(|rest|, prefix), rest, width, left, zero) != InField(prefix + full, width, left)
  {
    if |rest| == 31 && |full| == 30 && zero && !left && width == 32 {
      PrefixCut(prefix, rest, full, width);
    } else {
      PrefixDiffers(prefix, rest, full, width, left, zero);
    }
  }

  /** The first character of the prefix is lost to a buffer that zeros have filled. */
  lemma PrefixCut(prefix: string, rest: seq<char>, full: seq<char>, width: nat)
    requires |prefix| == 2 && prefix[0] != prefix[1] && |rest| == 31 && |full| == 30 && width == 32
    ensures Printed(Pushed(|rest|, prefix), rest, width, false, true) != InField(prefix + full, width, false)
  {
    var mine, asked := Printed(Pushed(|rest|, prefix), rest, width, false, true), InField(prefix + full, width, false);
    assert Pushed(31, prefix) == [prefix[1]];
    assert mine[0] == prefix[1];
    assert Repeat(0, ' ') == [] && [] + (prefix + full) == prefix + full;
    assert asked[0] == prefix[0];
  }

  lemma PrefixAgrees(prefix: seq<char>, full: seq<char>, width: nat, left: bool, zero: bool)
    requires zero && !left ==> |prefix| + |full| >= width
    ensures Printed(prefix, full, width, left, zero) == InField(prefix + full, width, left)
  {
    assert width <= |prefix| + |full| ==> Repeat(width - |prefix + full|, ' ') == [];
  }

  /** Different numbers of characters that are no blanks. */
  lemma PrefixDiffers(prefix: string, rest: seq<char>, full: seq<char>, width: nat, left: bool, zero: bool)
    requires 1 <= |prefix| <= 2 && ' ' !in prefix && ' ' !in rest && ' ' !in full
    requires |rest| + |Pushed(|rest|, prefix)| != |full| + |prefix|
    ensures Printed(Pushed(|rest|, prefix), rest, width, left, zero) != InField(prefix + full, width, left)
  {
    var pre := Pushed(|rest|, prefix);
    DarkPrinted(pre, rest, width, left, zero);
    DarkAll(pre);
    DarkField(prefix + full, width, left);
    DarkAll(prefix + full);
  }

  // ---------------------------------------------------------------------------------------------
  // Octal.

  /** The alternate form of an octal number has a precision of one digit more than the numeral. */
  function OctalPrecision(n: nat, prec: Option<nat>): nat {
    if prec.Some? && prec.value > n then prec.value else n + 1
  }

  /** When the printer's text is right: no digit is dropped, zeros fill at most the digit buffer, and a
      precision does not put zeros there already, unless the buffer is full or the field left-justified. */
  predicate OctalFits(n: nat, width: nat, left: bool, zero: bool, prec: Option<nat>) {
    match prec
    case None => n != width && (zero && !left && width > n ==> width <= 32)
    case Some(p) => if left then p <= n + 1 else p <= n || p == 32
  }

  lemma OctalLengths(n: nat, prec: Option<nat>, d: nat, width: nat, left: bool, zero: bool, len: nat, k: nat)
    requires 0 < n < 32 && (prec.Some? ==> !zero)
    requires d == var m := OctalPrecision(n, prec); if zero && !left && width > m then width else m
    requires len == PaddedLength(n, if prec.Some? then prec.value else 0, width, left, zero)
    requires k == Dropped(len, 8, width, prec.Some?)
    ensures var printed := len - k + if len - k < 32 then 1 else 0;
      && (OctalFits(n, width, left, zero, prec) <==> printed == d)
      && (printed == d ==> n + k <= len)
  {
  }

  lemma OctalDecides(num: seq<char>, figures: seq<char>, back: seq<char>, prec: Option<nat>, width: nat,
                     left: bool, zero: bool, q: seq<char>, k: nat)
    requires OctalDigits(num, figures, back, prec) == true && (prec.Some? ==> !zero)
    requires InBuffer(q, back, if prec.Some? then prec.value else 0, width, left, zero) == true && |q| <= 32
    requires k == Dropped(|q|, 8, width, prec.Some?)
    ensures Printed(Pushed(|q| - k, "0"), q[k..], width, left, zero) == FieldText("", figures, width, left, zero)
       <==> OctalFits(|num|, width, left, zero, prec)
  {
    var full := OctalFull(num, figures, OctalPrecision(|num|, prec), width, left, zero);
    OctalLengths(|num|, prec, |full|, width, left, zero, |q|, k);
    DarkRest(q, |q| - |num|, num, k);
    OctalSides(num, q, k, full, width, left, zero, OctalFits(|num|, width, left, zero, prec));
  }

  lemma OctalFull(num: seq<char>, figures: seq<char>, p: nat, width: nat, left: bool, zero: bool)
      returns (full: seq<char>)
    requires ' ' !in num && p >= |num| && figures == Repeat(p - |num|, '0') + num
    ensures FieldText("", figures, width, left, zero) == InField(full, width, left) && ' ' !in full
    ensures full == Repeat(|full| - |num|, '0') + num && |full| == if zero && !left && width > p then width else p
  {
    full := FullIs("", num, figures, p, width, left, zero);
    FieldTextIs("", figures, width, left, zero);
    assert "" + full == full;
  }

  lemma OctalSides(num: seq<char>, q: seq<char>, k: nat, full: seq<char>, width: nat, left: bool, zero: bool,
                   fits: bool)
    requires |num| <= |q| <= 32 && k <= |q| && q == Repeat(|q| - |num|, '0') + num
    requires ' ' !in q[k..] && ' ' !in full && full == Repeat(|full| - |num|, '0') + num
    requires zero && !left ==> |full| >= width
    requires fits <==> |q| - k + |Pushed(|q| - k, "0")| == |full|
    requires fits ==> |num| + k <= |q|
    ensures Printed(Pushed(|q| - k, "0"), q[k..], width, left, zero) == InField(full, width, left) <==> fits
  {
    var pre := Pushed(|q| - k, "0");
    if fits {
      ZerosDropped(q, num, k);
      OneMoreZero(pre, q[k..], num, full);
      PrefixAgrees([], full, width, left, zero);
    } else {
      DarkPrinted(pre, q[k..], width, left, zero);
      DarkAll(pre);
      DarkField(full, width, left);
      DarkAll(full);
    }
  }

  lemma OneMoreZero(pre: string, rest: seq<char>, num: seq<char>, full: seq<char>)
    requires (pre == "0" || pre == "") && |num| <= |rest| && rest == Repeat(|rest| - |num|, '0') + num
    requires full == Repeat(|full| - |num|, '0') + num && |full| == |pre| + |rest|
    ensures pre + rest == full == [] + full
  {
  }

  // ---------------------------------------------------------------------------------------------
  // Directives.

  lemma AlternateFlags(c: char, base: nat, fl: Flags, o: Options, size: nat)
    requires Radix(c, base) && base != 10 && FlagsAre(fl, o, true, size)
    ensures var g := IntegerFlags(c, fl);
      && Base(c) == base && IsInteger(c) && !IsSigned(c) && ArgWidth(g).Count() == size
      && Hash in g && Plus !in g && Space !in g && (Uppercase in g <==> c == 'X') && (Left in g <==> o.left)
      && (ZeroPad in g <==> o.zero && o.prec.None?) && (Precision in g <==> o.prec.Some?)
  {
  }

  /** A hexadecimal or binary directive with `#`, and a number other than 0, is printed as it is asked
      for, with the prefix 0x, 0X or 0b, if and only if that fits and no digit is dropped. */
  lemma PrefixExact(c: char, base: nat, d: Directive, va: Args, o: Options, size: nat, v: int, prefix: string)
    requires Radix(c, base) && (base == 16 || base == 2) && DirectiveIs(d, o, true, size)
    requires size > 0 && v == ArgumentOf(va(d.k).bits, size, false) && v != 0
    requires prefix == if c == 'x' then "0x" else if c == 'X' then "0X" else "0b"
    ensures ConvertOne(c, d, va)
         == FieldText(prefix, Figures(v, base, c == 'X', o.prec), o.width, o.left, o.zero && o.prec.None?)
       <==> PrefixFits(base, |Numeral(v, base, c == 'X')|, |Figures(v, base, c == 'X', o.prec)|, o.width, o.left,
                       o.zero && o.prec.None?, o.prec.Some?)
  {
    var fl := IntegerFlags(c, d.fl);
    AlternateFlags(c, base, d.fl, o, size);
    ConvertsBy(c, d, va, fl, size, v, base);
    PrefixNtoa(v, base, c == 'X', d.precision, o, fl, prefix);
  }

  lemma PrefixNtoa(v: u64, base: nat, capital: bool, prec: nat, o: Options, fl: Flags, prefix: string)
    requires (base == 16 || base == 2) && v != 0 && Hash in fl && Plus !in fl && Space !in fl
    requires prec == (if o.prec.Some? then o.prec.value else 0) && (Precision in fl <==> o.prec.Some?)
    requires (capital <==> Uppercase in fl) && (Left in fl <==> o.left)
    requires (ZeroPad in fl <==> o.zero && o.prec.None?) && PrefixOf(prefix, base, capital)
    ensures Ntoa(v, false, base, prec, o.width, fl)
         == FieldText(prefix, Figures(v, base, capital, o.prec), o.width, o.left, o.zero && o.prec.None?)
       <==> PrefixFits(base, |Numeral(v, base, capital)|, |Figures(v, base, capital, o.prec)|, o.width, o.left,
                       o.zero && o.prec.None?, o.prec.Some?)
  {
    var buf, zero := Buffered(v, base, capital, false), o.zero && o.prec.None?;
    var q, k := NtoaHash(v, base, prec, o.width, fl, capital, o.left, zero, o.prec.Some?, prefix, buf);
    PrefixShape(prefix, base, capital);
    PrefixNumerals(v, base, capital, o.prec, prec, o.width, o.left, zero, prefix, buf, q, k);
  }

  lemma NtoaHash(v: u64, base: nat, prec: nat, width: nat, fl: Flags, capital: bool, left: bool, zero: bool,
                 precise: bool, prefix: string, buf: seq<char>)
      returns (q: seq<char>, k: nat)
    requires 2 <= base <= 16 && v != 0 && Hash in fl && Plus !in fl && Space !in fl
    requires (precise || prec == 0) && (precise <==> Precision in fl) && (capital <==> Uppercase in fl)
    requires (left <==> Left in fl) && (zero <==> ZeroPad in fl) && PrefixOf(prefix, base, capital)
    requires buf == Buffered(v, base, capital, false)
    ensures InBuffer(q, Reverse(buf), prec, width, left, zero) == true && |q| <= 32
    ensures k == Dropped(|q|, base, width, precise)
    ensures Ntoa(v, false, base, prec, width, fl)
         == Printed(Pushed(|q| - k, prefix), q[k..], width, left, zero)
  {
    HashSteps(v, base, prec, width, fl, capital, buf, Padded(buf, prec, width, fl));
    q, k := BufferHash(buf, base, prec, width, fl, left, zero, precise, prefix);
  }

  lemma PrefixShape(prefix: string, base: nat, capital: bool)
    requires PrefixOf(prefix, base, capital) && base != 8
    ensures |prefix| == 2 && ' ' !in prefix && prefix[0] != prefix[1]
  {
  }

  lemma PrefixNumerals(v: u64, base: nat, capital: bool, p: Option<nat>, prec: nat, width: nat, left: bool,
                       zero: bool, prefix: string, buf: seq<char>, q: seq<char>, k: nat)
    requires (base == 16 || base == 2) && v != 0 && |prefix| == 2 && ' ' !in prefix && prefix[0] != prefix[1]
    requires prec == (if p.Some? then p.value else 0) && (p.Some? ==> !zero)
    requires buf == Buffered(v, base, capital, false)
    requires InBuffer(q, Reverse(buf), prec, width, left, zero) == true && k == Dropped(|q|, base, width, p.Some?)
    ensures Printed(Pushed(|q| - k, prefix), q[k..], width, left, zero)
         == FieldText(prefix, Figures(v, base, capital, p), width, left, zero)
       <==> PrefixFits(base, |Numeral(v, base, capital)|, |Figures(v, base, capital, p)|, width, left, zero, p.Some?)
  {
    var num := Numeral(v, base, capital);
    NumbersAre(v, base, capital, p, prec, false);
    PrefixDecides(base, num, Figures(v, base, capital, p), Reverse(buf), prec, width, left, zero, p.Some?, prefix, q,
                  k);
  }

  /** An octal directive with `#`, and a number other than 0, is printed as it is asked for, with a
      leading 0, if and only if none is there already and no digit is dropped. */
  lemma OctalExact(d: Directive, va: Args, o: Options, size: nat, v: int)
    requires DirectiveIs(d, o, true, size) && size > 0 && v == ArgumentOf(va(d.k).bits, size, false) && v != 0
    requires 0 <= v < TWO64
    ensures ConvertOne('o', d, va)
         == FieldText("", Figures(v, 8, false, Some(OctalPrecision(|Numeral(v, 8, false)|, o.prec))), o.width,
                      o.left, o.zero && o.prec.None?)
       <==> OctalFits(|Numeral(v, 8, false)|, o.width, o.left, o.zero && o.prec.None?, o.prec)
  {
    var fl := IntegerFlags('o', d.fl);
    AlternateFlags('o', 8, d.fl, o, size);
    ConvertsBy('o', d, va, fl, size, v, 8);
    WordNumeral(v, 8, false);
    OctalNtoa(v, d.precision, o, fl, OctalPrecision(|Numeral(v, 8, false)|, o.prec));
  }

  lemma OctalNtoa(v: u64, prec: nat, o: Options, fl: Flags, p: nat)
    requires v != 0 && Hash in fl && Plus !in fl && Space !in fl && Uppercase !in fl
    requires prec == (if o.prec.Some? then o.prec.value else 0) && (Precision in fl <==> o.prec.Some?)
    requires (Left in fl <==> o.left) && (ZeroPad in fl <==> o.zero && o.prec.None?)
    requires p == OctalPrecision(|Numeral(v, 8, false)|, o.prec) && |Numeral(v, 8, false)| < 32
    ensures Ntoa(v, false, 8, prec, o.width, fl)
         == FieldText("", Figures(v, 8, false, Some(p)), o.width, o.left, o.zero && o.prec.None?)
       <==> OctalFits(|Numeral(v, 8, false)|, o.width, o.left, o.zero && o.prec.None?, o.prec)
  {
    var buf, zero := Buffered(v, 8, false, false), o.zero && o.prec.None?;
    var q, k := NtoaHash(v, 8, prec, o.width, fl, false, o.left, zero, o.prec.Some?, "0", buf);
    OctalNumerals(v, o.prec, prec, p, o.width, o.left, zero, buf, q, k);
  }

  /** The octal numeral, the digits that are asked for, and those in the buffer. */
  ghost predicate OctalDigits(num: seq<char>, figures: seq<char>, back: seq<char>, prec: Option<nat>) {
    && 0 < |num| < 32 && ' ' !in num && back == num
    && figures == Repeat(OctalPrecision(|num|, prec) - |num|, '0') + num
  }

  lemma OctalDigitsAre(v: u64, prec: Option<nat>, p: nat, back: seq<char>)
    requires v != 0 && |Numeral(v, 8, false)| < 32 && p == OctalPrecision(|Numeral(v, 8, false)|, prec)
    requires back == Reverse(Buffered(v, 8, false, false))
    ensures OctalDigits(Numeral(v, 8, false), Figures(v, 8, false, Some(p)), back, prec) == true
  {
    BufferedIs(v, 8, false, false, Numeral(v, 8, false));
    FiguresAre(v, 8, false, Some(p), p);
  }

  lemma OctalNumerals(v: u64, prec: Option<nat>, pr: nat, p: nat, width: nat, left: bool, zero: bool,
                      buf: seq<char>, q: seq<char>, k: nat)
    requires v != 0 && pr == (if prec.Some? then prec.value else 0) && (prec.Some? ==> !zero)
    requires p == OctalPrecision(|Numeral(v, 8, false)|, prec) && |Numeral(v, 8, false)| < 32
    requires buf == Buffered(v, 8, false, false) && |q| <= 32
    requires InBuffer(q, Reverse(buf), pr, width, left, zero) == true && k == Dropped(|q|, 8, width, prec.Some?)
    ensures Printed(Pushed(|q| - k, "0"), q[k..], width, left, zero)
         == FieldText("", Figures(v, 8, false, Some(p)), width, left, zero)
       <==> OctalFits(|Numeral(v, 8, false)|, width, left, zero, prec)
  {
    OctalDigitsAre(v, prec, p, Reverse(buf));
    OctalDecides(Numeral(v, 8, false), Figures(v, 8, false, Some(p)), Reverse(buf), prec, width, left, zero, q, k);
  }

  /** A number that is as long as its field loses two digits to the prefix: for `%#3x` and 0x123 the
      printer's text is not 0x123. */
  lemma HashDropsDigits(f: seq<char>, va: Args, ds: seq<char>)
    requires f == "%#3x" && va(0).bits == 0x123 && ds == "3"
    ensures var d := ParseDirective(f, 1, va, 0);
      d.i == 3 && f[d.i] == 'x' && ConvertOne('x', d, va) != "0x123"
  {
    var o := Options(false, false, false, false, 3, None);
    var d := ParseDirective(f, 1, va, 0);
    HashDirective(f, va, ds, o, d);
    HashText(d, va, o);
  }

  lemma HashText(d: Directive, va: Args, o: Options)
    requires va(d.k).bits == 0x123 && o == Options(false, false, false, false, 3, None)
    requires DirectiveIs(d, o, true, TWO32)
    ensures ConvertOne('x', d, va) != "0x123"
  {
    PrefixExact('x', 16, d, va, o, TWO32, 0x123, "0x");
    ThreeDigits();
  }

  lemma HashDirective(f: seq<char>, va: Args, ds: seq<char>, o: Options, d: Directive)
    requires f == "%#3x" && ds == "3" && o == Options(false, false, false, false, 3, None)
    requires d == ParseDirective(f, 1, va, 0)
    ensures DirectiveIs(d, o, true, TWO32) == true && d.i == 3 && d.k == 0
  {
    var w := Number(ds);
    ThreeIsThree(ds);
    assert f[1..2] == ['#'] && f[2..3] == ds && f[3..3] == [] && NoDot.Text() == [] && w.Text() == ds;
    DirectiveReads(f, 1, va, 0, ['#'], 2, w, 3, NoDot, 3, [], 3, o, d);
  }

  lemma ThreeIsThree(ds: seq<char>)
    requires ds == "3"
    ensures Strtoull.Digits(ds, 10) && Strtoull.Value(ds, 10) == 3
  {
    assert Strtoull.Digits(ds, 10);
    assert Strtoull.ValueFrom(0, ds, 10) == Strtoull.ValueFrom(3, ds[1..], 10);
  }

  lemma ThreeDigits()
    ensures Numeral(0x123, 16, false) == "123"
    ensures FieldText("0x", Figures(0x123, 16, false, None), 3, false, false) == "0x123"
  {
    assert Numeral(1, 16, false) == "1";
    assert Numeral(0x12, 16, false) == "1" + "2";
    assert Numeral(0x123, 16, false) == "12" + "3";
    var body := "0x" + [] + "123";
    assert Figures(0x123, 16, false, None) == "123" by { assert Repeat(0, '0') + "123" == "123"; }
    assert body == "0x123" && Repeat(3 - |body|, ' ') + body == body;
  }
}
