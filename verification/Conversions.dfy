/** What C17 section 7.21.6.1 asks of an integer, character or string directive, written without any part
    of the printer, and exactly when the output of printf (src/fakedyld/lib/printf.c) is that text. */
module Conversions {
  import opened Bits
  import opened Wrappers
  import opened Printf
  import opened Directives
  import RoundTrip

  // ---------------------------------------------------------------------------------------------
  // The text of a number.

  function Figure(d: nat, capital: bool): char
    requires d < 16
  {
    (if capital then "0123456789ABCDEF" else "0123456789abcdef")[d]
  }

  /** The shortest numeral of `v`, most significant digit first. */
  function Numeral(v: nat, base: nat, capital: bool): (r: seq<char>)
    requires 2 <= base <= 16
    ensures |r| >= 1
  {
    QuotientSmaller(v, base);
    (if v < base then [] else Numeral(v / base, base, capital)) + [Figure(v % base, capital)]
  }

  lemma QuotientSmaller(v: nat, base: nat)
    requires base >= 2
    ensures 0 <= v % base < base && (v > 0 ==> v / base < v)
  {
    var q, r := v / base, v % base;
    assert v == base * q + r;
    assert base * q >= 2 * q by { MulMono(2, base, q); }
  }

  function Repeat(n: int, c: char): (r: seq<char>)
    ensures |r| == if n > 0 then n else 0
  {
    seq(if n > 0 then n else 0, _ => c)
  }

  /** The numeral; but 0 has no more digits than a precision asks for. */
  function Shown(v: nat, base: nat, capital: bool, prec: Option<nat>): seq<char>
    requires 2 <= base <= 16
  {
    if v == 0 && prec.Some? then [] else Numeral(v, base, capital)
  }

  /** The numeral with at least as many digits as the precision. */
  function Figures(v: nat, base: nat, capital: bool, prec: Option<nat>): seq<char>
    requires 2 <= base <= 16
  {
    var n := Shown(v, base, capital, prec);
    Repeat(if prec.Some? then prec.value - |n| else 0, '0') + n
  }

  /** `body` in a field, with blanks behind it or before it. */
  function InField(body: seq<char>, width: nat, left: bool): seq<char> {
    if left then body + Repeat(width - |body|, ' ') else Repeat(width - |body|, ' ') + body
  }

  /** Sign and digits in a field that zeros or blanks fill. */
  function FieldText(sign: seq<char>, figures: seq<char>, width: nat, left: bool, zero: bool): seq<char> {
    var fill := if zero && !left then Repeat(width - |sign| - |figures|, '0') else [];
    InField(sign + fill + figures, width, left)
  }

  /** The digits and the sign fit the 32-byte digit buffer, or the lost sign is a blank that the field
      has anyway; and no zeros are asked for in a left-justified field.  `n` counts the digits of the
      numeral, `m` those of the precision as well. */
  predicate Fitting(sign: seq<char>, n: nat, m: nat, width: nat, left: bool, zero: bool) {
    var d := if zero && !left && width > |sign| + m then width - |sign| else m;
    && (left ==> m == n)
    && (d + |sign| <= 32 || (sign == " " && d == 32 && width > 32 && !left && !zero))
  }

  // ---------------------------------------------------------------------------------------------
  // The printer's numeral.

  lemma FigureIsDigit(d: nat, capital: bool)
    requires d < 16
    ensures Figure(d, capital) == DigitChar(d, capital) && Figure(d, capital) != ' '
  {
    assert 'a' as int == 97 && 'A' as int == 65 && '0' as int == 48 && '9' as int == 57;
  }

  lemma ReverseCons(c: char, ds: seq<char>)
    ensures Reverse([c] + ds) == Reverse(ds) + [c]
  {
    assert ([c] + ds)[1..] == ds;
  }

  /** As many digits as there is room for are computed, and they are the numeral if there is room. */
  lemma {:induction false} NumeralReversed(v: nat, base: nat, capital: bool, room: nat)
    requires 2 <= base <= 16 && room > 0
    ensures var ds, n := NtoaDigits(v, base, capital, room), Numeral(v, base, capital);
      && |ds| == (if |n| < room then |n| else room)
      && (|n| <= room ==> Reverse(ds) == n)
    decreases room
  {
    var c := DigitChar(v % base, capital);
    FigureIsDigit(v % base, capital);
    QuotientZero(v, base);
    if v >= base && room > 1 {
      NumeralReversed(v / base, base, capital, room - 1);
      ReverseCons(c, NtoaDigits(v / base, base, capital, room - 1));
    } else {
      assert [c] + [] == [c] && Reverse([c]) == [c];
    }
  }

  lemma QuotientZero(v: nat, base: nat)
    requires base > 0
    ensures v / base == 0 <==> v < base
  {
    if v >= base {
      assert v / base >= 1 by { MulMono(1, v / base, base); }
    }
  }

  lemma {:induction false} NumeralDark(v: nat, base: nat, capital: bool)
    requires 2 <= base <= 16
    ensures ' ' !in Numeral(v, base, capital)
    decreases v
  {
    FigureIsDigit(v % base, capital);
    if v >= base {
      NumeralDark(v / base, base, capital);
    }
  }

  // ---------------------------------------------------------------------------------------------
  // The printer's text, by its sign and its digits.

  /** The digits in the buffer before padding. */
  function Buffered(v: nat, base: nat, capital: bool, empty: bool): (ds: seq<char>)
    requires 2 <= base <= 16
    ensures |ds| <= 32
  {
    if empty then [] else NtoaDigits(v, base, capital, 32)
  }

  /** The length of the buffer after padding. */
  function PaddedLength(n: nat, prec: nat, w: nat, left: bool, zero: bool): nat {
    var a := if prec < 32 then prec else 32;
    var b := if w < 32 then w else 32;
    if left then n
    else if zero && b > n && b > a then b
    else if a > n then a else n
  }

  lemma PaddedIs(buf: seq<char>, prec: nat, w: nat, fl: Flags)
    requires |buf| <= 32
    ensures var p := Padded(buf, prec, w, fl);
      && |p| == PaddedLength(|buf|, prec, w, Left in fl, ZeroPad in fl)
      && p == buf + Repeat(|p| - |buf|, '0')
  {
  }

  lemma {:induction false} ReverseRepeat(n: int)
    ensures Reverse(Repeat(n, '0')) == Repeat(n, '0')
    decreases n
  {
    if n > 0 {
      assert Repeat(n, '0')[1..] == Repeat(n - 1, '0');
      ReverseRepeat(n - 1);
      assert Repeat(n - 1, '0') + ['0'] == Repeat(n, '0');
    }
  }

  lemma PaddedReversed(buf: seq<char>, n: int, p: seq<char>)
    requires p == buf + Repeat(n, '0')
    ensures Reverse(p) == Repeat(n, '0') + Reverse(buf)
  {
    RoundTrip.ReverseAppend(buf, Repeat(n, '0'));
    ReverseRepeat(n);
  }

  /** The sign that is asked for. */
  function SignOf(negative: bool, plus: bool, space: bool): string {
    if negative then "-" else if plus then "+" else if space then " " else ""
  }

  /** The printer's text from the sign that is kept and the digits in reading order. */
  function Printed(sign: seq<char>, q: seq<char>, width: nat, left: bool, zero: bool): seq<char> {
    if zero && !left then sign + q else InField(sign + q, width, left)
  }

  lemma OutRevPrinted(s: seq<char>, sign: seq<char>, q: seq<char>, w: nat, fl: Flags)
    requires Reverse(s) == sign + q
    ensures OutRev(s, w, fl) == Printed(sign, q, w, Left in fl, ZeroPad in fl)
  {
    assert Spaces(w - |s|) == Repeat(w - |s|, ' ');
    assert [] + Reverse(s) + [] == Reverse(s);
    assert [] + Reverse(s) + Spaces(w - |s|) == Reverse(s) + Spaces(w - |s|);
    assert Spaces(w - |s|) + Reverse(s) + [] == Spaces(w - |s|) + Reverse(s);
  }

  /** The options that the printer finds in the flags. */
  ghost predicate Reads(fl: Flags, capital: bool, left: bool, zero: bool, empty: bool, v: nat, negative: bool,
                        sign: string) {
    && Hash !in fl && (capital <==> Uppercase in fl) && (left <==> Left in fl) && (zero <==> ZeroPad in fl)
    && (empty <==> Precision in fl && v == 0) && sign == SignOf(negative, Plus in fl, Space in fl)
  }

  lemma NtoaSteps(v: u64, negative: bool, base: nat, prec: nat, width: nat, fl: Flags, capital: bool,
                  empty: bool, w: nat)
    requires 2 <= base <= 16 && Hash !in fl && (capital <==> Uppercase in fl)
    requires (empty <==> Precision in fl && v == 0) && w == FieldWidth(negative, width, fl)
    ensures Ntoa(v, negative, base, prec, width, fl)
         == OutRev(Signed(Padded(Buffered(v, base, capital, empty), prec, w, fl), negative, fl), w, fl)
  {
    assert fl - {Hash} == fl;
  }

  /** `q` is what padding makes of the digits `back`, in reading order. */
  ghost predicate InBuffer(q: seq<char>, back: seq<char>, prec: nat, w: nat, left: bool, zero: bool) {
    && |q| == PaddedLength(|back|, prec, w, left, zero) && |back| <= |q|
    && q == Repeat(|q| - |back|, '0') + back
  }

  /** The numeral, the digits that are asked for, and as many digits as the buffer holds. */
  ghost predicate Numbers(num: seq<char>, figures: seq<char>, back: seq<char>, prec: nat) {
    && ' ' !in num && ' ' !in back && figures == Repeat(prec - |num|, '0') + num
    && |back| == (if |num| < 32 then |num| else 32) && (|num| <= 32 ==> back == num)
  }

  /** The text that the buffer `buf` is printed as. */
  lemma BufferPrints(buf: seq<char>, negative: bool, prec: nat, fl: Flags, left: bool, zero: bool, sign: string,
                     w: nat)
      returns (q: seq<char>, kept: seq<char>)
    requires |buf| <= 32 && sign == SignOf(negative, Plus in fl, Space in fl)
    requires (left <==> Left in fl) && (zero <==> ZeroPad in fl)
    ensures InBuffer(q, Reverse(buf), prec, w, left, zero) == true && kept == if |q| < 32 then sign else ""
    ensures OutRev(Signed(Padded(buf, prec, w, fl), negative, fl), w, fl) == Printed(kept, q, w, left, zero)
  {
    var p := Padded(buf, prec, w, fl);
    PaddedIs(buf, prec, w, fl);
    PaddedReversed(buf, |p| - |buf|, p);
    q := Reverse(p);
    kept := if |p| < 32 then sign else "";
    SignedPrints(p, negative, fl, sign, kept, w, left, zero);
  }

  lemma SignedPrints(p: seq<char>, negative: bool, fl: Flags, sign: string, kept: string, w: nat, left: bool,
                     zero: bool)
    requires sign == SignOf(negative, Plus in fl, Space in fl) && kept == if |p| < 32 then sign else ""
    requires (left <==> Left in fl) && (zero <==> ZeroPad in fl)
    ensures OutRev(Signed(p, negative, fl), w, fl) == Printed(kept, Reverse(p), w, left, zero)
  {
    assert RoundTrip.SignText(p, negative, fl) == kept;
    RoundTrip.SignedReversed(p, negative, fl);
    OutRevPrinted(Signed(p, negative, fl), kept, Reverse(p), w, fl);
  }

  // ---------------------------------------------------------------------------------------------
  // When the printer's text is the one that is asked for.

  /** The number of characters that are no blanks. */
  ghost function Dark(t: seq<char>): nat {
    if t == [] then 0 else (if t[0] == ' ' then 0 else 1) + Dark(t[1..])
  }

  lemma {:induction false} DarkAdds(a: seq<char>, b: seq<char>)
    ensures Dark(a + b) == Dark(a) + Dark(b)
  {
    if a == [] {
      assert a + b == b;
    } else {
      assert (a + b)[1..] == a[1..] + b;
      DarkAdds(a[1..], b);
    }
  }

  lemma {:induction false} DarkBlanks(n: int)
    ensures Dark(Repeat(n, ' ')) == 0
    decreases n
  {
    if n > 0 {
      assert Repeat(n, ' ')[1..] == Repeat(n - 1, ' ');
      DarkBlanks(n - 1);
    }
  }

  lemma {:induction false} DarkAll(t: seq<char>)
    requires ' ' !in t
    ensures Dark(t) == |t|
  {
    if t != [] {
      DarkAll(t[1..]);
    }
  }

  lemma DarkField(body: seq<char>, width: nat, left: bool)
    ensures Dark(InField(body, width, left)) == Dark(body)
  {
    var blanks := Repeat(width - |body|, ' ');
    DarkBlanks(width - |body|);
    DarkAdds(body, blanks);
    DarkAdds(blanks, body);
  }

  lemma DarkPrinted(sign: seq<char>, q: seq<char>, w: nat, left: bool, zero: bool)
    requires ' ' !in q
    ensures Dark(Printed(sign, q, w, left, zero)) == Dark(sign) + |q|
  {
    DarkField(sign + q, w, left);
    DarkAdds(sign, q);
    DarkAll(q);
  }

  /** What the two texts are made of: the sign, the digits that are asked for and those in the buffer,
      and the width that the printer leaves for them. */
  ghost predicate Compared(sign: seq<char>, kept: seq<char>, q: seq<char>, full: seq<char>, w: nat, width: nat,
                           left: bool, zero: bool) {
    && |sign| <= 1 && kept == (if |q| < 32 then sign else "")
    && w == (if zero && !left && |sign| == 1 && width > 0 then width - 1 else width)
    && (zero && !left ==> |sign| + |full| >= width)
  }

  lemma Agrees(sign: seq<char>, kept: seq<char>, q: seq<char>, full: seq<char>, w: nat, width: nat, left: bool,
               zero: bool)
    requires Compared(sign, kept, q, full, w, width, left, zero) && q == full
    requires |full| + |sign| <= 32 || (sign == " " && |full| == 32 && width > 32 && !left && !zero)
    ensures Printed(kept, q, w, left, zero) == InField(sign + full, width, left)
  {
    if |full| + |sign| <= 32 {
      assert kept == sign;
    } else {
      assert kept + q == q;
      assert Repeat(width - 32, ' ') == Repeat(width - 33, ' ') + " ";
    }
  }

  lemma Differs(sign: seq<char>, kept: seq<char>, q: seq<char>, full: seq<char>, w: nat, width: nat, left: bool,
                zero: bool)
    requires Compared(sign, kept, q, full, w, width, left, zero) && ' ' !in q && ' ' !in full
    requires |q| <= 32 && (|q| < |full| || (|full| == 32 == |q| && |sign| == 1))
    requires !(sign == " " && |full| == 32 && |q| == 32 && width > 32 && !left && !zero)
    ensures Printed(kept, q, w, left, zero) != InField(sign + full, width, left)
  {
    DarkPrinted(kept, q, w, left, zero);
    DarkField(sign + full, width, left);
    DarkAdds(sign, full);
    DarkAll(full);
    if |sign| == 1 && sign[0] == ' ' && |q| == |full| {
      BlankLost(sign, q, full, w, width, left, zero);
    } else if |sign| == 1 {
      assert sign == [sign[0]];
    }
  }

  /** A blank that is lost in front of 32 digits shows in the length, or at the start. */
  lemma BlankLost(sign: seq<char>, q: seq<char>, full: seq<char>, w: nat, width: nat, left: bool, zero: bool)
    requires Compared(sign, "", q, full, w, width, left, zero) && ' ' !in q
    requires sign == " " && |full| == 32 == |q| && !(width > 32 && !left && !zero)
    ensures Printed("", q, w, left, zero) != InField(sign + full, width, left)
  {
    var mine, asked := Printed("", q, w, left, zero), InField(sign + full, width, left);
    if left {
      assert asked[0] == ' ' && mine[0] == q[0];
    } else {
      assert |mine| <= 32 < |asked|;
    }
  }

  /** The digits that fill the field, all of them. */
  function Full(sign: seq<char>, figures: seq<char>, width: nat, left: bool, zero: bool): seq<char> {
    (if zero && !left then Repeat(width - |sign| - |figures|, '0') else []) + figures
  }

  lemma FieldTextIs(sign: seq<char>, figures: seq<char>, width: nat, left: bool, zero: bool)
    ensures FieldText(sign, figures, width, left, zero)
         == InField(sign + Full(sign, figures, width, left, zero), width, left)
  {
    var fill := if zero && !left then Repeat(width - |sign| - |figures|, '0') else [];
    Associates(sign, fill, figures);
  }

  /** The digits asked for are the numeral behind zeros. */
  lemma FullIs(sign: seq<char>, num: seq<char>, figures: seq<char>, prec: nat, width: nat, left: bool, zero: bool)
      returns (full: seq<char>)
    requires ' ' !in num && figures == Repeat(prec - |num|, '0') + num
    ensures full == Full(sign, figures, width, left, zero) == Repeat(|full| - |num|, '0') + num
    ensures |full| == if zero && !left && width > |sign| + |figures| then width - |sign| else |figures|
    ensures ' ' !in full
  {
    full := Full(sign, figures, width, left, zero);
    var a := if prec > |num| then prec - |num| else 0;
    var b := if zero && !left && width > |sign| + |figures| then width - |sign| - |figures| else 0;
    assert figures == Repeat(a, '0') + num;
    assert full == Repeat(b, '0') + figures;
    ZerosJoin(b, a, num);
  }

  lemma ZerosJoin(b: nat, a: nat, num: seq<char>)
    ensures Repeat(b, '0') + (Repeat(a, '0') + num) == Repeat(a + b, '0') + num
    ensures ' ' !in num ==> ' ' !in Repeat(a + b, '0') + num
  {
  }

  /** As many digits as asked for, up to the size of the buffer; but in a left-justified field only
      those of the numeral. */
  lemma Lengths(sign: seq<char>, n: nat, prec: nat, m: nat, d: nat, w: nat, width: nat, left: bool, zero: bool)
    requires |sign| <= 1 && m == (if prec > n then prec else n)
    requires w == if zero && !left && |sign| == 1 && width > 0 then width - 1 else width
    requires d == if zero && !left && width > |sign| + m then width - |sign| else m
    ensures PaddedLength(if n < 32 then n else 32, prec, w, left, zero)
         == var k := if left then n else d; if k < 32 then k else 32
  {
  }

  lemma Decides(sign: seq<char>, kept: seq<char>, q: seq<char>, full: seq<char>, w: nat, width: nat,
                left: bool, zero: bool, num: seq<char>, m: nat, back: seq<char>)
    requires Compared(sign, kept, q, full, w, width, left, zero) && ' ' !in q && ' ' !in full
    requires |q| == var k := if left then |num| else |full|; if k < 32 then k else 32
    requires |num| <= 32 ==> back == num
    requires |back| <= |q| && q == Repeat(|q| - |back|, '0') + back
    requires full == Repeat(|full| - |num|, '0') + num && |num| <= m
    requires |full| == if zero && !left && width > |sign| + m then width - |sign| else m
    ensures Printed(kept, q, w, left, zero) == InField(sign + full, width, left)
       <==> Fitting(sign, |num|, m, width, left, zero)
  {
    if Fitting(sign, |num|, m, width, left, zero) {
      assert |q| == |full|;
      Agrees(sign, kept, q, full, w, width, left, zero);
    } else {
      Differs(sign, kept, q, full, w, width, left, zero);
    }
  }

  lemma WidthLeft(negative: bool, width: nat, fl: Flags, sign: string, left: bool, zero: bool)
    requires sign == SignOf(negative, Plus in fl, Space in fl)
    requires (left <==> Left in fl) && (zero <==> ZeroPad in fl)
    ensures |sign| <= 1
    ensures FieldWidth(negative, width, fl)
         == if zero && !left && |sign| == 1 && width > 0 then width - 1 else width
  {
  }

  lemma BufferedIs(v: nat, base: nat, capital: bool, empty: bool, num: seq<char>)
    requires 2 <= base <= 16 && num == if empty then [] else Numeral(v, base, capital)
    ensures var buf := Buffered(v, base, capital, empty);
      && |buf| == (if |num| < 32 then |num| else 32)
      && (|num| <= 32 ==> Reverse(buf) == num)
  {
    NumeralReversed(v, base, capital, 32);
  }

  /** The printer's text is the one that is asked for if and only if it fits. */
  lemma NtoaExact(v: u64, negative: bool, base: nat, prec: nat, width: nat, fl: Flags, capital: bool,
                  left: bool, zero: bool, p: Option<nat>, sign: string)
    requires 2 <= base <= 16 && (Precision in fl || prec == 0)
    requires Reads(fl, capital, left, zero, p.Some? && v == 0, v, negative, sign)
    requires p == if Precision in fl then Some(prec) else None
    ensures Ntoa(v, negative, base, prec, width, fl)
         == FieldText(sign, Figures(v, base, capital, p), width, left, zero)
       <==> Fitting(sign, |Shown(v, base, capital, p)|, |Figures(v, base, capital, p)|, width, left, zero)
  {
    var empty, w := p.Some? && v == 0, FieldWidth(negative, width, fl);
    var num, buf := Shown(v, base, capital, p), Buffered(v, base, capital, empty);
    NtoaSteps(v, negative, base, prec, width, fl, capital, empty, w);
    NumbersAre(v, base, capital, p, prec, empty);
    PaddedExact(num, Figures(v, base, capital, p), buf, negative, prec, width, fl, left, zero, sign, w);
  }

  lemma PaddedExact(num: seq<char>, figures: seq<char>, buf: seq<char>, negative: bool, prec: nat, width: nat,
                    fl: Flags, left: bool, zero: bool, sign: string, w: nat)
    requires sign == SignOf(negative, Plus in fl, Space in fl) && w == FieldWidth(negative, width, fl)
    requires (left <==> Left in fl) && (zero <==> ZeroPad in fl)
    requires |buf| <= 32 && Numbers(num, figures, Reverse(buf), prec) == true
    ensures OutRev(Signed(Padded(buf, prec, w, fl), negative, fl), w, fl)
         == FieldText(sign, figures, width, left, zero)
       <==> Fitting(sign, |num|, |figures|, width, left, zero)
  {
    WidthLeft(negative, width, fl, sign, left, zero);
    var q, kept := BufferPrints(buf, negative, prec, fl, left, zero, sign, w);
    TextsExact(num, figures, Reverse(buf), prec, w, width, left, zero, sign, q, kept);
  }

  lemma NumbersAre(v: nat, base: nat, capital: bool, p: Option<nat>, prec: nat, empty: bool)
    requires 2 <= base <= 16 && prec == (if p.Some? then p.value else 0) && (empty <==> p.Some? && v == 0)
    ensures Numbers(Shown(v, base, capital, p), Figures(v, base, capital, p),
                    Reverse(Buffered(v, base, capital, empty)), prec) == true
  {
    BufferedIs(v, base, capital, empty, Shown(v, base, capital, p));
    BufferedLight(v, base, capital, empty);
    FiguresAre(v, base, capital, p, prec);
  }

  lemma FiguresAre(v: nat, base: nat, capital: bool, p: Option<nat>, prec: nat)
    requires 2 <= base <= 16 && prec == if p.Some? then p.value else 0
    ensures var num := Shown(v, base, capital, p);
      ' ' !in num && Figures(v, base, capital, p) == Repeat(prec - |num|, '0') + num
  {
    NumeralDark(v, base, capital);
  }

  lemma TextsExact(num: seq<char>, figures: seq<char>, back: seq<char>, prec: nat, w: nat, width: nat, left: bool,
                   zero: bool, sign: string, q: seq<char>, kept: seq<char>)
    requires |sign| <= 1 && kept == if |q| < 32 then sign else ""
    requires w == if zero && !left && |sign| == 1 && width > 0 then width - 1 else width
    requires Numbers(num, figures, back, prec) == true && InBuffer(q, back, prec, w, left, zero) == true
    ensures Printed(kept, q, w, left, zero) == FieldText(sign, figures, width, left, zero)
       <==> Fitting(sign, |num|, |figures|, width, left, zero)
  {
    var full := FullIs(sign, num, figures, prec, width, left, zero);
    FieldTextIs(sign, figures, width, left, zero);
    BufferDecides(sign, kept, q, full, w, width, left, zero, num, |figures|, back, prec);
  }

  lemma BufferDecides(sign: seq<char>, kept: seq<char>, q: seq<char>, full: seq<char>, w: nat, width: nat,
                      left: bool, zero: bool, num: seq<char>, m: nat, back: seq<char>, prec: nat)
    requires |sign| <= 1 && kept == (if |q| < 32 then sign else "") && ' ' !in q && ' ' !in full
    requires w == if zero && !left && |sign| == 1 && width > 0 then width - 1 else width
    requires |back| == (if |num| < 32 then |num| else 32) && (|num| <= 32 ==> back == num)
    requires |q| == PaddedLength(|back|, prec, w, left, zero)
    requires |back| <= |q| && q == Repeat(|q| - |back|, '0') + back
    requires m == if prec > |num| then prec else |num|
    requires full == Repeat(|full| - |num|, '0') + num
    requires |full| == if zero && !left && width > |sign| + m then width - |sign| else m
    ensures Printed(kept, q, w, left, zero) == InField(sign + full, width, left)
       <==> Fitting(sign, |num|, m, width, left, zero)
  {
    Lengths(sign, |num|, prec, m, |full|, w, width, left, zero);
    Decides(sign, kept, q, full, w, width, left, zero, num, m, back);
  }

  lemma BufferedLight(v: nat, base: nat, capital: bool, empty: bool)
    requires 2 <= base <= 16
    ensures ' ' !in Reverse(Buffered(v, base, capital, empty))
  {
    if !empty {
      DigitsDark(v, base, capital, 32);
    }
  }

  lemma {:induction false} DigitsDark(v: nat, base: nat, capital: bool, room: nat)
    requires 2 <= base <= 16 && room > 0
    ensures ' ' !in Reverse(NtoaDigits(v, base, capital, room))
    decreases room
  {
    var c := DigitChar(v % base, capital);
    FigureIsDigit(v % base, capital);
    var rest := if v / base != 0 && room > 1 then NtoaDigits(v / base, base, capital, room - 1) else [];
    ReverseCons(c, rest);
    if rest != [] {
      DigitsDark(v / base, base, capital, room - 1);
    }
  }

  // ---------------------------------------------------------------------------------------------
  // Integer directives.

  /** Two to the number of bits of the integer type that a length modifier names. */
  function TypeSize(length: seq<char>): (n: nat)
    ensures n > 0
  {
    if length == "hh" then 0x100 else if length == "h" then 0x1_0000
    else if length == "" then 0x1_0000_0000 else 0x1_0000_0000_0000_0000
  }

  /** The value of an argument of a signed or an unsigned type. */
  function ArgumentOf(bits: u64, size: nat, signed: bool): int
    requires size > 0
  {
    var x := bits % size;
    if signed && x >= size / 2 then x - size else x
  }

  /** The argument of a `*`. */
  function StarOf(s: Slot): int { ArgumentOf(s.bits, 0x1_0000_0000, true) }

  /** What the flags, the width and the precision of a directive ask for. */
  datatype Options = Options(left: bool, plus: bool, space: bool, zero: bool, width: nat, prec: Option<nat>)

  ghost function OptionsOf(flags: seq<char>, w: Field, p: Dot, warg: int, parg: int): Options
    requires w.Valid() && p.Valid()
  {
    Options('-' in flags || (w.Star? && warg < 0), '+' in flags, ' ' in flags, '0' in flags, WidthOf(w, warg),
            if p.Dot? then Some(PrecisionOf(p, parg)) else None)
  }

  predicate IsSigned(c: char) { c == 'd' || c == 'i' }

  /** Plus and blank count for the signed conversions only. */
  function SignText(c: char, o: Options, v: int): string {
    SignOf(v < 0, IsSigned(c) && o.plus, IsSigned(c) && o.space)
  }

  function Size(v: int): nat { if v < 0 then -v else v }

  /** The text of an integer directive; the flag 0 does not count beside a precision. */
  function IntegerText(c: char, base: nat, o: Options, v: int): seq<char>
    requires 2 <= base <= 16
  {
    FieldText(SignText(c, o, v), Figures(Size(v), base, c == 'X', o.prec), o.width, o.left,
              o.zero && o.prec.None?)
  }

  predicate IntegerFits(c: char, base: nat, o: Options, v: int)
    requires 2 <= base <= 16
  {
    Fitting(SignText(c, o, v), |Shown(Size(v), base, c == 'X', o.prec)|,
            |Figures(Size(v), base, c == 'X', o.prec)|, o.width, o.left, o.zero && o.prec.None?)
  }

  /** The flags as they were read, by what they ask for. */
  ghost predicate FlagsAre(fl: Flags, o: Options, hash: bool, size: nat) {
    && (Left in fl <==> o.left) && (Plus in fl <==> o.plus) && (Space in fl <==> o.space)
    && (ZeroPad in fl <==> o.zero) && (Precision in fl <==> o.prec.Some?) && (Hash in fl <==> hash)
    && Uppercase !in fl && ArgWidth(fl).Count() == size
  }

  ghost predicate DirectiveIs(d: Directive, o: Options, hash: bool, size: nat) {
    && FlagsAre(d.fl, o, hash, size) && d.width == o.width
    && d.precision == if o.prec.Some? then o.prec.value else 0
  }

  lemma ReadBySize(s: Slot, w: Width)
    ensures ReadUnsigned(s, w) == ArgumentOf(s.bits, w.Count(), false)
    ensures ReadSigned(s, w) == ArgumentOf(s.bits, w.Count(), true)
  {
    SmallMod(s.bits, TWO64);
  }

  /** The flags that the conversion goes by. */
  lemma ConversionFlags(c: char, base: nat, fl: Flags, o: Options, hash: bool, size: nat, v: int)
    requires Radix(c, base) && FlagsAre(fl, o, hash, size) && (v < 0 ==> IsSigned(c))
    ensures Base(c) == base
    ensures Reads(IntegerFlags(c, fl) - {Hash}, c == 'X', o.left, o.zero && o.prec.None?,
                  o.prec.Some? && Size(v) == 0, Size(v), v < 0, SignText(c, o, v))
    ensures Precision in IntegerFlags(c, fl) <==> o.prec.Some?
    ensures Hash in IntegerFlags(c, fl) <==> hash && base != 10
    ensures ArgWidth(IntegerFlags(c, fl)).Count() == size
  {
  }

  lemma ArgumentRange(bits: u64, size: nat, signed: bool)
    requires 0 < size <= TWO64 && size % 2 == 0
    ensures Size(ArgumentOf(bits, size, signed)) < TWO64
  {
  }

  lemma ConvertsBy(c: char, d: Directive, va: Args, fl: Flags, size: nat, v: int, base: nat)
    requires IsInteger(c) && fl == IntegerFlags(c, d.fl) && base == Base(c) && size == ArgWidth(fl).Count()
    requires v == ArgumentOf(va(d.k).bits, size, IsSigned(c))
    ensures Size(v) < TWO64 && ConvertOne(c, d, va) == Ntoa(Size(v), v < 0, base, d.precision, d.width, fl)
  {
    ArgumentRange(va(d.k).bits, size, IsSigned(c));
    ReadBySize(va(d.k), ArgWidth(fl));
    SizeIs(v);
    assert ConvertOne(c, d, va) == ConvertInteger(c, d, va);
  }

  lemma SizeIs(v: int)
    requires -0x8000_0000_0000_0000 <= v < TWO64
    ensures Magnitude(v) == Size(v)
  {
  }

  /** The flag # does not count for 0. */
  lemma HashOfZero(v: u64, negative: bool, base: nat, prec: nat, width: nat, fl: Flags)
    requires 2 <= base <= 16 && (Hash in fl ==> v == 0)
    ensures Ntoa(v, negative, base, prec, width, fl) == Ntoa(v, negative, base, prec, width, fl - {Hash})
  {
    assert fl - {Hash} - {Hash} == fl - {Hash};
    assert Hash !in fl ==> fl - {Hash} == fl;
  }

  lemma NtoaAsked(c: char, base: nat, d: Directive, o: Options, hash: bool, size: nat, v: int)
    requires Radix(c, base) && DirectiveIs(d, o, hash, size) && (v < 0 ==> IsSigned(c)) && Size(v) < TWO64
    ensures (Ntoa(Size(v), v < 0, base, d.precision, d.width, IntegerFlags(c, d.fl) - {Hash})
             == IntegerText(c, base, o, v)) <==> IntegerFits(c, base, o, v)
  {
    var fl := IntegerFlags(c, d.fl) - {Hash};
    ConversionFlags(c, base, d.fl, o, hash, size, v);
    NtoaExact(Size(v), v < 0, base, d.precision, d.width, fl, c == 'X', o.left, o.zero && o.prec.None?, o.prec,
              SignText(c, o, v));
  }

  lemma HashIs(c: char, base: nat, fl: Flags, o: Options, hash: bool, size: nat)
    requires Radix(c, base) && FlagsAre(fl, o, hash, size)
    ensures Base(c) == base && IsInteger(c) && ArgWidth(IntegerFlags(c, fl)).Count() == size
    ensures Hash in IntegerFlags(c, fl) ==> hash && base != 10
  {
    ConversionFlags(c, base, fl, o, hash, size, 0);
  }

  lemma ArgumentSign(bits: u64, size: nat, signed: bool)
    requires size > 0
    ensures ArgumentOf(bits, size, signed) < 0 ==> signed
  {
  }

  /** The text of an integer directive is the one that is asked for if and only if it fits. */
  lemma IntegerExact(c: char, base: nat, d: Directive, va: Args, o: Options, hash: bool, size: nat, v: int)
    requires Radix(c, base) && DirectiveIs(d, o, hash, size) && (hash ==> base == 10 || v == 0)
    requires size > 0 && v == ArgumentOf(va(d.k).bits, size, IsSigned(c))
    ensures ConvertOne(c, d, va) == IntegerText(c, base, o, v) <==> IntegerFits(c, base, o, v)
  {
    var fl := IntegerFlags(c, d.fl);
    HashIs(c, base, d.fl, o, hash, size);
    ArgumentSign(va(d.k).bits, size, IsSigned(c));
    ConvertsBy(c, d, va, fl, size, v, base);
    HashOfZero(Size(v), v < 0, base, d.precision, d.width, fl);
    NtoaAsked(c, base, d, o, hash, size, v);
  }

  // ---------------------------------------------------------------------------------------------
  // Directives in a format.

  lemma {:induction false} FlagSetIs(cs: seq<char>)
    requires forall k :: 0 <= k < |cs| ==> IsFlag(cs[k])
    ensures (Left in FlagSet(cs) <==> '-' in cs) && (Plus in FlagSet(cs) <==> '+' in cs)
    ensures (Space in FlagSet(cs) <==> ' ' in cs) && (ZeroPad in FlagSet(cs) <==> '0' in cs)
    ensures (Hash in FlagSet(cs) <==> '#' in cs) && FlagSet(cs) <= {Left, Plus, Space, ZeroPad, Hash}
  {
    if cs != [] {
      FlagSetIs(cs[1..]);
    }
  }

  lemma JoinedFlags(fl: Flags, a: Flags, star: bool, dot: bool, l: Flags)
    requires a <= {Left, Plus, Space, ZeroPad, Hash} && l <= {CharSize, ShortSize, LongSize, LongLongSize}
    requires fl == a + (if star then {Left} else {}) + (if dot then {Precision} else {}) + l
    ensures (Left in fl <==> Left in a || star) && (Plus in fl <==> Plus in a) && (Space in fl <==> Space in a)
    ensures (ZeroPad in fl <==> ZeroPad in a) && (Hash in fl <==> Hash in a) && (Precision in fl <==> dot)
    ensures Uppercase !in fl
    ensures (LongSize in fl <==> LongSize in l) && (LongLongSize in fl <==> LongLongSize in l)
    ensures (CharSize in fl <==> CharSize in l) && (ShortSize in fl <==> ShortSize in l)
  {
  }

  lemma LengthIs(fl: Flags, length: seq<char>)
    requires IsLength(length)
    requires (LongSize in fl <==> LongSize in LengthFlags(length))
    requires (LongLongSize in fl <==> LongLongSize in LengthFlags(length))
    requires (CharSize in fl <==> CharSize in LengthFlags(length))
    requires (ShortSize in fl <==> ShortSize in LengthFlags(length))
    ensures ArgWidth(fl).Count() == TypeSize(length)
    ensures LengthFlags(length) <= {CharSize, ShortSize, LongSize, LongLongSize}
  {
  }

  lemma LengthFlagsAre(length: seq<char>)
    requires IsLength(length)
    ensures LengthFlags(length) <= {CharSize, ShortSize, LongSize, LongLongSize}
  {
  }

  lemma MeantFlags(fl: Flags, flags: seq<char>, star: bool, dot: bool, length: seq<char>, o: Options)
    requires IsLength(length) && forall k :: 0 <= k < |flags| ==> IsFlag(flags[k])
    requires fl == FlagSet(flags) + (if star then {Left} else {}) + (if dot then {Precision} else {})
                   + LengthFlags(length)
    requires o.left == ('-' in flags || star) && o.plus == ('+' in flags) && o.space == (' ' in flags)
    requires o.zero == ('0' in flags) && o.prec.Some? == dot
    ensures FlagsAre(fl, o, '#' in flags, TypeSize(length))
  {
    FlagSetIs(flags);
    LengthFlagsAre(length);
    JoinedFlags(fl, FlagSet(flags), star, dot, LengthFlags(length));
    LengthIs(fl, length);
  }

  /** What has been read is what is written. */
  lemma MeantIs(va: Args, k: nat, flags: seq<char>, w: Field, p: Dot, length: seq<char>, end: nat, o: Options)
    requires w.Valid() && p.Valid() && IsLength(length) && forall k :: 0 <= k < |flags| ==> IsFlag(flags[k])
    requires o == OptionsOf(flags, w, p, StarOf(va(k)), StarOf(va(k + w.Uses())))
    ensures DirectiveIs(Meant(va, k, flags, w, p, length, end), o, '#' in flags, TypeSize(length))
  {
    ReadBySize(va(k), W32);
    ReadBySize(va(k + w.Uses()), W32);
    var d := Meant(va, k, flags, w, p, length, end);
    MeantFlags(d.fl, flags, w.Star? && StarOf(va(k)) < 0, p.Dot?, length, o);
  }

  /** What is read of a directive that is written at `i`: its options, the size of its type, its end, and
      that its argument comes behind those of width and precision. */
  lemma DirectiveReads(f: seq<char>, i: nat, va: Args, k: nat, flags: seq<char>, j: nat, w: Field, m: nat,
                       p: Dot, n: nat, length: seq<char>, end: nat, o: Options, d: Directive)
    requires Written(f, i, flags, j, w, m, p, n, length, end) && d == ParseDirective(f, i, va, k)
    requires w.Valid() && p.Valid()
    requires o == OptionsOf(flags, w, p, StarOf(va(k)), StarOf(va(k + w.Uses())))
    ensures DirectiveIs(d, o, '#' in flags, TypeSize(length)) == true
    ensures d.i == end && d.k == k + (if w.Star? then 1 else 0) + (if p == Dot(Star) then 1 else 0)
  {
    DirectiveParses(f, i, va, k, flags, j, w, m, p, n, length, end);
    MeantIs(va, k, flags, w, p, length, end, o);
  }

  lemma RoundIs(f: seq<char>, i: nat, va: Args, k: nat, d: Directive, end: nat, at: nat, text: seq<char>)
    requires i < |f| && f[i] == '%' && d == ParseDirective(f, i + 1, va, k)
    requires d.i == end < |f| && f[end] != '\0' && !IsFloat(f[end]) && at == d.k + Uses(f[end])
    requires text == ConvertOne(f[end], d, va)
    ensures RoundAt(f, i, va, k) == Some(Round(text, end + 1, at))
  {
    assert RoundOf(f, d, va) == Round(text, end + 1, at);
  }

  lemma RadixIsInteger(c: char, base: nat)
    requires Radix(c, base)
    ensures c != '\0' && !IsFloat(c) && Uses(c) == 1
  {
  }

  /** An integer directive, anywhere in a format, takes one argument, and its text is the one that is
      asked for if and only if that fits. */
  lemma IntegerRound(f: seq<char>, i: nat, va: Args, k: nat, d: Directive, end: nat, base: nat, o: Options,
                     hash: bool, size: nat, v: int)
      returns (text: seq<char>)
    requires i < |f| && f[i] == '%' && d == ParseDirective(f, i + 1, va, k) && d.i == end < |f|
    requires Radix(f[end], base) && DirectiveIs(d, o, hash, size) && size > 0
    requires v == ArgumentOf(va(d.k).bits, size, IsSigned(f[end]))
    requires hash ==> base == 10 || v == 0
    ensures RoundAt(f, i, va, k) == Some(Round(text, end + 1, d.k + 1))
    ensures text == IntegerText(f[end], base, o, v) <==> IntegerFits(f[end], base, o, v)
  {
    RadixIsInteger(f[end], base);
    text := ConvertOne(f[end], d, va);
    RoundIs(f, i, va, k, d, end, d.k + 1, text);
    IntegerExact(f[end], base, d, va, o, hash, size, v);
  }

  // ---------------------------------------------------------------------------------------------
  // The other directives.

  /** The low byte of the argument, in its field. */
  lemma CharacterRound(f: seq<char>, i: nat, va: Args, k: nat, d: Directive, end: nat, o: Options, hash: bool,
                       size: nat)
    requires i < |f| && f[i] == '%' && d == ParseDirective(f, i + 1, va, k) && d.i == end < |f|
    requires f[end] == 'c' && DirectiveIs(d, o, hash, size)
    ensures RoundAt(f, i, va, k)
         == Some(Round(InField([(va(d.k).bits % 0x100) as char], o.width, o.left), end + 1, d.k + 1))
  {
    var text := [(va(d.k).bits % 0x100) as char];
    PadTextIs(text, d.width, d.fl);
    RoundIs(f, i, va, k, d, end, d.k + 1, ConvertOne(f[end], d, va));
  }

  lemma PadTextIs(text: seq<char>, width: nat, fl: Flags)
    ensures PadText(text, width, fl) == InField(text, width, Left in fl)
  {
    assert Spaces(width - |text|) == Repeat(width - |text|, ' ');
  }

  /** As many characters of a string as there are, or as the precision allows. */
  function Cut(text: seq<char>, prec: Option<nat>): seq<char> {
    if prec.Some? && prec.value < |text| then text[..prec.value] else text
  }

  /** The string, cut off at the precision, in its field. */
  lemma StringRound(f: seq<char>, i: nat, va: Args, k: nat, d: Directive, end: nat, o: Options, hash: bool,
                    size: nat)
    requires i < |f| && f[i] == '%' && d == ParseDirective(f, i + 1, va, k) && d.i == end < |f|
    requires f[end] == 's' && DirectiveIs(d, o, hash, size)
    ensures RoundAt(f, i, va, k)
         == Some(Round(InField(Cut(va(d.k).text, o.prec), o.width, o.left), end + 1, d.k + 1))
  {
    PadTextIs(Cut(va(d.k).text, o.prec), d.width, d.fl);
    RoundIs(f, i, va, k, d, end, d.k + 1, ConvertOne(f[end], d, va));
  }

  /** A pointer: its 64 bits as capital hexadecimal digits that zeros fill up to 16. */
  lemma PointerRound(f: seq<char>, i: nat, va: Args, k: nat, d: Directive, end: nat, o: Options, size: nat)
      returns (text: seq<char>)
    requires i < |f| && f[i] == '%' && d == ParseDirective(f, i + 1, va, k) && d.i == end < |f|
    requires f[end] == 'p' && DirectiveIs(d, o, false, size)
    ensures RoundAt(f, i, va, k) == Some(Round(text, end + 1, d.k + 1))
    ensures var v, sign := va(d.k).bits, SignOf(false, o.plus, o.space);
      text == FieldText(sign, Figures(v, 16, true, o.prec), 16, o.left, true)
      <==> Fitting(sign, |Shown(v, 16, true, o.prec)|, |Figures(v, 16, true, o.prec)|, 16, o.left, true)
  {
    var v, fl := va(d.k).bits, d.fl + {ZeroPad, Uppercase};
    text := ConvertOne(f[end], d, va);
    RoundIs(f, i, va, k, d, end, d.k + 1, text);
    PointerConverts(d, va);
    PointerIs(v, d, o, size, fl, SignOf(false, o.plus, o.space));
  }

  lemma PointerConverts(d: Directive, va: Args)
    ensures ConvertOne('p', d, va) == Ntoa(va(d.k).bits, false, 16, d.precision, 16, d.fl + {ZeroPad, Uppercase})
  {
  }

  lemma PointerIs(v: u64, d: Directive, o: Options, size: nat, fl: Flags, sign: string)
    requires DirectiveIs(d, o, false, size) && fl == d.fl + {ZeroPad, Uppercase}
    requires sign == SignOf(false, o.plus, o.space)
    ensures Ntoa(v, false, 16, d.precision, 16, fl)
         == FieldText(sign, Figures(v, 16, true, o.prec), 16, o.left, true)
       <==> Fitting(sign, |Shown(v, 16, true, o.prec)|, |Figures(v, 16, true, o.prec)|, 16, o.left, true)
  {
    NtoaExact(v, false, 16, d.precision, 16, fl, true, o.left, true, o.prec, sign);
  }

  /** Any other character stands for itself and takes no argument, '%' among them. */
  lemma OtherRound(f: seq<char>, i: nat, va: Args, k: nat, d: Directive, end: nat)
    requires i < |f| && f[i] == '%' && d == ParseDirective(f, i + 1, va, k) && d.i == end < |f|
    requires f[end] !in "diuxXobcspfFeEgG" && f[end] != '\0'
    ensures RoundAt(f, i, va, k) == Some(Round([f[end]], end + 1, d.k))
  {
    var c := f[end];
    OtherIsNone(c);
    RoundIs(f, i, va, k, d, end, d.k, [c]);
  }

  lemma OtherIsNone(c: char)
    requires c !in "diuxXobcspfFeEgG"
    ensures !IsInteger(c) && !IsFloat(c) && c != 'c' && c != 's' && c != 'p'
  {
    var known := "diuxXobcspfFeEgG";
    assert known[0] == 'd' && known[1] == 'i' && known[2] == 'u' && known[3] == 'x' && known[4] == 'X';
    assert known[5] == 'o' && known[6] == 'b' && known[7] == 'c' && known[8] == 's' && known[9] == 'p';
    assert known[10] == 'f' && known[11] == 'F' && known[12] == 'e' && known[13] == 'E';
    assert known[14] == 'g' && known[15] == 'G';
  }

  /** Conversions of floating point, and directives that the end of the format cuts off, are outside. */
  lemma Unsupported(f: seq<char>, i: nat, va: Args, k: nat, d: Directive)
    requires i < |f| && f[i] == '%' && d == ParseDirective(f, i + 1, va, k)
    requires d.i >= |f| || f[d.i] == '\0' || f[d.i] in "fFeEgG"
    ensures !Supported(f, i, va, k)
  {
    FloatIs(At(f, d.i));
    assert RoundAt(f, i, va, k) == None;
  }

  lemma FloatIs(c: char)
    ensures c in "fFeEgG" ==> IsFloat(c)
  {
  }

  // ---------------------------------------------------------------------------------------------
  // Formats.

  /** Text without directives is copied. */
  lemma {:induction false} PlainRenders(f: seq<char>, i: nat, j: nat, va: Args, k: nat)
    requires i <= j <= |f| && Supported(f, j, va, k)
    requires forall t :: i <= t < j ==> f[t] != '%' && f[t] != '\0'
    ensures Supported(f, i, va, k) && Render(f, i, va, k) == f[i..j] + Render(f, j, va, k)
    decreases j - i
  {
    if i < j {
      PlainRenders(f, i + 1, j, va, k);
      PlainRound(f, i, va, k);
      RoundRenders(f, i, va, k, Round([f[i]], i + 1, k));
      Associates([f[i]], f[i + 1..j], Render(f, j, va, k));
      assert [f[i]] + f[i + 1..j] == f[i..j];
    } else {
      assert f[i..j] == [];
    }
  }

  lemma PlainRound(f: seq<char>, i: nat, va: Args, k: nat)
    requires i < |f| && f[i] != '%' && f[i] != '\0'
    ensures RoundAt(f, i, va, k) == Some(Round([f[i]], i + 1, k))
  {
  }

  // The directives that are printed as they ought to be.

  /** A number below `b` to the `n` has at most `n` digits. */
  lemma {:induction false} NumeralShort(v: nat, base: nat, capital: bool, n: nat)
    requires 2 <= base <= 16 && n > 0 && v < Power(base, n)
    ensures |Numeral(v, base, capital)| <= n
    decreases n
  {
    assert n == 1 ==> Power(base, n) == base * Power(base, 0) == base;
    if v >= base {
      QuotientBelow(v, base, Power(base, n - 1));
      NumeralShort(v / base, base, capital, n - 1);
    }
  }

  lemma QuotientBelow(v: nat, base: nat, p: nat)
    requires base > 0 && v < base * p
    ensures v / base < p
  {
    if v / base >= p {
      MulMono(p, v / base, base);
    }
  }

  /** 64-bit numbers have at most 24 digits, but for the binary ones. */
  lemma WordNumeral(v: u64, base: nat, capital: bool)
    requires base == 8 || base == 10 || base == 16
    ensures |Numeral(v, base, capital)| <= 24
  {
    PowerOf8(base);
    PowerAdd(base, 8, 8);
    PowerAdd(base, 16, 8);
    CubeIsLarge(Power(base, 8), Power(base, 16), Power(base, 24));
    NumeralShort(v, base, capital, 24);
  }

  lemma CubeIsLarge(p: nat, s: nat, q: nat)
    requires p >= 0x100_0000 && s == p * p && q == s * p
    ensures q >= TWO64
  {
    MulMono(0x100_0000, p, p);
    MulMono(0x100_0000, p, 0x100_0000);
    MulMono(0x1_0000_0000_0000, s, p);
    MulMono(0x100_0000, p, 0x1_0000_0000_0000);
  }

  lemma HalfWordNumeral(v: nat, capital: bool)
    requires v < TWO32
    ensures |Numeral(v, 2, capital)| <= 32
  {
    PowerOf32(2);
    NumeralShort(v, 2, capital, 32);
  }

  /** Every directive of at most 31 columns and digits is printed as it is asked for, unless its number
      is binary and has more than 32 digits, or it is left-justified and has a precision. */
  lemma UsualFits(c: char, base: nat, o: Options, v: int)
    requires Radix(c, base) && (v < 0 ==> IsSigned(c)) && Size(v) < (if base == 2 then TWO32 else TWO64)
    requires o.width <= 31 && (o.prec.Some? ==> o.prec.value <= 31 && !o.left)
    ensures IntegerFits(c, base, o, v)
  {
    if base == 2 {
      HalfWordNumeral(Size(v), c == 'X');
    } else {
      WordNumeral(Size(v), base, c == 'X');
    }
  }

  /** A 64-bit number behind a text, as in `JB_PINFO_FLAGS=0x%llx`. */
  lemma TextThenHex(prefix: seq<char>, f: seq<char>, va: Args, length: seq<char>)
    requires f == prefix + "%llx" && '%' !in prefix && '\0' !in prefix && length == "ll"
    ensures Supported(f, 0, va, 0) && Render(f, 0, va, 0) == prefix + Numeral(va(0).bits, 16, false)
  {
    var i, o := |prefix|, Options(false, false, false, false, 0, None);
    var d := ParseDirective(f, i + 1, va, 0);
    assert f[i] == '%' && f[i + 1] == 'l' && f[i + 2] == 'l' && f[i + 3] == 'x';
    LongDirective(f, i + 1, va, length, o, d);
    var v := va(0).bits;
    SmallMod(v, TWO64);
    var text := IntegerRound(f, i, va, 0, d, i + 3, 16, o, false, TWO64, v);
    UsualFits('x', 16, o, v);
    PlainText(v, o);
    Ends(f, i, va, 0, text, 1);
    assert f[0..i] == prefix;
    PlainRenders(f, 0, i, va, 0);
  }

  lemma LongDirective(f: seq<char>, i: nat, va: Args, length: seq<char>, o: Options, d: Directive)
    requires i + 2 < |f| && f[i] == 'l' && f[i + 1] == 'l' && f[i + 2] == 'x' && length == "ll"
    requires d == ParseDirective(f, i, va, 0) && o == Options(false, false, false, false, 0, None)
    ensures DirectiveIs(d, o, false, TWO64) == true && d.i == i + 2 && d.k == 0
  {
    assert f[i..i] == [] && f[i..i + 2] == length;
    assert Absent.Text() == [] && NoDot.Text() == [];
    DirectiveReads(f, i, va, 0, [], i, Absent, i, NoDot, i, length, i + 2, o, d);
  }

  lemma PlainText(v: nat, o: Options)
    requires o == Options(false, false, false, false, 0, None)
    ensures IntegerText('x', 16, o, v) == Numeral(v, 16, false)
  {
    var n := Numeral(v, 16, false);
    assert Repeat(0, '0') + n == n && "" + [] + n == n && Repeat(0 - |n|, ' ') + n == n;
  }

  /** A round that ends the format. */
  lemma Ends(f: seq<char>, i: nat, va: Args, k: nat, text: seq<char>, k': nat)
    requires i < |f| && RoundAt(f, i, va, k) == Some(Round(text, |f|, k'))
    ensures Supported(f, i, va, k) && Render(f, i, va, k) == text
  {
    RoundRenders(f, i, va, k, Round(text, |f|, k'));
    assert text + [] == text;
  }

  /** A negative precision counts as 0, where C17 section 7.21.6.1 takes it as if it were not there: the
      number 0 is printed without a digit. */
  lemma NegativePrecision(f: seq<char>, va: Args)
    requires f == "%.*d" && va(0).bits == 0xffff_ffff && va(1).bits == 0
    ensures StarOf(va(0)) == -1 && Supported(f, 0, va, 0) && Render(f, 0, va, 0) == ""
    ensures IntegerText('d', 10, Options(false, false, false, false, 0, None), 0) == "0"
  {
    var o := Options(false, false, false, false, 0, Some(0));
    var d := ParseDirective(f, 1, va, 0);
    StarDirective(f, va, o, d);
    var text := IntegerRound(f, 0, va, 0, d, 3, 10, o, false, TWO32, 0);
    UsualFits('d', 10, o, 0);
    assert text == [];
    Ends(f, 0, va, 0, text, 2);
    assert Numeral(0, 10, false) == ['0'];
  }

  lemma StarDirective(f: seq<char>, va: Args, o: Options, d: Directive)
    requires f == "%.*d" && va(0).bits == 0xffff_ffff && d == ParseDirective(f, 1, va, 0)
    requires o == Options(false, false, false, false, 0, Some(0))
    ensures DirectiveIs(d, o, false, TWO32) == true && d.i == 3 && d.k == 1
  {
    assert f[1..1] == [] && f[1..3] == ['.'] + ['*'] && f[3..3] == [];
    assert Absent.Text() == [] && Dot(Star).Text() == ['.'] + ['*'];
    DirectiveReads(f, 1, va, 0, [], 1, Absent, 1, Dot(Star), 3, [], 3, o, d);
  }
}
