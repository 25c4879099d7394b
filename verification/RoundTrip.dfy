/** Decimal output of printf (src/fakedyld/lib/printf.c) read back by strtoull (src/fakedyld/lib/stroull.c):
    the number comes back for all flags, widths and precisions but those that push the sign out of the
    digit buffer. */
module RoundTrip {
  import opened Bits
  import opened Wrappers
  import Directives
  import opened Printf
  import opened Strtoull

  const INT64_MIN_BITS: int := 0x8000_0000_0000_0000

  // ---------------------------------------------------------------------------------------------
  // Digits.

  ghost function Ten(n: nat): (r: nat)
    ensures r >= 1
  {
    if n == 0 then 1 else 10 * Ten(n - 1)
  }

  lemma SixtyFourBitsAreTwentyDigits()
    ensures TWO64 <= Ten(20) && Ten(20) <= Ten(32)
  {
    assert Ten(5) == 100000;
    assert Ten(10) == 100000 * 100000;
    assert Ten(15) == 100000 * 100000 * 100000;
    assert Ten(20) == 100000 * 100000 * 100000 * 100000;
    assert Ten(26) == 1000000 * Ten(20);
    assert Ten(32) == 1000000 * Ten(26);
  }

  lemma {:induction false} DigitsShort(m: nat, uppercase: bool, n: nat, room: nat)
    requires 1 <= n <= room && m < Ten(n)
    ensures |NtoaDigits(m, 10, uppercase, room)| <= n
  {
    if m / 10 != 0 && room > 1 {
      DigitsShort(m / 10, uppercase, n - 1, room - 1);
    }
  }

  lemma {:induction false} ReverseAppend(a: seq<char>, b: seq<char>)
    ensures Reverse(a + b) == Reverse(b) + Reverse(a)
  {
    if a == [] {
      assert a + b == b;
    } else {
      assert (a + b)[1..] == a[1..] + b;
      ReverseAppend(a[1..], b);
    }
  }

  lemma {:induction false} ValueSnoc(v: nat, a: seq<char>, c: char)
    requires Digits(a, 10) && Strtoull.IsDigit(c)
    ensures Digits(a + [c], 10)
    ensures ValueFrom(v, a + [c], 10) == ValueFrom(v, a, 10) * 10 + (c as int - '0' as int)
    decreases a
  {
    if a == [] {
      assert a + [c] == [c];
    } else {
      assert (a + [c])[1..] == a[1..] + [c];
      ValueSnoc(v * 10 + (a[0] as int - '0' as int), a[1..], c);
    }
  }

  /** The printed digits, in reading order, denote the value. */
  lemma {:induction false} DigitsDenote(m: nat, uppercase: bool, room: nat)
    requires room > 0 && m < Ten(room)
    ensures var ds := Reverse(NtoaDigits(m, 10, uppercase, room));
      Digits(ds, 10) && Value(ds, 10) == m
  {
    var c := DigitChar(m % 10, uppercase);
    var rest := if m / 10 != 0 && room > 1 then NtoaDigits(m / 10, 10, uppercase, room - 1) else [];
    assert Strtoull.IsDigit(c) && c as int - '0' as int == m % 10;
    assert ([c] + rest)[1..] == rest;
    if m / 10 != 0 {
      assert room > 1;
      DigitsDenote(m / 10, uppercase, room - 1);
    }
    ValueSnoc(0, Reverse(rest), c);
  }

  ghost function Zeros(n: nat): (r: seq<char>)
    ensures |r| == n
  {
    seq(n, _ => '0')
  }

  lemma {:induction false} ReverseZeros(n: nat)
    ensures Reverse(Zeros(n)) == Zeros(n)
  {
    if n > 0 {
      assert Zeros(n)[1..] == Zeros(n - 1);
      ReverseZeros(n - 1);
      assert Zeros(n - 1) + ['0'] == Zeros(n);
    }
  }

  lemma {:induction false} LeadingZeros(n: nat, ds: seq<char>)
    requires Digits(ds, 10)
    ensures Digits(Zeros(n) + ds, 10) && Value(Zeros(n) + ds, 10) == Value(ds, 10)
  {
    if n == 0 {
      assert Zeros(n) + ds == ds;
    } else {
      LeadingZeros(n - 1, ds);
      assert (Zeros(n) + ds)[1..] == Zeros(n - 1) + ds;
    }
  }

  // ---------------------------------------------------------------------------------------------
  // The shape of the output.

  /** The digits of `m` before padding, as `_ntoa_long_long` fills them in. */
  function DigitsOf(m: u64, fl: Flags): (ds: seq<char>)
    ensures |ds| <= NTOA_BUFFER_SIZE
  {
    if Precision !in fl || m != 0 then NtoaDigits(m, 10, Uppercase in fl, NTOA_BUFFER_SIZE) else []
  }

  lemma DigitsOfDenote(m: u64, fl: Flags)
    ensures |DigitsOf(m, fl)| <= 20
    ensures var ds := Reverse(DigitsOf(m, fl)); Digits(ds, 10) && Value(ds, 10) == m
  {
    SixtyFourBitsAreTwentyDigits();
    if Precision !in fl || m != 0 {
      DigitsShort(m, Uppercase in fl, 20, 32);
      DigitsDenote(m, Uppercase in fl, 32);
    }
  }

  /** The options fill the digit buffer with zeros. */
  predicate Fills(prec: nat, w: nat, fl: Flags) {
    Left !in fl && (prec >= NTOA_BUFFER_SIZE || (ZeroPad in fl && w >= NTOA_BUFFER_SIZE))
  }

  lemma PaddedShape(buf: seq<char>, prec: nat, w: nat, fl: Flags)
    requires |buf| <= 20
    ensures var p := Padded(buf, prec, w, fl);
      && p == buf + Zeros(|p| - |buf|) && |p| <= NTOA_BUFFER_SIZE
      && (|p| == NTOA_BUFFER_SIZE <==> Fills(prec, w, fl))
  {
  }

  /** Padding puts zeros before the digits in reading order. */
  lemma PaddingDenotes(buf: seq<char>, n: nat)
    requires Digits(Reverse(buf), 10)
    ensures var ds := Reverse(buf + Zeros(n));
      Digits(ds, 10) && Value(ds, 10) == Value(Reverse(buf), 10)
  {
    ReverseAppend(buf, Zeros(n));
    ReverseZeros(n);
    LeadingZeros(n, Reverse(buf));
  }

  /** The sign character that survives. */
  function SignText(p: seq<char>, negative: bool, fl: Flags): string {
    if |p| >= NTOA_BUFFER_SIZE then ""
    else if negative then "-" else if Plus in fl then "+" else if Space in fl then " " else ""
  }

  lemma SignedReversed(p: seq<char>, negative: bool, fl: Flags)
    ensures Reverse(Signed(p, negative, fl)) == SignText(p, negative, fl) + Reverse(p)
  {
    var sg := SignText(p, negative, fl);
    ReverseAppend(p, sg);
    assert Signed(p, negative, fl) == p + sg by {
      assert p + [] == p;
    }
    assert Reverse(sg) == sg;
  }

  /** Blanks, an optional sign, digits, blanks. */
  ghost predicate NumberShape(text: seq<char>, a: nat, sg: seq<char>, ds: seq<char>, b: nat) {
    text == Spaces(a) + sg + ds + Spaces(b)
  }

  lemma OutRevShape(s: seq<char>, sg: seq<char>, ds: seq<char>, w: nat, fl: Flags)
      returns (a: nat, b: nat)
    requires Reverse(s) == sg + ds
    ensures NumberShape(OutRev(s, w, fl), a, sg, ds, b)
  {
    a := if Left !in fl && ZeroPad !in fl && w > |s| then w - |s| else 0;
    b := if Left in fl && w > |s| then w - |s| else 0;
    assert Spaces(0) == [];
    assert OutRev(s, w, fl) == Spaces(a) + (sg + ds) + Spaces(b);
    assert Spaces(a) + (sg + ds) + Spaces(b) == Spaces(a) + sg + ds + Spaces(b);
  }

  /** The output of a decimal conversion. */
  lemma DecimalShape(m: u64, negative: bool, prec: nat, width: nat, fl: Flags)
      returns (a: nat, sg: seq<char>, ds: seq<char>, b: nat)
    requires Hash !in fl && (negative ==> m != 0)
    ensures NumberShape(Ntoa(m, negative, 10, prec, width, fl), a, sg, ds, b)
    ensures Digits(ds, 10) && Value(ds, 10) == m
    ensures sg == "" || sg == "-" || sg == "+" || sg == " "
    ensures sg == "-" <==> negative && !Fills(prec, FieldWidth(negative, width, fl), fl)
  {
    var w := FieldWidth(negative, width, fl);
    var p := Padded(DigitsOf(m, fl), prec, w, fl);
    PaddedDigits(m, prec, w, fl);
    sg, ds := SignText(p, negative, fl), Reverse(p);
    SignedReversed(p, negative, fl);
    a, b := OutRevShape(Signed(p, negative, fl), sg, ds, w, fl);
    NtoaIs(m, negative, prec, width, fl, w, p);
  }

  lemma PaddedDigits(m: u64, prec: nat, w: nat, fl: Flags)
    ensures var p := Padded(DigitsOf(m, fl), prec, w, fl);
      && Digits(Reverse(p), 10) && Value(Reverse(p), 10) == m
      && |p| <= NTOA_BUFFER_SIZE && (|p| == NTOA_BUFFER_SIZE <==> Fills(prec, w, fl))
  {
    var buf := DigitsOf(m, fl);
    DigitsOfDenote(m, fl);
    PaddedShape(buf, prec, w, fl);
    PaddingDenotes(buf, |Padded(buf, prec, w, fl)| - |buf|);
  }

  lemma NtoaIs(m: u64, negative: bool, prec: nat, width: nat, fl: Flags, w: nat, p: seq<char>)
    requires Hash !in fl && w == FieldWidth(negative, width, fl)
    requires p == Padded(DigitsOf(m, fl), prec, w, fl)
    ensures Ntoa(m, negative, 10, prec, width, fl) == OutRev(Signed(p, negative, fl), w, fl)
  {
    assert fl - {Hash} == fl;
  }

  // ---------------------------------------------------------------------------------------------
  // Reading it back.

  lemma {:induction false} EndsTerminated(s: seq<char>, i: nat)
    requires i < |s| && s[|s| - 1] == '\0'
    ensures Terminated(s, i)
    decreases |s| - i
  {
    if i + 1 < |s| {
      EndsTerminated(s, i + 1);
    }
  }

  /** Blanks, then `body`, then blanks or nothing, then the NUL. */
  ghost predicate Framed(s: seq<char>, a: nat, body: seq<char>) {
    && a + |body| < |s| && s[|s| - 1] == '\0' && s[a..a + |body|] == body
    && (forall k :: 0 <= k < a ==> s[k] == ' ')
    && (forall k :: a + |body| <= k < |s| - 1 ==> s[k] == ' ')
  }

  lemma ShapeIsFramed(text: seq<char>, a: nat, sg: seq<char>, ds: seq<char>, b: nat)
    requires NumberShape(text, a, sg, ds, b)
    ensures Framed(text + "\0", a, sg + ds)
  {
    assert text == Spaces(a) + (sg + ds) + Spaces(b);
    BetweenBlanks(Spaces(a), sg + ds, Spaces(b), text + "\0");
  }

  lemma BetweenBlanks(x: seq<char>, body: seq<char>, y: seq<char>, s: seq<char>)
    requires s == x + body + y + "\0" && x == Spaces(|x|) && y == Spaces(|y|)
    ensures Framed(s, |x|, body)
  {
    var n := |x| + |body|;
    assert s[|x|..n] == body;
    assert forall k :: 0 <= k < |x| ==> s[k] == x[k];
    assert s[n..|s| - 1] == y;
    assert forall k :: n <= k < |s| - 1 ==> s[k] == s[n..|s| - 1][k - n];
  }

  /** A blank in the sign's place is white space to the parser. */
  lemma BlankIsSpace(s: seq<char>, a: nat, ds: seq<char>)
    requires Framed(s, a, " " + ds)
    ensures Framed(s, a + 1, ds)
  {
    assert s[a] == (" " + ds)[0];
    assert s[a + 1..a + 1 + |ds|] == (" " + ds)[1..];
  }

  /** Without sign and digits, the text is blank throughout. */
  lemma FramedIsNumberText(s: seq<char>, a: nat, sign: seq<char>, ds: seq<char>) returns (n: nat)
    requires Framed(s, a, sign + ds) && Digits(ds, 10) && (sign == "" || sign == "-" || sign == "+")
    ensures NumberText(s, n, sign, ds, 10)
  {
    EndsTerminated(s, 0);
    n := if sign == "" && ds == [] then |s| - 1 else a;
  }

  lemma ParsesBack(s: seq<char>, a: nat, sg: seq<char>, ds: seq<char>)
    requires Framed(s, a, sg + ds) && Digits(ds, 10)
    requires sg == "" || sg == "-" || sg == "+" || sg == " "
    ensures Terminated(s, 0) && StrtoullSpec(s, 10).0 == Meaning(sg == "-", ds, 10)
  {
    if sg == " " {
      BlankIsSpace(s, a, ds);
      assert "" + ds == ds;
      var n := FramedIsNumberText(s, a + 1, "", ds);
      StrtoullExact(s, n, "", ds, 10);
    } else {
      var n := FramedIsNumberText(s, a, sg, ds);
      StrtoullExact(s, n, sg, ds, 10);
    }
  }

  lemma ShapeReads(text: seq<char>, a: nat, sg: seq<char>, ds: seq<char>, b: nat, m: u64)
    requires NumberShape(text, a, sg, ds, b) && Digits(ds, 10) && Value(ds, 10) == m
    requires (sg == "" || sg == "-" || sg == "+" || sg == " ") && (sg == "-" ==> m != 0)
    ensures Terminated(text + "\0", 0)
    ensures StrtoullSpec(text + "\0", 10).0 == if sg == "-" then TWO64 - m else m
  {
    ShapeIsFramed(text, a, sg, ds, b);
    ParsesBack(text + "\0", a, sg, ds);
  }

  /** What the parser makes of the output of a decimal conversion. */
  lemma DecimalReads(m: u64, negative: bool, prec: nat, width: nat, fl: Flags)
    requires Hash !in fl && (negative ==> m != 0)
    ensures var s := Ntoa(m, negative, 10, prec, width, fl) + "\0";
      && Terminated(s, 0)
      && StrtoullSpec(s, 10).0
      == if negative && !Fills(prec, FieldWidth(negative, width, fl), fl) then TWO64 - m else m
  {
    var a, sg, ds, b := DecimalShape(m, negative, prec, width, fl);
    ShapeReads(Ntoa(m, negative, 10, prec, width, fl), a, sg, ds, b, m);
  }

  // ---------------------------------------------------------------------------------------------
  // The round trip.

  /** The format is one directive that prints a 64-bit argument in decimal. */
  predicate DecimalFormat(f: seq<char>, va: Args) {
    |f| > 0 && f[0] == '%'
    && var d := ParseDirective(f, 1, va, 0);
       d.i == |f| - 1 && (f[d.i] == 'd' || f[d.i] == 'i' || f[d.i] == 'u') && ArgWidth(d.fl) == W64
  }

  /** The options under which a negative number other than the least one is printed without its sign:
      32 or more digits, or a zero-padded field of 33 or more columns, not left-justified. */
  predicate SignLost(c: char, d: Directive, bits: u64) {
    && c != 'u' && bits > INT64_MIN_BITS && Left !in d.fl
    && (d.precision >= 32 || (ZeroPad in d.fl && Precision !in d.fl && d.width >= 33))
  }

  /** The sign is lost in the digit buffer just under the options that `SignLost` lists. */
  lemma FillsExact(c: char, d: Directive)
    requires c == 'd' || c == 'i'
    ensures var fl := IntegerFlags(c, d.fl);
      Fills(d.precision, FieldWidth(true, d.width, fl), fl)
      <==> Left !in d.fl
           && (d.precision >= 32 || (ZeroPad in d.fl && Precision !in d.fl && d.width >= 33))
  {
  }

  lemma DecimalFlags(c: char, fl: Flags)
    requires (c == 'd' || c == 'i' || c == 'u') && ArgWidth(fl) == W64
    ensures Base(c) == 10 && ArgWidth(IntegerFlags(c, fl)) == W64 && Hash !in IntegerFlags(c, fl)
  {
  }

  lemma SixtyFourBits(s: Slot)
    ensures ReadUnsigned(s, W64) == s.bits
    ensures ReadSigned(s, W64) == if s.bits >= INT64_MIN_BITS then s.bits - TWO64 else s.bits
  {
  }

  /** `text` reads as the bits `x`, or as their negation if the sign is lost. */
  ghost predicate ReadsAs(text: seq<char>, x: u64, lost: bool) {
    Terminated(text + "\0", 0) && StrtoullSpec(text + "\0", 10).0 == if lost then TWO64 - x else x
  }

  lemma SignedReads(v: int, x: u64, d: Directive, fl: Flags, lost: bool)
    requires Hash !in fl && v == if x >= INT64_MIN_BITS then x - TWO64 else x
    requires lost == (x > INT64_MIN_BITS && Fills(d.precision, FieldWidth(true, d.width, fl), fl))
    ensures ReadsAs(Ntoa(Magnitude(v), v < 0, 10, d.precision, d.width, fl), x, lost)
  {
    DecimalReads(Magnitude(v), v < 0, d.precision, d.width, fl);
  }

  lemma ConversionReads(c: char, d: Directive, va: Args)
    requires (c == 'd' || c == 'i' || c == 'u') && ArgWidth(d.fl) == W64
    ensures ReadsAs(ConvertInteger(c, d, va), va(d.k).bits, SignLost(c, d, va(d.k).bits))
  {
    var fl := IntegerFlags(c, d.fl);
    DecimalFlags(c, d.fl);
    SixtyFourBits(va(d.k));
    if c == 'u' {
      DecimalReads(ReadUnsigned(va(d.k), ArgWidth(fl)), false, d.precision, d.width, fl);
    } else {
      FillsExact(c, d);
      SignedReads(ReadSigned(va(d.k), ArgWidth(fl)), va(d.k).bits, d, fl, SignLost(c, d, va(d.k).bits));
    }
  }

  lemma SingleRenders(f: seq<char>, va: Args, d: Directive, c: char)
    requires |f| > 0 && f[0] == '%' && d == ParseDirective(f, 1, va, 0)
    requires d.i == |f| - 1 && c == f[d.i] && (c == 'd' || c == 'i' || c == 'u')
    ensures Supported(f, 0, va, 0) && Render(f, 0, va, 0) == ConvertInteger(c, d, va)
  {
    var r := RoundOf(f, d, va);
    SingleRound(f, va, d, c);
    assert Render(f, r.i, va, r.k) == [];
    RoundRenders(f, 0, va, 0, r);
  }

  lemma SingleRound(f: seq<char>, va: Args, d: Directive, c: char)
    requires |f| > 0 && f[0] == '%' && d == ParseDirective(f, 1, va, 0)
    requires d.i == |f| - 1 && c == f[d.i] && (c == 'd' || c == 'i' || c == 'u')
    ensures RoundAt(f, 0, va, 0) == Some(RoundOf(f, d, va))
    ensures RoundOf(f, d, va).i == |f| && RoundOf(f, d, va).text == ConvertInteger(c, d, va)
  {
  }

  /** Printing and parsing undo each other for every decimal 64-bit directive (any flags, any width and
      any precision), if and only if the sign is not lost; where it is lost the magnitude comes back. */
  lemma PrintThenParse(f: seq<char>, va: Args, d: Directive, c: char)
    requires DecimalFormat(f, va) && d == ParseDirective(f, 1, va, 0) && c == f[d.i]
    ensures Supported(f, 0, va, 0) && Terminated(Render(f, 0, va, 0) + "\0", 0)
    ensures StrtoullSpec(Render(f, 0, va, 0) + "\0", 10).0 == va(d.k).bits
       <==> !SignLost(c, d, va(d.k).bits)
    ensures SignLost(c, d, va(d.k).bits) ==>
      StrtoullSpec(Render(f, 0, va, 0) + "\0", 10).0 == TWO64 - va(d.k).bits
  {
    SingleRenders(f, va, d, c);
    ConversionReads(c, d, va);
  }

  /** The argument -1. */
  function MinusOne(): Args { _ => Slot(0xffff_ffff_ffff_ffff, "") }

  lemma ThirtyTwo(ds: seq<char>)
    requires ds == "32"
    ensures Digits(ds, 10) && Value(ds, 10) == 32
  {
    assert ds[1..] == ['2'] && ds[1..][1..] == [];
    assert Digits(ds[1..], 10);
    assert ValueFrom(3, ds[1..], 10) == ValueFrom(32, [], 10);
  }

  lemma LosingDirective(f: seq<char>, va: Args, ds: seq<char>, length: seq<char>)
    requires f == "%.32lld" && ds == "32" && length == "ll"
    ensures var d := ParseDirective(f, 1, va, 0);
      d.precision == 32 && d.i == 6 && d.k == 0 && d.fl == {Precision, LongSize, LongLongSize}
  {
    var w, p := Directives.Absent, Directives.Dot(Directives.Number(ds));
    ThirtyTwo(ds);
    assert p.Text() == ['.'] + ds;
    assert f[1..1] == [] && f[1..4] == p.Text() && f[4..6] == length;
    assert Directives.Written(f, 1, [], 1, w, 1, p, 4, length, 6);
    Directives.DirectiveParses(f, 1, va, 0, [], 1, w, 1, p, 4, length, 6);
    assert Directives.Meant(va, 0, [], w, p, length, 6).fl == {Precision, LongSize, LongLongSize};
  }

  /** A directive that loses the sign: with 32 digits, -1 is printed without it and reads back as 1. */
  lemma SignIsLost(f: seq<char>, va: Args, d: Directive)
    requires f == "%.32lld" && va == MinusOne() && d == ParseDirective(f, 1, va, 0)
    ensures DecimalFormat(f, va) && d.i == 6 && SignLost(f[6], d, va(d.k).bits)
    ensures Supported(f, 0, va, 0) && Terminated(Render(f, 0, va, 0) + "\0", 0)
    ensures va(d.k).bits == TWO64 - 1 && StrtoullSpec(Render(f, 0, va, 0) + "\0", 10).0 == 1
  {
    LosingDirective(f, va, "32", "ll");
    PrintThenParse(f, va, d, f[6]);
  }
}
