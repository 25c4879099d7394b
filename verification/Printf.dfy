/** The integer, character and string conversions of the freestanding printf (src/fakedyld/lib/printf.c)
    as a function from a format and its arguments to the complete output text. */
module Printf {
  import opened Bits
  import opened Wrappers

  const NTOA_BUFFER_SIZE: nat := 32

  /** The flag bits; a set of them is the `flags` word. */
  datatype Flag = ZeroPad | Left | Plus | Space | Hash | Uppercase | CharSize | ShortSize | LongSize
                | LongLongSize | Precision

  type Flags = set<Flag>

  /** The characters of a C string before its NUL. */
  type Text = s: seq<char> | '\0' !in s && |s| < 0x1_0000_0000

  /** One slot of the variable arguments: its 64 bits, and the string behind it if it is a pointer to
      one. */
  datatype Slot = Slot(bits: u64, text: Text)

  type Args = nat -> Slot

  // ---------------------------------------------------------------------------------------------
  // Integers to text.

  function Spaces(n: int): (r: seq<char>)
    ensures |r| == if n > 0 then n else 0
  {
    if n > 0 then seq(n, _ => ' ') else []
  }

  function Reverse(s: seq<char>): (r: seq<char>)
    ensures |r| == |s|
  {
    if s == [] then [] else Reverse(s[1..]) + [s[0]]
  }

  /** `_out_rev`: the characters of `buf` from the last to the first, padded with spaces on the left
      or on the right. */
  function OutRev(buf: seq<char>, width: nat, fl: Flags): seq<char> {
    (if Left !in fl && ZeroPad !in fl then Spaces(width - |buf|) else [])
      + Reverse(buf)
      + (if Left in fl then Spaces(width - |buf|) else [])
  }

  function DigitChar(d: nat, uppercase: bool): char
    requires d < 16
  {
    if d < 10 then ('0' as int + d) as char
    else ((if uppercase then 'A' as int else 'a' as int) + d - 10) as char
  }

  /** The digits of `value`, least significant first, at least one and at most `room`. */
  function NtoaDigits(value: nat, base: nat, uppercase: bool, room: nat): (r: seq<char>)
    requires 2 <= base <= 16 && room > 0
    ensures 1 <= |r| <= room
    decreases room
  {
    [DigitChar(value % base, uppercase)]
      + if value / base != 0 && room > 1 then NtoaDigits(value / base, base, uppercase, room - 1)
        else []
  }

  function Min(a: int, b: int): int { if a < b then a else b }

  function PadZeros(buf: seq<char>, n: int): (r: seq<char>)
    ensures |r| == if n > |buf| then n else |buf|
  {
    if n > |buf| then buf + seq(n - |buf|, _ => '0') else buf
  }

  /** The width left for digits and padding: a zero-padded field gives one column to the sign. */
  function FieldWidth(negative: bool, width: nat, fl: Flags): (r: nat)
    ensures r <= width
  {
    if Left !in fl && width > 0 && ZeroPad in fl && (negative || Plus in fl || Space in fl) then width - 1
    else width
  }

  /** The digit buffer after zero padding. */
  function Padded(buf: seq<char>, prec: nat, width: nat, fl: Flags): (r: seq<char>)
    ensures |r| >= |buf| && (|buf| <= NTOA_BUFFER_SIZE ==> |r| <= NTOA_BUFFER_SIZE)
  {
    if Left in fl then buf
    else
      var b := PadZeros(buf, Min(prec, NTOA_BUFFER_SIZE));
      if ZeroPad in fl then PadZeros(b, Min(width, NTOA_BUFFER_SIZE)) else b
  }

  /** `len < PRINTF_NTOA_BUFFER_SIZE` guards every character added after the padding. */
  function Push(buf: seq<char>, c: char): (r: seq<char>)
    ensures |buf| <= NTOA_BUFFER_SIZE ==> |r| <= NTOA_BUFFER_SIZE
  {
    if |buf| < NTOA_BUFFER_SIZE then buf + [c] else buf
  }

  /** The handling of `#`, as written: it may first drop the last one or two characters. */
  function Hashed(buf: seq<char>, base: nat, prec: nat, width: nat, fl: Flags): (r: seq<char>)
    ensures |buf| <= NTOA_BUFFER_SIZE ==> |r| <= NTOA_BUFFER_SIZE
  {
    if Hash !in fl then buf
    else
      var n := |buf|;
      var b := if Precision !in fl && n > 0 && (n == prec || n == width) then
                 if n > 1 && base == 16 then buf[..n - 2] else buf[..n - 1]
               else buf;
      var b1 := if base == 16 then Push(b, if Uppercase in fl then 'X' else 'x')
                else if base == 2 then Push(b, 'b') else b;
      Push(b1, '0')
  }

  function Signed(buf: seq<char>, negative: bool, fl: Flags): (r: seq<char>)
    ensures |buf| <= NTOA_BUFFER_SIZE ==> |r| <= NTOA_BUFFER_SIZE
  {
    if negative then Push(buf, '-') else if Plus in fl then Push(buf, '+')
    else if Space in fl then Push(buf, ' ') else buf
  }

  /** `_ntoa_format`. */
  function NtoaFormat(buf: seq<char>, negative: bool, base: nat, prec: nat, width: nat, fl: Flags)
    : seq<char>
  {
    var w := FieldWidth(negative, width, fl);
    OutRev(Signed(Hashed(Padded(buf, prec, w, fl), base, prec, w, fl), negative, fl), w, fl)
  }

  /** `_ntoa_long` and `_ntoa_long_long`, which are the same on a 64-bit target. */
  function Ntoa(value: u64, negative: bool, base: nat, prec: nat, width: nat, fl: Flags): seq<char>
    requires 2 <= base <= 16
  {
    var fl1 := if value == 0 then fl - {Hash} else fl;
    var digits := if Precision !in fl1 || value != 0
                  then NtoaDigits(value, base, Uppercase in fl1, NTOA_BUFFER_SIZE) else [];
    NtoaFormat(digits, negative, base, prec, width, fl1)
  }

  // ---------------------------------------------------------------------------------------------
  // Directives.

  /** The character that the format pointer is at; past the end it is the terminating NUL. */
  function At(f: seq<char>, i: nat): char { if i < |f| then f[i] else '\0' }

  predicate IsDigit(c: char) { '0' <= c <= '9' }

  function SetFlag(c: char, fl: Flags): (r: Option<Flags>)
    ensures r.Some? ==> (Precision in r.value <==> Precision in fl)
  {
    match c
    case '0' => Some(fl + {ZeroPad})
    case '-' => Some(fl + {Left})
    case '+' => Some(fl + {Plus})
    case ' ' => Some(fl + {Space})
    case '#' => Some(fl + {Hash})
    case _ => None
  }

  function ParseFlags(f: seq<char>, i: nat, fl: Flags): (r: (Flags, nat))
    ensures i <= r.1 && (i <= |f| ==> r.1 <= |f|) && (Precision in r.0 <==> Precision in fl)
    decreases |f| - i
  {
    var g := SetFlag(At(f, i), fl);
    if i < |f| && g.Some? then ParseFlags(f, i + 1, g.value) else (fl, i)
  }

  /** `_atoi`, modulo 2^32. */
  function ParseNumber(f: seq<char>, i: nat, acc: u32): (r: (u32, nat))
    ensures i <= r.1 && (i <= |f| ==> r.1 <= |f|)
    decreases |f| - i
  {
    if i < |f| && IsDigit(f[i])
    then ParseNumber(f, i + 1, (acc * 10 + (f[i] as int - '0' as int)) % TWO32) else (acc, i)
  }

  /** The integer types of an argument: char, short, int and long (or long long). */
  datatype Width = W8 | W16 | W32 | W64 {
    /** Two to the number of bits. */
    function Count(): (n: nat)
      ensures 0 < n <= TWO64 && n % 2 == 0
    {
      match this case W8 => 0x100 case W16 => 0x1_0000 case W32 => TWO32 case W64 => TWO64
    }
  }

  /** The value that `va_arg` of a signed or unsigned integer type reads. */
  function ReadSigned(s: Slot, w: Width): (v: int)
    ensures -0x8000_0000_0000_0000 <= v < 0x8000_0000_0000_0000
  {
    var x := ReadUnsigned(s, w);
    if x < w.Count() / 2 then x else x - w.Count()
  }

  function ReadUnsigned(s: Slot, w: Width): (x: u64)
    ensures x < w.Count()
  {
    match w
    case W8 => s.bits % 0x100
    case W16 => s.bits % 0x1_0000
    case W32 => s.bits % 0x1_0000_0000
    case W64 => s.bits
  }

  /** What has been read of a directive: flags, width, precision, the position in the format, and the
      number of arguments used. */
  datatype Directive = Directive(fl: Flags, width: u32, precision: u32, i: nat, k: nat)

  function ParseWidth(f: seq<char>, d: Directive, va: Args): (r: Directive)
    ensures d.i <= r.i && (d.i <= |f| ==> r.i <= |f|) && r.precision == d.precision
  {
    if IsDigit(At(f, d.i)) then
      var (w, i) := ParseNumber(f, d.i, 0);
      d.(width := w, i := i)
    else if At(f, d.i) == '*' then
      var w := ReadSigned(va(d.k), W32);
      d.(fl := if w < 0 then d.fl + {Left} else d.fl,
         width := (if w < 0 then -w else w) % TWO32, i := d.i + 1, k := d.k + 1)
    else d
  }

  function ParsePrecision(f: seq<char>, d: Directive, va: Args): (r: Directive)
    ensures d.i <= r.i && (d.i <= |f| ==> r.i <= |f|)
    ensures d.precision == 0 ==> Precision in r.fl || r.precision == 0
  {
    if At(f, d.i) != '.' then d
    else
      var d1 := d.(fl := d.fl + {Precision}, precision := 0, i := d.i + 1);
      if IsDigit(At(f, d1.i)) then
        var (p, i) := ParseNumber(f, d1.i, 0);
        d1.(precision := p, i := i)
      else if At(f, d1.i) == '*' then
        var p := ReadSigned(va(d.k), W32);
        d1.(precision := (if p > 0 then p else 0) % TWO32, i := d1.i + 1, k := d.k + 1)
      else d1
  }

  function ParseLength(f: seq<char>, d: Directive): (r: Directive)
    ensures d.i <= r.i && (d.i <= |f| ==> r.i <= |f|)
    ensures (Precision in r.fl <==> Precision in d.fl) && r.precision == d.precision
  {
    match At(f, d.i)
    case 'l' =>
      if At(f, d.i + 1) == 'l'
      then d.(fl := d.fl + {LongSize, LongLongSize}, i := d.i + 2)
      else d.(fl := d.fl + {LongSize}, i := d.i + 1)
    case 'h' =>
      if At(f, d.i + 1) == 'h'
      then d.(fl := d.fl + {ShortSize, CharSize}, i := d.i + 2)
      else d.(fl := d.fl + {ShortSize}, i := d.i + 1)
    case 't' => d.(fl := d.fl + {LongSize}, i := d.i + 1)
    case 'j' => d.(fl := d.fl + {LongSize}, i := d.i + 1)
    case 'z' => d.(fl := d.fl + {LongSize}, i := d.i + 1)
    case _ => d
  }

  /** The directive whose flags start at `i`, up to its conversion character. */
  function ParseDirective(f: seq<char>, i: nat, va: Args, k: nat): (r: Directive)
    ensures i <= r.i && (i <= |f| ==> r.i <= |f|) && (Precision in r.fl || r.precision == 0)
  {
    var (fl, j) := ParseFlags(f, i, {});
    ParseLength(f, ParsePrecision(f, ParseWidth(f, Directive(fl, 0, 0, j, k), va), va))
  }

  // ---------------------------------------------------------------------------------------------
  // Conversions.

  predicate IsInteger(c: char) {
    c == 'd' || c == 'i' || c == 'u' || c == 'x' || c == 'X' || c == 'o' || c == 'b'
  }

  predicate IsFloat(c: char) {
    c == 'f' || c == 'F' || c == 'e' || c == 'E' || c == 'g' || c == 'G'
  }

  function Base(c: char): (b: nat)
    ensures 2 <= b <= 16
  {
    if c == 'x' || c == 'X' then 16 else if c == 'o' then 8 else if c == 'b' then 2 else 10
  }

  /** The flags that an integer conversion goes by. */
  function IntegerFlags(c: char, fl: Flags): Flags {
    var f1 := if Base(c) == 10 then fl - {Hash} else fl;
    var f2 := if c == 'X' then f1 + {Uppercase} else f1;
    var f3 := if c != 'i' && c != 'd' then f2 - {Plus, Space} else f2;
    if Precision in f3 then f3 - {ZeroPad} else f3
  }

  /** The argument type. */
  function ArgWidth(fl: Flags): Width {
    if LongLongSize in fl || LongSize in fl then W64
    else if CharSize in fl then W8 else if ShortSize in fl then W16 else W32
  }

  /** `value > 0 ? value : 0 - value`, converted to the unsigned type of the same width. */
  function Magnitude(v: int): (m: u64)
    requires -0x8000_0000_0000_0000 <= v < TWO64
  {
    if v > 0 then v else -v
  }

  function ConvertInteger(c: char, d: Directive, va: Args): seq<char> {
    var fl := IntegerFlags(c, d.fl);
    if c == 'i' || c == 'd' then
      var v := ReadSigned(va(d.k), ArgWidth(fl));
      Ntoa(Magnitude(v), v < 0, Base(c), d.precision, d.width, fl)
    else Ntoa(ReadUnsigned(va(d.k), ArgWidth(fl)), false, Base(c), d.precision, d.width, fl)
  }

  function PadText(text: seq<char>, width: nat, fl: Flags): seq<char> {
    if Left in fl then text + Spaces(width - |text|) else Spaces(width - |text|) + text
  }

  /** A string argument up to its NUL, and no further than the precision if there is one. */
  function Clip(text: seq<char>, d: Directive): (r: seq<char>)
    ensures r <= text
  {
    if Precision in d.fl && d.precision < |text| then text[..d.precision] else text
  }

  function LowByte(bits: u64): char { (bits % 0x100) as char }

  /** The number of arguments that a conversion uses. */
  function Uses(c: char): nat { if IsInteger(c) || c == 'c' || c == 's' || c == 'p' then 1 else 0 }

  /** The text of one directive. */
  function ConvertOne(c: char, d: Directive, va: Args): seq<char> {
    if IsInteger(c) then ConvertInteger(c, d, va)
    else if c == 'c' then PadText([LowByte(va(d.k).bits)], d.width, d.fl)
    else if c == 's' then PadText(Clip(va(d.k).text, d), d.width, d.fl)
    else if c == 'p' then
      Ntoa(va(d.k).bits, false, 16, d.precision, 16, d.fl + {ZeroPad, Uppercase})
    else [c]
  }

  // ---------------------------------------------------------------------------------------------
  // Whole formats.

  /** What one round of the loop does: its output, and where it leaves the format and the arguments. */
  datatype Round = Round(text: seq<char>, i: nat, k: nat)

  /** The round for a directive that has been read. */
  function RoundOf(f: seq<char>, d: Directive, va: Args): (r: Round)
    requires d.i < |f|
    ensures d.i < r.i
  {
    Round(ConvertOne(f[d.i], d, va), d.i + 1, d.k + Uses(f[d.i]))
  }

  /** The round for the character or directive at `i`; none for a conversion of floating point, or a
      directive that the end of the format cuts off. */
  function RoundAt(f: seq<char>, i: nat, va: Args, k: nat): (r: Option<Round>)
    requires i < |f|
    ensures r.Some? ==> i < r.value.i
  {
    if f[i] != '%' then if f[i] == '\0' then None else Some(Round([f[i]], i + 1, k))
    else
      var d := ParseDirective(f, i + 1, va, k);
      if d.i < |f| && f[d.i] != '\0' && !IsFloat(f[d.i])
      then Some(RoundOf(f, d, va)) else None
  }

  predicate Supported(f: seq<char>, i: nat, va: Args, k: nat)
    decreases |f| - i
  {
    if i >= |f| then true
    else
      match RoundAt(f, i, va, k)
      case Some(r) => Supported(f, r.i, va, r.k)
      case None => false
  }

  /** The complete output for the format from index `i` on, with `k` arguments used before. */
  function Render(f: seq<char>, i: nat, va: Args, k: nat): seq<char>
    requires Supported(f, i, va, k)
    decreases |f| - i
  {
    if i >= |f| then []
    else
      var r := RoundAt(f, i, va, k).value;
      r.text + Render(f, r.i, va, r.k)
  }

  lemma RoundRenders(f: seq<char>, i: nat, va: Args, k: nat, r: Round)
    requires i < |f| && Some(r) == RoundAt(f, i, va, k)
    ensures i < r.i && Supported(f, r.i, va, r.k) == Supported(f, i, va, k)
    ensures Supported(f, i, va, k) ==> Render(f, i, va, k) == r.text + Render(f, r.i, va, r.k)
  {
  }
}
