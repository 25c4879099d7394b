/** `_vsnprintf` with the buffer output function: digit buffers filled and reversed in place, one
    guarded store for every character. */
module Vsnprintf {
  import opened Bits
  import opened Wrappers
  import opened Printf

  // ---------------------------------------------------------------------------------------------
  // What a stretch of output does to the buffer.

  /** `after` is `before` with `text` written from index `idx` on, cut off at `maxlen`. */
  ghost predicate Written(before: seq<char>, after: seq<char>, idx: nat, text: seq<char>, maxlen: nat) {
    && |after| == |before|
    && forall j :: 0 <= j < |after| ==>
         after[j] == if idx <= j < idx + |text| && j < maxlen then text[j - idx] else before[j]
  }

  lemma WrittenThen(a: seq<char>, b: seq<char>, c: seq<char>, idx: nat, s: seq<char>, t: seq<char>,
                    maxlen: nat)
    requires Written(a, b, idx, s, maxlen) && Written(b, c, idx + |s|, t, maxlen)
    ensures Written(a, c, idx, s + t, maxlen)
  {
  }

  /** `_out_buffer`. */
  method OutBuffer(buffer: array<char>, maxlen: nat, idx: nat, c: char)
    requires maxlen <= buffer.Length
    modifies buffer
    ensures Written(old(buffer[..]), buffer[..], idx, [c], maxlen)
  {
    if idx < maxlen {
      buffer[idx] := c;
    }
  }

  /** Output of `n` spaces, as the padding loops do it. */
  method OutSpaces(buffer: array<char>, maxlen: nat, idx0: nat, n: nat) returns (idx: nat)
    requires maxlen <= buffer.Length
    modifies buffer
    ensures idx == idx0 + n && Written(old(buffer[..]), buffer[..], idx0, Spaces(n), maxlen)
  {
    idx := idx0;
    var i := 0;
    while i < n
      invariant 0 <= i <= n && idx == idx0 + i
      invariant Written(old(buffer[..]), buffer[..], idx0, Spaces(i), maxlen)
    {
      ghost var before := buffer[..];
      OutBuffer(buffer, maxlen, idx, ' ');
      WrittenThen(old(buffer[..]), before, buffer[..], idx0, Spaces(i), [' '], maxlen);
      assert Spaces(i + 1) == Spaces(i) + [' '];
      idx := idx + 1;
      i := i + 1;
    }
  }

  lemma {:induction false} ReverseAt(s: seq<char>, k: nat)
    requires k < |s|
    ensures Reverse(s)[k] == s[|s| - 1 - k]
  {
    if k < |s| - 1 {
      ReverseAt(s[1..], k);
    }
  }

  lemma ReverseTake(s: seq<char>, k: nat)
    requires k < |s|
    ensures Reverse(s)[..k + 1] == Reverse(s)[..k] + [s[|s| - 1 - k]]
  {
    ReverseAt(s, k);
    TakeOne(Reverse(s), k);
  }

  lemma TakeOne(s: seq<char>, k: nat)
    requires k < |s|
    ensures s[..k + 1] == s[..k] + [s[k]]
  {
  }

  /** The reversing loop: `buf[--len]`. */
  method OutReversed(buffer: array<char>, maxlen: nat, idx0: nat, buf: array<char>, len0: nat)
    returns (idx: nat)
    requires maxlen <= buffer.Length && len0 <= buf.Length && buf != buffer
    modifies buffer
    ensures idx == idx0 + len0
    ensures Written(old(buffer[..]), buffer[..], idx0, Reverse(buf[..len0]), maxlen)
  {
    idx := idx0;
    var len := len0;
    ghost var text := Reverse(buf[..len0]);
    while len > 0
      invariant 0 <= len <= len0 && idx == idx0 + (len0 - len)
      invariant buf[..len0] == old(buf[..len0])
      invariant Written(old(buffer[..]), buffer[..], idx0, text[..len0 - len], maxlen)
    {
      len := len - 1;
      ghost var before := buffer[..];
      OutBuffer(buffer, maxlen, idx, buf[len]);
      WrittenThen(old(buffer[..]), before, buffer[..], idx0, text[..len0 - len - 1], [buf[len]], maxlen);
      ReverseTake(buf[..len0], len0 - len - 1);
      idx := idx + 1;
    }
    assert text[..len0] == text;
  }

  /** `_out_rev`. */
  method OutRev(buffer: array<char>, maxlen: nat, idx0: nat, buf: array<char>, len: nat, width: nat,
                fl: Flags)
    returns (idx: nat)
    requires maxlen <= buffer.Length && len <= buf.Length && buf != buffer
    modifies buffer
    ensures idx == idx0 + |Printf.OutRev(buf[..len], width, fl)|
    ensures Written(old(buffer[..]), buffer[..], idx0, Printf.OutRev(buf[..len], width, fl), maxlen)
  {
    ghost var b0 := buffer[..];
    idx := idx0;
    ghost var pre, post := [], [];
    if Left !in fl && ZeroPad !in fl && len < width {
      idx := OutSpaces(buffer, maxlen, idx, width - len);
      pre := Spaces(width - len);
    }
    ghost var b1 := buffer[..];
    idx := OutReversed(buffer, maxlen, idx, buf, len);
    ghost var b2 := buffer[..];
    WrittenThen(b0, b1, b2, idx0, pre, Reverse(buf[..len]), maxlen);
    if Left in fl && idx - idx0 < width {
      idx := OutSpaces(buffer, maxlen, idx, width - (idx - idx0));
      post := Spaces(width - len);
    }
    WrittenThen(b0, b2, buffer[..], idx0, pre + Reverse(buf[..len]), post, maxlen);
    assert Printf.OutRev(buf[..len], width, fl) == pre + Reverse(buf[..len]) + post;
  }

  // ---------------------------------------------------------------------------------------------
  // The digit buffer.

  /** The padding loops: `while ((len < n) && (len < PRINTF_NTOA_BUFFER_SIZE)) buf[len++] = '0'`. */
  method PadBuffer(buf: array<char>, len0: nat, n: nat) returns (len: nat)
    requires buf.Length == NTOA_BUFFER_SIZE && len0 <= buf.Length
    modifies buf
    ensures len <= buf.Length
    ensures buf[..len] == PadZeros(old(buf[..len0]), Min(n, NTOA_BUFFER_SIZE))
  {
    len := len0;
    while len < n && len < NTOA_BUFFER_SIZE
      invariant len0 <= len <= buf.Length && (len == len0 || len <= n)
      invariant buf[..len] == old(buf[..len0]) + seq(len - len0, _ => '0')
    {
      buf[len] := '0';
      len := len + 1;
    }
  }

  method PushBuffer(buf: array<char>, len0: nat, c: char) returns (len: nat)
    requires buf.Length == NTOA_BUFFER_SIZE && len0 <= buf.Length
    modifies buf
    ensures len <= buf.Length && buf[..len] == Push(old(buf[..len0]), c)
  {
    len := len0;
    if len < NTOA_BUFFER_SIZE {
      buf[len] := c;
      len := len + 1;
    }
  }

  /** `_ntoa_format`: zero padding, `#`, and the sign, all inside the digit buffer. */
  method NtoaFormat(buffer: array<char>, maxlen: nat, idx0: nat, buf: array<char>, len0: nat,
                    negative: bool, base: nat, prec: nat, width0: nat, fl: Flags)
    returns (idx: nat)
    requires maxlen <= buffer.Length && buf != buffer
    requires buf.Length == NTOA_BUFFER_SIZE && len0 <= buf.Length
    modifies buffer, buf
    ensures var text := Printf.NtoaFormat(old(buf[..len0]), negative, base, prec, width0, fl);
      idx == idx0 + |text| && Written(old(buffer[..]), buffer[..], idx0, text, maxlen)
  {
    var width := width0;
    if Left !in fl && width > 0 && ZeroPad in fl && (negative || Plus in fl || Space in fl) {
      width := width - 1;
    }
    var len := ZerosBuffer(buf, len0, prec, width, fl);
    len := HashBuffer(buf, len, base, prec, width, fl);
    len := SignBuffer(buf, len, negative, fl);
    idx := OutRev(buffer, maxlen, idx0, buf, len, width, fl);
  }

  method ZerosBuffer(buf: array<char>, len0: nat, prec: nat, width: nat, fl: Flags) returns (len: nat)
    requires buf.Length == NTOA_BUFFER_SIZE && len0 <= buf.Length
    modifies buf
    ensures len <= buf.Length && buf[..len] == Padded(old(buf[..len0]), prec, width, fl)
  {
    len := len0;
    if Left !in fl {
      len := PadBuffer(buf, len, prec);
      if ZeroPad in fl {
        len := PadBuffer(buf, len, width);
      }
    }
  }

  method SignBuffer(buf: array<char>, len0: nat, negative: bool, fl: Flags) returns (len: nat)
    requires buf.Length == NTOA_BUFFER_SIZE && len0 <= buf.Length
    modifies buf
    ensures len <= buf.Length && buf[..len] == Signed(old(buf[..len0]), negative, fl)
  {
    len := len0;
    if negative {
      len := PushBuffer(buf, len, '-');
    } else if Plus in fl {
      len := PushBuffer(buf, len, '+');
    } else if Space in fl {
      len := PushBuffer(buf, len, ' ');
    }
  }

  method HashBuffer(buf: array<char>, len0: nat, base: nat, prec: nat, width: nat, fl: Flags)
    returns (len: nat)
    requires buf.Length == NTOA_BUFFER_SIZE && len0 <= buf.Length
    modifies buf
    ensures len <= buf.Length && buf[..len] == Hashed(old(buf[..len0]), base, prec, width, fl)
  {
    len := len0;
    if Hash in fl {
      len := DropForHash(len0, base, prec, width, fl);
      assert buf[..len] == buf[..len0][..len];
      if base == 16 && Uppercase !in fl {
        len := PushBuffer(buf, len, 'x');
      } else if base == 16 && Uppercase in fl {
        len := PushBuffer(buf, len, 'X');
      } else if base == 2 {
        len := PushBuffer(buf, len, 'b');
      }
      len := PushBuffer(buf, len, '0');
    }
  }

  /** The characters that `#` takes back from a full field. */
  method DropForHash(len0: nat, base: nat, prec: nat, width: nat, fl: Flags) returns (len: nat)
    ensures len <= len0
    ensures len == if Precision !in fl && len0 > 0 && (len0 == prec || len0 == width)
                   then if len0 > 1 && base == 16 then len0 - 2 else len0 - 1
                   else len0
  {
    len := len0;
    if Precision !in fl && len > 0 && (len == prec || len == width) {
      len := len - 1;
      if len > 0 && base == 16 {
        len := len - 1;
      }
    }
  }

  /** `_ntoa_long` and `_ntoa_long_long`. */
  method Ntoa(buffer: array<char>, maxlen: nat, idx0: nat, value: u64, negative: bool, base: nat,
              prec: nat, width: nat, fl: Flags)
    returns (idx: nat)
    requires maxlen <= buffer.Length && 2 <= base <= 16
    modifies buffer
    ensures var text := Printf.Ntoa(value, negative, base, prec, width, fl);
      idx == idx0 + |text| && Written(old(buffer[..]), buffer[..], idx0, text, maxlen)
  {
    var buf := new char[NTOA_BUFFER_SIZE];
    var fl1 := if value == 0 then fl - {Hash} else fl;
    var len := 0;
    if Precision !in fl1 || value != 0 {
      len := FillDigits(buf, value, base, Uppercase in fl1);
    }
    idx := NtoaFormat(buffer, maxlen, idx0, buf, len, negative, base, prec, width, fl1);
  }

  /** The digit loop: `do … while (value && (len < PRINTF_NTOA_BUFFER_SIZE))`. */
  method FillDigits(buf: array<char>, value0: u64, base: nat, uppercase: bool) returns (len: nat)
    requires buf.Length == NTOA_BUFFER_SIZE && 2 <= base <= 16
    modifies buf
    ensures len <= buf.Length
    ensures buf[..len] == NtoaDigits(value0, base, uppercase, NTOA_BUFFER_SIZE)
  {
    var value: u64 := value0;
    len := 0;
    var more := true;
    while more
      invariant 0 <= len <= buf.Length && (more ==> len < buf.Length)
      invariant NtoaDigits(value0, base, uppercase, NTOA_BUFFER_SIZE)
             == buf[..len] + DigitsLeft(value, base, uppercase, len, more)
      decreases more, buf.Length - len
    {
      ghost var before := buf[..len];
      var d := DigitChar(value % base, uppercase);
      buf[len] := d;
      len := len + 1;
      DigitStep(value, base, uppercase, len - 1, before);
      value := value / base;
      more := value != 0 && len < NTOA_BUFFER_SIZE;
      assert buf[..len] == before + [d];
    }
  }

  ghost function DigitsLeft(value: nat, base: nat, uppercase: bool, len: nat, more: bool): seq<char>
    requires 2 <= base <= 16 && (more ==> len < NTOA_BUFFER_SIZE)
  {
    if more then NtoaDigits(value, base, uppercase, NTOA_BUFFER_SIZE - len) else []
  }

  lemma DigitStep(value: u64, base: nat, uppercase: bool, len: nat, before: seq<char>)
    requires 2 <= base <= 16 && len < NTOA_BUFFER_SIZE
    ensures 0 <= value / base <= value
    ensures before + DigitsLeft(value, base, uppercase, len, true)
         == before + [DigitChar(value % base, uppercase)]
            + DigitsLeft(value / base, base, uppercase, len + 1,
                         value / base != 0 && len + 1 < NTOA_BUFFER_SIZE)
  {
    DivShrinks(value, base);
  }

  lemma DivShrinks(value: nat, base: nat)
    requires base > 0
    ensures 0 <= value / base <= value
  {
    MulMono(1, base, value / base);
  }

  // ---------------------------------------------------------------------------------------------
  // Reading a directive.

  /** The flag loop. */
  method ReadFlags(f: seq<char>, i0: nat) returns (fl: Flags, i: nat)
    ensures (fl, i) == ParseFlags(f, i0, {})
  {
    fl, i := {}, i0;
    var more := true;
    while more
      invariant ParseFlags(f, i0, {}) == if more then ParseFlags(f, i, fl) else (fl, i)
      decreases more, |f| - i
    {
      match At(f, i)
      case '0' => fl, i := fl + {ZeroPad}, i + 1;
      case '-' => fl, i := fl + {Left}, i + 1;
      case '+' => fl, i := fl + {Plus}, i + 1;
      case ' ' => fl, i := fl + {Space}, i + 1;
      case '#' => fl, i := fl + {Hash}, i + 1;
      case _ => more := false;
    }
  }

  /** `_atoi`. */
  method ReadNumber(f: seq<char>, i0: nat) returns (n: u32, i: nat)
    ensures (n, i) == ParseNumber(f, i0, 0)
  {
    n, i := 0, i0;
    while Printf.IsDigit(At(f, i))
      invariant ParseNumber(f, i0, 0) == ParseNumber(f, i, n)
      decreases |f| - i
    {
      n := (n * 10 + (f[i] as int - '0' as int)) % TWO32;
      i := i + 1;
    }
  }

  method ReadDirective(f: seq<char>, i0: nat, va: Args, k0: nat) returns (d: Directive)
    ensures d == ParseDirective(f, i0, va, k0)
  {
    var fl, i := ReadFlags(f, i0);
    d := ReadWidth(f, Directive(fl, 0, 0, i, k0), va);
    d := ReadPrecision(f, d, va);
    d := ParseLength(f, d);
  }

  method ReadWidth(f: seq<char>, d0: Directive, va: Args) returns (d: Directive)
    ensures d == ParseWidth(f, d0, va)
  {
    d := d0;
    if Printf.IsDigit(At(f, d.i)) {
      var w, i := ReadNumber(f, d.i);
      d := d.(width := w, i := i);
    } else if At(f, d.i) == '*' {
      var w := ReadSigned(va(d.k), W32);
      if w < 0 {
        d := d.(fl := d.fl + {Left}, width := -w % TWO32);
      } else {
        d := d.(width := w % TWO32);
      }
      d := d.(i := d.i + 1, k := d.k + 1);
    }
  }

  method ReadPrecision(f: seq<char>, d0: Directive, va: Args) returns (d: Directive)
    ensures d == ParsePrecision(f, d0, va)
  {
    d := d0;
    if At(f, d.i) == '.' {
      d := d.(fl := d.fl + {Precision}, i := d.i + 1, precision := 0);
      if Printf.IsDigit(At(f, d.i)) {
        var p, i := ReadNumber(f, d.i);
        d := d.(precision := p, i := i);
      } else if At(f, d.i) == '*' {
        var p := ReadSigned(va(d.k), W32);
        d := d.(precision := (if p > 0 then p else 0) % TWO32, i := d.i + 1, k := d.k + 1);
      }
    }
  }

  // ---------------------------------------------------------------------------------------------
  // Writing a directive.

  /** `_strnlen_s`. */
  method Strnlen(text: Text, maxsize: nat) returns (n: nat)
    ensures n == Min(|text|, maxsize)
  {
    n := 0;
    while n < |text| && n < maxsize
      invariant 0 <= n <= |text| && n <= maxsize
    {
      n := n + 1;
    }
  }

  /** The `%s` case. */
  method OutString(buffer: array<char>, maxlen: nat, idx0: nat, p: Text, d: Directive)
    returns (idx: nat)
    requires maxlen <= buffer.Length && (Precision in d.fl || d.precision == 0)
    modifies buffer
    ensures var text := PadText(Clip(p, d), d.width, d.fl);
      idx == idx0 + |text| && Written(old(buffer[..]), buffer[..], idx0, text, maxlen)
  {
    var l := ClippedLength(p, d);
    ghost var b0 := buffer[..];
    idx := OutPadding(buffer, maxlen, idx0, if Left in d.fl then 0 else d.width - l);
    ghost var b1 := buffer[..];
    idx := OutText(buffer, maxlen, idx, p, d);
    ghost var b2 := buffer[..];
    idx := OutPadding(buffer, maxlen, idx, if Left in d.fl then d.width - l else 0);
    PaddedWritten(b0, b1, b2, buffer[..], idx0, Clip(p, d), d, maxlen);
  }

  method ClippedLength(p: Text, d: Directive) returns (l: nat)
    requires Precision in d.fl || d.precision == 0
    ensures l == |Clip(p, d)|
  {
    l := Strnlen(p, if d.precision > 0 then d.precision else TWO64 - 1);
    if Precision in d.fl {
      l := if l < d.precision then l else d.precision;
    }
  }

  /** A padding loop `while (l++ < width)`, for `n` columns if there are any. */
  method OutPadding(buffer: array<char>, maxlen: nat, idx0: nat, n: int) returns (idx: nat)
    requires maxlen <= buffer.Length
    modifies buffer
    ensures idx == idx0 + |Spaces(n)| && Written(old(buffer[..]), buffer[..], idx0, Spaces(n), maxlen)
  {
    idx := OutSpaces(buffer, maxlen, idx0, if n > 0 then n else 0);
  }

  /** Padding before or after a text makes up the padded text. */
  lemma PaddedWritten(b0: seq<char>, b1: seq<char>, b2: seq<char>, b3: seq<char>, idx: nat,
                      text: seq<char>, d: Directive, maxlen: nat)
    requires var pre := Spaces(if Left in d.fl then 0 else d.width - |text|);
      var post := Spaces(if Left in d.fl then d.width - |text| else 0);
      && Written(b0, b1, idx, pre, maxlen) && Written(b1, b2, idx + |pre|, text, maxlen)
      && Written(b2, b3, idx + |pre| + |text|, post, maxlen)
    ensures Written(b0, b3, idx, PadText(text, d.width, d.fl), maxlen)
  {
    var pre := Spaces(if Left in d.fl then 0 else d.width - |text|);
    var post := Spaces(if Left in d.fl then d.width - |text| else 0);
    WrittenThen(b0, b1, b2, idx, pre, text, maxlen);
    WrittenThen(b0, b2, b3, idx, pre + text, post, maxlen);
    assert PadText(text, d.width, d.fl) == pre + text + post;
  }

  /** The copying loop of `%s`: up to the NUL, or until the precision is used up. */
  method OutText(buffer: array<char>, maxlen: nat, idx0: nat, p: Text, d: Directive)
    returns (idx: nat)
    requires maxlen <= buffer.Length
    modifies buffer
    ensures idx == idx0 + |Clip(p, d)|
    ensures Written(old(buffer[..]), buffer[..], idx0, Clip(p, d), maxlen)
  {
    idx := idx0;
    var i := 0;
    var precision := d.precision;
    while i < |p| && (Precision !in d.fl || precision > 0)
      invariant 0 <= i <= |Clip(p, d)| && idx == idx0 + i
      invariant Precision in d.fl ==> precision == d.precision - i
      invariant Written(old(buffer[..]), buffer[..], idx0, p[..i], maxlen)
      decreases |p| - i
    {
      if Precision in d.fl {
        precision := precision - 1;
      }
      ghost var before := buffer[..];
      OutBuffer(buffer, maxlen, idx, p[i]);
      WrittenThen(old(buffer[..]), before, buffer[..], idx0, p[..i], [p[i]], maxlen);
      TakeOne(p, i);
      idx := idx + 1;
      i := i + 1;
    }
    assert p[..i] == Clip(p, d);
  }

  /** The `%c` case; `l` starts at 1 for the character itself. */
  method OutCharacter(buffer: array<char>, maxlen: nat, idx0: nat, c: char, d: Directive)
    returns (idx: nat)
    requires maxlen <= buffer.Length
    modifies buffer
    ensures var text := PadText([c], d.width, d.fl);
      idx == idx0 + |text| && Written(old(buffer[..]), buffer[..], idx0, text, maxlen)
  {
    ghost var b0 := buffer[..];
    idx := OutPadding(buffer, maxlen, idx0, if Left in d.fl then 0 else d.width - 1);
    ghost var b1 := buffer[..];
    OutBuffer(buffer, maxlen, idx, c);
    ghost var b2 := buffer[..];
    idx := OutPadding(buffer, maxlen, idx + 1, if Left in d.fl then d.width - 1 else 0);
    PaddedWritten(b0, b1, b2, buffer[..], idx0, [c], d, maxlen);
  }

  method OutInteger(buffer: array<char>, maxlen: nat, idx0: nat, c: char, d: Directive, va: Args)
    returns (idx: nat)
    requires maxlen <= buffer.Length
    modifies buffer
    ensures var text := ConvertInteger(c, d, va);
      idx == idx0 + |text| && Written(old(buffer[..]), buffer[..], idx0, text, maxlen)
  {
    var fl := IntegerFlags(c, d.fl);
    if c == 'i' || c == 'd' {
      var v := ReadSigned(va(d.k), ArgWidth(fl));
      idx := Ntoa(buffer, maxlen, idx0, Magnitude(v), v < 0, Base(c), d.precision, d.width, fl);
    } else {
      idx := Ntoa(buffer, maxlen, idx0, ReadUnsigned(va(d.k), ArgWidth(fl)), false, Base(c),
                  d.precision, d.width, fl);
    }
  }

  /** The conversion switch. */
  method OutOne(buffer: array<char>, maxlen: nat, idx0: nat, c: char, d: Directive, va: Args)
    returns (idx: nat, ghost text: seq<char>)
    requires maxlen <= buffer.Length && (Precision in d.fl || d.precision == 0)
    modifies buffer
    ensures text == ConvertOne(c, d, va)
    ensures idx == idx0 + |text| && Written(old(buffer[..]), buffer[..], idx0, text, maxlen)
  {
    text := ConvertOne(c, d, va);
    if IsInteger(c) {
      idx := OutInteger(buffer, maxlen, idx0, c, d, va);
    } else if c == 'c' {
      idx := OutCharacter(buffer, maxlen, idx0, LowByte(va(d.k).bits), d);
    } else if c == 's' {
      idx := OutString(buffer, maxlen, idx0, va(d.k).text, d);
    } else if c == 'p' {
      idx := Ntoa(buffer, maxlen, idx0, va(d.k).bits, false, 16, d.precision, 16,
                  d.fl + {ZeroPad, Uppercase});
    } else {
      OutBuffer(buffer, maxlen, idx0, c);
      idx := idx0 + 1;
    }
  }

  // ---------------------------------------------------------------------------------------------
  // The whole function.

  /** The loop over the format. */
  method Format(buffer: array<char>, maxlen: nat, f: seq<char>, va: Args) returns (idx: nat)
    requires maxlen <= buffer.Length && Supported(f, 0, va, 0)
    modifies buffer
    ensures idx == |Render(f, 0, va, 0)|
    ensures Written(old(buffer[..]), buffer[..], 0, Render(f, 0, va, 0), maxlen)
  {
    idx := 0;
    var i, k := 0, 0;
    ghost var b0, out, all: seq<char> := buffer[..], [], Render(f, 0, va, 0);
    while i < |f|
      invariant Supported(f, i, va, k) == Supported(f, 0, va, 0) && idx == |out|
      invariant Splits(all, out, f, i, va, k)
      invariant Written(b0, buffer[..], 0, out, maxlen)
      decreases |f| - i
    {
      idx, i, k, out := FormatRound(buffer, maxlen, idx, f, i, va, k, b0, out, all);
    }
    SplitsAtEnd(all, out, f, i, va, k);
  }

  lemma SplitsAtEnd(all: seq<char>, out: seq<char>, f: seq<char>, i: nat, va: Args, k: nat)
    requires i >= |f| && Supported(f, i, va, k) && Splits(all, out, f, i, va, k)
    ensures all == out
  {
  }

  /** `all` is `out` followed by the output for the rest of the format. */
  ghost predicate Splits(all: seq<char>, out: seq<char>, f: seq<char>, i: nat, va: Args, k: nat)
    requires Supported(f, i, va, k)
  {
    all == out + Render(f, i, va, k)
  }

  /** One round of the loop, with the output so far. */
  method FormatRound(buffer: array<char>, maxlen: nat, idx0: nat, f: seq<char>, i0: nat, va: Args,
                     k0: nat, ghost b0: seq<char>, ghost out0: seq<char>, ghost all: seq<char>)
    returns (idx: nat, i: nat, k: nat, ghost out: seq<char>)
    requires maxlen <= buffer.Length && i0 < |f| && Supported(f, i0, va, k0) && idx0 == |out0|
    requires Splits(all, out0, f, i0, va, k0) && Written(b0, buffer[..], 0, out0, maxlen)
    modifies buffer
    ensures i0 < i && Supported(f, i, va, k) == Supported(f, i0, va, k0) && idx == |out|
    ensures Splits(all, out, f, i, va, k) && Written(b0, buffer[..], 0, out, maxlen)
  {
    ghost var before := buffer[..];
    ghost var r;
    idx, i, k, r := FormatStep(buffer, maxlen, idx0, f, i0, va, k0);
    RoundRenders(f, i0, va, k0, r);
    WrittenThen(b0, before, buffer[..], 0, out0, r.text, maxlen);
    Associates(out0, r.text, Render(f, i, va, k));
    out := out0 + r.text;
  }

  /** One round of the loop: an ordinary character or a directive. */
  method FormatStep(buffer: array<char>, maxlen: nat, idx0: nat, f: seq<char>, i0: nat, va: Args,
                    k0: nat)
    returns (idx: nat, i: nat, k: nat, ghost r: Round)
    requires maxlen <= buffer.Length && i0 < |f| && Supported(f, i0, va, k0)
    modifies buffer
    ensures RoundAt(f, i0, va, k0) == Some(r) && i == r.i && k == r.k
    ensures idx == idx0 + |r.text| && Written(old(buffer[..]), buffer[..], idx0, r.text, maxlen)
  {
    if f[i0] != '%' {
      OutBuffer(buffer, maxlen, idx0, f[i0]);
      idx, i, k, r := idx0 + 1, i0 + 1, k0, Round([f[i0]], i0 + 1, k0);
    } else {
      var d := ReadDirective(f, i0 + 1, va, k0);
      idx, i, k, r := DirectiveStep(buffer, maxlen, idx0, f, d, va);
    }
  }

  /** The conversion of a directive that has been read. */
  method DirectiveStep(buffer: array<char>, maxlen: nat, idx0: nat, f: seq<char>, d: Directive, va: Args)
    returns (idx: nat, i: nat, k: nat, ghost r: Round)
    requires maxlen <= buffer.Length && d.i < |f| && (Precision in d.fl || d.precision == 0)
    modifies buffer
    ensures r == RoundOf(f, d, va) && i == r.i && k == r.k
    ensures idx == idx0 + |r.text| && Written(old(buffer[..]), buffer[..], idx0, r.text, maxlen)
  {
    r := RoundOf(f, d, va);
    ghost var text;
    idx, text := OutOne(buffer, maxlen, idx0, f[d.i], d, va);
    i, k := d.i + 1, d.k + Uses(f[d.i]);
  }

  /** `_vsnprintf` into a buffer of size `maxlen`.  The return value is the length of the complete
      output, whatever the size.  With a non-zero size the buffer holds the output, or as much of it
      as fits, and then a NUL; nothing behind that is written, and nothing at all with size 0. */
  method Vsnprintf(buffer: array<char>, maxlen: nat, f: seq<char>, va: Args) returns (ret: i32)
    requires maxlen <= buffer.Length && maxlen < TWO64 && Supported(f, 0, va, 0)
    modifies buffer
    ensures var text := Render(f, 0, va, 0);
      && ret == ToInt(|text|) && (|text| < 0x8000_0000 ==> ret == |text|)
      && (ret - |text|) % 0x1_0000_0000 == 0
      && (maxlen == 0 ==> buffer[..] == old(buffer[..]))
      && (maxlen > 0 ==>
            var n := Min(|text|, maxlen - 1);
            buffer[..] == text[..n] + ['\0'] + old(buffer[n + 1..]))
  {
    ghost var b0 := buffer[..];
    var idx := Format(buffer, maxlen, f, va);
    ghost var b1 := buffer[..];
    OutBuffer(buffer, maxlen, if idx < maxlen then idx else (maxlen + TWO64 - 1) % TWO64, '\0');
    Terminates(b0, b1, buffer[..], Render(f, 0, va, 0), maxlen);
    ret := ToInt(idx);
    ToIntIs(idx);
  }

  lemma ToIntIs(idx: nat)
    ensures idx < 0x8000_0000 ==> ToInt(idx) == idx
    ensures (ToInt(idx) - idx) % 0x1_0000_0000 == 0
  {
    var x, q := idx % TWO32, idx / TWO32;
    SignedRange(x);
    assert SignExtend(x, 32) == if x < 0x8000_0000 then x else x - TWO32 by { Pow2Values(); }
    assert idx == q * TWO32 + x;
    assert ToInt(idx) - idx == TWO32 * (if x < 0x8000_0000 then -q else -q - 1);
  }

  /** The conversion of the length to the `int` that is returned. */
  function ToInt(idx: nat): (r: i32)
  {
    SignedRange(idx % TWO32);
    SignExtend(idx % TWO32, 32)
  }

  lemma SignedRange(x: u32)
    ensures -0x8000_0000 <= SignExtend(x, 32) < 0x8000_0000
    ensures x < 0x8000_0000 ==> SignExtend(x, 32) == x
  {
    Pow2Values();
  }

  lemma Terminates(b0: seq<char>, b1: seq<char>, b2: seq<char>, text: seq<char>, maxlen: nat)
    requires Written(b0, b1, 0, text, maxlen) && maxlen <= |b0| && maxlen < TWO64
    requires Written(b1, b2, if |text| < maxlen then |text| else (maxlen + TWO64 - 1) % TWO64, ['\0'], maxlen)
    ensures maxlen == 0 ==> b2 == b0
    ensures maxlen > 0 ==>
      b2 == text[..Min(|text|, maxlen - 1)] + ['\0'] + b0[Min(|text|, maxlen - 1) + 1..]
  {
  }
}
