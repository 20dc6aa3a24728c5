/** Formatting integers and reading them back: parse_conversion and format_integer (pintos/lib/stdio.c), atoi
    (pintos/lib/stdlib.c).

    The output is the string of characters passed to the output function. Field widths and precisions are
    unbounded integers; C leaves their overflow undefined. */
module Printf {

  // ----- conversions ------------------------------------------------------------------

  datatype Flags = Flags(minus: bool, plus: bool, space: bool, pound: bool, zero: bool, group: bool)

  datatype Type = Char | Short | Int | IntMax | Long | LongLong | PtrDiffT | SizeT

  /** struct printf_conversion; precision is -1 when none was given. */
  datatype Conversion = Conversion(flags: Flags, width: int, precision: int, typ: Type)

  /** struct integer_base. */
  datatype Base = Decimal | Octal | Hex | HexUpper

  function Radix(b: Base): nat { match b case Decimal => 10 case Octal => 8 case _ => 16 }

  function Over(v: nat, b: Base): nat { match b case Decimal => v / 10 case Octal => v / 8 case _ => v / 16 }

  function Mod(v: nat, b: Base): nat { match b case Decimal => v % 10 case Octal => v % 8 case _ => v % 16 }

  function Times(v: nat, b: Base): nat { match b case Decimal => v * 10 case Octal => v * 8 case _ => v * 16 }

  /** How many digits the ' flag groups. */
  function GroupedAt(n: nat, b: Base): bool { if b.Hex? || b.HexUpper? then n % 4 == 0 else n % 3 == 0 }

  function DigitChar(d: nat, b: Base): char
    requires d < Radix(b)
  {
    if d < 10 then '0' + d as char else if b.HexUpper? then 'A' + (d - 10) as char else 'a' + (d - 10) as char
  }

  predicate IsDigit(c: char) { '0' <= c <= '9' }

  predicate IsSpace(c: char) { c == ' ' || '\t' <= c <= '\r' }

  /** What a digit of any base stands for. */
  function DigitValue(c: char): nat {
    if '0' <= c <= '9' then (c - '0') as nat
    else if 'a' <= c <= 'f' then 10 + (c - 'a') as nat
    else if 'A' <= c <= 'F' then 10 + (c - 'A') as nat
    else 0
  }

  // ----- the text of an integer ---------------------------------------------------------

  function Repeat(c: char, n: int): (s: string)
    ensures |s| == (if n > 0 then n else 0) && forall k | 0 <= k < |s| :: s[k] == c
  {
    if n <= 0 then [] else [c] + Repeat(c, n - 1)
  }

  function Reverse(s: string): (r: string)
    ensures |r| == |s|
  {
    if s == [] then [] else Reverse(s[1..]) + [s[0]]
  }

  /** The digits of v, last one first, after cnt digits have been produced. */
  function DigitsReversed(v: nat, b: Base, group: bool, cnt: nat): string
    decreases v
  {
    if v == 0 then []
    else CommaAt(group, cnt, b) + [DigitChar(Mod(v, b), b)] + DigitsReversed(Over(v, b), b, group, cnt + 1)
  }

  function SignOf(isSigned: bool, negative: bool, flags: Flags): string {
    if !isSigned then ""
    else if flags.plus then (if negative then "-" else "+")
    else if flags.space then (if negative then "-" else " ")
    else if negative then "-" else ""
  }

  function Prefix(v: nat, b: Base, flags: Flags): string {
    if flags.pound && v > 0 && b.Hex? then "0x" else if flags.pound && v > 0 && b.HexUpper? then "0X" else ""
  }

  /** Digits with the zeros that the precision (which is cut to 63) and the # flag of base 8 ask for. */
  function Padded(digits: string, b: Base, c: Conversion): string {
    var precision := if c.precision < 0 then 1 else if c.precision > 63 then 63 else c.precision;
    var padded := digits + Repeat('0', precision - |digits|);
    if c.flags.pound && b.Octal? && (padded == [] || padded[|padded| - 1] != '0') then padded + ['0'] else padded
  }

  /** The buffer when all digits and zeros are in: last character first. */
  function Buffer(v: nat, b: Base, c: Conversion): string {
    Padded(DigitsReversed(v, b, c.flags.group, 0), b, c)
  }

  /** Sign, prefix and digits without padding. */
  function NaturalLength(v: nat, isSigned: bool, negative: bool, b: Base, c: Conversion): nat {
    |SignOf(isSigned, negative, c.flags)| + |Prefix(v, b, c.flags)| + |Buffer(v, b, c)|
  }

  function PadCount(v: nat, isSigned: bool, negative: bool, b: Base, c: Conversion): nat {
    var pad := c.width - NaturalLength(v, isSigned, negative, b, c);
    if pad < 0 then 0 else pad
  }

  /** What format_integer outputs. */
  function Text(v: nat, isSigned: bool, negative: bool, b: Base, c: Conversion): string {
    var pad := PadCount(v, isSigned, negative, b, c);
    (if !c.flags.minus && !c.flags.zero then Repeat(' ', pad) else "")
    + SignOf(isSigned, negative, c.flags) + Prefix(v, b, c.flags)
    + (if c.flags.zero then Repeat('0', pad) else "")
    + Reverse(Buffer(v, b, c))
    + (if c.flags.minus then Repeat(' ', pad) else "")
  }

  // ----- the buffer does not overflow -----------------------------------------------------

  function Pow8(n: nat): nat { if n == 0 then 1 else 8 * Pow8(n - 1) }

  /** Numbers below 8^n have at most n digits in any of the bases, and no more commas than digits. */
  lemma {:induction false} DigitsBound(v: nat, b: Base, group: bool, cnt: nat, n: nat)
    requires v < Pow8(n)
    ensures |DigitsReversed(v, b, group, cnt)| <= 2 * n
    decreases n
  {
    if v > 0 {
      DigitsBound(Over(v, b), b, group, cnt + 1, n - 1);
    }
  }

  /** The 64 bytes of the buffer suffice for every 64-bit value and every conversion. */
  lemma BufferFits(v: nat, b: Base, c: Conversion)
    requires v < 0x1_0000_0000_0000_0000
    ensures |DigitsReversed(v, b, c.flags.group, 0)| <= 44 && |Buffer(v, b, c)| <= 64
  {
    assert Pow8(11) == 0x2_0000_0000;
    assert Pow8(22) == 8 * Pow8(21) && Pow8(16) == 0x1_0000_0000_0000;
    assert Pow8(22) >= 0x1_0000_0000_0000_0000;
    DigitsBound(v, b, c.flags.group, 0, 22);
  }

  // ----- what the digits denote -------------------------------------------------------------

  /** The number that a string of digits stands for, read after acc. */
  function Value(s: string, b: Base, acc: nat): nat {
    if s == [] then acc else Value(s[1..], b, Times(acc, b) + DigitValue(s[0]))
  }

  function WithoutCommas(s: string): string {
    if s == [] then [] else (if s[0] == ',' then [] else [s[0]]) + WithoutCommas(s[1..])
  }

  lemma {:induction false} ValueAppend(s: string, t: string, b: Base, acc: nat)
    ensures Value(s + t, b, acc) == Value(t, b, Value(s, b, acc))
  {
    if s == [] {
      assert s + t == t;
    } else {
      assert (s + t)[1..] == s[1..] + t;
      ValueAppend(s[1..], t, b, Times(acc, b) + DigitValue(s[0]));
    }
  }

  lemma {:induction false} CommasAppend(s: string, t: string)
    ensures WithoutCommas(s + t) == WithoutCommas(s) + WithoutCommas(t)
  {
    if s == [] {
      assert s + t == t;
    } else {
      assert (s + t)[1..] == s[1..] + t;
      CommasAppend(s[1..], t);
    }
  }

  /** One more character at the front of the reversed digits. */
  lemma ReverseStep(c: char, s: string, b: Base)
    ensures Reverse([c] + s) == Reverse(s) + [c]
    ensures Value(WithoutCommas(Reverse([c] + s)), b, 0)
            == if c == ',' then Value(WithoutCommas(Reverse(s)), b, 0)
               else Times(Value(WithoutCommas(Reverse(s)), b, 0), b) + DigitValue(c)
  {
    assert ([c] + s)[1..] == s;
    CommasAppend(Reverse(s), [c]);
    assert WithoutCommas([c]) == if c == ',' then [] else [c];
    if c == ',' {
      assert WithoutCommas(Reverse(s)) + [] == WithoutCommas(Reverse(s));
    } else {
      ValueAppend(WithoutCommas(Reverse(s)), [c], b, 0);
      assert [c][1..] == [];
    }
  }

  lemma {:induction false} ZerosDenote(b: Base, zeros: string)
    requires forall k | 0 <= k < |zeros| :: zeros[k] == '0'
    ensures Value(WithoutCommas(Reverse(zeros)), b, 0) == 0
  {
    if zeros != [] {
      ZerosDenote(b, zeros[1..]);
      ReverseStep('0', zeros[1..], b);
      assert zeros == ['0'] + zeros[1..];
    }
  }

  function CommaAt(group: bool, cnt: nat, b: Base): string {
    if group && cnt > 0 && GroupedAt(cnt, b) then [','] else []
  }

  /** One more digit, and perhaps a comma, in front of the reversed digits. */
  lemma DenoteStep(v: nat, b: Base, group: bool, cnt: nat, rest: string)
    requires v > 0 && Value(WithoutCommas(Reverse(rest)), b, 0) == Over(v, b)
    ensures Value(WithoutCommas(Reverse(CommaAt(group, cnt, b) + ([DigitChar(Mod(v, b), b)] + rest))), b, 0) == v
  {
    var d := DigitChar(Mod(v, b), b);
    ReverseStep(d, rest, b);
    if CommaAt(group, cnt, b) == "" {
      assert CommaAt(group, cnt, b) + ([d] + rest) == [d] + rest;
    } else {
      ReverseStep(',', [d] + rest, b);
    }
  }

  /** The digits, with any zeros in front, denote the value. */
  lemma {:induction false} DigitsDenote(v: nat, b: Base, group: bool, cnt: nat, zeros: string)
    requires forall k | 0 <= k < |zeros| :: zeros[k] == '0'
    ensures Value(WithoutCommas(Reverse(DigitsReversed(v, b, group, cnt) + zeros)), b, 0) == v
    decreases v
  {
    if v == 0 {
      ZerosDenote(b, zeros);
      assert DigitsReversed(v, b, group, cnt) + zeros == zeros;
    } else {
      var d, rest := DigitChar(Mod(v, b), b), DigitsReversed(Over(v, b), b, group, cnt + 1);
      DigitsDenote(Over(v, b), b, group, cnt + 1, zeros);
      DenoteStep(v, b, group, cnt, rest + zeros);
      Regroup3(CommaAt(group, cnt, b), [d], rest, zeros);
    }
  }

  lemma Regroup3(a: string, b: string, c: string, d: string)
    ensures (a + b + c) + d == a + (b + (c + d))
  {
  }

  /** With the commas taken out, the digits of every conversion denote the value. */
  lemma TextDenotes(v: nat, b: Base, c: Conversion)
    ensures Value(WithoutCommas(Reverse(Buffer(v, b, c))), b, 0) == v
  {
    var digits := DigitsReversed(v, b, c.flags.group, 0);
    var zeros := Buffer(v, b, c)[|digits|..];
    assert Buffer(v, b, c) == digits + zeros;
    forall k | 0 <= k < |zeros| ensures zeros[k] == '0' {
      assert zeros[k] == Buffer(v, b, c)[|digits| + k];
    }
    DigitsDenote(v, b, c.flags.group, 0, zeros);
  }

  // ----- what the text looks like ------------------------------------------------------------

  predicate DigitOf(ch: char, b: Base) {
    match b
    case Octal => '0' <= ch <= '7'
    case Decimal => '0' <= ch <= '9'
    case Hex => '0' <= ch <= '9' || 'a' <= ch <= 'f'
    case HexUpper => '0' <= ch <= '9' || 'A' <= ch <= 'F'
  }

  /** Some digit of the first k characters is not 0. */
  predicate Significant(body: string, k: nat)
    requires k <= |body|
  {
    exists j :: 0 <= j < k && body[j] != '0' && body[j] != ','
  }

  /** Counted from the right every fourth character is a comma (every fifth in base 16), as long as there is a digit
      other than 0 on its left. */
  predicate Grouped(body: string, b: Base) {
    forall k | 0 <= k < |body| ::
      body[k] == ',' <==> (|body| - k) % (if b.Hex? || b.HexUpper? then 5 else 4) == 0 && Significant(body, k)
  }

  /** The digits of a conversion, as the C standard has them: they denote the value; zeros in front only as far as the
      precision asks for (1 if there is none; the code stops at 63) or the # flag of base 8 for one; no digits exactly
      for 0 with precision 0 and without that flag. The code counts commas towards the precision. */
  ghost predicate BodyIs(body: string, v: nat, b: Base, c: Conversion) {
    var p := if c.precision < 0 then 1 else if c.precision > 63 then 63 else c.precision;
    var octal := c.flags.pound && b.Octal?;
    && (forall k | 0 <= k < |body| :: body[k] == ',' || DigitOf(body[k], b))
    && Value(WithoutCommas(body), b, 0) == v
    && (if c.flags.group then Grouped(body, b) else ',' !in body)
    && |body| >= p
    && (body != "" && body[0] == '0' && |body| > p ==> octal && (|body| == 1 || body[1] != '0'))
    && (octal ==> body != "" && body[0] == '0')
    && (body == "" <==> v == 0 && c.precision == 0 && !octal)
  }

  /** The parts of a text. */
  datatype Parts = Parts(left: string, sign: string, prefix: string, zeros: string, body: string, right: string)

  function All(p: Parts): string { p.left + p.sign + p.prefix + p.zeros + p.body + p.right }

  predicate Only(s: string, ch: char) { forall k | 0 <= k < |s| :: s[k] == ch }

  /** Section 7.19.6.1 of ISO/IEC 9899:1999 on sign, prefix and padding. */
  ghost predicate PartsAre(p: Parts, v: nat, isSigned: bool, negative: bool, b: Base, c: Conversion) {
    var pad := c.width - |p.sign| - |p.prefix| - |p.body|;
    && |p.sign| <= 1
    && (p.sign == "-" <==> isSigned && negative)
    && (p.sign == "+" <==> isSigned && !negative && c.flags.plus)
    && (p.sign == " " <==> isSigned && !negative && !c.flags.plus && c.flags.space)
    && (p.sign != "" ==> p.sign[0] in "-+ ")
    && (p.prefix == "0x" <==> c.flags.pound && v != 0 && b == Hex)
    && (p.prefix == "0X" <==> c.flags.pound && v != 0 && b == HexUpper)
    && p.prefix in {"", "0x", "0X"}
    && BodyIs(p.body, v, b, c)
    && Only(p.left, ' ') && Only(p.zeros, '0') && Only(p.right, ' ')
    && |p.left| == (if pad > 0 && !c.flags.minus && !c.flags.zero then pad else 0)
    && |p.zeros| == (if pad > 0 && c.flags.zero then pad else 0)
    && |p.right| == (if pad > 0 && c.flags.minus then pad else 0)
  }

  /** "10" stands for ten, eight and sixteen. */
  lemma TenDenotes()
    ensures Value("10", Decimal, 0) == 10 && Value("10", Octal, 0) == 8
            && Value("10", Hex, 0) == 16 && Value("10", HexUpper, 0) == 16
  {
    assert "10"[1..] == "0" && "0"[1..] == "";
  }

  lemma DigitsStandFor(d: nat)
    requires d < 16
    ensures DigitValue("0123456789abcdef"[d]) == d && DigitValue("0123456789ABCDEF"[d]) == d
  {
  }

  lemma {:induction false} ReverseAt(s: string, k: nat)
    requires k < |s|
    ensures Reverse(s)[k] == s[|s| - 1 - k]
  {
    if k < |s| - 1 {
      ReverseAt(s[1..], k);
    }
  }

  /** Digits since the last comma, once cnt have been produced. */
  function SinceComma(cnt: nat, b: Base): nat {
    if b.Hex? || b.HexUpper? then (if cnt > 0 && cnt % 4 == 0 then 4 else cnt % 4)
    else if cnt > 0 && cnt % 3 == 0 then 3 else cnt % 3
  }

  /** Place r of the reversed digits holds a comma. */
  predicate CommaPlace(r: nat, off: nat, b: Base) { (r + 1 + off) % (if b.Hex? || b.HexUpper? then 5 else 4) == 0 }

  /** How reversed digits look: commas in their places, a digit other than 0 at the end. */
  predicate Looks(d: string, b: Base, group: bool, off: nat) {
    && (forall r | 0 <= r < |d| :: d[r] == ',' || DigitOf(d[r], b))
    && (forall r | 0 <= r < |d| :: d[r] == ',' <==> group && CommaPlace(r, off, b))
    && (d != [] ==> d[|d| - 1] != '0' && d[|d| - 1] != ',')
  }

  lemma {:induction false} LooksPlain(rest: string, b: Base, group: bool, off: nat, ch: char)
    requires Looks(rest, b, group, off + 1) && DigitOf(ch, b) && (rest == [] ==> ch != '0')
    requires off < if b.Hex? || b.HexUpper? then 4 else 3
    ensures Looks([ch] + rest, b, group, off)
  {
    var d := [ch] + rest;
    forall r | 0 <= r < |d|
      ensures (d[r] == ',' || DigitOf(d[r], b)) && (d[r] == ',' <==> group && CommaPlace(r, off, b))
    {
      if r > 0 { assert d[r] == rest[r - 1]; }
    }
  }

  lemma {:induction false} LooksComma(rest: string, b: Base, off: nat, ch: char)
    requires Looks(rest, b, true, 1) && DigitOf(ch, b) && (rest == [] ==> ch != '0')
    requires off == if b.Hex? || b.HexUpper? then 4 else 3
    ensures Looks([','] + [ch] + rest, b, true, off)
  {
    var d := [','] + [ch] + rest;
    forall r | 0 <= r < |d|
      ensures (d[r] == ',' || DigitOf(d[r], b)) && (d[r] == ',' <==> CommaPlace(r, off, b))
    {
      if r > 1 { assert d[r] == rest[r - 2]; }
    }
  }

  lemma SinceStep(cnt: nat, b: Base)
    ensures var off, gap := SinceComma(cnt, b), if b.Hex? || b.HexUpper? then 4 else 3;
            && off <= gap && (off == gap <==> cnt > 0 && GroupedAt(cnt, b))
            && SinceComma(cnt + 1, b) == if off == gap then 1 else off + 1
  {
  }

  lemma {:induction false} DigitsLook(v: nat, b: Base, group: bool, cnt: nat, off: nat)
    requires group ==> off == SinceComma(cnt, b)
    requires !group ==> off == 0
    ensures Looks(DigitsReversed(v, b, group, cnt), b, group, off)
    decreases v
  {
    if v > 0 {
      SinceStep(cnt, b);
      var rest, ch := DigitsReversed(Over(v, b), b, group, cnt + 1), DigitChar(Mod(v, b), b);
      DigitsLook(Over(v, b), b, group, cnt + 1, if group then SinceComma(cnt + 1, b) else 0);
      TopIsNotZero(v, b, group, cnt);
      if CommaAt(group, cnt, b) == [','] {
        LooksComma(rest, b, off, ch);
      } else {
        if !group { LooksAnywhere(rest, b, 0, 1); }
        LooksPlain(rest, b, group, off, ch);
        assert CommaAt(group, cnt, b) + [ch] + rest == [ch] + rest;
      }
    }
  }

  lemma TopIsNotZero(v: nat, b: Base, group: bool, cnt: nat)
    requires v > 0
    ensures DigitsReversed(Over(v, b), b, group, cnt + 1) == [] ==> DigitChar(Mod(v, b), b) != '0'
    ensures DigitOf(DigitChar(Mod(v, b), b), b)
  {
    if Over(v, b) > 0 {
      assert DigitsReversed(Over(v, b), b, group, cnt + 1) != [];
    }
  }

  /** Without commas it does not matter where one would be. */
  lemma LooksAnywhere(d: string, b: Base, off: nat, off': nat)
    requires Looks(d, b, false, off)
    ensures Looks(d, b, false, off')
  {
  }

  /** The digits, with zeros in front, are grouped as they should be. */
  lemma {:induction false} GroupedDigits(d: string, zeros: nat, b: Base, s: string, body: string)
    requires Looks(d, b, true, 0) && |s| == |d| + zeros == |body|
    requires forall r | 0 <= r < |s| :: s[r] == if r < |d| then d[r] else '0'
    requires forall k | 0 <= k < |body| :: body[k] == s[|s| - 1 - k]
    ensures Grouped(body, b)
  {
    forall k | 0 <= k < |body|
      ensures body[k] == ',' <==> (|body| - k) % (if b.Hex? || b.HexUpper? then 5 else 4) == 0 && Significant(body, k)
    {
      var r := |s| - 1 - k;
      assert body[k] == s[r];
      assert r < |d| ==> (d[r] == ',' <==> CommaPlace(r, 0, b));
      if r < |d| - 1 {
        assert body[zeros] == d[|d| - 1];
        assert Significant(body, k);
      } else {
        ZerosOnly(body, k);
      }
    }
  }

  lemma ZerosOnly(body: string, k: nat)
    requires k <= |body| && forall j | 0 <= j < k :: body[j] == '0'
    ensures !Significant(body, k)
  {
  }

  /** The zeros of the buffer. */
  lemma BufferZeros(v: nat, b: Base, c: Conversion, d: string, s: string)
    requires d == DigitsReversed(v, b, c.flags.group, 0) && s == Buffer(v, b, c)
    requires Looks(d, b, c.flags.group, 0) && (d == [] <==> v == 0)
    ensures var p := if c.precision < 0 then 1 else if c.precision > 63 then 63 else c.precision;
            var octal := c.flags.pound && b.Octal?;
            && |s| >= |d| && |s| >= p && (forall r | 0 <= r < |s| :: s[r] == if r < |d| then d[r] else '0')
            && (s != [] && s[|s| - 1] == '0' && |s| > p ==> octal && (|s| == 1 || s[|s| - 2] != '0'))
            && (octal ==> s != [] && s[|s| - 1] == '0')
            && (s == [] <==> v == 0 && c.precision == 0 && !octal)
  {
  }

  /** The buffer, read backwards, is as the standard has it. */
  lemma BufferLooks(v: nat, b: Base, c: Conversion, body: string)
    requires body == Reverse(Buffer(v, b, c))
    ensures BodyIs(body, v, b, c)
  {
    var d, s := DigitsReversed(v, b, c.flags.group, 0), Buffer(v, b, c);
    DigitsLook(v, b, c.flags.group, 0, 0);
    TextDenotes(v, b, c);
    BufferZeros(v, b, c, d, s);
    forall k | 0 <= k < |body| ensures body[k] == s[|s| - 1 - k] {
      ReverseAt(s, k);
    }
    BodyMirrors(v, b, c, d, s, body);
  }

  lemma BodyMirrors(v: nat, b: Base, c: Conversion, d: string, s: string, body: string)
    requires Looks(d, b, c.flags.group, 0) && Value(WithoutCommas(body), b, 0) == v
    requires |body| == |s| >= |d| && forall k | 0 <= k < |body| :: body[k] == s[|s| - 1 - k]
    requires var p := if c.precision < 0 then 1 else if c.precision > 63 then 63 else c.precision;
             var octal := c.flags.pound && b.Octal?;
             && |s| >= p && (forall r | 0 <= r < |s| :: s[r] == if r < |d| then d[r] else '0')
             && (s != [] && s[|s| - 1] == '0' && |s| > p ==> octal && (|s| == 1 || s[|s| - 2] != '0'))
             && (octal ==> s != [] && s[|s| - 1] == '0')
             && (s == [] <==> v == 0 && c.precision == 0 && !octal)
    ensures BodyIs(body, v, b, c)
  {
    if c.flags.group {
      GroupedDigits(d, |s| - |d|, b, s, body);
    }
  }

  function PartsOf(v: nat, isSigned: bool, negative: bool, b: Base, c: Conversion): Parts {
    var pad := PadCount(v, isSigned, negative, b, c);
    Parts(if !c.flags.minus && !c.flags.zero then Repeat(' ', pad) else "", SignOf(isSigned, negative, c.flags),
          Prefix(v, b, c.flags), if c.flags.zero then Repeat('0', pad) else "", Reverse(Buffer(v, b, c)),
          if c.flags.minus then Repeat(' ', pad) else "")
  }

  /** What format_integer outputs is made of the parts that the standard asks for. */
  lemma TextLooks(v: nat, isSigned: bool, negative: bool, b: Base, c: Conversion)
    ensures var p := PartsOf(v, isSigned, negative, b, c);
            Text(v, isSigned, negative, b, c) == All(p) && PartsAre(p, v, isSigned, negative, b, c)
  {
    var p := PartsOf(v, isSigned, negative, b, c);
    BufferLooks(v, b, c, p.body);
    SignLooks(isSigned, negative, c.flags, p.sign);
    PrefixLooks(v, b, c.flags, p.prefix);
  }

  lemma SignLooks(isSigned: bool, negative: bool, flags: Flags, sign: string)
    requires sign == SignOf(isSigned, negative, flags)
    ensures |sign| <= 1 && (sign != "" ==> sign[0] in "-+ ")
    ensures sign == "-" <==> isSigned && negative
    ensures sign == "+" <==> isSigned && !negative && flags.plus
    ensures sign == " " <==> isSigned && !negative && !flags.plus && flags.space
  {
  }

  lemma PrefixLooks(v: nat, b: Base, flags: Flags, prefix: string)
    requires prefix == Prefix(v, b, flags)
    ensures prefix in {"", "0x", "0X"}
    ensures prefix == "0x" <==> flags.pound && v != 0 && b == Hex
    ensures prefix == "0X" <==> flags.pound && v != 0 && b == HexUpper
  {
    assert "0x"[1] != "0X"[1];
  }

  // ----- the precision and the commas -----------------------------------------------------------

  /** How many digits a number has. */
  function NumDigits(v: nat, b: Base): nat {
    if v == 0 then 0 else 1 + NumDigits(Over(v, b), b)
  }

  lemma {:induction false} DigitCount(v: nat, b: Base, group: bool, cnt: nat)
    ensures var d := DigitsReversed(v, b, group, cnt);
            && (v == 0 ==> d == []) && |WithoutCommas(d)| == NumDigits(v, b)
            && (!group ==> |d| == NumDigits(v, b)) && |d| >= NumDigits(v, b)
            && (group && v > 0 ==> (|d| > NumDigits(v, b) <==>
                 NumDigits(v, b) + SinceComma(cnt, b) > if b.Hex? || b.HexUpper? then 4 else 3))
    decreases v
  {
    if v > 0 {
      SinceStep(cnt, b);
      DigitCount(Over(v, b), b, group, cnt + 1);
      var comma, ch := CommaAt(group, cnt, b), DigitChar(Mod(v, b), b);
      var rest := DigitsReversed(Over(v, b), b, group, cnt + 1);
      CommasAppend(comma + [ch], rest);
      CommasAppend(comma, [ch]);
    }
  }

  lemma {:induction false} CommasReversed(s: string)
    ensures |WithoutCommas(Reverse(s))| == |WithoutCommas(s)|
  {
    if s != [] {
      CommasReversed(s[1..]);
      CommasAppend(Reverse(s[1..]), [s[0]]);
    }
  }

  lemma {:induction false} ZerosHaveNoCommas(s: string)
    requires Only(s, '0')
    ensures WithoutCommas(s) == s
  {
    if s != [] {
      ZerosHaveNoCommas(s[1..]);
    }
  }

  /** The standard wants at least as many digits as the precision says. As the code counts commas too, there are fewer
      exactly with the grouping flag, when the value has enough digits for a comma but fewer than the precision (and
      not just one fewer that the # flag of base 8 adds). */
  lemma {:induction false} PrecisionIff(v: nat, b: Base, c: Conversion, body: string)
    requires body == PartsOf(v, true, false, b, c).body
    ensures var p := if c.precision < 0 then 1 else if c.precision > 63 then 63 else c.precision;
            var n, gap := NumDigits(v, b), if b.Hex? || b.HexUpper? then 4 else 3;
            |WithoutCommas(body)| < p <==>
              c.flags.group && gap < n < p && !(c.flags.pound && b.Octal? && n + 1 == p)
  {
    var p := if c.precision < 0 then 1 else if c.precision > 63 then 63 else c.precision;
    var n, gap := NumDigits(v, b), if b.Hex? || b.HexUpper? then 4 else 3;
    var len := BodyLengths(v, b, c, body, n, gap, p);
    PrecisionCount(n, len, gap, p, c.flags.group, c.flags.pound && b.Octal?, |WithoutCommas(body)|);
  }

  lemma {:induction false} BodyLengths(v: nat, b: Base, c: Conversion, body: string, n: nat, gap: nat, p: nat)
    returns (len: nat)
    requires body == Reverse(Buffer(v, b, c)) && n == NumDigits(v, b)
    requires p == (if c.precision < 0 then 1 else if c.precision > 63 then 63 else c.precision)
    requires gap == if b.Hex? || b.HexUpper? then 4 else 3
    ensures |WithoutCommas(body)| + len == n + (if p > len then p else len)
                                           + (if c.flags.pound && b.Octal? && p <= len then 1 else 0)
    ensures len >= n && (!c.flags.group ==> len == n) && (n == 0 ==> len == 0)
    ensures c.flags.group && n > 0 ==> (len > n <==> n > gap)
  {
    var d := DigitsReversed(v, b, c.flags.group, 0);
    DigitCount(v, b, c.flags.group, 0);
    BodyCount(v, b, c, d, Buffer(v, b, c));
    len := |d|;
  }

  lemma BodyCount(v: nat, b: Base, c: Conversion, d: string, s: string)
    requires d == DigitsReversed(v, b, c.flags.group, 0) && s == Buffer(v, b, c)
    ensures var p := if c.precision < 0 then 1 else if c.precision > 63 then 63 else c.precision;
            |WithoutCommas(Reverse(s))| + |d| == |WithoutCommas(d)| + (if p > |d| then p else |d|)
                                                 + (if c.flags.pound && b.Octal? && p <= |d| then 1 else 0)
  {
    DigitsLook(v, b, c.flags.group, 0, 0);
    BufferZeros(v, b, c, d, s);
    var zeros := s[|d|..];
    assert s == d + zeros;
    CommasReversed(s);
    CommasAppend(d, zeros);
    ZerosHaveNoCommas(zeros);
  }

  lemma PrecisionCount(n: nat, len: nat, gap: nat, p: nat, group: bool, octal: bool, total: nat)
    requires total + len == n + (if p > len then p else len) + (if octal && p <= len then 1 else 0)
    requires len >= n && (!group ==> len == n) && (n == 0 ==> len == 0) && (group && n > 0 ==> (len > n <==> n > gap))
    ensures total < p <==> group && gap < n < p && !(octal && n + 1 == p)
  {
  }

  /** "%'.6d" of 1234 has five digits: 01,234. */
  lemma FiveOfSix(c: Conversion)
    requires c == Conversion(NOFLAGS.(group := true), 0, 6, Int)
    ensures |WithoutCommas(PartsOf(1234, true, false, Decimal, c).body)| < 6
  {
    assert NumDigits(1234, Decimal) == 4;
    PrecisionIff(1234, Decimal, c, PartsOf(1234, true, false, Decimal, c).body);
  }

  // ----- the width ----------------------------------------------------------------------------

  /** The text is as long as the width and the natural length ask for, unless both '-' and '0' are in force and
      there is something to pad: then the padding is output twice. */
  lemma LengthIff(v: nat, isSigned: bool, negative: bool, b: Base, c: Conversion)
    ensures var natural := NaturalLength(v, isSigned, negative, b, c);
            (|Text(v, isSigned, negative, b, c)| == if c.width > natural then c.width else natural)
            <==> !(c.flags.minus && c.flags.zero && c.width > natural)
  {
  }

  // ----- parsing a conversion ------------------------------------------------------------------

  datatype Parsed = Parsed(conv: Conversion, rest: string, used: nat)

  /** The character at the format pointer; the string ends with NUL. */
  function Head(s: string): char { if s == [] then '\0' else s[0] }

  predicate IsFlag(c: char) { c == '-' || c == '+' || c == ' ' || c == '#' || c == '0' || c == '\'' }

  function SetFlag(f: Flags, c: char): Flags {
    if c == '-' then f.(minus := true) else if c == '+' then f.(plus := true) else if c == ' ' then f.(space := true)
    else if c == '#' then f.(pound := true) else if c == '0' then f.(zero := true) else f.(group := true)
  }

  function ParseFlags(s: string, f: Flags): (Flags, string) {
    if IsFlag(Head(s)) then ParseFlags(s[1..], SetFlag(f, s[0])) else (f, s)
  }

  function ParseNumber(s: string, acc: int): (int, string) {
    if IsDigit(Head(s)) then ParseNumber(s[1..], acc * 10 + (s[0] - '0') as int) else (acc, s)
  }

  /** The n-th variable argument; there are as many as the format asks for. */
  function Arg(args: seq<int>, n: nat): int { if n < |args| then args[n] else 0 }

  function ParseWidth(s: string, args: seq<int>): (int, string, nat) {
    if Head(s) == '*' then (Arg(args, 0), s[1..], 1)
    else var (n, rest) := ParseNumber(s, 0); (n, rest, 0)
  }

  function ParsePrecision(s: string, args: seq<int>, used: nat): (int, string, nat) {
    if Head(s) != '.' then (-1, s, used)
    else if Head(s[1..]) == '*' then (if Arg(args, used) < 0 then -1 else Arg(args, used), s[2..], used + 1)
    else var (n, rest) := ParseNumber(s[1..], 0); (if n < 0 then -1 else n, rest, used)
  }

  function ParseType(s: string): (Type, string) {
    match Head(s)
    case 'h' => if Head(s[1..]) == 'h' then (Char, s[2..]) else (Short, s[1..])
    case 'j' => (IntMax, s[1..])
    case 'l' => if Head(s[1..]) == 'l' then (LongLong, s[2..]) else (Long, s[1..])
    case 't' => (PtrDiffT, s[1..])
    case 'z' => (SizeT, s[1..])
    case _ => (Int, s)
  }

  const NOFLAGS: Flags := Flags(false, false, false, false, false, false)

  /** '-' overrides '0', and '+' overrides ' '. */
  function Override(f: Flags): Flags {
    f.(zero := f.zero && !f.minus, space := f.space && !f.plus)
  }

  /** parse_conversion. */
  function Parse(s: string, args: seq<int>): Parsed {
    var (f0, s1) := ParseFlags(s, NOFLAGS);
    var f1 := Override(f0);
    var (w, s2, used1) := ParseWidth(s1, args);
    var f2 := f1.(minus := f1.minus || w < 0);
    var (p, s3, used2) := ParsePrecision(s2, args, used1);
    var f3 := f2.(zero := f2.zero && p < 0);
    var (typ, s4) := ParseType(s3);
    Parsed(Conversion(f3, if w < 0 then -w else w, p, typ), s4, used2)
  }

  lemma {:induction false} ParseNumberNat(s: string, acc: int)
    requires acc >= 0
    ensures ParseNumber(s, acc).0 >= 0
  {
    if IsDigit(Head(s)) {
      ParseNumberNat(s[1..], acc * 10 + (s[0] - '0') as int);
    }
  }

  /** The flag sets that parse_conversion can produce. '-' and '0' come together exactly when '0' was given and '-'
      was not, the width was a negative '*', and there is no precision. */
  lemma ParsedFlags(s: string, args: seq<int>)
    ensures var c, f := Parse(s, args).conv, ParseFlags(s, NOFLAGS);
            && c.width >= 0 && c.precision >= -1 && !(c.flags.plus && c.flags.space)
               && !(c.precision >= 0 && c.flags.zero)
            && (c.flags.minus && c.flags.zero <==>
                 f.0.zero && !f.0.minus && Head(f.1) == '*' && Arg(args, 0) < 0 && c.precision < 0)
  {
    var (f0, s1) := ParseFlags(s, NOFLAGS);
    ParseNumberNat(s1, 0);
  }

  // What a conversion looks like in a format string.
  function RenderFlags(f: Flags): string {
    When(f.minus, '-') + (When(f.plus, '+') + (When(f.space, ' ')
      + (When(f.pound, '#') + (When(f.zero, '0') + When(f.group, '\'')))))
  }

  function When(b: bool, c: char): string { if b then [c] else [] }

  /** Decimal digits, none for 0. */
  function RenderNumber(n: nat): string { Reverse(DigitsReversed(n, Decimal, false, 0)) }

  function RenderPrecision(p: int): string { if p < 0 then "" else "." + RenderNumber(p) }

  function RenderType(t: Type): string {
    match t
    case Char => "hh" case Short => "h" case Int => "" case IntMax => "j" case Long => "l" case LongLong => "ll"
    case PtrDiffT => "t" case SizeT => "z"
  }

  lemma ParseWhen(b: bool, c: char, t: string, f: Flags)
    requires IsFlag(c)
    ensures ParseFlags(When(b, c) + t, f) == ParseFlags(t, if b then SetFlag(f, c) else f)
  {
    if b {
      assert ([c] + t)[1..] == t;
    } else {
      assert When(b, c) + t == t;
    }
  }

  lemma ParseThree(b1: bool, c1: char, b2: bool, c2: char, b3: bool, c3: char, t: string, f: Flags, f': Flags)
    requires IsFlag(c1) && IsFlag(c2) && IsFlag(c3)
    requires var f1 := if b1 then SetFlag(f, c1) else f;
             var f2 := if b2 then SetFlag(f1, c2) else f1;
             f' == if b3 then SetFlag(f2, c3) else f2
    ensures ParseFlags(When(b1, c1) + (When(b2, c2) + (When(b3, c3) + t)), f) == ParseFlags(t, f')
  {
    var f1 := if b1 then SetFlag(f, c1) else f;
    var f2 := if b2 then SetFlag(f1, c2) else f1;
    ParseWhen(b1, c1, When(b2, c2) + (When(b3, c3) + t), f);
    ParseWhen(b2, c2, When(b3, c3) + t, f1);
    ParseWhen(b3, c3, t, f2);
  }

  lemma RegroupSix(a: string, b: string, c: string, d: string, e: string, f: string, t: string)
    ensures (a + (b + (c + (d + (e + f))))) + t == a + (b + (c + (d + (e + (f + t)))))
  {
  }

  lemma ParseRenderedFlags(f: Flags, t: string)
    requires !IsFlag(Head(t))
    ensures ParseFlags(RenderFlags(f) + t, NOFLAGS) == (f, t)
  {
    var s1 := When(f.pound, '#') + (When(f.zero, '0') + (When(f.group, '\'') + t));
    var f1 := Flags(f.minus, f.plus, f.space, false, false, false);
    ParseThree(f.minus, '-', f.plus, '+', f.space, ' ', s1, NOFLAGS, f1);
    ParseThree(f.pound, '#', f.zero, '0', f.group, '\'', t, f1, f);
    RegroupSix(When(f.minus, '-'), When(f.plus, '+'), When(f.space, ' '), When(f.pound, '#'), When(f.zero, '0'),
               When(f.group, '\''), t);
  }

  lemma {:induction false} ParseDigits(d: string, t: string, acc: nat)
    requires AllDigits(d) && !IsDigit(Head(t))
    ensures ParseNumber(d + t, acc) == (Value(d, Decimal, acc), t)
  {
    if d == [] {
      assert d + t == t;
    } else {
      assert (d + t)[1..] == d[1..] + t;
      ParseDigits(d[1..], t, Times(acc, Decimal) + DigitValue(d[0]));
    }
  }

  lemma {:induction false} TopDigit(n: nat, cnt: nat)
    requires n > 0
    ensures var d := DigitsReversed(n, Decimal, false, cnt); d != [] && '1' <= d[|d| - 1] <= '9'
    decreases n
  {
    if n >= 10 {
      TopDigit(n / 10, cnt + 1);
    }
  }

  /** A number without leading zeros is read back, and does not look like a flag or a '*'. */
  lemma ParseRenderedNumber(n: nat, t: string)
    requires !IsDigit(Head(t))
    ensures ParseNumber(RenderNumber(n) + t, 0) == (n, t)
    ensures n > 0 ==> var c := Head(RenderNumber(n) + t); !IsFlag(c) && c != '*'
    ensures n == 0 ==> RenderNumber(n) + t == t
  {
    var d := DigitsReversed(n, Decimal, false, 0);
    DecimalDigits(n, 0);
    ReverseDigits(d);
    DigitsDenote(n, Decimal, false, 0, "");
    assert d + "" == d;
    ParseDigits(Reverse(d), t, 0);
    if n > 0 {
      TopDigit(n, 0);
      LastFirst(d);
    }
  }

  /** The characters that end a conversion. */
  predicate IsConversion(c: char) { c in "diouxXcsp" }

  lemma ParseRenderedType(t: Type, tail: string)
    requires tail != [] && IsConversion(tail[0])
    ensures ParseType(RenderType(t) + tail) == (t, tail)
    ensures var c := Head(RenderType(t) + tail); !IsFlag(c) && !IsDigit(c) && c != '*' && c != '.'
  {
    var s := RenderType(t) + tail;
    if |RenderType(t)| == 2 {
      assert s[2..] == tail && s[1..][0] == s[1];
    } else if |RenderType(t)| == 1 {
      assert s[1..] == tail;
    } else {
      assert s == tail;
    }
  }

  lemma ParseRenderedPrecision(p: int, t: string)
    requires p >= -1 && !IsDigit(Head(t)) && Head(t) != '*' && Head(t) != '.' && !IsFlag(Head(t))
    ensures ParsePrecision(RenderPrecision(p) + t, [], 0) == (p, t, 0)
    ensures var c := Head(RenderPrecision(p) + t); !IsFlag(c) && !IsDigit(c) && c != '*'
  {
    if p < 0 {
      assert RenderPrecision(p) + t == t;
    } else {
      ParseRenderedNumber(p, t);
      var s := RenderPrecision(p) + t;
      assert s[1..] == RenderNumber(p) + t;
    }
  }

  /** A conversion as it is written in a format: flags, width, precision, type. */
  function Render(c: Conversion): string
    requires c.width >= 0
  {
    RenderFlags(c.flags) + (RenderNumber(c.width) + (RenderPrecision(c.precision) + RenderType(c.typ)))
  }

  /** Every conversion that parse_conversion can produce without a '*' is read back from its text, up to the
      character that says what to convert. */
  lemma ParseReadsBack(c: Conversion, tail: string)
    requires c.width >= 0 && c.precision >= -1 && tail != [] && IsConversion(tail[0])
    requires c.flags == Override(c.flags) && !(c.precision >= 0 && c.flags.zero)
    ensures Parse(Render(c) + tail, []) == Parsed(c, tail, 0)
  {
    var s4 := RenderType(c.typ) + tail;
    var s3 := RenderPrecision(c.precision) + s4;
    var s2 := RenderNumber(c.width) + s3;
    ParseRenderedType(c.typ, tail);
    ParseRenderedPrecision(c.precision, s4);
    ParseRenderedWidth(c.width, s3);
    ParseRenderedFlags(c.flags, s2);
    Regrouped(RenderFlags(c.flags), RenderNumber(c.width), RenderPrecision(c.precision), RenderType(c.typ), tail);
  }

  lemma ParseRenderedWidth(n: nat, t: string)
    requires !IsDigit(Head(t)) && Head(t) != '*' && !IsFlag(Head(t))
    ensures ParseWidth(RenderNumber(n) + t, []) == (n, t, 0) && !IsFlag(Head(RenderNumber(n) + t))
  {
    ParseRenderedNumber(n, t);
  }

  lemma Regrouped(a: string, b: string, c: string, d: string, t: string)
    ensures (a + (b + (c + d))) + t == a + (b + (c + (d + t)))
  {
  }

  // ----- stars --------------------------------------------------------------------------------------

  predicate AllFlags(s: string) { forall k | 0 <= k < |s| :: IsFlag(s[k]) }

  /** Each flag character sets its own flag. */
  function FlagsOf(s: string, f: Flags): Flags {
    Flags(f.minus || '-' in s, f.plus || '+' in s, f.space || ' ' in s, f.pound || '#' in s, f.zero || '0' in s,
          f.group || '\'' in s)
  }

  lemma FlagsOfTail(s: string, f: Flags)
    requires s != [] && IsFlag(s[0])
    ensures FlagsOf(s[1..], SetFlag(f, s[0])) == FlagsOf(s, f)
  {
    var c, r := s[0], s[1..];
    assert s == [c] + r;
    assert forall x: char :: x in s <==> x == c || x in r;
  }

  lemma {:induction false} FlagsAre(s: string, t: string, f: Flags)
    requires AllFlags(s) && !IsFlag(Head(t))
    ensures ParseFlags(s + t, f) == (FlagsOf(s, f), t)
  {
    if s == [] {
      assert s + t == t;
    } else {
      assert (s + t)[1..] == s[1..] + t;
      FlagsOfTail(s, f);
      FlagsAre(s[1..], t, SetFlag(f, s[0]));
    }
  }

  /** A width as it could be written in place of a '*'. */
  function WidthText(w: int): string { if w < 0 then "-" + RenderNumber(-w) else RenderNumber(w) }

  lemma WidthTextParsed(s: string, w: int, t: string, args: seq<int>)
    requires AllFlags(s) && !IsFlag(Head(t)) && !IsDigit(Head(t)) && Head(t) != '*'
    ensures var (f, rest) := ParseFlags(s + (WidthText(w) + t), NOFLAGS);
            && f == Flags('-' in s || w < 0, '+' in s, ' ' in s, '#' in s, '0' in s, '\'' in s)
            && ParseWidth(rest, args) == (if w < 0 then -w else w, t, 0)
  {
    var n := if w < 0 then -w else w;
    var u := RenderNumber(n) + t;
    ParseRenderedNumber(n, t);
    if w < 0 {
      assert s + (WidthText(w) + t) == (s + "-") + u;
      FlagsAre(s + "-", u, NOFLAGS);
    } else {
      FlagsAre(s, u, NOFLAGS);
    }
  }

  lemma NextArg(w: int, args: seq<int>, s: string)
    ensures var (p, rest, used) := ParsePrecision(s, args, 0);
            ParsePrecision(s, [w] + args, 1) == (p, rest, used + 1)
  {
    assert Arg([w] + args, 1) == Arg(args, 0);
  }

  /** A '*' width is as good as its argument written in its place, a negative one as '-' and its digits: all but the
      flags are equal, and the flags too, unless '0' was given without '-', the argument is negative and there is no
      precision. */
  lemma StarWidth(s: string, w: int, t: string, args: seq<int>)
    requires AllFlags(s) && !IsFlag(Head(t)) && !IsDigit(Head(t)) && Head(t) != '*'
    ensures var a, d := Parse(s + ("*" + t), [w] + args), Parse(s + (WidthText(w) + t), args);
            && a.rest == d.rest && a.used == d.used + 1 && a.conv.(flags := d.conv.flags) == d.conv
            && (a.conv == d.conv <==> !('0' in s && '-' !in s && w < 0 && a.conv.precision < 0))
  {
    FlagsAre(s, "*" + t, NOFLAGS);
    assert ("*" + t)[1..] == t;
    WidthTextParsed(s, w, t, args);
    NextArg(w, args, t);
  }

  lemma {:induction false} StarParsed(p: int, t: string, args: seq<int>)
    ensures ParsePrecision(".*" + t, [p] + args, 0) == (if p < 0 then -1 else p, t, 1)
  {
    var u := ".*" + t;
    assert u[1..][0] == '*' && u[2..] == t;
  }

  lemma {:induction false} NoStarParsed(s: string, p: int, t: string, args: seq<int>)
    requires ParsePrecision(s, [], 0) == (p, t, 0)
    ensures ParsePrecision(s, args, 0) == (p, t, 0)
  {
  }

  /** The same of a '*' precision; a negative one is as good as none. */
  lemma StarPrecision(s: string, w: int, p: int, t: string, args: seq<int>)
    requires AllFlags(s) && !IsFlag(Head(t)) && !IsDigit(Head(t)) && Head(t) != '*' && Head(t) != '.'
    ensures var a := Parse(s + (WidthText(w) + (".*" + t)), [p] + args);
            var d := Parse(s + (WidthText(w) + (RenderPrecision(p) + t)), args);
            a.conv == d.conv && a.rest == d.rest && a.used == d.used + 1
  {
    StarParsed(p, t, args);
    ParseRenderedPrecision(if p < 0 then -1 else p, t);
    NoStarParsed(RenderPrecision(p) + t, if p < 0 then -1 else p, t, args);
    WidthTextParsed(s, w, ".*" + t, [p] + args);
    WidthTextParsed(s, w, RenderPrecision(p) + t, args);
  }

  /** "%0*d" with a width of -5: the zero flag survives the minus that the negative width implies, and the
      padding comes out twice. */
  lemma ZeroStarNegative()
    ensures var c := Parse("0*d", [-5]).conv;
            c.flags.minus && c.flags.zero && c.width == 5 && |Text(7, true, false, Decimal, c)| == 9
  {
    var s := "0*d";
    assert s[1..] == "*d" && "*d"[1..] == "d";
    assert ParseFlags("*d", SetFlag(NOFLAGS, '0')) == (SetFlag(NOFLAGS, '0'), "*d");
    var c := Parse(s, [-5]).conv;
    assert DigitsReversed(7, Decimal, false, 0) == ['7'] + DigitsReversed(0, Decimal, false, 1);
    assert Buffer(7, Decimal, c) == ['7'];
    LengthIff(7, true, false, Decimal, c);
  }

  method ScanFlags(format: string, start: nat) returns (f: Flags, i: nat)
    requires start <= |format|
    ensures start <= i <= |format| && (f, format[i..]) == ParseFlags(format[start..], NOFLAGS)
  {
    f, i := NOFLAGS, start;
    while i < |format| && IsFlag(format[i])
      invariant start <= i <= |format| && ParseFlags(format[i..], f) == ParseFlags(format[start..], NOFLAGS)
    {
      assert format[i..][1..] == format[i + 1..];
      f := SetFlag(f, format[i]);
      i := i + 1;
    }
  }

  method ScanNumber(format: string, start: nat) returns (n: int, i: nat)
    requires start <= |format|
    ensures start <= i <= |format| && (n, format[i..]) == ParseNumber(format[start..], 0)
  {
    n, i := 0, start;
    while i < |format| && IsDigit(format[i])
      invariant start <= i <= |format| && ParseNumber(format[i..], n) == ParseNumber(format[start..], 0)
    {
      assert format[i..][1..] == format[i + 1..];
      n := n * 10 + (format[i] - '0') as int;
      i := i + 1;
    }
  }

  method ScanWidth(format: string, start: nat, args: seq<int>) returns (width: int, i: nat, used: nat)
    requires start <= |format|
    ensures start <= i <= |format| && (width, format[i..], used) == ParseWidth(format[start..], args)
  {
    used := 0;
    if start < |format| && format[start] == '*' {
      assert format[start..][1..] == format[start + 1..];
      return Arg(args, 0), start + 1, 1;
    }
    width, i := ScanNumber(format, start);
  }

  method ParseConversion(format: string, start: nat, args: seq<int>) returns (c: Conversion, i: nat, used: nat)
    requires start <= |format|
    ensures start <= i <= |format| && Parsed(c, format[i..], used) == Parse(format[start..], args)
  {
    var f, width, precision, typ;
    f, i := ScanFlags(format, start);
    ghost var f0, s1 := f, format[i..];
    f := Override(f);
    width, i, used := ScanWidth(format, i, args);
    ghost var w, s2, used1 := width, format[i..], used;
    if width < 0 {
      width := -width;
      f := f.(minus := true);
    }
    precision, i, used := ScanPrecision(format, i, args, used);
    ghost var s3 := format[i..];
    if precision >= 0 {
      f := f.(zero := false);
    }
    typ, i := ScanType(format, i);
    c := Conversion(f, width, precision, typ);
    Assembled(format[start..], args, f0, s1, w, s2, used1, precision, s3, used, typ, format[i..]);
  }

  lemma Assembled(s: string, args: seq<int>, f0: Flags, s1: string, w: int, s2: string, used1: nat, p: int, s3: string,
                  used2: nat, typ: Type, s4: string)
    requires ParseFlags(s, NOFLAGS) == (f0, s1) && ParseWidth(s1, args) == (w, s2, used1)
    requires ParsePrecision(s2, args, used1) == (p, s3, used2) && ParseType(s3) == (typ, s4)
    ensures var f := Override(f0);
            Parse(s, args) == Parsed(Conversion(f.(minus := f.minus || w < 0, zero := f.zero && p < 0),
                                                if w < 0 then -w else w, p, typ), s4, used2)
  {
  }

  method ScanPrecision(format: string, start: nat, args: seq<int>, used0: nat)
    returns (precision: int, i: nat, used: nat)
    requires start <= |format|
    ensures start <= i <= |format| && (precision, format[i..], used) == ParsePrecision(format[start..], args, used0)
  {
    precision, i, used := -1, start, used0;
    if i < |format| && format[i] == '.' {
      i := i + 1;
      assert format[start..][1..] == format[i..];
      if i < |format| && format[i] == '*' {
        precision := Arg(args, used);
        i, used := i + 1, used + 1;
        assert format[start..][2..] == format[i..];
      } else {
        precision, i := ScanNumber(format, i);
      }
      if precision < 0 {
        precision := -1;
      }
    }
  }

  method ScanType(format: string, start: nat) returns (typ: Type, i: nat)
    requires start <= |format|
    ensures start <= i <= |format| && (typ, format[i..]) == ParseType(format[start..])
  {
    typ, i := Int, start;
    if i < |format| {
      assert format[start..][1..] == format[start + 1..];
      var doubled := i + 1 < |format| && format[i + 1] == format[i];
      if doubled {
        assert format[start..][2..] == format[start + 2..];
      }
      match format[i] {
        case 'h' =>
          if doubled { typ, i := Char, i + 2; } else { typ, i := Short, i + 1; }
        case 'j' => typ, i := IntMax, i + 1;
        case 'l' =>
          if doubled { typ, i := LongLong, i + 2; } else { typ, i := Long, i + 1; }
        case 't' => typ, i := PtrDiffT, i + 1;
        case 'z' => typ, i := SizeT, i + 1;
        case _ =>
      }
    }
  }

  // ----- formatting ----------------------------------------------------------------------------

  /** output_dup. */
  method OutputDup(ch: char, cnt: nat, out: string) returns (out': string)
    ensures out' == out + Repeat(ch, cnt)
  {
    out' := out;
    var left := cnt;
    while left > 0
      invariant out' + Repeat(ch, left) == out + Repeat(ch, cnt)
    {
      out' := out' + [ch];
      left := left - 1;
    }
  }

  lemma Regroup(a: string, b: string, c: string, d: string)
    ensures (a + b + c) + d == a + (b + c + d)
  {
  }

  /** The loop that fills the buffer with digits. */
  method FillDigits(value: nat, b: Base, c: Conversion, buf: array<char>) returns (cp: nat)
    requires buf.Length == 64 && value < 0x1_0000_0000_0000_0000
    modifies buf
    ensures cp <= 44 && buf[..cp] == DigitsReversed(value, b, c.flags.group, 0)
  {
    BufferFits(value, b, c);
    cp := 0;
    var v, cnt := value, 0;
    while v > 0
      invariant cp <= 44
                && buf[..cp] + DigitsReversed(v, b, c.flags.group, cnt) == DigitsReversed(value, b, c.flags.group, 0)
      decreases v
    {
      ghost var before, rest := buf[..cp], DigitsReversed(v, b, c.flags.group, cnt);
      ghost var comma := CommaAt(c.flags.group, cnt, b);
      var d := DigitChar(Mod(v, b), b);
      assert |before + rest| <= 44;
      if c.flags.group && cnt > 0 && GroupedAt(cnt, b) {
        buf[cp] := ',';
        cp := cp + 1;
      }
      assert buf[..cp] == before + comma;
      buf[cp] := d;
      cp := cp + 1;
      assert buf[..cp] == before + comma + [d];
      v := Over(v, b);
      cnt := cnt + 1;
      Regroup(before, comma, [d], DigitsReversed(v, b, c.flags.group, cnt));
    }
    assert buf[..cp] + [] == buf[..cp];
  }

  lemma OneZero(s: string, n: int)
    requires n >= 0
    ensures s + ['0'] + Repeat('0', n) == s + Repeat('0', n + 1)
  {
    assert Repeat('0', n + 1) == ['0'] + Repeat('0', n);
  }

  /** The zeros that the precision and the # flag of base 8 ask for. */
  method FillZeros(b: Base, c: Conversion, buf: array<char>, start: nat) returns (cp: nat)
    requires buf.Length == 64 && start <= 44
    modifies buf
    ensures cp <= 64
    ensures buf[..cp] == Padded(old(buf[..start]), b, c)
  {
    cp := start;
    ghost var digits := buf[..start];
    var precision := if c.precision < 0 then 1 else c.precision;
    ghost var limit := if precision > 63 then 63 else precision;
    while cp < precision && cp < 63
      invariant start <= cp <= 63
      invariant buf[..cp] + Repeat('0', limit - cp) == digits + Repeat('0', limit - start)
    {
      ghost var before := buf[..cp];
      buf[cp] := '0';
      cp := cp + 1;
      assert buf[..cp] == before + ['0'];
      OneZero(before, limit - cp);
    }
    assert buf[..cp] + [] == buf[..cp];
    ghost var padded := buf[..cp];
    if c.flags.pound && b.Octal? && (cp == 0 || buf[cp - 1] != '0') {
      buf[cp] := '0';
      cp := cp + 1;
      assert buf[..cp] == padded + ['0'];
    }
  }

  /** Outputs the buffer from its end to its start. */
  method OutputReversed(buf: array<char>, n: nat, out: string) returns (out': string)
    requires n <= buf.Length
    ensures out' == out + Reverse(buf[..n])
  {
    out' := out;
    var cp := n;
    while cp > 0
      invariant 0 <= cp <= n && out' + Reverse(buf[..cp]) == out + Reverse(buf[..n])
    {
      cp := cp - 1;
      LastFirst(buf[..cp + 1]);
      assert buf[..cp + 1][..cp] == buf[..cp];
      out' := out' + [buf[cp]];
    }
  }

  lemma {:induction false} LastFirst(s: string)
    requires s != []
    ensures Reverse(s) == [s[|s| - 1]] + Reverse(s[..|s| - 1])
  {
    if |s| > 1 {
      LastFirst(s[1..]);
      assert s[1..][..|s| - 2] == s[..|s| - 1][1..];
    }
  }

  method SignString(isSigned: bool, negative: bool, flags: Flags) returns (sign: string)
    ensures sign == SignOf(isSigned, negative, flags)
  {
    sign := "";
    if isSigned {
      if flags.plus {
        sign := if negative then "-" else "+";
      } else if flags.space {
        sign := if negative then "-" else " ";
      } else if negative {
        sign := "-";
      }
    }
  }

  /** The 64-byte buffer, filled. */
  method FillBuffer(value: nat, b: Base, c: Conversion) returns (buf: array<char>, cp: nat)
    requires value < 0x1_0000_0000_0000_0000
    ensures buf.Length == 64 && cp <= 64 && buf[..cp] == Buffer(value, b, c)
  {
    buf := new char[64];
    cp := FillDigits(value, b, c, buf);
    cp := FillZeros(b, c, buf, cp);
  }

  /** format_integer. */
  method FormatInteger(value: nat, isSigned: bool, negative: bool, b: Base, c: Conversion)
    returns (out: string, ghost parts: Parts)
    requires value < 0x1_0000_0000_0000_0000
    ensures out == Text(value, isSigned, negative, b, c)
    ensures out == All(parts) && PartsAre(parts, value, isSigned, negative, b, c)
  {
    TextLooks(value, isSigned, negative, b, c);
    parts := PartsOf(value, isSigned, negative, b, c);
    var sign := SignString(isSigned, negative, c.flags);
    var x := Prefix(value, b, c.flags);
    var buf, cp := FillBuffer(value, b, c);
    var padCnt := c.width - cp - |x| - |sign|;
    if padCnt < 0 {
      padCnt := 0;
    }
    assert padCnt == PadCount(value, isSigned, negative, b, c);
    out := Output(sign, x, buf, cp, padCnt, c.flags);
  }

  method Output(sign: string, x: string, buf: array<char>, cp: nat, padCnt: nat, flags: Flags) returns (out: string)
    requires cp <= buf.Length
    ensures out == (if !flags.minus && !flags.zero then Repeat(' ', padCnt) else "") + sign + x
                   + (if flags.zero then Repeat('0', padCnt) else "") + Reverse(buf[..cp])
                   + (if flags.minus then Repeat(' ', padCnt) else "")
  {
    out := "";
    if !flags.minus && !flags.zero {
      out := OutputDup(' ', padCnt, out);
    }
    out := out + sign + x;
    if flags.zero {
      out := OutputDup('0', padCnt, out);
    }
    out := OutputReversed(buf, cp, out);
    if flags.minus {
      out := OutputDup(' ', padCnt, out);
    }
  }

  // ----- reading back ----------------------------------------------------------------------------

  function SkipSpace(s: string): string {
    if s != [] && IsSpace(s[0]) then SkipSpace(s[1..]) else s
  }

  /** The digits at the front of s, accumulated on the negative side. */
  function NegativeDigits(s: string, acc: int): int {
    if s != [] && IsDigit(s[0]) then NegativeDigits(s[1..], acc * 10 - (s[0] - '0') as int) else acc
  }

  function AtoiOf(s: string): int {
    var t := SkipSpace(s);
    if t != [] && t[0] == '+' then -NegativeDigits(t[1..], 0)
    else if t != [] && t[0] == '-' then NegativeDigits(t[1..], 0)
    else -NegativeDigits(t, 0)
  }

  /** The last loop of atoi, from position start. */
  method AtoiDigits(s: string, start: nat) returns (value: int)
    requires start <= |s|
    ensures value == NegativeDigits(s[start..], 0) <= 0
  {
    var i := start;
    value := 0;
    while i < |s| && IsDigit(s[i])
      invariant start <= i <= |s| && value <= 0 && NegativeDigits(s[i..], value) == NegativeDigits(s[start..], 0)
    {
      assert s[i..][1..] == s[i + 1..];
      value := value * 10 - (s[i] - '0') as int;
      i := i + 1;
    }
  }

  /** atoi of a NUL-terminated string. (Its accumulator only falls, so it is in the range of int if the result is.) */
  method Atoi(s: string) returns (value: int)
    ensures value == AtoiOf(s)
  {
    var i := 0;
    while i < |s| && IsSpace(s[i])
      invariant 0 <= i <= |s| && SkipSpace(s[i..]) == SkipSpace(s)
    {
      assert s[i..][1..] == s[i + 1..];
      i := i + 1;
    }
    assert SkipSpace(s) == s[i..];
    var negative := false;
    assert i < |s| ==> s[i..][1..] == s[i + 1..];
    if i < |s| && s[i] == '+' {
      i := i + 1;
    } else if i < |s| && s[i] == '-' {
      negative := true;
      i := i + 1;
    }
    assert AtoiOf(s) == if negative then NegativeDigits(s[i..], 0) else -NegativeDigits(s[i..], 0);
    value := AtoiDigits(s, i);
    if !negative {
      value := -value;
    }
  }

  predicate AllDigits(s: string) { forall k | 0 <= k < |s| :: IsDigit(s[k]) }

  lemma {:induction false} ReadDigits(s: string, t: string, acc: nat)
    requires AllDigits(s) && (t == [] || !IsDigit(t[0]))
    ensures NegativeDigits(s + t, 0 - acc) == 0 - Value(s, Decimal, acc)
  {
    if s == [] {
      assert s + t == t;
    } else {
      assert (s + t)[1..] == s[1..] + t;
      ReadDigits(s[1..], t, Times(acc, Decimal) + DigitValue(s[0]));
    }
  }

  lemma {:induction false} SkipBlanks(n: nat, t: string)
    requires t == [] || !IsSpace(t[0])
    ensures SkipSpace(Repeat(' ', n) + t) == t
  {
    if n == 0 {
      assert Repeat(' ', n) + t == t;
    } else {
      assert (Repeat(' ', n) + t)[1..] == Repeat(' ', n - 1) + t;
      SkipBlanks(n - 1, t);
    }
  }

  lemma {:induction false} SkipBlank(s: string, t: string)
    requires forall k | 0 <= k < |s| :: s[k] as int in {9, 10, 11, 12, 13, 32}
    requires t == [] || !IsSpace(t[0])
    ensures SkipSpace(s + t) == t
  {
    if s == [] {
      assert s + t == t;
    } else {
      assert (s + t)[1..] == s[1..] + t;
      SkipBlank(s[1..], t);
    }
  }

  /** atoi skips white space, takes a sign and reads the digits up to the first other character. */
  lemma AtoiOfParts(space: string, sign: string, digits: string, rest: string)
    requires forall k | 0 <= k < |space| :: space[k] as int in {9, 10, 11, 12, 13, 32}
    requires sign in {"", "+", "-"} && AllDigits(digits) && (rest == [] || !IsDigit(rest[0]))
    requires sign + digits == "" && rest != "" ==> !IsSpace(rest[0]) && rest[0] != '+' && rest[0] != '-'
    ensures var n: int := Value(digits, Decimal, 0);
            AtoiOf(space + (sign + (digits + rest))) == if sign == "-" then 0 - n else n
  {
    var u := digits + rest;
    ReadDigits(digits, rest, 0);
    if sign == "" {
      assert sign + u == u;
      if digits == "" { assert u == rest; }
    } else {
      assert (sign + u)[1..] == u;
    }
    SkipBlank(space, sign + u);
  }

  lemma {:induction false} DecimalDigits(v: nat, cnt: nat)
    ensures AllDigits(DigitsReversed(v, Decimal, false, cnt))
    decreases v
  {
    if v > 0 {
      DecimalDigits(Over(v, Decimal), cnt + 1);
    }
  }

  lemma {:induction false} ReverseDigits(s: string)
    requires AllDigits(s)
    ensures AllDigits(Reverse(s)) && WithoutCommas(Reverse(s)) == Reverse(s)
  {
    if s != [] {
      ReverseDigits(s[1..]);
      CommasAppend(Reverse(s[1..]), [s[0]]);
    }
  }

  lemma {:induction false} LeadingZeros(n: nat, s: string, b: Base)
    ensures Value(Repeat('0', n) + s, b, 0) == Value(s, b, 0)
  {
    if n == 0 {
      assert Repeat('0', n) + s == s;
    } else {
      assert (Repeat('0', n) + s)[1..] == Repeat('0', n - 1) + s;
      LeadingZeros(n - 1, s, b);
    }
  }

  /** The body of a decimal conversion without grouping: digits that denote the value. */
  lemma DecimalBody(v: nat, c: Conversion)
    requires !c.flags.group
    ensures AllDigits(Reverse(Buffer(v, Decimal, c))) && Value(Reverse(Buffer(v, Decimal, c)), Decimal, 0) == v
  {
    DecimalDigits(v, 0);
    ReverseDigits(Buffer(v, Decimal, c));
    TextDenotes(v, Decimal, c);
  }

  lemma {:induction false} OnlyBlanks(n: nat)
    ensures SkipSpace(Repeat(' ', n)) == []
  {
    if n > 0 {
      OnlyBlanks(n - 1);
      assert Repeat(' ', n)[1..] == Repeat(' ', n - 1);
    }
  }

  lemma ReadWithSign(a: nat, sign: char, rest: string, n: nat)
    requires (sign == '+' || sign == '-') && NegativeDigits(rest, 0) == 0 - n
    ensures AtoiOf(Repeat(' ', a) + ([sign] + rest)) == if sign == '-' then 0 - n else n
  {
    SkipBlanks(a, [sign] + rest);
    assert ([sign] + rest)[1..] == rest;
  }

  lemma {:induction false} ReadUnsigned(a: nat, t: string, n: nat)
    requires t != [] && IsDigit(t[0]) && NegativeDigits(t, 0) == 0 - n
    ensures AtoiOf(Repeat(' ', a) + t) == n
  {
    SkipBlanks(a, t);
  }

  lemma ReadBlanks(a: nat, b: nat)
    ensures AtoiOf(Repeat(' ', a) + Repeat(' ', b)) == 0
  {
    assert Repeat(' ', a) + Repeat(' ', b) == Repeat(' ', a + b);
    OnlyBlanks(a + b);
  }

  /** Blanks, perhaps a sign, digits and blanks: atoi reads the number. */
  lemma ReadSigned(a: nat, sign: string, digits: string, b: nat, v: int)
    requires AllDigits(digits) && Value(digits, Decimal, 0) == (if v < 0 then -v else v)
    requires sign == "-" || (v >= 0 && (sign == "" || sign == "+"))
    requires sign == "-" ==> v < 0
    ensures AtoiOf(Repeat(' ', a) + (sign + (digits + Repeat(' ', b)))) == v
  {
    var rest := digits + Repeat(' ', b);
    ReadDigits(digits, Repeat(' ', b), 0);
    if sign == "" && digits == "" {
      assert sign + rest == Repeat(' ', b);
      ReadBlanks(a, b);
    } else if sign == "" {
      assert sign + rest == rest && rest[0] == digits[0];
      ReadUnsigned(a, rest, v);
    } else {
      ReadWithSign(a, sign[0], rest, if v < 0 then -v else v);
      assert sign == [sign[0]];
    }
  }

  /** The blank that the space flag asks for is skipped with the padding. */
  lemma ReadAnySign(a: nat, flags: Flags, digits: string, b: nat, v: int)
    requires AllDigits(digits) && Value(digits, Decimal, 0) == (if v < 0 then -v else v)
    ensures AtoiOf(Repeat(' ', a) + (SignOf(true, v < 0, flags) + (digits + Repeat(' ', b)))) == v
  {
    var sign, rest := SignOf(true, v < 0, flags), digits + Repeat(' ', b);
    if sign == " " {
      assert Repeat(' ', a) + (sign + rest) == Repeat(' ', a + 1) + ("" + rest);
      ReadSigned(a + 1, "", digits, b, v);
    } else {
      ReadSigned(a, sign, digits, b, v);
    }
  }

  /** Shape of a decimal text. */
  lemma DecimalText(left: string, sign: string, zeros: string, body: string, right: string)
    ensures left + sign + "" + zeros + body + right == left + (sign + ((zeros + body) + right))
  {
  }

  lemma ZerosAndBody(m: nat, c: Conversion, zeros: nat, digits: string)
    requires !c.flags.group && digits == Repeat('0', zeros) + Reverse(Buffer(m, Decimal, c))
    ensures AllDigits(digits) && Value(digits, Decimal, 0) == m
  {
    DecimalBody(m, c);
    LeadingZeros(zeros, Reverse(Buffer(m, Decimal, c)), Decimal);
  }

  /** Reading back: for every int and every %d conversion without grouping, whatever its width, precision, sign
      and zero flags, atoi of the text is the int. */
  lemma AtoiReadsBack(v: int, c: Conversion)
    requires !c.flags.group
    ensures AtoiOf(Text(if v < 0 then -v else v, true, v < 0, Decimal, c)) == v
  {
    var m := if v < 0 then -v else v;
    var pad := PadCount(m, true, v < 0, Decimal, c);
    var a := if !c.flags.minus && !c.flags.zero then pad else 0;
    var z := if c.flags.zero then pad else 0;
    var b := if c.flags.minus then pad else 0;
    var body, sign := Reverse(Buffer(m, Decimal, c)), SignOf(true, v < 0, c.flags);
    DecimalText(Repeat(' ', a), sign, Repeat('0', z), body, Repeat(' ', b));
    ZerosAndBody(m, c, z, Repeat('0', z) + body);
    ReadAnySign(a, c.flags, Repeat('0', z) + body, b, v);
    assert Prefix(m, Decimal, c.flags) == "";
  }

  /** printf ("%d") followed by atoi, on the machine. */
  method FormatThenAtoi(v: int, c: Conversion) returns (r: int)
    requires -0x8000_0000 <= v < 0x8000_0000 && !c.flags.group
    ensures r == v
  {
    ghost var parts;
    var text;
    text, parts := FormatInteger(if v < 0 then -v else v, true, v < 0, Decimal, c);
    r := Atoi(text);
    AtoiReadsBack(v, c);
  }
}
