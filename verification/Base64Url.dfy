/** base64url without padding (section 5 of RFC 4648), and Python's lenient decoder. */
module Base64Url {

  type Byte = b: int | 0 <= b < 256
  type Bytes = seq<Byte>
  type Sextet = n: int | 0 <= n < 64

  function CharOf(n: Sextet): char {
    if n < 26 then ('A' as int + n) as char
    else if n < 52 then ('a' as int + n - 26) as char
    else if n < 62 then ('0' as int + n - 52) as char
    else if n == 62 then '-' else '_'
  }

  predicate InAlphabet(c: char) {
    'A' <= c <= 'Z' || 'a' <= c <= 'z' || '0' <= c <= '9' || c == '-' || c == '_'
  }

  /** The four characters of a full group. */
  function Group(a: Byte, b: Byte, c: Byte): string {
    [CharOf(a / 4), CharOf(a % 4 * 16 + b / 16), CharOf(b % 16 * 4 + c / 64), CharOf(c % 64)]
  }

  /** `urlsafe_b64encode`: four characters for three bytes, padded at the end. */
  function Padded(value: Bytes): string {
    if value == [] then ""
    else if |value| == 1 then
      [CharOf(value[0] / 4), CharOf(value[0] % 4 * 16), '=', '=']
    else if |value| == 2 then
      [CharOf(value[0] / 4), CharOf(value[0] % 4 * 16 + value[1] / 16), CharOf(value[1] % 16 * 4), '=']
    else
      Group(value[0], value[1], value[2]) + Padded(value[3..])
  }

  /** `rstrip(b"=")`. */
  function StripPad(s: string): string {
    if s != "" && s[|s| - 1] == '=' then StripPad(s[..|s| - 1]) else s
  }

  /** `_b64url_encode`. */
  function Encode(value: Bytes): string {
    StripPad(Padded(value))
  }

  datatype Decoded = Ok(bytes: Bytes) | Malformed | NotAscii

  /** The decoder's table, after '-' and '_' were translated to '+' and '/'. */
  function ValueOf(c: char): (n: int)
    ensures -1 <= n < 64
  {
    if 'A' <= c <= 'Z' then c as int - 'A' as int
    else if 'a' <= c <= 'z' then c as int - 'a' as int + 26
    else if '0' <= c <= '9' then c as int - '0' as int + 52
    else if c == '-' || c == '+' then 62
    else if c == '_' || c == '/' then 63
    else -1
  }

  function Prepend(b: Byte, d: Decoded): Decoded {
    match d case Ok(bytes) => Ok([b] + bytes) case _ => d
  }

  /** `binascii.a2b_base64` in its non-strict mode: characters outside the alphabet are skipped,
      and a completed pad ends the input. `quad` is the position in the group of four, `left`
      the bits carried over, `pads` the pad characters seen in a row. */
  function A2b(s: string, quad: nat, left: nat, pads: nat): Decoded
    requires quad <= 3 && left < 64
    requires (quad == 2 ==> left < 16) && (quad == 3 ==> left < 4)
  {
    if s == "" then (if quad == 0 then Ok([]) else Malformed)
    else if s[0] == '=' then
      if quad >= 2 && quad + pads + 1 >= 4 then Ok([])
      else A2b(s[1..], quad, left, if quad >= 2 then pads + 1 else pads)
    else
      var v := ValueOf(s[0]);
      if v < 0 then A2b(s[1..], quad, left, pads)
      else match quad
        case 0 => A2b(s[1..], 1, v, 0)
        case 1 => Prepend(left * 4 + v / 16, A2b(s[1..], 2, v % 16, 0))
        case 2 => Prepend(left * 16 + v / 4, A2b(s[1..], 3, v % 4, 0))
        case 3 => Prepend(left * 64 + v, A2b(s[1..], 0, 0, 0))
  }

  predicate Ascii(s: string) {
    forall c :: c in s ==> c as int < 128
  }

  /** The padding `-len(s) % 4` brings back. */
  function Pad(s: string): string {
    seq(-|s| % 4, i => '=')
  }

  /** `_b64url_decode`. */
  function Decode(s: string): Decoded {
    if Ascii(s) then A2b(s + Pad(s), 0, 0, 0) else NotAscii
  }

  // ---------------------------------------------------------------- laws

  /** A single character carries six bits: too few for a byte. */
  lemma OneCharacterIsMalformed()
    ensures Decode("A") == Malformed
  {
    assert Pad("A") == "===";
    assert "A" + Pad("A") == "A===";
    assert "A==="[1..] == "===" && "==="[1..] == "==" && "=="[1..] == "=" && "="[1..] == "";
  }

  lemma ValueOfChar(n: Sextet)
    ensures ValueOf(CharOf(n)) == n && InAlphabet(CharOf(n)) && CharOf(n) != '='
  {}

  lemma PaddingOfTail(value: Bytes)
    requires 1 <= |value| <= 2
    ensures Padded(value) == Encode(value) + Pad(Encode(value))
    ensures |Encode(value)| == |value| + 1
    ensures forall c :: c in Encode(value) ==> InAlphabet(c)
  {
    var s := Padded(value);
    if |value| == 1 {
      ValueOfChar(value[0] / 4);
      ValueOfChar(value[0] % 4 * 16);
      assert s[..3][..2] == s[..2];
      assert StripPad(s) == StripPad(s[..3]) == StripPad(s[..2]) == s[..2];
    } else {
      ValueOfChar(value[0] / 4);
      ValueOfChar(value[0] % 4 * 16 + value[1] / 16);
      ValueOfChar(value[1] % 16 * 4);
      assert StripPad(s) == StripPad(s[..3]) == s[..3];
    }
  }

  lemma GroupChars(a: Byte, b: Byte, c: Byte)
    ensures forall i :: 0 <= i < 4 ==> InAlphabet(Group(a, b, c)[i])
  {
    ValueOfChar(a / 4);
    ValueOfChar(a % 4 * 16 + b / 16);
    ValueOfChar(b % 16 * 4 + c / 64);
    ValueOfChar(c % 64);
  }

  ghost predicate Completes(p: string, s: string) {
    p == s + Pad(s) && |s| % 4 != 1
  }

  /** Stripping p removes padding only, and `Pad` puts exactly it back. */
  ghost predicate Restorable(p: string) {
    Completes(p, StripPad(p))
  }

  lemma {:induction false} PaddedIsRestorable(value: Bytes)
    ensures Restorable(Padded(value))
  {
    if 1 <= |value| <= 2 {
      PaddingOfTail(value);
    } else if |value| >= 3 {
      PaddedIsRestorable(value[3..]);
      GroupChars(value[0], value[1], value[2]);
      PaddingStep(Group(value[0], value[1], value[2]), Padded(value[3..]));
    }
  }

  /** The encoded length is never 1 modulo 4, and decoding restores exactly the stripped padding. */
  lemma PaddingReturns(value: Bytes)
    ensures Padded(value) == Encode(value) + Pad(Encode(value))
    ensures |Encode(value)| % 4 != 1
  {
    PaddedIsRestorable(value);
  }

  lemma {:induction false} OnlyAlphabet(value: Bytes)
    ensures forall c :: c in Encode(value) ==> InAlphabet(c)
  {
    if 1 <= |value| <= 2 {
      PaddingOfTail(value);
    } else if |value| >= 3 {
      OnlyAlphabet(value[3..]);
      GroupChars(value[0], value[1], value[2]);
      StripBehind(Group(value[0], value[1], value[2]), Padded(value[3..]));
    }
  }

  lemma PaddingStep(group: string, rest: string)
    requires |group| == 4 && InAlphabet(group[3]) && Restorable(rest)
    ensures Restorable(group + rest)
  {
    StripBehind(group, rest);
    CompletesBehind(group, rest, StripPad(rest));
  }

  lemma CompletesBehind(group: string, rest: string, s: string)
    requires |group| == 4 && Completes(rest, s)
    ensures Completes(group + rest, group + s)
  {
    PadBehind(group, s);
    assert |group + s| % 4 == |s| % 4;
  }

  lemma PadBehind(group: string, s: string)
    requires |group| == 4
    ensures group + (s + Pad(s)) == (group + s) + Pad(group + s)
  {}

  lemma {:induction false} StripBehind(a: string, b: string)
    requires a == "" || a[|a| - 1] != '='
    ensures StripPad(a + b) == a + StripPad(b)
  {
    if b == "" {
      assert a + b == a;
    } else if b[|b| - 1] == '=' {
      StripBehind(a, b[..|b| - 1]);
      assert (a + b)[..|a + b| - 1] == a + b[..|b| - 1];
    }
  }

  lemma {:induction false} DecodePadded(value: Bytes)
    ensures A2b(Padded(value), 0, 0, 0) == Ok(value)
  {
    if |value| == 1 {
      DecodeOne(value[0]);
      assert value == [value[0]];
    } else if |value| == 2 {
      DecodeTwo(value[0], value[1]);
      assert value == [value[0], value[1]];
    } else if |value| >= 3 {
      DecodePadded(value[3..]);
      DecodeGroup(value[0], value[1], value[2], Padded(value[3..]));
      PrependThree(value[0], value[1], value[2], value[3..]);
      assert value == [value[0], value[1], value[2]] + value[3..];
    }
  }

  lemma PrependThree(a: Byte, b: Byte, c: Byte, rest: Bytes)
    ensures Prepend(a, Prepend(b, Prepend(c, Ok(rest)))) == Ok([a, b, c] + rest)
  {
    assert [b] + ([c] + rest) == [b, c] + rest;
    assert [a] + ([b, c] + rest) == [a, b, c] + rest;
  }

  predicate Known(c: char) {
    ValueOf(c) >= 0
  }

  function Value(c: char): Sextet
    requires Known(c)
  {
    ValueOf(c)
  }

  lemma FirstChar(c: char, rest: string)
    requires Known(c)
    ensures A2b([c] + rest, 0, 0, 0) == A2b(rest, 1, Value(c), 0)
  {
    assert ([c] + rest)[1..] == rest;
  }

  lemma SecondChar(left: Sextet, c: char, rest: string)
    requires Known(c)
    ensures A2b([c] + rest, 1, left, 0) == Prepend(left * 4 + Value(c) / 16, A2b(rest, 2, Value(c) % 16, 0))
  {
    assert ([c] + rest)[1..] == rest;
  }

  lemma ThirdChar(left: nat, c: char, rest: string)
    requires left < 16 && Known(c)
    ensures A2b([c] + rest, 2, left, 0) == Prepend(left * 16 + Value(c) / 4, A2b(rest, 3, Value(c) % 4, 0))
  {
    assert ([c] + rest)[1..] == rest;
  }

  lemma FourthChar(left: nat, c: char, rest: string)
    requires left < 4 && Known(c)
    ensures A2b([c] + rest, 3, left, 0) == Prepend(left * 64 + Value(c), A2b(rest, 0, 0, 0))
  {
    assert ([c] + rest)[1..] == rest;
  }

  lemma TwoChars(c0: char, c1: char)
    requires Known(c0) && Known(c1)
    ensures A2b([c0] + ([c1] + "=="), 0, 0, 0) == Ok([Value(c0) * 4 + Value(c1) / 16])
  {
    FirstChar(c0, [c1] + "==");
    SecondChar(Value(c0), c1, "==");
    assert A2b("==", 2, Value(c1) % 16, 0) == A2b("=="[1..], 2, Value(c1) % 16, 1) == Ok([]);
  }

  lemma ThreeChars(c0: char, c1: char, c2: char, b0: Byte, b1: Byte)
    requires Known(c0) && Known(c1) && Known(c2)
    requires b0 == Value(c0) * 4 + Value(c1) / 16 && b1 == Value(c1) % 16 * 16 + Value(c2) / 4
    ensures A2b([c0] + ([c1] + ([c2] + "=")), 0, 0, 0) == Ok([b0, b1])
  {
    FirstChar(c0, [c1] + ([c2] + "="));
    SecondChar(Value(c0), c1, [c2] + "=");
    ThirdChar(Value(c1) % 16, c2, "=");
    assert A2b("=", 3, Value(c2) % 4, 0) == Ok([]);
  }

  lemma DecodeOne(a: Byte)
    ensures A2b(Padded([a]), 0, 0, 0) == Ok([a])
  {
    var c0, c1 := CharOf(a / 4), CharOf(a % 4 * 16);
    ValueOfChar(a / 4);
    ValueOfChar(a % 4 * 16);
    assert Padded([a]) == [c0] + ([c1] + "==");
    TwoChars(c0, c1);
  }

  lemma DecodeTwo(a: Byte, b: Byte)
    ensures A2b(Padded([a, b]), 0, 0, 0) == Ok([a, b])
  {
    var n0, n1, n2 := a / 4, a % 4 * 16 + b / 16, b % 16 * 4;
    ValueOfChar(n0);
    ValueOfChar(n1);
    ValueOfChar(n2);
    ThreeChars(CharOf(n0), CharOf(n1), CharOf(n2), a, b);
    assert Padded([a, b]) == [CharOf(n0)] + ([CharOf(n1)] + ([CharOf(n2)] + "="));
  }

  lemma InTurn(a: char, b: char, c: char, d: char, rest: string)
    ensures [a, b, c, d] + rest == [a] + ([b] + ([c] + ([d] + rest)))
  {}

  /** Four characters give the three bytes b0, b1 and b2. */
  lemma FourChars(c0: char, c1: char, c2: char, c3: char, rest: string, b0: Byte, b1: Byte, b2: Byte)
    requires Known(c0) && Known(c1) && Known(c2) && Known(c3)
    requires b0 == Value(c0) * 4 + Value(c1) / 16
    requires b1 == Value(c1) % 16 * 16 + Value(c2) / 4
    requires b2 == Value(c2) % 4 * 64 + Value(c3)
    ensures A2b([c0, c1, c2, c3] + rest, 0, 0, 0) ==
            Prepend(b0, Prepend(b1, Prepend(b2, A2b(rest, 0, 0, 0))))
  {
    InTurn(c0, c1, c2, c3, rest);
    FirstChar(c0, [c1] + ([c2] + ([c3] + rest)));
    SecondChar(Value(c0), c1, [c2] + ([c3] + rest));
    LastTwoChars(Value(c1) % 16, c2, c3, rest);
  }

  lemma LastTwoChars(left: nat, c2: char, c3: char, rest: string)
    requires left < 16 && Known(c2) && Known(c3)
    ensures A2b([c2] + ([c3] + rest), 2, left, 0) ==
            Prepend(left * 16 + Value(c2) / 4, Prepend(Value(c2) % 4 * 64 + Value(c3), A2b(rest, 0, 0, 0)))
  {
    ThirdChar(left, c2, [c3] + rest);
    FourthChar(Value(c2) % 4, c3, rest);
  }

  lemma SextetsOf(a: Byte, b: Byte, c: Byte)
    ensures var n0, n1, n2, n3 := a / 4, a % 4 * 16 + b / 16, b % 16 * 4 + c / 64, c % 64;
            n0 * 4 + n1 / 16 == a && n1 % 16 * 16 + n2 / 4 == b && n2 % 4 * 64 + n3 == c
  {}

  lemma DecodeGroup(a: Byte, b: Byte, c: Byte, rest: string)
    ensures A2b(Group(a, b, c) + rest, 0, 0, 0) == Prepend(a, Prepend(b, Prepend(c, A2b(rest, 0, 0, 0))))
  {
    var n0, n1, n2, n3 := a / 4, a % 4 * 16 + b / 16, b % 16 * 4 + c / 64, c % 64;
    SextetsOf(a, b, c);
    ValueOfChar(n0);
    ValueOfChar(n1);
    ValueOfChar(n2);
    ValueOfChar(n3);
    FourChars(CharOf(n0), CharOf(n1), CharOf(n2), CharOf(n3), rest, a, b, c);
  }

  /** Every byte string comes back. */
  lemma RoundTrip(value: Bytes)
    ensures Decode(Encode(value)) == Ok(value)
  {
    PaddingReturns(value);
    NoSeparators(value);
    DecodePadded(value);
  }

  lemma Injective(a: Bytes, b: Bytes)
    requires Encode(a) == Encode(b)
    ensures a == b
  {
    RoundTrip(a);
    RoundTrip(b);
  }

  /** Neither separator of the formats built on it, nor padding, ever occurs. */
  lemma NoSeparators(value: Bytes)
    ensures '.' !in Encode(value) && '$' !in Encode(value) && '=' !in Encode(value) && Ascii(Encode(value))
  {
    OnlyAlphabet(value);
  }

  // ---------------------------------------------------------------- bit by bit

  /** The alphabet of the standard, in order. */
  lemma Alphabet(n: Sextet)
    ensures n < 26 ==> CharOf(n) as int == 'A' as int + n
    ensures 26 <= n < 52 ==> CharOf(n) as int == 'a' as int + (n - 26)
    ensures 52 <= n < 62 ==> CharOf(n) as int == '0' as int + (n - 52)
    ensures n == 62 ==> CharOf(n) == '-'
    ensures n == 63 ==> CharOf(n) == '_'
  {}

  /** The byte at a place, zero behind the end. */
  function ByteAt(value: Bytes, j: nat): Byte {
    if j < |value| then value[j] else 0
  }

  /** The six bits that start at bit 6i, in the two bytes around them. */
  function SixBits(value: Bytes, i: nat): Sextet {
    var pair := ByteAt(value, 6 * i / 8) * 256 + ByteAt(value, 6 * i / 8 + 1);
    match 6 * i % 8
    case 0 => pair / 1024
    case 6 => pair / 16 % 64
    case 4 => pair / 64 % 64
    case _ => pair / 256 % 64
  }

  lemma Divide64(q: int, r: int)
    requires 0 <= r < 64
    ensures (64 * q + r) / 64 == q && (64 * q + r) % 64 == r
  {}

  lemma Divide16(q: int, r: int)
    requires 0 <= r < 16
    ensures (16 * q + r) / 16 == q
  {}

  lemma FirstSix(a: Byte, b: Byte)
    ensures (a * 256 + b) / 1024 == a / 4
  {}

  lemma SecondSix(a: Byte, b: Byte)
    ensures (a * 256 + b) / 16 % 64 == a % 4 * 16 + b / 16
  {
    Divide16(a * 16 + b / 16, b % 16);
    Divide64(a / 4, a % 4 * 16 + b / 16);
  }

  lemma ThirdSix(b: Byte, c: Byte)
    ensures (b * 256 + c) / 64 % 64 == b % 16 * 4 + c / 64
  {
    Divide64(b * 4 + c / 64, c % 64);
    Divide64(b / 16, b % 16 * 4 + c / 64);
  }

  lemma FourthSix(c: Byte, d: Byte)
    ensures (c * 256 + d) / 256 % 64 == c % 64
  {
    assert (c * 256 + d) / 256 == c;
  }

  /** The first four sextets, by the first three bytes. */
  lemma SixBitsOfHead(value: Bytes, a: Byte, b: Byte, c: Byte)
    requires ByteAt(value, 0) == a && ByteAt(value, 1) == b && ByteAt(value, 2) == c
    ensures SixBits(value, 0) == a / 4 && SixBits(value, 1) == a % 4 * 16 + b / 16
    ensures SixBits(value, 2) == b % 16 * 4 + c / 64 && SixBits(value, 3) == c % 64
  {
    FirstSix(a, b);
    SecondSix(a, b);
    ThirdSix(b, c);
    FourthSix(c, ByteAt(value, 3));
  }

  lemma SixBitsShift(value: Bytes, i: nat)
    requires |value| >= 3 && i >= 4
    ensures SixBits(value, i) == SixBits(value[3..], i - 4)
  {
    assert 6 * i / 8 == 6 * (i - 4) / 8 + 3 && 6 * i % 8 == 6 * (i - 4) % 8;
  }

  /** Character i of the encoding stands for bits 6i to 6i+5, and there are just enough of them. */
  lemma {:induction false} EncodeMeaning(value: Bytes, i: nat)
    ensures |Encode(value)| == (4 * |value| + 2) / 3
    ensures i < |Encode(value)| ==> Encode(value)[i] == CharOf(SixBits(value, i))
  {
    if 1 <= |value| <= 2 {
      PaddingOfTail(value);
      EncodeTail(value);
    } else if |value| >= 3 {
      EncodeGroup(value);
      EncodeMeaning(value[3..], if i >= 4 then i - 4 else 0);
      if i >= 4 { SixBitsShift(value, i); }
    }
  }

  lemma EncodeGroup(value: Bytes)
    requires |value| >= 3
    ensures |Encode(value)| == 4 + |Encode(value[3..])|
    ensures forall i :: 0 <= i < 4 ==> Encode(value)[i] == CharOf(SixBits(value, i))
    ensures forall i :: 4 <= i < |Encode(value)| ==> Encode(value)[i] == Encode(value[3..])[i - 4]
  {
    var a, b, c, rest := value[0], value[1], value[2], value[3..];
    GroupChars(a, b, c);
    StripBehind(Group(a, b, c), Padded(rest));
    assert Encode(value) == Group(a, b, c) + Encode(rest);
    SixBitsOfHead(value, a, b, c);
  }

  lemma EncodeTail(value: Bytes)
    requires 1 <= |value| <= 2
    ensures forall i :: 0 <= i < |Encode(value)| ==> Encode(value)[i] == CharOf(SixBits(value, i))
  {
    PaddingOfTail(value);
    var s := Padded(value);
    assert forall i :: 0 <= i < |Encode(value)| ==> Encode(value)[i] == s[i];
    SixBitsOfHead(value, value[0], ByteAt(value, 1), 0);
  }

  ghost predicate AllKnown(s: string) {
    forall i :: 0 <= i < |s| ==> Known(s[i])
  }

  function SextetAt(s: string, j: nat): Sextet {
    if j < |s| && Known(s[j]) then Value(s[j]) else 0
  }

  /** The eight bits that start at bit 8k of a text, in the two characters around them. */
  function EightBits(s: string, k: nat): Byte {
    var pair := SextetAt(s, 8 * k / 6) * 64 + SextetAt(s, 8 * k / 6 + 1);
    match 8 * k % 6
    case 0 => pair / 16
    case 2 => pair / 4 % 256
    case _ => pair % 256
  }

  lemma Divide4(q: int, r: int)
    requires 0 <= r < 4
    ensures (4 * q + r) / 4 == q
  {}

  lemma Modulo256(q: int, r: int)
    requires 0 <= r < 256
    ensures (256 * q + r) % 256 == r
  {}

  lemma SecondEight(a: Sextet, b: Sextet)
    ensures (a * 64 + b) / 4 % 256 == a % 16 * 16 + b / 4
  {
    Divide4(a * 16 + b / 4, b % 4);
    Modulo256(a / 16, a % 16 * 16 + b / 4);
  }

  lemma ThirdEight(a: Sextet, b: Sextet)
    ensures (a * 64 + b) % 256 == a % 4 * 64 + b
  {
    Modulo256(a / 4, a % 4 * 64 + b);
  }

  lemma FirstEight(a: Sextet, b: Sextet)
    ensures (a * 64 + b) / 16 == a * 4 + b / 16
  {
    Divide16(a * 4 + b / 16, b % 16);
  }

  lemma EightBitsOfHead(s: string, a: Sextet, b: Sextet, c: Sextet, d: Sextet)
    requires SextetAt(s, 0) == a && SextetAt(s, 1) == b && SextetAt(s, 2) == c && SextetAt(s, 3) == d
    ensures EightBits(s, 0) == a * 4 + b / 16 && EightBits(s, 1) == b % 16 * 16 + c / 4
    ensures EightBits(s, 2) == c % 4 * 64 + d
  {
    EightBitsIn(s);
    FirstEight(a, b);
    SecondEight(b, c);
    ThirdEight(c, d);
  }

  lemma EightBitsIn(s: string)
    ensures EightBits(s, 0) == (SextetAt(s, 0) * 64 + SextetAt(s, 1)) / 16
    ensures EightBits(s, 1) == (SextetAt(s, 1) * 64 + SextetAt(s, 2)) / 4 % 256
    ensures EightBits(s, 2) == (SextetAt(s, 2) * 64 + SextetAt(s, 3)) % 256
  {}

  lemma EightBitsShift(s: string, k: nat)
    requires |s| >= 4 && k >= 3
    ensures EightBits(s, k) == EightBits(s[4..], k - 3)
  {
    assert 8 * k / 6 == 8 * (k - 3) / 6 + 4 && 8 * k % 6 == 8 * (k - 3) % 6;
  }

  /** The bytes of a text in the alphabet. */
  function BytesOf(s: string): Bytes {
    seq(3 * |s| / 4, k requires 0 <= k => EightBits(s, k))
  }

  lemma BytesOfGroup(s: string)
    requires |s| >= 4
    ensures BytesOf(s) == [EightBits(s, 0), EightBits(s, 1), EightBits(s, 2)] + BytesOf(s[4..])
  {
    forall k | 3 <= k < |BytesOf(s)| ensures BytesOf(s)[k] == BytesOf(s[4..])[k - 3] { EightBitsShift(s, k); }
  }

  /** The decoder on s with its padding. */
  ghost predicate DecodesToBits(s: string) {
    A2b(s + Pad(s), 0, 0, 0) == if |s| % 4 == 1 then Malformed else Ok(BytesOf(s))
  }

  lemma {:induction false} DecodeKnown(s: string)
    requires AllKnown(s)
    ensures DecodesToBits(s)
    decreases |s|
  {
    if |s| >= 4 {
      DecodeKnown(s[4..]);
      GroupDecodes(s);
    } else if |s| == 3 {
      LastThree(s);
    } else if |s| == 2 {
      LastTwo(s);
    } else if |s| == 1 {
      LastOne(s);
    } else {
      assert s + Pad(s) == "";
    }
  }

  lemma GroupDecodes(s: string)
    requires AllKnown(s) && |s| >= 4 && DecodesToBits(s[4..])
    ensures DecodesToBits(s)
  {
    var rest := s[4..];
    PadGroup(s);
    FourDecode(s, rest + Pad(rest));
    PrependThree(EightBits(s, 0), EightBits(s, 1), EightBits(s, 2), BytesOf(rest));
    BytesOfGroup(s);
  }

  lemma PadGroup(s: string)
    requires |s| >= 4
    ensures s + Pad(s) == [s[0], s[1], s[2], s[3]] + (s[4..] + Pad(s[4..]))
    ensures |s| % 4 == |s[4..]| % 4
  {
    assert Pad(s) == Pad(s[4..]);
  }

  lemma FourDecode(s: string, tail: string)
    requires AllKnown(s) && |s| >= 4
    ensures A2b([s[0], s[1], s[2], s[3]] + tail, 0, 0, 0) ==
            Prepend(EightBits(s, 0), Prepend(EightBits(s, 1), Prepend(EightBits(s, 2), A2b(tail, 0, 0, 0))))
  {
    EightBitsOfHead(s, Value(s[0]), Value(s[1]), Value(s[2]), Value(s[3]));
    FourChars(s[0], s[1], s[2], s[3], tail, EightBits(s, 0), EightBits(s, 1), EightBits(s, 2));
  }

  lemma LastThree(s: string)
    requires AllKnown(s) && |s| == 3
    ensures DecodesToBits(s)
  {
    EightBitsOfHead(s, Value(s[0]), Value(s[1]), Value(s[2]), 0);
    assert s + Pad(s) == [s[0]] + ([s[1]] + ([s[2]] + "="));
    ThreeChars(s[0], s[1], s[2], EightBits(s, 0), EightBits(s, 1));
    assert BytesOf(s) == [EightBits(s, 0), EightBits(s, 1)];
  }

  lemma LastTwo(s: string)
    requires AllKnown(s) && |s| == 2
    ensures DecodesToBits(s)
  {
    EightBitsOfHead(s, Value(s[0]), Value(s[1]), 0, 0);
    assert s + Pad(s) == [s[0]] + ([s[1]] + "==");
    TwoChars(s[0], s[1]);
    assert BytesOf(s) == [EightBits(s, 0)];
  }

  lemma LastOne(s: string)
    requires AllKnown(s) && |s| == 1
    ensures DecodesToBits(s)
  {
    assert s + Pad(s) == [s[0]] + "===";
    FirstChar(s[0], "===");
    var n := Value(s[0]);
    assert A2b("===", 1, n, 0) == A2b("==="[1..], 1, n, 0) && "==="[1..] == "==";
    assert A2b("==", 1, n, 0) == A2b("=="[1..], 1, n, 0) && "=="[1..] == "=";
    assert A2b("=", 1, n, 0) == A2b("="[1..], 1, n, 0) && "="[1..] == "";
  }

  /** What a text of known characters decodes to: its bits, eight at a time; only a lone last
      character is malformed. */
  lemma DecodeMeaning(s: string, k: nat)
    requires AllKnown(s)
    ensures Decode(s).Ok? <==> |s| % 4 != 1
    ensures Decode(s).Ok? ==> |Decode(s).bytes| == 3 * |s| / 4
    ensures Decode(s).Ok? && k < 3 * |s| / 4 ==> Decode(s).bytes[k] == EightBits(s, k)
    ensures |s| % 4 == 1 ==> Decode(s) == Malformed
  {
    DecodeKnown(s);
    assert Ascii(s);
  }

  /** A character that is neither in the alphabet nor a pad is skipped wherever it stands. */
  lemma {:induction false} ForeignIsSkipped(a: string, c: char, b: string, quad: nat, left: nat, pads: nat)
    requires quad <= 3 && left < 64 && (quad == 2 ==> left < 16) && (quad == 3 ==> left < 4)
    requires ValueOf(c) < 0 && c != '='
    ensures A2b(a + [c] + b, quad, left, pads) == A2b(a + b, quad, left, pads)
    decreases |a|
  {
    if a == "" {
      assert (a + [c] + b)[1..] == b && a + b == b;
    } else {
      var s, t := a + [c] + b, a + b;
      assert s[1..] == a[1..] + [c] + b && t[1..] == a[1..] + b;
      if a[0] == '=' {
        ForeignIsSkipped(a[1..], c, b, quad, left, if quad >= 2 then pads + 1 else pads);
      } else {
        var v := ValueOf(a[0]);
        if v < 0 {
          ForeignIsSkipped(a[1..], c, b, quad, left, pads);
        } else {
          var next := if quad == 0 then v else if quad == 1 then v % 16 else if quad == 2 then v % 4 else 0;
          ForeignIsSkipped(a[1..], c, b, (quad + 1) % 4, next, 0);
        }
      }
    }
  }
}
