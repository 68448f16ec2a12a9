/** The Base 64 encoding of section 4 of RFC 4648, read back with an accumulator that skips other characters. */
module Base64 {
  import opened Bytes

  type sextet = x: int | 0 <= x < 64

  function Char(d: sextet): char {
    if d < 26 then (d + 'A' as int) as char
    else if d < 52 then (d - 26 + 'a' as int) as char
    else if d < 62 then (d - 52 + '0' as int) as char
    else if d == 62 then '+' else '/'
  }

  function Value(c: char): (d: int)
    ensures -1 <= d < 64
  {
    if 'A' <= c <= 'Z' then c as int - 'A' as int
    else if 'a' <= c <= 'z' then c as int - 'a' as int + 26
    else if '0' <= c <= '9' then c as int - '0' as int + 52
    else if c == '+' then 62
    else if c == '/' then 63
    else -1
  }

  function Encode(d: bytes): string {
    if d == [] then []
    else
      var b := if |d| > 1 then d[1] else 0;
      var c := if |d| > 2 then d[2] else 0;
      var (x, y, z, w) := Sextets(d[0], b, c);
      if |d| == 1 then [Char(x), Char(y), '=', '=']
      else if |d| == 2 then [Char(x), Char(y), Char(z), '=']
      else [Char(x), Char(y), Char(z), Char(w)] + Encode(d[3..])
  }

  /** The bits that are still to be handed out, as a number below 1, 4, 16 or 64. */
  datatype Accumulator = Bits0 | Bits2(b2: nat) | Bits4(b4: nat) | Bits6(b6: nat)

  ghost predicate Ready(acc: Accumulator) {
    match acc case Bits0 => true case Bits2(b) => b < 4 case Bits4(b) => b < 16 case Bits6(b) => b < 64
  }

  /** Six more bits: as soon as there are eight, a byte is handed out. Other characters are skipped. */
  function Feed(acc: Accumulator, c: char): (r: (bytes, Accumulator))
    requires Ready(acc)
    ensures Ready(r.1)
  {
    var d := Value(c);
    if d == -1 then ([], acc)
    else
      match acc
      case Bits0 => ([], Bits6(d))
      case Bits2(b) => ([(b * 64 + d) as byte], Bits0)
      case Bits4(b) => ([(b * 16 + d / 4) as byte], Bits2(d % 4))
      case Bits6(b) => ([(b * 4 + d / 16) as byte], Bits4(d % 16))
  }

  function DecodeFrom(acc: Accumulator, s: string): bytes
    requires Ready(acc)
    decreases s
  {
    if s == [] then []
    else
      var (out, acc') := Feed(acc, s[0]);
      out + DecodeFrom(acc', s[1..])
  }

  function Decode(s: string): bytes {
    DecodeFrom(Bits0, s)
  }

  lemma DecodeStep(acc: Accumulator, c: char, rest: string)
    requires Ready(acc)
    ensures DecodeFrom(acc, [c] + rest) == Feed(acc, c).0 + DecodeFrom(Feed(acc, c).1, rest)
  {
    assert ([c] + rest)[1..] == rest;
  }

  lemma PaddingIsSkipped(acc: Accumulator)
    requires Ready(acc)
    ensures DecodeFrom(acc, ['=']) == [] && DecodeFrom(acc, ['=', '=']) == []
  {
    DecodeStep(acc, '=', []);
    DecodeStep(acc, '=', ['=']);
    assert ['='] + [] == ['='] && ['='] + ['='] == ['=', '='];
  }

  lemma CharRoundTrip(d: sextet)
    ensures Value(Char(d)) == d
  {
  }

  /** Two characters carry the first byte, whatever follows. */
  lemma DecodeTwo(x: sextet, y: sextet, rest: string)
    ensures Decode([Char(x), Char(y)] + rest) == [(x * 4 + y / 16) as byte] + DecodeFrom(Bits4(y % 16), rest)
  {
    CharRoundTrip(x);
    CharRoundTrip(y);
    var second := [Char(y)] + rest;
    DecodeStep(Bits0, Char(x), second);
    DecodeStep(Bits6(x), Char(y), rest);
    assert [Char(x), Char(y)] + rest == [Char(x)] + second;
  }

  lemma DecodeThird(y: nat, z: sextet, rest: string)
    requires y < 16
    ensures DecodeFrom(Bits4(y), [Char(z)] + rest) == [(y * 16 + z / 4) as byte] + DecodeFrom(Bits2(z % 4), rest)
  {
    CharRoundTrip(z);
    DecodeStep(Bits4(y), Char(z), rest);
  }

  lemma DecodeFourth(z: nat, w: sextet, rest: string)
    requires z < 4
    ensures DecodeFrom(Bits2(z), [Char(w)] + rest) == [(z * 64 + w) as byte] + Decode(rest)
  {
    CharRoundTrip(w);
    DecodeStep(Bits2(z), Char(w), rest);
  }

  /** Regrouping three times eight bits as four times six loses nothing. */
  lemma Regrouped(a: byte, b: byte, c: byte)
    ensures var (x, y, z, w) := Sextets(a, b, c);
            && x * 4 + y / 16 == a as int && y % 16 * 16 + z / 4 == b as int && z % 4 * 64 + w == c as int
  {
  }

  function Sextets(a: byte, b: byte, c: byte): (sextet, sextet, sextet, sextet) {
    (a as int / 4, a as int % 4 * 16 + b as int / 16, b as int % 16 * 4 + c as int / 64, c as int % 64)
  }

  /** Four characters carry three bytes and leave the accumulator empty. */
  lemma DecodeGroup(a: byte, b: byte, c: byte, rest: string)
    ensures var (x, y, z, w) := Sextets(a, b, c);
            Decode([Char(x), Char(y), Char(z), Char(w)] + rest) == [a, b, c] + Decode(rest)
  {
    var (x, y, z, w) := Sextets(a, b, c);
    Regrouped(a, b, c);
    var fourth := [Char(w)] + rest;
    var third := [Char(z)] + fourth;
    DecodeTwo(x, y, third);
    DecodeThird(y % 16, z, fourth);
    DecodeFourth(z % 4, w, rest);
    assert [Char(x), Char(y), Char(z), Char(w)] + rest == [Char(x), Char(y)] + third;
    Three(a, b, c, Decode(rest));
  }

  lemma Three<T>(a: T, b: T, c: T, rest: seq<T>)
    ensures [a] + ([b] + ([c] + rest)) == [a, b, c] + rest
  {
  }

  lemma EncodeGroup(d: bytes)
    requires |d| >= 3
    ensures var (x, y, z, w) := Sextets(d[0], d[1], d[2]);
            Encode(d) == [Char(x), Char(y), Char(z), Char(w)] + Encode(d[3..])
  {
  }

  lemma EncodeTwo(a: byte, b: byte)
    ensures var (x, y, z, w) := Sextets(a, b, 0);
            Encode([a, b]) == [Char(x), Char(y)] + ([Char(z)] + ['='])
  {
  }

  lemma TailOfTwo(a: byte, b: byte)
    ensures Decode(Encode([a, b])) == [a, b]
  {
    var (x, y, z, w) := Sextets(a, b, 0);
    Regrouped(a, b, 0);
    EncodeTwo(a, b);
    DecodeTwo(x, y, [Char(z)] + ['=']);
    DecodeThird(y % 16, z, ['=']);
    PaddingIsSkipped(Bits2(z % 4));
  }

  lemma EncodeOne(p: byte)
    ensures var (x, y, z, w) := Sextets(p, 0, 0);
            Encode([p]) == [Char(x), Char(y)] + ['=', '=']
  {
  }

  lemma TailOfOne(p: byte)
    ensures Decode(Encode([p])) == [p]
  {
    var (x, y, z, w) := Sextets(p, 0, 0);
    Regrouped(p, 0, 0);
    EncodeOne(p);
    DecodeTwo(x, y, ['=', '=']);
    PaddingIsSkipped(Bits4(y % 16));
  }

  lemma {:induction false} RoundTrip(d: bytes)
    ensures Decode(Encode(d)) == d
    ensures d != [] ==> Encode(d) != []
  {
    if |d| >= 3 {
      RoundTrip(d[3..]);
      EncodeGroup(d);
      DecodeGroup(d[0], d[1], d[2], Encode(d[3..]));
      assert d == [d[0], d[1], d[2]] + d[3..];
    } else if |d| == 2 {
      TailOfTwo(d[0], d[1]);
      assert d == [d[0], d[1]];
    } else if |d| == 1 {
      TailOfOne(d[0]);
      assert d == [d[0]];
    }
  }

  // ---- the alphabet ----------------------------------------------------------------------------

  const UPPER := "ABCDEFGHIJKLMNOPQRSTUVWXYZ"
  const LOWER := "abcdefghijklmnopqrstuvwxyz"
  const DIGITS := "0123456789"

  /** Table 1 of section 4 of RFC 4648. */
  lemma CharsOfAlphabet(d: sextet)
    ensures Char(d) == if d < 26 then UPPER[d] else if d < 52 then LOWER[d - 26]
                       else if d < 62 then DIGITS[d - 52] else "+/"[d - 62]
  {
  }

  lemma EncodeTail(d: bytes)
    requires 0 < |d| < 3
    ensures |Encode(d)| == 4
  {
  }

  /** Four characters for every three bytes, or part of three. */
  lemma {:induction false} EncodedLength(d: bytes)
    ensures |Encode(d)| == (|d| + 2) / 3 * 4
  {
    if |d| >= 3 {
      EncodedLength(d[3..]);
      EncodeGroup(d);
    } else if d != [] {
      EncodeTail(d);
    }
  }

  /** A group as one number: 24 bits, in base 256 and in base 64. */
  lemma GroupDenotes(a: byte, b: byte, c: byte)
    ensures var (x, y, z, w) := Sextets(a, b, c);
            ((x * 64 + y) * 64 + z) * 64 + w == (a as int * 256 + b as int) * 256 + c as int
  {
  }

  /** Three test vectors of section 10 of RFC 4648: two paddings, one, and none. */
  lemma TestVectors()
    ensures Encode([102]) == ['Z', 'g', '=', '='] && Encode([102, 111]) == ['Z', 'm', '8', '=']
    ensures Encode([102, 111, 111]) == ['Z', 'm', '9', 'v']
  {
    EncodeOne(102);
    EncodeTwo(102, 111);
    EncodeGroup([102, 111, 111]);
    assert [102, 111, 111][3..] == [];
  }

  /** Characters outside the alphabet are skipped, wherever they stand. */
  lemma {:induction false} OthersAreSkipped(acc: Accumulator, a: string, c: char, b: string)
    requires Ready(acc) && Value(c) == -1
    ensures DecodeFrom(acc, a + [c] + b) == DecodeFrom(acc, a + b)
    decreases a
  {
    if a == [] {
      assert a + [c] + b == [c] + b && a + b == b;
      DecodeStep(acc, c, b);
    } else {
      var acc' := Feed(acc, a[0]).1;
      OthersAreSkipped(acc', a[1..], c, b);
      DecodeStep(acc, a[0], a[1..] + [c] + b);
      DecodeStep(acc, a[0], a[1..] + b);
      assert a + [c] + b == [a[0]] + (a[1..] + [c] + b) && a + b == [a[0]] + (a[1..] + b);
    }
  }
}
