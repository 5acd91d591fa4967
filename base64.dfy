/**
 * The base 64 encoding of section 4 of RFC 4648: the standard alphabet
 * (`A`-`Z`, `a`-`z`, `0`-`9`, `+`, `/`) and `=` padding of the final
 * quantum. The encoder works over 3-byte groups; the decoder is its
 * inverse and shows that the encoding loses nothing.
 */
module Base64 {

  type byte = x: int | 0 <= x < 256

  /** A 6-bit group: the index of one character of the alphabet. */
  type sextet = x: int | 0 <= x < 64

  /** The character that encodes `i` (Table 1 of RFC 4648). */
  function Symbol(i: sextet): (c: char)
    ensures IsSymbol(c) && c != '='
  {
    if i < 26 then ('A' as int + i) as char
    else if i < 52 then ('a' as int + (i - 26)) as char
    else if i < 62 then ('0' as int + (i - 52)) as char
    else if i == 62 then '+'
    else '/'
  }

  /** The characters of the alphabet. */
  predicate IsSymbol(c: char) {
    ('A' <= c <= 'Z') || ('a' <= c <= 'z') || ('0' <= c <= '9') || c == '+' || c == '/'
  }

  /** The index of a character of the alphabet (0 for any other character). */
  function IndexOf(c: char): sextet {
    if 'A' <= c <= 'Z' then c as int - 'A' as int
    else if 'a' <= c <= 'z' then c as int - 'a' as int + 26
    else if '0' <= c <= '9' then c as int - '0' as int + 52
    else if c == '+' then 62
    else if c == '/' then 63
    else 0
  }

  lemma IndexOfSymbol(i: sextet)
    ensures IndexOf(Symbol(i)) == i
  {
  }

  /** Three bytes, 24 bits, as four characters. */
  function EncodeGroup(b0: byte, b1: byte, b2: byte): seq<char> {
    [Symbol(b0 / 4), Symbol((b0 % 4) * 16 + b1 / 16), Symbol((b1 % 16) * 4 + b2 / 64), Symbol(b2 % 64)]
  }

  /** A final quantum of one byte: two characters and `==`. */
  function EncodeOne(b0: byte): seq<char> {
    [Symbol(b0 / 4), Symbol((b0 % 4) * 16), '=', '=']
  }

  /** A final quantum of two bytes: three characters and `=`. */
  function EncodeTwo(b0: byte, b1: byte): seq<char> {
    [Symbol(b0 / 4), Symbol((b0 % 4) * 16 + b1 / 16), Symbol((b1 % 16) * 4), '=']
  }

  /** The base 64 encoding of `b`: four characters for every started group of three bytes. */
  function Encode(b: seq<byte>): string
    decreases |b|
  {
    if |b| == 0 then []
    else if |b| == 1 then EncodeOne(b[0])
    else if |b| == 2 then EncodeTwo(b[0], b[1])
    else EncodeGroup(b[0], b[1], b[2]) + Encode(b[3..])
  }

  /** Four characters back to the one, two or three bytes they encode. */
  function DecodeGroup(s: string): seq<byte>
    requires |s| == 4
  {
    var i0, i1, i2, i3 := IndexOf(s[0]), IndexOf(s[1]), IndexOf(s[2]), IndexOf(s[3]);
    if s[2] == '=' && s[3] == '=' then [i0 * 4 + i1 / 16]
    else if s[3] == '=' then [i0 * 4 + i1 / 16, (i1 % 16) * 16 + i2 / 4]
    else [i0 * 4 + i1 / 16, (i1 % 16) * 16 + i2 / 4, (i2 % 4) * 64 + i3]
  }

  /** A base 64 text, four characters at a time, back to bytes (an incomplete last group is dropped). */
  function Decode(s: string): seq<byte>
    decreases |s|
  {
    if |s| < 4 then [] else DecodeGroup(s[..4]) + Decode(s[4..])
  }

  /** The encoding of `n` bytes has 4 * ceil(n / 3) characters. */
  lemma {:induction false} EncodeLength(b: seq<byte>)
    ensures |Encode(b)| == 4 * ((|b| + 2) / 3)
    decreases |b|
  {
    if |b| >= 3 {
      EncodeLength(b[3..]);
      assert |Encode(b)| == 4 + |Encode(b[3..])|;
    }
  }

  /** Dividing `hi * 16 + lo` by 16 gives back `hi` and `lo`. */
  lemma DivideBack16(hi: int, lo: int)
    requires 0 <= lo < 16
    ensures (hi * 16 + lo) / 16 == hi && (hi * 16 + lo) % 16 == lo
  {
  }

  /** Dividing `hi * 4 + lo` by 4 gives back `hi` and `lo`. */
  lemma DivideBack4(hi: int, lo: int)
    requires 0 <= lo < 4
    ensures (hi * 4 + lo) / 4 == hi && (hi * 4 + lo) % 4 == lo
  {
  }

  lemma GroupRoundTrip(b0: byte, b1: byte, b2: byte)
    ensures DecodeGroup(EncodeGroup(b0, b1, b2)) == [b0, b1, b2]
  {
    var i0, i1, i2, i3 := b0 / 4, (b0 % 4) * 16 + b1 / 16, (b1 % 16) * 4 + b2 / 64, b2 % 64;
    var g := EncodeGroup(b0, b1, b2);
    assert g == [Symbol(i0), Symbol(i1), Symbol(i2), Symbol(i3)];
    IndexOfSymbol(i0);
    IndexOfSymbol(i1);
    IndexOfSymbol(i2);
    IndexOfSymbol(i3);
    DivideBack16(b0 % 4, b1 / 16);
    DivideBack4(b1 % 16, b2 / 64);
    assert i0 * 4 + i1 / 16 == b0;
    assert (i1 % 16) * 16 + i2 / 4 == b1;
    assert (i2 % 4) * 64 + i3 == b2;
    assert DecodeGroup(g) == [i0 * 4 + i1 / 16, (i1 % 16) * 16 + i2 / 4, (i2 % 4) * 64 + i3];
  }

  lemma OneRoundTrip(b0: byte)
    ensures DecodeGroup(EncodeOne(b0)) == [b0]
  {
    var i0, i1 := b0 / 4, (b0 % 4) * 16;
    IndexOfSymbol(i0);
    IndexOfSymbol(i1);
    DivideBack16(b0 % 4, 0);
    assert DecodeGroup(EncodeOne(b0)) == [i0 * 4 + i1 / 16];
  }

  lemma TwoRoundTrip(b0: byte, b1: byte)
    ensures DecodeGroup(EncodeTwo(b0, b1)) == [b0, b1]
  {
    var i0, i1, i2 := b0 / 4, (b0 % 4) * 16 + b1 / 16, (b1 % 16) * 4;
    var g := EncodeTwo(b0, b1);
    assert g == [Symbol(i0), Symbol(i1), Symbol(i2), '='];
    IndexOfSymbol(i0);
    IndexOfSymbol(i1);
    IndexOfSymbol(i2);
    DivideBack16(b0 % 4, b1 / 16);
    DivideBack4(b1 % 16, 0);
    assert DecodeGroup(g) == [i0 * 4 + i1 / 16, (i1 % 16) * 16 + i2 / 4];
  }

  /** Decoding works group by group. */
  lemma DecodeAppend(g: string, rest: string)
    requires |g| == 4
    ensures Decode(g + rest) == DecodeGroup(g) + Decode(rest)
  {
    var s := g + rest;
    assert s[..4] == g && s[4..] == rest;
  }

  /** Decoding undoes encoding. */
  lemma {:induction false} DecodeEncode(b: seq<byte>)
    ensures Decode(Encode(b)) == b
    decreases |b|
  {
    if |b| == 1 {
      OneRoundTrip(b[0]);
      DecodeAppend(EncodeOne(b[0]), []);
      assert EncodeOne(b[0]) + [] == Encode(b);
    } else if |b| == 2 {
      TwoRoundTrip(b[0], b[1]);
      DecodeAppend(EncodeTwo(b[0], b[1]), []);
      assert EncodeTwo(b[0], b[1]) + [] == Encode(b);
    } else if |b| >= 3 {
      DecodeEncode(b[3..]);
      DecodeEncodeGroup(b);
    }
  }

  /** The encoding of three or more bytes starts with the group of the first three. */
  lemma EncodeStep(b: seq<byte>)
    requires |b| >= 3
    ensures Encode(b) == EncodeGroup(b[0], b[1], b[2]) + Encode(b[3..])
  {
  }

  /** One step of the induction: the first group, then the rest. */
  lemma DecodeEncodeGroup(b: seq<byte>)
    requires |b| >= 3 && Decode(Encode(b[3..])) == b[3..]
    ensures Decode(Encode(b)) == b
  {
    GroupRoundTrip(b[0], b[1], b[2]);
    EncodeStep(b);
    DecodeSplit(b, EncodeGroup(b[0], b[1], b[2]), Encode(b[3..]));
  }

  /** An encoding that splits into a group for the first three bytes and a text for the rest decodes to both. */
  lemma DecodeSplit(b: seq<byte>, g: string, rest: string)
    requires |b| >= 3 && |g| == 4 && Encode(b) == g + rest
    requires DecodeGroup(g) == [b[0], b[1], b[2]] && Decode(rest) == b[3..]
    ensures Decode(Encode(b)) == b
  {
    DecodeAppend(g, rest);
    assert b == [b[0], b[1], b[2]] + b[3..];
  }

  /** Distinct byte strings have distinct encodings. */
  lemma EncodeInjective(a: seq<byte>, b: seq<byte>)
    ensures Encode(a) == Encode(b) ==> a == b
  {
    DecodeEncode(a);
    DecodeEncode(b);
  }

  /** The number of `=` characters that end the encoding of `n` bytes. */
  function Padding(n: nat): nat {
    (3 - n % 3) % 3
  }

  /** `s` is alphabet characters followed by exactly `pad` padding characters. */
  predicate Padded(s: string, pad: nat) {
    && pad <= |s|
    && (forall i :: 0 <= i < |s| - pad ==> IsSymbol(s[i]))
    && (forall i :: |s| - pad <= i < |s| ==> s[i] == '=')
  }

  lemma PaddedAfterGroup(g: string, rest: string, pad: nat)
    requires |g| == 4 && forall i :: 0 <= i < 4 ==> IsSymbol(g[i])
    requires Padded(rest, pad)
    ensures Padded(g + rest, pad)
  {
    var s := g + rest;
    forall i | 4 <= i < |s|
      ensures s[i] == rest[i - 4]
    {
    }
  }

  /**
   * The encoding uses only the alphabet, followed by as many `=` as the
   * final quantum needs: none, one or two.
   */
  lemma {:induction false} EncodeAlphabet(b: seq<byte>)
    ensures Padding(|b|) <= 2
    ensures Padded(Encode(b), Padding(|b|))
    decreases |b|
  {
    if |b| >= 3 {
      EncodeAlphabet(b[3..]);
      PaddingStep(|b|);
      EncodeStep(b);
      PaddedAfterGroup(EncodeGroup(b[0], b[1], b[2]), Encode(b[3..]), Padding(|b|));
    }
  }

  lemma PaddingStep(n: nat)
    requires n >= 3
    ensures Padding(n) == Padding(n - 3)
  {
  }

  /** No character of an encoding is a `.`. */
  lemma EncodeHasNoDot(b: seq<byte>)
    ensures forall i :: 0 <= i < |Encode(b)| ==> Encode(b)[i] != '.'
  {
    EncodeAlphabet(b);
  }
}
