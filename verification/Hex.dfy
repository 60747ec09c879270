/** Lowercase hexadecimal, the wire form of every credential and correlation identifier. */
module Hex {
  import opened Wrappers
  import opened Bytes

  const DIGITS: string := "0123456789abcdef"

  function Digit(nibble: int): char
    requires 0 <= nibble < 16
  {
    DIGITS[nibble]
  }

  /** The value of one lowercase hex character. Uppercase is refused, not folded. */
  function Value(c: char): (v: Option<int>)
    ensures v.Some? ==> 0 <= v.value < 16
  {
    if '0' <= c <= '9' then Some(c as int - '0' as int)
    else if 'a' <= c <= 'f' then Some(c as int - 'a' as int + 10)
    else None
  }

  lemma DigitAndValueAreInverse(nibble: int, c: char)
    requires 0 <= nibble < 16
    ensures Value(c) == Some(nibble) <==> c == Digit(nibble)
  {
  }

  predicate IsHex(text: string) {
    forall i :: 0 <= i < |text| ==> Value(text[i]).Some?
  }

  function NibbleAt(bytes: seq<Byte>, i: nat): (n: int)
    requires i < 2 * |bytes|
    ensures 0 <= n < 16
  {
    if i % 2 == 0 then bytes[i / 2] / 16 else bytes[i / 2] % 16
  }

  /** Two characters for every byte, high nibble first. */
  function HexOf(bytes: seq<Byte>): string {
    seq(2 * |bytes|, i requires 0 <= i < 2 * |bytes| => Digit(NibbleAt(bytes, i)))
  }

  function PairAt(text: string, i: nat): Byte
    requires 2 * i + 1 < |text| && IsHex(text)
  {
    16 * Value(text[2 * i]).value + Value(text[2 * i + 1]).value
  }

  /** Exactly `n` bytes of lowercase hex, or nothing. */
  function Unhex(n: nat, text: string): Option<seq<Byte>> {
    if |text| == 2 * n && IsHex(text) then
      Some(seq(n, i requires 0 <= i < n => PairAt(text, i)))
    else None
  }

  lemma UnhexInvertsHex(bytes: seq<Byte>)
    ensures Unhex(|bytes|, HexOf(bytes)) == Some(bytes)
  {
    var text := HexOf(bytes);
    forall i | 0 <= i < |text|
      ensures Value(text[i]) == Some(NibbleAt(bytes, i))
    {
      DigitAndValueAreInverse(NibbleAt(bytes, i), text[i]);
    }
    forall i | 0 <= i < |bytes|
      ensures PairAt(text, i) == bytes[i]
    {
      assert NibbleAt(bytes, 2 * i) == bytes[i] / 16 && NibbleAt(bytes, 2 * i + 1) == bytes[i] % 16;
    }
    assert Unhex(|bytes|, text).value == bytes;
  }

  lemma HexInvertsUnhex(n: nat, text: string)
    requires Unhex(n, text).Some?
    ensures |Unhex(n, text).value| == n && HexOf(Unhex(n, text).value) == text
  {
    var bytes := Unhex(n, text).value;
    forall i | 0 <= i < |text|
      ensures HexOf(bytes)[i] == text[i]
    {
      assert bytes[i / 2] == PairAt(text, i / 2);
      assert NibbleAt(bytes, i) == Value(text[i]).value;
      DigitAndValueAreInverse(NibbleAt(bytes, i), text[i]);
    }
  }

  /** One byte value has exactly one accepted spelling. */
  lemma OneSpelling(n: nat, text: string, bytes: seq<Byte>)
    ensures Unhex(n, text) == Some(bytes) <==> |bytes| == n && text == HexOf(bytes)
  {
    UnhexInvertsHex(bytes);
    if Unhex(n, text).Some? {
      HexInvertsUnhex(n, text);
    }
  }

  /** The character is the digit for the number: `0` to `9`, then `a` to `f`. */
  predicate IsDigitFor(c: char, n: int) {
    || ('0' <= c <= '9' && n == c as int - 0x30)
    || ('a' <= c <= 'f' && n == c as int - 0x61 + 10)
  }

  /** The two characters of a byte are its base-sixteen digits, the high one first. */
  lemma HighDigitFirst(bytes: seq<Byte>, i: nat) returns (high: int, low: int)
    requires i < |bytes|
    ensures |HexOf(bytes)| == 2 * |bytes| && bytes[i] == 16 * high + low
    ensures IsDigitFor(HexOf(bytes)[2 * i], high) && IsDigitFor(HexOf(bytes)[2 * i + 1], low)
  {
    high, low := bytes[i] / 16, bytes[i] % 16;
    assert NibbleAt(bytes, 2 * i) == high && NibbleAt(bytes, 2 * i + 1) == low;
  }

  lemma HexIsHex(bytes: seq<Byte>)
    ensures |HexOf(bytes)| == 2 * |bytes| && IsHex(HexOf(bytes))
  {
    UnhexInvertsHex(bytes);
  }

  method Encode(bytes: seq<Byte>) returns (out: string)
    ensures out == HexOf(bytes)
  {
    out := "";
    for i := 0 to |bytes|
      invariant |out| == 2 * i
      invariant forall j :: 0 <= j < 2 * i ==> out[j] == Digit(NibbleAt(bytes, j))
    {
      out := out + [Digit(bytes[i] / 16)];
      out := out + [Digit(bytes[i] % 16)];
    }
  }

  method Decode(n: nat, text: string) returns (r: Option<seq<Byte>>)
    ensures r == Unhex(n, text)
  {
    if |text| != 2 * n {
      return None;
    }
    var out := new Byte[n](_ => 0);
    for i := 0 to n
      invariant forall j :: 0 <= j < 2 * i ==> Value(text[j]).Some?
      invariant forall j :: 0 <= j < i ==> out[j] == 16 * Value(text[2 * j]).value + Value(text[2 * j + 1]).value
    {
      var high := Value(text[2 * i]);
      if high.None? {
        return None;
      }
      var low := Value(text[2 * i + 1]);
      if low.None? {
        return None;
      }
      out[i] := high.value * 16 + low.value;
    }
    assert IsHex(text) && out[..] == Unhex(n, text).value;
    return Some(out[..]);
  }
}

/** Generated credentials, their wire form, and the digest stored in their place. */
module Opaque {
  import opened Wrappers
  import opened Bytes
  import opened Hex

  datatype OpaqueKind = Session | Verification | PasswordReset | Refresh

  datatype Opaque = Opaque(kind: OpaqueKind, bytes: Bytes32)

  /** The digest, as an ideal function: the kind is bound in, and nothing collides. */
  datatype SecretDigest = DigestOf(kind: OpaqueKind, bytes: Bytes32)

  function Digest(secret: Opaque): SecretDigest {
    DigestOf(secret.kind, secret.bytes)
  }

  function Wire(secret: Opaque): string {
    HexOf(secret.bytes)
  }

  function Parsed(kind: OpaqueKind, wire: string): Option<Opaque> {
    var bytes := Unhex(32, wire);
    if bytes.Some? then Some(Opaque(kind, bytes.value)) else None
  }

  /** What is accepted is exactly what `Expose` renders, and it comes back as the same credential. */
  lemma WireRoundTrip(kind: OpaqueKind, wire: string, secret: Opaque)
    ensures Parsed(kind, wire) == Some(secret) <==> secret.kind == kind && wire == Wire(secret)
  {
    OneSpelling(32, wire, secret.bytes);
  }

  method Expose(secret: Opaque) returns (wire: string)
    ensures wire == Wire(secret) && |wire| == 64
  {
    HexIsHex(secret.bytes);
    wire := Encode(secret.bytes);
  }

  method FromWire(kind: OpaqueKind, wire: string) returns (r: Option<Opaque>)
    ensures r == Parsed(kind, wire)
  {
    var bytes := Decode(32, wire);
    r := if bytes.Some? then Some(Opaque(kind, bytes.value)) else None;
  }
}

/** The correlation identifier of an audit record: eight bytes, sixteen characters. */
module Correlation {
  import opened Wrappers
  import opened Bytes
  import opened Hex

  const ENCODED_LEN := 16

  method Parse(value: string) returns (r: Option<seq<Byte>>)
    ensures r == Unhex(8, value)
    ensures r.Some? ==> |r.value| == 8 && HexOf(r.value) == value
  {
    if |value| != ENCODED_LEN {
      return None;
    }
    var bytes := new Byte[8](_ => 0);
    var index := 0;
    while index < 8
      invariant 0 <= index <= 8
      invariant forall j :: 0 <= j < 2 * index ==> Value(value[j]).Some?
      invariant forall j :: 0 <= j < index ==>
        bytes[j] == 16 * Value(value[2 * j]).value + Value(value[2 * j + 1]).value
    {
      var high := Value(value[index * 2]);
      if high.None? {
        return None;
      }
      var low := Value(value[index * 2 + 1]);
      if low.None? {
        return None;
      }
      bytes[index] := high.value * 16 + low.value;
      index := index + 1;
    }
    assert IsHex(value) && bytes[..] == Unhex(8, value).value;
    HexInvertsUnhex(8, value);
    return Some(bytes[..]);
  }
}
