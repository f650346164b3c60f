/** Bytes, little-endian counters, and context.rs hex::encode. A String is its UTF-8 bytes. */
module Bytes {
  import opened Options
  import opened Fractions

  type Byte = b: int | 0 <= b < 256
  type Text = seq<Byte>

  const TWO64: nat := 0x1_0000_0000_0000_0000
  type U64 = n: nat | n < TWO64

  /** A counter that wraps keeps the count modulo 2^64. */
  lemma CounterAdvances(n: nat)
    ensures (n % TWO64 + 1) % TWO64 == (n + 1) % TWO64
  {
  }

  // ---------- hexadecimal ----------

  /** HEX_CHARS */
  function HexDigit(n: nat): Byte
    requires n < 16
  {
    if n < 10 then 48 + n else 87 + n
  }

  function HexOf(bytes: seq<Byte>): (t: Text)
    ensures |t| == 2 * |bytes|
  {
    if bytes == [] then [] else [HexDigit(bytes[0] / 16), HexDigit(bytes[0] % 16)] + HexOf(bytes[1..])
  }

  const HEX_CHARS: string := "0123456789abcdef"

  lemma DigitIsHexChar(n: nat)
    requires n < 16
    ensures HexDigit(n) == HEX_CHARS[n] as int
  {
  }

  /** Each byte is two characters, the high half first. */
  lemma HexChars(bytes: seq<Byte>, k: nat)
    requires k < |bytes|
    ensures HexOf(bytes)[2 * k] == HEX_CHARS[bytes[k] / 16] as int
    ensures HexOf(bytes)[2 * k + 1] == HEX_CHARS[bytes[k] % 16] as int
  {
    HexAt(bytes, k);
    DigitIsHexChar(bytes[k] / 16);
    DigitIsHexChar(bytes[k] % 16);
  }

  method Encode(bytes: seq<Byte>) returns (result: Text)
    ensures result == HexOf(bytes) && |result| == 2 * |bytes|
    ensures forall k: nat :: k < |bytes| ==>
              && result[2 * k] == HEX_CHARS[bytes[k] / 16] as int
              && result[2 * k + 1] == HEX_CHARS[bytes[k] % 16] as int
  {
    result := [];
    for i := 0 to |bytes|
      invariant result == HexOf(bytes[..i])
    {
      HexSnoc(bytes[..i], bytes[i]);
      assert bytes[..i + 1] == bytes[..i] + [bytes[i]];
      result := result + [HexDigit(bytes[i] / 16)];
      result := result + [HexDigit(bytes[i] % 16)];
    }
    assert bytes[..|bytes|] == bytes;
    forall k: nat | k < |bytes|
      ensures result[2 * k] == HEX_CHARS[bytes[k] / 16] as int && result[2 * k + 1] == HEX_CHARS[bytes[k] % 16] as int
    {
      HexChars(bytes, k);
    }
  }

  lemma {:induction false} HexSnoc(bytes: seq<Byte>, b: Byte)
    ensures HexOf(bytes + [b]) == HexOf(bytes) + [HexDigit(b / 16)] + [HexDigit(b % 16)]
  {
    if bytes == [] {
      assert [] + [b] == [b] && [b][1..] == [];
    } else {
      assert (bytes + [b])[1..] == bytes[1..] + [b];
      HexSnoc(bytes[1..], b);
    }
  }

  function HexValue(c: Byte): Option<nat> {
    if 48 <= c < 58 then Some(c - 48) else if 97 <= c < 103 then Some(c - 87) else None
  }

  /** Reads hexadecimal text, two lower-case digits a byte. */
  function Unhex(t: Text): Option<seq<Byte>> {
    if t == [] then Some([])
    else if |t| == 1 then None
    else
      var high, low, rest := HexValue(t[0]), HexValue(t[1]), Unhex(t[2..]);
      if high.None? || low.None? || high.value >= 16 || low.value >= 16 || rest.None? then None
      else Some([16 * high.value + low.value] + rest.value)
  }

  lemma DigitReadsBack(n: nat)
    requires n < 16
    ensures HexValue(HexDigit(n)) == Some(n)
  {
  }

  /** Every byte string comes back from its hexadecimal text. */
  lemma {:induction false} HexReadsBack(bytes: seq<Byte>)
    ensures Unhex(HexOf(bytes)) == Some(bytes)
  {
    if bytes != [] {
      HexReadsBack(bytes[1..]);
      DigitReadsBack(bytes[0] / 16);
      DigitReadsBack(bytes[0] % 16);
      assert HexOf(bytes)[2..] == HexOf(bytes[1..]);
      assert [bytes[0]] + bytes[1..] == bytes;
    }
  }

  /** And every text that reads at all is the text of what it reads as. */
  lemma {:induction false} HexWritesBack(t: Text)
    requires Unhex(t).Some?
    ensures HexOf(Unhex(t).value) == t
  {
    if t != [] {
      HexWritesBack(t[2..]);
      assert t == [t[0], t[1]] + t[2..];
    }
  }

  /** Digits 2k and 2k + 1 are those of byte k. */
  lemma {:induction false} HexAt(bytes: seq<Byte>, k: nat)
    requires k < |bytes|
    ensures HexOf(bytes)[2 * k] == HexDigit(bytes[k] / 16)
    ensures HexOf(bytes)[2 * k + 1] == HexDigit(bytes[k] % 16)
  {
    if k > 0 {
      HexAt(bytes[1..], k - 1);
    }
  }

  // ---------- little endian ----------

  function Power256(w: nat): nat {
    if w == 0 then 1 else 256 * Power256(w - 1)
  }

  function LittleEndian(n: nat, w: nat): (b: seq<Byte>)
    ensures |b| == w
  {
    if w == 0 then [] else [n % 256] + LittleEndian(n / 256, w - 1)
  }

  /** u64::to_le_bytes */
  function Le64(n: U64): (b: seq<Byte>)
    ensures |b| == 8
  {
    LittleEndian(n, 8)
  }

  /** The number whose base-256 digits these are, least significant first. */
  function ValueOf(b: seq<Byte>): nat {
    if b == [] then 0 else b[0] + 256 * ValueOf(b[1..])
  }

  lemma {:induction false} LittleEndianValue(n: nat, w: nat)
    requires n < Power256(w)
    ensures ValueOf(LittleEndian(n, w)) == n
  {
    if w > 0 {
      LittleEndianValue(n / 256, w - 1);
      assert LittleEndian(n, w)[1..] == LittleEndian(n / 256, w - 1);
    }
  }

  /** The eight bytes of a counter are its digits, least significant first. */
  lemma Le64Value(n: U64)
    ensures ValueOf(Le64(n)) == n
  {
    Power256Of8();
    LittleEndianValue(n, 8);
  }

  /** Byte k is the digit of 256^k. */
  lemma {:induction false} LittleEndianAt(n: nat, w: nat, k: nat)
    requires k < w
    ensures Power256(k) >= 1 && LittleEndian(n, w)[k] == n / Power256(k) % 256
  {
    if k > 0 {
      LittleEndianAt(n / 256, w - 1, k - 1);
      DivideTwice(n, 256, Power256(k - 1), Power256(k));
    }
  }

  lemma Power256Of8()
    ensures Power256(8) == TWO64
  {
    assert Power256(2) == 256 * Power256(1) == 65536;
    assert Power256(4) == 256 * Power256(3) && Power256(3) == 256 * Power256(2);
    assert Power256(6) == 256 * Power256(5) && Power256(5) == 256 * Power256(4);
    assert Power256(8) == 256 * Power256(7) && Power256(7) == 256 * Power256(6);
  }

  /** What is hashed determines what it was made from: the counter is the last eight bytes. */
  lemma PreimageDecodes(base: Text, counter: U64, base2: Text, counter2: U64)
    ensures base + Le64(counter) == base2 + Le64(counter2) <==> base == base2 && counter == counter2
  {
    var p, p2 := base + Le64(counter), base2 + Le64(counter2);
    if p == p2 {
      assert p[..|p| - 8] == base && p2[..|p2| - 8] == base2;
      assert p[|p| - 8..] == Le64(counter) && p2[|p2| - 8..] == Le64(counter2);
      Le64Value(counter);
      Le64Value(counter2);
    }
  }
}
