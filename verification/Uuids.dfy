/** replay_safe.rs: uuid_from_operation and uuid_to_string. */
module Uuids {
  import opened Options
  import opened Bytes
  import opened OperationIds

  /** Keep the low four bits, set the version (RFC 4122, section 4.1.3). */
  function WithVersion(b: Byte): Byte { b % 16 + 0x40 }

  /** Keep the low six bits, set the variant (RFC 4122, section 4.1.1). */
  function WithVariant(b: Byte): Byte { b % 64 + 0x80 }

  /** The two masks of the source are these. */
  lemma MasksAreArithmetic(b: bv8)
    ensures ((b & 0x0f) | 0x40) as int == WithVersion(b as int)
    ensures ((b & 0x3f) | 0x80) as int == WithVariant(b as int)
    ensures (b >> 4) as int == b as int / 16 && (b & 0x0f) as int == b as int % 16
  {
  }

  function Masked(u: seq<Byte>): (v: seq<Byte>)
    requires |u| == 16
    ensures |v| == 16
  {
    u[6 := WithVersion(u[6])][8 := WithVariant(u[8])]
  }

  function UuidOf(hash: Hash, operationId: Text, seed: U64): (u: seq<Byte>)
    ensures |u| == 16
  {
    Masked(hash(Preimage(operationId, seed))[..16])
  }

  method UuidFromOperation(hash: Hash, operationId: Text, seed: U64) returns (uuid: array<Byte>)
    ensures fresh(uuid) && uuid[..] == UuidOf(hash, operationId, seed)
    ensures var digest := hash(operationId + Le64(seed));
            && uuid.Length == 16
            && (forall k :: 0 <= k < 16 && k != 6 && k != 8 ==> uuid[k] == digest[k])
            && uuid[6] == digest[6] % 16 + 64 && uuid[8] == digest[8] % 64 + 128
  {
    var result := hash(operationId + Le64(seed));
    uuid := new Byte[16](_ => 0);
    for i := 0 to 16
      invariant uuid[..i] == result[..i]
    {
      uuid[i] := result[i];
    }
    uuid[6] := WithVersion(uuid[6]);
    uuid[8] := WithVariant(uuid[8]);
  }

  const HYPHEN: Text := [45]

  function Grouped(group: Text, rest: Text): Text {
    group + HYPHEN + rest
  }

  function UuidToString(u: seq<Byte>): (t: Text)
    requires |u| == 16
    ensures |t| == 36
  {
    Grouped(HexOf(u[..4]),
            Grouped(HexOf(u[4..6]), Grouped(HexOf(u[6..8]), Grouped(HexOf(u[8..10]), HexOf(u[10..])))))
  }

  /** Hyphens at 8, 13, 18 and 23, and around them the hexadecimal text of the bytes. */
  lemma UuidText(u: seq<Byte>)
    requires |u| == 16
    ensures var t := UuidToString(u);
            && t[8] == t[13] == t[18] == t[23] == '-' as int
            && t[..8] + t[9..13] + t[14..18] + t[19..23] + t[24..] == HexOf(u)
  {
    hide HexOf;
    PartsConcat(u);
    GroupChars(HexOf(u[..4]), HexOf(u[4..6]), HexOf(u[6..8]), HexOf(u[8..10]), HexOf(u[10..]));
  }

  lemma GroupChars(a: Text, b: Text, c: Text, d: Text, e: Text)
    requires |a| == 8 && |b| == |c| == |d| == 4 && |e| == 12
    ensures var t := Grouped(a, Grouped(b, Grouped(c, Grouped(d, e))));
            && |t| == 36 && t[8] == t[13] == t[18] == t[23] == 45
            && t[..8] == a && t[9..13] == b && t[14..18] == c && t[19..23] == d && t[24..] == e
  {
    var t3 := Grouped(d, e);
    assert t3[4] == 45 && t3[..4] == d && t3[5..] == e;
    var t2 := Grouped(c, t3);
    assert t2[4] == 45 && t2[..4] == c && t2[5..] == t3;
    var t1 := Grouped(b, t2);
    assert t1[4] == 45 && t1[..4] == b && t1[5..] == t2;
    var t := Grouped(a, t1);
    assert t[8] == 45 && t[..8] == a && t[9..] == t1;
    assert t[9..13] == t1[..4] && t[14..] == t2;
    assert t[14..18] == t2[..4] && t[19..] == t3;
    assert t[19..23] == t3[..4] && t[24..] == t3[5..];
    assert t[13] == t1[4] && t[18] == t2[4] && t[23] == t3[4];
  }

  lemma PartsConcat(u: seq<Byte>)
    requires |u| == 16
    ensures HexOf(u[..4]) + HexOf(u[4..6]) + HexOf(u[6..8]) + HexOf(u[8..10]) + HexOf(u[10..]) == HexOf(u)
  {
    hide HexOf;
    HexConcat(u[..4], u[4..6]);
    assert u[..4] + u[4..6] == u[..6];
    HexConcat(u[..6], u[6..8]);
    assert u[..6] + u[6..8] == u[..8];
    HexConcat(u[..8], u[8..10]);
    assert u[..8] + u[8..10] == u[..10];
    HexConcat(u[..10], u[10..]);
    assert u[..10] + u[10..] == u;
  }

  lemma {:induction false} HexConcat(a: seq<Byte>, b: seq<Byte>)
    ensures HexOf(a + b) == HexOf(a) + HexOf(b)
  {
    if a == [] {
      assert a + b == b;
    } else {
      assert (a + b)[1..] == a[1..] + b;
      HexConcat(a[1..], b);
    }
  }

  /** Takes the digits of w bytes and a hyphen off the front. */
  function TakeGroup(t: Text, w: nat): Option<(seq<Byte>, Text)> {
    if |t| <= 2 * w || t[2 * w] != 45 || Unhex(t[..2 * w]).None? then None
    else Some((Unhex(t[..2 * w]).value, t[2 * w + 1..]))
  }

  function TakeGroups(t: Text, widths: seq<nat>): Option<seq<Byte>> {
    if widths == [] then Unhex(t)
    else
      var first := TakeGroup(t, widths[0]);
      if first.None? then None
      else
        var rest := TakeGroups(first.value.1, widths[1..]);
        if rest.None? then None else Some(first.value.0 + rest.value)
  }

  function ParseUuid(t: Text): Option<seq<Byte>> {
    TakeGroups(t, [4, 2, 2, 2])
  }

  lemma GroupReadsBack(bytes: seq<Byte>, rest: Text, widths: seq<nat>)
    requires widths != [] && widths[0] == |bytes|
    ensures TakeGroups(Grouped(HexOf(bytes), rest), widths) ==
            var r := TakeGroups(rest, widths[1..]);
            if r.None? then None else Some(bytes + r.value)
  {
    hide HexOf, Unhex;
    var t, w := Grouped(HexOf(bytes), rest), |bytes|;
    HexReadsBack(bytes);
    assert t[..2 * w] == HexOf(bytes) && t[2 * w] == 45 && t[2 * w + 1..] == rest;
  }

  /** Every sixteen bytes come back from their text. */
  lemma UuidReadsBack(u: seq<Byte>)
    requires |u| == 16
    ensures ParseUuid(UuidToString(u)) == Some(u)
  {
    hide HexOf, Unhex, Grouped, TakeGroup, TakeGroups;
    var e := HexOf(u[10..]);
    var d := Grouped(HexOf(u[8..10]), e);
    var c := Grouped(HexOf(u[6..8]), d);
    var b := Grouped(HexOf(u[4..6]), c);
    LastGroup(u[10..]);
    GroupReadsBack(u[8..10], e, [2]);
    assert [2][1..] == [] && [2, 2][1..] == [2] && [2, 2, 2][1..] == [2, 2] && [4, 2, 2, 2][1..] == [2, 2, 2];
    GroupReadsBack(u[6..8], d, [2, 2]);
    GroupReadsBack(u[4..6], c, [2, 2, 2]);
    GroupReadsBack(u[..4], b, [4, 2, 2, 2]);
    assert u[..4] + (u[4..6] + (u[6..8] + (u[8..10] + u[10..]))) == u;
  }

  lemma LastGroup(bytes: seq<Byte>)
    ensures TakeGroups(HexOf(bytes), []) == Some(bytes)
  {
    HexReadsBack(bytes);
  }

  /** The digits of the UUID of an operation are those of the operation id with the same base and counter, except digit
      12, which is the version 4, and digit 16, which is 8, 9, a or b. */
  lemma UuidDigits(hash: Hash, operationId: Text, seed: U64, k: nat)
    requires k < 32
    ensures var digit := HexOf(UuidOf(hash, operationId, seed))[k];
            var plain := GenerateOperationId(hash, operationId, seed)[k];
            if k == 12 then digit == HexDigit(4)
            else if k == 16 then digit == HexDigit(8 + (HexValue(plain).GetOr(0) % 4))
            else digit == plain
  {
    hide HexOf, HexDigit, HexValue;
    var u := hash(Preimage(operationId, seed))[..16];
    var v := UuidOf(hash, operationId, seed);
    HexAt(u, k / 2);
    HexAt(v, k / 2);
    assert k == 2 * (k / 2) || k == 2 * (k / 2) + 1;
    if k / 2 == 6 {
      VersionNibbles(u[6]);
    } else if k / 2 == 8 {
      VariantNibbles(u[8]);
      DigitReadsBack(u[8] / 16);
    } else {
      assert v[k / 2] == u[k / 2];
    }
  }

  lemma VersionNibbles(b: Byte)
    ensures WithVersion(b) / 16 == 4 && WithVersion(b) % 16 == b % 16
  {
  }

  lemma VariantNibbles(b: Byte)
    ensures WithVariant(b) / 16 == 8 + b / 16 % 4 && WithVariant(b) % 16 == b % 16
  {
    var q, r, t := b / 64, b % 64 / 16, b % 16;
    assert b == 64 * q + 16 * r + t;
    VariantParts(b, q, r, t);
  }

  lemma VariantParts(b: Byte, q: nat, r: nat, t: nat)
    requires b == 64 * q + 16 * r + t && q < 4 && r < 4 && t < 16
    ensures WithVariant(b) == 16 * (8 + r) + t && b / 16 == 4 * q + r && b % 16 == t
  {
  }

  /** The hash keeps two preimages apart in the sixteen bytes that are used, masked as in a UUID. */
  predicate ApartAsUuids(hash: Hash, x: seq<Byte>, y: seq<Byte>) {
    Masked(hash(x)[..16]) == Masked(hash(y)[..16]) ==> x == y
  }

  /** Without a collision between the two preimages UUIDs, and their texts, are equal exactly for the same operation id
      and seed. */
  lemma UuidsDetermineOrigin(hash: Hash, operationId: Text, seed: U64, operationId2: Text, seed2: U64)
    requires ApartAsUuids(hash, Preimage(operationId, seed), Preimage(operationId2, seed2))
    ensures var u, v := UuidOf(hash, operationId, seed), UuidOf(hash, operationId2, seed2);
            && (u == v <==> operationId == operationId2 && seed == seed2)
            && (UuidToString(u) == UuidToString(v) <==> operationId == operationId2 && seed == seed2)
  {
    hide UuidToString, ParseUuid;
    PreimageDecodes(operationId, seed, operationId2, seed2);
    UuidReadsBack(UuidOf(hash, operationId, seed));
    UuidReadsBack(UuidOf(hash, operationId2, seed2));
  }

  /** In the text the version is character 14 and the variant character 19. */
  lemma VersionAndVariantInText(hash: Hash, operationId: Text, seed: U64)
    ensures var t := UuidToString(UuidOf(hash, operationId, seed));
            t[14] == HexDigit(4) && t[19] in {HexDigit(8), HexDigit(9), HexDigit(10), HexDigit(11)}
  {
    var u := hash(Preimage(operationId, seed))[..16];
    var v := UuidOf(hash, operationId, seed);
    VersionNibbles(u[6]);
    VariantNibbles(u[8]);
    GroupStarts(v);
    hide HexOf, HexDigit, UuidOf, UuidToString;
    HexAt(v[6..8], 0);
    HexAt(v[8..10], 0);
    assert 8 <= v[8] / 16 <= 11;
  }

  lemma GroupStarts(u: seq<Byte>)
    requires |u| == 16
    ensures UuidToString(u)[14] == HexOf(u[6..8])[0] && UuidToString(u)[19] == HexOf(u[8..10])[0]
  {
    hide HexOf;
  }
}
