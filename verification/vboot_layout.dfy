/** Records of little-endian fields, and the packed headers of the signed firmware format. */
module VbootLayout {
  import opened Bytes

  // ---------- records as lists of fields ----------

  datatype Field = Field(width: nat, value: nat)

  function Encode(fields: seq<Field>): seq<Byte> {
    if fields == [] then [] else Digits(fields[0].value, fields[0].width) + Encode(fields[1..])
  }

  function Total(widths: seq<nat>): nat {
    if widths == [] then 0 else widths[0] + Total(widths[1..])
  }

  function Decode(s: seq<Byte>, widths: seq<nat>): (values: seq<nat>)
    requires Total(widths) <= |s|
    ensures |values| == |widths|
  {
    if widths == [] then [] else [Number(s[..widths[0]])] + Decode(s[widths[0]..], widths[1..])
  }

  predicate HasWidths(fields: seq<Field>, widths: seq<nat>) {
    |fields| == |widths| &&
    forall i | 0 <= i < |fields| :: fields[i].width == widths[i] && fields[i].value < Power(widths[i])
  }

  /** What is written field by field is read back field by field, whatever comes after. */
  lemma {:induction false} DecodeOfEncode(fields: seq<Field>, widths: seq<nat>, rest: seq<Byte>)
    requires HasWidths(fields, widths)
    ensures |Encode(fields)| == Total(widths)
    ensures forall i | 0 <= i < |fields| :: Decode(Encode(fields) + rest, widths)[i] == fields[i].value
  {
    if fields != [] {
      var d, more := Digits(fields[0].value, fields[0].width), Encode(fields[1..]);
      DecodeOfEncode(fields[1..], widths[1..], rest);
      NumberOfDigits(fields[0].value, widths[0]);
      CutAfter(d, more, rest);
      assert Encode(fields) == d + more;
      var values, later := Decode(d + more + rest, widths), Decode(more + rest, widths[1..]);
      assert values == [Number(d)] + later;
      forall i | 0 <= i < |fields| ensures values[i] == fields[i].value {
        if i > 0 { assert values[i] == later[i - 1] && fields[1..][i - 1] == fields[i]; }
      }
    }
  }

  /** Only the bytes of the fields themselves matter. */
  lemma {:induction false} DecodeOfPrefix(s: seq<Byte>, t: seq<Byte>, widths: seq<nat>)
    requires Total(widths) <= |s| && Total(widths) <= |t| && s[..Total(widths)] == t[..Total(widths)]
    ensures Decode(s, widths) == Decode(t, widths)
  {
    if widths != [] {
      var w, n := widths[0], Total(widths);
      assert s[..w] == s[..n][..w] && t[..w] == t[..n][..w];
      assert s[w..][..Total(widths[1..])] == s[..n][w..] && t[w..][..Total(widths[1..])] == t[..n][w..];
      DecodeOfPrefix(s[w..], t[w..], widths[1..]);
    }
  }

  lemma {:induction false} DecodeIsBounded(s: seq<Byte>, widths: seq<nat>)
    requires Total(widths) <= |s|
    ensures forall i | 0 <= i < |widths| :: Decode(s, widths)[i] < Power(widths[i])
  {
    if widths != [] {
      NumberIsBounded(s[..widths[0]]);
      DecodeIsBounded(s[widths[0]..], widths[1..]);
    }
  }

  // ---------- the headers ----------

  datatype PublicKey = PublicKey(offset: nat, size: nat, algorithm: nat, version: nat)

  datatype Signature = Signature(offset: nat, size: nat, dataSize: nat)

  datatype KeyBlockHeader = KeyBlockHeader(
    magic: nat, major: nat, minor: nat, size: nat, signature: Signature, checksum: Signature, flags: nat,
    dataKey: PublicKey)

  datatype PreambleHeader = PreambleHeader(
    size: nat, signature: Signature, major: nat, minor: nat, firmwareVersion: nat, kernelSubkey: PublicKey,
    bodySignature: Signature, flags: nat)

  const PUBLIC_KEY_SIZE := 32
  const SIGNATURE_SIZE := 24
  const KEY_BLOCK_HEADER_SIZE := 112
  const PREAMBLE_2_0_SIZE := 104
  const PREAMBLE_HEADER_SIZE := 108

  /** Where the parts that refer to data lie in their headers. */
  const KEY_BLOCK_SIGNATURE_AT := 24
  const KEY_BLOCK_CHECKSUM_AT := 48
  const DATA_KEY_AT := 80
  const PREAMBLE_SIGNATURE_AT := 8
  const KERNEL_SUBKEY_AT := 48
  const BODY_SIGNATURE_AT := 80

  const KEY_BLOCK_WIDTHS: seq<nat> := [8, 4, 4, 8, 8, 8, 8, 8, 8, 8, 8, 8, 8, 8, 8]
  const PREAMBLE_2_0_WIDTHS: seq<nat> := [8, 8, 8, 8, 4, 4, 8, 8, 8, 8, 8, 8, 8, 8]

  function KeyBlockFields(h: KeyBlockHeader): seq<Field> {
    [Field(8, h.magic), Field(4, h.major), Field(4, h.minor), Field(8, h.size),
     Field(8, h.signature.offset), Field(8, h.signature.size), Field(8, h.signature.dataSize),
     Field(8, h.checksum.offset), Field(8, h.checksum.size), Field(8, h.checksum.dataSize), Field(8, h.flags),
     Field(8, h.dataKey.offset), Field(8, h.dataKey.size), Field(8, h.dataKey.algorithm), Field(8, h.dataKey.version)]
  }

  function PreambleFields(h: PreambleHeader): seq<Field> {
    Preamble20Fields(h) + [Field(4, h.flags)]
  }

  /** The fields that headers of every 2.x version start with. */
  function Preamble20Fields(h: PreambleHeader): seq<Field> {
    [Field(8, h.size), Field(8, h.signature.offset), Field(8, h.signature.size), Field(8, h.signature.dataSize),
     Field(4, h.major), Field(4, h.minor), Field(8, h.firmwareVersion),
     Field(8, h.kernelSubkey.offset), Field(8, h.kernelSubkey.size), Field(8, h.kernelSubkey.algorithm),
     Field(8, h.kernelSubkey.version),
     Field(8, h.bodySignature.offset), Field(8, h.bodySignature.size), Field(8, h.bodySignature.dataSize)]
  }

  lemma {:induction false} TotalAppend(v: seq<nat>, w: seq<nat>)
    ensures Total(v + w) == Total(v) + Total(w)
  {
    if v == [] {
      assert v + w == w;
    } else {
      assert (v + w)[1..] == v[1..] + w;
      TotalAppend(v[1..], w);
    }
  }

  /** The places of the fields, given as running sums. */
  lemma {:induction false} RunningTotals(widths: seq<nat>, sums: seq<nat>, i: nat)
    requires |sums| == |widths| + 1 && sums[0] == 0 && i <= |widths|
    requires forall j | 0 <= j < |widths| :: sums[j + 1] == sums[j] + widths[j]
    ensures Total(widths[..i]) == sums[i]
  {
    if i > 0 {
      RunningTotals(widths, sums, i - 1);
      TotalAppend(widths[..i - 1], [widths[i - 1]]);
      assert widths[..i] == widths[..i - 1] + [widths[i - 1]];
    }
  }

  lemma AllRunningTotals(widths: seq<nat>, sums: seq<nat>)
    requires |sums| == |widths| + 1 && sums[0] == 0
    requires forall j | 0 <= j < |widths| :: sums[j + 1] == sums[j] + widths[j]
    ensures forall i | 0 <= i <= |widths| :: Total(widths[..i]) == sums[i]
  {
    forall i | 0 <= i <= |widths| ensures Total(widths[..i]) == sums[i] { RunningTotals(widths, sums, i); }
  }

  /** The sizes and the places of the parts are the sums of the fields before them. */
  lemma KeyBlockSizes()
    ensures Total(KEY_BLOCK_WIDTHS) == KEY_BLOCK_HEADER_SIZE
    ensures Total(KEY_BLOCK_WIDTHS[..4]) == KEY_BLOCK_SIGNATURE_AT &&
            Total(KEY_BLOCK_WIDTHS[..7]) == KEY_BLOCK_CHECKSUM_AT
    ensures Total(KEY_BLOCK_WIDTHS[..11]) == DATA_KEY_AT
  {
    hide Total;
    var sums: seq<nat> := [0, 8, 12, 16, 24, 32, 40, 48, 56, 64, 72, 80, 88, 96, 104, 112];
    AllRunningTotals(KEY_BLOCK_WIDTHS, sums);
    assert KEY_BLOCK_WIDTHS[..15] == KEY_BLOCK_WIDTHS;
  }

  lemma PreambleSizes()
    ensures Total(PREAMBLE_2_0_WIDTHS) == PREAMBLE_2_0_SIZE && PREAMBLE_2_0_SIZE + 4 == PREAMBLE_HEADER_SIZE
    ensures Total(PREAMBLE_2_0_WIDTHS[..1]) == PREAMBLE_SIGNATURE_AT
    ensures Total(PREAMBLE_2_0_WIDTHS[..7]) == KERNEL_SUBKEY_AT && Total(PREAMBLE_2_0_WIDTHS[..11]) == BODY_SIGNATURE_AT
  {
    hide Total;
    var sums: seq<nat> := [0, 8, 16, 24, 32, 36, 40, 48, 56, 64, 72, 80, 88, 96, 104];
    AllRunningTotals(PREAMBLE_2_0_WIDTHS, sums);
    assert PREAMBLE_2_0_WIDTHS[..14] == PREAMBLE_2_0_WIDTHS;
  }

  function EncodeKeyBlock(h: KeyBlockHeader): seq<Byte> {
    Encode(KeyBlockFields(h))
  }

  function EncodePreamble(h: PreambleHeader): seq<Byte> {
    Encode(PreambleFields(h))
  }

  function KeyBlockOf(v: seq<nat>): KeyBlockHeader
    requires |v| == 15
  {
    KeyBlockHeader(v[0], v[1], v[2], v[3], Signature(v[4], v[5], v[6]), Signature(v[7], v[8], v[9]), v[10],
                   PublicKey(v[11], v[12], v[13], v[14]))
  }

  function PreambleOf(v: seq<nat>, flags: nat): PreambleHeader
    requires |v| == 14
  {
    PreambleHeader(v[0], Signature(v[1], v[2], v[3]), v[4], v[5], v[6], PublicKey(v[7], v[8], v[9], v[10]),
                   Signature(v[11], v[12], v[13]), flags)
  }

  /** The header at the start of a key block. */
  function DecodeKeyBlock(s: seq<Byte>): KeyBlockHeader
    requires KEY_BLOCK_HEADER_SIZE <= |s|
  {
    KeyBlockSizes();
    KeyBlockOf(Decode(s, KEY_BLOCK_WIDTHS))
  }

  /** The header at the start of a preamble; the flags are there only if the bytes go that far. */
  function DecodePreamble(s: seq<Byte>): PreambleHeader
    requires PREAMBLE_2_0_SIZE <= |s|
  {
    PreambleSizes();
    PreambleOf(Decode(s, PREAMBLE_2_0_WIDTHS),
               if PREAMBLE_HEADER_SIZE <= |s| then Number(s[PREAMBLE_2_0_SIZE..PREAMBLE_HEADER_SIZE]) else 0)
  }

  predicate Fits(fields: seq<Field>) {
    forall i | 0 <= i < |fields| :: fields[i].value < Power(fields[i].width)
  }

  lemma KeyBlockReadsBack(h: KeyBlockHeader, rest: seq<Byte>)
    requires Fits(KeyBlockFields(h))
    ensures |EncodeKeyBlock(h)| == KEY_BLOCK_HEADER_SIZE && DecodeKeyBlock(EncodeKeyBlock(h) + rest) == h
  {
    KeyBlockSizes();
    hide Decode, Encode, Number, Digits, Total, Power;
    DecodeOfEncode(KeyBlockFields(h), KEY_BLOCK_WIDTHS, rest);
    ReassemblesKeyBlock(h, Decode(EncodeKeyBlock(h) + rest, KEY_BLOCK_WIDTHS));
  }

  lemma {:induction false} EncodeAppend(a: seq<Field>, b: seq<Field>)
    ensures Encode(a + b) == Encode(a) + Encode(b)
  {
    if a == [] {
      assert a + b == b;
    } else {
      assert (a + b)[1..] == a[1..] + b;
      EncodeAppend(a[1..], b);
    }
  }

  lemma PreambleReadsBack(h: PreambleHeader, rest: seq<Byte>)
    requires Fits(PreambleFields(h))
    ensures |EncodePreamble(h)| == PREAMBLE_HEADER_SIZE && DecodePreamble(EncodePreamble(h) + rest) == h
  {
    PreambleSizes();
    var f, last := Preamble20Fields(h), Digits(h.flags, 4);
    EncodeAppend(f, [Field(4, h.flags)]);
    assert Encode([Field(4, h.flags)]) == last + [];
    hide Decode, Encode, Number, Digits, Total, Power;
    PreambleHasWidths(h);
    DecodeOfEncode(f, PREAMBLE_2_0_WIDTHS, last + rest);
    NumberOfDigits(h.flags, 4);
    FlagsAtEnd(Encode(f), last, rest);
    ReassemblesPreamble(h, Decode(Encode(f) + (last + rest), PREAMBLE_2_0_WIDTHS));
  }

  lemma PreambleHasWidths(h: PreambleHeader)
    requires Fits(PreambleFields(h))
    ensures HasWidths(Preamble20Fields(h), PREAMBLE_2_0_WIDTHS) && h.flags < Power(4)
  {
    hide Power;
    var f, g := Preamble20Fields(h), PreambleFields(h);
    assert g[14] == Field(4, h.flags);
    forall i | 0 <= i < 14 ensures f[i].width == PREAMBLE_2_0_WIDTHS[i] && f[i].value < Power(PREAMBLE_2_0_WIDTHS[i]) {
      assert f[i] == g[i];
    }
  }

  lemma FlagsAtEnd(a: seq<Byte>, b: seq<Byte>, c: seq<Byte>)
    requires |a| == PREAMBLE_2_0_SIZE && |b| == 4
    ensures a + (b + []) + c == a + (b + c) && (a + (b + c))[PREAMBLE_2_0_SIZE..PREAMBLE_HEADER_SIZE] == b
  {
  }

  lemma ReassemblesPreamble(h: PreambleHeader, v: seq<nat>)
    requires |v| == 14 && forall i | 0 <= i < 14 :: v[i] == Preamble20Fields(h)[i].value
    ensures PreambleOf(v, h.flags) == h
  {
    var f := Preamble20Fields(h);
    assert v[0] == f[0].value && v[1] == f[1].value && v[2] == f[2].value && v[3] == f[3].value && v[4] == f[4].value;
    assert v[5] == f[5].value && v[6] == f[6].value && v[7] == f[7].value && v[8] == f[8].value && v[9] == f[9].value;
    assert v[10] == f[10].value && v[11] == f[11].value && v[12] == f[12].value && v[13] == f[13].value;
  }

  lemma ReassemblesKeyBlock(h: KeyBlockHeader, v: seq<nat>)
    requires |v| == 15 && forall i | 0 <= i < 15 :: v[i] == KeyBlockFields(h)[i].value
    ensures KeyBlockOf(v) == h
  {
    var f := KeyBlockFields(h);
    assert v[0] == f[0].value && v[1] == f[1].value && v[2] == f[2].value && v[3] == f[3].value && v[4] == f[4].value;
    assert v[5] == f[5].value && v[6] == f[6].value && v[7] == f[7].value && v[8] == f[8].value && v[9] == f[9].value;
    assert v[10] == f[10].value && v[11] == f[11].value && v[12] == f[12].value && v[13] == f[13].value &&
           v[14] == f[14].value;
  }

  lemma {:induction false} PowerGrows(v: nat, w: nat)
    requires v <= w
    ensures Power(v) <= Power(w)
  {
    if v < w { PowerGrows(v, w - 1); }
  }

  lemma FieldsAreBelow(s: seq<Byte>, widths: seq<nat>)
    requires Total(widths) <= |s| && forall i | 0 <= i < |widths| :: widths[i] <= 8
    ensures forall i | 0 <= i < |widths| :: Decode(s, widths)[i] < LIMIT
  {
    DecodeIsBounded(s, widths);
    Limits();
    forall i | 0 <= i < |widths| ensures Decode(s, widths)[i] < LIMIT { PowerGrows(widths[i], 8); }
  }

  predicate KeyFits(k: PublicKey) {
    k.offset < LIMIT && k.size < LIMIT && k.algorithm < LIMIT && k.version < LIMIT
  }

  predicate SignatureFits(s: Signature) {
    s.offset < LIMIT && s.size < LIMIT && s.dataSize < LIMIT
  }

  /** Every field of a header is within its width. */
  lemma KeyBlockIsBounded(s: seq<Byte>)
    requires KEY_BLOCK_HEADER_SIZE <= |s|
    ensures var h := DecodeKeyBlock(s);
            h.size < LIMIT && SignatureFits(h.signature) && SignatureFits(h.checksum) && KeyFits(h.dataKey)
  {
    KeyBlockSizes();
    hide Decode, Total;
    FieldsAreBelow(s, KEY_BLOCK_WIDTHS);
  }

  lemma PreambleIsBounded(s: seq<Byte>)
    requires PREAMBLE_2_0_SIZE <= |s|
    ensures var h := DecodePreamble(s);
            h.size < LIMIT && SignatureFits(h.signature) && SignatureFits(h.bodySignature) && KeyFits(h.kernelSubkey)
  {
    PreambleSizes();
    hide Decode, Total;
    FieldsAreBelow(s, PREAMBLE_2_0_WIDTHS);
  }
}
