/** Making signed firmware: key blocks and preambles are filled in place, field by field and region
    by region, and their signatures are taken over bytes that later steps write again. */
module VbootSign {
  import opened Wrappers
  import opened Bytes
  import opened VbootLayout
  import opened VbootVerify

  datatype PrivateKey = PrivateKey(algorithm: nat, secret: int)

  /** A signature header followed by its data. */
  datatype SignatureBlob = SignatureBlob(header: Signature, data: seq<Byte>)

  /** The hash and the signatures have their fixed lengths. */
  ghost predicate WellSized(s: Scheme) {
    (forall secret, algorithm: nat, d | algorithm < NUM_ALGORITHMS ::
       |s.sign(secret, algorithm, d)| == SigLen(algorithm)) &&
    forall d :: |s.sha512(d)| == SHA512_DIGEST_SIZE
  }

  /** What the private key signs, the public key verifies. */
  ghost predicate Pair(s: Scheme, k: Key, p: PrivateKey) {
    k.algorithm == p.algorithm && Usable(k) &&
    forall d :: s.verify(k.data, k.algorithm, d, s.sign(p.secret, p.algorithm, d))
  }

  function Spliced<T>(s: seq<T>, at: nat, b: seq<T>): (r: seq<T>)
    requires at + |b| <= |s|
    ensures |r| == |s| && r[at..at + |b|] == b && r[..at] == s[..at] && r[at + |b|..] == s[at + |b|..]
  {
    s[..at] + b + s[at + |b|..]
  }

  method Memcpy(dest: array<Byte>, at: nat, src: seq<Byte>)
    requires at + |src| <= dest.Length
    modifies dest
    ensures dest[..] == Spliced(old(dest[..]), at, src)
  {
    var i := 0;
    while i < |src|
      invariant 0 <= i <= |src| && dest[..] == Spliced(old(dest[..]), at, src[..i])
    {
      dest[at + i] := src[i];
      assert src[..i + 1] == src[..i] + [src[i]];
      i := i + 1;
    }
    assert src[..i] == src;
  }

  function CalculateSignature(s: Scheme, data: seq<Byte>, key: PrivateKey): SignatureBlob
    requires key.algorithm < NUM_ALGORITHMS
  {
    SignatureBlob(Signature(SIGNATURE_SIZE, SigLen(key.algorithm), |data|), s.sign(key.secret, key.algorithm, data))
  }

  function CalculateChecksum(s: Scheme, data: seq<Byte>): SignatureBlob {
    SignatureBlob(Signature(SIGNATURE_SIZE, SHA512_DIGEST_SIZE, |data|), s.sha512(data))
  }

  /** Copies a signature to the header `dest`, which is at `at` in a structure of `base` bytes whose
      data areas are in `areas`. */
  method SignatureCopy(areas: array<Byte>, base: nat, at: nat, dest: Signature, src: SignatureBlob)
    returns (error: int, copied: Signature)
    requires |src.data| == src.header.size && base <= at + dest.offset &&
             at + dest.offset + dest.size <= base + areas.Length
    modifies areas
    ensures if dest.size < src.header.size then error == 1 && copied == dest && areas[..] == old(areas[..])
            else error == 0 && copied == Signature(dest.offset, src.header.size, src.header.dataSize) &&
                 areas[..] == Spliced(old(areas[..]), at + dest.offset - base, src.data)
  {
    if dest.size < src.header.size { return 1, dest; }
    copied := dest.(size := src.header.size, dataSize := src.header.dataSize);
    Memcpy(areas, at + dest.offset - base, src.data);
    error := 0;
  }

  method PublicKeyCopy(areas: array<Byte>, base: nat, at: nat, dest: PublicKey, src: Key)
    returns (error: int, copied: PublicKey)
    requires base <= at + dest.offset && at + dest.offset + dest.size <= base + areas.Length
    modifies areas
    ensures if dest.size < |src.data| then error == 1 && copied == dest && areas[..] == old(areas[..])
            else error == 0 && copied == PublicKey(dest.offset, |src.data|, src.algorithm, src.version) &&
                 areas[..] == Spliced(old(areas[..]), at + dest.offset - base, src.data)
  {
    if dest.size < |src.data| { return 1, dest; }
    copied := dest.(size := |src.data|, algorithm := src.algorithm, version := src.version);
    Memcpy(areas, at + dest.offset - base, src.data);
    error := 0;
  }

  // ---------- key blocks ----------

  /** The header of a finished key block. */
  function BlockHeader(dataKey: Key, signingKey: Option<PrivateKey>, flags: nat): KeyBlockHeader
    requires signingKey.Some? ==> signingKey.value.algorithm < NUM_ALGORITHMS
  {
    var signed := KEY_BLOCK_HEADER_SIZE + |dataKey.data|;
    var sig := if signingKey.None? then Signature(0, 0, 0) else
      Signature(signed + SHA512_DIGEST_SIZE - KEY_BLOCK_SIGNATURE_AT, SigLen(signingKey.value.algorithm), signed);
    KeyBlockHeader(
      KEY_BLOCK_MAGIC, HEADER_VERSION_MAJOR, 1, signed + SHA512_DIGEST_SIZE + sig.size, sig,
      Signature(signed - KEY_BLOCK_CHECKSUM_AT, SHA512_DIGEST_SIZE, signed), flags,
      PublicKey(KEY_BLOCK_HEADER_SIZE - DATA_KEY_AT, |dataKey.data|, dataKey.algorithm, dataKey.version))
  }

  /** The areas behind the header: the data key, the checksum and the signature, both over
      `signed`. */
  ghost predicate BlockAreas(s: Scheme, areas: seq<Byte>, dataKey: Key, signingKey: Option<PrivateKey>,
                             signed: seq<Byte>) {
    var n := |dataKey.data|;
    var m := n + SHA512_DIGEST_SIZE;
    m <= |areas| && areas[..n] == dataKey.data && areas[n..m] == s.sha512(signed) &&
    areas[m..] == if signingKey.None? then [] else s.sign(signingKey.value.secret, signingKey.value.algorithm, signed)
  }

  /** A complete key block: the header, and behind it the data key, the checksum and the signature
      of all before the checksum. */
  ghost predicate KeyBlockMade(s: Scheme, b: seq<Byte>, dataKey: Key, signingKey: Option<PrivateKey>, flags: nat) {
    (signingKey.Some? ==> signingKey.value.algorithm < NUM_ALGORITHMS) &&
    var h := BlockHeader(dataKey, signingKey, flags);
    |b| == h.size && DecodeKeyBlock(b) == h &&
    BlockAreas(s, b[KEY_BLOCK_HEADER_SIZE..], dataKey, signingKey, b[..h.checksum.dataSize])
  }

  /** The sizes and versions are those of real files. */
  predicate Storable(k: Key) {
    k.algorithm < LIMIT && k.version < LIMIT && |k.data| < 0x1_0000_0000
  }

  class KeyBlock {
    var header: KeyBlockHeader
    const areas: array<Byte>

    constructor (junk: KeyBlockHeader, size: nat)
      ensures fresh(areas) && areas.Length == size
    {
      header := junk;
      areas := new Byte[size];
    }

    function Bytes(): seq<Byte>
      reads this, areas
    {
      EncodeKeyBlock(header) + areas[..]
    }

    /** Everything but the checksum and the signature. */
    method Fill(dataKey: Key, signingKey: Option<PrivateKey>, flags: nat)
      requires signingKey.Some? ==> signingKey.value.algorithm < NUM_ALGORITHMS
      requires areas.Length == BlockHeader(dataKey, signingKey, flags).size - KEY_BLOCK_HEADER_SIZE
      modifies this, areas
      ensures header == BlockHeader(dataKey, signingKey, flags) && areas[..|dataKey.data|] == dataKey.data
    {
      var signedSize := KEY_BLOCK_HEADER_SIZE + |dataKey.data|;
      var sigLen := if signingKey.Some? then SigLen(signingKey.value.algorithm) else 0;
      var blockSize := signedSize + SHA512_DIGEST_SIZE + sigLen;
      header := header.(magic := KEY_BLOCK_MAGIC, major := HEADER_VERSION_MAJOR, minor := 1, size := blockSize,
      flags := flags);
      header := header.(dataKey := PublicKey(KEY_BLOCK_HEADER_SIZE - DATA_KEY_AT, |dataKey.data|, NUM_ALGORITHMS, 0));
      var _, key := PublicKeyCopy(areas, KEY_BLOCK_HEADER_SIZE, DATA_KEY_AT, header.dataKey, dataKey);
      header := header.(dataKey := key);
      header := header.(checksum := Signature(signedSize - KEY_BLOCK_CHECKSUM_AT, SHA512_DIGEST_SIZE, signedSize));
      if signingKey.Some? {
        header := header.(signature := Signature(signedSize + SHA512_DIGEST_SIZE - KEY_BLOCK_SIGNATURE_AT, sigLen,
        signedSize));
      } else {
        header := header.(signature := Signature(0, 0, 0));
      }
    }

    /** Copying the checksum leaves the bytes it was taken over as they were. */
    method CopyChecksum(sum: SignatureBlob)
      requires |sum.data| == sum.header.size == header.checksum.size && sum.header.dataSize == header.checksum.dataSize
      requires KEY_BLOCK_HEADER_SIZE <= header.checksum.dataSize == KEY_BLOCK_CHECKSUM_AT + header.checksum.offset
      requires header.checksum.dataSize + header.checksum.size <= KEY_BLOCK_HEADER_SIZE + areas.Length
      modifies this, areas
      ensures header == old(header)
      ensures areas[..] == Spliced(old(areas[..]), header.checksum.dataSize - KEY_BLOCK_HEADER_SIZE, sum.data)
    {
      var _, checksum := SignatureCopy(areas, KEY_BLOCK_HEADER_SIZE, KEY_BLOCK_CHECKSUM_AT, header.checksum, sum);
      header := header.(checksum := checksum);
    }

    /** Copying the signature leaves the bytes it was taken over as they were. */
    method CopySignature(sig: SignatureBlob)
      requires |sig.data| == sig.header.size == header.signature.size &&
               sig.header.dataSize == header.signature.dataSize
      requires KEY_BLOCK_HEADER_SIZE <= KEY_BLOCK_SIGNATURE_AT + header.signature.offset
      requires KEY_BLOCK_SIGNATURE_AT + header.signature.offset + header.signature.size <=
               KEY_BLOCK_HEADER_SIZE + areas.Length
      modifies this, areas
      ensures header == old(header)
      ensures areas[..] == Spliced(old(areas[..]),
              KEY_BLOCK_SIGNATURE_AT + header.signature.offset - KEY_BLOCK_HEADER_SIZE, sig.data)
    {
      var _, signature := SignatureCopy(areas, KEY_BLOCK_HEADER_SIZE, KEY_BLOCK_SIGNATURE_AT, header.signature, sig);
      header := header.(signature := signature);
    }
  }

  method KeyBlockCreate(s: Scheme, dataKey: Key, signingKey: Option<PrivateKey>, flags: nat, junk: KeyBlockHeader)
    returns (h: KeyBlock)
    requires WellSized(s) && Storable(dataKey) && flags < LIMIT
    requires signingKey.Some? ==> signingKey.value.algorithm < NUM_ALGORITHMS
    ensures fresh(h) && KeyBlockMade(s, h.Bytes(), dataKey, signingKey, flags)
  {
    hide EncodeKeyBlock, KeyBlockMade, BlockAreas, Spliced, KeyBlockFields, Fits;
    var signedSize := KEY_BLOCK_HEADER_SIZE + |dataKey.data|;
    var sigLen := if signingKey.Some? then SigLen(signingKey.value.algorithm) else 0;
    var blockSize := signedSize + SHA512_DIGEST_SIZE + sigLen;
    ghost var header := BlockHeader(dataKey, signingKey, flags);
    HeaderIsStorable(dataKey, signingKey, flags);
    h := new KeyBlock(junk, blockSize - KEY_BLOCK_HEADER_SIZE);
    h.Fill(dataKey, signingKey, flags);
    ghost var a0 := h.areas[..];
    ghost var signed := EncodeKeyBlock(header) + dataKey.data;
    SignedPart(EncodeKeyBlock(header), a0, dataKey.data);

    var sum := CalculateChecksum(s, h.Bytes()[..signedSize]);
    h.CopyChecksum(sum);
    ghost var a1 := h.areas[..];
    AfterChecksum(a0, a1, dataKey.data, sum.data);
    SignedPart(EncodeKeyBlock(header), a1, dataKey.data);

    if signingKey.Some? {
      SignBlock(s, h, signedSize, signingKey.value);
      AfterSignature(a1, h.areas[..], |dataKey.data| + SHA512_DIGEST_SIZE,
                     s.sign(signingKey.value.secret, signingKey.value.algorithm, signed));
    }
    AreasAreMade(s, h.areas[..], a1, dataKey, signingKey, signed);
    BlockIsMade(s, h.areas[..], dataKey, signingKey, flags);
  }

  /** Signs what the header says is signed. */
  method SignBlock(s: Scheme, h: KeyBlock, signedSize: nat, key: PrivateKey)
    requires WellSized(s) && key.algorithm < NUM_ALGORITHMS && KEY_BLOCK_HEADER_SIZE <= signedSize
    requires h.areas.Length == signedSize + SHA512_DIGEST_SIZE + SigLen(key.algorithm) - KEY_BLOCK_HEADER_SIZE
    requires h.header.signature ==
             Signature(signedSize + SHA512_DIGEST_SIZE - KEY_BLOCK_SIGNATURE_AT, SigLen(key.algorithm), signedSize)
    requires |EncodeKeyBlock(h.header)| == KEY_BLOCK_HEADER_SIZE
    modifies h, h.areas
    ensures h.header == old(h.header)
    ensures h.areas[..] == Spliced(old(h.areas[..]), signedSize + SHA512_DIGEST_SIZE - KEY_BLOCK_HEADER_SIZE,
                                   s.sign(key.secret, key.algorithm, old(h.Bytes())[..signedSize]))
  {
    hide EncodeKeyBlock, Spliced;
    var sig := CalculateSignature(s, h.Bytes()[..signedSize], key);
    h.CopySignature(sig);
  }

  lemma HeaderIsStorable(dataKey: Key, signingKey: Option<PrivateKey>, flags: nat)
    requires Storable(dataKey) && flags < LIMIT && (signingKey.Some? ==> signingKey.value.algorithm < NUM_ALGORITHMS)
    ensures var h := BlockHeader(dataKey, signingKey, flags);
            Fits(KeyBlockFields(h)) && |EncodeKeyBlock(h)| == KEY_BLOCK_HEADER_SIZE
  {
    Limits();
    KeyBlockReadsBack(BlockHeader(dataKey, signingKey, flags), []);
  }

  lemma SignedPart(header: seq<Byte>, areas: seq<Byte>, data: seq<Byte>)
    requires |data| <= |areas| && areas[..|data|] == data
    ensures (header + areas)[..|header| + |data|] == header + data
  {
  }

  lemma AfterChecksum(a: seq<Byte>, b: seq<Byte>, data: seq<Byte>, sum: seq<Byte>)
    requires |data| + |sum| <= |a| && a[..|data|] == data && b == Spliced(a, |data|, sum)
    ensures |b| == |a| && b[..|data|] == data && b[|data|..|data| + |sum|] == sum
  {
  }

  lemma AfterSignature(a: seq<Byte>, b: seq<Byte>, at: nat, sig: seq<Byte>)
    requires at + |sig| == |a| && b == Spliced(a, at, sig)
    ensures |b| == |a| && b[..at] == a[..at] && b[at..] == sig
  {
  }

  lemma AreasAreMade(s: Scheme, b: seq<Byte>, a: seq<Byte>, dataKey: Key, signingKey: Option<PrivateKey>,
                     signed: seq<Byte>)
    requires var n := |dataKey.data|; var m := n + SHA512_DIGEST_SIZE;
             m <= |b| == |a| && a[..n] == dataKey.data && a[n..m] == s.sha512(signed) && b[..m] == a[..m] &&
             b[m..] == if signingKey.None? then [] else s.sign(signingKey.value.secret, signingKey.value.algorithm,
             signed)
    ensures BlockAreas(s, b, dataKey, signingKey, signed)
  {
    var n := |dataKey.data|;
    var m := n + SHA512_DIGEST_SIZE;
    assert b[..n] == b[..m][..n] && a[..n] == a[..m][..n] && b[n..m] == b[..m][n..] && a[n..m] == a[..m][n..];
  }

  /** The header and the areas behind it make a complete block. */
  lemma BlockIsMade(s: Scheme, areas: seq<Byte>, dataKey: Key, signingKey: Option<PrivateKey>, flags: nat)
    requires signingKey.Some? ==> signingKey.value.algorithm < NUM_ALGORITHMS
    requires var h := BlockHeader(dataKey, signingKey, flags);
             Fits(KeyBlockFields(h)) && |areas| == h.size - KEY_BLOCK_HEADER_SIZE &&
             BlockAreas(s, areas, dataKey, signingKey, EncodeKeyBlock(h) + dataKey.data)
    ensures KeyBlockMade(s, EncodeKeyBlock(BlockHeader(dataKey, signingKey, flags)) + areas, dataKey, signingKey, flags)
  {
    var h := BlockHeader(dataKey, signingKey, flags);
    KeyBlockReadsBack(h, areas);
    hide EncodeKeyBlock, DecodeKeyBlock, KeyBlockFields, Fits;
    SignedPart(EncodeKeyBlock(h), areas, dataKey.data);
    assert (EncodeKeyBlock(h) + areas)[KEY_BLOCK_HEADER_SIZE..] == areas;
  }

  // ---------- preambles ----------

  /** The header of a finished preamble. */
  function FinishedHeader(version: nat, subkey: Key, bodySig: SignatureBlob, algorithm: nat, flags: nat): PreambleHeader
    requires algorithm < NUM_ALGORITHMS
  {
    var n := |subkey.data|;
    var signed := PREAMBLE_HEADER_SIZE + n + bodySig.header.size;
    PreambleHeader(
      signed + SigLen(algorithm), Signature(signed - PREAMBLE_SIGNATURE_AT, SigLen(algorithm), signed),
      HEADER_VERSION_MAJOR, 1, version,
      PublicKey(PREAMBLE_HEADER_SIZE - KERNEL_SUBKEY_AT, n, subkey.algorithm, subkey.version),
      Signature(PREAMBLE_HEADER_SIZE + n - BODY_SIGNATURE_AT, bodySig.header.size, bodySig.header.dataSize), flags)
  }

  /** The areas behind the header: the kernel subkey, the body signature, and the signature of `signed`. */
  ghost predicate PreambleAreas(s: Scheme, areas: seq<Byte>, subkey: Key, bodySig: SignatureBlob, key: PrivateKey,
                                signed: seq<Byte>) {
    var n := |subkey.data|;
    var m := n + |bodySig.data|;
    m <= |areas| && areas[..n] == subkey.data && areas[n..m] == bodySig.data &&
    areas[m..] == s.sign(key.secret, key.algorithm, signed)
  }

  /** A complete preamble: the header, and behind it the kernel subkey, the body signature, and
      the signature of all before. */
  ghost predicate PreambleMade(s: Scheme, p: seq<Byte>, version: nat, subkey: Key, bodySig: SignatureBlob,
                               key: PrivateKey, flags: nat) {
    key.algorithm < NUM_ALGORITHMS && |bodySig.data| == bodySig.header.size &&
    var h := FinishedHeader(version, subkey, bodySig, key.algorithm, flags);
    |p| == h.size && DecodePreamble(p) == h &&
    PreambleAreas(s, p[PREAMBLE_HEADER_SIZE..], subkey, bodySig, key, p[..h.signature.dataSize])
  }

  class Preamble {
    var header: PreambleHeader
    const areas: array<Byte>

    constructor (size: nat)
      ensures fresh(areas) && areas.Length == size
    {
      header := PreambleHeader(0, Signature(0, 0, 0), 0, 0, 0, PublicKey(0, 0, 0, 0), Signature(0, 0, 0), 0);
      areas := new Byte[size](_ => 0);
    }

    function Bytes(): seq<Byte>
      reads this, areas
    {
      EncodePreamble(header) + areas[..]
    }

    /** Everything but the signature of the preamble itself. */
    method Fill(version: nat, subkey: Key, bodySig: SignatureBlob, algorithm: nat, flags: nat)
      requires algorithm < NUM_ALGORITHMS && |bodySig.data| == bodySig.header.size
      requires areas.Length == FinishedHeader(version, subkey, bodySig, algorithm, flags).size - PREAMBLE_HEADER_SIZE
      modifies this, areas
      ensures header == FinishedHeader(version, subkey, bodySig, algorithm, flags)
      ensures areas[..|subkey.data| + |bodySig.data|] == subkey.data + bodySig.data
    {
      var n := |subkey.data|;
      var signedSize := PREAMBLE_HEADER_SIZE + n + bodySig.header.size;
      header := header.(major := HEADER_VERSION_MAJOR, minor := 1, size := signedSize + SigLen(algorithm),
                        firmwareVersion := version, flags := flags);
      header := header.(kernelSubkey := PublicKey(PREAMBLE_HEADER_SIZE - KERNEL_SUBKEY_AT, n, NUM_ALGORITHMS, 0));
      var _, key := PublicKeyCopy(areas, PREAMBLE_HEADER_SIZE, KERNEL_SUBKEY_AT, header.kernelSubkey, subkey);
      header := header.(kernelSubkey := key);
      header := header.(bodySignature := Signature(PREAMBLE_HEADER_SIZE + n - BODY_SIGNATURE_AT, bodySig.header.size,
      0));
      var _, body := SignatureCopy(areas, PREAMBLE_HEADER_SIZE, BODY_SIGNATURE_AT, header.bodySignature, bodySig);
      header := header.(bodySignature := body);
      header := header.(signature := Signature(signedSize - PREAMBLE_SIGNATURE_AT, SigLen(algorithm), signedSize));
    }

    /** Copying the signature leaves the bytes it was taken over as they were. */
    method CopySignature(sig: SignatureBlob)
      requires |sig.data| == sig.header.size == header.signature.size &&
               sig.header.dataSize == header.signature.dataSize
      requires PREAMBLE_HEADER_SIZE <= PREAMBLE_SIGNATURE_AT + header.signature.offset
      requires PREAMBLE_SIGNATURE_AT + header.signature.offset + header.signature.size <=
               PREAMBLE_HEADER_SIZE + areas.Length
      modifies this, areas
      ensures header == old(header)
      ensures areas[..] == Spliced(old(areas[..]),
              PREAMBLE_SIGNATURE_AT + header.signature.offset - PREAMBLE_HEADER_SIZE, sig.data)
    {
      var _, signature := SignatureCopy(areas, PREAMBLE_HEADER_SIZE, PREAMBLE_SIGNATURE_AT, header.signature, sig);
      header := header.(signature := signature);
    }
  }

  method CreateFirmwarePreamble(s: Scheme, version: nat, subkey: Key, bodySig: SignatureBlob, key: PrivateKey,
                                flags: nat)
    returns (h: Preamble)
    requires WellSized(s) && Storable(subkey) && version < LIMIT && flags < 0x1_0000_0000 &&
             key.algorithm < NUM_ALGORITHMS
    requires |bodySig.data| == bodySig.header.size <= 1024 && bodySig.header.dataSize < LIMIT
    ensures fresh(h) && PreambleMade(s, h.Bytes(), version, subkey, bodySig, key, flags)
    ensures h.header.size == |h.Bytes()|
  {
    var signedSize := PREAMBLE_HEADER_SIZE + |subkey.data| + bodySig.header.size;
    ghost var header := FinishedHeader(version, subkey, bodySig, key.algorithm, flags);
    PreambleIsStorable(version, subkey, bodySig, key.algorithm, flags);
    h := new Preamble(signedSize + SigLen(key.algorithm) - PREAMBLE_HEADER_SIZE);
    h.Fill(version, subkey, bodySig, key.algorithm, flags);
    ghost var a := h.areas[..];
    ghost var data := subkey.data + bodySig.data;
    hide EncodePreamble, PreambleMade, PreambleAreas, Spliced;
    SignedPart(EncodePreamble(header), a, data);
    var sig := CalculateSignature(s, h.Bytes()[..signedSize], key);
    h.CopySignature(sig);
    AfterSignature(a, h.areas[..], |data|, sig.data);
    PreambleAreasAreMade(s, h.areas[..], subkey, bodySig, key, EncodePreamble(header) + data);
    PreambleIsMade(s, h.areas[..], version, subkey, bodySig, key, flags);
  }

  lemma PreambleIsStorable(version: nat, subkey: Key, bodySig: SignatureBlob, algorithm: nat, flags: nat)
    requires Storable(subkey) && version < LIMIT && flags < 0x1_0000_0000 && algorithm < NUM_ALGORITHMS
    requires bodySig.header.size <= 1024 && bodySig.header.dataSize < LIMIT
    ensures var h := FinishedHeader(version, subkey, bodySig, algorithm, flags);
            Fits(PreambleFields(h)) && |EncodePreamble(h)| == PREAMBLE_HEADER_SIZE
  {
    Limits();
    PreambleReadsBack(FinishedHeader(version, subkey, bodySig, algorithm, flags), []);
  }

  lemma PreambleAreasAreMade(s: Scheme, b: seq<Byte>, subkey: Key, bodySig: SignatureBlob, key: PrivateKey,
                             signed: seq<Byte>)
    requires var m := |subkey.data| + |bodySig.data|;
             m <= |b| && b[..m] == subkey.data + bodySig.data && b[m..] == s.sign(key.secret, key.algorithm, signed)
    ensures PreambleAreas(s, b, subkey, bodySig, key, signed)
  {
    var n, m := |subkey.data|, |subkey.data| + |bodySig.data|;
    assert b[..n] == b[..m][..n] && b[n..m] == b[..m][n..];
  }

  lemma PreambleIsMade(s: Scheme, areas: seq<Byte>, version: nat, subkey: Key, bodySig: SignatureBlob, key: PrivateKey,
                       flags: nat)
    requires key.algorithm < NUM_ALGORITHMS && |bodySig.data| == bodySig.header.size
    requires var h := FinishedHeader(version, subkey, bodySig, key.algorithm, flags);
             Fits(PreambleFields(h)) && |areas| == h.size - PREAMBLE_HEADER_SIZE &&
             areas[..|subkey.data| + |bodySig.data|] == subkey.data + bodySig.data &&
             PreambleAreas(s, areas, subkey, bodySig, key, EncodePreamble(h) + (subkey.data + bodySig.data))
    ensures var b := EncodePreamble(FinishedHeader(version, subkey, bodySig, key.algorithm, flags)) + areas;
            PreambleMade(s, b, version, subkey, bodySig, key, flags)
  {
    var h := FinishedHeader(version, subkey, bodySig, key.algorithm, flags);
    PreambleReadsBack(h, areas);
    hide EncodePreamble, DecodePreamble, PreambleFields, Fits;
    SignedPart(EncodePreamble(h), areas, subkey.data + bodySig.data);
    assert (EncodePreamble(h) + areas)[PREAMBLE_HEADER_SIZE..] == areas;
  }

  // ---------- the output ----------

  /** Signs a firmware body: the key block, the preamble, and the body unless only the
      verification data is wanted. An empty body is refused. */
  method Vblock(s: Scheme, keyBlock: seq<Byte>, signingKey: PrivateKey, subkey: Key, version: nat, body: seq<Byte>,
                flags: nat, vblockOnly: bool)
    returns (out: Option<seq<Byte>>, ghost preamble: seq<Byte>)
    requires WellSized(s) && Storable(subkey) && version < LIMIT && flags < 0x1_0000_0000
    requires signingKey.algorithm < NUM_ALGORITHMS && |body| < LIMIT
    ensures out.None? <==> body == []
    ensures out.Some? ==>
              PreambleMade(s, preamble, version, subkey, CalculateSignature(s, body, signingKey), signingKey, flags) &&
              out.value == keyBlock + preamble + if vblockOnly then [] else body
  {
    preamble := [];
    if |body| == 0 { return None, []; }
    var bodySig := CalculateSignature(s, body, signingKey);
    var p := CreateFirmwarePreamble(s, version, subkey, bodySig, signingKey, flags);
    preamble := p.Bytes();
    assert preamble[..p.header.size] == preamble;
    var file := keyBlock + p.Bytes()[..p.header.size];
    if !vblockOnly { file := file + body; }
    out := Some(file);
  }
}
