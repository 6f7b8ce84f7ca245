/** Verification of signed firmware: containment in wrapping 64-bit arithmetic, key blocks,
    preambles, and the chain from the signing key to the firmware body. */
module VbootVerify {
  import opened Wrappers
  import opened Bytes
  import opened VbootLayout

  /** The signature scheme and the hash, as far as the format sees them. */
  datatype Scheme = Scheme(
    verify: (seq<Byte>, nat, seq<Byte>, seq<Byte>) -> bool,   // key data, algorithm, data, signature
    sign: (int, nat, seq<Byte>) -> seq<Byte>,                 // secret, algorithm, data
    sha512: seq<Byte> -> seq<Byte>)

  const NUM_ALGORITHMS := 12
  const SHA512_DIGEST_SIZE := 64

  /** Lengths of signatures, by algorithm. */
  function SigLen(algorithm: nat): (n: nat)
    requires algorithm < NUM_ALGORITHMS
    ensures 128 <= n <= 1024
  {
    if algorithm < 3 then 128 else if algorithm < 6 then 256 else if algorithm < 9 then 512 else 1024
  }

  // ---------- containment ----------

  /** Unsigned 64-bit addition. */
  function Add64(a: nat, b: nat): nat {
    (a + b) % LIMIT
  }

  /** The member at offset `at` and the data it points to lie inside the parent. */
  predicate Inside(at: nat, parentSize: nat, memberSize: nat, dataOffset: nat, dataSize: nat) {
    at + memberSize <= parentSize && at + dataOffset + dataSize <= parentSize
  }

  /** Zero if inside, one if not; sums that would wrap around are recognised before they are taken. */
  method VerifyMemberInside(at: nat, parentSize: nat, memberSize: nat, dataOffset: nat, dataSize: nat)
    returns (error: int)
    requires at < LIMIT && parentSize < LIMIT && memberSize < LIMIT && dataOffset < LIMIT && dataSize < LIMIT
    ensures error == 0 || error == 1
    ensures error == 0 <==> Inside(at, parentSize, memberSize, dataOffset, dataSize)
  {
    var end := at;
    if end > parentSize { return 1; }
    if LIMIT - 1 - end < memberSize { return 1; }
    if Add64(end, memberSize) > parentSize { return 1; }
    if LIMIT - 1 - end < dataOffset { return 1; }
    end := Add64(end, dataOffset);
    if end > parentSize { return 1; }
    if LIMIT - 1 - end < dataSize { return 1; }
    if Add64(end, dataSize) > parentSize { return 1; }
    return 0;
  }

  // ---------- keys and signed data ----------

  /** A key taken out of a header, with its data. */
  datatype Key = Key(algorithm: nat, version: nat, data: seq<Byte>)

  /** The processed key data has the size of its algorithm and starts with its number of words. */
  predicate Usable(k: Key) {
    k.algorithm < NUM_ALGORITHMS && |k.data| == 2 * SigLen(k.algorithm) + 8 &&
    4 * Number(k.data[..4]) == SigLen(k.algorithm)
  }

  /** The bytes that a header at `at` in `s` points to. */
  function Pointed(s: seq<Byte>, at: nat, offset: nat, size: nat): (d: seq<Byte>)
    requires at + offset + size <= |s|
    ensures |d| == size
  {
    s[at + offset..at + offset + size]
  }

  /** `signature` is a signature by `k` over the first `dataSize` bytes of the data. */
  predicate Signed(s: Scheme, k: Key, data: seq<Byte>, dataSize: nat, signature: seq<Byte>)
    requires k.algorithm < NUM_ALGORITHMS
  {
    |signature| == SigLen(k.algorithm) && dataSize <= |data| &&
    s.verify(k.data, k.algorithm, data[..dataSize], signature)
  }

  method PublicKeyToRSA(k: Key) returns (usable: bool)
    ensures usable == Usable(k)
  {
    if NUM_ALGORITHMS <= k.algorithm { return false; }
    var keySize := 2 * SigLen(k.algorithm) + 4 + 4;
    if keySize != |k.data| { return false; }
    // parsing the buffer: the number of words, one more word, and two arrays of that many words
    var keyLen := Number(k.data[..4]) * 4;
    if keyLen != 128 && keyLen != 256 && keyLen != 512 && keyLen != 1024 { return false; }
    return 4 + 4 + keyLen + keyLen == |k.data|;
  }

  method VerifyData(s: Scheme, data: seq<Byte>, sig: Signature, signature: seq<Byte>, k: Key) returns (error: int)
    requires k.algorithm < NUM_ALGORITHMS && |signature| == sig.size
    ensures error == 0 <==> Signed(s, k, data, sig.dataSize, signature)
  {
    if sig.size != SigLen(k.algorithm) { return 1; }
    if sig.dataSize > |data| { return 1; }
    if !s.verify(k.data, k.algorithm, data[..sig.dataSize], signature) { return 1; }
    return 0;
  }

  // ---------- key blocks ----------

  datatype Code =
    | Success | KeyBlockInvalid | KeyBlockSignature | KeyBlockHash | PublicKeyInvalid | PreambleInvalid
    | PreambleSignature

  /** The first eight bytes of the magic word, as a number. */
  const KEY_BLOCK_MAGIC: nat := 0x4e4f_4b2d_474e_494b

  const HEADER_VERSION_MAJOR := 2

  predicate SignatureInside(at: nat, size: nat, sig: Signature) {
    Inside(at, size, SIGNATURE_SIZE, sig.offset, sig.size)
  }

  predicate KeyInside(at: nat, size: nat, key: PublicKey) {
    Inside(at, size, PUBLIC_KEY_SIZE, key.offset, key.size)
  }

  /** The header can be read and the block is as long as it says. */
  predicate KeyBlockPresent(b: seq<Byte>) {
    KEY_BLOCK_HEADER_SIZE <= |b| &&
    var h := DecodeKeyBlock(b);
    h.magic == KEY_BLOCK_MAGIC && h.major == HEADER_VERSION_MAJOR && h.size <= |b|
  }

  /** The data key lies in the part of the block that `sig` covers, and that is in the block. */
  predicate CoversDataKey(b: seq<Byte>, sig: Signature)
    requires KEY_BLOCK_HEADER_SIZE <= |b|
  {
    var h := DecodeKeyBlock(b);
    sig.dataSize <= h.size && KEY_BLOCK_HEADER_SIZE <= sig.dataSize && KeyInside(DATA_KEY_AT, sig.dataSize, h.dataKey)
  }

  /** The block is signed with the key. */
  predicate KeyBlockSigned(s: Scheme, b: seq<Byte>, k: Key) {
    KeyBlockPresent(b) &&
    var h := DecodeKeyBlock(b);
    SignatureInside(KEY_BLOCK_SIGNATURE_AT, h.size, h.signature) && Usable(k) && h.signature.dataSize <= h.size &&
    Signed(s, k, b, h.signature.dataSize, Pointed(b, KEY_BLOCK_SIGNATURE_AT, h.signature.offset, h.signature.size))
  }

  /** The block carries its own checksum. */
  predicate KeyBlockHashed(s: Scheme, b: seq<Byte>) {
    KeyBlockPresent(b) &&
    var h := DecodeKeyBlock(b);
    SignatureInside(KEY_BLOCK_CHECKSUM_AT, h.size, h.checksum) && h.checksum.size == SHA512_DIGEST_SIZE &&
    h.checksum.dataSize <= h.size &&
    s.sha512(b[..h.checksum.dataSize]) == Pointed(b, KEY_BLOCK_CHECKSUM_AT, h.checksum.offset, h.checksum.size)
  }

  method VerifySignatureInside(at: nat, size: nat, sig: Signature) returns (error: int)
    requires at < LIMIT && size < LIMIT && SignatureFits(sig)
    ensures error == 0 <==> SignatureInside(at, size, sig)
  {
    error := VerifyMemberInside(at, size, SIGNATURE_SIZE, sig.offset, sig.size);
  }

  method VerifyPublicKeyInside(at: nat, size: nat, key: PublicKey) returns (error: int)
    requires at < LIMIT && size < LIMIT && KeyFits(key)
    ensures error == 0 <==> KeyInside(at, size, key)
  {
    error := VerifyMemberInside(at, size, PUBLIC_KEY_SIZE, key.offset, key.size);
  }

  /** Accepts a block exactly if it is signed (or hashed) and the data key is covered. The codes
      tell a missing key and a failed signature or hash from a malformed block. */
  method KeyBlockVerify(s: Scheme, b: seq<Byte>, key: Option<Key>, hashOnly: bool) returns (code: Code)
    requires |b| < LIMIT
    ensures code == Success <==>
              if hashOnly then KeyBlockHashed(s, b) && CoversDataKey(b, DecodeKeyBlock(b).checksum)
              else key.Some? && KeyBlockSigned(s, b, key.value) && CoversDataKey(b, DecodeKeyBlock(b).signature)
    ensures code == KeyBlockHash ==> hashOnly && KeyBlockPresent(b) && !KeyBlockHashed(s, b)
    ensures code == KeyBlockSignature ==>
              !hashOnly && key.Some? && Usable(key.value) && KeyBlockPresent(b) && !KeyBlockSigned(s, b, key.value)
    ensures code == PublicKeyInvalid ==> !hashOnly && KeyBlockPresent(b) && (key.None? || !Usable(key.value))
  {
    if |b| < KEY_BLOCK_HEADER_SIZE { return KeyBlockInvalid; }
    var h := DecodeKeyBlock(b);
    KeyBlockIsBounded(b);
    if h.magic != KEY_BLOCK_MAGIC { return KeyBlockInvalid; }
    if h.major != HEADER_VERSION_MAJOR { return KeyBlockInvalid; }
    if |b| < h.size { return KeyBlockInvalid; }
    if !hashOnly && key.None? { return PublicKeyInvalid; }
    hide DecodeKeyBlock, Usable;
    var sig;
    if hashOnly {
      sig := h.checksum;
      var outside := VerifySignatureInside(KEY_BLOCK_CHECKSUM_AT, h.size, sig);
      if outside != 0 { return KeyBlockInvalid; }
      if sig.size != SHA512_DIGEST_SIZE { return KeyBlockInvalid; }
      if h.size < sig.dataSize { return KeyBlockInvalid; }
      if s.sha512(b[..sig.dataSize]) != Pointed(b, KEY_BLOCK_CHECKSUM_AT, sig.offset, sig.size) { return KeyBlockHash; }
    } else {
      sig := h.signature;
      var outside := VerifySignatureInside(KEY_BLOCK_SIGNATURE_AT, h.size, sig);
      if outside != 0 { return KeyBlockInvalid; }
      var usable := PublicKeyToRSA(key.value);
      if !usable { return PublicKeyInvalid; }
      if h.size < sig.dataSize { return KeyBlockInvalid; }
      var rv := VerifySigned(s, b, sig, key.value);
      if rv != 0 { return KeyBlockSignature; }
    }
    if sig.dataSize < KEY_BLOCK_HEADER_SIZE { return KeyBlockInvalid; }
    var outside := VerifyPublicKeyInside(DATA_KEY_AT, h.size, h.dataKey);
    if outside != 0 { return KeyBlockInvalid; }
    outside := VerifyPublicKeyInside(DATA_KEY_AT, sig.dataSize, h.dataKey);
    if outside != 0 { return KeyBlockInvalid; }
    return Success;
  }

  method VerifySigned(s: Scheme, b: seq<Byte>, sig: Signature, k: Key) returns (error: int)
    requires Usable(k) && KEY_BLOCK_SIGNATURE_AT + sig.offset + sig.size <= |b|
    ensures error == 0 <==> Signed(s, k, b, sig.dataSize, Pointed(b, KEY_BLOCK_SIGNATURE_AT, sig.offset, sig.size))
  {
    error := VerifyData(s, b, sig, Pointed(b, KEY_BLOCK_SIGNATURE_AT, sig.offset, sig.size), k);
  }

  // ---------- preambles ----------

  /** The preamble is signed with the key. */
  predicate PreambleSigned(s: Scheme, p: seq<Byte>, k: Key)
    requires k.algorithm < NUM_ALGORITHMS
  {
    PREAMBLE_2_0_SIZE <= |p| &&
    var h := DecodePreamble(p);
    h.major == HEADER_VERSION_MAJOR && h.size <= |p| && SignatureInside(PREAMBLE_SIGNATURE_AT, h.size, h.signature) &&
    h.signature.dataSize <= h.size &&
    Signed(s, k, p, h.signature.dataSize, Pointed(p, PREAMBLE_SIGNATURE_AT, h.signature.offset, h.signature.size))
  }

  /** The whole header, the body signature and the kernel subkey lie in the signed part. */
  predicate CoversPreamble(p: seq<Byte>)
    requires PREAMBLE_2_0_SIZE <= |p|
  {
    var h := DecodePreamble(p);
    PREAMBLE_HEADER_SIZE <= h.signature.dataSize &&
    SignatureInside(BODY_SIGNATURE_AT, h.signature.dataSize, h.bodySignature) &&
    KeyInside(KERNEL_SUBKEY_AT, h.signature.dataSize, h.kernelSubkey)
  }

  method VerifyFirmwarePreamble(s: Scheme, p: seq<Byte>, k: Key) returns (code: Code)
    requires |p| < LIMIT && k.algorithm < NUM_ALGORITHMS
    ensures code == Success <==> PreambleSigned(s, p, k) && CoversPreamble(p)
    ensures code == PreambleSignature ==> PREAMBLE_2_0_SIZE <= |p| && !PreambleSigned(s, p, k)
  {
    if |p| < PREAMBLE_2_0_SIZE { return PreambleInvalid; }
    var h := DecodePreamble(p);
    var sig := h.signature;
    PreambleIsBounded(p);
    if h.major != HEADER_VERSION_MAJOR { return PreambleInvalid; }
    if |p| < h.size { return PreambleInvalid; }
    hide DecodePreamble;
    var outside := VerifySignatureInside(PREAMBLE_SIGNATURE_AT, h.size, sig);
    if outside != 0 { return PreambleInvalid; }
    if h.size < sig.dataSize { return PreambleInvalid; }
    var rv := VerifyData(s, p, sig, Pointed(p, PREAMBLE_SIGNATURE_AT, sig.offset, sig.size), k);
    if rv != 0 { return PreambleSignature; }
    if sig.dataSize < PREAMBLE_HEADER_SIZE { return PreambleInvalid; }
    outside := VerifySignatureInside(BODY_SIGNATURE_AT, sig.dataSize, h.bodySignature);
    if outside != 0 { return PreambleInvalid; }
    outside := VerifyPublicKeyInside(KERNEL_SUBKEY_AT, sig.dataSize, h.kernelSubkey);
    if outside != 0 { return PreambleInvalid; }
    // the space for the fields added in version 2.1 is there: it has been signed
    if h.minor >= 1 { assert |p| >= PREAMBLE_HEADER_SIZE; }
    return Success;
  }

  /** The flags, which headers before 2.1 do not have. */
  function FlagsOf(p: seq<Byte>): nat
    requires PREAMBLE_2_0_SIZE <= |p|
  {
    var h := DecodePreamble(p);
    if h.minor < 1 then 0 else h.flags
  }

  // ---------- the whole blob ----------

  /** The key that a public key header at `at` refers to. */
  function KeyAt(s: seq<Byte>, at: nat, key: PublicKey): Key
    requires at + key.offset + key.size <= |s|
  {
    Key(key.algorithm, key.version, Pointed(s, at, key.offset, key.size))
  }

  function DataKeyOf(blob: seq<Byte>): Key
    requires KeyBlockPresent(blob) && CoversDataKey(blob, DecodeKeyBlock(blob).signature)
  {
    KeyAt(blob, DATA_KEY_AT, DecodeKeyBlock(blob).dataKey)
  }

  function AfterKeyBlock(blob: seq<Byte>): seq<Byte>
    requires KeyBlockPresent(blob)
  {
    blob[DecodeKeyBlock(blob).size..]
  }

  function SubkeyOf(p: seq<Byte>): Key
    requires PREAMBLE_2_0_SIZE <= |p| && CoversPreamble(p) && DecodePreamble(p).signature.dataSize <= |p|
  {
    KeyAt(p, KERNEL_SUBKEY_AT, DecodePreamble(p).kernelSubkey)
  }

  /** The body, from the file given for it or else what comes after the preamble. */
  function BodyOf(p: seq<Byte>, file: Option<seq<Byte>>): seq<Byte>
    requires PREAMBLE_2_0_SIZE <= |p| && DecodePreamble(p).size <= |p|
  {
    if file.Some? then file.value else p[DecodePreamble(p).size..]
  }

  /** The body is signed with the key, unless the flags ask for the read-only path. */
  predicate BodyAccepted(s: Scheme, p: seq<Byte>, k: Key, body: seq<Byte>)
    requires k.algorithm < NUM_ALGORITHMS && PreambleSigned(s, p, k) && CoversPreamble(p)
  {
    FlagsOf(p) % 2 == 1 ||
    var sig := DecodePreamble(p).bodySignature;
    Signed(s, k, body, sig.dataSize, Pointed(p, BODY_SIGNATURE_AT, sig.offset, sig.size))
  }

  predicate ChainStart(s: Scheme, blob: seq<Byte>, key: Key) {
    KeyBlockSigned(s, blob, key) && CoversDataKey(blob, DecodeKeyBlock(blob).signature) && Usable(DataKeyOf(blob))
  }

  predicate ChainNext(s: Scheme, blob: seq<Byte>, key: Key) {
    ChainStart(s, blob, key) && PreambleSigned(s, AfterKeyBlock(blob), DataKeyOf(blob)) &&
    CoversPreamble(AfterKeyBlock(blob))
  }

  /** Every link of the chain holds: key block, data key, preamble, body. */
  predicate Accepted(s: Scheme, blob: seq<Byte>, key: Key, file: Option<seq<Byte>>) {
    ChainNext(s, blob, key) &&
    BodyAccepted(s, AfterKeyBlock(blob), DataKeyOf(blob), BodyOf(AfterKeyBlock(blob), file))
  }

  datatype Output = Output(kernelSubkey: Key, body: seq<Byte>)

  method Verify(s: Scheme, blob: seq<Byte>, key: Key, file: Option<seq<Byte>>) returns (out: Option<Output>)
    requires |blob| < LIMIT
    ensures out.Some? <==> Accepted(s, blob, key, file)
    ensures out.Some? ==>
              out.value == Output(SubkeyOf(AfterKeyBlock(blob)), BodyOf(AfterKeyBlock(blob), file))
  {
    hide DecodeKeyBlock, DecodePreamble, Usable, Signed;
    var now := 0;
    var code := KeyBlockVerify(s, blob, Some(key), false);
    if code != Success { return None; }
    var block := DecodeKeyBlock(blob);
    now := now + block.size;
    var dataKey := KeyAt(blob, DATA_KEY_AT, block.dataKey);
    var usable := PublicKeyToRSA(dataKey);
    if !usable { return None; }
    UsableIsKnown(dataKey);
    var p := blob[now..];
    code := VerifyFirmwarePreamble(s, p, dataKey);
    if code != Success { return None; }
    var preamble := DecodePreamble(p);
    now := now + preamble.size;
    var flags := FlagsOf(p);
    var body := if file.Some? then file.value else blob[now..];
    assert blob[now..] == p[preamble.size..];
    if flags % 2 == 0 {
      var sig := preamble.bodySignature;
      var rv := VerifyData(s, body, sig, Pointed(p, BODY_SIGNATURE_AT, sig.offset, sig.size), dataKey);
      if rv != 0 { return None; }
    }
    out := Some(Output(KeyAt(p, KERNEL_SUBKEY_AT, preamble.kernelSubkey), body));
  }

  lemma UsableIsKnown(k: Key)
    requires Usable(k)
    ensures k.algorithm < NUM_ALGORITHMS
  {
  }

  // ---------- the chain of trust ----------

  lemma SamePrefix<T>(a: seq<T>, b: seq<T>, n: nat, i: nat, j: nat)
    requires n <= |a| && n <= |b| && a[..n] == b[..n] && i <= j <= n
    ensures a[i..j] == b[i..j]
  {
    assert a[i..j] == a[..n][i..j] && b[i..j] == b[..n][i..j];
  }

  lemma SameKeyBlockHeader(a: seq<Byte>, b: seq<Byte>, n: nat)
    requires KEY_BLOCK_HEADER_SIZE <= n <= |a| && n <= |b| && a[..n] == b[..n]
    ensures DecodeKeyBlock(a) == DecodeKeyBlock(b)
  {
    KeyBlockSizes();
    SamePrefix(a, b, n, 0, KEY_BLOCK_HEADER_SIZE);
    DecodeOfPrefix(a, b, KEY_BLOCK_WIDTHS);
  }

  lemma SamePreambleHeader(a: seq<Byte>, b: seq<Byte>, n: nat)
    requires PREAMBLE_HEADER_SIZE <= n <= |a| && n <= |b| && a[..n] == b[..n]
    ensures DecodePreamble(a) == DecodePreamble(b)
  {
    PreambleSizes();
    SamePrefix(a, b, n, 0, PREAMBLE_2_0_SIZE);
    SamePrefix(a, b, n, PREAMBLE_2_0_SIZE, PREAMBLE_HEADER_SIZE);
    DecodeOfPrefix(a, b, PREAMBLE_2_0_WIDTHS);
  }

  /** The number of bytes that the key block signature, or the preamble signature, covers. */
  function SignedSize(blob: seq<Byte>): nat
    requires KEY_BLOCK_HEADER_SIZE <= |blob|
  {
    DecodeKeyBlock(blob).signature.dataSize
  }

  function PreambleSignedSize(p: seq<Byte>): nat
    requires PREAMBLE_2_0_SIZE <= |p|
  {
    DecodePreamble(p).signature.dataSize
  }

  /** The signed bytes of a key block determine its size and its data key. */
  lemma SignedBlockDeterminesKey(s: Scheme, a: seq<Byte>, b: seq<Byte>, key: Key)
    requires ChainStart(s, a, key) && ChainStart(s, b, key)
    requires SignedSize(a) <= |b| && a[..SignedSize(a)] == b[..SignedSize(a)]
    ensures DataKeyOf(a) == DataKeyOf(b) && DecodeKeyBlock(a).size == DecodeKeyBlock(b).size
  {
    hide DecodeKeyBlock, Usable, Signed;
    var n := SignedSize(a);
    SameKeyBlockHeader(a, b, n);
    var k := DecodeKeyBlock(a).dataKey;
    SamePrefix(a, b, n, DATA_KEY_AT + k.offset, DATA_KEY_AT + k.offset + k.size);
  }

  /** The signed bytes of a preamble determine the flags, the kernel subkey, the body signature
      with the size of what it signs, and where the body starts. */
  lemma SignedPreambleDetermines(s: Scheme, p: seq<Byte>, q: seq<Byte>, k: Key)
    requires k.algorithm < NUM_ALGORITHMS
    requires PreambleSigned(s, p, k) && CoversPreamble(p) && PreambleSigned(s, q, k) && CoversPreamble(q)
    requires PreambleSignedSize(p) <= |q| && p[..PreambleSignedSize(p)] == q[..PreambleSignedSize(p)]
    ensures SubkeyOf(p) == SubkeyOf(q) && FlagsOf(p) == FlagsOf(q)
    ensures var h := DecodePreamble(p);
            h == DecodePreamble(q) &&
            Pointed(p, BODY_SIGNATURE_AT, h.bodySignature.offset, h.bodySignature.size)
            == Pointed(q, BODY_SIGNATURE_AT, h.bodySignature.offset, h.bodySignature.size)
  {
    hide DecodePreamble, Signed;
    var n := PreambleSignedSize(p);
    SamePreambleHeader(p, q, n);
    var h := DecodePreamble(p);
    SamePrefix(p, q, n, KERNEL_SUBKEY_AT + h.kernelSubkey.offset,
               KERNEL_SUBKEY_AT + h.kernelSubkey.offset + h.kernelSubkey.size);
    var sig := h.bodySignature;
    SamePrefix(p, q, n, BODY_SIGNATURE_AT + sig.offset, BODY_SIGNATURE_AT + sig.offset + sig.size);
  }

  /** Two accepted blobs with the same signed parts agree on the data key, the kernel subkey, the
      flags and the place where the body starts; nothing outside the signed parts matters for them. */
  lemma ChainOfTrust(s: Scheme, a: seq<Byte>, b: seq<Byte>, key: Key, fileA: Option<seq<Byte>>,
                     fileB: Option<seq<Byte>>)
    requires Accepted(s, a, key, fileA) && Accepted(s, b, key, fileB)
    requires SignedSize(a) <= |b| && a[..SignedSize(a)] == b[..SignedSize(a)]
    requires var p, q := AfterKeyBlock(a), AfterKeyBlock(b);
             PreambleSignedSize(p) <= |q| && p[..PreambleSignedSize(p)] == q[..PreambleSignedSize(p)]
    ensures DataKeyOf(a) == DataKeyOf(b)
    ensures var p, q := AfterKeyBlock(a), AfterKeyBlock(b);
            SubkeyOf(p) == SubkeyOf(q) && FlagsOf(p) == FlagsOf(q) &&
            DecodeKeyBlock(a).size + DecodePreamble(p).size == DecodeKeyBlock(b).size + DecodePreamble(q).size
  {
    hide DecodeKeyBlock, DecodePreamble, Usable, Signed, PreambleSigned, CoversPreamble;
    SignedBlockDeterminesKey(s, a, b, key);
    UsableIsKnown(DataKeyOf(a));
    SignedPreambleDetermines(s, AfterKeyBlock(a), AfterKeyBlock(b), DataKeyOf(a));
  }
}
