/** Signing, then verifying: what the makers write is what the verifier accepts and gives back. */
module VbootChain {
  import opened Wrappers
  import opened Bytes
  import opened VbootLayout
  import opened VbootVerify
  import opened VbootSign
  import Sequences

  lemma Within<T>(a: seq<T>, b: seq<T>, i: nat, j: nat)
    requires i <= j <= |a|
    ensures (a + b)[i..j] == a[i..j] && (a + b)[|a|..] == b
  {
  }

  /** A made block, with anything after it, is accepted with the key that matches the signing key. */
  lemma MadeBlockIsAccepted(s: Scheme, b: seq<Byte>, rest: seq<Byte>, dataKey: Key, root: Key, signing: PrivateKey,
                            flags: nat)
    requires WellSized(s) && KeyBlockMade(s, b, dataKey, Some(signing), flags) && Pair(s, root, signing)
    ensures KeyBlockSigned(s, b + rest, root) && CoversDataKey(b + rest, DecodeKeyBlock(b + rest).signature)
    ensures DataKeyOf(b + rest) == dataKey && AfterKeyBlock(b + rest) == rest
  {
    hide DecodeKeyBlock, Usable, WellSized;
    var blob, h := b + rest, DecodeKeyBlock(b);
    var signed, n := h.signature.dataSize, |dataKey.data|;
    var areas := b[KEY_BLOCK_HEADER_SIZE..];
    Within(b, rest, 0, KEY_BLOCK_HEADER_SIZE);
    SameKeyBlockHeader(b, blob, KEY_BLOCK_HEADER_SIZE);
    Within(b, rest, 0, signed);
    Within(b, rest, KEY_BLOCK_HEADER_SIZE, signed);
    Within(b, rest, signed + SHA512_DIGEST_SIZE, |b|);
    Sequences.Shift(b, KEY_BLOCK_HEADER_SIZE, 0, n);
    Sequences.Shift(b, KEY_BLOCK_HEADER_SIZE, n + SHA512_DIGEST_SIZE, |areas|);
    var sig := Pointed(blob, KEY_BLOCK_SIGNATURE_AT, h.signature.offset, h.signature.size);
    assert sig == areas[n + SHA512_DIGEST_SIZE..] == s.sign(signing.secret, signing.algorithm, b[..signed]);
    assert blob[..signed] == b[..signed];
    assert Pointed(blob, DATA_KEY_AT, h.dataKey.offset, h.dataKey.size) == areas[..n];
  }

  /** A made block is also accepted by its checksum alone. */
  lemma MadeBlockIsHashed(s: Scheme, b: seq<Byte>, dataKey: Key, signing: Option<PrivateKey>, flags: nat)
    requires KeyBlockMade(s, b, dataKey, signing, flags)
    ensures KeyBlockHashed(s, b) && CoversDataKey(b, DecodeKeyBlock(b).checksum)
  {
    hide DecodeKeyBlock, Usable;
    var h, n := DecodeKeyBlock(b), |dataKey.data|;
    Sequences.Shift(b, KEY_BLOCK_HEADER_SIZE, n, n + SHA512_DIGEST_SIZE);
  }

  lemma MadePreambleIsAccepted(s: Scheme, p: seq<Byte>, rest: seq<Byte>, version: nat, subkey: Key,
                               bodySig: SignatureBlob, k: Key, signing: PrivateKey, flags: nat)
    requires WellSized(s) && PreambleMade(s, p, version, subkey, bodySig, signing, flags) && Pair(s, k, signing)
    ensures k.algorithm < NUM_ALGORITHMS && PreambleSigned(s, p + rest, k) && CoversPreamble(p + rest)
    ensures SubkeyOf(p + rest) == subkey && FlagsOf(p + rest) == flags &&
            (p + rest)[DecodePreamble(p + rest).size..] == rest
    ensures var sig := DecodePreamble(p + rest).bodySignature;
            sig.dataSize == bodySig.header.dataSize &&
            Pointed(p + rest, BODY_SIGNATURE_AT, sig.offset, sig.size) == bodySig.data
  {
    hide DecodePreamble, WellSized;
    var blob, h := p + rest, DecodePreamble(p);
    var signed, n, m := h.signature.dataSize, |subkey.data|, |subkey.data| + |bodySig.data|;
    var areas := p[PREAMBLE_HEADER_SIZE..];
    Within(p, rest, 0, PREAMBLE_HEADER_SIZE);
    SamePreambleHeader(p, blob, PREAMBLE_HEADER_SIZE);
    Within(p, rest, 0, signed);
    Within(p, rest, PREAMBLE_HEADER_SIZE, PREAMBLE_HEADER_SIZE + n);
    Within(p, rest, PREAMBLE_HEADER_SIZE + n, signed);
    Within(p, rest, signed, |p|);
    Sequences.Shift(p, PREAMBLE_HEADER_SIZE, 0, n);
    Sequences.Shift(p, PREAMBLE_HEADER_SIZE, n, m);
    Sequences.Shift(p, PREAMBLE_HEADER_SIZE, m, |areas|);
    var sig := Pointed(blob, PREAMBLE_SIGNATURE_AT, h.signature.offset, h.signature.size);
    assert sig == areas[m..] == s.sign(signing.secret, signing.algorithm, p[..signed]);
    assert blob[..signed] == p[..signed];
    assert Pointed(blob, KERNEL_SUBKEY_AT, h.kernelSubkey.offset, h.kernelSubkey.size) == areas[..n];
    assert Pointed(blob, BODY_SIGNATURE_AT, h.bodySignature.offset, h.bodySignature.size) == areas[n..m];
  }

  /** End to end: a body signed with keys that match is accepted, and the verifier gives back
      exactly the body and the kernel subkey, whether the body comes in the blob or in a file. */
  lemma SignThenVerify(s: Scheme, block: seq<Byte>, preamble: seq<Byte>, body: seq<Byte>, root: Key,
                       rootSecret: PrivateKey, dataKey: Key, dataSecret: PrivateKey, subkey: Key, version: nat,
                       blockFlags: nat, flags: nat)
    requires WellSized(s) && Pair(s, root, rootSecret) && Pair(s, dataKey, dataSecret) && flags % 2 == 0
    requires KeyBlockMade(s, block, dataKey, Some(rootSecret), blockFlags)
    requires PreambleMade(s, preamble, version, subkey, CalculateSignature(s, body, dataSecret), dataSecret, flags)
    ensures Accepted(s, block + preamble + body, root, None)
    ensures var p := AfterKeyBlock(block + preamble + body); SubkeyOf(p) == subkey && BodyOf(p, None) == body
    ensures Accepted(s, block + preamble, root, Some(body))
    ensures SubkeyOf(AfterKeyBlock(block + preamble)) == subkey
  {
    hide DecodeKeyBlock, DecodePreamble, Usable, KeyBlockMade, PreambleMade, PreambleSigned, CoversPreamble,
         WellSized, Pair, Accepted, AfterKeyBlock, SubkeyOf, BodyOf, CalculateSignature;
    LinkByLink(s, block, preamble, body, None, root, rootSecret, dataKey, dataSecret, subkey, version, blockFlags,
               flags, body);
    LinkByLink(s, block, preamble, [], Some(body), root, rootSecret, dataKey, dataSecret, subkey, version, blockFlags,
               flags, body);
    assert block + preamble + body == block + (preamble + body);
    assert block + (preamble + []) == block + preamble;
  }

  lemma LinkByLink(s: Scheme, block: seq<Byte>, preamble: seq<Byte>, rest: seq<Byte>, file: Option<seq<Byte>>,
                   root: Key, rootSecret: PrivateKey, dataKey: Key, dataSecret: PrivateKey, subkey: Key, version: nat,
                   blockFlags: nat, flags: nat, body: seq<Byte>)
    requires WellSized(s) && Pair(s, root, rootSecret) && Pair(s, dataKey, dataSecret) && flags % 2 == 0
    requires KeyBlockMade(s, block, dataKey, Some(rootSecret), blockFlags)
    requires PreambleMade(s, preamble, version, subkey, CalculateSignature(s, body, dataSecret), dataSecret, flags)
    requires body == if file.Some? then file.value else rest
    ensures var blob := block + (preamble + rest);
            Accepted(s, blob, root, file) && AfterKeyBlock(blob) == preamble + rest &&
            SubkeyOf(AfterKeyBlock(blob)) == subkey && BodyOf(AfterKeyBlock(blob), file) == body
  {
    assert dataSecret.algorithm < NUM_ALGORITHMS;
    hide DecodeKeyBlock, DecodePreamble, Usable, KeyBlockMade, PreambleMade, PreambleSigned, CoversPreamble;
    var bodySig := CalculateSignature(s, body, dataSecret);
    MadeBlockIsAccepted(s, block, preamble + rest, dataKey, root, rootSecret, blockFlags);
    MadePreambleIsAccepted(s, preamble, rest, version, subkey, bodySig, dataKey, dataSecret, flags);
    assert body[..|body|] == body;
    assert s.verify(dataKey.data, dataKey.algorithm, body, bodySig.data);
  }

  /** With the flag for the read-only path the body is not looked at: any body is let through. */
  lemma ReadOnlyPathSkipsBody(s: Scheme, block: seq<Byte>, preamble: seq<Byte>, body: seq<Byte>, rest: seq<Byte>,
                              root: Key, rootSecret: PrivateKey, dataKey: Key, dataSecret: PrivateKey, subkey: Key,
                              version: nat, blockFlags: nat, flags: nat)
    requires WellSized(s) && Pair(s, root, rootSecret) && Pair(s, dataKey, dataSecret) && flags % 2 == 1
    requires KeyBlockMade(s, block, dataKey, Some(rootSecret), blockFlags)
    requires PreambleMade(s, preamble, version, subkey, CalculateSignature(s, body, dataSecret), dataSecret, flags)
    ensures Accepted(s, block + (preamble + rest), root, None)
    ensures BodyOf(AfterKeyBlock(block + (preamble + rest)), None) == rest
  {
    assert dataSecret.algorithm < NUM_ALGORITHMS;
    hide DecodeKeyBlock, DecodePreamble, Usable, KeyBlockMade, PreambleMade, PreambleSigned, CoversPreamble;
    MadeBlockIsAccepted(s, block, preamble + rest, dataKey, root, rootSecret, blockFlags);
    MadePreambleIsAccepted(s, preamble, rest, version, subkey, CalculateSignature(s, body, dataSecret), dataKey,
                           dataSecret, flags);
  }

  /** The whole tool chain, run: the block made, the body signed, and the result verified. */
  method SignAndVerify(s: Scheme, root: Key, rootSecret: PrivateKey, dataKey: Key, dataSecret: PrivateKey, subkey: Key,
                       version: nat, blockFlags: nat, flags: nat, body: seq<Byte>, junk: KeyBlockHeader)
    returns (out: Option<Output>)
    requires WellSized(s) && Pair(s, root, rootSecret) && Pair(s, dataKey, dataSecret) && Storable(dataKey) &&
             Storable(subkey)
    requires rootSecret.algorithm < NUM_ALGORITHMS && dataSecret.algorithm < NUM_ALGORITHMS
    requires version < LIMIT && blockFlags < LIMIT && flags < 0x1_0000_0000 && flags % 2 == 0 &&
             0 < |body| < 0x1_0000_0000
    ensures out == Some(Output(subkey, body))
  {
    hide KeyBlockMade, PreambleMade, DecodeKeyBlock, DecodePreamble, Accepted, WellSized, Pair;
    var block := KeyBlockCreate(s, dataKey, Some(rootSecret), blockFlags, junk);
    var b := block.Bytes();
    var blob, preamble := Vblock(s, b, dataSecret, subkey, version, body, flags, false);
    SignThenVerify(s, b, preamble, body, root, rootSecret, dataKey, dataSecret, subkey, version, blockFlags, flags);
    MadeSizes(s, b, preamble, dataKey, rootSecret, blockFlags, version, subkey, body, dataSecret, flags);
    out := Verify(s, blob.value, root, None);
  }

  lemma MadeSizes(s: Scheme, b: seq<Byte>, p: seq<Byte>, dataKey: Key, rootSecret: PrivateKey, blockFlags: nat,
                  version: nat, subkey: Key, body: seq<Byte>, dataSecret: PrivateKey, flags: nat)
    requires dataSecret.algorithm < NUM_ALGORITHMS && Storable(dataKey) && Storable(subkey)
    requires KeyBlockMade(s, b, dataKey, Some(rootSecret), blockFlags)
    requires PreambleMade(s, p, version, subkey, CalculateSignature(s, body, dataSecret), dataSecret, flags)
    ensures |b| < 0x2_0000_0000 && |p| < 0x2_0000_0000
  {
  }
}
