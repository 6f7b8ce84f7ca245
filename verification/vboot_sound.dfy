/** What acceptance means, said on the bytes of the blob: each part has been verified by the signature scheme,
    with the key that the part before it holds. */
module VbootSound {
  import opened Wrappers
  import opened Bytes
  import opened VbootLayout
  import opened VbootSign
  import opened VbootVerify
  import Sequences

  // ---------- the headers, byte by byte ----------

  function U64(s: seq<Byte>, at: nat): nat
    requires at + 8 <= |s|
  {
    Number(s[at..at + 8])
  }

  function U32(s: seq<Byte>, at: nat): nat
    requires at + 4 <= |s|
  {
    Number(s[at..at + 4])
  }

  lemma {:induction false} DecodedAt(s: seq<Byte>, widths: seq<nat>, i: nat)
    requires Total(widths) <= |s| && i < |widths|
    ensures Total(widths[..i]) + widths[i] <= Total(widths)
    ensures Decode(s, widths)[i] == Number(s[Total(widths[..i])..Total(widths[..i]) + widths[i]])
  {
    hide Number;
    if i > 0 {
      var w, n := widths[0], Total(widths[1..][..i - 1]);
      DecodedAt(s[w..], widths[1..], i - 1);
      assert widths[..i][1..] == widths[1..][..i - 1];
      Sequences.Shift(s, w, n, n + widths[i]);
    }
  }

  lemma AllDecodedAt(s: seq<Byte>, widths: seq<nat>, sums: seq<nat>)
    requires Total(widths) <= |s| && |sums| == |widths| + 1 && sums[0] == 0
    requires forall j | 0 <= j < |widths| :: sums[j + 1] == sums[j] + widths[j]
    ensures forall i | 0 <= i < |widths| ::
              sums[i] + widths[i] <= |s| && Decode(s, widths)[i] == Number(s[sums[i]..sums[i] + widths[i]])
  {
    hide Decode, Total, Number;
    forall i | 0 <= i < |widths|
      ensures sums[i] + widths[i] <= |s| && Decode(s, widths)[i] == Number(s[sums[i]..sums[i] + widths[i]])
    {
      RunningTotals(widths, sums, i);
      DecodedAt(s, widths, i);
    }
  }

  const KEY_BLOCK_PLACES: seq<nat> := [0, 8, 12, 16, 24, 32, 40, 48, 56, 64, 72, 80, 88, 96, 104, 112]
  const PREAMBLE_PLACES: seq<nat> := [0, 8, 16, 24, 32, 36, 40, 48, 56, 64, 72, 80, 88, 96, 104]

  /** Where the fields of a key block header lie. */
  lemma KeyBlockLaidOut(b: seq<Byte>)
    requires 112 <= |b|
    ensures var h := DecodeKeyBlock(b);
            h.magic == U64(b, 0) && h.major == U32(b, 8) && h.minor == U32(b, 12) && h.size == U64(b, 16) &&
            h.signature == Signature(U64(b, 24), U64(b, 32), U64(b, 40)) &&
            h.checksum == Signature(U64(b, 48), U64(b, 56), U64(b, 64)) && h.flags == U64(b, 72) &&
            h.dataKey == PublicKey(U64(b, 80), U64(b, 88), U64(b, 96), U64(b, 104))
  {
    KeyBlockSizes();
    hide Decode, Total, Number;
    AllDecodedAt(b, KEY_BLOCK_WIDTHS, KEY_BLOCK_PLACES);
  }

  /** Where the fields of a preamble header lie. */
  lemma PreambleLaidOut(p: seq<Byte>)
    requires 104 <= |p|
    ensures var h := DecodePreamble(p);
            h.size == U64(p, 0) && h.signature == Signature(U64(p, 8), U64(p, 16), U64(p, 24)) &&
            h.major == U32(p, 32) && h.minor == U32(p, 36) && h.firmwareVersion == U64(p, 40) &&
            h.kernelSubkey == PublicKey(U64(p, 48), U64(p, 56), U64(p, 64), U64(p, 72)) &&
            h.bodySignature == Signature(U64(p, 80), U64(p, 88), U64(p, 96)) &&
            (108 <= |p| ==> h.flags == U32(p, 104))
  {
    PreambleSizes();
    hide Decode, Total, Number;
    AllDecodedAt(p, PREAMBLE_2_0_WIDTHS, PREAMBLE_PLACES);
  }

  // ---------- what the checks mean ----------

  /** 1024 bits for the first three algorithms, and twice as many for each three more. */
  lemma SignatureLengths(algorithm: nat)
    requires algorithm < 12
    ensures var n := SigLen(algorithm);
            (algorithm < 3 ==> 8 * n == 1024) && (algorithm >= 3 ==> n == 2 * SigLen(algorithm - 3))
  {
  }

  /** A key whose data has been looked at. */
  lemma UsableKeys(k: Key)
    requires Usable(k)
    ensures k.algorithm < 12 && |k.data| == 2 * SigLen(k.algorithm) + 8
    ensures 4 * U32(k.data, 0) == SigLen(k.algorithm)
  {
  }

  lemma KeyBlockIsVerified(s: Scheme, b: seq<Byte>, k: Key)
    requires KeyBlockSigned(s, b, k)
    ensures KeyBlockPresent(b) && 112 <= |b| && U64(b, 16) <= |b| && U64(b, 40) <= U64(b, 16)
    ensures 24 + U64(b, 24) + U64(b, 32) <= U64(b, 16) && U64(b, 32) == SigLen(k.algorithm)
    ensures s.verify(k.data, k.algorithm, b[..U64(b, 40)], b[24 + U64(b, 24)..24 + U64(b, 24) + U64(b, 32)])
  {
    hide DecodeKeyBlock, Usable;
    KeyBlockLaidOut(b);
    UsableKeys(k);
  }

  lemma KeyBlockIsHashed(s: Scheme, b: seq<Byte>)
    requires KeyBlockHashed(s, b)
    ensures 112 <= |b| && U64(b, 16) <= |b| && U64(b, 64) <= U64(b, 16)
    ensures U64(b, 56) == 64 && 48 + U64(b, 48) + 64 <= U64(b, 16)
    ensures s.sha512(b[..U64(b, 64)]) == b[48 + U64(b, 48)..48 + U64(b, 48) + 64]
  {
    hide DecodeKeyBlock;
    KeyBlockLaidOut(b);
  }

  lemma PreambleIsVerified(s: Scheme, p: seq<Byte>, k: Key)
    requires k.algorithm < 12 && PreambleSigned(s, p, k)
    ensures 104 <= |p| && U64(p, 0) <= |p| && U64(p, 24) <= U64(p, 0)
    ensures 8 + U64(p, 8) + U64(p, 16) <= U64(p, 0) && U64(p, 16) == SigLen(k.algorithm)
    ensures s.verify(k.data, k.algorithm, p[..U64(p, 24)], p[8 + U64(p, 8)..8 + U64(p, 8) + U64(p, 16)])
  {
    hide DecodePreamble;
    PreambleLaidOut(p);
  }

  /** The data key lies inside the signed bytes of the block, and is what the header says. */
  lemma DataKeyIsSigned(b: seq<Byte>)
    requires KeyBlockPresent(b) && CoversDataKey(b, DecodeKeyBlock(b).signature)
    ensures 112 <= |b| && 80 + U64(b, 80) + U64(b, 88) <= U64(b, 40) <= |b|
    ensures DataKeyOf(b) == Key(U64(b, 96), U64(b, 104), b[80 + U64(b, 80)..80 + U64(b, 80) + U64(b, 88)])
  {
    hide DecodeKeyBlock;
    KeyBlockLaidOut(b);
  }

  /** So do the kernel subkey and the body signature, and the whole header of the preamble. */
  lemma SubkeyIsSigned(p: seq<Byte>)
    requires 104 <= |p| && CoversPreamble(p) && DecodePreamble(p).signature.dataSize <= |p|
    ensures 108 <= U64(p, 24) <= |p|
    ensures 48 + U64(p, 48) + U64(p, 56) <= U64(p, 24) && 80 + U64(p, 80) + U64(p, 88) <= U64(p, 24)
    ensures SubkeyOf(p) == Key(U64(p, 64), U64(p, 72), p[48 + U64(p, 48)..48 + U64(p, 48) + U64(p, 56)])
    ensures FlagsOf(p) == if U32(p, 36) == 0 then 0 else U32(p, 104)
  {
    hide DecodePreamble;
    PreambleLaidOut(p);
  }

  /** The body has been verified, or the flags ask for the read-only path. */
  lemma BodyIsVerified(s: Scheme, p: seq<Byte>, k: Key, body: seq<Byte>)
    requires k.algorithm < 12 && PreambleSigned(s, p, k) && CoversPreamble(p) && BodyAccepted(s, p, k, body)
    ensures 108 <= |p| && 80 + U64(p, 80) + U64(p, 88) <= |p|
    ensures (U32(p, 36) >= 1 && U32(p, 104) % 2 == 1) ||
            (U64(p, 96) <= |body| && U64(p, 88) == SigLen(k.algorithm) &&
             s.verify(k.data, k.algorithm, body[..U64(p, 96)], p[80 + U64(p, 80)..80 + U64(p, 80) + U64(p, 88)]))
  {
    hide DecodePreamble;
    PreambleLaidOut(p);
  }

  /** An accepted blob: the key verifies the key block; the data key, which is part of what was verified,
      verifies the preamble; and the same key verifies the body, unless the verified flags ask for the
      read-only path. */
  lemma AcceptedIsVerified(s: Scheme, blob: seq<Byte>, key: Key, file: Option<seq<Byte>>)
    requires Accepted(s, blob, key, file)
    ensures 112 <= |blob| && U64(blob, 40) <= U64(blob, 16) <= |blob|
    ensures 24 + U64(blob, 24) + U64(blob, 32) <= |blob| && 80 + U64(blob, 80) + U64(blob, 88) <= U64(blob, 40)
    ensures s.verify(key.data, key.algorithm, blob[..U64(blob, 40)],
                     blob[24 + U64(blob, 24)..24 + U64(blob, 24) + U64(blob, 32)])
    ensures var data, algorithm, p :=
              blob[80 + U64(blob, 80)..80 + U64(blob, 80) + U64(blob, 88)], U64(blob, 96), blob[U64(blob, 16)..];
            108 <= |p| && U64(p, 0) <= |p| && 108 <= U64(p, 24) <= |p| && 8 + U64(p, 8) + U64(p, 16) <= |p| &&
            80 + U64(p, 80) + U64(p, 88) <= U64(p, 24) &&
            s.verify(data, algorithm, p[..U64(p, 24)], p[8 + U64(p, 8)..8 + U64(p, 8) + U64(p, 16)]) &&
            ((U32(p, 36) >= 1 && U32(p, 104) % 2 == 1) ||
             var body := if file.Some? then file.value else p[U64(p, 0)..];
             U64(p, 96) <= |body| &&
             s.verify(data, algorithm, body[..U64(p, 96)], p[80 + U64(p, 80)..80 + U64(p, 80) + U64(p, 88)]))
  {
    hide DecodeKeyBlock, DecodePreamble, Usable, KeyBlockSigned, PreambleSigned, CoversDataKey, CoversPreamble,
         BodyAccepted, DataKeyOf, U64, U32;
    KeyBlockIsVerified(s, blob, key);
    DataKeyIsSigned(blob);
    KeyBlockLaidOut(blob);
    var k, p := DataKeyOf(blob), AfterKeyBlock(blob);
    UsableKeys(k);
    PreambleIsVerified(s, p, k);
    PreambleLaidOut(p);
    SubkeyIsSigned(p);
    BodyIsVerified(s, p, k, BodyOf(p, file));
  }

  // ---------- and nothing else is asked ----------

  /** The part of `s` that the offset at `at` and the size behind it speak of, from `base` on. */
  predicate Has(s: seq<Byte>, base: nat, at: nat, end: nat)
    requires at + 16 <= |s|
  {
    base + U64(s, at) + U64(s, at + 8) <= end <= |s|
  }

  function Part(s: seq<Byte>, base: nat, at: nat): seq<Byte>
    requires at + 16 <= |s| && base + U64(s, at) + U64(s, at + 8) <= |s|
  {
    s[base + U64(s, at)..base + U64(s, at) + U64(s, at + 8)]
  }

  /** The scheme verifies `text` up to the length at `at + 16`, against the part that `at` speaks of. */
  predicate Verifies(s: Scheme, k: Key, text: seq<Byte>, b: seq<Byte>, base: nat, at: nat)
    requires at + 24 <= |b| && Has(b, base, at, |b|)
  {
    k.algorithm < 12 && U64(b, at + 8) == SigLen(k.algorithm) && U64(b, at + 16) <= |text| &&
    s.verify(k.data, k.algorithm, text[..U64(b, at + 16)], Part(b, base, at))
  }

  predicate WellShaped(k: Key) {
    k.algorithm < 12 && |k.data| == 2 * SigLen(k.algorithm) + 8 && 4 * U32(k.data, 0) == SigLen(k.algorithm)
  }

  function KeyBytes(s: seq<Byte>, base: nat, at: nat): Key
    requires at + 32 <= |s| && base + U64(s, at) + U64(s, at + 8) <= |s|
  {
    Key(U64(s, at + 16), U64(s, at + 24), Part(s, base, at))
  }

  predicate BlockVerifies(s: Scheme, b: seq<Byte>, k: Key) {
    112 <= |b| && U64(b, 0) == KEY_BLOCK_MAGIC && U32(b, 8) == 2 && 112 <= U64(b, 40) <= U64(b, 16) <= |b| &&
    Has(b, 24, 24, U64(b, 16)) && Has(b, 80, 80, U64(b, 40)) && WellShaped(k) && Verifies(s, k, b, b, 24, 24)
  }

  predicate PreambleVerifies(s: Scheme, p: seq<Byte>, k: Key) {
    104 <= |p| && U32(p, 32) == 2 && 108 <= U64(p, 24) <= U64(p, 0) <= |p| && Has(p, 8, 8, U64(p, 0)) &&
    Has(p, 80, 80, U64(p, 24)) && Has(p, 48, 48, U64(p, 24)) && Verifies(s, k, p, p, 8, 8)
  }

  lemma BlockExactly(s: Scheme, b: seq<Byte>, k: Key)
    ensures KeyBlockSigned(s, b, k) && CoversDataKey(b, DecodeKeyBlock(b).signature) <==> BlockVerifies(s, b, k)
    ensures BlockVerifies(s, b, k) ==> KeyBlockPresent(b) && DataKeyOf(b) == KeyBytes(b, 80, 80)
  {
    hide DecodeKeyBlock;
    if 112 <= |b| { KeyBlockLaidOut(b); }
    if |k.data| >= 8 { assert k.data[0..4] == k.data[..4]; }
    hide U64, U32, SigLen;
  }

  lemma PreambleExactly(s: Scheme, p: seq<Byte>, k: Key)
    requires k.algorithm < 12
    ensures PreambleSigned(s, p, k) && CoversPreamble(p) <==> PreambleVerifies(s, p, k)
  {
    hide DecodePreamble;
    if 104 <= |p| { PreambleLaidOut(p); }
    hide U64, U32, SigLen;
  }

  lemma BodyExactly(s: Scheme, p: seq<Byte>, k: Key, body: seq<Byte>)
    requires k.algorithm < 12 && PreambleSigned(s, p, k) && CoversPreamble(p) && PreambleVerifies(s, p, k)
    ensures BodyAccepted(s, p, k, body) <==>
            (U32(p, 36) >= 1 && U32(p, 104) % 2 == 1) || Verifies(s, k, body, p, 80, 80)
  {
    hide DecodePreamble;
    PreambleLaidOut(p);
    hide U64, U32, SigLen;
  }

  /** Acceptance is exactly this, on the bytes. */
  lemma AcceptedExactly(s: Scheme, blob: seq<Byte>, key: Key, file: Option<seq<Byte>>)
    ensures Accepted(s, blob, key, file) <==>
            BlockVerifies(s, blob, key) &&
            var k, p := KeyBytes(blob, 80, 80), blob[U64(blob, 16)..];
            WellShaped(k) && PreambleVerifies(s, p, k) &&
            ((U32(p, 36) >= 1 && U32(p, 104) % 2 == 1) ||
             Verifies(s, k, if file.Some? then file.value else p[U64(p, 0)..], p, 80, 80))
  {
    hide DecodeKeyBlock, DecodePreamble, Usable, KeyBlockSigned, PreambleSigned, CoversDataKey, CoversPreamble,
         BodyAccepted, DataKeyOf, U64, U32, PreambleVerifies, BlockVerifies, Verifies, WellShaped;
    BlockExactly(s, blob, key);
    if BlockVerifies(s, blob, key) {
      KeyBlockSize(s, blob, key);
      var k, p := DataKeyOf(blob), AfterKeyBlock(blob);
      UsableExactly(k);
      if WellShaped(k) {
        PreambleExactly(s, p, k);
        if PreambleVerifies(s, p, k) {
          PreambleSize(s, p, k);
          BodyExactly(s, p, k, BodyOf(p, file));
        }
      }
    }
  }

  lemma UsableExactly(k: Key)
    ensures Usable(k) <==> WellShaped(k)
    ensures Usable(k) ==> k.algorithm < 12
  {
  }

  lemma KeyBlockSize(s: Scheme, b: seq<Byte>, k: Key)
    requires BlockVerifies(s, b, k)
    ensures 112 <= |b| && DecodeKeyBlock(b).size == U64(b, 16)
  {
    KeyBlockLaidOut(b);
  }

  lemma PreambleSize(s: Scheme, p: seq<Byte>, k: Key)
    requires PreambleVerifies(s, p, k)
    ensures 108 <= |p| && DecodePreamble(p).size == U64(p, 0) <= |p|
  {
    PreambleLaidOut(p);
  }

  /** A scheme that never verifies anything accepts nothing. */
  lemma NothingVerifies(s: Scheme, blob: seq<Byte>, key: Key, file: Option<seq<Byte>>)
    requires forall data, algorithm, text, signature :: !s.verify(data, algorithm, text, signature)
    ensures !Accepted(s, blob, key, file)
  {
    if Accepted(s, blob, key, file) { AcceptedIsVerified(s, blob, key, file); }
  }

  /** What is given back: the kernel subkey out of the verified bytes of the preamble, and the body. */
  lemma OutputIs(s: Scheme, blob: seq<Byte>, key: Key, file: Option<seq<Byte>>)
    requires Accepted(s, blob, key, file)
    ensures 112 <= |blob| && U64(blob, 16) <= |blob|
    ensures var p := blob[U64(blob, 16)..];
            108 <= |p| && U64(p, 0) <= |p| && 48 + U64(p, 48) + U64(p, 56) <= U64(p, 24) <= |p| &&
            SubkeyOf(AfterKeyBlock(blob)) ==
            Key(U64(p, 64), U64(p, 72), p[48 + U64(p, 48)..48 + U64(p, 48) + U64(p, 56)]) &&
            BodyOf(AfterKeyBlock(blob), file) == if file.Some? then file.value else p[U64(p, 0)..]
  {
    hide DecodeKeyBlock, DecodePreamble, Usable, KeyBlockSigned, PreambleSigned, CoversDataKey, CoversPreamble,
         BodyAccepted, DataKeyOf, SubkeyOf, U64, U32;
    KeyBlockIsVerified(s, blob, key);
    KeyBlockLaidOut(blob);
    var p := AfterKeyBlock(blob);
    UsableKeys(DataKeyOf(blob));
    PreambleIsVerified(s, p, DataKeyOf(blob));
    PreambleLaidOut(p);
    SubkeyIsSigned(p);
  }

  // ---------- what the makers write ----------

  /** A made key block, byte by byte: versions 2.1, its own size, the flags and the data key with its algorithm and
      version as given; the data key lies behind the header, the SHA-512 checksum of both behind it, and the
      signature of both at the end. */
  lemma MadeBlockLaidOut(s: Scheme, b: seq<Byte>, dataKey: Key, signing: Option<PrivateKey>, flags: nat)
    requires KeyBlockMade(s, b, dataKey, signing, flags)
    ensures var n := 112 + |dataKey.data|;
            n + 64 <= |b| && U64(b, 0) == 0x4e4f_4b2d_474e_494b && U32(b, 8) == 2 && U32(b, 12) == 1 &&
            U64(b, 16) == |b| && U64(b, 72) == flags && U64(b, 40) == (if signing.None? then 0 else n) &&
            U64(b, 64) == n && U64(b, 80) == 32 && U64(b, 88) == |dataKey.data| &&
            U64(b, 96) == dataKey.algorithm && U64(b, 104) == dataKey.version && b[112..n] == dataKey.data &&
            b[n..n + 64] == s.sha512(b[..n]) &&
            b[n + 64..] ==
            if signing.None? then [] else s.sign(signing.value.secret, signing.value.algorithm, b[..n])
  {
    hide DecodeKeyBlock, SigLen;
    KeyBlockLaidOut(b);
    hide U64, U32;
    var n := |dataKey.data|;
    Sequences.Shift(b, 112, 0, n);
    Sequences.Shift(b, 112, n, n + 64);
    Sequences.Shift(b, 112, n + 64, |b| - 112);
    assert b[112..][..n] == b[112..][0..n];
    assert b[112..][n + 64..] == b[112..][n + 64..|b| - 112];
  }

  /** A made preamble: versions 2.1, its own size, the firmware version, the flags and the kernel subkey as given; the
      subkey lies behind the header, the body signature behind it, and the signature of all that at the end. */
  lemma MadePreambleLaidOut(s: Scheme, p: seq<Byte>, version: nat, subkey: Key, bodySig: SignatureBlob, key: PrivateKey,
                            flags: nat)
    requires PreambleMade(s, p, version, subkey, bodySig, key, flags)
    ensures var n := 108 + |subkey.data|; var m := n + |bodySig.data|;
            m <= |p| && U64(p, 0) == |p| && U32(p, 32) == 2 && U32(p, 36) == 1 && U64(p, 40) == version &&
            U32(p, 104) == flags && U64(p, 24) == m && U64(p, 96) == bodySig.header.dataSize &&
            U64(p, 48) == 60 && U64(p, 56) == |subkey.data| &&
            U64(p, 64) == subkey.algorithm && U64(p, 72) == subkey.version && p[108..n] == subkey.data &&
            p[n..m] == bodySig.data &&
            p[m..] == s.sign(key.secret, key.algorithm, p[..m])
  {
    hide DecodePreamble, SigLen;
    PreambleLaidOut(p);
    hide U64, U32;
    var n, m := |subkey.data|, |subkey.data| + |bodySig.data|;
    Sequences.Shift(p, 108, 0, n);
    Sequences.Shift(p, 108, n, m);
    Sequences.Shift(p, 108, m, |p| - 108);
    assert p[108..][..n] == p[108..][0..n];
    assert p[108..][m..] == p[108..][m..|p| - 108];
  }
}
