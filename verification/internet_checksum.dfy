/** The Internet checksum (section 1 of RFC 1071) as the pinger computes it, on machines of either byte order. */
module InternetChecksum {
  import opened Bytes

  type Word = x: int | 0 <= x < 0x1_0000

  /** A signed int of the machine. */
  type Int32 = x: int | -0x8000_0000 <= x < 0x8000_0000

  /** The most words whose sum cannot overflow. */
  const MOST := 0x8000

  /** Two bytes as a machine reads them. */
  function Half(a: Byte, b: Byte, big: bool): Word {
    if big then 256 * a + b else a + 256 * b
  }

  /** The words of a buffer; an odd byte at the end is the first of a word. */
  function WordsOf(data: seq<Byte>, big: bool): (words: seq<Word>)
    ensures |words| == (|data| + 1) / 2
    ensures forall i | 0 <= i < |words| ::
              words[i] == Half(data[2 * i], if 2 * i + 1 < |data| then data[2 * i + 1] else 0, big)
  {
    seq((|data| + 1) / 2, i requires 0 <= i < (|data| + 1) / 2 =>
      Half(data[2 * i], if 2 * i + 1 < |data| then data[2 * i + 1] else 0, big))
  }

  function Sum(words: seq<Word>): (s: nat)
    ensures s <= 65535 * |words|
  {
    if words == [] then 0 else Sum(words[..|words| - 1]) + words[|words| - 1]
  }

  /** The carries are added back twice, and the complement is cut to 16 bits. */
  function Folded(sum: nat): Word {
    var once := sum / 0x1_0000 + sum % 0x1_0000;
    (once + once / 0x1_0000) % 0x1_0000
  }

  function Checksum(words: seq<Word>): Word {
    65535 - Folded(Sum(words))
  }

  // ---------- the loop ----------

  /** No step overflows, for up to 32768 words. */
  method InCksum(data: array<Byte>, len: nat, big: bool) returns (answer: Word)
    requires len <= data.Length && len <= 2 * MOST
    ensures answer == Checksum(WordsOf(data[..len], big))
  {
    hide Sum, Checksum, Folded, Half, WordsOf;
    ghost var words, i := WordsOf(data[..len], big), 0;
    var nleft, w, sum: Int32 := len, 0, 0;
    NoWords(words);
    while nleft > 1
      invariant 0 <= nleft && w + nleft == len && w == 2 * i && sum == Sum(words[..i])
    {
      SumStep(words, i);
      sum := sum + Half(data[w], data[w + 1], big);
      w, nleft, i := w + 2, nleft - 2, i + 1;
    }
    if nleft == 1 {
      SumStep(words, i);
      sum := sum + Half(data[w], 0, big);
      i := i + 1;
    }
    assert words[..i] == words;
    answer := AddCarries(sum, words);
  }

  /** Adds back the carries, and complements. */
  method AddCarries(sum: Int32, ghost words: seq<Word>) returns (answer: Word)
    requires sum == Sum(words)
    ensures answer == Checksum(words)
  {
    hide Sum;
    var once: Int32 := sum / 0x1_0000 + sum % 0x1_0000;
    var twice: Int32 := once + once / 0x1_0000;
    answer := (-1 - twice) % 0x1_0000;
  }

  lemma NoWords(words: seq<Word>)
    ensures Sum(words[..0]) == 0
  {
  }

  lemma SumStep(words: seq<Word>, i: nat)
    requires i < |words|
    ensures Sum(words[..i + 1]) == Sum(words[..i]) + words[i] <= 65535 * (i + 1)
  {
    assert words[..i + 1][..i] == words[..i];
  }

  /** Sets the checksum of a packet, in its second word. */
  method SetChecksum(packet: array<Byte>, len: nat, big: bool)
    requires 4 <= len <= packet.Length && len <= 2 * MOST
    modifies packet
    ensures forall i | 0 <= i < packet.Length && i != 2 && i != 3 :: packet[i] == old(packet[i])
    ensures Checksum(WordsOf(packet[..len], big)) == 0
  {
    hide Checksum, WordsOf, Half;
    packet[2], packet[3] := 0, 0;
    ghost var data: seq<Byte> := packet[..len];
    var answer := InCksum(packet, len, big);
    packet[2], packet[3] := if big then answer / 256 else answer % 256, if big then answer % 256 else answer / 256;
    assert packet[..len] == data[2 := packet[2]][3 := packet[3]];
    StoredBytes(data, answer, packet[2], packet[3], big);
    StoredChecks(WordsOf(data, big), 1, answer);
  }

  lemma StoredBytes(data: seq<Byte>, w: Word, a: Byte, b: Byte, big: bool)
    requires |data| >= 4 && data[2] == data[3] == 0
    requires a == (if big then w / 256 else w % 256) && b == if big then w % 256 else w / 256
    ensures WordsOf(data, big)[1] == 0 && WordsOf(data[2 := a][3 := b], big) == WordsOf(data, big)[1 := w]
  {
    assert Half(a, b, big) == w && Half(0, 0, big) == 0;
    hide Half;
    var stored, words := WordsOf(data[2 := a][3 := b], big), WordsOf(data, big)[1 := w];
    forall i | 0 <= i < |stored| ensures stored[i] == words[i] {
    }
  }

  function Ones(n: nat): (words: seq<Word>)
    ensures |words| == n
  {
    if n == 0 then [] else Ones(n - 1) + [65535]
  }

  lemma {:induction false} SumOfOnes(n: nat)
    ensures Sum(Ones(n)) == 65535 * n
  {
    if n > 0 {
      SumOfOnes(n - 1);
      assert Ones(n)[..n - 1] == Ones(n - 1);
    }
  }

  /** Exactly the buffers of at most 32768 words never overflow the sum. */
  lemma OverflowsExactly(n: nat)
    ensures (forall words: seq<Word> | |words| == n :: Sum(words) < 0x8000_0000) <==> n <= MOST
  {
    SumOfOnes(n);
    if n > MOST { assert Sum(Ones(n)) >= 0x8000_0000; }
  }

  // ---------- ones' complement sums ----------

  /** Addition with the carry added back. */
  function Add(a: Word, b: Word): Word {
    if a + b < 0x1_0000 then a + b else a + b - 65535
  }

  function OnesSum(words: seq<Word>): Word {
    if words == [] then 0 else Add(OnesSum(words[..|words| - 1]), words[|words| - 1])
  }

  /** What stands for a sum in ones' complement: zero only for zero. */
  function Representative(sum: nat): Word {
    if sum == 0 then 0 else 1 + (sum - 1) % 65535
  }

  /** A representative is found by being congruent. */
  lemma IsRepresentative(sum: nat, r: nat, q: int)
    requires sum == r + 65535 * q && r <= 65535 && (r == 0 <==> sum == 0)
    ensures Representative(sum) == r
  {
    if sum > 0 { assert (sum - 1) == (r - 1) + 65535 * q; }
  }

  /** Two foldings are enough. */
  lemma FoldedIsRepresentative(sum: nat)
    requires sum < 0x8000_0000
    ensures Folded(sum) == Representative(sum)
  {
    var high, once := sum / 0x1_0000, sum / 0x1_0000 + sum % 0x1_0000;
    IsRepresentative(sum, Folded(sum), if once < 0x1_0000 then high else high + 1);
  }

  lemma AddRepresentative(sum: nat, w: Word)
    ensures Add(Representative(sum), w) == Representative(sum + w)
  {
    var r := Representative(sum);
    var q := if sum == 0 then 0 else (sum - 1) / 65535;
    assert sum == r + 65535 * q;
    IsRepresentative(sum + w, Add(r, w), if r + w < 0x1_0000 then q else q + 1);
  }

  /** Adding up first and folding twice at the end is ones' complement addition of all words. */
  lemma {:induction false} FoldedIsOnesSum(words: seq<Word>)
    requires |words| <= MOST
    ensures Folded(Sum(words)) == OnesSum(words) == Representative(Sum(words))
  {
    hide Folded, Representative, Add;
    FoldedIsRepresentative(Sum(words));
    OnesSumIsRepresentative(words);
  }

  lemma {:induction false} OnesSumIsRepresentative(words: seq<Word>)
    ensures OnesSum(words) == Representative(Sum(words))
  {
    hide Add;
    if words != [] {
      hide Representative;
      OnesSumIsRepresentative(words[..|words| - 1]);
      AddRepresentative(Sum(words[..|words| - 1]), words[|words| - 1]);
    }
  }

  // ---------- what the checksum notices ----------

  lemma {:induction false} SumOfUpdate(words: seq<Word>, i: nat, x: Word)
    requires i < |words|
    ensures Sum(words[i := x]) == Sum(words) - words[i] + x
  {
    var n := |words| - 1;
    if i < n {
      SumOfUpdate(words[..n], i, x);
      assert words[i := x][..n] == words[..n][i := x];
    } else {
      assert words[i := x][..n] == words[..n];
    }
  }

  lemma ChecksAt(sum: nat)
    requires sum < 0x8000_0000
    ensures Folded(sum) == 65535 <==> sum > 0 && sum % 65535 == 0
  {
    FoldedIsRepresentative(sum);
    hide Folded;
    if sum > 0 { OnlyMultiples(sum, (sum - 1) / 65535, 1 + (sum - 1) % 65535); }
  }

  /** With a zero in the place of the checksum, a packet checks exactly with the checksum stored there,
      or with the other zero of ones' complement. */
  lemma StoredChecks(words: seq<Word>, i: nat, x: Word)
    requires i < |words| <= MOST && words[i] == 0
    ensures Checksum(words[i := x]) == 0 <==> x == Checksum(words) || (x == 65535 && Checksum(words) == 0)
  {
    hide Folded, Sum, Representative;
    SumOfUpdate(words, i, x);
    FoldedIsRepresentative(Sum(words));
    ChecksAt(Sum(words) + x);
    StoredSum(Sum(words), x);
  }

  lemma StoredSum(sum: nat, x: Word)
    ensures var c := 65535 - Representative(sum);
            sum + x > 0 && (sum + x) % 65535 == 0 <==> x == c || (x == 65535 && c == 0)
  {
    var q := if sum == 0 then 0 else (sum - 1) / 65535;
    assert sum == 65535 * q + Representative(sum);
    hide Representative;
    OnlyMultiples(sum + x, q + 1, x - (65535 - Representative(sum)));
  }

  lemma OnlyMultiples(sum: nat, q: int, d: int)
    requires sum == 65535 * q + d && -65535 <= d <= 65535
    ensures sum % 65535 == 0 <==> d == 0 || d == 65535 || d == -65535
  {
    if d == 65535 { assert sum == 65535 * (q + 1); }
    if d == -65535 { assert sum == 65535 * (q - 1); }
    if 0 < d < 65535 { assert sum % 65535 == d; }
    if -65535 < d < 0 { assert sum == 65535 * (q - 1) + (65535 + d); }
  }

  /** One wrong word is noticed, unless it is one zero of ones' complement for the other. */
  lemma WrongWordIsNoticed(words: seq<Word>, i: nat, y: Word)
    requires i < |words| <= MOST && Checksum(words) == 0 && y != words[i]
    ensures Checksum(words[i := y]) == 0 <==> Checksum(words[i := 0]) == 0 && {y, words[i]} == {0, 65535}
  {
    var base := words[i := 0];
    assert base[i := words[i]] == words && base[i := y] == words[i := y];
    hide Checksum;
    StoredChecks(base, i, words[i]);
    StoredChecks(base, i, y);
    assert {y, words[i]} == {0, 65535} ==> y in {0, 65535} && words[i] in {0, 65535};
  }

  // ---------- byte order ----------

  function Swapped(w: Word): Word {
    256 * (w % 256) + w / 256
  }

  function Highs(words: seq<Word>): nat {
    if words == [] then 0 else Highs(words[..|words| - 1]) + words[|words| - 1] / 256
  }

  lemma {:induction false} SumOfSwapped(words: seq<Word>, other: seq<Word>)
    requires |other| == |words| && forall i | 0 <= i < |words| :: other[i] == Swapped(words[i])
    ensures 256 * Sum(words) == Sum(other) + 65535 * Highs(words)
    ensures Sum(words) == 0 <==> Sum(other) == 0
  {
    if words != [] {
      var n := |words| - 1;
      SumOfSwapped(words[..n], other[..n]);
    }
  }

  lemma SwappedRepresentative(s: nat, t: nat, h: int)
    requires 256 * s == t + 65535 * h && (s == 0 <==> t == 0)
    ensures Representative(t) == Swapped(Representative(s))
  {
    var r := Representative(s);
    var q := if s == 0 then 0 else (s - 1) / 65535;
    assert s == r + 65535 * q;
    assert 256 * r == Swapped(r) + 65535 * (r / 256);
    IsRepresentative(t, Swapped(r), r / 256 + 256 * q - h);
  }

  /** Machines of both byte orders store the same two bytes (section 2 of RFC 1071), so neither has to
      turn words around. */
  lemma ByteOrderDoesNotMatter(data: seq<Byte>, big: bool)
    requires |data| <= 2 * MOST
    ensures Checksum(WordsOf(data, !big)) == Swapped(Checksum(WordsOf(data, big)))
  {
    hide Folded, Sum, WordsOf, Representative, Swapped, Half;
    var words, other := WordsOf(data, big), WordsOf(data, !big);
    forall i | 0 <= i < |words| ensures other[i] == Swapped(words[i]) {
      OtherOrder(data[2 * i], if 2 * i + 1 < |data| then data[2 * i + 1] else 0, big);
    }
    SumOfSwapped(words, other);
    FoldedIsRepresentative(Sum(words));
    FoldedIsRepresentative(Sum(other));
    SwappedRepresentative(Sum(words), Sum(other), Highs(words));
    ComplementSwaps(Representative(Sum(words)));
  }

  lemma OtherOrder(a: Byte, b: Byte, big: bool)
    ensures Half(a, b, !big) == Swapped(Half(a, b, big))
  {
  }

  lemma ComplementSwaps(w: Word)
    ensures 65535 - Swapped(w) == Swapped(65535 - w)
  {
  }
}
