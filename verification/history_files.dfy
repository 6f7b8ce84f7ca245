/** The bandwidth history files: written, read back, and converted from an older format. Numbers are
    stored with the least byte first; times are 64 bits wide. */
module HistoryFiles {
  import opened Wrappers
  import opened Bytes
  import Sequences

  datatype History = History(interval: nat, time: nat, constant: Byte, ip: nat, firstStart: nat, firstEnd: nat,
                             lastEnd: nat, samples: seq<nat>)

  const INT32_MAX := 0x7FFF_FFFF

  predicate Small(samples: seq<nat>) {
    forall i | 0 <= i < |samples| :: samples[i] < INT32_MAX
  }

  /** Narrow samples if all of them are small. */
  function Bits(samples: seq<nat>): Byte {
    if Small(samples) then 32 else 64
  }

  function Width(bits: Byte): nat {
    if bits == 32 then 4 else 8
  }

  function Samples(samples: seq<nat>, w: nat): seq<Byte> {
    if samples == [] then [] else Digits(samples[0], w) + Samples(samples[1..], w)
  }

  /** The times of a history without samples are not stored. */
  function Times(h: History): seq<Byte> {
    if h.samples == [] then Digits(0, 8) + Digits(0, 8) + Digits(0, 8)
    else Digits(h.firstStart, 8) + Digits(h.firstEnd, 8) + Digits(h.lastEnd, 8)
  }

  function Block(h: History): seq<Byte> {
    Digits(h.ip, 4) + Digits(|h.samples|, 4) + Times(h) + [Bits(h.samples)] + Samples(h.samples, Width(Bits(h.samples)))
  }

  function Blocks(data: seq<History>): seq<Byte> {
    if data == [] then [] else Block(data[0]) + Blocks(data[1..])
  }

  /** The interval is stored once, from the first history. */
  function Head(data: seq<History>): seq<Byte> {
    Digits(|data|, 4) +
    if data == [] then [] else Digits(data[0].interval, 8) + Digits(data[0].time, 8) + [data[0].constant]
  }

  function Saved(data: seq<History>): seq<Byte> {
    Head(data) + Blocks(data)
  }

  lemma {:induction false} SamplesAppend(a: seq<nat>, x: nat, w: nat)
    ensures Samples(a + [x], w) == Samples(a, w) + Digits(x, w)
  {
    if a == [] {
      assert [x][1..] == [] && [] + [x] == [x];
    } else {
      assert (a + [x])[1..] == a[1..] + [x];
      SamplesAppend(a[1..], x, w);
      Sequences.Associate(Digits(a[0], w), Samples(a[1..], w), Digits(x, w));
    }
  }

  lemma {:induction false} BlocksAppend(a: seq<History>, h: History)
    ensures Blocks(a + [h]) == Blocks(a) + Block(h)
  {
    hide Block;
    if a == [] {
      assert [h][1..] == [] && [] + [h] == [h];
    } else {
      assert (a + [h])[1..] == a[1..] + [h];
      BlocksAppend(a[1..], h);
      Sequences.Associate(Block(a[0]), Blocks(a[1..]), Block(h));
    }
  }

  // ---------- writing ----------

  method SaveHistory(data: seq<History>) returns (file: seq<Byte>)
    ensures file == Saved(data)
  {
    hide Block, Blocks, Digits;
    file := Digits(|data|, 4);
    if |data| > 0 {
      file := file + Digits(data[0].interval, 8);
      file := file + Digits(data[0].time, 8);
      file := file + [data[0].constant];
    }
    assert file == Head(data);
    NoBlocks();
    var i := 0;
    while i < |data|
      invariant 0 <= i <= |data| && file == Head(data) + Blocks(data[..i])
    {
      var block := SaveBlock(data[i]);
      BlocksAppend(data[..i], data[i]);
      assert data[..i + 1] == data[..i] + [data[i]];
      Sequences.Associate(Head(data), Blocks(data[..i]), block);
      file := file + block;
      i := i + 1;
    }
    assert data[..|data|] == data;
  }

  lemma NoBlocks()
    ensures forall data: seq<History> | data == [] :: Blocks(data) == []
  {
  }

  method SaveBlock(h: History) returns (out: seq<Byte>)
    ensures out == Block(h)
  {
    out := Digits(h.ip, 4) + Digits(|h.samples|, 4);
    if |h.samples| == 0 {
      out := out + (Digits(0, 8) + Digits(0, 8) + Digits(0, 8));
      out := out + [32];
    } else {
      var bits := FindBits(h.samples);
      out := out + (Digits(h.firstStart, 8) + Digits(h.firstEnd, 8) + Digits(h.lastEnd, 8));
      out := out + [bits];
      var samples := SaveSamples(h.samples, Width(bits));
      out := out + samples;
    }
  }

  method FindBits(samples: seq<nat>) returns (bits: Byte)
    ensures bits == Bits(samples)
  {
    bits := 32;
    var i := 0;
    while i < |samples| && bits == 32
      invariant 0 <= i <= |samples| && (bits == 32 || bits == 64)
      invariant bits == 32 <==> forall j | 0 <= j < i :: samples[j] < INT32_MAX
    {
      bits := if samples[i] < INT32_MAX then 32 else 64;
      i := i + 1;
    }
  }

  method SaveSamples(samples: seq<nat>, w: nat) returns (out: seq<Byte>)
    ensures out == Samples(samples, w)
  {
    out := [];
    var i := 0;
    while i < |samples|
      invariant 0 <= i <= |samples| && out == Samples(samples[..i], w)
    {
      SamplesAppend(samples[..i], samples[i], w);
      assert samples[..i + 1] == samples[..i] + [samples[i]];
      out := out + Digits(samples[i], w);
      i := i + 1;
    }
    assert samples[..|samples|] == samples;
  }

  // ---------- reading ----------

  /** What has been read, and what is left of the file. */
  datatype Read<T> = Read(value: T, rest: seq<Byte>)

  /** A file that ends too soon is not read. */
  function ReadSamples(s: seq<Byte>, n: nat, w: nat): Option<Read<seq<nat>>> {
    if n == 0 then Some(Read([], s))
    else if |s| < w then None
    else match ReadSamples(s[w..], n - 1, w)
      case None => None
      case Some(r) => Some(Read([Number(s[..w])] + r.value, r.rest))
  }

  const BLOCK_HEAD := 33

  function ReadBlock(s: seq<Byte>, interval: nat, time: nat, constant: Byte): Option<Read<History>> {
    if |s| < BLOCK_HEAD then None
    else match ReadSamples(s[BLOCK_HEAD..], Number(s[4..8]), Width(s[32]))
      case None => None
      case Some(r) =>
        Some(Read(History(interval, time, constant, Number(s[..4]), Number(s[8..16]), Number(s[16..24]),
                          Number(s[24..32]), r.value), r.rest))
  }

  function ReadBlocks(s: seq<Byte>, n: nat, interval: nat, time: nat, constant: Byte): Option<seq<History>>
    decreases n
  {
    if n == 0 then Some([])
    else match ReadBlock(s, interval, time, constant)
      case None => None
      case Some(r) =>
        match ReadBlocks(r.rest, n - 1, interval, time, constant)
        case None => None
        case Some(more) => Some([r.value] + more)
  }

  function Loaded(file: seq<Byte>): Option<seq<History>> {
    if |file| < 4 then None
    else if Number(file[..4]) == 0 then Some([])
    else if |file| < 21 then None
    else ReadBlocks(file[21..], Number(file[..4]), Number(file[4..12]), Number(file[12..20]), file[20])
  }

  function Prepend<T>(front: seq<T>, more: Option<seq<T>>): Option<seq<T>> {
    match more
    case None => None
    case Some(s) => Some(front + s)
  }

  function PrependRead<T>(front: seq<T>, more: Option<Read<seq<T>>>): Option<Read<seq<T>>> {
    match more
    case None => None
    case Some(r) => Some(Read(front + r.value, r.rest))
  }

  method LoadSamples(s: seq<Byte>, n: nat, w: nat) returns (r: Option<Read<seq<nat>>>)
    ensures r == ReadSamples(s, n, w)
  {
    var values, rest, i := [], s, 0;
    FrontOfRead([], ReadSamples(s, n, w));
    while i < n
      invariant 0 <= i <= n && ReadSamples(s, n, w) == PrependRead(values, ReadSamples(rest, n - i, w))
    {
      if |rest| < w { return None; }
      var value := Number(rest[..w]);
      FrontsOfRead(values, [value], ReadSamples(rest[w..], n - i - 1, w));
      values, rest, i := values + [value], rest[w..], i + 1;
    }
    assert values + [] == values;
    r := Some(Read(values, rest));
  }

  lemma FrontOfRead<T>(front: seq<T>, r: Option<Read<seq<T>>>)
    requires front == []
    ensures PrependRead(front, r) == r
  {
    if r.Some? { assert front + r.value.value == r.value.value; }
  }

  lemma FrontsOfRead<T>(a: seq<T>, b: seq<T>, r: Option<Read<seq<T>>>)
    ensures PrependRead(a, PrependRead(b, r)) == PrependRead(a + b, r)
  {
    if r.Some? { Sequences.Associate(a, b, r.value.value); }
  }

  lemma Fronts<T>(a: seq<T>, b: seq<T>, r: Option<seq<T>>)
    ensures Prepend(a, Prepend(b, r)) == Prepend(a + b, r)
    ensures a == [] ==> Prepend(a, r) == r
  {
    if r.Some? {
      Sequences.Associate(a, b, r.value);
      assert a == [] ==> a + r.value == r.value;
    }
  }

  method LoadHistory(file: seq<Byte>) returns (data: Option<seq<History>>)
    ensures data == Loaded(file)
  {
    if |file| < 4 { return None; }
    var n := Number(file[..4]);
    if n == 0 { return Some([]); }
    if |file| < 21 { return None; }
    var interval, time, constant := Number(file[4..12]), Number(file[12..20]), file[20];
    var all, rest, i := [], file[21..], 0;
    hide Number, ReadBlock, ReadSamples;
    Fronts([], [], ReadBlocks(rest, n, interval, time, constant));
    while i < n
      invariant 0 <= i <= n
      invariant Loaded(file) == Prepend(all, ReadBlocks(rest, n - i, interval, time, constant))
    {
      var r := LoadBlock(rest, interval, time, constant);
      if r.None? { return None; }
      Fronts(all, [r.value.value], ReadBlocks(r.value.rest, n - i - 1, interval, time, constant));
      all, rest, i := all + [r.value.value], r.value.rest, i + 1;
    }
    assert all + [] == all;
    data := Some(all);
  }

  method LoadBlock(s: seq<Byte>, interval: nat, time: nat, constant: Byte) returns (r: Option<Read<History>>)
    ensures r == ReadBlock(s, interval, time, constant)
  {
    if |s| < BLOCK_HEAD { return None; }
    var ip, n := Number(s[..4]), Number(s[4..8]);
    var firstStart, firstEnd, lastEnd, bits := Number(s[8..16]), Number(s[16..24]), Number(s[24..32]), s[32];
    var samples := LoadSamples(s[BLOCK_HEAD..], n, Width(bits));
    if samples.None? { return None; }
    r := Some(Read(History(interval, time, constant, ip, firstStart, firstEnd, lastEnd, samples.value.value),
                   samples.value.rest));
  }

  // ---------- the round trip ----------

  /** The numbers of real histories. */
  predicate Storable(h: History) {
    h.interval < LIMIT && h.time < LIMIT && h.ip < 0x1_0000_0000 && h.firstStart < LIMIT && h.firstEnd < LIMIT &&
    h.lastEnd < LIMIT && |h.samples| < 0x1_0000_0000 && forall i | 0 <= i < |h.samples| :: h.samples[i] < LIMIT
  }

  predicate AllStorable(data: seq<History>) {
    |data| < 0x1_0000_0000 && forall i | 0 <= i < |data| :: Storable(data[i])
  }

  lemma {:induction false} SamplesBack(samples: seq<nat>, w: nat, rest: seq<Byte>)
    requires forall i | 0 <= i < |samples| :: samples[i] < Power(w)
    ensures ReadSamples(Samples(samples, w) + rest, |samples|, w) == Some(Read(samples, rest))
  {
    hide Number, Digits, Power;
    if samples == [] {
      assert [] + rest == rest;
    } else {
      var d, more := Digits(samples[0], w), Samples(samples[1..], w);
      CutAfter(d, more, rest);
      NumberOfDigits(samples[0], w);
      SamplesBack(samples[1..], w, rest);
      assert [samples[0]] + samples[1..] == samples;
    }
  }

  /** A history as it comes back: with the interval of the file, and without times if it has no samples. */
  function Kept(h: History, interval: nat, time: nat, constant: Byte): History {
    if h.samples == [] then History(interval, time, constant, h.ip, 0, 0, 0, [])
    else h.(interval := interval, time := time, constant := constant)
  }

  lemma SamplesFit(h: History)
    requires Storable(h)
    ensures forall i | 0 <= i < |h.samples| :: h.samples[i] < Power(Width(Bits(h.samples)))
  {
    Limits();
    hide Power;
  }

  lemma Parts(a: seq<Byte>, n: seq<Byte>, x: seq<Byte>, y: seq<Byte>, z: seq<Byte>, b: Byte, more: seq<Byte>)
    requires |a| == |n| == 4 && |x| == |y| == |z| == 8
    ensures var s := a + n + (x + y + z) + [b] + more;
            |s| >= BLOCK_HEAD && s[..4] == a && s[4..8] == n && s[8..16] == x && s[16..24] == y && s[24..32] == z &&
            s[32] == b && s[BLOCK_HEAD..] == more
  {
  }

  lemma BlockBack(h: History, rest: seq<Byte>, interval: nat, time: nat, constant: Byte)
    requires Storable(h)
    ensures ReadBlock(Block(h) + rest, interval, time, constant) == Some(Read(Kept(h, interval, time, constant), rest))
  {
    Limits();
    SamplesFit(h);
    hide Number, Digits, Power, Samples, ReadSamples;
    var w := Width(Bits(h.samples));
    var head := Digits(h.ip, 4) + Digits(|h.samples|, 4) + Times(h) + [Bits(h.samples)];
    var x, y, z := if h.samples == [] then 0 else h.firstStart, if h.samples == [] then 0 else h.firstEnd,
                   if h.samples == [] then 0 else h.lastEnd;
    Sequences.Associate(head, Samples(h.samples, w), rest);
    Parts(Digits(h.ip, 4), Digits(|h.samples|, 4), Digits(x, 8), Digits(y, 8), Digits(z, 8), Bits(h.samples),
          Samples(h.samples, w) + rest);
    SamplesBack(h.samples, w, rest);
    NumberOfDigits(h.ip, 4);
    NumberOfDigits(|h.samples|, 4);
    NumberOfDigits(x, 8);
    NumberOfDigits(y, 8);
    NumberOfDigits(z, 8);
  }

  function KeptAll(data: seq<History>, interval: nat, time: nat, constant: Byte): (r: seq<History>)
    ensures |r| == |data| && forall i | 0 <= i < |data| :: r[i] == Kept(data[i], interval, time, constant)
  {
    seq(|data|, i requires 0 <= i < |data| => Kept(data[i], interval, time, constant))
  }

  lemma {:induction false} BlocksBack(data: seq<History>, interval: nat, time: nat, constant: Byte)
    requires forall i | 0 <= i < |data| :: Storable(data[i])
    ensures ReadBlocks(Blocks(data), |data|, interval, time, constant) == Some(KeptAll(data, interval, time, constant))
  {
    hide Block, ReadBlock, Storable;
    if data != [] {
      BlockBack(data[0], Blocks(data[1..]), interval, time, constant);
      BlocksBack(data[1..], interval, time, constant);
      assert KeptAll(data, interval, time, constant) ==
             [Kept(data[0], interval, time, constant)] + KeptAll(data[1..], interval, time, constant);
    }
  }

  lemma HeadParts(n: seq<Byte>, i: seq<Byte>, t: seq<Byte>, c: Byte, more: seq<Byte>)
    requires |n| == 4 && |i| == |t| == 8
    ensures var s := n + (i + t + [c]) + more;
            |s| >= 21 && s[..4] == n && s[4..12] == i && s[12..20] == t && s[20] == c && s[21..] == more
  {
  }

  /** Whatever is saved, this is what is loaded again. */
  lemma LoadOfSave(data: seq<History>)
    requires AllStorable(data)
    ensures Loaded(Saved(data)) ==
            if data == [] then Some([]) else Some(KeptAll(data, data[0].interval, data[0].time, data[0].constant))
  {
    Limits();
    hide Number, Digits, Power, Blocks, ReadBlocks;
    NumberOfDigits(|data|, 4);
    if data == [] {
      assert Saved(data)[..4] == Digits(0, 4);
    } else {
      var h := data[0];
      HeadParts(Digits(|data|, 4), Digits(h.interval, 8), Digits(h.time, 8), h.constant, Blocks(data));
      NumberOfDigits(h.interval, 8);
      NumberOfDigits(h.time, 8);
      BlocksBack(data, h.interval, h.time, h.constant);
    }
  }

  /** All histories share the interval of the first, and those without samples have no times. */
  predicate Uniform(data: seq<History>) {
    forall i | 0 <= i < |data| ::
      data[i].interval == data[0].interval && data[i].time == data[0].time && data[i].constant == data[0].constant &&
      (data[i].samples == [] ==> data[i].firstStart == data[i].firstEnd == data[i].lastEnd == 0)
  }

  /** Exactly when a file gives back what was saved, whichever widths the samples were stored with. */
  lemma RoundTrip(data: seq<History>)
    requires AllStorable(data)
    ensures Loaded(Saved(data)) == Some(data) <==> Uniform(data)
  {
    hide Loaded, Saved;
    LoadOfSave(data);
    if data != [] {
      var h := data[0];
      var r := KeptAll(data, h.interval, h.time, h.constant);
      if r == data {
        forall i | 0 <= i < |data|
          ensures data[i].interval == h.interval && data[i].time == h.time && data[i].constant == h.constant
          ensures data[i].samples == [] ==> data[i].firstStart == data[i].firstEnd == data[i].lastEnd == 0
        {
          assert r[i] == Kept(data[i], h.interval, h.time, h.constant);
        }
      }
      if Uniform(data) {
        forall i | 0 <= i < |data| ensures r[i] == data[i] {
          assert r[i] == Kept(data[i], h.interval, h.time, h.constant);
        }
      }
    }
  }

  // ---------- where things lie ----------

  lemma {:induction false} SamplesLength(samples: seq<nat>, w: nat)
    ensures |Samples(samples, w)| == w * |samples|
  {
    if samples != [] {
      SamplesLength(samples[1..], w);
      assert w * |samples| == w + w * (|samples| - 1);
    }
  }

  /** The samples lie one after the other. */
  lemma {:induction false} SampleAt(samples: seq<nat>, w: nat, i: nat)
    requires i < |samples|
    ensures 0 <= w * i <= w * i + w <= |Samples(samples, w)|
    ensures Samples(samples, w)[w * i..w * i + w] == Digits(samples[i], w)
  {
    SamplesLength(samples, w);
    assert w * |samples| == w * i + w + w * (|samples| - i - 1);
    var d, rest := Digits(samples[0], w), Samples(samples[1..], w);
    hide Digits;
    if i == 0 {
      assert w * i == 0 && (d + rest)[..w] == d;
    } else {
      SampleAt(samples[1..], w, i - 1);
      assert w * i == w + w * (i - 1);
      assert (d + rest)[w..] == rest;
      Sequences.Shift(d + rest, w, w * (i - 1), w * (i - 1) + w);
    }
  }

  /** The fields of a stored history: address, number of samples, three times, the width, and the samples. */
  lemma BlockLaidOut(h: History, i: nat)
    requires Storable(h)
    ensures var b, w := Block(h), Width(Bits(h.samples));
            |b| == 33 + w * |h.samples| && Number(b[..4]) == h.ip && Number(b[4..8]) == |h.samples| &&
            Number(b[8..16]) == (if h.samples == [] then 0 else h.firstStart) &&
            Number(b[16..24]) == (if h.samples == [] then 0 else h.firstEnd) &&
            Number(b[24..32]) == (if h.samples == [] then 0 else h.lastEnd) && b[32] == 8 * w
    ensures var b, w := Block(h), Width(Bits(h.samples));
            i < |h.samples| ==>
              33 + w * i + w <= |b| && Number(b[33 + w * i..33 + w * i + w]) == h.samples[i]
  {
    Limits();
    SamplesFit(h);
    hide Number, Digits, Power, Samples;
    var w := Width(Bits(h.samples));
    var x, y, z := if h.samples == [] then 0 else h.firstStart, if h.samples == [] then 0 else h.firstEnd,
                   if h.samples == [] then 0 else h.lastEnd;
    Parts(Digits(h.ip, 4), Digits(|h.samples|, 4), Digits(x, 8), Digits(y, 8), Digits(z, 8), Bits(h.samples),
          Samples(h.samples, w));
    SamplesLength(h.samples, w);
    NumberOfDigits(h.ip, 4);
    NumberOfDigits(|h.samples|, 4);
    NumberOfDigits(x, 8);
    NumberOfDigits(y, 8);
    NumberOfDigits(z, 8);
    if i < |h.samples| {
      SampleAt(h.samples, w, i);
      NumberOfDigits(h.samples[i], w);
      Sequences.Shift(Block(h), 33, w * i, w * i + w);
    }
  }

  /** Samples are 32 bits wide exactly if all of them are below the greatest signed number of that width. */
  lemma WidthIs(samples: seq<nat>)
    ensures Width(Bits(samples)) == 4 <==> forall i | 0 <= i < |samples| :: samples[i] < 0x7FFF_FFFF
    ensures Width(Bits(samples)) == 4 || Width(Bits(samples)) == 8
  {
  }

  /** The head of a file: the number of histories, and the interval of the first. */
  lemma HeadLaidOut(data: seq<History>)
    requires AllStorable(data)
    ensures var f := Saved(data);
            |f| >= 4 && Number(f[..4]) == |data| &&
            (data != [] ==>
               |f| >= 21 && Number(f[4..12]) == data[0].interval && Number(f[12..20]) == data[0].time &&
               f[20] == data[0].constant && f[21..] == Blocks(data))
  {
    Limits();
    hide Number, Digits, Power, Blocks;
    NumberOfDigits(|data|, 4);
    if data == [] {
      assert Saved(data)[..4] == Digits(0, 4);
    } else {
      var h := data[0];
      HeadParts(Digits(|data|, 4), Digits(h.interval, 8), Digits(h.time, 8), h.constant, Blocks(data));
      NumberOfDigits(h.interval, 8);
      NumberOfDigits(h.time, 8);
    }
  }

  // ---------- the older format ----------

  const OLD_HEAD := 41

  /** A sample of the older format, which is signed: negative ones count as 0. With a number of bits
      that is neither 32 nor 64 only the low half is used. */
  function Clamped(bits: Byte, raw: nat): nat {
    if bits == 64 then if raw >= 0x8000_0000_0000_0000 then 0 else raw
    else if bits == 32 then if raw >= 0x8000_0000 then 0 else raw
    else raw % 0x1_0000_0000
  }

  /** Samples up to the end of the file; an incomplete one is dropped. */
  function OldSamples(s: seq<Byte>, bits: Byte): seq<nat> {
    if |s| < Width(bits) then []
    else [Clamped(bits, Number(s[..Width(bits)]))] + OldSamples(s[Width(bits)..], bits)
  }

  function Accumulator(past: seq<Byte>): nat
    requires |past| >= OLD_HEAD
  {
    Number(past[8..16])
  }

  /** All samples of an older file, with the one that was still accumulating as the last. */
  function AllSamples(past: seq<Byte>): seq<nat>
    requires |past| >= OLD_HEAD
  {
    OldSamples(past[OLD_HEAD..], past[40]) + [Accumulator(past)]
  }

  function Converted(past: seq<Byte>, interval: nat, constant: Byte): seq<Byte>
    requires |past| >= OLD_HEAD
  {
    var all := AllSamples(past);
    Digits(1, 4) + (Digits(interval, 8) + Digits(0, 8) + [constant]) +
    (Digits(0, 4) + Digits(|all|, 4) + (past[16..24] + past[24..32] + past[32..40]) + [past[40]] + Samples(all,
    Width(past[40])))
  }

  /** Reads the samples into a list, and drains the list into the new file. */
  method ConvertFile(past: seq<Byte>, interval: nat, constant: Byte) returns (file: seq<Byte>)
    requires |past| >= OLD_HEAD
    ensures file == Converted(past, interval, constant)
  {
    var accumulator, bits := Number(past[8..16]), past[40];
    var nodes := ReadOld(past[OLD_HEAD..], bits);
    nodes := nodes + [accumulator];
    file := Digits(1, 4) + (Digits(interval, 8) + Digits(0, 8) + [constant]);
    var block := Digits(0, 4) + Digits(|nodes|, 4);
    block := block + (past[16..24] + past[24..32] + past[32..40]);
    block := block + [bits];
    hide Digits, Number, Samples, OldSamples, Width;
    var samples := DrainNodes(nodes, Width(bits));
    file := file + (block + samples);
  }

  method ReadOld(s: seq<Byte>, bits: Byte) returns (nodes: seq<nat>)
    ensures nodes == OldSamples(s, bits)
  {
    hide Clamped, Number;
    var rest, w := s, Width(bits);
    nodes := [];
    assert [] + OldSamples(s, bits) == OldSamples(s, bits);
    while |rest| >= w
      invariant OldSamples(s, bits) == nodes + OldSamples(rest, bits)
      decreases |rest|
    {
      var next := ReadNext(rest[..w], bits);
      Sequences.Associate(nodes, [next], OldSamples(rest[w..], bits));
      nodes := nodes + [next];
      rest := rest[w..];
    }
    assert nodes + [] == nodes;
  }

  method ReadNext(s: seq<Byte>, bits: Byte) returns (next: nat)
    requires |s| == Width(bits)
    ensures next == Clamped(bits, Number(s))
  {
    hide Number;
    next := Number(s);
    if bits == 64 {
      if next >= 0x8000_0000_0000_0000 { next := 0; }
    } else {
      Low(s);
      if bits == 32 && next >= 0x8000_0000 { next := 0; }
      next := next % 0x1_0000_0000;
    }
  }

  lemma Low(s: seq<Byte>)
    ensures |s| == 4 ==> Number(s) < 0x1_0000_0000
  {
    NumberIsBounded(s);
    Limits();
  }

  method DrainNodes(nodes: seq<nat>, w: nat) returns (out: seq<Byte>)
    ensures out == Samples(nodes, w)
  {
    var rest := nodes;
    out := [];
    assert [] + Samples(nodes, w) == Samples(nodes, w);
    while |rest| > 0
      invariant Samples(nodes, w) == out + Samples(rest, w)
      decreases |rest|
    {
      Sequences.Associate(out, Digits(rest[0], w), Samples(rest[1..], w));
      out := out + Digits(rest[0], w);
      rest := rest[1..];
    }
    assert out + [] == out;
  }

  lemma {:induction false} OldSamplesFit(s: seq<Byte>, bits: Byte)
    ensures forall i | 0 <= i < |OldSamples(s, bits)| :: OldSamples(s, bits)[i] < Power(Width(bits))
    decreases |s|
  {
    Limits();
    hide Power;
    if |s| >= Width(bits) {
      NumberIsBounded(s[..Width(bits)]);
      OldSamplesFit(s[Width(bits)..], bits);
    }
  }

  lemma {:induction false} DigitsRepeat(v: nat, k: nat, w: nat)
    ensures Digits(v + Power(w) * k, w) == Digits(v, w)
  {
    if w > 0 {
      var x := Power(w - 1) * k;
      assert Power(w) * k == 256 * x;
      assert (v + 256 * x) % 256 == v % 256 && (v + 256 * x) / 256 == v / 256 + x;
      DigitsRepeat(v / 256, k, w - 1);
    }
  }

  /** Four bytes hold the low 32 bits. */
  lemma FourDigits(v: nat)
    ensures Digits(v, 4) == Digits(v % 0x1_0000_0000, 4)
  {
    Limits();
    hide Power, Digits;
    DigitsRepeat(v % 0x1_0000_0000, v / 0x1_0000_0000, 4);
  }

  /** The samples as the new file holds them: the last one loses what its width cannot hold. */
  function StoredSamples(past: seq<Byte>): seq<nat>
    requires |past| >= OLD_HEAD
  {
    OldSamples(past[OLD_HEAD..], past[40]) +
    [if past[40] == 32 then Accumulator(past) % 0x1_0000_0000 else Accumulator(past)]
  }

  lemma StoredAs(past: seq<Byte>, rest: seq<Byte>)
    requires |past| >= OLD_HEAD
    ensures var w := Width(past[40]); var s := StoredSamples(past);
            ReadSamples(Samples(AllSamples(past), w) + rest, |s|, w) == Some(Read(s, rest))
  {
    var bits, front := past[40], OldSamples(past[OLD_HEAD..], past[40]);
    var w, last := Width(bits), StoredSamples(past)[|front|];
    hide Number, ReadSamples, OldSamples, Samples;
    OldSamplesFit(past[OLD_HEAD..], bits);
    AccumulatorFits(past);
    Limits();
    FourDigits(Accumulator(past));
    hide Digits, Power;
    SamplesAppend(front, Accumulator(past), w);
    SamplesAppend(front, last, w);
    SamplesBack(front + [last], w, rest);
  }

  lemma AccumulatorFits(past: seq<Byte>)
    requires |past| >= OLD_HEAD
    ensures Accumulator(past) < Power(8)
  {
    NumberIsBounded(past[8..16]);
  }

  /** The one history of a converted file. */
  function ConvertedHistory(past: seq<Byte>, interval: nat, constant: Byte): History
    requires |past| >= OLD_HEAD
  {
    History(interval, 0, constant, 0, Number(past[16..24]), Number(past[24..32]), Number(past[32..40]),
            StoredSamples(past))
  }

  lemma ConvertedBlock(past: seq<Byte>, interval: nat, constant: Byte)
    requires |past| >= OLD_HEAD && |AllSamples(past)| < 0x1_0000_0000
    ensures var all := AllSamples(past);
            ReadBlock(Digits(0, 4) + Digits(|all|, 4) + (past[16..24] + past[24..32] + past[32..40]) + [past[40]] +
                      Samples(all, Width(past[40])), interval, 0, constant) ==
            Some(Read(ConvertedHistory(past, interval, constant), []))
  {
    hide Number, Digits, Power, Samples, ReadSamples, OldSamples, Accumulator;
    var all, bits := AllSamples(past), past[40];
    Limits();
    StoredAs(past, []);
    NumberOfDigits(0, 4);
    NumberOfDigits(|all|, 4);
    Parts(Digits(0, 4), Digits(|all|, 4), past[16..24], past[24..32], past[32..40], bits, Samples(all, Width(bits)));
    assert Samples(all, Width(bits)) + [] == Samples(all, Width(bits));
  }

  lemma LoadOne(n: seq<Byte>, i: seq<Byte>, t: seq<Byte>, c: Byte, block: seq<Byte>, h: History)
    requires |n| == 4 && |i| == |t| == 8 && Number(n) == 1
    requires ReadBlock(block, Number(i), Number(t), c) == Some(Read(h, []))
    ensures Loaded(n + (i + t + [c]) + block) == Some([h])
  {
    hide Number, ReadBlock;
    HeadParts(n, i, t, c, block);
    assert ReadBlocks([], 0, Number(i), Number(t), c) == Some([]) && [h] + [] == [h];
  }

  /** Loading a converted file gives the times and the samples of the older one, negative ones as 0,
      and then what was accumulating: exactly if that fits into the width of the samples. */
  lemma ConvertedLoads(past: seq<Byte>, interval: nat, constant: Byte)
    requires |past| >= OLD_HEAD && interval < LIMIT && |AllSamples(past)| < 0x1_0000_0000
    ensures Loaded(Converted(past, interval, constant)) == Some([ConvertedHistory(past, interval, constant)])
    ensures ConvertedHistory(past, interval, constant).samples == AllSamples(past) <==>
            past[40] != 32 || Accumulator(past) < 0x1_0000_0000
  {
    hide Number, Digits, Power, Samples, ReadSamples, ReadBlock, Loaded, OldSamples, Accumulator;
    Limits();
    ConvertedBlock(past, interval, constant);
    NumberOfDigits(1, 4);
    NumberOfDigits(interval, 8);
    NumberOfDigits(0, 8);
    var all, front := AllSamples(past), OldSamples(past[OLD_HEAD..], past[40]);
    LoadOne(Digits(1, 4), Digits(interval, 8), Digits(0, 8), constant,
            Digits(0, 4) + Digits(|all|, 4) + (past[16..24] + past[24..32] + past[32..40]) + [past[40]] +
            Samples(all, Width(past[40])), ConvertedHistory(past, interval, constant));
    assert all[|front|] == Accumulator(past);
    if Accumulator(past) < 0x1_0000_0000 { assert Accumulator(past) % 0x1_0000_0000 == Accumulator(past); }
  }

  lemma {:induction false} OldSamplesLength(s: seq<Byte>, bits: Byte)
    ensures var w := Width(bits); |OldSamples(s, bits)| * w <= |s| < |OldSamples(s, bits)| * w + w
    decreases |s|
  {
    hide Clamped, Number;
    if |s| >= Width(bits) { OldSamplesLength(s[Width(bits)..], bits); }
  }

  lemma {:induction false} OldSampleAt(s: seq<Byte>, bits: Byte, i: nat)
    requires i < |OldSamples(s, bits)|
    ensures var w := Width(bits);
            0 <= w * i <= w * i + w <= |s| && OldSamples(s, bits)[i] == Clamped(bits, Number(s[w * i..w * i + w]))
    decreases |s|
  {
    hide Clamped, Number;
    var w := Width(bits);
    if i > 0 {
      OldSampleAt(s[w..], bits, i - 1);
      assert w * i == w + w * (i - 1);
      Sequences.Shift(s, w, w * (i - 1), w * (i - 1) + w);
    }
  }

  /** A number of `bits` bits, read with its sign. */
  function Signed(raw: nat, bits: nat): int
    requires bits == 32 || bits == 64
  {
    if bits == 32 then if raw < 0x8000_0000 then raw else raw - 0x1_0000_0000
    else if raw < 0x8000_0000_0000_0000 then raw else raw - LIMIT
  }

  /** What a converted file loads as, said on the bytes of the older one: as many samples as it holds and one more;
      each is the older one read with its sign, or 0 if that is negative; the last is the accumulated value, of which
      32 bits are kept if samples have no more. */
  lemma ConvertedSamples(past: seq<Byte>, interval: nat, constant: Byte, w: nat, n: nat, i: nat)
    requires 41 <= |past| < 0x1_0000_0000 && interval < LIMIT && (past[40] == 32 || past[40] == 64)
    requires w == (if past[40] == 32 then 4 else 8) && n * w <= |past| - 41 < n * w + w
    ensures Loaded(Converted(past, interval, constant)).Some? &&
            var data := Loaded(Converted(past, interval, constant)).value;
            |data| == 1 && |data[0].samples| == n + 1 && data[0].interval == interval && data[0].time == 0 &&
            data[0].constant == constant && data[0].ip == 0 && data[0].firstStart == Number(past[16..24]) &&
            data[0].firstEnd == Number(past[24..32]) && data[0].lastEnd == Number(past[32..40]) &&
            (i < n ==>
               41 + w * i + w <= |past| &&
               var v := Signed(Number(past[41 + w * i..41 + w * i + w]), past[40]);
               data[0].samples[i] == if v < 0 then 0 else v) &&
            data[0].samples[n] == Number(past[8..16]) % (if w == 4 then 0x1_0000_0000 else LIMIT)
  {
    hide OldSamples, Loaded, Converted, Number, Power, Clamped, Signed;
    var bits, rest := past[40], past[41..];
    OldSamplesLength(rest, bits);
    SameQuotient(|rest|, |OldSamples(rest, bits)|, n, w);
    FewSamples(past);
    ConvertedLoads(past, interval, constant);
    AccumulatorFits(past);
    Limits();
    if i < n {
      OldSampleAt(rest, bits, i);
      Sequences.Shift(past, 41, w * i, w * i + w);
      SampleIsBounded(past[41 + w * i..41 + w * i + w]);
      ClampedIs(Number(past[41 + w * i..41 + w * i + w]), bits);
    }
  }

  lemma SameQuotient(n: nat, p: nat, q: nat, w: nat)
    requires p * w <= n < p * w + w && q * w <= n < q * w + w
    ensures p == q
  {
    Multiples(p, q, w);
    Multiples(q, p, w);
  }

  lemma {:induction false} Multiples(p: nat, q: nat, w: nat)
    ensures p < q ==> q * w >= p * w + w
  {
    if p + 1 < q { Multiples(p, q - 1, w); }
    if q > 0 { assert q * w == (q - 1) * w + w; }
  }

  lemma FewSamples(past: seq<Byte>)
    requires 41 <= |past| < 0x1_0000_0000
    ensures |AllSamples(past)| < 0x1_0000_0000
  {
    OldSamplesLength(past[41..], past[40]);
  }

  lemma SampleIsBounded(s: seq<Byte>)
    requires |s| == 4 || |s| == 8
    ensures Number(s) < if |s| == 4 then 0x1_0000_0000 else LIMIT
  {
    Limits();
    NumberIsBounded(s);
  }

  lemma ClampedIs(raw: nat, bits: Byte)
    requires (bits == 32 && raw < 0x1_0000_0000) || (bits == 64 && raw < LIMIT)
    ensures var v := Signed(raw, bits); Clamped(bits, raw) == if v < 0 then 0 else v
  {
  }
}
