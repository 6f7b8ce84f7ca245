/** The upload of bandwidth data to the kernel: records are packed into messages of a fixed size, each of
    which says at which record it starts. */
module Upload {
  import opened Bytes
  import HistoryFiles
  import Sequences

  const QUERY_LENGTH := 16384
  const MAX_ID_LENGTH := 50

  /** Where the records start: three numbers, two flags, the time of the last backup, and the id. */
  const HEADER := 3 * 4 + 2 * 1 + 8 + MAX_ID_LENGTH
  const SPACE := QUERY_LENGTH - HEADER

  datatype Record =
    | Usage(ip: nat, bw: nat)
    | History(ip: nat, firstStart: nat, firstEnd: nat, lastEnd: nat, samples: seq<nat>)

  function Block(r: Record): seq<Byte> {
    match r
    case Usage(ip, bw) => Digits(ip, 4) + Digits(bw, 8)
    case History(ip, firstStart, firstEnd, lastEnd, samples) =>
      Digits(ip, 4) + Digits(|samples|, 4) + Digits(firstStart, 8) + Digits(firstEnd, 8) + Digits(lastEnd, 8) +
      HistoryFiles.Samples(samples, 8)
  }

  function BlocksOf(records: seq<Record>): (b: seq<seq<Byte>>)
    ensures |b| == |records| && forall i | 0 <= i < |b| :: b[i] == Block(records[i])
  {
    seq(|records|, i requires 0 <= i < |records| => Block(records[i]))
  }

  // ---------- what is sent ----------

  /** A message: its first record, how many there are, and their bytes. */
  datatype Message = Message(start: nat, count: nat, body: seq<Byte>)

  function Joined(blocks: seq<seq<Byte>>): seq<Byte> {
    if blocks == [] then [] else blocks[0] + Joined(blocks[1..])
  }

  /** How many blocks fit into the space, from the first on. */
  function Taken(blocks: seq<seq<Byte>>, space: nat): (n: nat)
    ensures n <= |blocks|
  {
    if blocks == [] || |blocks[0]| > space then 0 else 1 + Taken(blocks[1..], space - |blocks[0]|)
  }

  predicate AllFit(blocks: seq<seq<Byte>>) {
    forall i | 0 <= i < |blocks| :: |blocks[i]| <= SPACE
  }

  /** The message that starts with the record `start`: as many as fit. */
  function MessageAt(blocks: seq<seq<Byte>>, start: nat): Message
    requires start <= |blocks|
  {
    var n := Taken(blocks[start..], SPACE);
    Message(start, n, Joined(blocks[start..start + n]))
  }

  /** The messages from the record `start` on. */
  function Messages(blocks: seq<seq<Byte>>, start: nat): seq<Message>
    requires start <= |blocks| && AllFit(blocks)
    decreases |blocks| - start
  {
    var message := MessageAt(blocks, start);
    Progress(blocks, start);
    [message] + if start + message.count >= |blocks| then [] else Messages(blocks, start + message.count)
  }

  lemma Progress(blocks: seq<seq<Byte>>, start: nat)
    requires start <= |blocks| && AllFit(blocks)
    ensures start < |blocks| ==> MessageAt(blocks, start).count > 0
    ensures start + MessageAt(blocks, start).count <= |blocks|
  {
    if start < |blocks| { assert blocks[start..][0] == blocks[start]; }
  }

  /** As many records as fit: the next one does not. */
  lemma {:induction false} TakenIsMost(blocks: seq<seq<Byte>>, space: nat)
    ensures var n := Taken(blocks, space);
            |Joined(blocks[..n])| <= space &&
            (n < |blocks| ==> |Joined(blocks[..n])| + |blocks[n]| > space)
  {
    if blocks != [] && |blocks[0]| <= space {
      var n := Taken(blocks[1..], space - |blocks[0]|);
      TakenIsMost(blocks[1..], space - |blocks[0]|);
      assert blocks[..n + 1][1..] == blocks[1..][..n];
    }
  }

  /** Where the fields of a record lie. */
  lemma UsageLaidOut(ip: nat, bw: nat)
    requires ip < 0x1_0000_0000 && bw < LIMIT
    ensures var b := Block(Usage(ip, bw)); |b| == 12 && Number(b[..4]) == ip && Number(b[4..12]) == bw
  {
    Limits();
    hide Number, Digits, Power;
    NumberOfDigits(ip, 4);
    NumberOfDigits(bw, 8);
    var x, y := Digits(ip, 4), Digits(bw, 8);
    assert (x + y)[..4] == x && (x + y)[4..12] == y;
  }

  predicate Storable(r: Record) {
    r.ip < 0x1_0000_0000 &&
    match r
    case Usage(_, bw) => bw < LIMIT
    case History(_, firstStart, firstEnd, lastEnd, samples) =>
      firstStart < LIMIT && firstEnd < LIMIT && lastEnd < LIMIT && |samples| < 0x1_0000_0000 &&
      forall i | 0 <= i < |samples| :: samples[i] < LIMIT
  }

  lemma Parts(a: seq<Byte>, n: seq<Byte>, x: seq<Byte>, y: seq<Byte>, z: seq<Byte>, more: seq<Byte>)
    requires |a| == |n| == 4 && |x| == |y| == |z| == 8
    ensures var s := a + n + x + y + z + more;
            |s| >= 32 && s[..4] == a && s[4..8] == n && s[8..16] == x && s[16..24] == y && s[24..32] == z &&
            s[32..] == more
  {
  }

  lemma HistoryLaidOut(r: Record, i: nat)
    requires r.History? && Storable(r)
    ensures var b := Block(r);
            |b| == 32 + 8 * |r.samples| && Number(b[..4]) == r.ip && Number(b[4..8]) == |r.samples| &&
            Number(b[8..16]) == r.firstStart && Number(b[16..24]) == r.firstEnd && Number(b[24..32]) == r.lastEnd &&
            (i < |r.samples| ==> Number(b[32 + 8 * i..32 + 8 * i + 8]) == r.samples[i])
  {
    Limits();
    hide Number, Digits, Power, HistoryFiles.Samples;
    Parts(Digits(r.ip, 4), Digits(|r.samples|, 4), Digits(r.firstStart, 8), Digits(r.firstEnd, 8), Digits(r.lastEnd, 8),
          HistoryFiles.Samples(r.samples, 8));
    HistoryFiles.SamplesLength(r.samples, 8);
    NumberOfDigits(r.ip, 4);
    NumberOfDigits(|r.samples|, 4);
    NumberOfDigits(r.firstStart, 8);
    NumberOfDigits(r.firstEnd, 8);
    NumberOfDigits(r.lastEnd, 8);
    if i < |r.samples| {
      HistoryFiles.SampleAt(r.samples, 8, i);
      NumberOfDigits(r.samples[i], 8);
      Sequences.Shift(Block(r), 32, 8 * i, 8 * i + 8);
    }
  }

  // ---------- the loops ----------

  /** Writes a number of `w` bytes at an index. */
  method Put(buf: array<Byte>, index: nat, v: nat, w: nat) returns (next: nat)
    requires index + w <= buf.Length
    modifies buf
    ensures next == index + w && buf[..next] == old(buf[..index]) + Digits(v, w)
  {
    var i, rest := 0, v;
    while i < w
      invariant 0 <= i <= w && buf[..index + i] + Digits(rest, w - i) == old(buf[..index]) + Digits(v, w)
    {
      ghost var d := Digits(rest / 256, w - i - 1);
      assert Digits(rest, w - i) == [rest % 256] + d;
      buf[index + i] := rest % 256;
      assert buf[..index + i + 1] + d == buf[..index + i] + ([rest % 256] + d);
      i, rest := i + 1, rest / 256;
    }
    assert buf[..index + w] + Digits(rest, 0) == buf[..index + w];
    next := index + w;
  }

  /** Writes a record, if it fits. */
  method SetIpBlock(r: Record, buf: array<Byte>, index: nat) returns (full: bool, next: nat)
    requires buf.Length == QUERY_LENGTH && index <= QUERY_LENGTH
    modifies buf
    ensures full == (index + |Block(r)| > QUERY_LENGTH)
    ensures full ==> next == index && buf[..] == old(buf[..])
    ensures !full ==> next == index + |Block(r)| && buf[..next] == old(buf[..index]) + Block(r)
  {
    next := index;
    BlockLength(r);
    hide Digits;
    match r {
      case History(ip, firstStart, firstEnd, lastEnd, samples) =>
        full := index + (2 * 4 + 3 * 8 + 8 * |samples|) > QUERY_LENGTH;
        if full { return; }
        next := Put(buf, next, ip, 4);
        next := Put(buf, next, |samples|, 4);
        next := Put(buf, next, firstStart, 8);
        next := Put(buf, next, firstEnd, 8);
        next := Put(buf, next, lastEnd, 8);
        ghost var head := buf[..next];
        next := PutSamples(buf, next, samples);
        Pieces(old(buf[..index]), Digits(ip, 4), Digits(|samples|, 4), Digits(firstStart, 8), Digits(firstEnd, 8),
               Digits(lastEnd, 8), HistoryFiles.Samples(samples, 8));
      case Usage(ip, bw) =>
        full := index + 12 > QUERY_LENGTH;
        if full { return; }
        next := Put(buf, next, ip, 4);
        next := Put(buf, next, bw, 8);
        Sequences.Associate(old(buf[..index]), Digits(ip, 4), Digits(bw, 8));
    }
  }

  lemma BlockLength(r: Record)
    ensures |Block(r)| == if r.Usage? then 12 else 2 * 4 + 3 * 8 + 8 * |r.samples|
  {
    if r.History? { HistoryFiles.SamplesLength(r.samples, 8); }
  }

  lemma Pieces<T>(a: seq<T>, b: seq<T>, c: seq<T>, d: seq<T>, e: seq<T>, f: seq<T>, g: seq<T>)
    ensures a + b + c + d + e + f + g == a + (b + c + d + e + f + g)
  {
  }

  method PutSamples(buf: array<Byte>, index: nat, samples: seq<nat>) returns (next: nat)
    requires index + 8 * |samples| <= buf.Length
    modifies buf
    ensures next == index + 8 * |samples| && buf[..next] == old(buf[..index]) + HistoryFiles.Samples(samples, 8)
  {
    next := index;
    var i := 0;
    assert samples[..0] == [] && HistoryFiles.Samples([], 8) == [];
    hide HistoryFiles.Samples, Digits;
    while i < |samples|
      invariant 0 <= i <= |samples| && next == index + 8 * i
      invariant buf[..next] == old(buf[..index]) + HistoryFiles.Samples(samples[..i], 8)
    {
      HistoryFiles.SamplesAppend(samples[..i], samples[i], 8);
      assert samples[..i + 1] == samples[..i] + [samples[i]];
      Sequences.Associate(old(buf[..index]), HistoryFiles.Samples(samples[..i], 8), Digits(samples[i], 8));
      next := Put(buf, next, samples[i], 8);
      i := i + 1;
    }
    assert samples[..|samples|] == samples;
  }

  /** The message so far holds the records up to `i`; `space` is left, and no more fits if it is full. */
  ghost predicate Filling(blocks: seq<seq<Byte>>, start: nat, i: nat, space: nat, body: seq<Byte>, full: bool) {
    start <= i <= |blocks| && body == Joined(blocks[start..i]) &&
    Taken(blocks[start..], SPACE) == i - start + Taken(blocks[i..], space) &&
    (full ==> Taken(blocks[i..], space) == 0)
  }

  /** Fills one message, from the record `start` on. */
  method FillMessage(records: seq<Record>, buf: array<Byte>, start: nat) returns (message: Message)
    requires buf.Length == QUERY_LENGTH && start <= |records|
    modifies buf
    ensures message == MessageAt(BlocksOf(records), start)
  {
    hide Block, BlocksOf, Taken, Joined, MessageAt, Messages, Filling, Sending, AllFit, Digits, HistoryFiles.Samples;
    var index, ipIndex, count, full := HEADER, start, 0, false;
    ghost var blocks := BlocksOf(records);
    FillStarts(blocks, start);
    assert buf[HEADER..index] == [];
    var done := ipIndex >= |records|;
    while !full && !done
      invariant start <= ipIndex <= |records| && count == ipIndex - start && HEADER <= index <= QUERY_LENGTH
      invariant done == (ipIndex >= |records|)
      invariant Filling(blocks, start, ipIndex, QUERY_LENGTH - index, buf[HEADER..index], full)
      decreases |records| - ipIndex, !full
    {
      ghost var body, before := buf[HEADER..index], index;
      ghost var front := buf[..index];
      full, index := SetIpBlock(records[ipIndex], buf, index);
      if full {
        assert buf[HEADER..index] == buf[..][HEADER..index] == body;
        FillFull(blocks, start, ipIndex, QUERY_LENGTH - index, body);
      } else {
        BodyGrows(front, blocks[ipIndex], buf[..index]);
        assert buf[HEADER..index] == buf[..index][HEADER..];
        FillStep(blocks, start, ipIndex, QUERY_LENGTH - before, body);
        ipIndex, count := ipIndex + 1, count + 1;
      }
      done := ipIndex >= |records|;
    }
    FillEnds(blocks, start, ipIndex, QUERY_LENGTH - index, buf[HEADER..index], full);
    message := Message(start, count, buf[HEADER..index]);
  }

  lemma BodyGrows(front: seq<Byte>, block: seq<Byte>, grown: seq<Byte>)
    requires HEADER <= |front| && grown == front + block
    ensures grown[HEADER..] == front[HEADER..] + block
  {
  }

  lemma FillStarts(blocks: seq<seq<Byte>>, start: nat)
    requires start <= |blocks|
    ensures Filling(blocks, start, start, SPACE, [], false)
  {
  }

  lemma FillFull(blocks: seq<seq<Byte>>, start: nat, i: nat, space: nat, body: seq<Byte>)
    requires Filling(blocks, start, i, space, body, false) && i < |blocks| && |blocks[i]| > space
    ensures Filling(blocks, start, i, space, body, true)
  {
    assert blocks[i..][0] == blocks[i];
  }

  lemma FillStep(blocks: seq<seq<Byte>>, start: nat, i: nat, space: nat, body: seq<Byte>)
    requires Filling(blocks, start, i, space, body, false) && i < |blocks| && |blocks[i]| <= space
    ensures Filling(blocks, start, i + 1, space - |blocks[i]|, body + blocks[i], false)
  {
    assert blocks[i..][0] == blocks[i] && blocks[i..][1..] == blocks[i + 1..];
    assert blocks[start..i + 1] == blocks[start..i] + [blocks[i]];
    JoinedAppend(blocks[start..i], [blocks[i]]);
    var one: seq<seq<Byte>> := [blocks[i]];
    assert one[1..] == [] && one[0] + [] == blocks[i];
  }

  lemma FillEnds(blocks: seq<seq<Byte>>, start: nat, i: nat, space: nat, body: seq<Byte>, full: bool)
    requires Filling(blocks, start, i, space, body, full) && (full || i >= |blocks|)
    ensures Message(start, i - start, body) == MessageAt(blocks, start)
  {
  }

  lemma {:induction false} JoinedAppend(a: seq<seq<Byte>>, b: seq<seq<Byte>>)
    ensures Joined(a + b) == Joined(a) + Joined(b)
  {
    if a == [] {
      assert a + b == b;
    } else {
      assert (a + b)[1..] == a[1..] + b;
      JoinedAppend(a[1..], b);
      Sequences.Associate(a[0], Joined(a[1..]), Joined(b));
    }
  }

  /** What is to be sent in all is what has been sent and what is left. */
  ghost predicate Sending(blocks: seq<seq<Byte>>, sent: seq<Message>, next: nat, done: bool) {
    AllFit(blocks) && next <= |blocks| && Messages(blocks, 0) == sent + if done then [] else Messages(blocks, next)
  }

  /** Sends all records. Each must fit into a message, or the loop would not end. */
  method SetBandwidthData(records: seq<Record>) returns (sent: seq<Message>)
    requires AllFit(BlocksOf(records))
    ensures sent == Messages(BlocksOf(records), 0)
  {
    hide Block, BlocksOf, Taken, Joined, MessageAt, Messages, Filling, Sending, AllFit, Digits, HistoryFiles.Samples;
    var buf := new Byte[QUERY_LENGTH](_ => 0);
    var next, done := 0, false;
    sent := [];
    ghost var blocks := BlocksOf(records);
    SendStarts(blocks);
    while !done
      invariant 0 <= next <= |records| && Sending(blocks, sent, next, done)
      decreases !done, |records| - next
    {
      var message := FillMessage(records, buf, next);
      Progress(blocks, next);
      SendStep(blocks, sent, next);
      sent := sent + [message];
      next := next + message.count;
      done := next >= |records|;
    }
    SendEnds(blocks, sent, next);
  }

  lemma SendStarts(blocks: seq<seq<Byte>>)
    requires AllFit(blocks)
    ensures Sending(blocks, [], 0, false)
  {
    assert [] + Messages(blocks, 0) == Messages(blocks, 0);
  }

  lemma MessagesStep(blocks: seq<seq<Byte>>, start: nat)
    requires start <= |blocks| && AllFit(blocks)
    ensures var m := MessageAt(blocks, start);
            start + m.count <= |blocks| &&
            Messages(blocks, start) ==
            [m] + if start + m.count >= |blocks| then [] else Messages(blocks, start + m.count)
  {
    hide MessageAt, AllFit;
    Progress(blocks, start);
  }

  lemma SendStep(blocks: seq<seq<Byte>>, sent: seq<Message>, next: nat)
    requires Sending(blocks, sent, next, false)
    ensures var m := MessageAt(blocks, next);
            next + m.count <= |blocks| && Sending(blocks, sent + [m], next + m.count, next + m.count >= |blocks|)
  {
    hide MessageAt, Messages, AllFit;
    MessagesStep(blocks, next);
    var m := MessageAt(blocks, next);
    var rest := if next + m.count >= |blocks| then [] else Messages(blocks, next + m.count);
    Sequences.Associate(sent, [m], rest);
  }

  lemma SendEnds(blocks: seq<seq<Byte>>, sent: seq<Message>, next: nat)
    requires Sending(blocks, sent, next, true)
    ensures sent == Messages(blocks, 0)
  {
    assert sent + [] == sent;
  }

  // ---------- what the upload does ----------

  function Bodies(messages: seq<Message>): seq<Byte> {
    if messages == [] then [] else messages[0].body + Bodies(messages[1..])
  }

  /** Messages in a row: each starts where the one before has ended, and fits. */
  ghost predicate InARow(messages: seq<Message>, start: nat) {
    messages == [] ||
    (messages[0].start == start && HEADER + |messages[0].body| <= QUERY_LENGTH &&
     InARow(messages[1..], start + messages[0].count))
  }

  /** A message of 16384 bytes, 72 of which are its head, holds as many records as fit. */
  lemma MessageFits(blocks: seq<seq<Byte>>, start: nat)
    requires start <= |blocks|
    ensures var m := MessageAt(blocks, start);
            72 + |m.body| <= 16384 && start + m.count <= |blocks| &&
            (start + m.count < |blocks| ==> 72 + |m.body| + |blocks[start + m.count]| > 16384)
  {
    TakenIsMost(blocks[start..], SPACE);
    var n := Taken(blocks[start..], SPACE);
    assert blocks[start..][..n] == blocks[start..start + n];
  }

  lemma JoinedSplit(blocks: seq<seq<Byte>>, start: nat)
    requires start <= |blocks|
    ensures var m := MessageAt(blocks, start);
            start + m.count <= |blocks| && Joined(blocks[start..]) == m.body + Joined(blocks[start + m.count..])
  {
    var n := Taken(blocks[start..], SPACE);
    assert blocks[start..] == blocks[start..start + n] + blocks[start + n..];
    JoinedAppend(blocks[start..start + n], blocks[start + n..]);
  }

  lemma BodiesOf(m: Message, rest: seq<Message>)
    ensures Bodies([m] + rest) == m.body + Bodies(rest)
  {
    assert ([m] + rest)[1..] == rest;
  }

  lemma RowOf(m: Message, rest: seq<Message>, start: nat)
    requires m.start == start && HEADER + |m.body| <= QUERY_LENGTH && InARow(rest, start + m.count)
    ensures InARow([m] + rest, start)
  {
    assert ([m] + rest)[1..] == rest;
  }

  /** Data is conserved: the bytes sent are those of the records, in order; no message is too long; each
      says how many records were sent before it; and only an upload without records sends an empty one. */
  lemma {:induction false} UploadConserves(blocks: seq<seq<Byte>>, start: nat)
    requires start <= |blocks| && AllFit(blocks)
    ensures var m := Messages(blocks, start);
            Bodies(m) == Joined(blocks[start..]) && InARow(m, start) && m != [] &&
            forall i | 0 <= i < |m| :: m[i].count > 0 || start == |blocks|
    decreases |blocks| - start
  {
    hide MessageAt, Messages, Joined, Bodies, InARow, Taken, AllFit;
    MessagesStep(blocks, start);
    var m := MessageAt(blocks, start);
    Progress(blocks, start);
    MessageFits(blocks, start);
    JoinedSplit(blocks, start);
    StartsThere(blocks, start);
    var rest := if start + m.count >= |blocks| then [] else Messages(blocks, start + m.count);
    if start + m.count < |blocks| {
      UploadConserves(blocks, start + m.count);
    } else {
      NoBodies(blocks, start + m.count);
    }
    BodiesOf(m, rest);
    RowOf(m, rest, start);
  }

  lemma StartsThere(blocks: seq<seq<Byte>>, start: nat)
    requires start <= |blocks|
    ensures MessageAt(blocks, start).start == start
  {
  }

  lemma NoBodies(blocks: seq<seq<Byte>>, start: nat)
    requires start == |blocks|
    ensures Bodies([]) == Joined(blocks[start..]) && InARow([], start)
  {
  }

  /** The first record of the message after `k` messages, whether or not every record fits. */
  function StartAfter(blocks: seq<seq<Byte>>, k: nat): (start: nat)
    ensures start <= |blocks|
  {
    if k == 0 then 0 else
      var start := StartAfter(blocks, k - 1);
      start + Taken(blocks[start..], SPACE)
  }

  lemma {:induction false} TakenStops(blocks: seq<seq<Byte>>, space: nat, i: nat)
    requires i < |blocks| && |blocks[i]| > SPACE && space <= SPACE
    ensures Taken(blocks, space) <= i
  {
    if i > 0 && |blocks[0]| <= space { TakenStops(blocks[1..], space - |blocks[0]|, i - 1); }
  }

  lemma {:induction false} NeverPast(blocks: seq<seq<Byte>>, i: nat, k: nat)
    requires i < |blocks| && |blocks[i]| > SPACE
    ensures StartAfter(blocks, k) <= i
  {
    if k > 0 {
      NeverPast(blocks, i, k - 1);
      var start := StartAfter(blocks, k - 1);
      TakenStops(blocks[start..], SPACE, i - start);
    }
  }

  lemma {:induction false} AlwaysFurther(blocks: seq<seq<Byte>>, k: nat)
    requires AllFit(blocks)
    ensures StartAfter(blocks, k) >= k || StartAfter(blocks, k) == |blocks|
  {
    if k > 0 {
      AlwaysFurther(blocks, k - 1);
      var start := StartAfter(blocks, k - 1);
      if start < |blocks| { assert blocks[start..][0] == blocks[start]; }
    }
  }

  /** The loop over messages comes to an end exactly if every record fits into a message. */
  lemma EndsExactly(blocks: seq<seq<Byte>>)
    ensures (exists k: nat :: StartAfter(blocks, k) == |blocks|) <==> AllFit(blocks)
  {
    if AllFit(blocks) {
      AlwaysFurther(blocks, |blocks|);
      assert StartAfter(blocks, |blocks|) == |blocks|;
    } else {
      var i :| 0 <= i < |blocks| && |blocks[i]| > SPACE;
      forall k: nat ensures StartAfter(blocks, k) != |blocks| { NeverPast(blocks, i, k); }
    }
  }
}
