/** The streaming converter: UTF-8 in, one of several encodings out, over two bounded buffers. It
    keeps no state between calls, so it has to stop where it can be taken up again. */
module Iconv {
  import opened Wrappers
  import opened Bytes
  import opened Utf8

  /** The encodings written; `endian` is 0 for big-endian. Wide characters are stored as
      little-endian words of four bytes. */
  datatype Target = ToWchar | ToUtf8 | ToUtf16(endian: nat)

  datatype Errno = EILSEQ | E2BIG | EINVAL

  // ---------- one character ----------

  /** The first character of the input: decoded, and in the range of scalar values. */
  function Next(signed: bool, s: seq<Byte>): Decoded
    requires s != []
  {
    if s[0] < 0x80 then Char(s[0], 1)
    else
      var d := Decode(signed, s);
      if d.Char? && !IsScalar(d.c) then Invalid else d
  }

  function Unit(c: nat, endian: nat): (s: seq<Byte>)
    ensures |s| == 2
  {
    if endian == 0 then [c / 256 % 256, c % 256] else [c % 256, c / 256 % 256]
  }

  /** The bytes written for a code point. */
  function Written(to: Target, c: nat): (s: seq<Byte>)
    ensures 1 <= |s| <= 4
  {
    match to
    case ToWchar => [c % 256, c / 256 % 256, c / 65536 % 256, c / 16777216 % 256]
    case ToUtf8 => Encoding(c)
    case ToUtf16(endian) =>
      if c < 0x10000 then Unit(c, endian) else Unit(c / 1024 + 0xD800, endian) + Unit(c % 1024 + 0xDC00, endian)
  }

  lemma NextOfPrefix(signed: bool, s: seq<Byte>, rest: seq<Byte>)
    requires s != [] && Next(signed, s).Char?
    ensures 1 <= Next(signed, s).n <= |s| && Next(signed, s + rest) == Next(signed, s) &&
            Next(signed, s[..Next(signed, s).n]) == Next(signed, s)
  {
    if s[0] >= 0x80 { DecodeOfPrefix(signed, s, rest); }
  }

  /** The bytes are one character, as the standard has it or as the checks let it through. */
  predicate OneCharacter(signed: bool, s: seq<Byte>) {
    Accepted(s) || (signed && LetThrough(s))
  }

  lemma NextIsOne(signed: bool, s: seq<Byte>)
    requires s != [] && Next(signed, s).Char?
    ensures 1 <= Next(signed, s).n <= |s| && OneCharacter(signed, s[..Next(signed, s).n])
  {
    hide Decode, Accepted, LetThrough, LongForm, Encoding;
    NextOfPrefix(signed, s, []);
    DecodesWellFormed(signed, s[..Next(signed, s).n]);
    AsciiIsAccepted(s);
  }

  lemma AsciiIsAccepted(s: seq<Byte>)
    requires s != []
    ensures s[0] < 0x80 ==> Accepted(s[..1])
  {
  }

  lemma OneIsNext(signed: bool, s: seq<Byte>, n: nat)
    requires 1 <= n <= |s| && OneCharacter(signed, s[..n])
    ensures Next(signed, s).Char? && Next(signed, s).n == n
  {
    hide Accepted, LetThrough, LongForm, Encoding;
    var p := s[..n];
    assert p + s[n..] == s && p[0] == s[0];
    DecodesWellFormed(signed, p);
    DecodeOfPrefix(signed, p, s[n..]);
    hide Gathered;
  }

  /** There is a next character exactly if the input starts with one. */
  lemma NextExactly(signed: bool, s: seq<Byte>)
    requires s != []
    ensures Next(signed, s).Char? <==> exists n :: 1 <= n <= |s| && OneCharacter(signed, s[..n])
    ensures forall n | 1 <= n <= |s| && OneCharacter(signed, s[..n]) :: Next(signed, s).Char? && Next(signed, s).n == n
  {
    hide Next, OneCharacter;
    if Next(signed, s).Char? { NextIsOne(signed, s); }
    forall n | 1 <= n <= |s| && OneCharacter(signed, s[..n])
      ensures Next(signed, s).Char? && Next(signed, s).n == n
    {
      OneIsNext(signed, s, n);
    }
  }

  // ---------- one call ----------

  datatype Outcome = Outcome(consumed: nat, out: seq<Byte>, stop: Option<Errno>)

  function Join(a: Outcome, b: Outcome): Outcome {
    Outcome(a.consumed + b.consumed, a.out + b.out, b.stop)
  }

  lemma NextIsInside(signed: bool, s: seq<Byte>)
    requires s != [] && Next(signed, s).Char?
    ensures 1 <= Next(signed, s).n <= |s|
  {
  }

  /** What a call does with an output buffer of `space` bytes. */
  function Run(signed: bool, to: Target, s: seq<Byte>, space: nat): Outcome
    decreases |s|
  {
    if s == [] then Outcome(0, [], None)
    else match Next(signed, s)
      case Invalid => Outcome(0, [], Some(EILSEQ))
      case Starved => Outcome(0, [], Some(EINVAL))
      case Char(c, n) =>
        var e := Written(to, c);
        if |e| > space then Outcome(0, [], Some(E2BIG))
        else
          NextIsInside(signed, s);
          Join(Outcome(n, e, None), Run(signed, to, s[n..], space - |e|))
  }

  /** There is a next character, and it fits. */
  predicate Goes(signed: bool, to: Target, s: seq<Byte>, space: nat) {
    s != [] && Next(signed, s).Char? && |Written(to, Next(signed, s).c)| <= space
  }

  lemma RunGoes(signed: bool, to: Target, s: seq<Byte>, space: nat)
    requires Goes(signed, to, s, space)
    ensures 1 <= Next(signed, s).n <= |s| && 1 <= |Written(to, Next(signed, s).c)| <= space
    ensures var e := Written(to, Next(signed, s).c);
            Run(signed, to, s, space) ==
            Join(Outcome(Next(signed, s).n, e, None), Run(signed, to, s[Next(signed, s).n..], space - |e|))
  {
    NextIsInside(signed, s);
  }

  lemma RunStops(signed: bool, to: Target, s: seq<Byte>, space: nat)
    requires !Goes(signed, to, s, space)
    ensures var r := Run(signed, to, s, space);
            r.consumed == 0 && r.out == [] &&
            r.stop == if s == [] then None else match Next(signed, s)
                                                case Invalid => Some(EILSEQ)
                                                case Starved => Some(EINVAL)
                                                case Char(_, _) => Some(E2BIG)
  {
  }

  /** Copies the bytes of a character, which have been put into a temporary buffer. */
  method CopyTo(outb: array<Byte>, at: nat, tmp: seq<Byte>)
    requires at + |tmp| <= outb.Length
    modifies outb
    ensures outb[..at + |tmp|] == old(outb[..at]) + tmp
  {
    var i := 0;
    while i < |tmp|
      invariant 0 <= i <= |tmp| && outb[..at + i] == old(outb[..at]) + tmp[..i]
    {
      outb[at + i] := tmp[i];
      i := i + 1;
    }
    assert tmp[..i] == tmp;
  }

  /** Writes one character if it fits, and returns how many bytes it took, 0 if it does not fit. */
  method PutChar(to: Target, c: nat, outb: array<Byte>, at: nat) returns (k: nat)
    requires at <= outb.Length && c < 0x110000
    modifies outb
    ensures if |Written(to, c)| > outb.Length - at then k == 0 && outb[..at] == old(outb[..at])
            else k == |Written(to, c)| && outb[..at + k] == old(outb[..at]) + Written(to, c)
  {
    k := 0;
    var space := outb.Length - at;
    match to
    case ToWchar =>
      if space < 4 { return; }
      CopyTo(outb, at, [c % 256, c / 256 % 256, c / 65536 % 256, c / 16777216 % 256]);
      k := 4;
    case ToUtf8 =>
      if space < 4 {
        var tmp := new Byte[16];
        k := EncodeInto(tmp, 0, c);
        if space < k { return 0; }
        assert tmp[..k] == Encoding(c);
        CopyTo(outb, at, tmp[..k]);
      } else {
        k := EncodeInto(outb, at, c);
      }
    case ToUtf16(endian) =>
      if c < 0x10000 {
        if space < 2 { return; }
        CopyTo(outb, at, Unit(c, endian));
        k := 2;
      } else {
        if space < 4 { return; }
        CopyTo(outb, at, Unit(c / 1024 + 0xD800, endian));
        CopyTo(outb, at + 2, Unit(c % 1024 + 0xDC00, endian));
        k := 4;
      }
  }

  /** One call. The result is -1 with the reason in `errno`; an incomplete character at the end
      of the input also sets `errno`, but returns the count of replaced characters, which is 0. */
  method Convert(signed: bool, to: Target, input: seq<Byte>, outb: array<Byte>)
    returns (x: int, errno: Option<Errno>, consumed: nat, written: nat)
    requires |input| < MINUS_ONE_UNSIGNED
    modifies outb
    ensures consumed <= |input| && written <= outb.Length
    ensures Outcome(consumed, outb[..written], errno) == Run(signed, to, input, outb.Length)
    ensures x == if errno == Some(EILSEQ) || errno == Some(E2BIG) then -1 else 0
  {
    errno, consumed, written := None, 0, 0;
    StartsSoFar(signed, to, input, outb[..0], outb.Length);
    hide *;
    while consumed < |input| && errno.None?
      invariant consumed <= |input| && written <= outb.Length
      invariant errno.None? ==> SoFar(signed, to, input, outb.Length, consumed, outb[..written])
      invariant errno.Some? ==> Run(signed, to, input, outb.Length) == Outcome(consumed, outb[..written], errno)
      decreases |input| - consumed, if errno.None? then 1 else 0
    {
      errno, consumed, written := ConvertNext(signed, to, input, outb, consumed, written);
    }
    if errno.None? { EndsSoFar(signed, to, input, outb.Length, outb[..written]); }
    x := ResultOf(errno);
  }

  function ResultOf(errno: Option<Errno>): int {
    match errno
    case None => 0
    case Some(e) => if e.EINVAL? then 0 else -1
  }

  /** What one call does in all is what it has done so far and what is left to do. */
  predicate SoFar(signed: bool, to: Target, input: seq<Byte>, size: nat, consumed: nat, out: seq<Byte>) {
    consumed <= |input| && |out| <= size &&
    Run(signed, to, input, size) == Join(Outcome(consumed, out, None), Run(signed, to, input[consumed..], size - |out|))
  }

  lemma StartsSoFar(signed: bool, to: Target, input: seq<Byte>, out: seq<Byte>, size: nat)
    requires out == []
    ensures SoFar(signed, to, input, size, 0, out)
  {
    assert input[0..] == input;
    RunStarts(Run(signed, to, input, size));
  }

  lemma EndsSoFar(signed: bool, to: Target, input: seq<Byte>, size: nat, out: seq<Byte>)
    requires SoFar(signed, to, input, size, |input|, out)
    ensures Run(signed, to, input, size) == Outcome(|input|, out, None)
  {
    assert input[|input|..] == [];
    JoinStop(|input|, out, Outcome(0, [], None));
  }

  lemma StopsSoFar(signed: bool, to: Target, input: seq<Byte>, size: nat, consumed: nat, out: seq<Byte>)
    requires SoFar(signed, to, input, size, consumed, out) && !Goes(signed, to, input[consumed..], size - |out|)
    ensures Run(signed, to, input, size) ==
            Outcome(consumed, out, Run(signed, to, input[consumed..], size - |out|).stop)
  {
    RunStops(signed, to, input[consumed..], size - |out|);
    JoinStop(consumed, out, Run(signed, to, input[consumed..], size - |out|));
  }

  lemma GoesOn(signed: bool, to: Target, input: seq<Byte>, size: nat, consumed: nat, out: seq<Byte>)
    requires SoFar(signed, to, input, size, consumed, out) && Goes(signed, to, input[consumed..], size - |out|)
    ensures var d := Next(signed, input[consumed..]);
            1 <= d.n <= |input| - consumed && SoFar(signed, to, input, size, consumed + d.n, out + Written(to, d.c))
  {
    hide Run, Next, Written, Join;
    var rest, space := input[consumed..], size - |out|;
    RunGoes(signed, to, rest, space);
    var d := Next(signed, rest);
    var e := Written(to, d.c);
    assert input[consumed + d.n..] == rest[d.n..];
    JoinTwice(Outcome(consumed, out, None), Outcome(d.n, e, None), Run(signed, to, rest[d.n..], space - |e|));
    JoinTwo(consumed, out, d.n, e);
  }

  /** Once round the loop. */
  method ConvertNext(signed: bool, to: Target, input: seq<Byte>, outb: array<Byte>, consumed: nat, written: nat)
    returns (stop: Option<Errno>, consumed': nat, written': nat)
    requires consumed < |input| < MINUS_ONE_UNSIGNED && written <= outb.Length
    requires SoFar(signed, to, input, outb.Length, consumed, outb[..written])
    modifies outb
    ensures consumed <= consumed' <= |input| && written' <= outb.Length
    ensures stop.None? ==> consumed < consumed' && SoFar(signed, to, input, outb.Length, consumed', outb[..written'])
    ensures stop.Some? ==> Run(signed, to, input, outb.Length) == Outcome(consumed', outb[..written'], stop)
  {
    hide SoFar, Run, Next, Written;
    stop, consumed', written' := None, consumed, written;
    var rest := input[consumed..];
    var r, c := NextChar(signed, rest);
    if r < 0 {
      RunStops(signed, to, rest, outb.Length - written);
      StopsSoFar(signed, to, input, outb.Length, consumed, outb[..written]);
      stop := Some(if r == -1 then EILSEQ else EINVAL);
      return;
    }
    ghost var before := outb[..written];
    var k := PutChar(to, c, outb, written);
    if k == 0 {
      RunStops(signed, to, rest, outb.Length - written);
      StopsSoFar(signed, to, input, outb.Length, consumed, before);
      stop := Some(E2BIG);
      return;
    }
    GoesOn(signed, to, input, outb.Length, consumed, before);
    consumed', written' := consumed + r, written + k;
  }

  /** The head of the loop: the next character and its length, or the reason there is none. */
  method NextChar(signed: bool, rest: seq<Byte>) returns (r: int, c: nat)
    requires 0 < |rest| < MINUS_ONE_UNSIGNED
    ensures match Next(signed, rest)
            case Char(c', n) => r == n && c == c' && 1 <= r <= |rest| && c < 0x110000
            case Invalid => r == -1
            case Starved => r == -2
  {
    r, c := 1, rest[0];
    if c >= 0x80 {
      r, c := DecodeFirst(signed, rest);
      if r < 0 { return; }
      if 0xD800 <= c < 0xD800 + 0x800 || c >= 0x110000 { return -1, c; }
    }
    NextIsInside(signed, rest);
  }

  lemma RunStarts(r: Outcome)
    ensures Join(Outcome(0, [], None), r) == r
  {
  }

  lemma JoinStop(consumed: nat, out: seq<Byte>, r: Outcome)
    requires r.consumed == 0 && r.out == []
    ensures Join(Outcome(consumed, out, None), r) == Outcome(consumed, out, r.stop)
  {
  }

  lemma JoinTwo(a: nat, s: seq<Byte>, b: nat, t: seq<Byte>)
    ensures Join(Outcome(a, s, None), Outcome(b, t, None)) == Outcome(a + b, s + t, None)
  {
  }

  lemma JoinTwice(a: Outcome, b: Outcome, c: Outcome)
    ensures Join(a, Join(b, c)) == Join(Join(a, b), c)
  {
    assert a.out + (b.out + c.out) == a.out + b.out + c.out;
  }

  // ---------- what a call means ----------

  /** The code points of an input that is complete characters from end to end. */
  function Characters(signed: bool, s: seq<Byte>): Option<seq<nat>>
    decreases |s|
  {
    if s == [] then Some([])
    else if !Next(signed, s).Char? then None
    else
      NextIsInside(signed, s);
      var more := Characters(signed, s[Next(signed, s).n..]);
      if more.None? then None else Some([Next(signed, s).c] + more.value)
  }

  function WrittenAll(to: Target, cs: seq<nat>): seq<Byte> {
    if cs == [] then [] else Written(to, cs[0]) + WrittenAll(to, cs[1..])
  }

  /** On every return, whatever the reason: the bytes written are exactly the encodings of the
      characters in the bytes consumed. */
  lemma {:induction false} ConvertsWhatItConsumes(signed: bool, to: Target, s: seq<Byte>, space: nat)
    ensures var r := Run(signed, to, s, space);
            r.consumed <= |s| && |r.out| <= space && Characters(signed, s[..r.consumed]).Some? &&
            r.out == WrittenAll(to, Characters(signed, s[..r.consumed]).value)
    decreases |s|
  {
    hide Next, Written, Run;
    var r := Run(signed, to, s, space);
    if Goes(signed, to, s, space) {
      RunGoes(signed, to, s, space);
      var c, n, e := Next(signed, s).c, Next(signed, s).n, Written(to, Next(signed, s).c);
      ConvertsWhatItConsumes(signed, to, s[n..], space - |e|);
      var more := Run(signed, to, s[n..], space - |e|);
      CharactersStep(signed, s, n + more.consumed);
      assert s[n..n + more.consumed] == s[n..][..more.consumed];
      assert ([c] + Characters(signed, s[n..n + more.consumed]).value)[1..] ==
             Characters(signed, s[n..n + more.consumed]).value;
    } else {
      RunStops(signed, to, s, space);
      assert s[..0] == [];
    }
  }

  lemma CharactersStep(signed: bool, s: seq<Byte>, k: nat)
    requires s != [] && Next(signed, s).Char? && 1 <= Next(signed, s).n <= k <= |s|
    ensures var more := Characters(signed, s[Next(signed, s).n..k]);
            Characters(signed, s[..k]) == if more.None? then None else Some([Next(signed, s).c] + more.value)
  {
    var n, p := Next(signed, s).n, s[..k];
    NextOfPrefix(signed, s, []);
    NextOfPrefix(signed, s[..n], p[n..]);
    assert p == s[..n] + p[n..] && p[n..] == s[n..k];
  }

  /** Why it stopped: at the end, at a bad or an incomplete character, or before a character that
      does not fit. */
  lemma {:induction false} StopsForAReason(signed: bool, to: Target, s: seq<Byte>, space: nat)
    ensures var r := Run(signed, to, s, space); r.consumed <= |s| && |r.out| <= space
    ensures var r := Run(signed, to, s, space); var rest := s[r.consumed..];
            match r.stop
            case None => rest == []
            case Some(EILSEQ) => rest != [] && Next(signed, rest) == Invalid
            case Some(EINVAL) => rest != [] && Next(signed, rest) == Starved
            case Some(E2BIG) =>
              rest != [] && Next(signed, rest).Char? && |Written(to, Next(signed, rest).c)| > space - |r.out|
    decreases |s|
  {
    hide Next, Written, Run;
    if Goes(signed, to, s, space) {
      RunGoes(signed, to, s, space);
      var n, e := Next(signed, s).n, Written(to, Next(signed, s).c);
      StopsForAReason(signed, to, s[n..], space - |e|);
      var more := Run(signed, to, s[n..], space - |e|);
      assert s[n..][more.consumed..] == s[n + more.consumed..];
    } else {
      RunStops(signed, to, s, space);
      assert s[0..] == s;
    }
  }

  /** Taking up where a call stopped, with extra space, gives what one call with the used and the
      extra space together would have given. */
  lemma {:induction false} Resumes(signed: bool, to: Target, s: seq<Byte>, space: nat, extra: nat)
    ensures var r := Run(signed, to, s, space);
            r.consumed <= |s| &&
            Run(signed, to, s, |r.out| + extra) == Join(r, Run(signed, to, s[r.consumed..], extra))
    decreases |s|
  {
    hide Next, Written, Run, Join;
    var r := Run(signed, to, s, space);
    if Goes(signed, to, s, space) {
      RunGoes(signed, to, s, space);
      var n, e := Next(signed, s).n, Written(to, Next(signed, s).c);
      Resumes(signed, to, s[n..], space - |e|, extra);
      var more := Run(signed, to, s[n..], space - |e|);
      JoinParts(n, e, more);
      RunGoes(signed, to, s, |r.out| + extra);
      assert s[n..][more.consumed..] == s[r.consumed..];
      JoinTwice(Outcome(n, e, None), more, Run(signed, to, s[r.consumed..], extra));
    } else {
      RunStops(signed, to, s, space);
      JoinNothing(r, Run(signed, to, s, extra));
      assert s[0..] == s;
    }
  }

  lemma JoinParts(n: nat, e: seq<Byte>, r: Outcome)
    ensures var j := Join(Outcome(n, e, None), r); j.consumed == n + r.consumed && j.out == e + r.out
  {
  }

  lemma JoinNothing(a: Outcome, b: Outcome)
    requires a.consumed == 0 && a.out == []
    ensures Join(a, b) == b
  {
  }

  /** A call that stopped for space gets further when it has space for any character. */
  lemma MakesProgress(signed: bool, to: Target, s: seq<Byte>, space: nat, extra: nat)
    requires Run(signed, to, s, space).stop == Some(E2BIG) && extra >= 4
    ensures var r := Run(signed, to, s, space); r.consumed < |s| && Run(signed, to, s[r.consumed..], extra).consumed > 0
  {
    StopsForAReason(signed, to, s, space);
    var rest := s[Run(signed, to, s, space).consumed..];
    NextIsInside(signed, rest);
  }

  /** Enough space for the longest encoding of every byte is enough. */
  lemma {:induction false} BigBufferSuffices(signed: bool, to: Target, s: seq<Byte>, space: nat)
    requires space >= 4 * |s|
    ensures Run(signed, to, s, space).stop != Some(E2BIG)
    decreases |s|
  {
    hide Run, Next, Written;
    if Goes(signed, to, s, space) {
      RunGoes(signed, to, s, space);
      BigBufferSuffices(signed, to, s[Next(signed, s).n..], space - |Written(to, Next(signed, s).c)|);
    } else {
      RunStops(signed, to, s, space);
    }
  }

  /** Successive calls, each with the given space, and each taking up where the one before stopped. */
  function Calls(signed: bool, to: Target, s: seq<Byte>, spaces: seq<nat>): (r: Outcome)
    ensures r.consumed <= |s|
  {
    if spaces == [] then Outcome(0, [], None) else
      var n := |spaces| - 1;
      var before := Calls(signed, to, s, spaces[..n]);
      StopsForAReason(signed, to, s[before.consumed..], spaces[n]);
      Join(before, Run(signed, to, s[before.consumed..], spaces[n]))
  }

  /** Any number of calls does what one call does whose space is what the earlier ones have used
      and what the last one was given. */
  lemma {:induction false} CallsAreOneCall(signed: bool, to: Target, s: seq<Byte>, spaces: seq<nat>)
    requires spaces != []
    ensures var n := |spaces| - 1;
            Calls(signed, to, s, spaces) == Run(signed, to, s, |Calls(signed, to, s, spaces[..n]).out| + spaces[n])
    decreases |spaces|
  {
    hide Run, Join;
    var n := |spaces| - 1;
    var before := Calls(signed, to, s, spaces[..n]);
    if n == 0 {
      assert s[0..] == s && before == Outcome(0, [], None);
      JoinNothing(before, Run(signed, to, s, spaces[0]));
    } else {
      CallsAreOneCall(signed, to, s, spaces[..n]);
      Resumes(signed, to, s, |Calls(signed, to, s, spaces[..n][..n - 1]).out| + spaces[n - 1], spaces[n]);
    }
  }

  /** As long as calls stop for space, each with space for any character gets further. */
  lemma {:induction false} CallsGetFurther(signed: bool, to: Target, s: seq<Byte>, spaces: seq<nat>)
    requires forall i | 0 <= i < |spaces| :: spaces[i] >= 4
    ensures var r := Calls(signed, to, s, spaces); spaces != [] && r.stop == Some(E2BIG) ==> r.consumed >= |spaces|
    decreases |spaces|
  {
    if spaces != [] && Calls(signed, to, s, spaces).stop == Some(E2BIG) {
      var n := |spaces| - 1;
      var before := Calls(signed, to, s, spaces[..n]);
      var rest := s[before.consumed..];
      CallsGetFurther(signed, to, s, spaces[..n]);
      StopsForAReason(signed, to, rest, spaces[n]);
      RunFromHere(signed, to, rest, spaces[n]);
      if n > 0 { CallsStopAgain(signed, to, s, spaces[..n], spaces[n]); }
    }
  }

  lemma RunFromHere(signed: bool, to: Target, s: seq<Byte>, space: nat)
    requires Run(signed, to, s, space).stop == Some(E2BIG) && space >= 4
    ensures Run(signed, to, s, space).consumed > 0
  {
    if Goes(signed, to, s, space) { RunGoes(signed, to, s, space); } else { RunStops(signed, to, s, space); }
  }

  /** A call that did not stop for space has said the last word: a further call adds nothing. */
  lemma CallsStopAgain(signed: bool, to: Target, s: seq<Byte>, spaces: seq<nat>, extra: nat)
    requires spaces != []
    ensures var r := Calls(signed, to, s, spaces);
            r.stop != Some(E2BIG) ==> Run(signed, to, s[r.consumed..], extra) == Outcome(0, [], r.stop)
  {
    hide Calls, Run, Join, Next, Written;
    var n := |spaces| - 1;
    var space := |Calls(signed, to, s, spaces[..n]).out| + spaces[n];
    CallsAreOneCall(signed, to, s, spaces);
    if Run(signed, to, s, space).stop != Some(E2BIG) { StopsAgain(signed, to, s, space, extra); }
  }

  lemma StopsAgain(signed: bool, to: Target, s: seq<Byte>, space: nat, extra: nat)
    requires Run(signed, to, s, space).stop != Some(E2BIG)
    ensures var r := Run(signed, to, s, space);
            r.consumed <= |s| && Run(signed, to, s[r.consumed..], extra) == Outcome(0, [], r.stop)
  {
    hide Run, Next, Written;
    StopsForAReason(signed, to, s, space);
    RunStops(signed, to, s[Run(signed, to, s, space).consumed..], extra);
  }

  /** More space than was needed changes nothing. */
  lemma MoreSpace(signed: bool, to: Target, s: seq<Byte>, space: nat, more: nat)
    requires Run(signed, to, s, space).stop != Some(E2BIG) && more >= space
    ensures Run(signed, to, s, more) == Run(signed, to, s, space)
  {
    hide Run, Next, Written, Join;
    var r := Run(signed, to, s, space);
    assert |r.out| <= space by { StopsForAReason(signed, to, s, space); }
    Resumes(signed, to, s, space, more - |r.out|);
    StopsAgain(signed, to, s, space, more - |r.out|);
    JoinSameStop(r);
  }

  lemma JoinSameStop(r: Outcome)
    ensures Join(r, Outcome(0, [], r.stop)) == r
  {
  }

  /** However the space is cut up, as long as any character fits into a piece: enough calls give
      exactly what one call gives that has space for everything. */
  lemma EnoughCalls(signed: bool, to: Target, s: seq<Byte>, spaces: seq<nat>, space: nat)
    requires |spaces| > |s| && forall i | 0 <= i < |spaces| :: spaces[i] >= 4
    requires space >= 4 * |s|
    ensures Calls(signed, to, s, spaces) == Run(signed, to, s, space)
  {
    hide Run, Join;
    var n := |spaces| - 1;
    var used := |Calls(signed, to, s, spaces[..n]).out| + spaces[n];
    CallsGetFurther(signed, to, s, spaces);
    CallsAreOneCall(signed, to, s, spaces);
    BigBufferSuffices(signed, to, s, space);
    if used <= space { MoreSpace(signed, to, s, used, space); } else { MoreSpace(signed, to, s, space, used); }
  }

  /** No character is in an overlong form. */
  predicate ShortForms(signed: bool, s: seq<Byte>)
    decreases |s|
  {
    if s == [] || !Next(signed, s).Char? then true
    else
      NextIsInside(signed, s);
      !LongForm(s[..Next(signed, s).n]) && ShortForms(signed, s[Next(signed, s).n..])
  }

  lemma ShortFormsStep(signed: bool, s: seq<Byte>, k: nat)
    requires s != [] && Next(signed, s).Char? && 1 <= Next(signed, s).n <= k <= |s|
    ensures var n := Next(signed, s).n;
            ShortForms(signed, s[..k]) <==> !LongForm(s[..n]) && ShortForms(signed, s[n..k])
  {
    hide LongForm;
    var n, p := Next(signed, s).n, s[..k];
    NextOfPrefix(signed, s, []);
    NextOfPrefix(signed, s[..n], p[n..]);
    assert p == s[..n] + p[n..] && p[n..] == s[n..k] && p[..n] == s[..n];
  }

  lemma BothParts<T>(a: seq<T>, b: seq<T>, c: seq<T>, d: seq<T>)
    requires |a| <= |c| && |b| <= |d|
    ensures a + b == c + d <==> a == c && b == d
  {
    if a + b == c + d {
      assert |a| == |c| && |b| == |d|;
      assert a == (a + b)[..|a|] && c == (c + d)[..|c|];
      assert b == (a + b)[|a|..] && d == (c + d)[|c|..];
    }
  }

  /** From UTF-8 to UTF-8 the converter is a filter: the output is the input consumed, if and only if
      no character of it is in an overlong form. Where plain characters are unsigned none can be. */
  lemma {:induction false} SameEncodingCopies(signed: bool, s: seq<Byte>, space: nat)
    ensures var r := Run(signed, ToUtf8, s, space);
            r.consumed <= |s| && |r.out| <= r.consumed &&
            (r.out == s[..r.consumed] <==> ShortForms(signed, s[..r.consumed])) &&
            (!signed ==> ShortForms(signed, s[..r.consumed]))
    decreases |s|
  {
    hide Next, Run, Encoding, Decode, LongForm, ShortForms;
    var r := Run(signed, ToUtf8, s, space);
    if Goes(signed, ToUtf8, s, space) {
      RunGoes(signed, ToUtf8, s, space);
      var n, e := Next(signed, s).n, Encoding(Next(signed, s).c);
      var more := Run(signed, ToUtf8, s[n..], space - |e|);
      SameEncodingCopies(signed, s[n..], space - |e|);
      CharacterCopies(signed, s);
      ShortFormsStep(signed, s, r.consumed);
      assert s[..r.consumed] == s[..n] + s[n..][..more.consumed] && s[n..r.consumed] == s[n..][..more.consumed];
      BothParts(e, more.out, s[..n], s[n..][..more.consumed]);
    } else {
      RunStops(signed, ToUtf8, s, space);
      NothingShort(signed, s[..0]);
    }
  }

  lemma NothingShort(signed: bool, s: seq<Byte>)
    requires s == []
    ensures ShortForms(signed, s)
  {
  }

  lemma CharacterCopies(signed: bool, s: seq<Byte>)
    requires s != [] && Next(signed, s).Char?
    ensures var n, e := Next(signed, s).n, Encoding(Next(signed, s).c);
            1 <= n <= |s| && |e| <= n && (e == s[..n] <==> !LongForm(s[..n])) && (!signed ==> !LongForm(s[..n]))
  {
    hide LongForm, Encoding, Decode;
    NextOfPrefix(signed, s, []);
    NextTakes(signed, s[..Next(signed, s).n]);
  }

  lemma NextTakes(signed: bool, s: seq<Byte>)
    requires s != [] && Next(signed, s).Char? && Next(signed, s).n == |s|
    ensures var e := Encoding(Next(signed, s).c);
            |e| <= |s| && (e == s <==> !LongForm(s)) && (!signed ==> !LongForm(s))
  {
    DecodesWellFormed(signed, s);
  }

  // ---------- wide characters ----------

  lemma {:induction false} CharactersAreScalar(signed: bool, s: seq<Byte>)
    ensures Characters(signed, s).Some? ==>
              forall i | 0 <= i < |Characters(signed, s).value| :: IsScalar(Characters(signed, s).value[i])
    decreases |s|
  {
    hide Decode;
    if s != [] && Next(signed, s).Char? {
      NextIsInside(signed, s);
      CharactersAreScalar(signed, s[Next(signed, s).n..]);
      NextIsScalar(signed, s);
      hide Next, IsScalar;
    }
  }

  lemma NextIsScalar(signed: bool, s: seq<Byte>)
    requires s != [] && Next(signed, s).Char?
    ensures IsScalar(Next(signed, s).c)
  {
    hide Decode;
  }

  lemma WideNumber(c: nat)
    requires c < 0x110000
    ensures var w := Written(ToWchar, c); |w| == 4 && Number(w) == c
  {
    var w := Written(ToWchar, c);
    LeastFirst(w);
    assert c / 256 == c / 65536 * 256 + c / 256 % 256 && c == c / 256 * 256 + c % 256;
    assert c / 65536 < 256 && c / 16777216 == 0;
  }

  lemma FirstFour<T>(w: seq<T>, rest: seq<T>, i: nat)
    requires |w| == 4 && 4 * i <= |rest|
    ensures (w + rest)[0..4] == w
    ensures 4 * i + 4 <= |rest| ==> (w + rest)[4 * (i + 1)..4 * (i + 1) + 4] == rest[4 * i..4 * i + 4]
  {
  }

  lemma WrittenStep(to: Target, cs: seq<nat>)
    ensures WrittenAll(to, cs) == if cs == [] then [] else Written(to, cs[0]) + WrittenAll(to, cs[1..])
  {
  }

  lemma {:induction false} WideAll(cs: seq<nat>)
    requires forall i | 0 <= i < |cs| :: cs[i] < 0x110000
    ensures |WrittenAll(ToWchar, cs)| == 4 * |cs|
    ensures forall i | 0 <= i < |cs| :: Number(WrittenAll(ToWchar, cs)[4 * i..4 * i + 4]) == cs[i]
  {
    hide Number, Written, WrittenAll;
    WrittenStep(ToWchar, cs);
    if cs != [] {
      var w, rest, all := Written(ToWchar, cs[0]), WrittenAll(ToWchar, cs[1..]), WrittenAll(ToWchar, cs);
      WideNumber(cs[0]);
      WideAll(cs[1..]);
      FirstFour(w, rest, 0);
      forall i | 0 <= i < |cs| ensures Number(all[4 * i..4 * i + 4]) == cs[i] {
        if i > 0 {
          FirstFour(w, rest, i - 1);
          assert cs[1..][i - 1] == cs[i];
        }
      }
    }
  }

  /** To wide characters: the output is one word of four bytes for each character consumed, and the word is its
      code point. */
  lemma WideCharacters(signed: bool, s: seq<Byte>, space: nat)
    ensures var r := Run(signed, ToWchar, s, space);
            r.consumed <= |s| && Characters(signed, s[..r.consumed]).Some? &&
            var cs := Characters(signed, s[..r.consumed]).value;
            |r.out| == 4 * |cs| && forall i | 0 <= i < |cs| :: Number(r.out[4 * i..4 * i + 4]) == cs[i]
  {
    hide Run, Characters, WrittenAll, Number;
    ConvertsWhatItConsumes(signed, ToWchar, s, space);
    var r := Run(signed, ToWchar, s, space);
    CharactersAreScalar(signed, s[..r.consumed]);
    WideAll(Characters(signed, s[..r.consumed]).value);
  }

  // ---------- UTF-16 ----------

  /** The value of a unit of two bytes. */
  function UnitValue(a: Byte, b: Byte, endian: nat): nat {
    if endian == 0 then 256 * a + b else a + 256 * b
  }

  lemma {:induction false} UnitsAll(cs: seq<nat>, endian: nat)
    requires forall i | 0 <= i < |cs| :: cs[i] < 0x10000
    ensures |WrittenAll(ToUtf16(endian), cs)| == 2 * |cs|
    ensures forall i | 0 <= i < |cs| ::
              UnitValue(WrittenAll(ToUtf16(endian), cs)[2 * i], WrittenAll(ToUtf16(endian), cs)[2 * i + 1], endian) ==
              cs[i]
  {
    if cs != [] {
      var w, rest := Written(ToUtf16(endian), cs[0]), WrittenAll(ToUtf16(endian), cs[1..]);
      UnitsAll(cs[1..], endian);
      UnitOf(cs[0], endian);
      hide Written, UnitValue;
      forall i | 0 <= i < |cs|
        ensures UnitValue((w + rest)[2 * i], (w + rest)[2 * i + 1], endian) == cs[i]
      {
        if i > 0 {
          assert (w + rest)[2 * i] == rest[2 * (i - 1)] && (w + rest)[2 * i + 1] == rest[2 * (i - 1) + 1];
          assert cs[1..][i - 1] == cs[i];
        }
      }
    }
  }

  lemma UnitOf(c: nat, endian: nat)
    requires c < 0x10000
    ensures var w := Written(ToUtf16(endian), c); |w| == 2 && UnitValue(w[0], w[1], endian) == c
  {
  }

  /** To UTF-16, without surrogate pairs: the output is one unit for each character consumed, with the high byte
      first if it is big-endian, and the unit is its code point. */
  lemma Utf16Characters(signed: bool, endian: nat, s: seq<Byte>, space: nat)
    ensures var r := Run(signed, ToUtf16(endian), s, space);
            r.consumed <= |s| && Characters(signed, s[..r.consumed]).Some? &&
            var cs := Characters(signed, s[..r.consumed]).value;
            (forall i | 0 <= i < |cs| :: cs[i] < 0x10000) ==>
              |r.out| == 2 * |cs| &&
              forall i | 0 <= i < |cs| :: UnitValue(r.out[2 * i], r.out[2 * i + 1], endian) == cs[i]
  {
    hide Run, Characters, WrittenAll, UnitValue;
    ConvertsWhatItConsumes(signed, ToUtf16(endian), s, space);
    var cs := Characters(signed, s[..Run(signed, ToUtf16(endian), s, space).consumed]).value;
    if forall i | 0 <= i < |cs| :: cs[i] < 0x10000 { UnitsAll(cs, endian); }
  }

  /** Section 2.1 of RFC 2781. */
  function StandardUtf16(c: nat, endian: nat): seq<Byte>
    requires c < 0x110000
  {
    if c < 0x10000 then Unit(c, endian)
    else Unit(0xD800 + (c - 0x10000) / 1024, endian) + Unit(0xDC00 + (c - 0x10000) % 1024, endian)
  }

  /** The UTF-16 output is right exactly for the code points that need no surrogate pair: the
      first of the pair lacks the offset. */
  lemma Utf16IsRightInBmp(c: nat, endian: nat)
    requires IsScalar(c)
    ensures Written(ToUtf16(endian), c) == StandardUtf16(c, endian) <==> c < 0x10000
  {
    if c >= 0x10000 {
      var a, b := c / 1024 + 0xD800, 0xD800 + (c - 0x10000) / 1024;
      assert a == b + 64;
      var s, t := Unit(a, endian), Unit(b, endian);
      assert a % 256 != b % 256;
      var i := if endian == 0 then 1 else 0;
      assert s[i] == a % 256 && t[i] == b % 256;
      assert Written(ToUtf16(endian), c)[i] == s[i] && StandardUtf16(c, endian)[i] == t[i];
    }
  }
}
