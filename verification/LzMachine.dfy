/**
  The resumable state machine behind both streaming decoders, on values: one `Process` call as the
  sources write it, the loop of `decode` as `Run`, and the three facts that make it usable. `Run`
  computes the recursive reading of the format, it does not care how the source is cut into chunks,
  and every step stays inside its buffers.
 */
module LzMachine {
  import opened Bytes
  import opened LzFormat

  datatype Phase = GroupHeader | Copy | RefHeader0 | RefHeader1 | RefHeader2 | RefCopy

  /** The decoder's fields; `dst` is the part of the destination written so far. */
  datatype Machine = Machine(
    phase: Phase,
    dst: seq<u8>,
    dstSize: nat,
    groupHeaderIndex: u8,
    groupHeader: u8,
    refSize: u16,
    refOffset: u16,
    ok: bool)
  {
    predicate Done() {
      |dst| == dstSize
    }

    /** What every call of `process` relies on and keeps. */
    predicate Ready(format: Format) {
      && |dst| <= dstSize
      && groupHeaderIndex <= 7
      && (format.Lz77? ==> phase != RefHeader2)
      && (phase == RefHeader1 ==>
            && refOffset <= 0xf00
            && Bias(format) <= refSize <= Bias(format) + 15)
      && (phase == RefHeader2 || phase == RefCopy ==> 1 <= refOffset <= |dst|)
      && (phase == RefCopy ==> 1 <= refSize)
    }

    /** Whether the next step reads a source byte. */
    predicate Consumes() {
      (phase == GroupHeader && groupHeaderIndex == 7) || (phase != GroupHeader && phase != RefCopy)
    }

    /** Steps left that neither read nor write, for termination. */
    function Idle(): nat {
      if phase == GroupHeader && !Consumes() then 1 else 0
    }
  }

  function Bias(format: Format): nat {
    if format.Yaz? then 2 else 3
  }

  /** A decoder as its constructor leaves it; the three last fields start undefined. */
  predicate Initial(m: Machine) {
    m.phase == GroupHeader && m.dst == [] && m.groupHeaderIndex == 7 && m.ok
  }

  /**
    One call of `process`. `next` is the source byte, read only when `Consumes()`. The second
    component is its return value.
   */
  function Process(format: Format, m: Machine, next: u8): (r: (Machine, bool))
    requires m.Ready(format) && !m.Done()
    ensures r.0.dstSize == m.dstSize && r.0.ok == m.ok
    ensures r.1 ==> r.0.Ready(format)
    ensures |m.dst| <= |r.0.dst| <= m.dstSize
    ensures r.1 && !m.Consumes() ==> |r.0.dst| > |m.dst| || r.0.Idle() < m.Idle()
  {
    match m.phase
    case GroupHeader =>
      var m1 := if m.groupHeaderIndex == 7 then m.(groupHeader := next, groupHeaderIndex := 0)
                else m.(groupHeaderIndex := m.groupHeaderIndex + 1);
      (m1.(phase := ItemPhase(format, m1)), true)
    case Copy =>
      (m.(dst := m.dst + [next], phase := GroupHeader), true)
    case RefHeader0 =>
      (AfterOneByte(format, m, next), true)
    case RefHeader1 =>
      var m1 := m.(refOffset := m.refOffset + next + 1);
      if m1.refOffset > |m.dst| then (m1, false)
      else if format.Yaz? && m.refSize == 2 then (m1.(phase := RefHeader2), true)
      else (m1.(phase := RefCopy), true)
    case RefHeader2 =>
      (m.(refSize := next + 0x12, phase := RefCopy), true)
    case RefCopy =>
      (OneCopied(m), true)
  }

  /** The loop of `decode`: the machine it ends in and the value it returns. */
  function Run(format: Format, m: Machine, src: seq<u8>): (r: (Machine, bool))
    requires m.Ready(format)
    ensures r.0.dstSize == m.dstSize && |m.dst| <= |r.0.dst| <= m.dstSize
    ensures r.1 ==> r.0.Ready(format) && (r.0.Done() ==> r.0.phase == GroupHeader)
    ensures r.1 && !r.0.Done() ==> r.0.Consumes()
    ensures r.0.ok == (m.ok && r.1)
    decreases |src| + m.dstSize - |m.dst|, m.Idle()
  {
    if m.Done() then
      if m.phase == GroupHeader then (m, true) else (m.(ok := false), false)
    else if src == [] && m.Consumes() then (m, true)
    else
      var (m', good) := Process(format, m, if m.Consumes() then src[0] else 0);
      if !good then (m'.(ok := false), false)
      else Run(format, m', if m.Consumes() then src[1..] else src)
  }

  // ----- Chunk invariance

  /**
    Decoding `a` and, if that leaves the decoder ok and not done, then `b`, ends in the same state
    with the same verdict as decoding `a + b` at once. A failure or a completion on `a` is the
    same on `a + b`.
   */
  lemma {:induction false} ChunkInvariance(format: Format, m: Machine, a: seq<u8>, b: seq<u8>)
    requires m.Ready(format)
    ensures var (m1, good) := Run(format, m, a);
            Run(format, m, a + b) == if good && !m1.Done() then Run(format, m1, b) else (m1, good)
    decreases |a| + m.dstSize - |m.dst|, m.Idle()
  {
    if m.Done() {
    } else if a == [] && m.Consumes() {
      assert a + b == b;
    } else {
      var (m', good) := Process(format, m, if m.Consumes() then a[0] else 0);
      if good {
        assert a != [] ==> (a + b)[1..] == a[1..] + b;
        ChunkInvariance(format, m', if m.Consumes() then a[1..] else a, b);
      }
    }
  }

  function Flatten(chunks: seq<seq<u8>>): seq<u8> {
    if chunks == [] then [] else chunks[0] + Flatten(chunks[1..])
  }

  /** The caller's loop: decode chunk after chunk while the decoder is ok and not done. */
  function Feed(format: Format, m: Machine, chunks: seq<seq<u8>>): (m': Machine)
    requires m.ok ==> m.Ready(format)
    decreases |chunks|
  {
    if chunks == [] || !m.ok || m.Done() then m
    else Feed(format, Run(format, m, chunks[0]).0, chunks[1..])
  }

  /** However a stream is cut into chunks, feeding them ends where one call on the whole stream ends. */
  lemma {:induction false} FeedIsOneRun(format: Format, m: Machine, chunks: seq<seq<u8>>)
    requires m.Ready(format) && m.ok && !m.Done() && m.Consumes()
    ensures Feed(format, m, chunks) == Run(format, m, Flatten(chunks)).0
    decreases |chunks|
  {
    if chunks != [] {
      var (m1, good) := Run(format, m, chunks[0]);
      ChunkInvariance(format, m, chunks[0], Flatten(chunks[1..]));
      if good && !m1.Done() {
        FeedIsOneRun(format, m1, chunks[1..]);
      }
    }
  }

  // ----- The machine computes the format's recursive reading

  /** The outcome and the machine agree on verdict and output. */
  predicate Matches(outcome: Outcome, r: (Machine, bool)) {
    && r.1 == !outcome.Bad?
    && r.0.dst == outcome.out
    && (r.1 ==> r.0.Done() == outcome.Done?)
  }

  /** From `RefCopy` the machine copies the whole run, or fills the destination and fails. */
  lemma {:induction false} RunCopy(format: Format, m: Machine, src: seq<u8>, out: seq<u8>, copied: nat)
    requires m.Ready(format) && m.phase == RefCopy
    requires 1 <= m.refOffset <= |out| && m.dst == out + CopyRun(out, m.refOffset, copied)
    ensures var total := copied + m.refSize;
            var out' := out + CopyRun(out, m.refOffset, total);
            if |out| + total <= m.dstSize
            then Run(format, m, src) == Run(format, m.(phase := GroupHeader, dst := out', refSize := 0), src)
            else Run(format, m, src).0.dst == out'[..m.dstSize] && !Run(format, m, src).1
    decreases m.dstSize - |m.dst|
  {
    hide Run;
    if m.Done() {
      RunFull(format, m, src);
      CopyRunPrefix(out, m.refOffset, copied, copied + m.refSize);
    } else {
      CopyRunStep(out, m.refOffset, copied);
      var m' := OneCopied(m);
      assert m'.dst == out + CopyRun(out, m.refOffset, copied + 1);
      RunOneCopied(format, m, src);
      if m'.phase == RefCopy {
        RunCopy(format, m', src, out, copied + 1);
      }
    }
  }

  lemma RunFull(format: Format, m: Machine, src: seq<u8>)
    requires m.Ready(format) && m.Done() && m.phase != GroupHeader
    ensures Run(format, m, src) == (m.(ok := false), false)
  {
  }

  /** `m` after one `RefCopy` step. */
  function OneCopied(m: Machine): Machine
    requires 1 <= m.refOffset <= |m.dst| && 1 <= m.refSize
  {
    m.(dst := m.dst + [m.dst[|m.dst| - m.refOffset]], refSize := m.refSize - 1,
       phase := if m.refSize == 1 then GroupHeader else RefCopy)
  }

  lemma RunOneCopied(format: Format, m: Machine, src: seq<u8>)
    requires m.Ready(format) && m.phase == RefCopy && !m.Done()
    ensures OneCopied(m).Ready(format)
    ensures Run(format, m, src) == Run(format, OneCopied(m), src)
  {
    assert Process(format, m, 0) == (OneCopied(m), true);
  }

  lemma CopyRunPrefix(out: seq<u8>, distance: nat, short: nat, long: nat)
    requires 1 <= distance <= |out| && short <= long
    ensures (out + CopyRun(out, distance, long))[..|out| + short] == out + CopyRun(out, distance, short)
  {
  }

  /** `m` with its header fields filled from a whole reference. */
  function Copying(m: Machine, token: Token): Machine
    requires token.Reference? && token.Fits(Yaz)
  {
    m.(phase := RefCopy, refOffset := token.distance, refSize := token.length)
  }

  /** One turn of the loop that consumes a byte and stays on the track. */
  lemma RunConsuming(format: Format, m: Machine, src: seq<u8>)
    requires m.Ready(format) && !m.Done() && m.Consumes() && src != []
    requires Process(format, m, src[0]).1
    ensures Run(format, m, src) == Run(format, Process(format, m, src[0]).0, src[1..])
  {
  }

  lemma RunFailing(format: Format, m: Machine, src: seq<u8>)
    requires m.Ready(format) && !m.Done() && m.Consumes() && src != []
    requires !Process(format, m, src[0]).1
    ensures Run(format, m, src) == (Process(format, m, src[0]).0.(ok := false), false)
  {
  }

  /** The two header bytes all references share, when both are there and the distance is in reach. */
  lemma RunTwoHeaderBytes(format: Format, m: Machine, src: seq<u8>)
    requires m.Ready(format) && m.phase == RefHeader0 && !m.Done() && |src| >= 2
    ensures if Distance(src) <= |m.dst|
            then Run(format, m, src) == Run(format, AfterTwoBytes(format, m, src), src[2..])
            else Matches(Bad(m.dst), Run(format, m, src))
  {
    hide Run;
    var m1, tail := AfterOneByte(format, m, src[0]), src[1..];
    RunFirstHeaderByte(format, m, src);
    assert tail[1..] == src[2..];
    if Distance(src) <= |m.dst| {
      assert Process(format, m1, tail[0]) == (AfterTwoBytes(format, m, src), true);
      RunConsuming(format, m1, tail);
    } else {
      RunFailing(format, m1, tail);
    }
  }

  function AfterOneByte(format: Format, m: Machine, val: u8): Machine {
    m.(phase := RefHeader1, refOffset := val % 0x10 * 0x100, refSize := val / 0x10 + Bias(format))
  }

  lemma RunFirstHeaderByte(format: Format, m: Machine, src: seq<u8>)
    requires m.Ready(format) && m.phase == RefHeader0 && !m.Done() && src != []
    ensures AfterOneByte(format, m, src[0]).Ready(format)
    ensures Run(format, m, src) == Run(format, AfterOneByte(format, m, src[0]), src[1..])
  {
    assert Process(format, m, src[0]) == (AfterOneByte(format, m, src[0]), true);
    RunConsuming(format, m, src);
  }

  function Distance(src: seq<u8>): nat
    requires |src| >= 2
  {
    src[0] as int % 0x10 * 0x100 + src[1] + 1
  }

  function AfterTwoBytes(format: Format, m: Machine, src: seq<u8>): Machine
    requires |src| >= 2
  {
    var m1 := AfterOneByte(format, m, src[0]);
    m1.(phase := if format.Yaz? && m1.refSize == 2 then RefHeader2 else RefCopy, refOffset := m1.refOffset + src[1] + 1)
  }

  /** From `RefHeader0` the machine does what `FirstItem` says about a reference. */
  lemma RunReference(format: Format, m: Machine, src: seq<u8>)
    requires m.Ready(format) && m.phase == RefHeader0 && !m.Done()
    ensures var item := FirstItem(format, false, src, |m.dst|);
            && (item.Cut? ==> Matches(NeedMore(m.dst), Run(format, m, src)))
            && (item.TooFar? ==> Matches(Bad(m.dst), Run(format, m, src)))
            && (item.Complete? ==> Run(format, m, src) == Run(format, Copying(m, item.token), src[item.size..]))
  {
    hide Run;
    var item := FirstItem(format, false, src, |m.dst|);
    if |src| < 2 {
      RunShort(format, m, src);
    } else {
      RunTwoHeaderBytes(format, m, src);
      var m2 := AfterTwoBytes(format, m, src);
      if Distance(src) <= |m.dst| && m2.phase == RefCopy {
        assert item == Complete(Reference(m2.refOffset, m2.refSize), 2);
      } else if Distance(src) <= |m.dst| {
        RunThirdByte(format, m, src);
      }
    }
  }

  lemma RunShort(format: Format, m: Machine, src: seq<u8>)
    requires m.Ready(format) && m.phase == RefHeader0 && !m.Done() && |src| < 2
    ensures Matches(NeedMore(m.dst), Run(format, m, src))
  {
    if |src| == 1 {
      RunConsuming(format, m, src);
    }
  }

  lemma RunThirdByte(format: Format, m: Machine, src: seq<u8>)
    requires m.Ready(format) && m.phase == RefHeader0 && !m.Done() && |src| >= 2
    requires Distance(src) <= |m.dst| && AfterTwoBytes(format, m, src).phase == RefHeader2
    ensures var m2, item := AfterTwoBytes(format, m, src), FirstItem(format, false, src, |m.dst|);
            if |src| == 2 then item.Cut? && Run(format, m2, src[2..]) == (m2, true)
            else item.Complete? && Run(format, m2, src[2..]) == Run(format, Copying(m, item.token), src[item.size..])
  {
    if |src| > 2 {
      var m2, item := AfterTwoBytes(format, m, src), FirstItem(format, false, src, |m.dst|);
      assert item == Complete(Reference(m2.refOffset, src[2] as int + 0x12), 3);
      assert Process(format, m2, src[2..][0]) == (Copying(m, item.token), true);
      RunConsuming(format, m2, src[2..]);
      assert src[2..][1..] == src[3..];
    }
  }

  /** From a group boundary or between items, `Run` is `Read`. */
  lemma {:induction false} RunIsRead(format: Format, m: Machine, src: seq<u8>)
    requires m.Ready(format) && m.phase == GroupHeader
    ensures Agrees(format, m, src)
    decreases |src|, 8 - m.groupHeaderIndex, 0
  {
    if m.Done() || (m.groupHeaderIndex == 7 && src == []) {
      RunStops(format, m, src);
    } else {
      var m1, rest := Fetched(m, src).0, Fetched(m, src).1;
      RunItem(format, m1, rest);
      NextItem(format, m, src, m1, rest);
    }
  }

  lemma RunStops(format: Format, m: Machine, src: seq<u8>)
    requires m.Ready(format) && m.phase == GroupHeader
    requires m.Done() || (m.groupHeaderIndex == 7 && src == [])
    ensures Agrees(format, m, src)
  {
    assert Run(format, m, src) == (m, true);
  }

  /** The machine and source once a `GroupHeader` step has moved to the next item, before its flag is read. */
  function Fetched(m: Machine, src: seq<u8>): (r: (Machine, seq<u8>))
    requires m.groupHeaderIndex <= 7 && (m.groupHeaderIndex == 7 ==> src != [])
  {
    if m.groupHeaderIndex == 7 then (m.(groupHeader := src[0], groupHeaderIndex := 0), src[1..])
    else (m.(groupHeaderIndex := m.groupHeaderIndex + 1), src)
  }

  /** Where a `GroupHeader` step goes on the flag of item `groupHeaderIndex`. */
  function ItemPhase(format: Format, m: Machine): Phase
    requires m.groupHeaderIndex <= 7
  {
    if (Bit(m.groupHeader, 7 - m.groupHeaderIndex) == 1) == format.Yaz? then Copy else RefHeader0
  }

  lemma NextItem(format: Format, m: Machine, src: seq<u8>, m1: Machine, rest: seq<u8>)
    requires m.Ready(format) && !m.Done() && m.phase == GroupHeader
    requires m.groupHeaderIndex == 7 ==> src != []
    requires (m1, rest) == Fetched(m, src)
    ensures Run(format, m, src) == Run(format, m1.(phase := ItemPhase(format, m1)), rest)
    ensures Read(format, m.groupHeader, m.groupHeaderIndex + 1, src, m.dstSize, m.dst)
         == Read(format, m1.groupHeader, m1.groupHeaderIndex, rest, m1.dstSize, m1.dst)
  {
  }

  /** `m` has just looked up the flag of item `groupHeaderIndex`. */
  lemma {:induction false} RunItem(format: Format, m: Machine, src: seq<u8>)
    requires m.Ready(format) && !m.Done() && m.phase == GroupHeader
    ensures Matches(
              Read(format, m.groupHeader, m.groupHeaderIndex, src, m.dstSize, m.dst),
              Run(format, m.(phase := ItemPhase(format, m)), src))
    decreases |src|, 8 - m.groupHeaderIndex, 1
  {
    if ItemPhase(format, m) == Copy {
      if src != [] {
        RunIsRead(format, m.(dst := m.dst + [src[0]]), src[1..]);
      }
      LiteralItem(format, m, src);
    } else {
      var item := FirstItem(format, false, src, |m.dst|);
      if item.Complete? && |m.dst| + item.token.length <= m.dstSize {
        RunIsRead(format, Copied(m, item.token), src[item.size..]);
      }
      ReferenceItem(format, m, src, item);
    }
  }

  /** The claim of `RunIsRead` for one machine and source. */
  predicate Agrees(format: Format, m: Machine, src: seq<u8>)
    requires m.Ready(format) && m.phase == GroupHeader
  {
    Matches(Read(format, m.groupHeader, m.groupHeaderIndex + 1, src, m.dstSize, m.dst), Run(format, m, src))
  }

  lemma LiteralItem(format: Format, m: Machine, src: seq<u8>)
    requires m.Ready(format) && !m.Done() && m.phase == GroupHeader
    requires ItemPhase(format, m) == Copy
    requires src != [] ==> Agrees(format, m.(dst := m.dst + [src[0]]), src[1..])
    ensures Matches(
              Read(format, m.groupHeader, m.groupHeaderIndex, src, m.dstSize, m.dst),
              Run(format, m.(phase := Copy), src))
  {
    ReadItem(format, m.groupHeader, m.groupHeaderIndex, src, m.dstSize, m.dst, FirstItem(format, true, src, |m.dst|));
    RunLiteral(format, m.(phase := Copy), src);
  }

  lemma RunLiteral(format: Format, m: Machine, src: seq<u8>)
    requires m.Ready(format) && !m.Done() && m.phase == Copy
    ensures if src == [] then Run(format, m, src) == (m, true)
            else Run(format, m, src) == Run(format, m.(phase := GroupHeader, dst := m.dst + [src[0]]), src[1..])
  {
  }

  lemma ReferenceItem(format: Format, m: Machine, src: seq<u8>, item: Item)
    requires m.Ready(format) && !m.Done() && m.phase == GroupHeader
    requires ItemPhase(format, m) == RefHeader0
    requires item == FirstItem(format, false, src, |m.dst|)
    requires item.Complete? && |m.dst| + item.token.length <= m.dstSize ==>
               Agrees(format, Copied(m, item.token), src[item.size..])
    ensures Matches(
              Read(format, m.groupHeader, m.groupHeaderIndex, src, m.dstSize, m.dst),
              Run(format, m.(phase := RefHeader0), src))
  {
    hide Run;
    RunReference(format, m.(phase := RefHeader0), src);
    ReadItem(format, m.groupHeader, m.groupHeaderIndex, src, m.dstSize, m.dst, item);
    if item.Complete? {
      RunTail(format, m, item.token, src[item.size..]);
    }
  }

  /** One unfolding of `Read` at an item. */
  lemma ReadItem(format: Format, flags: u8, k: nat, src: seq<u8>, size: nat, out: seq<u8>, item: Item)
    requires k < 8 && |out| < size
    requires item == FirstItem(format, (Bit(flags, 7 - k) == 1) == format.Yaz?, src, |out|)
    ensures item.Cut? ==> Read(format, flags, k, src, size, out) == NeedMore(out)
    ensures item.TooFar? ==> Read(format, flags, k, src, size, out) == Bad(out)
    ensures item.Complete? ==>
              Read(format, flags, k, src, size, out) ==
              if |out| + item.token.Length() > size then Bad(Apply(out, item.token)[..size])
              else Read(format, flags, k + 1, src[item.size..], size, Apply(out, item.token))
  {
  }

  function Copied(m: Machine, token: Token): Machine
    requires token.Reference? && token.Fits(Yaz) && token.Reaches(|m.dst|)
  {
    Copying(m, token).(phase := GroupHeader, dst := Apply(m.dst, token), refSize := 0)
  }

  lemma RunTail(format: Format, m: Machine, token: Token, src: seq<u8>)
    requires m.Ready(format) && token.Reference? && token.Fits(Yaz) && token.Reaches(|m.dst|)
    ensures if |m.dst| + token.length <= m.dstSize
            then Run(format, Copying(m, token), src) == Run(format, Copied(m, token), src)
            else Matches(Bad(Apply(m.dst, token)[..m.dstSize]), Run(format, Copying(m, token), src))
  {
    var mc := Copying(m, token);
    assert m.dst + CopyRun(m.dst, mc.refOffset, 0) == m.dst;
    RunCopy(format, mc, src, m.dst, 0);
  }

  /** A fresh decoder fed a whole body computes the one-shot meaning of the format. */
  lemma RunIsDecompress(format: Format, m: Machine, src: seq<u8>)
    requires Initial(m)
    ensures Matches(Decompress(format, src, m.dstSize), Run(format, m, src))
  {
    RunIsRead(format, m, src);
    ReadFlagsUnused(format, m.groupHeader, 0, src, m.dstSize, []);
  }

  lemma ReadFlagsUnused(format: Format, flags: u8, flags': u8, src: seq<u8>, size: nat, out: seq<u8>)
    requires |out| <= size
    ensures Read(format, flags, 8, src, size, out) == Read(format, flags', 8, src, size, out)
  {
  }
}
