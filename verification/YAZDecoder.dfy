/** payload/sp/YAZDecoder.{hh,cc}: the streaming Yaz0/Yaz1 decoder. */
module YAZDecoderModule {
  import opened Bytes
  import opened Wrappers
  import opened LzFormat
  import opened LzMachine

  const YAZ0_MAGIC: u32 := 0x59617a30
  const YAZ1_MAGIC: u32 := 0x59617a31
  const HEADER_SIZE: nat := 0x10

  predicate CheckMagic(magic: u32) {
    magic == YAZ0_MAGIC || magic == YAZ1_MAGIC
  }

  function GetDecodedSize(src: seq<u8>): Option<u32> {
    if |src| < HEADER_SIZE then None
    else if !CheckMagic(BigEndian(src[0x0..0x4])) then None
    else Some(BigEndian(src[0x4..0x8]))
  }

  /** A file announces a size when it starts with "Yaz0" or "Yaz1" and has all sixteen header bytes. */
  lemma GetDecodedSizeIs(src: seq<u8>, n: u32)
    ensures GetDecodedSize(src) == Some(n) <==>
            && |src| >= 16 && src[0] == 0x59 && src[1] == 0x61 && src[2] == 0x7a && (src[3] == 0x30 || src[3] == 0x31)
            && n == src[4] as int * 0x100_0000 + src[5] as int * 0x1_0000 + src[6] as int * 0x100 + src[7] as int
  {
    if |src| >= 16 {
      assert src[0x0..0x4] == [src[0], src[1], src[2], src[3]];
      assert src[0x4..0x8] == [src[4], src[5], src[6], src[7]];
    }
  }

  class YAZDecoder {
    var dst: array<u8>
    var dstSize: nat
    var dstOffset: nat
    var state: Phase
    var groupHeaderIndex: u8
    var groupHeader: u8
    var refSize: u16
    var refOffset: u16
    var ok: bool

    /** The decoder's value: its fields and the bytes written so far. */
    ghost function Value(): Machine
      requires dstOffset <= dst.Length
      reads this, dst
    {
      Machine(state, dst[..dstOffset], dstSize, groupHeaderIndex, groupHeader, refSize, refOffset, ok)
    }

    ghost predicate Valid()
      reads this, dst
    {
      dstOffset <= dstSize <= dst.Length && Value().Ready(Yaz)
    }

    /** Sizes and allocates the destination from the header; a cut header leaves the decoder not ok. */
    constructor FromHeader(src: seq<u8>, header: u8, size: u16, offset: u16)
      ensures fresh(dst) && dst.Length == dstSize
      ensures |src| < HEADER_SIZE ==> !ok
      ensures |src| >= HEADER_SIZE ==> Valid() && Initial(Value()) && dstSize == BigEndian(src[0x4..0x8])
    {
      dstOffset, state, groupHeaderIndex := 0, GroupHeader, 7;
      groupHeader, refSize, refOffset := header, size, offset;  // uninitialised in the source
      if |src| < HEADER_SIZE {
        ok, dstSize, dst := false, 0, new u8[0];
      } else {
        ok, dstSize := true, BigEndian(src[0x4..0x8]);
        dst := new u8[BigEndian(src[0x4..0x8])];
      }
    }

    constructor Into(dst: array<u8>, dstSize: nat, header: u8, size: u16, offset: u16)
      requires dstSize <= dst.Length
      ensures Valid() && Initial(Value()) && this.dst == dst && this.dstSize == dstSize
    {
      this.dst, this.dstSize, dstOffset := dst, dstSize, 0;
      state, groupHeaderIndex, ok := GroupHeader, 7, true;
      groupHeader, refSize, refOffset := header, size, offset;  // uninitialised in the source
    }

    predicate Done()
      reads this
    {
      dstOffset == dstSize
    }

    predicate AtSourceEndMustWait()
      reads this
    {
      (state != GroupHeader || groupHeaderIndex == 7) && state != RefCopy
    }

    /** One call of `process`. */
    method Step(src: seq<u8>, srcOffset: nat) returns (srcOffset': nat, good: bool)
      requires Valid() && !Done() && srcOffset <= |src|
      requires srcOffset == |src| ==> !AtSourceEndMustWait()
      modifies this, dst
      ensures dst == old(dst) && dstSize == old(dstSize) && dstOffset <= dstSize
      ensures forall i :: dstOffset <= i < dst.Length ==> dst[i] == old(dst[i])
      ensures (Value(), good)
           == Process(Yaz, old(Value()), if old(AtSourceEndMustWait()) then src[srcOffset] else 0)
      ensures srcOffset' == if old(AtSourceEndMustWait()) then srcOffset + 1 else srcOffset
    {
      srcOffset' := srcOffset;
      ghost var before := dst[..dstOffset];
      match state {
        case Copy =>
          dst[dstOffset] := src[srcOffset'];
          dstOffset, srcOffset' := dstOffset + 1, srcOffset' + 1;
          assert dst[..dstOffset] == before + [src[srcOffset]];
          state := GroupHeader;
          return srcOffset', true;
        case RefCopy =>
          var val := dst[dstOffset - refOffset];
          dst[dstOffset] := val;
          dstOffset := dstOffset + 1;
          assert dst[..dstOffset] == before + [val];
          refSize := refSize - 1;
          if refSize == 0x0 {
            state := GroupHeader;
          }
          return srcOffset', true;
        case GroupHeader | RefHeader0 | RefHeader1 | RefHeader2 =>
          srcOffset', good := StepHeader(src, srcOffset);
      }
    }

    /** The four states of `process` that only read headers. */
    method StepHeader(src: seq<u8>, srcOffset: nat) returns (srcOffset': nat, good: bool)
      requires Valid() && !Done() && state != Copy && state != RefCopy && srcOffset <= |src|
      requires srcOffset == |src| ==> !AtSourceEndMustWait()
      modifies this`state, this`groupHeaderIndex, this`groupHeader, this`refSize, this`refOffset
      ensures (Value(), good)
           == Process(Yaz, old(Value()), if old(AtSourceEndMustWait()) then src[srcOffset] else 0)
      ensures srcOffset' == if old(AtSourceEndMustWait()) then srcOffset + 1 else srcOffset
    {
      hide And, Shl, Shr;
      srcOffset' := srcOffset;
      match state {
        case GroupHeader =>
          groupHeaderIndex := groupHeaderIndex + 1;
          if groupHeaderIndex == 8 {
            groupHeader := src[srcOffset'];
            srcOffset' := srcOffset' + 1;
            groupHeaderIndex := 0;
          }
          LowBit(Shr(groupHeader, 7 - groupHeaderIndex));
          if And(Shr(groupHeader, 7 - groupHeaderIndex), 1) == 1 {
            state := Copy;
          } else {
            state := RefHeader0;
          }
          return srcOffset', true;
        case RefHeader0 =>
          var val := src[srcOffset'];
          srcOffset' := srcOffset' + 1;
          NibbleFields(val);
          refOffset := And(Shl(val, 8), 0xf00);
          refSize := Shr(val, 4) + 0x2;
          state := RefHeader1;
          return srcOffset', true;
        case RefHeader1 =>
          var val := src[srcOffset'];
          srcOffset' := srcOffset' + 1;
          refOffset := refOffset + val + 0x1;
          if refOffset > dstOffset {
            return srcOffset', false;
          }
          if refSize == 0x2 {
            state := RefHeader2;
          } else {
            state := RefCopy;
          }
          return srcOffset', true;
        case RefHeader2 =>
          var val := src[srcOffset'];
          srcOffset' := srcOffset' + 1;
          refSize := val as int + 0x12;
          state := RefCopy;
          return srcOffset', true;
      }
    }

    /** Decodes one chunk: the fields and the return value are those of `Run`. */
    method Decode(src: seq<u8>) returns (good: bool)
      requires Valid() && ok && !Done()
      modifies this, dst
      ensures dst == old(dst) && dstSize == old(dstSize) && dstOffset <= dstSize
      ensures (Value(), good) == Run(Yaz, old(Value()), src)
      ensures good ==> Valid()
      ensures forall i :: dstOffset <= i < dst.Length ==> dst[i] == old(dst[i])
    {
      var srcOffset := 0;
      ghost var m0 := Value();
      while true
        invariant dst == old(dst) && dstSize == old(dstSize) && Valid() && ok
        invariant srcOffset <= |src|
        invariant Run(Yaz, Value(), src[srcOffset..]) == Run(Yaz, m0, src)
        invariant forall i :: dstOffset <= i < dst.Length ==> dst[i] == old(dst[i])
        decreases |src| - srcOffset + dstSize - dstOffset, Value().Idle()
      {
        if dstOffset == dstSize {
          if state == GroupHeader {
            return true;
          }
          ok := false;
          return false;
        }
        if srcOffset == |src| && AtSourceEndMustWait() {
          return true;
        }
        ghost var rest := src[srcOffset..];
        var next;
        srcOffset, next := Step(src, srcOffset);
        assert srcOffset <= |src| && src[srcOffset..] == if |rest| == |src| - srcOffset then rest else rest[1..];
        if !next {
          break;
        }
      }
      ok := false;
      return false;
    }
  }

  /** What `Decode` on a whole file promises: the announced size and that many bytes, or nothing. */
  function DecodeFile(src: seq<u8>, room: u32): (r: Option<seq<u8>>) {
    match GetDecodedSize(src)
    case None => None
    case Some(size) =>
      var n := if room < size then room else size;
      var outcome := Decompress(Yaz, src[HEADER_SIZE..], n);
      if outcome.Done? then Some(outcome.out) else None
  }

  /** It is the body after sixteen bytes, decompressed into as much of the announced size as there is room for. */
  lemma DecodeFileIs(src: seq<u8>, room: u32, n: u32)
    requires GetDecodedSize(src) == Some(n)
    ensures |src| >= 16
    ensures var outcome := Decompress(Yaz, src[16..], if n <= room then n else room);
            DecodeFile(src, room) == if outcome.Done? then Some(outcome.out) else None
  {
    hide Decompress;
  }

  /** Both magic numbers are read alike. */
  lemma Yaz0Reads(src: seq<u8>, room: u32)
    requires |src| >= 16 && src[..4] == [0x59, 0x61, 0x7a, 0x30]
    ensures GetDecodedSize(src).Some? && DecodeFile(src, room) == DecodeFile(src[3 := 0x31], room)
  {
    hide Decompress, GetDecodedSize;
    var n := src[4] as int * 0x100_0000 + src[5] as int * 0x1_0000 + src[6] as int * 0x100 + src[7] as int;
    assert src[3] == src[..4][3] && src[2] == src[..4][2] && src[1] == src[..4][1] && src[0] == src[..4][0];
    GetDecodedSizeIs(src, n);
    GetDecodedSizeIs(src[3 := 0x31], n);
    assert src[3 := 0x31][16..] == src[16..];
  }

  /** One-shot decoding into a caller's buffer. The source asserts that there is something to produce. */
  method Decode(src: seq<u8>, dst: array<u8>, dstSize: u32, header: u8, size: u16, offset: u16)
    returns (r: Option<u32>)
    requires dstSize <= dst.Length
    requires GetDecodedSize(src).Some? ==> dstSize > 0 && GetDecodedSize(src).value > 0
    modifies dst
    ensures match DecodeFile(src, dstSize)
            case None => r == None
            case Some(out) => r == Some(|out|) && |out| <= dstSize && dst[..|out|] == out
    ensures forall i :: dstSize <= i < dst.Length ==> dst[i] == old(dst[i])
  {
    var tmp := GetDecodedSize(src);
    if tmp == None {
      return None;
    }
    var n := if dstSize < tmp.value then dstSize else tmp.value;
    var decoder := new YAZDecoder.Into(dst, n, header, size, offset);
    ghost var m := decoder.Value();
    RunIsDecompress(Yaz, m, src[HEADER_SIZE..]);
    var good := decoder.Decode(src[HEADER_SIZE..]);
    if !good {
      return None;
    }
    if !decoder.Done() {
      return None;
    }
    return Some(n);
  }
}
