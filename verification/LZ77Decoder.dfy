/** payload/sp/LZ77Decoder.{hh,cc}: the streaming LZ77 decoder, with its two-form size header. */
module LZ77DecoderModule {
  import opened Bytes
  import opened Wrappers
  import opened LzFormat
  import opened LzMachine

  predicate CheckMagic(magic: u32) {
    And(magic, 0xff) == 0x10
  }

  /** The header's length and the size it announces; `None` if the header is cut. */
  function SizeHeader(src: seq<u8>): (r: Option<(nat, nat)>) {
    if |src| < 4 then None
    else
      var announced := Shr(LittleEndian(src[0x0..0x4]), 8);
      if announced != 0 then Some((4, announced))
      else if |src| < 8 then None
      else Some((8, LittleEndian(src[0x4..0x8])))
  }

  /** Either form of the header announces exactly the size written in it. */
  lemma SizeHeaderReads(low: u8, mid: u8, high: u8, extended: seq<u8>, body: seq<u8>)
    requires |extended| == 4
    ensures var size := high as int * 0x1_0000 + mid as int * 0x100 + low as int;
            if size != 0
            then SizeHeader([0x10, low, mid, high] + body) == Some((4, size))
            else SizeHeader([0x10, low, mid, high] + extended + body) == Some((8, LittleEndian(extended)))
    ensures CheckMagic(LittleEndian([0x10, low, mid, high]))
  {
    var head := [0x10, low, mid, high];
    assert (head + body)[0x0..0x4] == head;
    assert (head + extended + body)[0x0..0x4] == head;
    assert (head + extended + body)[0x4..0x8] == extended;
    assert Pow2(8) - 1 == 0xff;
    AndLowMask(LittleEndian(head), 8);
    ShrDropsLow(high as int * 0x1_0000 + mid as int * 0x100 + low as int, 0x10);
  }

  /** The magic is the low byte 0x10. */
  lemma CheckMagicIs(magic: u32)
    ensures CheckMagic(magic) <==> magic % 0x100 == 0x10
  {
    assert Pow2(8) - 1 == 0xff;
    AndLowMask(magic, 8);
  }

  /** Byte by byte: a 24-bit size in the second to fourth byte, or, when that is 0, a 32-bit size in the next four. */
  lemma SizeHeaderIs(src: seq<u8>)
    ensures SizeHeader(src) ==
            if |src| < 4 then None
            else if src[1] != 0 || src[2] != 0 || src[3] != 0 then
              Some((4, src[1] as int + src[2] as int * 0x100 + src[3] as int * 0x1_0000))
            else if |src| < 8 then None
            else Some((8, src[4] as int + src[5] as int * 0x100 + src[6] as int * 0x1_0000 + src[7] as int * 0x100_0000))
  {
    if |src| >= 4 {
      hide Shr;
      ShrDropsLow(src[1] as int + src[2] as int * 0x100 + src[3] as int * 0x1_0000, src[0]);
    }
  }

  lemma ShrDropsLow(high: nat, low: u8)
    ensures Shr(high * 0x100 + low, 8) == high
  {
  }

  class LZ77Decoder {
    var headerSize: nat
    var dst: array<u8>
    var dstSize: nat
    var dstOffset: nat
    var state: Phase
    var groupHeaderIndex: u8
    var groupHeader: u8
    var refSize: u16
    var refOffset: u16
    var ok: bool

    /** The decoder's value: its fields and the bytes written so far. */
    ghost function Value(): Machine
      requires dstOffset <= dst.Length
      reads this, dst
    {
      Machine(state, dst[..dstOffset], dstSize, groupHeaderIndex, groupHeader, refSize, refOffset, ok)
    }

    ghost predicate Valid()
      reads this, dst
    {
      dstOffset <= dstSize <= dst.Length && Value().Ready(Lz77)
    }

    /** Sizes and allocates the destination from the size header; a cut header leaves the decoder not ok. */
    constructor (src: seq<u8>, header: u8, size: u16, offset: u16)
      ensures fresh(dst) && dst.Length == dstSize
      ensures SizeHeader(src) == None ==> !ok
      ensures SizeHeader(src).Some? ==>
                && Valid() && Initial(Value())
                && headerSize == SizeHeader(src).value.0 && dstSize == SizeHeader(src).value.1
    {
      headerSize, dstSize, dstOffset := 0, 0, 0;
      state, groupHeaderIndex, ok := GroupHeader, 7, true;
      groupHeader, refSize, refOffset := header, size, offset;  // uninitialised in the source
      if |src| < 4 {
        ok, dst := false, new u8[0];
      } else {
        var announced := Shr(LittleEndian(src[0x0..0x4]), 8);
        if announced == 0 {
          if |src| < 8 {
            ok, dst := false, new u8[0];
          } else {
            headerSize, dstSize := 8, LittleEndian(src[0x4..0x8]);
            dst := new u8[LittleEndian(src[0x4..0x8])];
          }
        } else {
          headerSize, dstSize := 4, announced;
          dst := new u8[announced];
        }
      }
    }

    predicate Done()
      reads this
    {
      dstOffset == dstSize
    }

    predicate AtSourceEndMustWait()
      reads this
    {
      (state != GroupHeader || groupHeaderIndex == 7) && state != RefCopy
    }

    /** One call of `process`. */
    method Step(src: seq<u8>, srcOffset: nat) returns (srcOffset': nat, good: bool)
      requires Valid() && !Done() && srcOffset <= |src|
      requires srcOffset == |src| ==> !AtSourceEndMustWait()
      modifies this, dst
      ensures dst == old(dst) && dstSize == old(dstSize) && dstOffset <= dstSize
      ensures forall i :: dstOffset <= i < dst.Length ==> dst[i] == old(dst[i])
      ensures (Value(), good)
           == Process(Lz77, old(Value()), if old(AtSourceEndMustWait()) then src[srcOffset] else 0)
      ensures srcOffset' == if old(AtSourceEndMustWait()) then srcOffset + 1 else srcOffset
    {
      srcOffset' := srcOffset;
      ghost var before := dst[..dstOffset];
      match state {
        case Copy =>
          dst[dstOffset] := src[srcOffset'];
          dstOffset, srcOffset' := dstOffset + 1, srcOffset' + 1;
          assert dst[..dstOffset] == before + [src[srcOffset]];
          state := GroupHeader;
          return srcOffset', true;
        case RefCopy =>
          var val := dst[dstOffset - refOffset];
          dst[dstOffset] := val;
          dstOffset := dstOffset + 1;
          assert dst[..dstOffset] == before + [val];
          refSize := refSize - 1;
          if refSize == 0x0 {
            state := GroupHeader;
          }
          return srcOffset', true;
        case GroupHeader | RefHeader0 | RefHeader1 =>
          srcOffset', good := StepHeader(src, srcOffset);
        case RefHeader2 =>
          assert false;
      }
    }

    /** The three states of `process` that only read headers. */
    method StepHeader(src: seq<u8>, srcOffset: nat) returns (srcOffset': nat, good: bool)
      requires Valid() && !Done() && state != Copy && state != RefCopy && srcOffset <= |src|
      requires srcOffset == |src| ==> !AtSourceEndMustWait()
      modifies this`state, this`groupHeaderIndex, this`groupHeader, this`refSize, this`refOffset
      ensures (Value(), good)
           == Process(Lz77, old(Value()), if old(AtSourceEndMustWait()) then src[srcOffset] else 0)
      ensures srcOffset' == if old(AtSourceEndMustWait()) then srcOffset + 1 else srcOffset
    {
      hide And, Shl, Shr;
      srcOffset' := srcOffset;
      match state {
        case GroupHeader =>
          groupHeaderIndex := groupHeaderIndex + 1;
          if groupHeaderIndex == 8 {
            groupHeader := src[srcOffset'];
            srcOffset' := srcOffset' + 1;
            groupHeaderIndex := 0;
          }
          LowBit(Shr(groupHeader, 7 - groupHeaderIndex));
          if And(Shr(groupHeader, 7 - groupHeaderIndex), 1) == 1 {
            state := RefHeader0;
          } else {
            state := Copy;
          }
          return srcOffset', true;
        case RefHeader0 =>
          var val := src[srcOffset'];
          srcOffset' := srcOffset' + 1;
          NibbleFields(val);
          refOffset := And(Shl(val, 8), 0xf00);
          refSize := Shr(val, 4) + 0x3;
          state := RefHeader1;
          return srcOffset', true;
        case RefHeader1 =>
          var val := src[srcOffset'];
          srcOffset' := srcOffset' + 1;
          refOffset := refOffset + val + 0x1;
          if refOffset > dstOffset {
            return srcOffset', false;
          }
          state := RefCopy;
          return srcOffset', true;
        case RefHeader2 =>
          assert false;
      }
    }

    /** Decodes one chunk: the fields and the return value are those of `Run`. */
    method Decode(src: seq<u8>) returns (good: bool)
      requires Valid() && ok && !Done()
      modifies this, dst
      ensures dst == old(dst) && dstSize == old(dstSize) && dstOffset <= dstSize
      ensures (Value(), good) == Run(Lz77, old(Value()), src)
      ensures good ==> Valid()
      ensures forall i :: dstOffset <= i < dst.Length ==> dst[i] == old(dst[i])
    {
      var srcOffset := 0;
      ghost var m0 := Value();
      while true
        invariant dst == old(dst) && dstSize == old(dstSize) && Valid() && ok
        invariant srcOffset <= |src|
        invariant Run(Lz77, Value(), src[srcOffset..]) == Run(Lz77, m0, src)
        invariant forall i :: dstOffset <= i < dst.Length ==> dst[i] == old(dst[i])
        decreases |src| - srcOffset + dstSize - dstOffset, Value().Idle()
      {
        if dstOffset == dstSize {
          if state == GroupHeader {
            return true;
          }
          ok := false;
          return false;
        }
        if srcOffset == |src| && AtSourceEndMustWait() {
          return true;
        }
        ghost var rest := src[srcOffset..];
        var next;
        srcOffset, next := Step(src, srcOffset);
        assert srcOffset <= |src| && src[srcOffset..] == if |rest| == |src| - srcOffset then rest else rest[1..];
        if !next {
          break;
        }
      }
      ok := false;
      return false;
    }
  }
}
