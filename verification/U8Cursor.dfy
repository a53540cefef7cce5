/** payload/sp/U8Cursor.{hh,cc}: sequential big-endian reads from a buffer someone else may be writing. */
module U8CursorModule {
  import opened Bytes
  import opened Wrappers
  import opened NodeTable

  datatype Header = Header(magic: u32, nodeOffset: u32, metaSize: u32, dataOffset: u32)

  class U8Cursor {
    const buffer: array<u8>
    var pos: nat

    constructor (buffer: array<u8>)
      ensures this.buffer == buffer && pos == 0
    {
      this.buffer, pos := buffer, 0;
    }

    method SetPosition(newPos: nat)
      modifies this
      ensures pos == newPos
    {
      pos := newPos;
    }

    /** `read<N>`: the bound check refuses to read the buffer's last byte. */
    method Read(n: nat) returns (bytes: Option<seq<u8>>)
      modifies this
      ensures old(pos) + n >= buffer.Length ==> bytes == None && pos == old(pos)
      ensures old(pos) + n < buffer.Length ==> bytes == Some(buffer[old(pos)..old(pos) + n]) && pos == old(pos) + n
    {
      var start := pos;
      if start + n >= buffer.Length {
        return None;
      }
      bytes := Some(buffer[start..start + n]);
      pos := pos + n;
    }

    method ReadByte() returns (val: Option<u8>)
      modifies this
      ensures old(pos) + 1 >= buffer.Length ==> val == None && pos == old(pos)
      ensures old(pos) + 1 < buffer.Length ==> val == Some(buffer[old(pos)]) && pos == old(pos) + 1
    {
      var bytes := Read(1);
      if bytes.Some? {
        return Some(bytes.value[0]);
      }
      return None;
    }

    method ReadU24() returns (val: Option<u32>)
      modifies this
      ensures old(pos) + 3 >= buffer.Length ==> val == None && pos == old(pos)
      ensures old(pos) + 3 < buffer.Length ==>
                && val == Some(buffer[old(pos)] as int * 0x1_0000 + buffer[old(pos) + 1] as int * 0x100 + buffer[old(pos) + 2])
                && pos == old(pos) + 3
    {
      hide Or, Shl, And;
      var bytes := Read(3);
      if bytes.None? {
        return None;
      }
      var b := bytes.value;
      U24(b[0], b[1], b[2]);
      var out := 0;
      out := Or(out, Shl(And(b[0], 0xff), 16));
      out := Or(out, Shl(And(b[1], 0xff), 8));
      out := Or(out, Shl(And(b[2], 0xff), 0));
      return Some(out);
    }

    method ReadU32() returns (val: Option<u32>)
      modifies this
      ensures old(pos) + 4 >= buffer.Length ==> val == None && pos == old(pos)
      ensures old(pos) + 4 < buffer.Length ==> val == Some(Word(buffer[..], old(pos))) && pos == old(pos) + 4
    {
      var bytes := Read(4);
      if bytes.None? {
        return None;
      }
      assert buffer[..][old(pos)..old(pos) + 4] == bytes.value;
      return Some(BigEndian(bytes.value));
    }

    method ReadU8Header() returns (header: Option<Header>)
      modifies this
      ensures old(pos) + 0x10 >= buffer.Length ==> header == None
      ensures old(pos) + 0x10 < buffer.Length ==>
                var at := old(pos);
                && header == Some(Header(Word(buffer[..], at), Word(buffer[..], at + 0x4), Word(buffer[..], at + 0x8), Word(buffer[..], at + 0xc)))
                && pos == at + 0x10
    {
      var magic := ReadU32();
      var nodeOffset := ReadU32();
      var metaSize := ReadU32();
      var dataOffset := ReadU32();
      if magic.None? || nodeOffset.None? || metaSize.None? || dataOffset.None? {
        return None;
      }
      return Some(Header(magic.value, nodeOffset.value, metaSize.value, dataOffset.value));
    }

    /** The four reads make up one row of the table. */
    method ReadNode() returns (node: Option<Entry>)
      modifies this
      ensures old(pos) + ROW >= buffer.Length ==> node == None
      ensures old(pos) + ROW < buffer.Length ==> node == Some(RowAt(buffer[..], old(pos))) && pos == old(pos) + ROW
    {
      var isDir := ReadByte();
      var nameOffset := ReadU24();
      var first := ReadU32();
      var last := ReadU32();
      if isDir.None? || nameOffset.None? || first.None? || last.None? {
        return None;
      }
      WordLow24(buffer[..], old(pos));
      return Some(Entry(isDir.value != 0, nameOffset.value, first.value, last.value));
    }
  }

  /** The three shifted bytes of `readU24` are ORed without overlap. */
  lemma U24(high: u8, mid: u8, low: u8)
    ensures var h := Or(0, Shl(And(high, 0xff), 16));
            Or(Or(h, Shl(And(mid, 0xff), 8)), Shl(And(low, 0xff), 0)) == high as int * 0x1_0000 + mid as int * 0x100 + low
  {
    hide Or, And, Shl;
    ByteMask(high);
    ByteMask(mid);
    ByteMask(low);
    ShlPowers(high, mid, low);
    OrZeroLeft(Shl(high, 16));
    assert Pow2(16) == 0x1_0000 && Pow2(8) == 0x100;
    OrDisjoint(high, mid as int * 0x100, 16);
    ShlIsScaling(high as int * 0x100 + mid, 8);
    OrDisjoint(high as int * 0x100 + mid, low, 8);
  }

  lemma PowerByte()
    ensures Pow2(8) == 0x100
  {
    assert Pow2(4) == 0x10;
  }

  lemma ByteMask(val: u8)
    ensures And(val, 0xff) == val
  {
    hide And, Pow2;
    assert Pow2(8) == 0x100 by {
      PowerByte();
    }
    AndLowMask(val, 8);
  }

  lemma ShlPowers(high: nat, mid: nat, low: nat)
    ensures Shl(high, 16) == high * 0x1_0000 && Shl(mid, 8) == mid * 0x100 && Shl(low, 0) == low
  {
    assert Pow2(16) == 0x1_0000 && Pow2(8) == 0x100;
    ShlIsScaling(high, 16);
    ShlIsScaling(mid, 8);
  }
}
