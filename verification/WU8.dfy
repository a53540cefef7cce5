/** payload/sp/WU8Library.cc: `DeriveStartingKey` and `DecodeWU8`, the in-place decoding of an archive. */
module WU8 {
  import opened Bytes
  import opened Wrappers
  import opened NodeTable
  import opened U8CursorModule
  import opened U8IteratorModule

  const WU8_MAGIC: u32 := 1465202785
  const U8_MAGIC: u32 := 0x55AA382D
  const HEADER: nat := 0x10

  function DeriveStartingKey(size: u32): u8 {
    var p := BigEndianBytes(size);
    XorByte(XorByte(XorByte(p[0], p[1]), p[2]), p[3])
  }

  // ----- Which key each byte of the archive is under

  predicate IsFile(tour: Tour, k: nat) {
    |tour.roots| <= k < tour.NodeCount() && !tour.Rows()[k].isDir
  }

  predicate InFile(tour: Tour, k: nat, p: nat) {
    IsFile(tour, k) && tour.Rows()[k].first <= p < tour.Rows()[k].first + tour.Rows()[k].last
  }

  /** The auto-add library's copy of file `k`, if it has one: such files are the object files. */
  function Original(tour: Tour, storage: Storage, k: nat): Option<seq<u8>>
    requires IsFile(tour, k)
  {
    storage(PathOf(tour.Around(k), tour.Rows()[k]))
  }

  /** An archive as the decoder needs it: file data clear of the header, the metadata and other files. */
  ghost predicate WellLaid(tour: Tour, storage: Storage, size: nat, metaSize: nat) {
    && HEADER <= tour.start && tour.start + metaSize <= size && tour.NodeCount() * ROW <= metaSize
    && tour.start + tour.NodeCount() * ROW < size < U32_MODULUS
    && tour.WellFormed() && tour.NodeCount() > 0 && tour.Rows()[0].last == tour.NodeCount()
    && (forall k :: IsFile(tour, k) ==> FileInPlace(tour, storage, size, metaSize, k))
    && (forall j, k, p :: InFile(tour, j, p) && InFile(tour, k, p) ==> j == k)
  }

  ghost predicate FileInPlace(tour: Tour, storage: Storage, size: nat, metaSize: nat, k: nat)
    requires IsFile(tour, k)
  {
    var row := tour.Rows()[k];
    && row.first + row.last <= size
    && (row.first >= tour.start + metaSize || (HEADER <= row.first && row.first + row.last <= tour.start))
    && (Original(tour, storage, k).Some? ==> Original(tour, storage, k).value != [])
  }

  function Mix(data: seq<u8>): u8
    requires data != []
  {
    XorByte(XorByte(data[|data| / 2], data[|data| / 3]), data[|data| / 4])
  }

  /** The second key once the files among the first `n` rows have been folded in. */
  function DerivedKey(tour: Tour, storage: Storage, key: u8, n: nat): u8
    requires n <= tour.NodeCount()
    decreases n
  {
    if n <= |tour.roots| then key
    else
      var before := DerivedKey(tour, storage, key, n - 1);
      if !IsFile(tour, n - 1) then before
      else
        match Original(tour, storage, n - 1)
        case None => before
        case Some(data) => if data == [] then before else XorByte(before, Mix(data))
  }

  /** The starting key is the XOR of the four bytes of the size, bit by bit. */
  lemma StartingKeyBits(size: u32, b: nat)
    ensures Bit(DeriveStartingKey(size), b) ==
            (Bit(size / 0x100_0000, b) + Bit(size / 0x1_0000 % 0x100, b) + Bit(size / 0x100 % 0x100, b) + Bit(size % 0x100, b)) % 2
  {
    hide Bit, Xor;
    var p := BigEndianBytes(size);
    assert size / 0x100 / 0x100 == size / 0x1_0000 && size / 0x100 / 0x100 / 0x100 == size / 0x100_0000;
    assert p == [size / 0x100_0000, size / 0x1_0000 % 0x100, size / 0x100 % 0x100, size % 0x100];
    BitXor(p[0], p[1], b);
    BitXor(XorByte(p[0], p[1]), p[2], b);
    BitXor(XorByte(XorByte(p[0], p[1]), p[2]), p[3], b);
  }

  /** What an original adds to the second key: its bytes half, a third and a quarter of the way in. */
  lemma MixBits(data: seq<u8>, b: nat)
    requires data != []
    ensures Bit(Mix(data), b) == (Bit(data[|data| / 2], b) + Bit(data[|data| / 3], b) + Bit(data[|data| / 4], b)) % 2
  {
    hide Bit, XorByte;
    var half, third, quarter := data[|data| / 2], data[|data| / 3], data[|data| / 4];
    XorByteBits(half, third, b);
    XorByteBits(XorByte(half, third), quarter, b);
    SumOfParities(Bit(quarter, b), Bit(half, b) + Bit(third, b));
  }

  /** One bit of those bytes, summed over the object files among the first `n` rows. */
  function ObjectBits(tour: Tour, storage: Storage, n: nat, b: nat): nat
    requires n <= tour.NodeCount()
    decreases n
  {
    if n == 0 then 0
    else
      var before := ObjectBits(tour, storage, n - 1, b);
      if n - 1 < |tour.roots| || tour.Rows()[n - 1].isDir then before
      else
        match Original(tour, storage, n - 1)
        case None => before
        case Some(data) =>
          if data == [] then before
          else before + Bit(data[|data| / 2], b) + Bit(data[|data| / 3], b) + Bit(data[|data| / 4], b)
  }

  /** The second key is the starting key XORed with that of every object file once. */
  lemma {:induction false} DerivedBits(tour: Tour, storage: Storage, key: u8, n: nat, b: nat)
    requires n <= tour.NodeCount()
    ensures Bit(DerivedKey(tour, storage, key, n), b) == (Bit(key, b) + ObjectBits(tour, storage, n, b)) % 2
    decreases n
  {
    hide XorByte, Mix, Bit, DerivedKey, ObjectBits, Tour.Rows, Original, IsFile;
    BitRange(key, b);
    DerivedMoves(tour, storage, key, n, b);
    if n != 0 {
      DerivedBits(tour, storage, key, n - 1, b);
      if IsObject(tour, storage, n - 1) {
        var data := Original(tour, storage, n - 1).value;
        MixBits(data, b);
        XorByteBits(DerivedKey(tour, storage, key, n - 1), Mix(data), b);
        ParityGrows(Bit(key, b) + ObjectBits(tour, storage, n - 1, b),
                    Bit(data[|data| / 2], b) + Bit(data[|data| / 3], b) + Bit(data[|data| / 4], b));
      }
    }
  }

  lemma ParityGrows(sum: nat, more: nat)
    ensures (sum % 2 + more % 2) % 2 == (sum + more) % 2
  {
  }

  predicate IsObject(tour: Tour, storage: Storage, k: nat)
    requires k < tour.NodeCount()
  {
    IsFile(tour, k) && Original(tour, storage, k).Some? && Original(tour, storage, k).value != []
  }

  lemma DerivedMoves(tour: Tour, storage: Storage, key: u8, n: nat, b: nat)
    requires n <= tour.NodeCount()
    ensures n == 0 ==> DerivedKey(tour, storage, key, n) == key && ObjectBits(tour, storage, n, b) == 0
    ensures n > 0 && !IsObject(tour, storage, n - 1) ==>
              && DerivedKey(tour, storage, key, n) == DerivedKey(tour, storage, key, n - 1)
              && ObjectBits(tour, storage, n, b) == ObjectBits(tour, storage, n - 1, b)
    ensures n > 0 && IsObject(tour, storage, n - 1) ==>
              var data := Original(tour, storage, n - 1).value;
              && DerivedKey(tour, storage, key, n) == XorByte(DerivedKey(tour, storage, key, n - 1), Mix(data))
              && ObjectBits(tour, storage, n, b) ==
                 ObjectBits(tour, storage, n - 1, b) + Bit(data[|data| / 2], b) + Bit(data[|data| / 3], b) + Bit(data[|data| / 4], b)
  {
    hide XorByte, Mix, Bit, Original, Tour.Rows;
  }

  function FileKey(tour: Tour, storage: Storage, key: u8, k: nat, i: nat): u8
    requires IsFile(tour, k)
  {
    match Original(tour, storage, k)
    case None => DerivedKey(tour, storage, key, tour.NodeCount())
    case Some(data) => if data == [] then 0 else XorByte(key, data[i % |data|])
  }

  ghost function Owner(tour: Tour, p: nat): (owner: Option<nat>)
    ensures owner.Some? ==> InFile(tour, owner.value, p)
    ensures owner.None? ==> forall k :: !InFile(tour, k, p)
  {
    if exists k :: InFile(tour, k, p) then var k :| InFile(tour, k, p); Some(k) else None
  }

  /** The key byte `p` is under: metadata the starting key, a file its own, everything else none. */
  ghost function KeyAt(tour: Tour, storage: Storage, size: u32, metaSize: nat, p: nat): u8 {
    var key := DeriveStartingKey(size);
    if tour.start <= p < tour.start + metaSize then key
    else
      match Owner(tour, p)
      case None => 0
      case Some(k) => FileKey(tour, storage, key, k, p - tour.Rows()[k].first)
  }

  /** Every byte under its key, behind a magic number. */
  ghost function Ciphered(data: seq<u8>, magic: u32, tour: Tour, storage: Storage, metaSize: nat): (r: seq<u8>)
    requires HEADER <= |data| < U32_MODULUS
    ensures |r| == |data|
  {
    BigEndianBytes(magic) +
    seq(|data| - 4, p requires 0 <= p < |data| - 4 => XorByte(data[p + 4], KeyAt(tour, storage, |data|, metaSize, p + 4)))
  }

  /** Decoding what was encoded from `plain` gives `plain` back, behind the plain archive's magic number. */
  lemma DecodeUndoesEncode(plain: seq<u8>, tour: Tour, storage: Storage, metaSize: nat)
    requires HEADER <= |plain| < U32_MODULUS
    ensures var encoded := Ciphered(plain, WU8_MAGIC, tour, storage, metaSize);
            Ciphered(encoded, U8_MAGIC, tour, storage, metaSize) == BigEndianBytes(U8_MAGIC) + plain[4..]
  {
    hide Ciphered, KeyAt, Xor;
    var encoded := Ciphered(plain, WU8_MAGIC, tour, storage, metaSize);
    var decoded := Ciphered(encoded, U8_MAGIC, tour, storage, metaSize);
    CipheredParts(plain, WU8_MAGIC, tour, storage, metaSize);
    CipheredParts(encoded, U8_MAGIC, tour, storage, metaSize);
    forall p | 4 <= p < |plain|
      ensures decoded[p] == plain[p]
    {
      XorTwice(plain[p], KeyAt(tour, storage, |plain|, metaSize, p));
    }
    assert decoded == decoded[..4] + decoded[4..];
    assert decoded[4..] == plain[4..];
  }

  lemma CipheredParts(data: seq<u8>, magic: u32, tour: Tour, storage: Storage, metaSize: nat)
    requires HEADER <= |data| < U32_MODULUS
    ensures var r := Ciphered(data, magic, tour, storage, metaSize);
            && r[..4] == BigEndianBytes(magic)
            && forall p :: 4 <= p < |data| ==> r[p] == XorByte(data[p], KeyAt(tour, storage, |data|, metaSize, p))
  {
    hide KeyAt, XorByte, BigEndianBytes;
  }

  /** In a well-laid archive the key of a byte follows from the file it lies in. */
  lemma FileBytesUnderKey(tour: Tour, storage: Storage, size: u32, metaSize: nat, k: nat, p: nat)
    requires WellLaid(tour, storage, size, metaSize) && InFile(tour, k, p)
    ensures var key, original := DeriveStartingKey(size), Original(tour, storage, k);
            KeyAt(tour, storage, size, metaSize, p) ==
            if original.None? then DerivedKey(tour, storage, key, tour.NodeCount())
            else XorByte(key, original.value[(p - tour.Rows()[k].first) % |original.value|])
  {
    hide DerivedKey, DeriveStartingKey, XorByte;
    assert FileInPlace(tour, storage, size, metaSize, k);
    assert Owner(tour, p) == Some(k);
  }

  /** Metadata is under the starting key; what is neither metadata nor file data is under none. */
  lemma OtherBytesUnderKey(tour: Tour, storage: Storage, size: u32, metaSize: nat, p: nat)
    ensures tour.start <= p < tour.start + metaSize ==> KeyAt(tour, storage, size, metaSize, p) == DeriveStartingKey(size)
    ensures !(tour.start <= p < tour.start + metaSize)
            && (forall k :: |tour.roots| <= k < tour.NodeCount() && !tour.Rows()[k].isDir ==>
                  !(tour.Rows()[k].first <= p < tour.Rows()[k].first + tour.Rows()[k].last))
            ==> KeyAt(tour, storage, size, metaSize, p) == 0
  {
    hide DeriveStartingKey, FileKey, Tour.Rows;
  }

  /**
    A decoded byte, bit by bit: the magic number in front, then each byte of the archive XORed with what
    its place calls for.
   */
  lemma DecodedBits(encoded: seq<u8>, tour: Tour, storage: Storage, metaSize: nat, p: nat, b: nat, k: nat)
    requires WellLaid(tour, storage, |encoded|, metaSize) && 16 <= |encoded| < U32_MODULUS && 4 <= p < |encoded|
    ensures Ciphered(encoded, U8_MAGIC, tour, storage, metaSize)[..4] == [0x55, 0xaa, 0x38, 0x2d]
    ensures tour.start <= p < tour.start + metaSize ==>
              Bit(Ciphered(encoded, U8_MAGIC, tour, storage, metaSize)[p], b) ==
              (Bit(encoded[p], b) + Bit(DeriveStartingKey(|encoded|), b)) % 2
    ensures |tour.roots| <= k < tour.NodeCount() && !tour.Rows()[k].isDir
            && tour.Rows()[k].first <= p < tour.Rows()[k].first + tour.Rows()[k].last ==>
              var original := Original(tour, storage, k);
              && (original.Some? ==> original.value != [])
              && Bit(Ciphered(encoded, U8_MAGIC, tour, storage, metaSize)[p], b) ==
                 (Bit(encoded[p], b) + Bit(DeriveStartingKey(|encoded|), b)
                  + if original.Some? then Bit(original.value[(p - tour.Rows()[k].first) % |original.value|], b)
                    else ObjectBits(tour, storage, tour.NodeCount(), b)) % 2
  {
    hide Ciphered, KeyAt, XorByte, DeriveStartingKey, DerivedKey, WellLaid, ObjectBits, Bit, Tour.Rows, Original;
    CipheredParts(encoded, U8_MAGIC, tour, storage, metaSize);
    OtherBytesUnderKey(tour, storage, |encoded|, metaSize, p);
    var key := DeriveStartingKey(|encoded|);
    XorByteBits(encoded[p], KeyAt(tour, storage, |encoded|, metaSize, p), b);
    if InFile(tour, k, p) {
      OriginalNotEmpty(tour, storage, |encoded|, metaSize, k);
      FileBytesUnderKey(tour, storage, |encoded|, metaSize, k, p);
      DerivedBits(tour, storage, key, tour.NodeCount(), b);
      if Original(tour, storage, k).Some? {
        var data := Original(tour, storage, k).value;
        XorByteBits(key, data[(p - tour.Rows()[k].first) % |data|], b);
        SumOfParities(Bit(encoded[p], b), Bit(key, b) + Bit(data[(p - tour.Rows()[k].first) % |data|], b));
      } else {
        SumOfParities(Bit(encoded[p], b), Bit(key, b) + ObjectBits(tour, storage, tour.NodeCount(), b));
      }
    }
  }

  lemma BitRange(x: nat, b: nat)
    ensures 0 <= Bit(x, b) < 2
  {
  }

  lemma XorByteBits(x: u8, key: u8, b: nat)
    ensures Bit(XorByte(x, key), b) == (Bit(x, b) + Bit(key, b)) % 2
  {
    hide Bit, Xor;
    BitXor(x, key, b);
  }

  lemma SumOfParities(x: nat, y: nat)
    ensures (x + y % 2) % 2 == (x + y) % 2
  {
  }

  lemma OriginalNotEmpty(tour: Tour, storage: Storage, size: nat, metaSize: nat, k: nat)
    requires WellLaid(tour, storage, size, metaSize) && IsFile(tour, k)
    ensures Original(tour, storage, k).Some? ==> Original(tour, storage, k).value != []
  {
    hide Original, Tour.Rows;
    assert FileInPlace(tour, storage, size, metaSize, k);
  }

  // ----- The decoder

  /** Whether file `k` has been handled once pass 1 has read `n1` rows and pass 2 `n2`. */
  predicate Handled(tour: Tour, storage: Storage, k: nat, n1: nat, n2: nat)
    requires IsFile(tour, k)
  {
    if Original(tour, storage, k).Some? then k < n1 else k < n2
  }

  /** Byte `p` of the buffer at that point, from the encoded bytes. */
  ghost function Expect(encoded: seq<u8>, tour: Tour, storage: Storage, metaSize: nat, n1: nat, n2: nat, p: nat): u8
    requires p < |encoded| < U32_MODULUS
  {
    var key := DeriveStartingKey(|encoded|);
    if tour.start <= p < tour.start + metaSize then XorByte(encoded[p], key)
    else
      match Owner(tour, p)
      case None => encoded[p]
      case Some(k) =>
        if Handled(tour, storage, k, n1, n2)
        then XorByte(encoded[p], FileKey(tour, storage, key, k, p - tour.Rows()[k].first))
        else encoded[p]
  }

  ghost predicate Stage(buf: seq<u8>, encoded: seq<u8>, tour: Tour, storage: Storage, metaSize: nat, n1: nat, n2: nat): (stage: bool)
    ensures stage ==> |buf| == |encoded| < U32_MODULUS
  {
    && |buf| == |encoded| < U32_MODULUS
    && forall p :: 0 <= p < |buf| ==> buf[p] == Expect(encoded, tour, storage, metaSize, n1, n2, p)
  }

  ghost function MetaDecoded(encoded: seq<u8>, start: nat, metaSize: nat): (r: seq<u8>)
    requires |encoded| < U32_MODULUS
    ensures |r| == |encoded|
  {
    var key := DeriveStartingKey(|encoded|);
    seq(|encoded|, p requires 0 <= p < |encoded| => if start <= p < start + metaSize then XorByte(encoded[p], key) else encoded[p])
  }

  /** An encoded archive: its header is plain, and under the starting key its metadata is a well-laid table. */
  ghost predicate Encoded(encoded: seq<u8>, tour: Tour, storage: Storage, metaSize: nat) {
    && WellLaid(tour, storage, |encoded|, metaSize)
    && Word(encoded, 0x0) == WU8_MAGIC && Word(encoded, 0x4) == tour.start && Word(encoded, 0x8) == metaSize
    && tour.In(MetaDecoded(encoded, tour.start, metaSize))
  }

  /** The passes over file data leave the node table as the metadata pass decoded it. */
  lemma TableUndisturbed(
      buf: seq<u8>, encoded: seq<u8>, tour: Tour, storage: Storage, metaSize: nat, n1: nat, n2: nat)
    requires Encoded(encoded, tour, storage, metaSize) && Stage(buf, encoded, tour, storage, metaSize, n1, n2)
    ensures tour.In(buf)
  {
    hide DeriveStartingKey, Owner, Handled, FileKey, XorByte, Original;
    hide Tour.Rows;
    var decoded := MetaDecoded(encoded, tour.start, metaSize);
    forall p | tour.start <= p < tour.start + tour.NodeCount() * ROW
      ensures buf[p] == decoded[p]
    {
      assert buf[p] == Expect(encoded, tour, storage, metaSize, n1, n2, p);
    }
    TableCopied(buf, decoded, tour);
  }

  lemma TableCopied(buf: seq<u8>, decoded: seq<u8>, tour: Tour)
    requires tour.In(decoded) && |buf| == |decoded|
    requires forall p :: tour.start <= p < tour.start + tour.NodeCount() * ROW ==> buf[p] == decoded[p]
    ensures tour.In(buf)
  {
    hide Tour.Rows;
    forall i | 0 <= i < tour.NodeCount()
      ensures RowAt(buf, tour.start + i * ROW) == tour.Rows()[i]
    {
      var at := tour.start + i * ROW;
      assert RowAt(decoded, at) == tour.Rows()[i];
      assert buf[at..at + ROW] == decoded[at..at + ROW];
      SameRow(buf, decoded, at);
    }
  }

  lemma SameRow(a: seq<u8>, b: seq<u8>, at: nat)
    requires at + ROW <= |a| == |b| && a[at..at + ROW] == b[at..at + ROW]
    ensures RowAt(a, at) == RowAt(b, at)
  {
    var row := a[at..at + ROW];
    assert a[at] == row[0] == b[at];
    SliceOfSlice(a, at, at + ROW, 0, 4);
    SliceOfSlice(b, at, at + ROW, 0, 4);
    SliceOfSlice(a, at, at + ROW, 4, 8);
    SliceOfSlice(b, at, at + ROW, 4, 8);
    SliceOfSlice(a, at, at + ROW, 8, 12);
    SliceOfSlice(b, at, at + ROW, 8, 12);
  }

  /** `size` bytes from `from` on put under keys that repeat from the start when they run out. */
  function Under(data: seq<u8>, from: nat, size: nat, keys: seq<u8>): (r: seq<u8>)
    requires keys != []
    ensures |r| == |data|
  {
    seq(|data|, p requires 0 <= p < |data| =>
      if from <= p < from + size then XorByte(data[p], keys[(p - from) % |keys|]) else data[p])
  }

  /** An original's bytes, each under the starting key. */
  function ObjectKeys(key: u8, original: seq<u8>): (keys: seq<u8>)
    ensures |keys| == |original|
  {
    seq(|original|, i requires 0 <= i < |original| => XorByte(key, original[i]))
  }

  method XorRange(buf: array<u8>, from: nat, to: nat, key: u8)
    requires from <= to <= buf.Length
    modifies buf
    ensures buf[..] == Under(old(buf[..]), from, to - from, [key])
  {
    hide XorByte;
    var i := from;
    while i < to
      invariant from <= i <= to
      invariant forall p :: 0 <= p < buf.Length ==>
                  buf[p] == if from <= p < i then XorByte(old(buf[p]), key) else old(buf[p])
    {
      buf[i] := XorByte(buf[i], key);
      i := i + 1;
    }
    forall p | 0 <= p < buf.Length
      ensures buf[p] == Under(old(buf[..]), from, to - from, [key])[p]
    {
      if from <= p < to {
        DivModUnique(p - from, 1, p - from, 0);
      }
    }
  }

  /** The object-file loop of pass 1, which starts over in the original whenever it ends. */
  method XorOriginal(buf: array<u8>, from: nat, size: nat, key: u8, original: seq<u8>)
    requires from + size <= buf.Length && original != []
    modifies buf
    ensures buf[..] == Under(old(buf[..]), from, size, ObjectKeys(key, original))
  {
    hide XorByte;
    var archiveIndex, originalIndex := 0, 0;
    while archiveIndex != size
      invariant archiveIndex <= size && originalIndex <= |original|
      invariant archiveIndex % |original| == if originalIndex == |original| then 0 else originalIndex
      invariant buf[..] == Under(old(buf[..]), from, archiveIndex, ObjectKeys(key, original))
      decreases size - archiveIndex
    {
      if originalIndex == |original| {
        originalIndex := 0;
      }
      var archiveOffset := from + archiveIndex;
      ghost var before := buf[..];
      buf[archiveOffset] := XorByte(buf[archiveOffset], XorByte(key, original[originalIndex]));
      assert buf[..] == before[archiveOffset := buf[archiveOffset]];
      CyclicStep(archiveIndex, |original|);
      originalIndex := originalIndex + 1;
      archiveIndex := archiveIndex + 1;
    }
  }

  lemma CyclicStep(i: nat, n: nat)
    requires n > 0
    ensures (i + 1) % n == if i % n + 1 == n then 0 else i % n + 1
  {
    if i % n + 1 == n {
      DivModUnique(i + 1, n, i / n + 1, 0);
    } else {
      DivModUnique(i + 1, n, i / n, i % n + 1);
    }
  }

  /** Reading on over rows that the running pass leaves alone changes nothing. */
  lemma StageSkips(
      buf: seq<u8>, encoded: seq<u8>, tour: Tour, storage: Storage, metaSize: nat, n1: nat, n2: nat, n1': nat, n2': nat)
    requires Stage(buf, encoded, tour, storage, metaSize, n1, n2)
    requires forall k :: IsFile(tour, k) ==> Handled(tour, storage, k, n1, n2) == Handled(tour, storage, k, n1', n2')
    ensures Stage(buf, encoded, tour, storage, metaSize, n1', n2')
  {
    forall p | 0 <= p < |buf|
      ensures Expect(encoded, tour, storage, metaSize, n1, n2, p) == Expect(encoded, tour, storage, metaSize, n1', n2', p)
    {
    }
  }

  /** Between the two points file `k` is handled, and it alone. */
  ghost predicate Advances(tour: Tour, storage: Storage, n1: nat, n2: nat, n1': nat, n2': nat, k: nat) {
    && IsFile(tour, k) && !Handled(tour, storage, k, n1, n2)
    && forall j :: IsFile(tour, j) ==>
         Handled(tour, storage, j, n1', n2') == (Handled(tour, storage, j, n1, n2) || j == k)
  }

  ghost predicate KeysMatch(tour: Tour, storage: Storage, key: u8, k: nat, keys: seq<u8>)
    requires IsFile(tour, k)
  {
    keys != [] && forall i :: 0 <= i < tour.Rows()[k].last ==> FileKey(tour, storage, key, k, i) == keys[i % |keys|]
  }

  /** Putting file `k`'s bytes under its key, and only those, handles file `k`. */
  lemma StageHandles(
      buf: seq<u8>, buf': seq<u8>, encoded: seq<u8>, tour: Tour, storage: Storage, metaSize: nat,
      n1: nat, n2: nat, n1': nat, n2': nat, k: nat, keys: seq<u8>)
    requires WellLaid(tour, storage, |encoded|, metaSize) && Stage(buf, encoded, tour, storage, metaSize, n1, n2)
    requires Advances(tour, storage, n1, n2, n1', n2', k)
    requires KeysMatch(tour, storage, DeriveStartingKey(|encoded|), k, keys)
    requires buf' == Under(buf, tour.Rows()[k].first, tour.Rows()[k].last, keys)
    ensures Stage(buf', encoded, tour, storage, metaSize, n1', n2')
  {
    var row := tour.Rows()[k];
    assert FileInPlace(tour, storage, |encoded|, metaSize, k);
    forall p | 0 <= p < |buf|
      ensures buf'[p] == Expect(encoded, tour, storage, metaSize, n1', n2', p)
    {
      assert buf[p] == Expect(encoded, tour, storage, metaSize, n1, n2, p);
      if row.first <= p < row.first + row.last {
        assert InFile(tour, k, p);
        assert Owner(tour, p) == Some(k);
      } else {
        assert Owner(tour, p) != Some(k);
      }
    }
  }

  /** Rows before the tree hold no files. */
  lemma StageSkipsRoots(buf: seq<u8>, encoded: seq<u8>, tour: Tour, storage: Storage, metaSize: nat, n1: nat, n2: nat)
    requires Stage(buf, encoded, tour, storage, metaSize, n1, n2)
    requires tour.WellFormed() && n1 <= tour.NodeCount() && n2 <= tour.NodeCount()
    ensures Stage(buf, encoded, tour, storage, metaSize, tour.From(n1), n2)
    ensures Stage(buf, encoded, tour, storage, metaSize, n1, tour.From(n2))
  {
    hide Tour.From;
    tour.FromIs(n1);
    tour.FromIs(n2);
    StageSkips(buf, encoded, tour, storage, metaSize, n1, n2, tour.From(n1), n2);
    StageSkips(buf, encoded, tour, storage, metaSize, n1, n2, n1, tour.From(n2));
  }

  /** Pass 1 leaves row `k` alone unless it is an object file, pass 2 unless it is another file. */
  lemma StageSkipsRow(buf: seq<u8>, encoded: seq<u8>, tour: Tour, storage: Storage, metaSize: nat, n1: nat, n2: nat)
    requires Stage(buf, encoded, tour, storage, metaSize, n1, n2)
    ensures !(IsFile(tour, n1) && Original(tour, storage, n1).Some?) ==>
              Stage(buf, encoded, tour, storage, metaSize, n1 + 1, n2)
    ensures !(IsFile(tour, n2) && Original(tour, storage, n2).None?) ==>
              Stage(buf, encoded, tour, storage, metaSize, n1, n2 + 1)
  {
    if !(IsFile(tour, n1) && Original(tour, storage, n1).Some?) {
      StageSkips(buf, encoded, tour, storage, metaSize, n1, n2, n1 + 1, n2);
    }
    if !(IsFile(tour, n2) && Original(tour, storage, n2).None?) {
      StageSkips(buf, encoded, tour, storage, metaSize, n1, n2, n1, n2 + 1);
    }
  }

  lemma StageHandlesObject(
      buf: seq<u8>, encoded: seq<u8>, tour: Tour, storage: Storage, metaSize: nat, n1: nat, n2: nat, original: seq<u8>)
    requires Encoded(encoded, tour, storage, metaSize) && Stage(buf, encoded, tour, storage, metaSize, n1, n2)
    requires IsFile(tour, n1) && Original(tour, storage, n1) == Some(original) && original != []
    ensures var keys := ObjectKeys(DeriveStartingKey(|encoded|), original);
            Stage(Under(buf, tour.Rows()[n1].first, tour.Rows()[n1].last, keys), encoded, tour, storage, metaSize, n1 + 1, n2)
  {
    var keys := ObjectKeys(DeriveStartingKey(|encoded|), original);
    var buf' := Under(buf, tour.Rows()[n1].first, tour.Rows()[n1].last, keys);
    assert KeysMatch(tour, storage, DeriveStartingKey(|encoded|), n1, keys);
    assert Advances(tour, storage, n1, n2, n1 + 1, n2, n1);
    hide KeysMatch, Advances, Stage, Under, ObjectKeys, FileKey, Original;
    StageHandles(buf, buf', encoded, tour, storage, metaSize, n1, n2, n1 + 1, n2, n1, keys);
  }

  lemma EncodedIsLaid(encoded: seq<u8>, tour: Tour, storage: Storage, metaSize: nat)
    requires Encoded(encoded, tour, storage, metaSize)
    ensures WellLaid(tour, storage, |encoded|, metaSize)
  {
  }

  lemma AdvancesOther(tour: Tour, storage: Storage, n1: nat, n2: nat)
    requires IsFile(tour, n2) && Original(tour, storage, n2) == None
    ensures Advances(tour, storage, n1, n2, n1, n2 + 1, n2)
  {
  }

  lemma StageHandlesOther(
      buf: seq<u8>, encoded: seq<u8>, tour: Tour, storage: Storage, metaSize: nat, n1: nat, n2: nat, derivedKey: u8)
    requires Encoded(encoded, tour, storage, metaSize) && Stage(buf, encoded, tour, storage, metaSize, n1, n2)
    requires IsFile(tour, n2) && Original(tour, storage, n2) == None
    requires derivedKey == DerivedKey(tour, storage, DeriveStartingKey(|encoded|), tour.NodeCount())
    ensures Stage(Under(buf, tour.Rows()[n2].first, tour.Rows()[n2].last, [derivedKey]), encoded, tour, storage, metaSize, n1, n2 + 1)
  {
    hide Stage, Under, DerivedKey, KeysMatch, FileKey, Advances, Handled, Original, DeriveStartingKey, Encoded, WellLaid;
    EncodedIsLaid(encoded, tour, storage, metaSize);
    var buf' := Under(buf, tour.Rows()[n2].first, tour.Rows()[n2].last, [derivedKey]);
    OtherKey(tour, storage, DeriveStartingKey(|encoded|), n2, derivedKey);
    AdvancesOther(tour, storage, n1, n2);
    StageHandles(buf, buf', encoded, tour, storage, metaSize, n1, n2, n1, n2 + 1, n2, [derivedKey]);
  }

  /** A file that is no object file is under the second key throughout. */
  lemma OtherKey(tour: Tour, storage: Storage, key: u8, k: nat, derivedKey: u8)
    requires IsFile(tour, k) && Original(tour, storage, k) == None
    requires derivedKey == DerivedKey(tour, storage, key, tour.NodeCount())
    ensures KeysMatch(tour, storage, key, k, [derivedKey])
  {
    hide DerivedKey;
    forall i | 0 <= i < tour.Rows()[k].last
      ensures FileKey(tour, storage, key, k, i) == [derivedKey][i % |[derivedKey]|]
    {
      DivModUnique(i, 1, i, 0);
    }
  }

  /** The second key after one more row. */
  lemma DerivedStep(tour: Tour, storage: Storage, key: u8, n: nat)
    requires n <= tour.NodeCount() && tour.WellFormed()
    ensures DerivedKey(tour, storage, key, tour.From(n)) == DerivedKey(tour, storage, key, n)
    ensures |tour.roots| <= n < tour.NodeCount() && !(IsFile(tour, n) && Original(tour, storage, n).Some?) ==>
              DerivedKey(tour, storage, key, n + 1) == DerivedKey(tour, storage, key, n)
    ensures IsFile(tour, n) && Original(tour, storage, n).Some? && Original(tour, storage, n).value != [] ==>
              var before, data := DerivedKey(tour, storage, key, n), Original(tour, storage, n).value;
              DerivedKey(tour, storage, key, n + 1) == XorByte(before, Mix(data))
  {
    hide Tour.From, Mix, XorByte;
    tour.FromIs(n);
  }

  /** What a yielded item says about the row it comes from. */
  lemma YieldMeans(tour: Tour, storage: Storage, k: nat, item: Item)
    requires |tour.roots| <= k < tour.NodeCount() && item == tour.Yield(k, storage)
    ensures item.DirItem? <==> !IsFile(tour, k)
    ensures item.DirItem? || item.FileItem?
    ensures item.FileItem? ==> item.node == tour.Rows()[k] && item.hasData == Original(tour, storage, k).Some?
    ensures item.FileItem? && item.hasData ==>
              forall data :: tour.DataAfter(k, storage, data) == Original(tour, storage, k).value
  {
  }

  /** What the passes need about a file they are about to decode. */
  lemma FileFacts(encoded: seq<u8>, tour: Tour, storage: Storage, metaSize: nat, k: nat)
    requires Encoded(encoded, tour, storage, metaSize) && IsFile(tour, k)
    ensures tour.Rows()[k].first + tour.Rows()[k].last <= |encoded|
    ensures Original(tour, storage, k).Some? ==> Original(tour, storage, k).value != []
  {
    assert FileInPlace(tour, storage, |encoded|, metaSize, k);
  }

  method DecodeObject(
      buf: array<u8>, node: Entry, startingKey: u8, original: seq<u8>,
      ghost encoded: seq<u8>, ghost tour: Tour, ghost storage: Storage, ghost metaSize: nat, ghost k: nat)
    requires Encoded(encoded, tour, storage, metaSize) && startingKey == DeriveStartingKey(|encoded|)
    requires IsFile(tour, k) && node == tour.Rows()[k]
    requires Original(tour, storage, k) == Some(original) && original != []
    requires Stage(buf[..], encoded, tour, storage, metaSize, k, 0)
    modifies buf
    ensures Stage(buf[..], encoded, tour, storage, metaSize, k + 1, 0) && tour.In(buf[..])
  {
    hide Stage, XorByte, Original, Under, ObjectKeys, DeriveStartingKey, Encoded;
    hide Tour.Rows, Tour.In;
    ghost var before := buf[..];
    FileFacts(encoded, tour, storage, metaSize, k);
    XorOriginal(buf, node.first, node.last, startingKey, original);
    StageHandlesObject(before, encoded, tour, storage, metaSize, k, 0, original);
    TableUndisturbed(buf[..], encoded, tour, storage, metaSize, k + 1, 0);
  }

  method DecodeOther(
      buf: array<u8>, node: Entry, derivedKey: u8,
      ghost encoded: seq<u8>, ghost tour: Tour, ghost storage: Storage, ghost metaSize: nat, ghost k: nat)
    requires Encoded(encoded, tour, storage, metaSize)
    requires derivedKey == DerivedKey(tour, storage, DeriveStartingKey(|encoded|), tour.NodeCount())
    requires IsFile(tour, k) && node == tour.Rows()[k] && Original(tour, storage, k) == None
    requires Stage(buf[..], encoded, tour, storage, metaSize, tour.NodeCount(), k)
    modifies buf
    ensures Stage(buf[..], encoded, tour, storage, metaSize, tour.NodeCount(), k + 1) && tour.In(buf[..])
  {
    hide Stage, XorByte, Original, Under, DeriveStartingKey, DerivedKey, Encoded;
    hide Tour.Rows, Tour.In;
    ghost var before := buf[..];
    FileFacts(encoded, tour, storage, metaSize, k);
    XorRange(buf, node.first, node.first + node.last, derivedKey);
    StageHandlesOther(before, encoded, tour, storage, metaSize, tour.NodeCount(), k, derivedKey);
    TableUndisturbed(buf[..], encoded, tour, storage, metaSize, tour.NodeCount(), k + 1);
  }

  /** Pass 1: object files are decoded and their originals folded into the second key. */
  method ObjectPass(
      buf: array<u8>, walk: U8Iterator, startingKey: u8,
      ghost encoded: seq<u8>, ghost tour: Tour, ghost metaSize: nat)
    returns (derivedKey: u8)
    requires Encoded(encoded, tour, walk.storage, metaSize) && startingKey == DeriveStartingKey(|encoded|)
    requires walk.cursor.buffer == buf && walk.On(tour) && walk.iteration == 0
    requires Stage(buf[..], encoded, tour, walk.storage, metaSize, 0, 0)
    modifies buf, walk, walk.dirStack, walk.dirStack.vals, walk.cursor
    ensures walk.On(tour)
    ensures derivedKey == DerivedKey(tour, walk.storage, startingKey, tour.NodeCount())
    ensures Stage(buf[..], encoded, tour, walk.storage, metaSize, tour.NodeCount(), 0)
  {
    hide DerivedKey, Stage, Mix, Encoded, WellLaid, DeriveStartingKey, XorByte, IsFile, Original;
    hide Tour.Yield, Tour.DataAfter, Tour.Rows, Tour.StackAt, Tour.Around, Tour.WellFormed, Tour.In, Tour.From;
    ghost var storage := walk.storage;
    derivedKey := startingKey;
    EncodedFacts(encoded, tour, storage, metaSize);
    DerivedStart(tour, storage, startingKey);
    while true
      invariant walk.On(tour) && |encoded| == buf.Length
      invariant derivedKey == DerivedKey(tour, storage, startingKey, walk.iteration)
      invariant Stage(buf[..], encoded, tour, storage, metaSize, walk.iteration, 0)
      decreases tour.NodeCount() - walk.iteration
    {
      StageSkipsRoots(buf[..], encoded, tour, storage, metaSize, walk.iteration, 0);
      DerivedStep(tour, storage, startingKey, walk.iteration);
      tour.FromIs(walk.iteration);
      ghost var k := tour.From(walk.iteration);
      var item := walk.Next(false, tour);
      if item == None {
        break;
      }
      YieldMeans(tour, storage, k, item.value);
      StageSkipsRow(buf[..], encoded, tour, storage, metaSize, k, 0);
      DerivedStep(tour, storage, startingKey, k);
      if item.value.FileItem? && item.value.hasData {
        var node := item.value.node;
        var original := walk.fileOut;
        FileFacts(encoded, tour, storage, metaSize, k);
        derivedKey := XorByte(derivedKey, Mix(original));
        DecodeObject(buf, node, startingKey, original, encoded, tour, storage, metaSize, k);
      }
    }
  }

  lemma DerivedStart(tour: Tour, storage: Storage, key: u8)
    ensures DerivedKey(tour, storage, key, 0) == key
  {
  }

  /** Pass 2: the other files are decoded with the second key. */
  method OtherPass(
      buf: array<u8>, walk: U8Iterator, derivedKey: u8,
      ghost encoded: seq<u8>, ghost tour: Tour, ghost metaSize: nat)
    requires Encoded(encoded, tour, walk.storage, metaSize)
    requires derivedKey == DerivedKey(tour, walk.storage, DeriveStartingKey(|encoded|), tour.NodeCount())
    requires walk.cursor.buffer == buf && walk.On(tour) && walk.iteration == 0
    requires Stage(buf[..], encoded, tour, walk.storage, metaSize, tour.NodeCount(), 0)
    modifies buf, walk, walk.dirStack, walk.dirStack.vals, walk.cursor
    ensures Stage(buf[..], encoded, tour, walk.storage, metaSize, tour.NodeCount(), tour.NodeCount())
  {
    hide DerivedKey, Stage, Mix, Encoded, WellLaid, DeriveStartingKey, XorByte, IsFile, Original;
    hide Tour.Yield, Tour.DataAfter, Tour.Rows, Tour.StackAt, Tour.Around, Tour.WellFormed, Tour.In, Tour.From;
    ghost var storage, all := walk.storage, tour.NodeCount();
    EncodedFacts(encoded, tour, storage, metaSize);
    while true
      invariant walk.On(tour) && |encoded| == buf.Length
      invariant Stage(buf[..], encoded, tour, storage, metaSize, all, walk.iteration)
      decreases all - walk.iteration
    {
      StageSkipsRoots(buf[..], encoded, tour, storage, metaSize, all, walk.iteration);
      tour.FromIs(walk.iteration);
      ghost var k := tour.From(walk.iteration);
      var item := walk.Next(true, tour);
      if item == None {
        break;
      }
      YieldMeans(tour, storage, k, item.value);
      StageSkipsRow(buf[..], encoded, tour, storage, metaSize, all, k);
      if item.value.FileItem? && !item.value.hasData {
        var node := item.value.node;
        DecodeOther(buf, node, derivedKey, encoded, tour, storage, metaSize, k);
      }
    }
  }

  /** The first pass puts the metadata under the starting key and touches nothing else. */
  lemma MetaStage(encoded: seq<u8>, tour: Tour, storage: Storage, metaSize: nat)
    requires Encoded(encoded, tour, storage, metaSize)
    ensures Under(encoded, tour.start, metaSize, [DeriveStartingKey(|encoded|)]) == MetaDecoded(encoded, tour.start, metaSize)
    ensures Stage(MetaDecoded(encoded, tour.start, metaSize), encoded, tour, storage, metaSize, 0, 0)
  {
    hide DeriveStartingKey, XorByte;
    var key := DeriveStartingKey(|encoded|);
    var under, decoded := Under(encoded, tour.start, metaSize, [key]), MetaDecoded(encoded, tour.start, metaSize);
    forall p | 0 <= p < |encoded|
      ensures under[p] == decoded[p]
    {
      if tour.start <= p < tour.start + metaSize {
        DivModUnique(p - tour.start, 1, p - tour.start, 0);
      }
    }
    assert under == decoded;
    forall p | 0 <= p < |encoded|
      ensures MetaDecoded(encoded, tour.start, metaSize)[p] == Expect(encoded, tour, storage, metaSize, 0, 0, p)
    {
    }
  }

  /** When both passes are through, every byte is under its key. */
  lemma FinalStage(buf: seq<u8>, encoded: seq<u8>, tour: Tour, storage: Storage, metaSize: nat)
    requires Encoded(encoded, tour, storage, metaSize)
    requires Stage(buf, encoded, tour, storage, metaSize, tour.NodeCount(), tour.NodeCount())
    ensures BigEndianBytes(U8_MAGIC) + buf[4..] == Ciphered(encoded, U8_MAGIC, tour, storage, metaSize)
  {
    hide Ciphered, DeriveStartingKey, FileKey;
    CipheredParts(encoded, U8_MAGIC, tour, storage, metaSize);
    var decoded := Ciphered(encoded, U8_MAGIC, tour, storage, metaSize);
    forall p | 4 <= p < |encoded|
      ensures buf[p] == decoded[p]
    {
      XorZero(encoded[p]);
    }
    assert buf[4..] == decoded[4..];
    assert decoded == decoded[..4] + decoded[4..];
  }

  /**
    `DecodeWU8`: whatever well-laid archive was encoded, the buffer ends up with every byte taken from
    under its key, although its node table is read while the file data around it changes.
   */
  method DecodeWU8(buf: array<u8>, storage: Storage, ghost tour: Tour, ghost metaSize: nat)
    requires HEADER <= buf.Length < U32_MODULUS && Encoded(buf[..], tour, storage, metaSize)
    modifies buf
    ensures buf[..] == Ciphered(old(buf[..]), U8_MAGIC, tour, storage, metaSize)
  {
    hide Encoded, Stage, Ciphered, DeriveStartingKey, DerivedKey, Under, MetaDecoded, WellLaid, Tour.In, Tour.WellFormed, Tour.Rows;
    ghost var encoded := buf[..];
    var cursor := new U8Cursor(buf);
    var startingKey, nodeOffset := MetaPass(buf, cursor, storage, tour, metaSize);
    cursor.SetPosition(nodeOffset);
    var rootNode := cursor.ReadNode();
    cursor.SetPosition(nodeOffset);
    EncodedFacts(encoded, tour, storage, metaSize);
    RootRow(buf[..], tour);
    var walk := new U8Iterator(cursor, rootNode.value.last, storage);
    var derivedKey := ObjectPass(buf, walk, startingKey, encoded, tour, metaSize);
    walk.Reset(nodeOffset);
    OtherPass(buf, walk, derivedKey, encoded, tour, metaSize);
    FinalStage(buf[..], encoded, tour, storage, metaSize);
    WriteMagic(buf);
  }

  /** The header is read, and the metadata it announces put under the starting key. */
  method MetaPass(buf: array<u8>, cursor: U8Cursor, storage: Storage, ghost tour: Tour, ghost metaSize: nat)
    returns (startingKey: u8, nodeOffset: nat)
    requires HEADER <= buf.Length < U32_MODULUS && Encoded(buf[..], tour, storage, metaSize)
    requires cursor.buffer == buf && cursor.pos == 0
    modifies buf, cursor
    ensures startingKey == DeriveStartingKey(buf.Length) && nodeOffset == tour.start
    ensures Stage(buf[..], old(buf[..]), tour, storage, metaSize, 0, 0) && tour.In(buf[..])
  {
    hide Encoded, Stage, DeriveStartingKey, Under, MetaDecoded, Tour.In;
    ghost var encoded := buf[..];
    EncodedFacts(encoded, tour, storage, metaSize);
    var header := cursor.ReadU8Header();
    startingKey := DeriveStartingKey(buf.Length);
    nodeOffset := header.value.nodeOffset;
    XorRange(buf, nodeOffset, nodeOffset + header.value.metaSize, startingKey);
    MetaStage(encoded, tour, storage, metaSize);
    TableUndisturbed(buf[..], encoded, tour, storage, metaSize, 0, 0);
  }

  method WriteMagic(buf: array<u8>)
    requires buf.Length >= HEADER
    modifies buf
    ensures buf[..] == BigEndianBytes(U8_MAGIC) + old(buf[4..])
  {
    buf[0], buf[1], buf[2], buf[3] := 0x55, 0xaa, 0x38, 0x2d;
    assert BigEndianBytes(U8_MAGIC) == [0x55, 0xaa, 0x38, 0x2d];
    assert buf[..] == buf[..4] + buf[4..];
  }

  lemma EncodedFacts(encoded: seq<u8>, tour: Tour, storage: Storage, metaSize: nat)
    requires Encoded(encoded, tour, storage, metaSize)
    ensures HEADER < |encoded| && tour.WellFormed() && tour.NodeCount() > 0 && tour.Rows()[0].last == tour.NodeCount()
    ensures tour.start + metaSize <= |encoded| && tour.start + tour.NodeCount() * ROW < |encoded|
    ensures Word(encoded, 0x4) == tour.start && Word(encoded, 0x8) == metaSize
  {
  }

  lemma RootRow(buf: seq<u8>, tour: Tour)
    requires tour.In(buf) && tour.NodeCount() > 0
    ensures RowAt(buf, tour.start) == tour.Rows()[0]
  {
    assert RowAt(buf, tour.start + 0 * ROW) == tour.Rows()[0];
  }

  // ----- The round trip

  /** A plain archive: its table is in place, and its file data well laid out. */
  ghost predicate Plain(plain: seq<u8>, tour: Tour, storage: Storage, metaSize: nat) {
    && WellLaid(tour, storage, |plain|, metaSize)
    && Word(plain, 0x4) == tour.start && Word(plain, 0x8) == metaSize
    && tour.In(plain)
  }

  /** Only metadata and file data are under a key: the header is not. */
  lemma HeaderClear(tour: Tour, storage: Storage, size: u32, metaSize: nat, p: nat)
    requires WellLaid(tour, storage, size, metaSize) && p < HEADER
    ensures KeyAt(tour, storage, size, metaSize, p) == 0
  {
    hide DeriveStartingKey, Tour.Rows, Tour.WellFormed;
    assert forall k :: IsFile(tour, k) && FileInPlace(tour, storage, size, metaSize, k) ==> !InFile(tour, k, p);
  }

  /** Every plain archive, put under its keys, is an encoded archive as the decoder needs it. */
  lemma EncoderEncodes(plain: seq<u8>, tour: Tour, storage: Storage, metaSize: nat)
    requires Plain(plain, tour, storage, metaSize)
    ensures Encoded(Ciphered(plain, WU8_MAGIC, tour, storage, metaSize), tour, storage, metaSize)
  {
    hide Ciphered, WellLaid, Tour.In, Tour.WellFormed, Tour.Rows;
    PlainBounds(plain, tour, storage, metaSize);
    var encoded := Ciphered(plain, WU8_MAGIC, tour, storage, metaSize);
    CipheredParts(plain, WU8_MAGIC, tour, storage, metaSize);
    EncodedHeader(plain, tour, storage, metaSize);
    MetaUncovered(plain, tour, storage, metaSize);
    TableCopied(MetaDecoded(encoded, tour.start, metaSize), plain, tour);
  }

  lemma PlainBounds(plain: seq<u8>, tour: Tour, storage: Storage, metaSize: nat)
    requires Plain(plain, tour, storage, metaSize)
    ensures HEADER <= tour.start && tour.start + tour.NodeCount() * ROW < |plain| < U32_MODULUS
    ensures tour.start + metaSize <= |plain| && tour.NodeCount() * ROW <= metaSize
  {
  }

  lemma EncodedHeader(plain: seq<u8>, tour: Tour, storage: Storage, metaSize: nat)
    requires Plain(plain, tour, storage, metaSize) && HEADER <= |plain| < U32_MODULUS
    ensures var encoded := Ciphered(plain, WU8_MAGIC, tour, storage, metaSize);
            Word(encoded, 0x0) == WU8_MAGIC && Word(encoded, 0x4) == Word(plain, 0x4) && Word(encoded, 0x8) == Word(plain, 0x8)
  {
    hide Ciphered, WellLaid, KeyAt, Xor, BigEndianBytes, BigEndian, Tour.In;
    var encoded := Ciphered(plain, WU8_MAGIC, tour, storage, metaSize);
    CipheredParts(plain, WU8_MAGIC, tour, storage, metaSize);
    forall p | 4 <= p < HEADER ensures encoded[p] == plain[p] {
      HeaderClear(tour, storage, |plain|, metaSize, p);
      XorZero(plain[p]);
    }
    assert encoded[0x0..0x4] == encoded[..4];
    assert encoded[0x4..0x8] == plain[0x4..0x8];
    assert encoded[0x8..0xc] == plain[0x8..0xc];
  }

  lemma MetaUncovered(plain: seq<u8>, tour: Tour, storage: Storage, metaSize: nat)
    requires HEADER <= tour.start && tour.start + metaSize <= |plain| < U32_MODULUS && HEADER <= |plain|
    ensures var decoded := MetaDecoded(Ciphered(plain, WU8_MAGIC, tour, storage, metaSize), tour.start, metaSize);
            forall p :: tour.start <= p < tour.start + metaSize ==> decoded[p] == plain[p]
  {
    hide Ciphered, DeriveStartingKey, Xor;
    var encoded := Ciphered(plain, WU8_MAGIC, tour, storage, metaSize);
    CipheredParts(plain, WU8_MAGIC, tour, storage, metaSize);
    forall p | tour.start <= p < tour.start + metaSize
      ensures MetaDecoded(encoded, tour.start, metaSize)[p] == plain[p]
    {
      XorTwice(plain[p], DeriveStartingKey(|plain|));
    }
  }

  /** A directory with one file that storage does not have is well laid out. */
  lemma SmallArchive()
    ensures var tour := Tour(0x10, [Entry(true, 0, 0, 2)], File(2, 0x29, 1, Empty), 0);
            WellLaid(tour, _ => None, 0x2a, 0x19)
  {
    var tour := Tour(0x10, [Entry(true, 0, 0, 2)], File(2, 0x29, 1, Empty), 0);
    assert Flatten(tour.tree, 1, 0) == [Entry(false, 2, 0x29, 1)];
    assert tour.Rows() == [Entry(true, 0, 0, 2), Entry(false, 2, 0x29, 1)];
  }

  /** Encoding any plain archive and decoding it in place gives it back behind the plain magic number. */
  method RoundTrip(buf: array<u8>, storage: Storage, ghost plain: seq<u8>, ghost tour: Tour, ghost metaSize: nat)
    requires Plain(plain, tour, storage, metaSize) && HEADER <= |plain| < U32_MODULUS
    requires buf[..] == Ciphered(plain, WU8_MAGIC, tour, storage, metaSize)
    modifies buf
    ensures buf[..] == BigEndianBytes(U8_MAGIC) + plain[4..]
  {
    EncoderEncodes(plain, tour, storage, metaSize);
    DecodeUndoesEncode(plain, tour, storage, metaSize);
    DecodeWU8(buf, storage, tour, metaSize);
  }
}
