/** stub/Archive.{hh,cc}: reading a U8 archive in memory and looking entries up by number and by path. */
module ArchiveModule {
  import opened Bytes
  import opened Wrappers
  import opened NodeTable

  const SEPARATOR: u8 := 0x2f
  const MAGIC: u32 := 0x55AA382D

  /** Beyond this size the header itself could be read past the end of the data. */
  const MAX_SIZE: nat := U32_MODULUS - ROW - 1

  function Add32(a: nat, b: nat): u32 {
    (a + b) % U32_MODULUS
  }

  lemma Add32Small(a: nat, b: nat)
    requires a + b < U32_MODULUS
    ensures Add32(a, b) == a + b
  {
  }

  /** The C string at `offset`, if its terminator is there. */
  function CString(data: seq<u8>, offset: nat): (s: Option<seq<u8>>)
    ensures s.Some? ==> 0 !in s.value && offset + |s.value| < |data|
    decreases |data| - offset
  {
    if offset >= |data| then None
    else if data[offset] == 0 then Some([])
    else
      match CString(data, offset + 1)
      case None => None
      case Some(rest) => Some([data[offset]] + rest)
  }

  /** That is: the bytes from `offset` up to the first zero byte. */
  lemma {:induction false} CStringIs(data: seq<u8>, offset: nat, s: seq<u8>)
    ensures CString(data, offset) == Some(s) <==>
            && offset + |s| < |data| && data[offset..offset + |s|] == s && data[offset + |s|] == 0
            && forall i :: 0 <= i < |s| ==> s[i] != 0
    ensures CString(data, offset) == None <==> forall z :: offset <= z < |data| ==> data[z] != 0
    decreases |data| - offset
  {
    if offset < |data| && data[offset] != 0 {
      var rest := if s == [] then [] else s[1..];
      CStringIs(data, offset + 1, rest);
      if s != [] && offset + |s| < |data| {
        assert data[offset..offset + |s|] == [data[offset]] + data[offset + 1..offset + |s|];
      }
    }
  }

  datatype Item =
    | Missing
    | FileItem(entrynum: nat, name: seq<u8>, dataOffset: nat, size: nat)
    | DirItem(entrynum: nat, name: seq<u8>, parent: nat, next: nat)

  // ----- Looking a path up in the tree itself

  /** The first path segment: everything before the first '/'. */
  function Segment(path: seq<u8>): (segment: seq<u8>)
    ensures segment <= path
    ensures forall i :: 0 <= i < |segment| ==> segment[i] != 0x2f
    ensures segment == path || path[|segment|] == 0x2f
  {
    if path == [] || path[0] == SEPARATOR then [] else [path[0]] + Segment(path[1..])
  }

  /** What is left of the path after its first segment and the '/' behind it. */
  function AfterSegment(path: seq<u8>): (rest: seq<u8>)
    ensures path != [] ==> |rest| < |path|
  {
    var n := |Segment(path)|;
    if n == |path| then [] else path[n + 1..]
  }

  /** The first of these siblings whose name begins with `segment`: its index and the siblings from it on. */
  function FindChild(names: nat -> seq<u8>, f: Forest, base: nat, segment: seq<u8>): (r: Option<(nat, Forest)>)
    ensures r.Some? ==> r.value.1 != Empty
    decreases f
  {
    if f == Empty then None
    else if segment <= names(f.nameOffset) then Some((base, f))
    else FindChild(names, f.rest, Past(f, base), segment)
  }

  /** Walking down from the node that starts `f`, at index `base`: the index `path` leads to. */
  function Walk(names: nat -> seq<u8>, f: Forest, base: nat, path: seq<u8>): (index: Option<nat>)
    requires f != Empty
    decreases |path|
  {
    if path == [] then Some(base)
    else if f.File? then None
    else
      match FindChild(names, f.children, base + 1, Segment(path))
      case None => None
      case Some((index, node)) => Walk(names, node, index, AfterSegment(path))
  }

  lemma {:induction false} SegmentJoined(name: seq<u8>, rest: seq<u8>)
    requires forall i :: 0 <= i < |name| ==> name[i] != 0x2f
    ensures Segment(name + [0x2f] + rest) == name && Segment(name) == name
  {
    if name != [] {
      SegmentJoined(name[1..], rest);
      assert (name + [0x2f] + rest)[1..] == name[1..] + [0x2f] + rest;
    }
  }

  /** A name, a '/' and more lead to the first child whose name begins so, and from there on; a name alone to that child. */
  lemma WalkJoined(names: nat -> seq<u8>, f: Forest, base: nat, name: seq<u8>, rest: seq<u8>)
    requires f.Dir? && forall i :: 0 <= i < |name| ==> name[i] != 0x2f
    ensures var child := FindChild(names, f.children, base + 1, name);
            && Walk(names, f, base, name + [0x2f] + rest) ==
               (if child == None then None else Walk(names, child.value.1, child.value.0, rest))
            && (name != [] ==> Walk(names, f, base, name) == if child == None then None else Some(child.value.0))
  {
    hide Segment, FindChild;
    SegmentJoined(name, rest);
    var path := name + [0x2f] + rest;
    assert path[|name| + 1..] == rest;
  }

  /** The `i`-th of these siblings, and those after it. */
  function Nth(f: Forest, i: nat): Forest {
    if i == 0 || f == Empty then f else Nth(f.rest, i - 1)
  }

  /** The child found is the first whose name begins with the segment; none is found when there is none. */
  lemma {:induction false} FindChildIsFirst(names: nat -> seq<u8>, f: Forest, base: nat, segment: seq<u8>) returns (i: nat)
    ensures i <= |TopLevel(f, base)|
    ensures forall j :: 0 <= j < i ==> Nth(f, j) != Empty && !(segment <= names(Nth(f, j).nameOffset))
    ensures FindChild(names, f, base, segment) == None <==> i == |TopLevel(f, base)|
    ensures i < |TopLevel(f, base)| ==>
              && FindChild(names, f, base, segment) == Some((TopLevel(f, base)[i], Nth(f, i)))
              && Nth(f, i) != Empty && segment <= names(Nth(f, i).nameOffset)
    decreases f
  {
    i := 0;
    if f != Empty && !(segment <= names(f.nameOffset)) {
      var k := FindChildIsFirst(names, f.rest, Past(f, base), segment);
      i := k + 1;
    }
  }

  /** "a/b" in a root with a directory "a" that holds a file "b". */
  lemma NestedPath(names: nat -> seq<u8>)
    requires names(1) == [0x61] && names(2) == [0x62]
    ensures var root := Dir(0, Dir(1, File(2, 0x40, 0x10, Empty), Empty), Empty);
            Walk(names, root, 0, [0x61, 0x2f, 0x62]) == Some(2)
  {
    var inner := Dir(1, File(2, 0x40, 0x10, Empty), Empty);
    WalkJoined(names, Dir(0, inner, Empty), 0, [0x61], [0x62]);
    WalkJoined(names, inner, 1, [0x62], []);
    assert [0x61] + [0x2f] + [0x62] == [0x61, 0x2f, 0x62];
  }

  // ----- Exact lookup, and when the prefix comparison amounts to it

  function FindExact(names: nat -> seq<u8>, f: Forest, base: nat, segment: seq<u8>): (r: Option<(nat, Forest)>)
    ensures r.Some? ==> r.value.1 != Empty
    decreases f
  {
    if f == Empty then None
    else if names(f.nameOffset) == segment then Some((base, f))
    else FindExact(names, f.rest, Past(f, base), segment)
  }

  function ExactWalk(names: nat -> seq<u8>, f: Forest, base: nat, path: seq<u8>): (index: Option<nat>)
    requires f != Empty
    decreases |path|
  {
    if path == [] then Some(base)
    else if f.File? then None
    else
      match FindExact(names, f.children, base + 1, Segment(path))
      case None => None
      case Some((index, node)) => ExactWalk(names, node, index, AfterSegment(path))
  }

  /** Some sibling merely extends `segment` and no sibling before it is named exactly that. */
  predicate Shadowed(names: nat -> seq<u8>, f: Forest, segment: seq<u8>)
    decreases f
  {
    f != Empty && names(f.nameOffset) != segment
    && (segment <= names(f.nameOffset) || Shadowed(names, f.rest, segment))
  }

  /** The prefix comparison finds the exactly named child unless an extension of the name comes first. */
  lemma {:induction false} FindChildIsExact(names: nat -> seq<u8>, f: Forest, base: nat, segment: seq<u8>)
    ensures FindChild(names, f, base, segment) == FindExact(names, f, base, segment) <==> !Shadowed(names, f, segment)
    decreases f
  {
    if f != Empty {
      FindChildIsExact(names, f.rest, Past(f, base), segment);
      FindExactBeyond(names, f.rest, Past(f, base), segment);
    }
  }

  lemma {:induction false} FindExactBeyond(names: nat -> seq<u8>, f: Forest, base: nat, segment: seq<u8>)
    ensures FindExact(names, f, base, segment).Some? ==> FindExact(names, f, base, segment).value.0 >= base
    decreases f
  {
    if f != Empty {
      FindExactBeyond(names, f.rest, Past(f, base), segment);
    }
  }

  /** No directory on the way shadows the segment looked up in it. */
  predicate Clear(names: nat -> seq<u8>, f: Forest, base: nat, path: seq<u8>)
    requires f != Empty
    decreases |path|
  {
    path == [] || f.File? ||
    (!Shadowed(names, f.children, Segment(path)) &&
     match FindExact(names, f.children, base + 1, Segment(path))
     case None => true
     case Some((index, node)) => Clear(names, node, index, AfterSegment(path)))
  }

  /** A found child lies, with all its descendants, inside the span of its siblings. */
  lemma {:induction false} FindChildSpan(names: nat -> seq<u8>, f: Forest, base: nat, segment: seq<u8>)
    ensures var r := FindChild(names, f, base, segment);
            r.Some? ==> base <= r.value.0 && Past(r.value.1, r.value.0) <= base + Count(f)
    decreases f
  {
    if f != Empty {
      FindChildSpan(names, f.rest, Past(f, base), segment);
    }
  }

  lemma {:induction false} FindExactSpan(names: nat -> seq<u8>, f: Forest, base: nat, segment: seq<u8>)
    ensures var r := FindExact(names, f, base, segment);
            r.Some? ==> base <= r.value.0 && Past(r.value.1, r.value.0) <= base + Count(f)
    decreases f
  {
    if f != Empty {
      FindExactSpan(names, f.rest, Past(f, base), segment);
    }
  }

  /** Under a shadow something is found, and it ends before an exactly named child begins. */
  lemma {:induction false} ShadowComesFirst(names: nat -> seq<u8>, f: Forest, base: nat, segment: seq<u8>)
    requires Shadowed(names, f, segment)
    ensures FindChild(names, f, base, segment).Some?
    ensures var found, exact := FindChild(names, f, base, segment).value, FindExact(names, f, base, segment);
            exact.Some? ==> Past(found.1, found.0) <= exact.value.0
    decreases f
  {
    FindExactSpan(names, f.rest, Past(f, base), segment);
    if !(segment <= names(f.nameOffset)) {
      ShadowComesFirst(names, f.rest, Past(f, base), segment);
    }
  }

  lemma {:induction false} WalkSpan(names: nat -> seq<u8>, f: Forest, base: nat, path: seq<u8>)
    requires f != Empty
    ensures var r := Walk(names, f, base, path); r.Some? ==> base <= r.value < Past(f, base)
    decreases |path|
  {
    hide Segment, FindChild;
    if path != [] && f.Dir? {
      FindChildSpan(names, f.children, base + 1, Segment(path));
      var found := FindChild(names, f.children, base + 1, Segment(path));
      if found.Some? {
        WalkSpan(names, found.value.1, found.value.0, AfterSegment(path));
      }
    }
  }

  lemma {:induction false} ExactWalkSpan(names: nat -> seq<u8>, f: Forest, base: nat, path: seq<u8>)
    requires f != Empty
    ensures var r := ExactWalk(names, f, base, path); r.Some? ==> base <= r.value < Past(f, base)
    decreases |path|
  {
    hide Segment, FindExact;
    if path != [] && f.Dir? {
      FindExactSpan(names, f.children, base + 1, Segment(path));
      var found := FindExact(names, f.children, base + 1, Segment(path));
      if found.Some? {
        ExactWalkSpan(names, found.value.1, found.value.0, AfterSegment(path));
      }
    }
  }

  predicate BothFail(names: nat -> seq<u8>, f: Forest, base: nat, path: seq<u8>)
    requires f != Empty
  {
    Walk(names, f, base, path) == None && ExactWalk(names, f, base, path) == None
  }

  /** A shadowed first segment sends the two lookups into different parts of the table. */
  lemma ShadowSeparates(names: nat -> seq<u8>, f: Forest, base: nat, path: seq<u8>)
    requires f.Dir? && path != [] && Shadowed(names, f.children, Segment(path))
    ensures Walk(names, f, base, path) != ExactWalk(names, f, base, path) || BothFail(names, f, base, path)
  {
    hide Segment, FindChild, FindExact, Shadowed;
    var found := FindChild(names, f.children, base + 1, Segment(path));
    var exact := FindExact(names, f.children, base + 1, Segment(path));
    ShadowComesFirst(names, f.children, base + 1, Segment(path));
    WalkSpan(names, found.value.1, found.value.0, AfterSegment(path));
    if exact.Some? {
      ExactWalkSpan(names, exact.value.1, exact.value.0, AfterSegment(path));
    }
  }

  /** Lookup by prefixes is exact lookup if and only if no segment is shadowed on the way, or both fail. */
  lemma {:induction false} WalkIsExact(names: nat -> seq<u8>, f: Forest, base: nat, path: seq<u8>)
    requires f != Empty
    ensures Walk(names, f, base, path) == ExactWalk(names, f, base, path) <==>
            Clear(names, f, base, path) || BothFail(names, f, base, path)
    decreases |path|
  {
    hide Segment, FindChild, FindExact, Shadowed;
    if path != [] && f.Dir? {
      FindChildIsExact(names, f.children, base + 1, Segment(path));
      var found := FindExact(names, f.children, base + 1, Segment(path));
      if Shadowed(names, f.children, Segment(path)) {
        ShadowSeparates(names, f, base, path);
      } else if found.Some? {
        WalkIsExact(names, found.value.1, found.value.0, AfterSegment(path));
      }
    }
  }

  /** "foo" finds "foobar" when that comes first. */
  lemma ExtensionShadows()
    ensures var names := (offset: nat) => if offset == 1 then FOOBAR else FOO;
            var root := Dir(0, File(1, 0x40, 0x10, File(8, 0x60, 0x10, Empty)), Empty);
            Walk(names, root, 0, FOO) == Some(1) && ExactWalk(names, root, 0, FOO) == Some(2)
  {
    assert FOO[1..] == [0x6f, 0x6f] && FOO[1..][1..] == [0x6f] && FOO[1..][1..][1..] == [];
    assert Segment(FOO) == FOO;
    assert FOO <= FOOBAR;
  }

  const FOO: seq<u8> := [0x66, 0x6f, 0x6f]
  const FOOBAR: seq<u8> := [0x66, 0x6f, 0x6f, 0x62, 0x61, 0x72]

  // ----- The program

  /** `strncmp(a, b, n) == 0` on strings without their terminators. */
  predicate StrncmpEqual(a: seq<u8>, b: seq<u8>, n: nat)
    decreases n
  {
    if n == 0 then true
    else if a == [] || b == [] then a == b
    else a[0] == b[0] && StrncmpEqual(a[1..], b[1..], n - 1)
  }

  lemma {:induction false} StrncmpIsPrefix(a: seq<u8>, b: seq<u8>, n: nat)
    requires n <= |b|
    ensures StrncmpEqual(a, b, n) <==> b[..n] <= a
    decreases n
  {
    if n != 0 && a != [] {
      StrncmpIsPrefix(a[1..], b[1..], n - 1);
      assert b[..n] == [b[0]] + b[1..][..n - 1];
    }
  }

  /** The header checks, on 32-bit arithmetic. */
  predicate Passes(data: seq<u8>): (passes: bool)
    requires |data| <= MAX_SIZE
    ensures passes ==> |data| >= 0x2c && Word(data, 0x4) + ROW <= |data|
  {
    && |data| >= 0x20 + ROW && Word(data, 0x0) == MAGIC
    && var size, entries, metadata := |data|, Word(data, 0x4), Word(data, 0x8);
       && metadata <= Add32(0x20, size) && entries <= size && Add32(entries, ROW) <= size
       && (Add32Small(entries, ROW);
           var table := Word(data, entries + 0x8) * ROW % U32_MODULUS;
           && Add32(entries, table) <= size && table <= metadata
           && Add32(Add32(entries, table), metadata - table) <= size)
  }

  /** What fits passes every check, wrapping sums and all. */
  lemma HeaderPasses(data: seq<u8>)
    requires Announced(data) && Fits(data)
    ensures Passes(data)
  {
    hide Word, Add32;
    var entries, metadata := Word(data, 0x4), Word(data, 0x8);
    var table := Word(data, entries + 0x8) * ROW;
    DivModUnique(table, U32_MODULUS, 0, table);
    Add32Small(0x20, |data|);
    Add32Small(entries, ROW);
    Add32Small(entries, table);
    Add32Small(entries + table, metadata - table);
  }

  /**
    Where neither the table's end nor an offset can wrap, the checks say exactly that the data starts with
    the magic number, and that the root row, the table and the metadata announced lie where they should.
   */
  lemma PassesExactly(data: seq<u8>)
    requires 0x2c <= |data| < 0x7fff_ffe0
    requires Word(data, 4) + 12 <= |data| ==> Word(data, 4) + Word(data, Word(data, 4) + 8) * 12 < 0x1_0000_0000
    ensures Passes(data) <==>
            && data[..4] == [0x55, 0xAA, 0x38, 0x2D] && Word(data, 4) + 12 <= |data|
            && Word(data, Word(data, 4) + 8) * 12 <= Word(data, 8) && Word(data, 4) + Word(data, 8) <= |data|
  {
    hide Add32;
    MagicIs(data);
    var entries, metadata := Word(data, 4), Word(data, 8);
    hide Word;
    Add32Small(0x20, |data|);
    if entries <= |data| {
      Add32Small(entries, ROW);
      if entries + ROW <= |data| {
        var table := Word(data, entries + 8) * ROW;
        DivModUnique(table, U32_MODULUS, 0, table);
        Add32Small(entries, table);
        if entries + table <= |data| && table <= metadata <= 0x20 + |data| {
          Add32Small(entries + table, metadata - table);
        }
      }
    }
  }

  lemma MagicIs(data: seq<u8>)
    requires |data| >= 4
    ensures Word(data, 0) == MAGIC <==> data[..4] == [0x55, 0xAA, 0x38, 0x2D]
  {
    assert data[0..4] == data[..4] == [data[0], data[1], data[2], data[3]];
  }

  /** A row count whose product with 12 wraps to 8. */
  const WRAPPING: seq<u8> :=
    [0x55, 0xAA, 0x38, 0x2D, 0, 0, 0, 0x20, 0, 0, 0, 0xc, 0, 0, 0, 0] + seq(0x10, _ => 0) +
    [1, 0, 0, 0, 0, 0, 0, 0, 0x15, 0x55, 0x55, 0x56]

  /** So the checks alone do not keep the table inside the data. */
  lemma WrappingTablePasses()
    ensures Passes(WRAPPING) && Word(WRAPPING, 0x4) + Word(WRAPPING, 0x28) * ROW >= U32_MODULUS
  {
    assert WRAPPING[0x0..0x4] == [0x55, 0xAA, 0x38, 0x2D];
    assert WRAPPING[0x4..0x8] == [0, 0, 0, 0x20];
    assert WRAPPING[0x8..0xc] == [0, 0, 0, 0xc];
    assert WRAPPING[0x28..0x2c] == [0x15, 0x55, 0x55, 0x56];
    DivModUnique(0x1555_5556 * ROW, U32_MODULUS, 1, 8);
  }

  const STRANGER: seq<Entry> :=
    [Entry(true, 0, 0, 4), Entry(true, 2, 0, 3), Entry(true, 4, 1, 4), Entry(false, 6, 0, 0)]

  class Archive {
    const data: seq<u8>
    var entriesOffset: nat
    var entryCount: nat
    var stringsOffset: nat
    var stringsSize: nat
    var ok: bool

    /** The header checks, on 32-bit arithmetic. */
    constructor (data: seq<u8>)
      requires |data| <= MAX_SIZE
      ensures this.data == data && Accepted()
      ensures ok <==> Passes(data)
      ensures ok ==> (Bounded() <==> entriesOffset + entryCount * ROW < U32_MODULUS)
      ensures ok ==> entriesOffset == Word(data, 0x4) && entryCount == Word(data, Word(data, 0x4) + 0x8)
      ensures ok ==> stringsOffset == Add32(entriesOffset, entryCount * ROW % U32_MODULUS)
    {
      hide Add32, Word;
      this.data, ok, entriesOffset, entryCount, stringsOffset, stringsSize := data, false, 0, 0, 0, 0;
      new;
      var size := |data|;
      if size < 0x20 + 0xc {
        return;
      }
      if Word(data, 0x0) != 0x55AA382D {
        return;
      }
      var metadataSize := Word(data, 0x8);
      if metadataSize > Add32(0x20, size) {
        return;
      }
      entriesOffset := Word(data, 0x4);
      if entriesOffset > size || Add32(entriesOffset, 0xc) > size {
        return;
      }
      Add32Small(entriesOffset, 0xc);
      entryCount := Word(data, entriesOffset + 0x8);
      var tableSize := entryCount * 0xc % U32_MODULUS;
      if Add32(entriesOffset, tableSize) > size || tableSize > metadataSize {
        return;
      }
      stringsOffset := Add32(entriesOffset, tableSize);
      stringsSize := metadataSize - tableSize;
      if stringsOffset > size || Add32(stringsOffset, stringsSize) > size {
        return;
      }
      ok := true;
      RowsInData();
    }

    /** What the checks of the constructor leave, wrapping products and sums and all. */
    ghost predicate Accepted()
      reads this
    {
      ok ==> && entriesOffset <= |data| <= MAX_SIZE && stringsOffset <= |data| && entryCount < U32_MODULUS
             && stringsOffset == Add32(entriesOffset, entryCount * ROW % U32_MODULUS)
    }

    /** The table lies in the data; no product or sum over it wraps. */
    ghost predicate Bounded()
      reads this
    {
      ok ==> |data| <= MAX_SIZE && entriesOffset + entryCount * ROW <= |data| && stringsOffset <= |data|
    }

    /** Where `get(u32)` reads a row. */
    function RowOffset(entrynum: nat): u32
      reads this
    {
      Add32(entriesOffset, entrynum * ROW % U32_MODULUS)
    }

    predicate RowInData(entrynum: nat)
      reads this
    {
      RowOffset(entrynum) + ROW <= |data|
    }

    /**
      The rows that `get(u32)` reads for the numbers it allows all lie in the data if and only if the
      table's end does not wrap. A header whose table wraps can pass the checks all the same.
     */
    lemma RowsInData()
      requires ok && Accepted()
      ensures (forall k :: 0 <= k < entryCount ==> RowInData(k)) <==> entriesOffset + entryCount * ROW < U32_MODULUS
      ensures Bounded() <==> entriesOffset + entryCount * ROW < U32_MODULUS
    {
      hide Add32;
      var table := entryCount * ROW;
      if entriesOffset + table < U32_MODULUS {
        DivModUnique(table, U32_MODULUS, 0, table);
        Add32Small(entriesOffset, table);
        forall k | 0 <= k < entryCount ensures RowInData(k) {
          TableRow(k);
        }
      } else {
        var k := (U32_MODULUS - 1 - entriesOffset) / ROW;
        var at := k * ROW;
        assert U32_MODULUS - ROW <= entriesOffset + at < U32_MODULUS;
        DivModUnique(at, U32_MODULUS, 0, at);
        Add32Small(entriesOffset, at);
        assert k < entryCount && !RowInData(k);
      }
    }

    lemma TableRow(k: nat)
      requires ok && Bounded() && k < entryCount
      ensures RowOffset(k) == entriesOffset + k * ROW && RowInData(k) && RowAt(data, RowOffset(k)) == Table()[k]
    {
      hide Add32, RowAt;
      DivModUnique(k * ROW, U32_MODULUS, 0, k * ROW);
      Add32Small(entriesOffset, k * ROW);
    }

    ghost function Table(): (table: seq<Entry>)
      requires ok && Bounded()
      reads this
    {
      seq(entryCount, i requires 0 <= i < entryCount && Bounded() && ok reads this => RowAt(data, entriesOffset + i * ROW))
    }

    /** The rows flatten a tree with a single root, every name ends, and files lie in the data. */
    ghost predicate Represents(root: Forest): (represents: bool)
      reads this
      ensures represents ==> ok && Bounded() && root != Empty
    {
      && ok && Bounded() && root.Dir? && root.rest == Empty && Table() == Flatten(root, 0, 0)
      && forall i :: 0 <= i < entryCount ==> Readable(Table()[i])
    }

    ghost predicate Readable(entry: Entry)
      reads this
    {
      && CString(data, Add32(stringsOffset, entry.nameOffset)).Some?
      && (!entry.isDir ==> entry.first + entry.last <= |data|)
    }

    method GetString(offset: nat) returns (s: Option<seq<u8>>)
      ensures s == CString(data, offset)
    {
      var i := offset;
      if offset <= |data| && CString(data, offset).Some? {
        assert data[offset..offset] + CString(data, offset).value == CString(data, offset).value;
      }
      while i < |data|
        invariant offset <= i && (offset <= |data| ==> i <= |data|)
        invariant offset <= |data| ==> CString(data, offset) == Prefixed(data[offset..i], CString(data, i))
      {
        if data[i] == 0 {
          assert data[offset..i] + [] == data[offset..i];
          return Some(data[offset..i]);
        }
        CStringStep(data, offset, i);
        i := i + 1;
      }
      return None;
    }

    /** `get(u32)`: the row with that number, if it and what it points at are sound. */
    method GetByNumber(entrynum: nat) returns (item: Item)
      requires Accepted() && (ok && entrynum < entryCount ==> RowInData(entrynum))
      ensures ok && entrynum < entryCount ==> item == ItemOf(entrynum, RowAt(data, RowOffset(entrynum)))
      ensures !ok || entrynum >= entryCount ==> item == Missing
    {
      if !ok {
        return Missing;
      }
      if entrynum >= entryCount {
        return Missing;
      }
      var offset := Add32(entriesOffset, entrynum * 0xc % U32_MODULUS);
      var row := RowAt(data, offset);
      var name := GetString(Add32(stringsOffset, row.nameOffset));
      if name.None? {
        return Missing;
      }
      if row.isDir {
        if row.first >= entryCount || row.last > entryCount {
          return Missing;
        }
        if row.last <= entrynum {
          return Missing;
        }
        return DirItem(entrynum, name.value, row.first, row.last);
      } else {
        if row.first > |data| || Add32(row.first, row.last) > |data| {
          return Missing;
        }
        return FileItem(entrynum, name.value, row.first, row.last);
      }
    }

    ghost function ItemOf(entrynum: nat, row: Entry): Item
      reads this
    {
      if CString(data, Add32(stringsOffset, row.nameOffset)).None? then Missing
      else if row.isDir then
        if row.first >= entryCount || row.last > entryCount || row.last <= entrynum then Missing
        else DirItem(entrynum, NameAt(data, stringsOffset, row.nameOffset), row.first, row.last)
      else if row.first > |data| || Add32(row.first, row.last) > |data| then Missing
      else FileItem(entrynum, NameAt(data, stringsOffset, row.nameOffset), row.first, row.last)
    }

    /** When a row gives an item, and which. */
    lemma ItemSound(entrynum: nat, row: Entry)
      ensures ItemOf(entrynum, row) == Missing <==>
              || (forall z :: (stringsOffset + row.nameOffset) % 0x1_0000_0000 <= z < |data| ==> data[z] != 0)
              || (row.isDir && (row.first >= entryCount || row.last > entryCount || row.last <= entrynum))
              || (!row.isDir && (row.first > |data| || (row.first + row.last) % 0x1_0000_0000 > |data|))
      ensures ItemOf(entrynum, row) != Missing ==>
                && ItemOf(entrynum, row).entrynum == entrynum
                && CString(data, (stringsOffset + row.nameOffset) % 0x1_0000_0000) == Some(ItemOf(entrynum, row).name)
                && (row.isDir ==> ItemOf(entrynum, row) == DirItem(entrynum, ItemOf(entrynum, row).name, row.first, row.last))
                && (!row.isDir ==> ItemOf(entrynum, row) == FileItem(entrynum, ItemOf(entrynum, row).name, row.first, row.last))
    {
      hide CString;
      CStringIs(data, Add32(stringsOffset, row.nameOffset), []);
    }

    /** The extent of a file item lies in the data if and only if its end does not wrap: the check adds in 32 bits. */
    lemma ExtentInData(entrynum: nat, row: Entry)
      requires ItemOf(entrynum, row).FileItem? && |data| < U32_MODULUS
      ensures row.first + row.last <= |data| <==> row.first + row.last < U32_MODULUS
    {
      hide CString;
      if row.first + row.last < U32_MODULUS {
        Add32Small(row.first, row.last);
      }
    }

    /** In an archive that represents a tree every node can be got, and a directory spans its children. */
    lemma NodeItem(root: Forest, node: Forest, index: nat, parent: nat)
      requires Represents(root) && node != Empty && Holds(Table(), node, index, parent)
      ensures index < entryCount && Table()[index] == HeadEntry(node, index, parent)
      ensures CString(data, Add32(stringsOffset, node.nameOffset)).Some?
      ensures node.Dir? ==>
                && Past(node, index) <= entryCount
                && ItemOf(index, Table()[index])
                == DirItem(index, NameAt(data, stringsOffset, node.nameOffset), parent, Past(node, index))
      ensures node.File? ==>
                ItemOf(index, Table()[index])
                == FileItem(index, NameAt(data, stringsOffset, node.nameOffset), node.dataOffset, node.size)
    {
      hide CString, RowAt, Flatten, Add32, Holds;
      HoldsParts(Table(), node, index, parent);
      assert Readable(Table()[index]);
      if node.Dir? {
        FlattenBounds(root, 0, 0, index);
      } else {
        Add32Small(node.dataOffset, node.size);
      }
    }

    /** Some row that `get(u32)` gives this item for. */
    ghost predicate Got(item: Item)
      requires ok && Bounded()
      reads this
    {
      exists e :: 0 <= e < entryCount && item == ItemOf(e, Table()[e])
    }

    /** In a tree: `dir` is one of its directories and `children` what is in it. */
    ghost predicate Spans(root: Forest, dir: Item, children: Forest)
      requires dir.DirItem?
      reads this
    {
      && Represents(root) && Holds(Table(), children, dir.entrynum + 1, dir.entrynum)
      && dir.next == dir.entrynum + 1 + Count(children)
    }

    /** What scanning a directory of a tree for `segment` comes to. */
    ghost predicate Scanned(dir: Item, children: Forest, segment: seq<u8>, item: Item, entrynum: nat, node: Forest)
      requires ok && Bounded() && dir.DirItem?
      reads this
    {
      var found := FindChild(Names(data, stringsOffset), children, dir.entrynum + 1, segment);
      && (found == None ==> entrynum == dir.next || item == Missing)
      && (found.Some? ==>
            && found == Some((entrynum, node)) && entrynum < dir.next && item != Missing
            && Holds(Table(), node, entrynum, dir.entrynum) && entrynum < entryCount
            && item == ItemOf(entrynum, Table()[entrynum]) && item.DirItem? == node.Dir?)
    }

    /** The scan stands at `node`, all siblings before it rejected. */
    ghost predicate Scanning(dir: Item, children: Forest, segment: seq<u8>, entrynum: nat, node: Forest)
      requires ok && Bounded() && dir.DirItem?
      reads this
    {
      var names := Names(data, stringsOffset);
      && entrynum + Count(node) == dir.next && Holds(Table(), node, entrynum, dir.entrynum)
      && FindChild(names, children, dir.entrynum + 1, segment) == FindChild(names, node, entrynum, segment)
    }

    lemma ScanStart(root: Forest, dir: Item, children: Forest, segment: seq<u8>)
      requires ok && Bounded() && dir.DirItem? && Spans(root, dir, children)
      ensures Scanning(dir, children, segment, dir.entrynum + 1, children)
    {
    }

    lemma ScanStep(root: Forest, dir: Item, children: Forest, segment: seq<u8>, entrynum: nat, node: Forest)
      requires ok && Bounded() && dir.DirItem? && Spans(root, dir, children)
      requires Scanning(dir, children, segment, entrynum, node) && entrynum < dir.next && node != Empty
      ensures entrynum < entryCount
      ensures var item := ItemOf(entrynum, Table()[entrynum]);
              && item != Missing
              && (segment <= item.name ==> Scanned(dir, children, segment, item, entrynum, node))
              && (!(segment <= item.name) ==>
                    Scanning(dir, children, segment, if item.DirItem? then item.next else entrynum + 1, node.rest))
    {
      hide CString, Flatten, FindChild, Archive.ItemOf;
      NodeItem(root, node, entrynum, dir.entrynum);
      FindChildStep(Names(data, stringsOffset), node, entrynum, segment);
      HoldsParts(Table(), node, entrynum, dir.entrynum);
    }

    lemma ScanEnd(root: Forest, dir: Item, children: Forest, segment: seq<u8>, item: Item, entrynum: nat, node: Forest)
      requires ok && Bounded() && dir.DirItem? && Scanning(dir, children, segment, entrynum, node)
      ensures entrynum >= dir.next ==> Scanned(dir, children, segment, item, entrynum, node)
      ensures entrynum < dir.next ==> node != Empty
    {
      hide Holds;
      if entrynum >= dir.next {
        FindChildNone(Names(data, stringsOffset), node, entrynum, segment);
      }
    }

    lemma GotRow(e: nat)
      requires ok && Bounded() && e < entryCount
      ensures Got(ItemOf(e, Table()[e]))
      ensures var item := ItemOf(e, Table()[e]);
              item.DirItem? ==> item.entrynum == e < item.next <= entryCount
    {
    }

    lemma GotSpan(item: Item)
      requires ok && Bounded() && Got(item) && item.DirItem?
      ensures item.entrynum < item.next <= entryCount
    {
    }

    // ----- The scan of a directory on any table

    /** Row `e` and the ones it leads to, up to `next`: the item the scan ends with and the number it ends at. */
    ghost function ScanFrom(e: nat, next: nat, segment: seq<u8>, last: Item): (r: (Item, nat))
      requires ok && Bounded() && next <= entryCount
      reads this
      ensures e <= r.1 && (e <= entryCount ==> r.1 <= entryCount)
      ensures r.0 == last || r.0 == Missing || Got(r.0)
      decreases if e < next then next - e else 0
    {
      if e >= next then (last, e)
      else
        GotRow(e);
        var item := ItemOf(e, Table()[e]);
        if item == Missing || segment <= item.name then (item, e)
        else ScanFrom(if item.DirItem? then item.next else e + 1, next, segment, item)
    }

    /** Inside the span the scan ends with a match or a bad row, beyond it with the last item rejected. */
    lemma {:induction false} ScanMeans(e: nat, next: nat, segment: seq<u8>, last: Item)
      requires ok && Bounded() && e < next <= entryCount
      ensures var (item, end) := ScanFrom(e, next, segment, last);
              if end < next then item == ItemOf(end, Table()[end]) && (item == Missing || segment <= item.name)
              else item != Missing && !(segment <= item.name)
      decreases next - e
    {
      hide Archive.ItemOf;
      GotRow(e);
      var item := ItemOf(e, Table()[e]);
      if item != Missing && !(segment <= item.name) {
        var after := if item.DirItem? then item.next else e + 1;
        if after < next {
          ScanMeans(after, next, segment, item);
        }
      }
    }

    /** What `get(const char *)` takes for a match. */
    predicate Taken(item: Item, end: nat, next: nat) {
      item != Missing && end != next
    }

    /** Rows from `e` on span nothing beyond `next`. */
    ghost predicate SpansEndBy(e: nat, next: nat)
      requires ok && Bounded() && next <= entryCount
      reads this
    {
      forall k :: e <= k < next && ItemOf(k, Table()[k]).DirItem? ==> ItemOf(k, Table()[k]).next <= next
    }

    /** What is taken begins with the segment if and only if the scan has not left the span. */
    lemma TakenBegins(e: nat, next: nat, segment: seq<u8>, last: Item)
      requires ok && Bounded() && e < next <= entryCount
      ensures var (item, end) := ScanFrom(e, next, segment, last);
              Taken(item, end, next) ==> (segment <= item.name <==> end < next)
    {
      ScanMeans(e, next, segment, last);
    }

    /** It never leaves the span when every row in it ends by its end. */
    lemma {:induction false} ScanStaysInSpan(e: nat, next: nat, segment: seq<u8>, last: Item)
      requires ok && Bounded() && e <= next <= entryCount && SpansEndBy(e, next)
      ensures ScanFrom(e, next, segment, last).1 <= next
      decreases next - e
    {
      hide Archive.ItemOf;
      if e < next {
        GotRow(e);
        var item := ItemOf(e, Table()[e]);
        if item != Missing && !(segment <= item.name) {
          ScanStaysInSpan(if item.DirItem? then item.next else e + 1, next, segment, item);
        }
      }
    }

    /** But a rejected directory that spans more than the one it stands in is taken. */
    lemma RejectedTaken(e: nat, next: nat, segment: seq<u8>, last: Item)
      requires ok && Bounded() && e < next <= entryCount
      requires ItemOf(e, Table()[e]).DirItem? && !(segment <= ItemOf(e, Table()[e]).name)
      requires next < ItemOf(e, Table()[e]).next
      ensures ScanFrom(e, next, segment, last) == (ItemOf(e, Table()[e]), ItemOf(e, Table()[e]).next)
      ensures Taken(ItemOf(e, Table()[e]), ItemOf(e, Table()[e]).next, next)
    {
      GotRow(e);
    }

    /** Such a table: the directory in row 1 ends at 3, the one inside it at 4. No name but the root's begins with "x". */
    lemma StrangerTaken()
      requires ok && Bounded() && Table() == STRANGER
      requires forall nameOffset :: 2 <= nameOffset <= 6 ==> CString(data, Add32(stringsOffset, nameOffset)).Some?
      requires !([0x78] <= NameAt(data, stringsOffset, 4))
      ensures var dir := ItemOf(1, STRANGER[1]);
              && dir.DirItem? && dir.next == 3
              && ScanFrom(2, 3, [0x78], dir) == (ItemOf(2, STRANGER[2]), 4) && Taken(ItemOf(2, STRANGER[2]), 4, 3)
    {
      hide CString;
      RejectedTaken(2, 3, [0x78], ItemOf(1, STRANGER[1]));
    }

    /** On a tree the scan finds the first direct child whose name begins with the segment. */
    lemma {:induction false} ScanOfTree(
        root: Forest, dir: Item, children: Forest, segment: seq<u8>, entrynum: nat, node: Forest, last: Item)
      returns (found: Forest)
      requires ok && Bounded() && dir.DirItem? && dir.next <= entryCount && Spans(root, dir, children)
      requires Scanning(dir, children, segment, entrynum, node)
      ensures var (item, end) := ScanFrom(entrynum, dir.next, segment, last);
              Scanned(dir, children, segment, item, end, found)
      decreases node
    {
      hide Archive.ItemOf, Archive.Spans, Archive.Scanning, Archive.Scanned;
      found := node;
      ScanEnd(root, dir, children, segment, last, entrynum, node);
      if entrynum < dir.next {
        GotRow(entrynum);
        ScanStep(root, dir, children, segment, entrynum, node);
        var item := ItemOf(entrynum, Table()[entrynum]);
        if !(segment <= item.name) {
          found := ScanOfTree(root, dir, children, segment, if item.DirItem? then item.next else entrynum + 1, node.rest, item);
        }
      }
    }

    /**
      The inner loop: scanning a directory for a name that begins with the first segment of `p`. It
      reads only rows of the table and ends, whatever the table says.
     */
    method FindInDirectory(dir: Item, p: seq<u8>) returns (item: Item, entrynum: nat)
      requires ok && Accepted() && Bounded() && dir.DirItem? && Got(dir)
      ensures dir.entrynum < entrynum <= entryCount && (item == Missing || Got(item)) && dir.next <= entryCount
      ensures (item, entrynum) == ScanFrom(dir.entrynum + 1, dir.next, Segment(p), dir)
    {
      hide Segment, RowAt, Archive.Accepted, Archive.ItemOf, Archive.Got, Archive.RowOffset;
      var length := |Segment(p)|;
      item := dir;
      entrynum := dir.entrynum + 1;
      GotSpan(dir);
      while entrynum < dir.next
        invariant dir.entrynum < entrynum <= entryCount && Got(item)
        invariant ScanFrom(entrynum, dir.next, Segment(p), item) == ScanFrom(dir.entrynum + 1, dir.next, Segment(p), dir)
        decreases dir.next - entrynum
      {
        TableRow(entrynum);
        item := GetByNumber(entrynum);
        GotRow(entrynum);
        if item.Missing? {
          return;
        }
        StrncmpIsPrefix(item.name, p, length);
        if StrncmpEqual(item.name, p, length) {
          return;
        }
        if item.DirItem? {
          entrynum := item.next;
        } else {
          entrynum := entrynum + 1;
        }
      }
    }

    /** The lookup has come to this node of the tree. */
    ghost predicate Here(node: Forest, parent: nat, entrynum: nat, item: Item): (here: bool)
      requires ok && Bounded()
      reads this
      ensures here ==> node != Empty && entrynum < entryCount
    {
      && node != Empty && Holds(Table(), node, entrynum, parent) && entrynum < entryCount
      && item == ItemOf(entrynum, Table()[entrynum]) && item != Missing && item.DirItem? == node.Dir?
    }

    lemma HereRoot(root: Forest)
      requires Represents(root)
      ensures 0 < entryCount && Here(root, 0, 0, ItemOf(0, Table()[0]))
    {
      hide CString, Flatten;
      RootHeld(root);
      NodeItem(root, root, 0, 0);
    }

    lemma HereSpans(root: Forest, node: Forest, parent: nat, entrynum: nat, dir: Item)
      requires Represents(root) && Here(node, parent, entrynum, dir) && dir.DirItem?
      ensures node.Dir? && dir.entrynum == entrynum && Spans(root, dir, node.children)
    {
      hide CString, Flatten;
      NodeItem(root, node, entrynum, parent);
      HoldsParts(Table(), node, entrynum, parent);
    }

    lemma HereNext(
        root: Forest, node: Forest, parent: nat, dir: Item, p: seq<u8>, item: Item, entrynum: nat, child: Forest)
      requires Represents(root) && dir.DirItem? && Here(node, parent, dir.entrynum, dir) && p != []
      requires node.Dir? && Scanned(dir, node.children, Segment(p), item, entrynum, child)
      ensures var names := Names(data, stringsOffset);
              if item == Missing || entrynum == dir.next then Walk(names, node, dir.entrynum, p) == None
              else && Here(child, dir.entrynum, entrynum, item)
                   && Walk(names, node, dir.entrynum, p) == Walk(names, child, entrynum, AfterSegment(p))
    {
      hide CString, Flatten, FindChild, Segment, AfterSegment, Holds, Archive.ItemOf;
    }

    lemma HereStops(node: Forest, parent: nat, entrynum: nat, item: Item, p: seq<u8>)
      requires ok && Bounded() && Here(node, parent, entrynum, item) && (p == [] || !item.DirItem?)
      ensures Walk(Names(data, stringsOffset), node, entrynum, p) == if p == [] then Some(entrynum) else None
      ensures entrynum < entryCount && item == ItemOf(entrynum, Table()[entrynum]) && item != Missing
    {
      hide Holds;
    }

    /** Following a path from an item of any table: segment by segment to what is taken for a match. */
    ghost function FlatWalk(item: Item, p: seq<u8>): Item
      requires ok && Bounded() && (item == Missing || Got(item))
      reads this
      decreases |p|
    {
      if p == [] then item
      else if !item.DirItem? then Missing
      else
        GotSpan(item);
        var (found, end) := ScanFrom(item.entrynum + 1, item.next, Segment(p), item);
        if Taken(found, end, item.next) then FlatWalk(found, AfterSegment(p)) else Missing
    }

    /** On a name, a '/' and more: nothing unless the scan takes an item, and from that item on the rest of the path. */
    lemma FlatWalkJoined(dir: Item, name: seq<u8>, rest: seq<u8>)
      requires ok && Bounded() && dir.DirItem? && Got(dir) && forall i :: 0 <= i < |name| ==> name[i] != 0x2f
      requires dir.next <= entryCount
      ensures var (found, end) := ScanFrom(dir.entrynum + 1, dir.next, name, dir);
              FlatWalk(dir, name + [0x2f] + rest) ==
              if found == Missing || end == dir.next then Missing else FlatWalk(found, rest)
    {
      hide Segment, Archive.ScanFrom, Archive.Got;
      SegmentJoined(name, rest);
      assert (name + [0x2f] + rest)[|name| + 1..] == rest;
    }

    lemma FlatWalkMoves(item: Item, p: seq<u8>)
      requires ok && Bounded() && (item == Missing || Got(item))
      ensures p == [] ==> FlatWalk(item, p) == item
      ensures p != [] && !item.DirItem? ==> FlatWalk(item, p) == Missing
      ensures p != [] && item.DirItem? ==>
                && item.entrynum < item.next <= entryCount
                && var (found, end) := ScanFrom(item.entrynum + 1, item.next, Segment(p), item);
                   FlatWalk(item, p) == if Taken(found, end, item.next) then FlatWalk(found, AfterSegment(p)) else Missing
    {
      hide Segment, AfterSegment, Archive.ScanFrom, Archive.Got;
      if item.DirItem? {
        GotSpan(item);
      }
    }

    /** On a tree it is the walk down the tree. */
    lemma {:induction false} FlatWalkOfTree(root: Forest, node: Forest, parent: nat, entrynum: nat, item: Item, p: seq<u8>)
      requires Represents(root) && Here(node, parent, entrynum, item) && Got(item)
      ensures match Walk(Names(data, stringsOffset), node, entrynum, p)
              case None => FlatWalk(item, p) == Missing
              case Some(index) => index < entryCount && FlatWalk(item, p) == ItemOf(index, Table()[index]) && FlatWalk(item, p) != Missing
      decreases |p|
    {
      hide Segment, Walk, Archive.ItemOf, Archive.Got, Archive.Spans, Archive.Scanning, Archive.Scanned;
      hide Archive.Here, Archive.Represents, Archive.ScanFrom, Archive.FlatWalk;
      FlatWalkMoves(item, p);
      if p == [] || !item.DirItem? {
        HereStops(node, parent, entrynum, item, p);
      } else {
        HereSpans(root, node, parent, entrynum, item);
        ScanStart(root, item, node.children, Segment(p));
        var child := ScanOfTree(root, item, node.children, Segment(p), item.entrynum + 1, node.children, item);
        var (found, end) := ScanFrom(item.entrynum + 1, item.next, Segment(p), item);
        HereNext(root, node, parent, item, p, found, end, child);
        if Taken(found, end, item.next) {
          HereGot(child, item.entrynum, end, found);
          FlatWalkOfTree(root, child, item.entrynum, end, found, AfterSegment(p));
        }
      }
    }

    lemma HereGot(node: Forest, parent: nat, entrynum: nat, item: Item)
      requires ok && Bounded() && Here(node, parent, entrynum, item)
      ensures Got(item)
    {
    }

    /**
      `get(const char *)`. On any table in the data it follows the path from the first row; on a tree that is
      the walk down the tree.
     */
    method GetByPath(path: seq<u8>, ghost root: Forest) returns (item: Item)
      requires Accepted() && Bounded()
      ensures item == Missing || (ok && Got(item))
      ensures ok && entryCount > 0 ==> Got(ItemOf(0, Table()[0])) && item == FlatWalk(ItemOf(0, Table()[0]), path)
      ensures !ok || entryCount == 0 ==> item == Missing
      ensures Represents(root) ==>
                match Walk(Names(data, stringsOffset), root, 0, path)
                case None => item == Missing
                case Some(index) => index < entryCount && item == ItemOf(index, Table()[index]) && item != Missing
    {
      hide Segment, RowAt, Walk, Archive.Accepted, Archive.ItemOf, Archive.Got;
      hide Archive.RowOffset, Archive.Here, Archive.Represents, Archive.ScanFrom, Archive.FlatWalk;
      var p := path;
      var entrynum: nat := 0;
      if ok && 0 < entryCount {
        TableRow(0);
        GotRow(0);
      }
      item := GetByNumber(entrynum);
      ghost var first, some := item, ok && 0 < entryCount;
      if Represents(root) {
        HereRoot(root);
        FlatWalkOfTree(root, root, 0, 0, first, path);
      }
      while p != [] && item.DirItem?
        invariant if some then (item == Missing || Got(item)) && FlatWalk(first, path) == FlatWalk(item, p) else item == Missing
        decreases |p|
      {
        var length := |Segment(p)|;
        var dir := item;
        GotSpan(dir);
        FlatWalkMoves(dir, p);
        item, entrynum := FindInDirectory(dir, p);
        if item.Missing? || entrynum == dir.next {
          return Missing;
        }
        p := if length < |p| then p[length + 1..] else p[length..];
      }
      if some {
        FlatWalkMoves(item, p);
      }
      if p != [] {
        return Missing;
      }
    }

    lemma RootHeld(root: Forest)
      requires Represents(root)
      ensures Holds(Table(), root, 0, 0)
    {
      assert Table()[0..Count(root)] == Table();
    }
  }

  lemma FindChildStep(names: nat -> seq<u8>, f: Forest, base: nat, segment: seq<u8>)
    requires f != Empty
    ensures FindChild(names, f, base, segment) ==
            if segment <= names(f.nameOffset) then Some((base, f)) else FindChild(names, f.rest, Past(f, base), segment)
  {
  }

  lemma FindChildNone(names: nat -> seq<u8>, f: Forest, base: nat, segment: seq<u8>)
    requires Count(f) == 0
    ensures FindChild(names, f, base, segment) == None
  {
  }

  function NameAt(data: seq<u8>, stringsOffset: nat, nameOffset: nat): seq<u8> {
    var name := CString(data, Add32(stringsOffset, nameOffset));
    if name.Some? then name.value else []
  }

  function Names(data: seq<u8>, stringsOffset: nat): nat -> seq<u8> {
    nameOffset => NameAt(data, stringsOffset, nameOffset)
  }

  lemma {:induction false} CStringStep(data: seq<u8>, offset: nat, i: nat)
    requires offset <= i < |data| && data[i] != 0
    ensures Prefixed(data[offset..i], CString(data, i)) == Prefixed(data[offset..i + 1], CString(data, i + 1))
  {
    var rest := CString(data, i + 1);
    if rest.Some? {
      assert data[offset..i] + ([data[i]] + rest.value) == data[offset..i + 1] + rest.value;
    }
  }

  /** `prefix` put before a string that may be missing. */
  function Prefixed(prefix: seq<u8>, s: Option<seq<u8>>): Option<seq<u8>> {
    if s.None? then None else Some(prefix + s.value)
  }

  /** The header is there and points at a root row inside the data. */
  predicate Announced(data: seq<u8>) {
    && 0x2c <= |data| < U32_MODULUS - 0x20
    && Word(data, 0x0) == MAGIC
    && Word(data, 0x4) + ROW <= |data|
  }

  /** The table and the strings behind it lie inside the data and inside the announced metadata. */
  predicate Fits(data: seq<u8>)
    requires Announced(data)
  {
    var entries, metadata := Word(data, 0x4), Word(data, 0x8);
    var count := Word(data, entries + 0x8);
    count * ROW <= metadata && entries + metadata <= |data|
  }

  /** `data` is the image of an archive with this tree: header, table, strings and file data are in place. */
  ghost predicate Image(data: seq<u8>, root: Forest) {
    && Announced(data) && Fits(data) && root.Dir? && root.rest == Empty
    && var entries := Word(data, 0x4);
       var count := Word(data, entries + 0x8);
       && count == Count(root)
       && forall i :: 0 <= i < count ==> RowInPlace(data, entries, count, Flatten(root, 0, 0)[i], i)
  }

  ghost predicate RowInPlace(data: seq<u8>, entries: nat, count: nat, row: Entry, i: nat) {
    && entries + i * ROW + ROW <= |data| && RowAt(data, entries + i * ROW) == row
    && CString(data, entries + count * ROW + row.nameOffset).Some?
    && (!row.isDir ==> row.first + row.last <= |data|)
  }

  /** Opening such an image succeeds, and from then on the object stands for the tree. */
  method Open(data: seq<u8>, ghost root: Forest) returns (archive: Archive)
    requires Image(data, root)
    ensures archive.data == data && archive.Represents(root)
  {
    hide CString, Flatten, RowAt, RowInPlace;
    HeaderPasses(data);
    archive := new Archive(data);
    ImageFits(data, root);
    var entries, count := Word(data, 0x4), Word(data, Word(data, 0x4) + 0x8);
    forall i | 0 <= i < count
      ensures archive.Table()[i] == Flatten(root, 0, 0)[i] && archive.Readable(archive.Table()[i])
    {
      ImageRow(data, root, i);
    }
    assert archive.Table() == Flatten(root, 0, 0);
  }

  /** None of the sums that place the table and the strings wraps. */
  lemma ImageFits(data: seq<u8>, root: Forest)
    requires Image(data, root)
    ensures var entries, count := Word(data, 0x4), Word(data, Word(data, 0x4) + 0x8);
            && entries + count * ROW <= |data| && count * ROW < U32_MODULUS
            && Add32(entries, count * ROW % U32_MODULUS) == entries + count * ROW
  {
    hide RowInPlace, Flatten, Word, Add32;
    var entries, table := Word(data, 0x4), Word(data, Word(data, 0x4) + 0x8) * ROW;
    DivModUnique(table, U32_MODULUS, 0, table);
    Add32Small(entries, table);
  }

  lemma ImageRow(data: seq<u8>, root: Forest, i: nat)
    requires Image(data, root) && i < Count(root)
    ensures var entries, count, row := Word(data, 0x4), Count(root), Flatten(root, 0, 0)[i];
            && entries + i * ROW + ROW <= |data| && RowAt(data, entries + i * ROW) == row
            && CString(data, Add32(entries + count * ROW, row.nameOffset)).Some?
            && (!row.isDir ==> row.first + row.last <= |data|)
  {
    hide CString, Flatten, RowAt, Word, Add32;
    var entries, count := Word(data, 0x4), Word(data, Word(data, 0x4) + 0x8);
    assert RowInPlace(data, entries, count, Flatten(root, 0, 0)[i], i);
    Add32Small(entries + count * ROW, Flatten(root, 0, 0)[i].nameOffset);
  }
}
