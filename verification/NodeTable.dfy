/**
  The flattened directory tree shared by U8 archives and the disc's FST: a preorder table in which a
  directory's last field is the index just past its descendants. The three walkers over it are each
  compared with the tree itself.
 */
module NodeTable {
  import opened Bytes
  import opened Wrappers

  /** One table row. `first` is a file's data offset or a directory's parent, `last` its size or its end. */
  datatype Entry = Entry(isDir: bool, nameOffset: nat, first: nat, last: nat)

  /** Bytes in a row. */
  const ROW: nat := 0xc

  function Word(data: seq<u8>, offset: nat): u32
    requires offset + 4 <= |data|
  {
    BigEndian(data[offset..offset + 4])
  }

  /** The row at `offset`: a directory byte and a 24-bit name offset, then two words. */
  function RowAt(data: seq<u8>, offset: nat): Entry
    requires offset + ROW <= |data|
  {
    Entry(data[offset] != 0, And(Word(data, offset), 0xffffff), Word(data, offset + 0x4), Word(data, offset + 0x8))
  }

  /** A row byte by byte: twelve of them, big-endian, the directory byte and the name offset sharing the first word. */
  lemma RowBytes(data: seq<u8>, offset: nat)
    requires offset + 12 <= |data|
    ensures RowAt(data, offset).isDir <==> data[offset] != 0
    ensures RowAt(data, offset).nameOffset ==
            data[offset + 1] as int * 0x1_0000 + data[offset + 2] as int * 0x100 + data[offset + 3] as int
    ensures RowAt(data, offset).first ==
            data[offset + 4] as int * 0x100_0000 + data[offset + 5] as int * 0x1_0000
            + data[offset + 6] as int * 0x100 + data[offset + 7] as int
    ensures RowAt(data, offset).last ==
            data[offset + 8] as int * 0x100_0000 + data[offset + 9] as int * 0x1_0000
            + data[offset + 10] as int * 0x100 + data[offset + 11] as int
  {
    hide And;
    WordLow24(data, offset);
    assert data[offset + 4..offset + 8][0] == data[offset + 4];
    assert data[offset + 8..offset + 12][0] == data[offset + 8];
  }

  /** A row's first word without its top byte is its 24-bit name offset. */
  lemma WordLow24(data: seq<u8>, offset: nat)
    requires offset + 4 <= |data|
    ensures And(Word(data, offset), 0xffffff)
         == data[offset + 1] as int * 0x1_0000 + data[offset + 2] as int * 0x100 + data[offset + 3]
  {
    hide And;
    assert Pow2(12) == 0x1000 && Pow2(18) == 0x4_0000 && Pow2(24) == 0x100_0000;
    AndLowMask(Word(data, offset), 24);
    var low := data[offset + 1] as int * 0x1_0000 + data[offset + 2] as int * 0x100 + data[offset + 3];
    assert data[offset..offset + 4] == [data[offset], data[offset + 1], data[offset + 2], data[offset + 3]];
    assert Word(data, offset) == data[offset] as int * 0x100_0000 + low;
    DivModUnique(Word(data, offset), 0x100_0000, data[offset], low);
  }

  /** Siblings in order: each node, then the ones after it in the same directory. */
  datatype Forest =
    | Empty
    | File(nameOffset: nat, dataOffset: nat, size: nat, rest: Forest)
    | Dir(nameOffset: nat, children: Forest, rest: Forest)

  function Count(f: Forest): nat {
    match f
    case Empty => 0
    case File(_, _, _, rest) => 1 + Count(rest)
    case Dir(_, children, rest) => 1 + Count(children) + Count(rest)
  }

  /** Index just past the node that starts `f`, when that node is at `base`. */
  function Past(f: Forest, base: nat): nat
    requires f != Empty
  {
    if f.File? then base + 1 else base + 1 + Count(f.children)
  }

  function HeadEntry(f: Forest, base: nat, parent: nat): Entry
    requires f != Empty
  {
    if f.File? then Entry(false, f.nameOffset, f.dataOffset, f.size)
    else Entry(true, f.nameOffset, parent, Past(f, base))
  }

  /** The table of `f` when its first node has index `base` and its directory index `parent`. */
  function Flatten(f: Forest, base: nat, parent: nat): (table: seq<Entry>)
    ensures |table| == Count(f)
    decreases f
  {
    match f
    case Empty => []
    case File(_, _, _, rest) => [HeadEntry(f, base, parent)] + Flatten(rest, base + 1, parent)
    case Dir(_, children, rest) =>
      [HeadEntry(f, base, parent)] + Flatten(children, base + 1, base) + Flatten(rest, Past(f, base), parent)
  }

  /** `table` holds `f` from index `base` on. */
  ghost predicate Holds(table: seq<Entry>, f: Forest, base: nat, parent: nat) {
    base + Count(f) <= |table| && table[base..base + Count(f)] == Flatten(f, base, parent)
  }

  /** A table that holds a forest holds its first node, that node's children and its siblings. */
  lemma HoldsParts(table: seq<Entry>, f: Forest, base: nat, parent: nat)
    requires Holds(table, f, base, parent) && f != Empty
    ensures base < |table| && table[base] == HeadEntry(f, base, parent)
    ensures f.Dir? ==> Holds(table, f.children, base + 1, base)
    ensures Holds(table, f.rest, Past(f, base), parent)
  {
    var part := table[base..base + Count(f)];
    assert table[base] == part[0];
    HoldsRest(table, f, base, parent);
    if f.Dir? {
      HoldsChildren(table, f, base, parent);
    }
  }

  lemma HoldsRest(table: seq<Entry>, f: Forest, base: nat, parent: nat)
    requires Holds(table, f, base, parent) && f != Empty
    ensures Holds(table, f.rest, Past(f, base), parent)
  {
    var part := table[base..base + Count(f)];
    SliceOfSlice(table, base, base + Count(f), Past(f, base) - base, Count(f));
    assert part[Past(f, base) - base..] == Flatten(f.rest, Past(f, base), parent);
  }

  lemma HoldsChildren(table: seq<Entry>, f: Forest, base: nat, parent: nat)
    requires Holds(table, f, base, parent) && f.Dir?
    ensures Holds(table, f.children, base + 1, base)
  {
    var part := table[base..base + Count(f)];
    SliceOfSlice(table, base, base + Count(f), 1, 1 + Count(f.children));
    assert part[1..1 + Count(f.children)] == Flatten(f.children, base + 1, base);
  }

  lemma SliceOfSlice<T>(s: seq<T>, from: nat, to: nat, i: nat, j: nat)
    requires from <= to <= |s| && i <= j <= to - from
    ensures s[from..to][i..j] == s[from + i..from + j]
  {
    forall k | 0 <= k < j - i
      ensures s[from..to][i..j][k] == s[from + i..from + j][k]
    {
    }
  }

  // ----- Directories and their direct children

  /** The contents of the directory with index `k`, if that node is one. */
  function DirAt(f: Forest, base: nat, k: nat): Option<Forest>
    decreases f
  {
    match f
    case Empty => None
    case File(_, _, _, rest) => if k == base then None else DirAt(rest, base + 1, k)
    case Dir(_, children, rest) =>
      if k == base then Some(children)
      else if k < Past(f, base) then DirAt(children, base + 1, k)
      else DirAt(rest, Past(f, base), k)
  }

  /** Indices of the top-level nodes, in order. */
  function TopLevel(f: Forest, base: nat): (indices: seq<nat>)
    ensures forall i :: 0 <= i < |indices| ==> base <= indices[i] < base + Count(f)
    ensures forall i, j :: 0 <= i < j < |indices| ==> indices[i] < indices[j]
    decreases f
  {
    if f == Empty then [] else [base] + TopLevel(f.rest, Past(f, base))
  }

  /** Every directory's row bounds its descendants, and the table holds its contents right after it. */
  lemma {:induction false} DirAtHolds(table: seq<Entry>, f: Forest, base: nat, parent: nat, k: nat)
    requires Holds(table, f, base, parent) && base <= k && DirAt(f, base, k).Some?
    ensures var children := DirAt(f, base, k).value;
            && k < |table| && table[k].isDir && table[k].last == k + 1 + Count(children)
            && Holds(table, children, k + 1, k)
    decreases f
  {
    HoldsParts(table, f, base, parent);
    if k != base && f.Dir? && k < Past(f, base) {
      DirAtHolds(table, f.children, base + 1, base, k);
    } else if k != base {
      DirAtHolds(table, f.rest, Past(f, base), parent, k);
    }
  }

  /** A row is a directory exactly when the tree has a directory there. */
  lemma {:induction false} DirAtIsDir(table: seq<Entry>, f: Forest, base: nat, parent: nat, k: nat)
    requires Holds(table, f, base, parent) && base <= k < base + Count(f)
    ensures table[k].isDir <==> DirAt(f, base, k).Some?
    decreases f
  {
    HoldsParts(table, f, base, parent);
    if k != base && f.Dir? && k < Past(f, base) {
      DirAtIsDir(table, f.children, base + 1, base, k);
    } else if k != base {
      DirAtIsDir(table, f.rest, Past(f, base), parent, k);
    }
  }

  /** Where a row of the table comes from in the tree. */
  lemma FlattenAt(f: Forest, base: nat, parent: nat, k: nat)
    requires base <= k < base + Count(f)
    ensures k == base ==> Flatten(f, base, parent)[k - base] == HeadEntry(f, base, parent)
    ensures k != base && f.Dir? && k < Past(f, base) ==>
              Flatten(f, base, parent)[k - base] == Flatten(f.children, base + 1, base)[k - base - 1]
    ensures k >= Past(f, base) ==>
              Flatten(f, base, parent)[k - base] == Flatten(f.rest, Past(f, base), parent)[k - Past(f, base)]
  {
  }

  /** A directory's row names a parent in the table and ends beyond itself, inside the table. */
  lemma {:induction false} FlattenBounds(f: Forest, base: nat, parent: nat, k: nat)
    requires base <= k < base + Count(f) && Flatten(f, base, parent)[k - base].isDir
    ensures var entry := Flatten(f, base, parent)[k - base];
            && (entry.first == parent || base <= entry.first < base + Count(f))
            && k < entry.last <= base + Count(f)
    decreases f
  {
    hide Flatten;
    FlattenAt(f, base, parent, k);
    if k != base && f.Dir? && k < Past(f, base) {
      FlattenBounds(f.children, base + 1, base, k);
    } else if k != base {
      FlattenBounds(f.rest, Past(f, base), parent, k);
    }
  }

  // ----- The directories around a node

  /** The directory rows around node `k`, outermost first, without `k` itself. */
  function Above(f: Forest, base: nat, parent: nat, k: nat): (dirs: seq<Entry>)
    requires base <= k < base + Count(f)
    ensures |dirs| <= Depth(f)
    decreases f
  {
    if k == base then []
    else if f.Dir? && k < Past(f, base) then [HeadEntry(f, base, parent)] + Above(f.children, base + 1, base, k)
    else Above(f.rest, Past(f, base), parent, k)
  }

  /** The same with `k` included when it is a directory. */
  function Chain(f: Forest, base: nat, parent: nat, k: nat): (dirs: seq<Entry>)
    requires base <= k < base + Count(f)
    ensures |dirs| <= Depth(f)
    decreases f
  {
    if k == base then if f.Dir? then [HeadEntry(f, base, parent)] else []
    else if f.Dir? && k < Past(f, base) then [HeadEntry(f, base, parent)] + Chain(f.children, base + 1, base, k)
    else Chain(f.rest, Past(f, base), parent, k)
  }

  function Depth(f: Forest): nat {
    match f
    case Empty => 0
    case File(_, _, _, rest) => Depth(rest)
    case Dir(_, children, rest) => if 1 + Depth(children) > Depth(rest) then 1 + Depth(children) else Depth(rest)
  }

  /** Popping the directories that end at index `k` off a stack, the last one first. */
  function PopEnds(dirs: seq<Entry>, k: nat): (left: seq<Entry>) {
    if dirs != [] && dirs[|dirs| - 1].last == k then PopEnds(dirs[..|dirs| - 1], k) else dirs
  }

  lemma PopEndsTop(dirs: seq<Entry>, k: nat)
    ensures dirs != [] && dirs[|dirs| - 1].last == k ==> PopEnds(dirs, k) == PopEnds(dirs[..|dirs| - 1], k)
    ensures dirs == [] || dirs[|dirs| - 1].last != k ==> PopEnds(dirs, k) == dirs
  {
  }

  predicate AllEnd(dirs: seq<Entry>, k: nat) {
    forall i :: 0 <= i < |dirs| ==> dirs[i].last == k
  }

  lemma {:induction false} PopEndsBelow(bottom: Entry, dirs: seq<Entry>, k: nat)
    requires bottom.last != k
    ensures PopEnds([bottom] + dirs, k) == [bottom] + PopEnds(dirs, k)
    decreases |dirs|
  {
    var all := [bottom] + dirs;
    if dirs != [] && dirs[|dirs| - 1].last == k {
      assert all[..|all| - 1] == [bottom] + dirs[..|dirs| - 1];
      PopEndsBelow(bottom, dirs[..|dirs| - 1], k);
    } else if dirs == [] {
      assert all == [bottom];
    }
  }

  lemma {:induction false} PopAllEnds(dirs: seq<Entry>, k: nat)
    requires AllEnd(dirs, k)
    ensures PopEnds(dirs, k) == []
    decreases |dirs|
  {
    if dirs != [] {
      PopAllEnds(dirs[..|dirs| - 1], k);
    }
  }

  /** All directories around the last node of a forest end where the forest ends. */
  lemma {:induction false} LastChainEnds(f: Forest, base: nat, parent: nat)
    requires f != Empty
    ensures AllEnd(Chain(f, base, parent, base + Count(f) - 1), base + Count(f))
    decreases f
  {
    if f.rest != Empty {
      LastChainEnds(f.rest, Past(f, base), parent);
    } else if f.Dir? && f.children != Empty {
      LastChainEnds(f.children, base + 1, base);
    }
  }

  /** Moving on by one node: pop every directory that ends there, and the enclosing chain is left. */
  lemma {:induction false} PopEndsStep(f: Forest, base: nat, parent: nat, k: nat)
    requires base <= k && k + 1 < base + Count(f)
    ensures PopEnds(Chain(f, base, parent, k), k + 1) == Above(f, base, parent, k + 1)
    decreases f
  {
    hide PopEnds;
    if k + 1 < Past(f, base) {
      var inner := if k == base then [] else Chain(f.children, base + 1, base, k);
      PopEndsBelow(HeadEntry(f, base, parent), inner, k + 1);
      assert Chain(f, base, parent, k) == [HeadEntry(f, base, parent)] + inner;
      if k == base {
        PopEndsTop(inner, k + 1);
      } else {
        PopEndsStep(f.children, base + 1, base, k);
      }
    } else if k + 1 == Past(f, base) {
      if f.Dir? && f.children != Empty {
        LastChainEnds(f.children, base + 1, base);
      }
      PopAllEnds(Chain(f, base, parent, k), k + 1);
    } else {
      PopEndsStep(f.rest, Past(f, base), parent, k);
    }
  }

  /** A directory joins the chain around it, a file does not. */
  lemma {:induction false} ChainFromAbove(f: Forest, base: nat, parent: nat, k: nat)
    requires base <= k < base + Count(f)
    ensures var entry := Flatten(f, base, parent)[k - base];
            Chain(f, base, parent, k) == if entry.isDir then Above(f, base, parent, k) + [entry] else Above(f, base, parent, k)
    decreases f
  {
    hide Flatten;
    FlattenAt(f, base, parent, k);
    if k != base && f.Dir? && k < Past(f, base) {
      ChainFromAbove(f.children, base + 1, base, k);
    } else if k != base {
      ChainFromAbove(f.rest, Past(f, base), parent, k);
    }
  }

  // ----- The same by index arithmetic alone

  /** The rows from `d` on that are directories whose span reaches over `k`. */
  function Enclosing(table: seq<Entry>, d: nat, k: nat): seq<Entry>
    requires k < |table|
    decreases |table| - d
  {
    if d > k then []
    else if table[d].isDir && k < table[d].last then [table[d]] + Enclosing(table, d + 1, k)
    else Enclosing(table, d + 1, k)
  }

  /** Which rows those are: at increasing indices, each a directory over `k`, and every such directory among them. */
  lemma {:induction false} EnclosingAre(table: seq<Entry>, d: nat, k: nat) returns (at: seq<nat>)
    requires k < |table|
    ensures |at| == |Enclosing(table, d, k)|
    ensures forall i :: 0 <= i < |at| ==>
              d <= at[i] <= k && table[at[i]].isDir && k < table[at[i]].last && Enclosing(table, d, k)[i] == table[at[i]]
    ensures forall i, j :: 0 <= i < j < |at| ==> at[i] < at[j]
    ensures forall e :: d <= e <= k && table[e].isDir && k < table[e].last ==> e in at
    decreases |table| - d
  {
    at := [];
    if d <= k {
      at := EnclosingAre(table, d + 1, k);
      if table[d].isDir && k < table[d].last {
        at := [d] + at;
      }
    }
  }

  lemma EnclosingMoves(table: seq<Entry>, d: nat, k: nat)
    requires d <= k < |table|
    ensures Enclosing(table, d, k) ==
            (if table[d].isDir && k < table[d].last then [table[d]] else []) + Enclosing(table, d + 1, k)
  {
  }

  lemma {:induction false} EnclosingSkips(table: seq<Entry>, from: nat, to: nat, k: nat)
    requires from <= to <= k < |table|
    requires forall d :: from <= d < to ==> !(table[d].isDir && k < table[d].last)
    ensures Enclosing(table, from, k) == Enclosing(table, to, k)
    decreases |table| - from
  {
    hide Enclosing;
    if from < to {
      EnclosingMoves(table, from, k);
      EnclosingSkips(table, from + 1, to, k);
    }
  }

  /** The directories around a node in the tree are those whose index span covers it in the table. */
  lemma {:induction false} ChainEncloses(table: seq<Entry>, f: Forest, base: nat, parent: nat, k: nat)
    requires Holds(table, f, base, parent) && base <= k < base + Count(f)
    ensures Chain(f, base, parent, k) == Enclosing(table, base, k)
    decreases f
  {
    HoldsParts(table, f, base, parent);
    if f.Dir? && base < k < Past(f, base) {
      ChainEncloses(table, f.children, base + 1, base, k);
    } else if k >= Past(f, base) {
      ChainEncloses(table, f.rest, Past(f, base), parent, k);
      forall d | base <= d < Past(f, base)
        ensures !(table[d].isDir && k < table[d].last)
      {
        HeadEndsBefore(table, f, base, parent, d);
      }
      EnclosingSkips(table, base, Past(f, base), k);
    }
  }

  lemma HeadEndsBefore(table: seq<Entry>, f: Forest, base: nat, parent: nat, d: nat)
    requires Holds(table, f, base, parent) && f != Empty && base <= d < Past(f, base)
    ensures table[d].isDir ==> table[d].last <= Past(f, base)
  {
    HoldsParts(table, f, base, parent);
    if d != base {
      var inner := Flatten(f.children, base + 1, base);
      assert table[d] == table[base + 1..base + 1 + Count(f.children)][d - base - 1] == inner[d - base - 1];
      if table[d].isDir {
        FlattenBounds(f.children, base + 1, base, d);
      }
    }
  }

  // ----- A stack of limited depth

  /** The outermost `n` of these directories. */
  function Outermost(dirs: seq<Entry>, n: nat): (r: seq<Entry>)
    ensures |r| <= n && |r| <= |dirs|
  {
    if |dirs| <= n then dirs else dirs[..n]
  }

  /** Inner directories end no later than outer ones, and all of them after `k`. */
  predicate Nested(dirs: seq<Entry>, k: nat) {
    && (forall i, j :: 0 <= i < j < |dirs| ==> dirs[i].last >= dirs[j].last)
    && (forall i :: 0 <= i < |dirs| ==> dirs[i].last > k)
  }

  predicate Within(dirs: seq<Entry>, end: nat) {
    forall i :: 0 <= i < |dirs| ==> dirs[i].last <= end
  }

  lemma ChainMoves(f: Forest, base: nat, parent: nat, k: nat)
    requires base <= k < base + Count(f)
    ensures Chain(f, base, parent, k) ==
            if k == base then if f.Dir? then [HeadEntry(f, base, parent)] else []
            else if f.Dir? && k < Past(f, base) then [HeadEntry(f, base, parent)] + Chain(f.children, base + 1, base, k)
            else Chain(f.rest, Past(f, base), parent, k)
  {
  }

  lemma WithinWider(dirs: seq<Entry>, end: nat, wider: nat)
    requires Within(dirs, end) && end <= wider
    ensures Within(dirs, wider)
  {
  }

  lemma OneNests(dirs: seq<Entry>, k: nat, end: nat)
    requires dirs == [] || (|dirs| == 1 && k < dirs[0].last <= end)
    ensures Nested(dirs, k) && Within(dirs, end)
  {
  }

  lemma {:induction false} ChainNests(f: Forest, base: nat, parent: nat, k: nat)
    requires base <= k < base + Count(f)
    ensures Nested(Chain(f, base, parent, k), k) && Within(Chain(f, base, parent, k), base + Count(f))
    decreases f
  {
    hide Nested, Within, Chain;
    ChainMoves(f, base, parent, k);
    if k != base && f.Dir? && k < Past(f, base) {
      ChainNests(f.children, base + 1, base, k);
      NestsUnder(HeadEntry(f, base, parent), Chain(f.children, base + 1, base, k), k);
      WithinWider(Chain(f, base, parent, k), Past(f, base), base + Count(f));
    } else if k != base {
      ChainNests(f.rest, Past(f, base), parent, k);
    } else {
      OneNests(Chain(f, base, parent, k), k, base + Count(f));
    }
  }

  lemma NestsUnder(outer: Entry, dirs: seq<Entry>, k: nat)
    requires Nested(dirs, k) && Within(dirs, outer.last) && k < outer.last
    ensures Nested([outer] + dirs, k) && Within([outer] + dirs, outer.last)
  {
  }

  /** Popping off the outermost directories leaves the outermost of what popping off all of them leaves. */
  lemma {:induction false} PopEndsOutermost(dirs: seq<Entry>, k: nat, n: nat)
    requires Nested(dirs, k) && n > 0
    ensures PopEnds(Outermost(dirs, n), k + 1) == Outermost(PopEnds(dirs, k + 1), n)
    decreases |dirs|
  {
    if dirs != [] {
      var below := dirs[..|dirs| - 1];
      PopEndsTop(dirs, k + 1);
      PopEndsTop(Outermost(dirs, n), k + 1);
      if dirs[|dirs| - 1].last == k + 1 {
        PopEndsOutermost(below, k, n);
        PopEndsShorter(below, k + 1);
        assert |dirs| > n ==> Outermost(dirs, n) == Outermost(below, n);
      }
    }
  }

  lemma {:induction false} PopEndsShorter(dirs: seq<Entry>, k: nat)
    ensures |PopEnds(dirs, k)| <= |dirs|
    decreases |dirs|
  {
    if dirs != [] && dirs[|dirs| - 1].last == k {
      PopEndsShorter(dirs[..|dirs| - 1], k);
    }
  }

  /** Some node has as many directories around it as the tree is deep. */
  lemma {:induction false} DeepestChain(f: Forest, base: nat, parent: nat) returns (k: nat)
    requires Depth(f) > 0
    ensures base <= k < base + Count(f) && |Chain(f, base, parent, k)| == Depth(f)
    decreases f
  {
    if f.File? || 1 + Depth(f.children) <= Depth(f.rest) {
      k := DeepestChain(f.rest, Past(f, base), parent);
    } else if Depth(f.children) == 0 {
      k := base;
    } else {
      k := DeepestChain(f.children, base + 1, base);
    }
  }
}
