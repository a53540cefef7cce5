/** payload/revolution/dvd.c: opening a directory of the disc's FST and reading its entries. */
module Dvd {
  import opened NodeTable
  import opened Wrappers

  datatype DirEntry = DirEntry(entryNum: nat, isDir: bool, nameOffset: nat)

  class DVDDir {
    var entryNum: nat
    var location: nat
    var next: nat

    constructor ()
    {
    }
  }

  /** `DVDFastOpenDir`: fails on a negative or too large entry number and on a file. */
  method FastOpenDir(table: seq<Entry>, entrynum: int, dir: DVDDir) returns (ok: bool)
    modifies dir
    ensures ok == (0 <= entrynum < |table| && table[entrynum].isDir)
    ensures ok ==> dir.entryNum == entrynum && dir.location == entrynum + 1 && dir.next == table[entrynum].last
    ensures !ok ==> unchanged(dir)
  {
    if entrynum < 0 {
      return false;
    }
    if entrynum >= |table| {
      return false;
    }
    if !table[entrynum].isDir {
      return false;
    }
    dir.entryNum := entrynum;
    dir.location := entrynum + 1;
    dir.next := table[entrynum].last;
    return true;
  }

  /** `DVDReadDir`, which needs the directory's range to lie in the table. */
  method ReadDir(table: seq<Entry>, dir: DVDDir) returns (dirent: Option<DirEntry>)
    requires dir.next <= |table|
    modifies dir`location
    ensures dirent.None? <==> old(dir.location) <= dir.entryNum || old(dir.location) >= dir.next
    ensures dirent.None? ==> dir.location == old(dir.location)
    ensures dirent.Some? ==>
              var entry := table[old(dir.location)];
              && dirent.value == DirEntry(old(dir.location), entry.isDir, entry.nameOffset)
              && dir.location == if entry.isDir then entry.last else old(dir.location) + 1
  {
    if dir.location <= dir.entryNum {
      return None;
    }
    if dir.location >= dir.next {
      return None;
    }
    var entry := table[dir.location];
    dirent := Some(DirEntry(dir.location, entry.isDir, entry.nameOffset));
    if entry.isDir {
      dir.location := entry.last;
    } else {
      dir.location := dir.location + 1;
    }
  }

  /** One step of a listing, as `ReadDir` moves through the table, lands on the next sibling. */
  lemma ReadDirStep(table: seq<Entry>, f: Forest, base: nat, parent: nat)
    requires Holds(table, f, base, parent) && f != Empty
    ensures base < |table|
    ensures (if table[base].isDir then table[base].last else base + 1) == Past(f, base)
  {
    HoldsParts(table, f, base, parent);
  }

  /** What is left of a listing: nothing, or a node and what is left after it. */
  lemma ListStep(table: seq<Entry>, f: Forest, base: nat, parent: nat)
    requires Holds(table, f, base, parent)
    ensures f == Empty ==> Count(f) == 0 && TopLevel(f, base) == []
    ensures f != Empty ==>
              && base < |table| && TopLevel(f, base) == [base] + TopLevel(f.rest, Past(f, base))
              && (if table[base].isDir then table[base].last else base + 1) == Past(f, base) > base
              && Holds(table, f.rest, Past(f, base), parent) && Past(f, base) + Count(f.rest) == base + Count(f)
  {
    hide Flatten, Holds;
    if f != Empty {
      HoldsParts(table, f, base, parent);
      ReadDirStep(table, f, base, parent);
    }
  }

  /**
    Reading a directory until nothing is left yields each of its direct children exactly once, in
    order, for any directory of any tree the table holds.
   */
  method ListDir(table: seq<Entry>, ghost f: Forest, ghost base: nat, ghost parent: nat, entrynum: nat)
    returns (listing: seq<DirEntry>)
    requires Holds(table, f, base, parent) && base <= entrynum && DirAt(f, base, entrynum).Some?
    ensures var children := TopLevel(DirAt(f, base, entrynum).value, entrynum + 1);
            && |listing| == |children|
            && forall i :: 0 <= i < |children| ==>
                 children[i] < |table| && listing[i] == DirEntry(children[i], table[children[i]].isDir, table[children[i]].nameOffset)
  {
    hide Flatten, Holds, DirAt, TopLevel, Count, Past, HeadEntry;
    var dir := new DVDDir();
    DirAtHolds(table, f, base, parent, entrynum);
    var ok := FastOpenDir(table, entrynum, dir);
    ghost var left := DirAt(f, base, entrynum).value;
    ghost var children := TopLevel(left, entrynum + 1);
    listing := [];
    while true
      invariant dir.entryNum == entrynum < dir.location && dir.next <= |table|
      invariant Holds(table, left, dir.location, entrynum) && dir.location + Count(left) == dir.next
      invariant |listing| <= |children| && children[|listing|..] == TopLevel(left, dir.location)
      invariant forall i :: 0 <= i < |listing| ==>
                  children[i] < |table| && listing[i] == DirEntry(children[i], table[children[i]].isDir, table[children[i]].nameOffset)
      decreases Count(left)
    {
      ghost var location := dir.location;
      ListStep(table, left, location, entrynum);
      var dirent := ReadDir(table, dir);
      if dirent.None? {
        return;
      }
      assert children[|listing|..][0] == location;
      assert children[|listing|..][1..] == children[|listing| + 1..];
      listing := listing + [dirent.value];
      left := left.rest;
    }
  }
}
