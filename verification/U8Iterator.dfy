/** payload/sp/U8Iterator.{hh,cc}: the preorder walk that keeps a stack of enclosing directories. */
module U8IteratorModule {
  import opened Bytes
  import opened Wrappers
  import opened NodeTable
  import opened U8CursorModule
  import opened CircularBufferModule

  const MAX_DEPTH: nat := 10

  /** Storage, as far as the walk sees it: the names along a path lead to a file's bytes or to nothing. */
  type Storage = seq<nat> -> Option<seq<u8>>

  datatype Item = ErrItem | DirItem | FileItem(node: Entry, hasData: bool)

  function PathOf(dirs: seq<Entry>, file: Entry): seq<nat> {
    seq(|dirs|, i requires 0 <= i < |dirs| => dirs[i].nameOffset) + [file.nameOffset]
  }

  /** What is being walked: root rows to skip, then the table of a tree. */
  datatype Tour = Tour(start: nat, roots: seq<Entry>, tree: Forest, parent: nat) {
    function NodeCount(): nat {
      |roots| + Count(tree)
    }

    function Rows(): (rows: seq<Entry>)
      ensures |rows| == NodeCount()
    {
      roots + Flatten(tree, |roots|, parent)
    }

    /** What `next` takes for a root: a row with name offset 0 or 1. */
    predicate RootLike(k: nat)
      requires k < NodeCount()
    {
      Rows()[k].nameOffset <= 1
    }

    /** Only the leading rows look like roots. */
    predicate WellFormed() {
      && (forall i :: 0 <= i < |roots| ==> roots[i].nameOffset <= 1)
      && (forall i :: |roots| <= i < NodeCount() ==> Rows()[i].nameOffset > 1)
    }

    /** The buffer holds the table, with at least a byte behind it. */
    ghost predicate In(buffer: seq<u8>) {
      && start + NodeCount() * ROW < |buffer|
      && forall i :: 0 <= i < NodeCount() ==> RowAt(buffer, start + i * ROW) == Rows()[i]
    }

    /** The stack after `n` rows have been read, on any table. */
    function StackAt(n: nat): (dirs: seq<Entry>)
      requires n <= NodeCount()
      ensures |dirs| <= MAX_DEPTH
      decreases n, 0
    {
      if n == 0 then []
      else if RootLike(n - 1) then StackAt(n - 1)
      else if Rows()[n - 1].isDir && |Around(n - 1)| < MAX_DEPTH then Around(n - 1) + [Rows()[n - 1]]
      else Around(n - 1)
    }

    /** The stack when row `k` has popped what ends there. */
    function Around(k: nat): (dirs: seq<Entry>)
      requires k < NodeCount()
      ensures |dirs| <= MAX_DEPTH
      decreases k, 1
    {
      PopEndsShorter(StackAt(k), k);
      PopEnds(StackAt(k), k)
    }

    lemma StackMoves(k: nat)
      requires k < NodeCount()
      ensures Around(k) == PopEnds(StackAt(k), k)
      ensures StackAt(k + 1) ==
              if RootLike(k) then StackAt(k)
              else if Rows()[k].isDir && |Around(k)| < MAX_DEPTH then Around(k) + [Rows()[k]] else Around(k)
    {
    }

    lemma FromMoves(k: nat)
      requires k < NodeCount()
      ensures From(k) == if RootLike(k) then From(k + 1) else k
    {
    }

    /** What reaching row `k` yields. */
    function Yield(k: nat, storage: Storage): Item
      requires k < NodeCount()
    {
      var node := Rows()[k];
      if node.isDir then DirItem else FileItem(node, storage(PathOf(Around(k), node)).Some?)
    }

    /** The next row to be yielded once `n` have been read. */
    function From(n: nat): (k: nat)
      requires n <= NodeCount()
      ensures n <= k <= NodeCount() && (k < NodeCount() ==> !RootLike(k))
      decreases NodeCount() - n
    {
      if n < NodeCount() && RootLike(n) then From(n + 1) else n
    }

    /** All rows to be yielded once `n` have been read. */
    function Kept(n: nat): (rows: seq<nat>)
      requires n <= NodeCount()
      ensures forall i :: 0 <= i < |rows| ==> n <= rows[i] < NodeCount()
      decreases NodeCount() - n
    {
      if From(n) == NodeCount() then [] else [From(n)] + Kept(From(n) + 1)
    }

    lemma KeptMoves(n: nat)
      requires n <= NodeCount()
      ensures Kept(n) == if From(n) == NodeCount() then [] else [From(n)] + Kept(From(n) + 1)
    {
    }

    /** They are, in order, exactly the rows that do not look like roots. */
    lemma {:induction false} KeptAre(n: nat)
      requires n <= NodeCount()
      ensures forall i, j :: 0 <= i < j < |Kept(n)| ==> Kept(n)[i] < Kept(n)[j]
      ensures forall k :: n <= k < NodeCount() ==> (k in Kept(n) <==> !RootLike(k))
      decreases NodeCount() - n
    {
      FromSkips(n);
      if From(n) != NodeCount() {
        KeptAre(From(n) + 1);
      }
    }

    lemma {:induction false} FromSkips(n: nat)
      requires n <= NodeCount()
      ensures forall k :: n <= k < From(n) ==> RootLike(k)
      decreases NodeCount() - n
    {
      if n < NodeCount() && RootLike(n) {
        FromSkips(n + 1);
      }
    }

    lemma {:induction false} FromIs(n: nat)
      requires WellFormed() && n <= NodeCount()
      ensures From(n) == if n < |roots| then |roots| else n
      decreases NodeCount() - n
    {
      if n < |roots| {
        assert Rows()[n] == roots[n];
        FromIs(n + 1);
      }
    }

    /** In a well-formed table those are all the rows after the roots. */
    lemma {:induction false} KeptIsAll(n: nat)
      requires WellFormed() && n <= NodeCount()
      ensures var first := if n < |roots| then |roots| else n;
              |Kept(n)| == NodeCount() - first && forall i :: 0 <= i < |Kept(n)| ==> Kept(n)[i] == first + i
      decreases NodeCount() - n
    {
      FromIs(n);
      if From(n) != NodeCount() {
        KeptIsAll(From(n) + 1);
      }
    }

    /** The file data at hand after reaching row `k`, when `data` was at hand before. */
    function DataAfter(k: nat, storage: Storage, data: seq<u8>): seq<u8>
      requires k < NodeCount()
    {
      var found := storage(PathOf(Around(k), Rows()[k]));
      if !Rows()[k].isDir && found.Some? then found.value else data
    }

    lemma {:induction false} NoStackYet(n: nat)
      requires WellFormed() && n <= |roots|
      ensures StackAt(n) == []
      decreases n
    {
      if n != 0 {
        assert Rows()[n - 1] == roots[n - 1];
        NoStackYet(n - 1);
      }
    }

    /** Reading row `k` turns the stack for the row before it into the stack for `k`: the ten outermost directories. */
    lemma {:induction false} StackStep(k: nat)
      requires WellFormed() && |roots| <= k < NodeCount()
      ensures Around(k) == Outermost(Above(tree, |roots|, parent, k), MAX_DEPTH)
      ensures StackAt(k + 1) == Outermost(Chain(tree, |roots|, parent, k), MAX_DEPTH)
      decreases k
    {
      hide PopEnds, Chain, Above, Nested;
      if k == |roots| {
        NoStackYet(k);
        FirstRow();
      } else {
        StackStep(k - 1);
        PopEndsStep(tree, |roots|, parent, k - 1);
        ChainNests(tree, |roots|, parent, k - 1);
        PopEndsOutermost(Chain(tree, |roots|, parent, k - 1), k - 1, MAX_DEPTH);
      }
      ChainFromAbove(tree, |roots|, parent, k);
    }

    /** The stack after reading row `k` holds, outermost first, at most ten of the directory rows whose span covers `k`. */
    lemma StackEncloses(k: nat)
      requires WellFormed() && |roots| <= k < NodeCount()
      ensures StackAt(k + 1) == Outermost(Enclosing(Rows(), |roots|, k), 10)
      ensures |Enclosing(Rows(), |roots|, k)| <= Depth(tree)
    {
      hide Chain, Enclosing, Tour.StackAt;
      StackStep(k);
      assert Rows()[|roots|..|roots| + Count(tree)] == Flatten(tree, |roots|, parent);
      ChainEncloses(Rows(), tree, |roots|, parent, k);
    }

    /**
      What a row of a well-formed table yields. A file is looked up under the name offsets of the at most ten
      outermost directory rows whose span covers it, in order, and then its own.
     */
    lemma LookedUp(k: nat, storage: Storage, path: seq<nat>, data: seq<u8>)
      requires WellFormed() && |roots| <= k < NodeCount()
      requires var dirs := Outermost(Enclosing(Rows(), |roots|, k), 10);
               && |path| == |dirs| + 1 && path[|dirs|] == Rows()[k].nameOffset
               && forall i :: 0 <= i < |dirs| ==> path[i] == dirs[i].nameOffset
      ensures Rows()[k].isDir ==> Yield(k, storage) == DirItem && DataAfter(k, storage, data) == data
      ensures !Rows()[k].isDir ==>
                && Yield(k, storage) == FileItem(Rows()[k], storage(path).Some?)
                && DataAfter(k, storage, data) == if storage(path).Some? then storage(path).value else data
    {
      hide Enclosing, Tour.StackAt, Tour.Around, Flatten;
      StackEncloses(k);
      StackMoves(k);
      if !Rows()[k].isDir {
        assert path == PathOf(Around(k), Rows()[k]);
      }
    }

    /**
      The same of a call that has reached row `k`: what it yields, and the file data at hand before and
      after it.
     */
    ghost predicate Reached(k: nat, storage: Storage, skip: bool, item: Item, before: seq<u8>, after: seq<u8>)
      requires |roots| <= k < NodeCount()
    {
      var row, dirs := Rows()[k], Outermost(Enclosing(Rows(), |roots|, k), 10);
      if row.isDir then item == DirItem && after == before
      else
        forall path | |path| == |dirs| + 1 && path[|dirs|] == row.nameOffset
                      && (forall i :: 0 <= i < |dirs| ==> path[i] == dirs[i].nameOffset) ::
          && item == FileItem(row, storage(path).Some?)
          && after == if !skip && storage(path).Some? then storage(path).value else before
    }

    lemma YieldReaches(k: nat, storage: Storage, skip: bool, before: seq<u8>)
      requires WellFormed() && |roots| <= k < NodeCount()
      ensures Reached(k, storage, skip, Yield(k, storage), before, if skip then before else DataAfter(k, storage, before))
    {
      hide Enclosing, Tour.StackAt, Tour.Around, Flatten, Tour.Yield, Tour.DataAfter, Tour.WellFormed;
      var row, dirs := Rows()[k], Outermost(Enclosing(Rows(), |roots|, k), 10);
      if row.isDir {
        LookedUp(k, storage, seq(|dirs|, i requires 0 <= i < |dirs| => dirs[i].nameOffset) + [row.nameOffset], before);
      } else {
        forall path | |path| == |dirs| + 1 && path[|dirs|] == row.nameOffset
                      && (forall i :: 0 <= i < |dirs| ==> path[i] == dirs[i].nameOffset)
          ensures Yield(k, storage) == FileItem(row, storage(path).Some?)
          ensures DataAfter(k, storage, before) == if storage(path).Some? then storage(path).value else before
        {
          LookedUp(k, storage, path, before);
        }
      }
    }

    predicate StackIsWhole(k: nat)
      requires |roots| <= k < NodeCount()
    {
      StackAt(k + 1) == Enclosing(Rows(), |roots|, k)
    }

    /** The stack is all of them at every row if and only if directories nest at most ten deep. */
    lemma TenPlacesSuffice()
      requires WellFormed()
      ensures (forall k :: |roots| <= k < NodeCount() ==> StackIsWhole(k)) <==> Depth(tree) <= 10
    {
      hide Chain, Enclosing, Tour.StackAt;
      forall k | |roots| <= k < NodeCount()
        ensures StackIsWhole(k) <==> |Enclosing(Rows(), |roots|, k)| <= MAX_DEPTH
        ensures |Enclosing(Rows(), |roots|, k)| <= Depth(tree)
      {
        StackEncloses(k);
      }
      if Depth(tree) > MAX_DEPTH {
        var k := DeepestChain(tree, |roots|, parent);
        assert Rows()[|roots|..|roots| + Count(tree)] == Flatten(tree, |roots|, parent);
        ChainEncloses(Rows(), tree, |roots|, parent, k);
        assert !StackIsWhole(k);
      }
    }

    lemma FirstRow()
      requires Count(tree) > 0
      ensures PopEnds([], |roots|) == [] == Above(tree, |roots|, parent, |roots|)
    {
    }
  }

  class U8Iterator {
    var iteration: nat
    const nodeCount: nat
    const dirStack: CircularBuffer<Entry>
    const cursor: U8Cursor
    const storage: Storage
    var fileOut: seq<u8>

    constructor (cursor: U8Cursor, nodeCount: nat, storage: Storage)
      ensures this.cursor == cursor && this.nodeCount == nodeCount && this.storage == storage
      ensures iteration == 0 && fresh(dirStack) && fresh(dirStack.vals)
      ensures dirStack.Valid() && dirStack.Contents() == [] && dirStack.vals.Length == MAX_DEPTH
    {
      this.cursor, this.nodeCount, this.storage, iteration, fileOut := cursor, nodeCount, storage, 0, [];
      dirStack := new CircularBuffer(MAX_DEPTH);
    }

    /** The walk stands after `iteration` rows of `tour`. */
    ghost predicate On(tour: Tour): (on: bool)
      reads this, dirStack, dirStack.vals, cursor, cursor.buffer
      ensures on ==> nodeCount == tour.NodeCount() && iteration <= nodeCount
    {
      && nodeCount == tour.NodeCount() && tour.In(cursor.buffer[..])
      && iteration <= nodeCount && cursor.pos == tour.start + iteration * ROW
      && dirStack.Valid() && dirStack.vals.Length == MAX_DEPTH
      && dirStack.Contents() == tour.StackAt(iteration)
    }

    method Reset(startPos: nat)
      requires dirStack.Valid()
      modifies this`iteration, dirStack, cursor
      ensures iteration == 0 && cursor.pos == startPos && dirStack.Valid() && dirStack.Contents() == []
    {
      iteration := 0;
      dirStack.Reset();
      cursor.SetPosition(startPos);
    }

    /** Pops every directory that ends at the row just read. */
    method PopClosed()
      requires dirStack.Valid() && iteration > 0
      modifies dirStack, dirStack.vals
      ensures dirStack.Valid() && dirStack.Contents() == PopEnds(old(dirStack.Contents()), iteration - 1)
    {
      hide PopEnds;
      if dirStack.size != 0 {
        var i := dirStack.size as int - 1;
        while i != -1
          invariant -1 <= i && dirStack.Valid() && |dirStack.Contents()| == i + 1
          invariant PopEnds(dirStack.Contents(), iteration - 1) == PopEnds(old(dirStack.Contents()), iteration - 1)
          decreases i
        {
          ghost var dirs := dirStack.Contents();
          var currentDir := dirStack.Back();
          PopEndsTop(dirs, iteration - 1);
          if currentDir.value.last == iteration - 1 {
            dirStack.Remove(dirStack.size - 1);
            assert dirStack.Contents() == dirs[..|dirs| - 1];
          } else {
            break;
          }
          i := i - 1;
        }
        PopEndsTop(dirStack.Contents(), iteration - 1);
      } else {
        PopEndsTop(dirStack.Contents(), iteration - 1);
      }
    }

    /**
      `next`, on any table: passes over rows that look like roots, then yields the next row and leaves the
      stack as that row leaves it.
     */
    method Next(skipReadingFile: bool, ghost tour: Tour) returns (item: Option<Item>)
      requires On(tour)
      modifies this, dirStack, dirStack.vals, cursor
      ensures On(tour)
      ensures tour.From(old(iteration)) == nodeCount ==>
                item == None && iteration == nodeCount && fileOut == old(fileOut)
      ensures tour.From(old(iteration)) < nodeCount ==>
                var k := tour.From(old(iteration));
                && item == Some(tour.Yield(k, storage)) && iteration == k + 1
                && fileOut == if skipReadingFile then old(fileOut) else tour.DataAfter(k, storage, old(fileOut))
      ensures item == None ==>
                iteration == nodeCount && forall j :: old(iteration) <= j < nodeCount ==> tour.Rows()[j].nameOffset <= 1
      ensures item != None ==>
                && old(iteration) < iteration <= nodeCount && tour.Rows()[iteration - 1].nameOffset > 1
                && forall j :: old(iteration) <= j < iteration - 1 ==> tour.Rows()[j].nameOffset <= 1
      ensures item != None && tour.WellFormed() && |tour.roots| < iteration <= nodeCount ==>
                tour.Reached(iteration - 1, storage, skipReadingFile, item.value, old(fileOut), fileOut)
      decreases nodeCount - iteration
    {
      hide Flatten, PopEnds, RowAt, Tour.StackAt, Tour.Around, Tour.From, Tour.Rows, Tour.Reached, Tour.WellFormed, Enclosing, Tour.Yield, Tour.DataAfter;
      if iteration == nodeCount {
        return None;
      }
      ghost var k := iteration;
      if tour.WellFormed() && |tour.roots| <= k && !tour.RootLike(k) {
        tour.YieldReaches(k, storage, skipReadingFile, fileOut);
      }
      tour.StackMoves(k);
      tour.FromMoves(k);
      iteration := iteration + 1;
      var read := cursor.ReadNode();
      if read == None {
        return Some(ErrItem);
      }
      var node := read.value;
      assert node == tour.Rows()[k];
      if node.nameOffset == 0 || node.nameOffset == 1 {
        item := Next(skipReadingFile, tour);
        return;
      }
      var reached := YieldRow(node, skipReadingFile, tour, k);
      return Some(reached);
    }

    /** The rest of `next`, for a row that does not look like a root. */
    method YieldRow(node: Entry, skipReadingFile: bool, ghost tour: Tour, ghost k: nat) returns (item: Item)
      requires k < tour.NodeCount() && node == tour.Rows()[k] && !tour.RootLike(k) && iteration == k + 1
      requires dirStack.Valid() && dirStack.vals.Length == MAX_DEPTH && dirStack.Contents() == tour.StackAt(k)
      modifies this`fileOut, dirStack, dirStack.vals
      ensures dirStack.Valid() && dirStack.Contents() == tour.StackAt(k + 1)
      ensures item == tour.Yield(k, storage)
      ensures fileOut == if skipReadingFile then old(fileOut) else tour.DataAfter(k, storage, old(fileOut))
    {
      hide Flatten, PopEnds, Tour.StackAt, Tour.Around, Tour.Rows;
      tour.StackMoves(k);
      PopClosed();
      if node.isDir {
        var pushed := dirStack.PushBack(node);
        return DirItem;
      }
      var path := GetPath(node);
      var file := storage(path);
      var hasData := false;
      if file.Some? {
        hasData := true;
        if !skipReadingFile {
          fileOut := file.value;
        }
      }
      return FileItem(node, hasData);
    }

    /**
      The loop of a whole walk, on any table: every row that does not look like a root is yielded exactly
      once and in order. In a well-formed table those are all the rows after the roots.
     */
    method WalkAll(skipReadingFile: bool, ghost tour: Tour) returns (items: seq<Item>)
      requires On(tour) && iteration == 0
      modifies this, dirStack, dirStack.vals, cursor
      ensures On(tour) && |items| == |tour.Kept(0)|
      ensures forall i :: 0 <= i < |items| ==> items[i] == tour.Yield(tour.Kept(0)[i], storage)
      ensures tour.WellFormed() ==>
                && |items| == nodeCount - |tour.roots|
                && forall i :: 0 <= i < |items| ==> items[i] == tour.Yield(|tour.roots| + i, storage)
    {
      hide Tour.Yield, Tour.From, Tour.Kept, Tour.WellFormed, U8Iterator.On;
      if tour.WellFormed() {
        tour.KeptIsAll(0);
      }
      items := [];
      ghost var kept := tour.Kept(0);
      while true
        invariant On(tour) && |items| <= |kept| && kept[|items|..] == tour.Kept(iteration)
        invariant forall i :: 0 <= i < |items| ==> items[i] == tour.Yield(kept[i], storage)
        decreases nodeCount - iteration
      {
        ghost var k := tour.From(iteration);
        tour.KeptMoves(iteration);
        assert k < nodeCount ==> kept[|items|..][0] == k && kept[|items|..][1..] == kept[|items| + 1..];
        var item := Next(skipReadingFile, tour);
        if item.None? {
          break;
        }
        items := items + [item.value];
      }
    }

    /** `getPath`, without its text formatting. */
    method GetPath(node: Entry) returns (path: seq<nat>)
      requires dirStack.Valid()
      ensures path == PathOf(dirStack.Contents(), node)
      ensures |path| == |dirStack.Contents()| + 1 && path[|path| - 1] == node.nameOffset
      ensures forall i :: 0 <= i < |dirStack.Contents()| ==> path[i] == dirStack.Contents()[i].nameOffset
    {
      path := [];
      var i := 0;
      while i < dirStack.size
        invariant i <= dirStack.size && |path| == i
        invariant forall j :: 0 <= j < i ==> path[j] == dirStack.Contents()[j].nameOffset
      {
        var dir := dirStack.Get(i);
        path := path + [dir.nameOffset];
        i := i + 1;
      }
      path := path + [node.nameOffset];
    }
  }
}
