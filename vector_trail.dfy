/**
  The trail of stored double vectors (StoredDoubleVectorTrail).

  Every write to an element of a stored double vector that is the first one in
  the current world saves the element's former value and stamp here. The trail is
  four parallel arrays (vector, index, old value, old stamp) filled up to
  `currentLevel`, plus the level at which each world started. Popping a world
  replays its entries in reverse order; committing a world merges it into its
  parent and drops the entries the parent no longer needs.

  The vectors themselves are a map from (vector, index) to (value, stamp); the
  double payload is only copied, so it is kept as its 64-bit pattern.
 */
module VectorTrail {
  import opened Trailing

  /** The bit pattern of a Java `double`; the trail never computes with it. */
  type Double = bv64

  /** An element of a stored vector: the vector's identity and the index in it. */
  datatype Cell = Cell(vector: int, index: int)

  /** What a cell holds: its value and the world it was last written in. */
  datatype Stored = Stored(value: Double, stamp: int)

  /** One trail entry: the cell and what it held before the write. */
  datatype Entry = Entry(cell: Cell, saved: Stored)

  type Cells = map<Cell, Stored>

  /** The elements of all stored double vectors of the environment. */
  class DoubleVectorStore {
    var cells: Cells

    constructor (init: Cells)
      ensures cells == init
    {
      cells := init;
    }

    /** StoredDoubleVector._set: installs value and stamp without trailing. */
    method RawSet(c: Cell, v: Double, w: int)
      modifies this
      ensures cells == old(cells)[c := Stored(v, w)]
    {
      cells := cells[c := Stored(v, w)];
    }

    /** The write `worldStamps[idx] = w` on the element's vector. */
    method SetStamp(c: Cell, w: int)
      requires c in cells
      modifies this
      ensures cells == old(cells)[c := old(cells)[c].(stamp := w)]
    {
      cells := cells[c := cells[c].(stamp := w)];
    }
  }

  // ---------------------------------------------------------------------------
  // Specification functions
  // ---------------------------------------------------------------------------

  /** Replays one entry: the cell gets back what it held before the write. */
  function Restore(cells: Cells, e: Entry): Cells
  {
    cells[e.cell := e.saved]
  }

  /** Replays entries from the last to the first, as popping a world does. */
  function Undo(cells: Cells, es: seq<Entry>): Cells
    decreases |es|
  {
    if es == [] then cells
    else Undo(Restore(cells, es[|es| - 1]), es[..|es| - 1])
  }

  /** The cells some entry mentions. */
  function Touched(es: seq<Entry>): set<Cell>
  {
    set i | 0 <= i < |es| :: es[i].cell
  }

  /** Entry `i` is the earliest one of its cell. */
  ghost predicate IsEarliest(es: seq<Entry>, i: int)
    requires 0 <= i < |es|
  {
    forall j :: 0 <= j < i ==> es[j].cell != es[i].cell
  }

  /** The entries kept by a commit into world `prev`: those whose saved stamp is not `prev`. */
  function Compact(es: seq<Entry>, prev: int): seq<Entry>
    decreases |es|
  {
    if es == [] then []
    else
      var last := es[|es| - 1];
      Compact(es[..|es| - 1], prev) + (if last.saved.stamp != prev then [last] else [])
  }

  /** Stamps the cell with `w`, keeping its value. */
  function StampCell(cells: Cells, c: Cell, w: int): Cells
  {
    if c in cells then cells[c := cells[c].(stamp := w)] else cells
  }

  /** Stamps every cell the entries mention with `prev`, in entry order, as a commit does. */
  function Restamp(cells: Cells, es: seq<Entry>, prev: int): Cells
    decreases |es|
  {
    if es == [] then cells
    else StampCell(Restamp(cells, es[..|es| - 1], prev), es[|es| - 1].cell, prev)
  }

  /**
    The write `set` of a stored vector element (StoredDoubleVector.set is not part
    of this model; its protocol is the one every backtrackable cell follows): the
    former (value, stamp) is saved when the element was not yet written in world
    `w`, then the element holds `v` stamped `w`.
   */
  function TrailedWrite(cells: Cells, es: seq<Entry>, c: Cell, v: Double, w: int): (r: (Cells, seq<Entry>))
    requires c in cells
    ensures r.0.Keys == cells.Keys
  {
    var saved := if cells[c].stamp != w then es + [Entry(c, cells[c])] else es;
    (cells[c := Stored(v, w)], saved)
  }

  /** A sequence of trailed writes in world `w`, first to last. */
  function TrailedWrites(cells: Cells, es: seq<Entry>, writes: seq<(Cell, Double)>, w: int): (r: (Cells, seq<Entry>))
    requires forall k :: 0 <= k < |writes| ==> writes[k].0 in cells
    ensures r.0.Keys == cells.Keys
    decreases |writes|
  {
    if writes == [] then (cells, es)
    else
      var next := TrailedWrite(cells, es, writes[0].0, writes[0].1, w);
      TrailedWrites(next.0, next.1, writes[1..], w)
  }

  // ---------------------------------------------------------------------------
  // The trail
  // ---------------------------------------------------------------------------

  /** `new T[n]` filled with `fill` followed by `System.arraycopy(a, 0, b, 0, a.length)`. */
  method CopyOf<T>(a: array<T>, n: nat, fill: T) returns (b: array<T>)
    requires a.Length <= n
    ensures fresh(b) && b.Length == n
    ensures forall k :: 0 <= k < a.Length ==> b[k] == a[k]
    ensures forall k :: a.Length <= k < n ==> b[k] == fill
  {
    b := new T[n](_ => fill);
    var k := 0;
    while k < a.Length
      invariant 0 <= k <= a.Length
      invariant forall j :: 0 <= j < k ==> b[j] == a[j]
      invariant forall j :: a.Length <= j < n ==> b[j] == fill
    {
      b[k] := a[k];
      k := k + 1;
    }
  }

  class StoredDoubleVectorTrail {
    const environment: EnvironmentTrailing
    var vectorStack: array<int>
    var indexStack: array<int>
    var valueStack: array<Double>
    var stampStack: array<int>
    /** Number of entries in use. */
    var currentLevel: nat
    /** Level at which each world started. */
    var worldStartLevels: array<int>
    /** Capacity of the four entry arrays. */
    var maxUpdates: nat

    /** The entries in use, oldest first. */
    ghost var entries: seq<Entry>

    /** Entry `i` as stored in the four parallel arrays. */
    ghost function EntryAt(i: int): Entry
      reads this`vectorStack, this`indexStack, this`valueStack, this`stampStack
      reads vectorStack, indexStack, valueStack, stampStack
      requires 0 <= i < vectorStack.Length && i < indexStack.Length
      requires i < valueStack.Length && i < stampStack.Length
    {
      Entry(Cell(vectorStack[i], indexStack[i]), Stored(valueStack[i], stampStack[i]))
    }

    /** The five arrays are distinct objects. */
    ghost predicate Separate()
      reads this
    {
      && vectorStack != indexStack && vectorStack != stampStack && indexStack != stampStack
      && worldStartLevels != vectorStack && worldStartLevels != indexStack && worldStartLevels != stampStack
      && valueStack as object != vectorStack && valueStack as object != indexStack
      && valueStack as object != stampStack && valueStack as object != worldStartLevels
    }

    /** Copies entry `src` over entry `dst`, leaving every other position as it was. */
    method MoveEntry(src: nat, dst: nat)
      requires Separate()
      requires src < vectorStack.Length && src < indexStack.Length
      requires src < valueStack.Length && src < stampStack.Length
      requires dst < vectorStack.Length && dst < indexStack.Length
      requires dst < valueStack.Length && dst < stampStack.Length
      modifies vectorStack, indexStack, valueStack, stampStack
      ensures EntryAt(dst) == old(EntryAt(src))
      ensures forall i ::
                (0 <= i < vectorStack.Length && i < indexStack.Length && i < valueStack.Length
                 && i < stampStack.Length && i != dst) ==> EntryAt(i) == old(EntryAt(i))
    {
      var v, idx, val, stamp := vectorStack[src], indexStack[src], valueStack[src], stampStack[src];
      valueStack[dst] := val;
      indexStack[dst] := idx;
      vectorStack[dst] := v;
      stampStack[dst] := stamp;
    }

    /** The arrays agree with `entries`; holds between the write and the resize of `savePreviousState`. */
    ghost predicate Consistent()
      reads this, vectorStack, indexStack, valueStack, stampStack, worldStartLevels
    {
      && vectorStack.Length == maxUpdates && indexStack.Length == maxUpdates
      && valueStack.Length == maxUpdates && stampStack.Length == maxUpdates
      && Separate()
      && currentLevel <= maxUpdates
      && |entries| == currentLevel
      && (forall i :: 0 <= i < currentLevel ==> entries[i] == EntryAt(i))
      && (forall w :: 0 <= w < worldStartLevels.Length ==> 0 <= worldStartLevels[w])
    }

    /** The trail's invariant between operations: there is always room for the next entry. */
    ghost predicate Valid()
      reads this, vectorStack, indexStack, valueStack, stampStack, worldStartLevels
    {
      Consistent() && 2 <= maxUpdates && currentLevel < maxUpdates
    }

    /** World starts as a sequence. */
    ghost function Starts(): seq<int>
      reads this, worldStartLevels
    {
      worldStartLevels[..]
    }

    constructor (env: EnvironmentTrailing, nUpdates: nat, nWorlds: nat)
      requires 2 <= nUpdates
      ensures Valid() && environment == env
      ensures entries == [] && maxUpdates == nUpdates
      ensures Starts() == seq(nWorlds, _ => 0)
      ensures fresh(vectorStack) && fresh(indexStack) && fresh(valueStack) && fresh(stampStack)
      ensures fresh(worldStartLevels)
    {
      environment := env;
      currentLevel := 0;
      maxUpdates := nUpdates;
      vectorStack := new int[nUpdates];
      indexStack := new int[nUpdates];
      valueStack := new Double[nUpdates];
      stampStack := new int[nUpdates];
      worldStartLevels := new int[nWorlds](_ => 0);
      entries := [];
    }

    /** Records that element `index` of vector `vect` held `oldValue` stamped `oldStamp`. */
    method SavePreviousState(vect: int, index: int, oldValue: Double, oldStamp: int)
      requires Valid()
      modifies this, vectorStack, indexStack, valueStack, stampStack
      ensures Valid()
      ensures entries == old(entries) + [Entry(Cell(vect, index), Stored(oldValue, oldStamp))]
      ensures maxUpdates == if old(currentLevel) + 1 == old(maxUpdates)
                            then old(maxUpdates) * 3 / 2 else old(maxUpdates)
      ensures worldStartLevels == old(worldStartLevels) && Starts() == old(Starts())
      ensures vectorStack == old(vectorStack) || fresh(vectorStack)
      ensures indexStack == old(indexStack) || fresh(indexStack)
      ensures valueStack == old(valueStack) || fresh(valueStack)
      ensures stampStack == old(stampStack) || fresh(stampStack)
    {
      vectorStack[currentLevel] := vect;
      indexStack[currentLevel] := index;
      stampStack[currentLevel] := oldStamp;
      valueStack[currentLevel] := oldValue;
      currentLevel := currentLevel + 1;
      entries := entries + [Entry(Cell(vect, index), Stored(oldValue, oldStamp))];
      if currentLevel == maxUpdates {
        ResizeUpdateCapacity();
      }
    }

    /** Grows the four entry arrays to `(maxUpdates * 3) / 2`, keeping every entry. */
    method ResizeUpdateCapacity()
      requires Consistent() && 2 <= maxUpdates && currentLevel == maxUpdates
      modifies this
      ensures Valid()
      ensures maxUpdates == old(maxUpdates) * 3 / 2
      ensures entries == old(entries) && currentLevel == old(currentLevel)
      ensures worldStartLevels == old(worldStartLevels)
      ensures fresh(vectorStack) && fresh(indexStack) && fresh(valueStack) && fresh(stampStack)
    {
      var newCapacity := (maxUpdates * 3) / 2;
      vectorStack := CopyOf(vectorStack, newCapacity, 0);
      valueStack := CopyOf(valueStack, newCapacity, 0);
      stampStack := CopyOf(stampStack, newCapacity, 0);
      indexStack := CopyOf(indexStack, newCapacity, 0);
      maxUpdates := newCapacity;
    }

    /** Grows the array of world starts to `newWorldCapacity`, keeping every recorded start. */
    method ResizeWorldCapacity(newWorldCapacity: nat)
      requires Valid() && worldStartLevels.Length <= newWorldCapacity
      modifies this
      ensures Valid()
      ensures fresh(worldStartLevels) && worldStartLevels.Length == newWorldCapacity
      ensures Starts()[..old(worldStartLevels.Length)] == old(Starts())
      ensures forall w :: old(worldStartLevels.Length) <= w < newWorldCapacity ==> worldStartLevels[w] == 0
      ensures entries == old(entries) && currentLevel == old(currentLevel) && maxUpdates == old(maxUpdates)
      ensures vectorStack == old(vectorStack) && indexStack == old(indexStack)
      ensures valueStack == old(valueStack) && stampStack == old(stampStack)
    {
      worldStartLevels := CopyOf(worldStartLevels, newWorldCapacity, 0);
    }

    /** Entering world `worldIndex`: its start is the current level. */
    method WorldPush(worldIndex: int)
      requires Valid() && 0 <= worldIndex < worldStartLevels.Length
      modifies worldStartLevels
      ensures Valid()
      ensures Starts() == old(Starts())[worldIndex := currentLevel]
    {
      worldStartLevels[worldIndex] := currentLevel;
    }

    /**
      Leaving world `worldIndex`: every entry from the world's start on is replayed,
      last first, and dropped.
     */
    method WorldPop(worldIndex: int, vectors: DoubleVectorStore)
      requires Valid() && 0 <= worldIndex < worldStartLevels.Length
      modifies this, vectors
      ensures Valid()
      ensures currentLevel == if old(currentLevel) > old(worldStartLevels[worldIndex])
                              then old(worldStartLevels[worldIndex]) else old(currentLevel)
      ensures entries == old(entries)[..currentLevel]
      ensures vectors.cells == Undo(old(vectors.cells), old(entries)[currentLevel..])
      ensures maxUpdates == old(maxUpdates) && worldStartLevels == old(worldStartLevels)
      ensures vectorStack == old(vectorStack) && indexStack == old(indexStack)
      ensures valueStack == old(valueStack) && stampStack == old(stampStack)
    {
      var wsl := worldStartLevels[worldIndex];
      ghost var es0 := entries;
      ghost var cells0 := vectors.cells;
      ghost var bottom := if currentLevel > wsl then wsl else currentLevel;
      var level := currentLevel;
      assert es0[bottom..level] == es0[bottom..];
      while level > wsl
        modifies vectors
        invariant bottom <= level <= |es0|
        invariant level > wsl || level == bottom
        invariant Undo(vectors.cells, es0[bottom..level]) == Undo(cells0, es0[bottom..])
        decreases level
      {
        level := level - 1;
        assert es0[level] == EntryAt(level);
        UndoStep(vectors.cells, es0, bottom, level);
        vectors.RawSet(Cell(vectorStack[level], indexStack[level]), valueStack[level], stampStack[level]);
      }
      currentLevel := level;
      entries := es0[..level];
    }

    /**
      Commits the current world into its parent `prev`: the entries since the
      world's start whose saved stamp is `prev` are dropped (the parent already
      holds that state), the others are moved down in order, and every cell an
      entry of the world mentions is stamped `prev`.
     */
    method WorldCommit(vectors: DoubleVectorStore)
      requires Valid()
      requires 0 <= environment.worldIndex < worldStartLevels.Length
      requires worldStartLevels[environment.worldIndex] <= currentLevel
      requires Touched(entries) <= vectors.cells.Keys
      modifies this, vectorStack, indexStack, valueStack, stampStack, vectors
      ensures Valid()
      ensures var start := old(worldStartLevels[environment.worldIndex]);
              var prev := environment.worldIndex - 1;
              && entries == old(entries)[..start] + Compact(old(entries)[start..], prev)
              && vectors.cells == Restamp(old(vectors.cells), old(entries)[start..], prev)
      ensures maxUpdates == old(maxUpdates) && worldStartLevels == old(worldStartLevels)
      ensures vectorStack == old(vectorStack) && indexStack == old(indexStack)
      ensures valueStack == old(valueStack) && stampStack == old(stampStack)
    {
      var startLevel := worldStartLevels[environment.worldIndex];
      var prevWorld := environment.worldIndex - 1;
      ghost var es0 := entries;
      ghost var cells0 := vectors.cells;
      var writeIdx;
      ghost var kept;
      writeIdx, kept := ScanWorld(startLevel, prevWorld, vectors);
      ghost var restamped := Restamp(cells0, es0[startLevel..], prevWorld);
      assert vectors.cells == restamped;
      currentLevel := writeIdx;
      entries := es0[..startLevel] + kept;
    }

    /**
      The state of `worldCommit`'s scan after the entries before `level`: the
      positions before `startLevel` and from `level` on hold their entries, and the
      kept entries of `[startLevel, level)` sit at `[startLevel, writeIdx)`.
     */
    ghost predicate Scanned(startLevel: int, level: int, writeIdx: int, kept: seq<Entry>, prev: int)
      reads this, vectorStack, indexStack, valueStack, stampStack
    {
      && 0 <= startLevel <= writeIdx <= level <= currentLevel == |entries|
      && currentLevel <= vectorStack.Length && currentLevel <= indexStack.Length
      && currentLevel <= valueStack.Length && currentLevel <= stampStack.Length
      && kept == Compact(entries[startLevel..level], prev)
      && writeIdx - startLevel == |kept|
      && (forall i :: 0 <= i < startLevel ==> EntryAt(i) == entries[i])
      && (forall i :: level <= i < currentLevel ==> EntryAt(i) == entries[i])
      && (forall i :: startLevel <= i < writeIdx ==> EntryAt(i) == kept[i - startLevel])
    }

    /**
      The scan of `worldCommit` from `startLevel`: stamps every mentioned cell with
      `prevWorld` and moves the entries it keeps down to `startLevel` onwards.
     */
    method ScanWorld(startLevel: nat, prevWorld: int, vectors: DoubleVectorStore)
      returns (writeIdx: nat, ghost kept: seq<Entry>)
      requires Valid() && startLevel <= currentLevel
      requires Touched(entries) <= vectors.cells.Keys
      modifies vectorStack, indexStack, valueStack, stampStack, vectors
      ensures kept == Compact(entries[startLevel..], prevWorld)
      ensures vectors.cells == Restamp(old(vectors.cells), entries[startLevel..], prevWorld)
      ensures writeIdx == startLevel + |kept| <= currentLevel
      ensures forall i :: 0 <= i < writeIdx ==> EntryAt(i) == (entries[..startLevel] + kept)[i]
    {
      writeIdx := startLevel;
      ghost var cells0 := vectors.cells;
      kept := [];
      var level := startLevel;
      while level < currentLevel
        invariant Separate() && level <= currentLevel
        invariant Scanned(startLevel, level, writeIdx, kept, prevWorld)
        invariant vectors.cells == Restamp(cells0, entries[startLevel..level], prevWorld)
      {
        writeIdx, kept := ScanEntry(startLevel, level, writeIdx, kept, prevWorld, vectors, cells0);
        level := level + 1;
      }
      assert entries[startLevel..level] == entries[startLevel..];
      forall i | 0 <= i < writeIdx ensures EntryAt(i) == (entries[..startLevel] + kept)[i] {
        if i < startLevel {
          assert (entries[..startLevel] + kept)[i] == entries[i];
        } else {
          assert (entries[..startLevel] + kept)[i] == kept[i - startLevel];
        }
      }
    }

    /** One iteration of the scan: the entry at `level`. */
    method ScanEntry(startLevel: nat, level: nat, writeIdx: nat, ghost kept: seq<Entry>, prevWorld: int,
                     vectors: DoubleVectorStore, ghost cells0: Cells)
      returns (writeIdx': nat, ghost kept': seq<Entry>)
      requires Separate() && level < currentLevel
      requires Scanned(startLevel, level, writeIdx, kept, prevWorld)
      requires Touched(entries) <= cells0.Keys
      requires vectors.cells == Restamp(cells0, entries[startLevel..level], prevWorld)
      modifies vectorStack, indexStack, valueStack, stampStack, vectors
      ensures Scanned(startLevel, level + 1, writeIdx', kept', prevWorld)
      ensures vectors.cells == Restamp(cells0, entries[startLevel..level + 1], prevWorld)
    {
      var v := vectorStack[level];
      var idx := indexStack[level];
      assert EntryAt(level) == entries[level];
      CommitStep(cells0, entries, startLevel, level, prevWorld);
      RestampSpec(cells0, entries[startLevel..level], prevWorld, entries[level].cell);
      assert entries[level].cell in cells0 by {
        assert entries[level].cell in Touched(entries);
      }
      vectors.SetStamp(Cell(v, idx), prevWorld);
      writeIdx', kept' := KeepEntry(startLevel, level, writeIdx, kept, prevWorld);
    }

    /** The compaction half of one iteration: the entry at `level` moves down to `writeIdx` when its saved stamp is not `prevWorld`. */
    method KeepEntry(startLevel: nat, level: nat, writeIdx: nat, ghost kept: seq<Entry>, prevWorld: int)
      returns (writeIdx': nat, ghost kept': seq<Entry>)
      requires Separate() && level < currentLevel
      requires Scanned(startLevel, level, writeIdx, kept, prevWorld)
      modifies vectorStack, indexStack, valueStack, stampStack
      ensures Scanned(startLevel, level + 1, writeIdx', kept', prevWorld)
    {
      var stamp := stampStack[level];
      assert EntryAt(level) == entries[level];
      CommitStep(map[], entries, startLevel, level, prevWorld);
      writeIdx', kept' := writeIdx, kept;
      if stamp != prevWorld {
        if writeIdx != level {
          MoveEntry(level, writeIdx);
        }
        writeIdx' := writeIdx + 1;
        kept' := kept + [entries[level]];
        forall i | startLevel <= i < writeIdx' ensures EntryAt(i) == kept'[i - startLevel] {
          if i < writeIdx {
            assert kept'[i - startLevel] == kept[i - startLevel];
          }
        }
      }
    }

    /** The number of entries in use. */
    method GetSize() returns (size: nat)
      requires Valid()
      ensures size == |entries|
    {
      size := currentLevel;
    }
  }

  // ---------------------------------------------------------------------------
  // Properties of the specification
  // ---------------------------------------------------------------------------

  /** One step of a commit's scan: the kept entries and the stamps grow by the entry at `hi`. */
  lemma CommitStep(cells: Cells, es: seq<Entry>, lo: int, hi: int, prev: int)
    requires 0 <= lo <= hi < |es|
    ensures Compact(es[lo..hi + 1], prev) ==
              Compact(es[lo..hi], prev) + (if es[hi].saved.stamp != prev then [es[hi]] else [])
    ensures Restamp(cells, es[lo..hi + 1], prev) == StampCell(Restamp(cells, es[lo..hi], prev), es[hi].cell, prev)
  {
    var d := es[lo..hi + 1];
    assert d[..|d| - 1] == es[lo..hi];
    assert d[|d| - 1] == es[hi];
  }

  /** One step of a pop: replaying the entries down to `lo` starts with the entry at `hi`. */
  lemma UndoStep(cells: Cells, es: seq<Entry>, lo: int, hi: int)
    requires 0 <= lo <= hi < |es|
    ensures Undo(cells, es[lo..hi + 1]) == Undo(Restore(cells, es[hi]), es[lo..hi])
  {
    var d := es[lo..hi + 1];
    assert d[..|d| - 1] == es[lo..hi];
    assert d[|d| - 1] == es[hi];
  }

  /** Popping leaves a cell no entry mentions as it was. */
  lemma {:induction false} UndoUntouched(cells: Cells, es: seq<Entry>, c: Cell)
    requires forall j :: 0 <= j < |es| ==> es[j].cell != c
    ensures c in Undo(cells, es) <==> c in cells
    ensures c in cells ==> Undo(cells, es)[c] == cells[c]
    decreases |es|
  {
    if es != [] {
      UndoUntouched(Restore(cells, es[|es| - 1]), es[..|es| - 1], c);
    }
  }

  /** Popping gives a mentioned cell the state saved by its earliest entry. */
  lemma {:induction false} UndoRestoresEarliest(cells: Cells, es: seq<Entry>, i: int)
    requires 0 <= i < |es| && IsEarliest(es, i)
    ensures es[i].cell in Undo(cells, es) && Undo(cells, es)[es[i].cell] == es[i].saved
    decreases |es|
  {
    var front, last := es[..|es| - 1], es[|es| - 1];
    if i < |es| - 1 {
      UndoRestoresEarliest(Restore(cells, last), front, i);
    } else {
      UndoUntouched(Restore(cells, last), front, last.cell);
    }
  }

  /** Popping only adds the cells the entries mention. */
  lemma {:induction false} UndoKeys(cells: Cells, es: seq<Entry>)
    ensures Undo(cells, es).Keys == cells.Keys + Touched(es)
    decreases |es|
  {
    if es != [] {
      var front, last := es[..|es| - 1], es[|es| - 1];
      UndoKeys(Restore(cells, last), front);
      assert Touched(es) == Touched(front) + {last.cell} by {
        forall c | c in Touched(es) ensures c in Touched(front) + {last.cell} {
          var j :| 0 <= j < |es| && es[j].cell == c;
          if j < |front| { assert front[j].cell == c; }
        }
        forall c | c in Touched(front) ensures c in Touched(es) {
          var j :| 0 <= j < |front| && front[j].cell == c;
          assert es[j].cell == c;
        }
        assert es[|es| - 1].cell == last.cell;
      }
    }
  }

  /** Every mentioned cell has an earliest entry. */
  lemma FirstOccurrence(es: seq<Entry>, c: Cell) returns (i: int)
    requires c in Touched(es)
    ensures 0 <= i < |es| && es[i].cell == c && IsEarliest(es, i)
  {
    i := 0;
    while es[i].cell != c
      invariant 0 <= i < |es|
      invariant forall j :: 0 <= j < i ==> es[j].cell != c
      decreases |es| - i
    {
      i := i + 1;
      if i == |es| {
        var k :| 0 <= k < |es| && es[k].cell == c;
        assert false;
      }
    }
  }

  /** A commit keeps the entries of a concatenation as the concatenation of the kept entries. */
  lemma {:induction false} CompactAppend(a: seq<Entry>, b: seq<Entry>, prev: int)
    ensures Compact(a + b, prev) == Compact(a, prev) + Compact(b, prev)
    decreases |b|
  {
    if b != [] {
      var front, last := b[..|b| - 1], b[|b| - 1];
      assert (a + b)[..|a + b| - 1] == a + front;
      CompactAppend(a, front, prev);
    } else {
      assert a + b == a;
    }
  }

  /** A single entry is kept exactly when its saved stamp is not `prev`. */
  lemma CompactSingle(e: Entry, prev: int)
    ensures Compact([e], prev) == if e.saved.stamp != prev then [e] else []
  {
    assert [e][..0] == [];
  }

  /** A commit never adds entries, and everything it keeps has a saved stamp other than `prev`. */
  lemma {:induction false} CompactShrinks(es: seq<Entry>, prev: int)
    ensures |Compact(es, prev)| <= |es|
    ensures forall k :: 0 <= k < |Compact(es, prev)| ==>
              Compact(es, prev)[k] in es && Compact(es, prev)[k].saved.stamp != prev
    decreases |es|
  {
    if es != [] {
      var front := es[..|es| - 1];
      CompactShrinks(front, prev);
      forall k | 0 <= k < |Compact(front, prev)|
        ensures Compact(front, prev)[k] in es
      {
        var j :| 0 <= j < |front| && front[j] == Compact(front, prev)[k];
        assert es[j] == front[j];
      }
    }
  }

  /** Entries whose saved stamp is not `prev` all survive, so the count is exact. */
  lemma {:induction false} CompactKeepsOthers(es: seq<Entry>, prev: int)
    requires forall k :: 0 <= k < |es| ==> es[k].saved.stamp != prev
    ensures Compact(es, prev) == es
    decreases |es|
  {
    if es != [] {
      CompactKeepsOthers(es[..|es| - 1], prev);
    }
  }

  /** A commit's restamping changes stamps only, and exactly those of mentioned cells. */
  lemma {:induction false} RestampSpec(cells: Cells, es: seq<Entry>, prev: int, c: Cell)
    ensures Restamp(cells, es, prev).Keys == cells.Keys
    ensures c in cells && c in Touched(es) ==> Restamp(cells, es, prev)[c] == cells[c].(stamp := prev)
    ensures c in cells && c !in Touched(es) ==> Restamp(cells, es, prev)[c] == cells[c]
    decreases |es|
  {
    if es != [] {
      var front, last := es[..|es| - 1], es[|es| - 1];
      RestampSpec(cells, front, prev, c);
      if c in Touched(es) && c != last.cell {
        var j :| 0 <= j < |es| && es[j].cell == c;
        assert front[j].cell == c;
      }
      if c in Touched(front) {
        var j :| 0 <= j < |front| && front[j].cell == c;
        assert es[j].cell == c;
      }
      assert es[|es| - 1].cell == last.cell;
    }
  }

  /**
    The invariant of a world's trailed writes: cells keep their keys, a cell no new
    entry mentions is as before, and every mentioned cell is stamped `w` and its
    earliest new entry saved what it held before.
   */
  ghost predicate WritesInvariant(cells0: Cells, cells: Cells, added: seq<Entry>, w: int)
  {
    && cells.Keys == cells0.Keys
    && (forall c :: c in cells0 && c !in Touched(added) ==> cells[c] == cells0[c])
    && (forall i :: 0 <= i < |added| ==> added[i].cell in cells0 && cells[added[i].cell].stamp == w)
    && (forall i :: 0 <= i < |added| && IsEarliest(added, i) ==> added[i].saved == cells0[added[i].cell])
  }

  lemma WritesInvariantStep(cells0: Cells, cells: Cells, added: seq<Entry>, es: seq<Entry>,
                            c: Cell, v: Double, w: int)
    requires forall d :: d in cells0 ==> cells0[d].stamp != w
    requires WritesInvariant(cells0, cells, added, w) && c in cells
    ensures var next := TrailedWrite(cells, es + added, c, v, w);
            && |next.1| >= |es|
            && next.1[..|es|] == es
            && WritesInvariant(cells0, next.0, next.1[|es|..], w)
  {
    var next := TrailedWrite(cells, es + added, c, v, w);
    if cells[c].stamp != w {
      var added' := added + [Entry(c, cells[c])];
      assert next.1 == es + added';
      assert next.1[|es|..] == added';
      assert forall j :: 0 <= j < |added| ==> added[j].cell != c;
      forall d | d in cells0 && d !in Touched(added')
        ensures next.0[d] == cells0[d]
      {
        assert d != added'[|added|].cell;
        forall j | 0 <= j < |added| ensures added[j].cell != d {
          assert added'[j] == added[j];
        }
      }
      forall i | 0 <= i < |added'| && IsEarliest(added', i)
        ensures added'[i].saved == cells0[added'[i].cell]
      {
        if i < |added| {
          assert IsEarliest(added, i) by {
            forall j | 0 <= j < i ensures added[j].cell != added[i].cell {
              assert added'[j] == added[j];
            }
          }
        }
      }
      forall i | 0 <= i < |added'|
        ensures added'[i].cell in cells0 && next.0[added'[i].cell].stamp == w
      {
        if i < |added| { assert added'[i] == added[i]; }
      }
    } else {
      assert next.1 == es + added;
      assert next.1[|es|..] == added;
    }
  }

  lemma {:induction false} WritesInvariantAll(cells0: Cells, cells: Cells, added: seq<Entry>, es: seq<Entry>,
                                              writes: seq<(Cell, Double)>, w: int)
    requires forall d :: d in cells0 ==> cells0[d].stamp != w
    requires WritesInvariant(cells0, cells, added, w)
    requires forall k :: 0 <= k < |writes| ==> writes[k].0 in cells
    ensures var final := TrailedWrites(cells, es + added, writes, w);
            && |final.1| >= |es|
            && final.1[..|es|] == es
            && WritesInvariant(cells0, final.0, final.1[|es|..], w)
    decreases |writes|
  {
    if writes != [] {
      var next := TrailedWrite(cells, es + added, writes[0].0, writes[0].1, w);
      WritesInvariantStep(cells0, cells, added, es, writes[0].0, writes[0].1, w);
      var added' := next.1[|es|..];
      assert next.1 == es + added';
      WritesInvariantAll(cells0, next.0, added', es, writes[1..], w);
    }
  }

  /** Under the writes invariant, popping the new entries gives back the cells as they were. */
  lemma UndoWrites(cells0: Cells, cells: Cells, added: seq<Entry>, w: int)
    requires WritesInvariant(cells0, cells, added, w)
    ensures Undo(cells, added) == cells0
  {
    var u := Undo(cells, added);
    UndoKeys(cells, added);
    assert Touched(added) <= cells0.Keys by {
      forall c | c in Touched(added) ensures c in cells0 {
        var j :| 0 <= j < |added| && added[j].cell == c;
      }
    }
    forall c | c in cells0 ensures u[c] == cells0[c] {
      if c in Touched(added) {
        var i := FirstOccurrence(added, c);
        UndoRestoresEarliest(cells, added, i);
      } else {
        UndoUntouched(cells, added, c);
      }
    }
  }

  /**
    The round-trip law: entering a world `w` newer than every stamp, doing any
    trailed writes and popping the entries they added restores every cell's value
    and stamp, and leaves the entries from before the world as they were.
   */
  lemma PushWritesPopRestores(cells0: Cells, es0: seq<Entry>, writes: seq<(Cell, Double)>, w: int)
    requires forall d :: d in cells0 ==> cells0[d].stamp != w
    requires forall k :: 0 <= k < |writes| ==> writes[k].0 in cells0
    ensures var final := TrailedWrites(cells0, es0, writes, w);
            && |final.1| >= |es0|
            && final.1[..|es0|] == es0
            && Undo(final.0, final.1[|es0|..]) == cells0
  {
    assert es0 + [] == es0;
    WritesInvariantAll(cells0, cells0, [], es0, writes, w);
    var final := TrailedWrites(cells0, es0, writes, w);
    UndoWrites(cells0, final.0, final.1[|es0|..], w);
  }

  /** A commit preserves every cell's value; it only rewrites stamps. */
  lemma CommitKeepsValues(cells: Cells, es: seq<Entry>, prev: int)
    ensures Restamp(cells, es, prev).Keys == cells.Keys
    ensures forall c :: c in cells ==> Restamp(cells, es, prev)[c].value == cells[c].value
  {
    forall c | c in cells ensures Restamp(cells, es, prev)[c].value == cells[c].value {
      RestampSpec(cells, es, prev, c);
    }
    RestampSpec(cells, es, prev, Cell(0, 0));
  }

  /** The cells an entry sequence mentions grow by one cell per appended entry. */
  lemma TouchedAppend(es: seq<Entry>, e: Entry)
    ensures Touched(es + [e]) == Touched(es) + {e.cell}
  {
    var t := es + [e];
    forall c | c in Touched(t) ensures c in Touched(es) + {e.cell} {
      var j :| 0 <= j < |t| && t[j].cell == c;
      if j < |es| { assert es[j].cell == c; }
    }
    forall c | c in Touched(es) ensures c in Touched(t) {
      var j :| 0 <= j < |es| && es[j].cell == c;
      assert t[j].cell == c;
    }
    assert t[|es|].cell == e.cell;
  }

  /**
    How the writes of world `p + 1` (`cells1`, `trail1`) relate to the same writes
    made in world `p` (`cells2`, `trail2`): the cells hold the same keys, exactly
    the mentioned cells are stamped `p + 1`, and a commit into `p` turns the first
    pair into the second.
   */
  ghost predicate CommitRelated(cells1: Cells, trail1: seq<Entry>, cells2: Cells, trail2: seq<Entry>, p: int)
  {
    && cells1.Keys == cells2.Keys
    && Touched(trail1) <= cells1.Keys
    && (forall c :: c in cells1 ==> (c in Touched(trail1) <==> cells1[c].stamp == p + 1))
    && Compact(trail1, p) == trail2
    && Restamp(cells1, trail1, p) == cells2
  }

  /** The entry a write in world `p + 1` trails is the one the same write in world `p` trails, unless the parent already holds it. */
  lemma CommitRelatedTrail(cells1: Cells, trail1: seq<Entry>, cells2: Cells, trail2: seq<Entry>,
                           c: Cell, v: Double, p: int)
    requires CommitRelated(cells1, trail1, cells2, trail2, p) && c in cells1
    ensures var n1 := TrailedWrite(cells1, trail1, c, v, p + 1);
            var n2 := TrailedWrite(cells2, trail2, c, v, p);
            && Compact(n1.1, p) == n2.1
            && Touched(n1.1) == Touched(trail1) + {c}
  {
    var n1 := TrailedWrite(cells1, trail1, c, v, p + 1);
    if cells1[c].stamp != p + 1 {
      RestampSpec(cells1, trail1, p, c);
      assert cells2[c] == cells1[c];
      var e := Entry(c, cells1[c]);
      assert n1.1 == trail1 + [e];
      CompactAppend(trail1, [e], p);
      CompactSingle(e, p);
      TouchedAppend(trail1, e);
    } else {
      RestampSpec(cells1, trail1, p, c);
      assert cells2[c].stamp == p;
    }
  }

  /** One write, made in world `p + 1` on one side and in world `p` on the other, keeps the two related. */
  lemma CommitRelatedStep(cells1: Cells, trail1: seq<Entry>, cells2: Cells, trail2: seq<Entry>,
                          c: Cell, v: Double, p: int)
    requires CommitRelated(cells1, trail1, cells2, trail2, p) && c in cells1
    ensures var n1 := TrailedWrite(cells1, trail1, c, v, p + 1);
            var n2 := TrailedWrite(cells2, trail2, c, v, p);
            CommitRelated(n1.0, n1.1, n2.0, n2.1, p)
  {
    var n1 := TrailedWrite(cells1, trail1, c, v, p + 1);
    var n2 := TrailedWrite(cells2, trail2, c, v, p);
    CommitRelatedTrail(cells1, trail1, cells2, trail2, c, v, p);
    var r := Restamp(n1.0, n1.1, p);
    RestampSpec(n1.0, n1.1, p, c);
    forall d | d in n1.0 ensures r[d] == n2.0[d] {
      RestampSpec(n1.0, n1.1, p, d);
      if d != c {
        RestampSpec(cells1, trail1, p, d);
      }
    }
    assert r == n2.0;
  }

  /** Any writes keep the two sides related. */
  lemma {:induction false} CommitRelatedAll(cells1: Cells, trail1: seq<Entry>, cells2: Cells, trail2: seq<Entry>,
                                            writes: seq<(Cell, Double)>, p: int)
    requires CommitRelated(cells1, trail1, cells2, trail2, p)
    requires forall k :: 0 <= k < |writes| ==> writes[k].0 in cells1
    ensures var f1 := TrailedWrites(cells1, trail1, writes, p + 1);
            var f2 := TrailedWrites(cells2, trail2, writes, p);
            CommitRelated(f1.0, f1.1, f2.0, f2.1, p)
    decreases |writes|
  {
    if writes != [] {
      var n1 := TrailedWrite(cells1, trail1, writes[0].0, writes[0].1, p + 1);
      var n2 := TrailedWrite(cells2, trail2, writes[0].0, writes[0].1, p);
      CommitRelatedStep(cells1, trail1, cells2, trail2, writes[0].0, writes[0].1, p);
      CommitRelatedAll(n1.0, n1.1, n2.0, n2.1, writes[1..], p);
    }
  }

  /**
    The commit law: from cells none of which is stamped with the new world `p + 1`,
    making any trailed writes in world `p + 1` and committing into `p` leaves the
    entries and the cells the same writes made directly in world `p` would have
    left, as if world `p + 1` had never been pushed.
   */
  lemma CommitAsIfNeverPushed(cells0: Cells, writes: seq<(Cell, Double)>, p: int)
    requires forall d :: d in cells0 ==> cells0[d].stamp != p + 1
    requires forall k :: 0 <= k < |writes| ==> writes[k].0 in cells0
    ensures var inner := TrailedWrites(cells0, [], writes, p + 1);
            var outer := TrailedWrites(cells0, [], writes, p);
            && Compact(inner.1, p) == outer.1
            && Restamp(inner.0, inner.1, p) == outer.0
  {
    CommitRelatedAll(cells0, [], cells0, [], writes, p);
  }

  /** Trailed writes only append to the trail they are given. */
  lemma {:induction false} TrailedWritesAppend(cells: Cells, es0: seq<Entry>, es: seq<Entry>,
                                               writes: seq<(Cell, Double)>, w: int)
    requires forall k :: 0 <= k < |writes| ==> writes[k].0 in cells
    ensures TrailedWrites(cells, es0 + es, writes, w)
            == (TrailedWrites(cells, es, writes, w).0, es0 + TrailedWrites(cells, es, writes, w).1)
    decreases |writes|
  {
    if writes != [] {
      var c, v := writes[0].0, writes[0].1;
      var n := TrailedWrite(cells, es, c, v, w);
      if cells[c].stamp != w {
        assert es0 + es + [Entry(c, cells[c])] == es0 + (es + [Entry(c, cells[c])]);
      }
      TrailedWritesAppend(n.0, es0, n.1, writes[1..], w);
    }
  }

  /** Writes `ws1 + ws2` are the writes `ws1` followed by the writes `ws2`. */
  lemma {:induction false} TrailedWritesConcat(cells: Cells, es: seq<Entry>, ws1: seq<(Cell, Double)>,
                                               ws2: seq<(Cell, Double)>, w: int)
    requires forall k :: 0 <= k < |ws1| ==> ws1[k].0 in cells
    requires forall k :: 0 <= k < |ws2| ==> ws2[k].0 in cells
    ensures forall k :: 0 <= k < |ws1 + ws2| ==> (ws1 + ws2)[k].0 in cells
    ensures var a := TrailedWrites(cells, es, ws1, w);
            TrailedWrites(cells, es, ws1 + ws2, w) == TrailedWrites(a.0, a.1, ws2, w)
    decreases |ws1|
  {
    assert forall k :: 0 <= k < |ws1 + ws2| ==> (ws1 + ws2)[k].0 in cells by {
      forall k | 0 <= k < |ws1 + ws2| ensures (ws1 + ws2)[k].0 in cells {
        if k < |ws1| { assert (ws1 + ws2)[k] == ws1[k]; } else { assert (ws1 + ws2)[k] == ws2[k - |ws1|]; }
      }
    }
    if ws1 == [] {
      assert ws1 + ws2 == ws2;
    } else {
      var n := TrailedWrite(cells, es, ws1[0].0, ws1[0].1, w);
      assert (ws1 + ws2)[0] == ws1[0];
      assert (ws1 + ws2)[1..] == ws1[1..] + ws2;
      TrailedWritesConcat(n.0, n.1, ws1[1..], ws2, w);
    }
  }

  /** After writes in world `p` from cells stamped neither `p` nor `p + 1`, no cell is stamped `p + 1`. */
  lemma ParentWritesStamps(cells0: Cells, es0: seq<Entry>, writes: seq<(Cell, Double)>, p: int)
    requires forall d :: d in cells0 ==> cells0[d].stamp != p && cells0[d].stamp != p + 1
    requires forall k :: 0 <= k < |writes| ==> writes[k].0 in cells0
    ensures var a := TrailedWrites(cells0, es0, writes, p);
            forall d :: d in a.0 ==> a.0[d].stamp != p + 1
  {
    var a := TrailedWrites(cells0, es0, writes, p);
    assert es0 + [] == es0;
    WritesInvariantAll(cells0, cells0, [], es0, writes, p);
    var added := a.1[|es0|..];
    forall d | d in a.0 ensures a.0[d].stamp != p + 1 {
      if d in Touched(added) {
        var i :| 0 <= i < |added| && added[i].cell == d;
      }
    }
  }

  /**
    The commit law on a whole trail, in the shape `worldCommit` leaves it. The
    parent world `p` makes the writes `ws1` on top of the entries `es0`, the
    inner world `p + 1` is pushed and makes the writes `ws2`, and is committed:
    the parent's entries stay, the inner world's are compacted into `p`, and the
    trail and cells are those of making `ws1 + ws2` directly in world `p`.
    Popping `p` afterwards therefore gives back the cells as they were before
    either world was entered.
   */
  lemma CommitThenPopRestores(cells0: Cells, es0: seq<Entry>, ws1: seq<(Cell, Double)>,
                              ws2: seq<(Cell, Double)>, p: int)
    requires forall d :: d in cells0 ==> cells0[d].stamp != p && cells0[d].stamp != p + 1
    requires forall k :: 0 <= k < |ws1| ==> ws1[k].0 in cells0
    requires forall k :: 0 <= k < |ws2| ==> ws2[k].0 in cells0
    ensures forall k :: 0 <= k < |ws1 + ws2| ==> (ws1 + ws2)[k].0 in cells0
    ensures var a := TrailedWrites(cells0, es0, ws1, p);
            var b := TrailedWrites(a.0, a.1, ws2, p + 1);
            var direct := TrailedWrites(cells0, es0, ws1 + ws2, p);
            && |b.1| >= |a.1| >= |es0|
            && b.1[..|a.1|] == a.1
            && a.1 + Compact(b.1[|a.1|..], p) == direct.1
            && Restamp(b.0, b.1[|a.1|..], p) == direct.0
            && Undo(direct.0, direct.1[|es0|..]) == cells0
  {
    var a := TrailedWrites(cells0, es0, ws1, p);
    TrailedWritesConcat(cells0, es0, ws1, ws2, p);
    ParentWritesStamps(cells0, es0, ws1, p);
    PushWritesPopRestores(cells0, es0, ws1, p);
    assert a.1 + [] == a.1;
    TrailedWritesAppend(a.0, a.1, [], ws2, p + 1);
    TrailedWritesAppend(a.0, a.1, [], ws2, p);
    var inner := TrailedWrites(a.0, [], ws2, p + 1);
    var b := TrailedWrites(a.0, a.1, ws2, p + 1);
    assert b.1[|a.1|..] == inner.1;
    assert b.1[..|a.1|] == a.1;
    CommitAsIfNeverPushed(a.0, ws2, p);
    PushWritesPopRestores(cells0, es0, ws1 + ws2, p);
  }
}
