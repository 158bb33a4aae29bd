/** The circular buffer of recent roots, as a rotation of a window of the root log. */
module RootHistory {
  import opened Codec
  import opened Ledger
  import opened Numbers
  import opened PoolStorage

  /** The slots after pushing `roots` in order: once full, the window turned by |roots| mod size. */
  function RingSlots(roots: seq<Bytes32>, size: nat): (slots: seq<Bytes32>)
    requires size > 0
    ensures |slots| == if |roots| <= size then |roots| else size
  {
    var w := Window(roots, size);
    if |roots| <= size then w else Turned(w, |roots| % size)
  }

  ghost predicate HoldsRoots(st: Storage, roots: seq<Bytes32>, size: nat)
    requires size > 0
    reads st`rootHistoryIndex, st`rootEntries
  {
    && st.rootHistoryIndex == |roots| % size
    && Filled(st.rootEntries, RingSlots(roots, size))
  }

  /** Exactly the first |slots| positions are present and hold `slots`. */
  ghost predicate Filled(entries: map<nat, Bytes32>, slots: seq<Bytes32>) {
    && (forall i: nat :: i in entries <==> i < |slots|)
    && (forall i: nat :: i in entries ==> entries[i] == slots[i])
  }

  /** Pushing overwrites exactly the slot at the write index. */
  lemma PushSlots(roots: seq<Bytes32>, root: Bytes32, size: nat)
    requires size > 0
    ensures var (slots, at) := (RingSlots(roots, size), |roots| % size);
      RingSlots(roots + [root], size) ==
        if |roots| < size then slots + [root] else slots[at := root]
    ensures |roots| < size ==> |roots| % size == |roots|
  {
    var r, w := |roots| % size, Window(roots, size);
    if |roots| < size {
      DivModUnique(size, 0, |roots|);
    } else {
      SlotsWhenFull(roots, size);
      SlotsWhenFull(roots + [root], size);
      WindowShifts(roots, root, size);
      TurnOnce(w, root, r, size);
      NextTurn(|roots|, size);
    }
  }

  lemma WindowShifts(roots: seq<Bytes32>, root: Bytes32, size: nat)
    requires 0 < size <= |roots|
    ensures Window(roots + [root], size) == Window(roots, size)[1..] + [root]
  {
  }

  lemma SlotsWhenFull(roots: seq<Bytes32>, size: nat)
    requires 0 < size <= |roots|
    ensures RingSlots(roots, size) == Turned(Window(roots, size), |roots| % size)
  {
    if |roots| == size {
      DivModUnique(size, 1, 0);
      assert Turned(roots, 0) == roots;
    }
  }

  lemma NextTurn(k: nat, size: nat)
    requires size > 0
    ensures (k + 1) % size == if k % size + 1 < size then k % size + 1 else 0
  {
    ModSucc(k, size);
    if k % size + 1 < size {
      DivModUnique(size, 0, k % size + 1);
    } else {
      DivModUnique(size, 1, 0);
    }
  }

  function Turned(w: seq<Bytes32>, r: nat): seq<Bytes32>
    requires r <= |w|
  {
    w[|w| - r..] + w[..|w| - r]
  }

  /** Shifting the window by one root turns it by one slot. */
  lemma TurnOnce(w: seq<Bytes32>, root: Bytes32, r: nat, size: nat)
    requires |w| == size && r < size
    ensures Turned(w[1..] + [root], if r + 1 < size then r + 1 else 0) == Turned(w, r)[r := root]
  {
    var w' := w[1..] + [root];
    var r' := if r + 1 < size then r + 1 else 0;
    var turned := Turned(w', r');
    forall j | 0 <= j < size
      ensures turned[j] == Turned(w, r)[r := root][j]
    {
    }
  }

  /** Slot m mod size holds root number m for every root of the window. */
  lemma {:induction false} SlotOfRoot(roots: seq<Bytes32>, size: nat, m: nat)
    requires size > 0 && |roots| - size <= m < |roots|
    ensures m % size < |RingSlots(roots, size)|
    ensures RingSlots(roots, size)[m % size] == roots[m]
    decreases |roots|
  {
    var n := |roots| - 1;
    var front := roots[..n];
    assert roots == front + [roots[n]];
    PushSlots(front, roots[n], size);
    if m < n {
      SlotOfRoot(front, size, m);
      ModSeparates(m, n, size);
    }
  }

  /** The filled slots hold the roots of the window and no others. */
  lemma SlotsAreWindow(roots: seq<Bytes32>, size: nat, root: Bytes32)
    requires size > 0
    ensures root in RingSlots(roots, size) <==> root in Window(roots, size)
  {
    if |roots| > size {
      var w, turn := Window(roots, size), size - |roots| % size;
      assert w == w[..turn] + w[turn..];
    }
  }

  method PushRootHistory(st: Storage, root: Bytes32, ghost roots: seq<Bytes32>)
    requires st.config.Some? && st.config.value.historySize > 0
    requires HoldsRoots(st, roots, st.config.value.historySize)
    modifies st`rootEntries, st`rootHistoryIndex
    ensures HoldsRoots(st, roots + [root], st.config.value.historySize)
  {
    var historySize := st.config.value.historySize;
    var currentIndex := st.rootHistoryIndex;
    PushSlots(roots, root, historySize);
    ModSucc(|roots|, historySize);
    st.rootEntries := st.rootEntries[currentIndex := root];
    var next: u32 := currentIndex + 1;
    st.rootHistoryIndex := next % historySize;
  }

  method IsKnownRoot(st: Storage, root: Bytes32, ghost roots: seq<Bytes32>) returns (known: bool)
    requires st.config.Some? && st.config.value.historySize > 0
    requires HoldsRoots(st, roots, st.config.value.historySize)
    ensures known <==> root in Window(roots, st.config.value.historySize)
  {
    var historySize := st.config.value.historySize;
    SlotsAreWindow(roots, historySize, root);
    known := ScanEntries(st.rootEntries, historySize, root, RingSlots(roots, historySize));
  }

  method ScanEntries(entries: map<nat, Bytes32>, historySize: nat, root: Bytes32, ghost slots: seq<Bytes32>)
    returns (known: bool)
    requires Filled(entries, slots) && |slots| <= historySize
    ensures known <==> root in slots
  {
    for i := 0 to historySize
      invariant forall j: nat :: j < i && j in entries ==> entries[j] != root
    {
      if i in entries {
        if entries[i] == root {
          return true;
        }
      }
    }
    known := false;
  }

  method GetRootHistory(st: Storage, ghost roots: seq<Bytes32>) returns (history: seq<Bytes32>)
    requires st.config.Some? && st.config.value.historySize > 0
    requires HoldsRoots(st, roots, st.config.value.historySize)
    ensures history == RingSlots(roots, st.config.value.historySize)
  {
    var historySize := st.config.value.historySize;
    history := CollectEntries(st.rootEntries, historySize, RingSlots(roots, historySize));
  }

  method CollectEntries(entries: map<nat, Bytes32>, historySize: nat, ghost slots: seq<Bytes32>)
    returns (history: seq<Bytes32>)
    requires Filled(entries, slots) && |slots| <= historySize
    ensures history == slots
  {
    history := [];
    for i := 0 to historySize
      invariant |history| == if i <= |slots| then i else |slots|
      invariant history == slots[..|history|]
    {
      if i in entries {
        history := history + [entries[i]];
      }
    }
  }
}
