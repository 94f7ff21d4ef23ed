/** The fixed-capacity max-heap that keeps the objects nearest to a point. */
module FarHeap {
  datatype Entry = Entry(key: real, obj: int)

  function Parent(i: nat): nat
    requires i > 0
  {
    (i - 1) / 2
  }

  /** The parallel key and handle cells as entries. */
  function Zip(keys: seq<real>, objs: seq<int>): (es: seq<Entry>)
    requires |keys| == |objs|
    ensures |es| == |keys|
  {
    seq(|keys|, i requires 0 <= i < |keys| => Entry(keys[i], objs[i]))
  }

  /** Entry `i` is no farther than entry `above`. */
  predicate Under(es: seq<Entry>, above: nat, i: nat)
    requires above < |es| && i < |es|
  {
    es[above].key >= es[i].key
  }

  ghost predicate IsHeap(es: seq<Entry>) {
    forall i :: 0 < i < |es| ==> Under(es, Parent(i), i)
  }

  /** A heap but for the entry at `hole`, which may exceed its ancestors. */
  ghost predicate HeapBelow(es: seq<Entry>, hole: nat)
    requires hole < |es|
  {
    && (forall i :: 0 < i < |es| && i != hole ==> Under(es, Parent(i), i))
    && (forall i :: 0 < i < |es| && hole > 0 && Parent(i) == hole ==> Under(es, Parent(hole), i))
  }

  /** A heap but for the entry at `hole`, which may fall short of its descendants. */
  ghost predicate HeapAbove(es: seq<Entry>, hole: nat)
    requires hole < |es|
  {
    && (forall i :: 0 < i < |es| && Parent(i) != hole ==> Under(es, Parent(i), i))
    && (forall i :: 0 < i < |es| && hole > 0 && Parent(i) == hole ==> Under(es, Parent(hole), i))
  }

  function Swap(es: seq<Entry>, i: nat, j: nat): (r: seq<Entry>)
    requires i < |es| && j < |es|
    ensures |r| == |es| && multiset(r) == multiset(es)
  {
    es[i := es[j]][j := es[i]]
  }

  lemma Raise(es: seq<Entry>, hole: nat)
    requires 0 < hole < |es| && HeapBelow(es, hole) && es[hole].key > es[Parent(hole)].key
    ensures HeapBelow(Swap(es, hole, Parent(hole)), Parent(hole))
  {
    var p := Parent(hole);
    var r := Swap(es, hole, p);
    forall i | 0 < i < |es| && i != p ensures Under(r, Parent(i), i) {
      if i != hole {
        assert Under(es, Parent(i), i);
        assert Parent(i) == hole ==> Under(es, p, i);
      }
    }
    forall i | 0 < i < |es| && p > 0 && Parent(i) == p ensures Under(r, Parent(p), i) {
      assert Under(es, Parent(p), p);
      assert i != hole ==> Under(es, p, i);
    }
  }

  lemma Appended(es: seq<Entry>, e: Entry)
    requires IsHeap(es)
    ensures HeapBelow(es + [e], |es|)
  {
  }

  lemma Raised(es: seq<Entry>, hole: nat)
    requires hole < |es| && HeapBelow(es, hole) && (hole > 0 ==> es[hole].key <= es[Parent(hole)].key)
    ensures IsHeap(es)
  {
  }

  /** `child` is a child of `hole` with a largest key. */
  predicate LargerChild(es: seq<Entry>, hole: nat, child: nat)
    requires hole < |es|
  {
    && 0 < child < |es| && Parent(child) == hole
    && forall i :: 0 < i < |es| && Parent(i) == hole ==> es[i].key <= es[child].key
  }

  lemma Lower(es: seq<Entry>, hole: nat, child: nat)
    requires hole < |es| && HeapAbove(es, hole) && LargerChild(es, hole, child) && es[child].key > es[hole].key
    ensures HeapAbove(Swap(es, hole, child), child)
  {
  }

  lemma Lowered(es: seq<Entry>, hole: nat)
    requires hole < |es| && HeapAbove(es, hole)
    requires forall i :: 0 < i < |es| && Parent(i) == hole ==> es[i].key <= es[hole].key
    ensures IsHeap(es)
  {
  }

  lemma {:induction false} RootIsLargest(es: seq<Entry>, i: nat)
    requires IsHeap(es) && i < |es|
    ensures es[0].key >= es[i].key
  {
    if i > 0 {
      RootIsLargest(es, Parent(i));
    }
  }

  /** `kept` holds as many of the offered entries as fit, and none dropped is nearer than one kept. */
  ghost predicate KeepsNearest(kept: multiset<Entry>, offered: multiset<Entry>, capacity: nat) {
    && kept <= offered
    && |kept| == (if |offered| < capacity then |offered| else capacity)
    && forall x, y :: x in kept && y in offered - kept ==> x.key <= y.key
  }

  /** What one offer does to the kept entries, `root` being one with the largest key. */
  ghost function Offered(kept: multiset<Entry>, root: Entry, e: Entry, capacity: nat): multiset<Entry> {
    if |kept| < capacity then kept + multiset{e}
    else if e.key < root.key then kept - multiset{root} + multiset{e}
    else kept
  }

  lemma OfferKeepsNearest(kept: multiset<Entry>, offered: multiset<Entry>, root: Entry, e: Entry, capacity: nat)
    requires KeepsNearest(kept, offered, capacity) && capacity > 0
    requires |kept| == capacity ==> root in kept && forall x :: x in kept ==> x.key <= root.key
    ensures KeepsNearest(Offered(kept, root, e, capacity), offered + multiset{e}, capacity)
  {
    var kept' := Offered(kept, root, e, capacity);
    var offered' := offered + multiset{e};
    if |kept| < capacity {
      WholeMultiset(kept, offered);
      assert offered' - kept' == multiset{};
    } else if e.key < root.key {
      assert offered' - kept' == offered - kept + multiset{root};
    } else {
      assert offered' - kept' == offered - kept + multiset{e};
    }
  }

  lemma WholeMultiset(a: multiset<Entry>, b: multiset<Entry>)
    requires a <= b && |a| == |b|
    ensures a == b
  {
    assert b == a + (b - a);
    assert |b - a| == 0;
  }

  ghost function Pick(m: multiset<Entry>): (x: Entry)
    requires |m| > 0
    ensures x in m
  {
    var x :| x in m;
    x
  }

  /** How many entries of `m` have a key of at most `t`. */
  ghost function CountLe(m: multiset<Entry>, t: real): nat
    decreases |m|
  {
    if |m| == 0 then 0 else CountLe(m - multiset{Pick(m)}, t) + Within(Pick(m), t)
  }

  function Within(e: Entry, t: real): nat {
    if e.key <= t then 1 else 0
  }

  lemma {:induction false} CountLeRemove(m: multiset<Entry>, y: Entry, t: real)
    requires y in m
    ensures CountLe(m, t) == CountLe(m - multiset{y}, t) + Within(y, t)
    decreases |m|
  {
    var x := Pick(m);
    if x != y {
      var mx, my := m - multiset{x}, m - multiset{y};
      assert mx - multiset{y} == my - multiset{x};
      CountLeRemove(mx, y, t);
      CountLeRemove(my, x, t);
    }
  }

  lemma {:induction false} CountLeSum(a: multiset<Entry>, b: multiset<Entry>, t: real)
    ensures CountLe(a + b, t) == CountLe(a, t) + CountLe(b, t)
    decreases |a|
  {
    if |a| == 0 {
      assert a + b == b;
    } else {
      var x :| x in a;
      CountLeRemove(a, x, t);
      CountLeRemove(a + b, x, t);
      assert a + b - multiset{x} == (a - multiset{x}) + b;
      CountLeSum(a - multiset{x}, b, t);
    }
  }

  lemma {:induction false} CountLeAll(m: multiset<Entry>, t: real)
    ensures CountLe(m, t) <= |m|
    ensures (forall x :: x in m ==> x.key <= t) ==> CountLe(m, t) == |m|
    ensures (forall x :: x in m ==> x.key > t) ==> CountLe(m, t) == 0
    decreases |m|
  {
    if |m| > 0 {
      var x :| x in m;
      CountLeRemove(m, x, t);
      CountLeAll(m - multiset{x}, t);
    }
  }

  /**
   * The kept keys are determined by the offers: under every threshold the heap
   * holds as many keys as were offered there, up to its capacity.
   */
  lemma KeptKeysAreSmallest(kept: multiset<Entry>, offered: multiset<Entry>, capacity: nat, t: real)
    requires KeepsNearest(kept, offered, capacity)
    ensures CountLe(kept, t) == if CountLe(offered, t) < capacity then CountLe(offered, t) else capacity
  {
    CountSplit(kept, offered, t);
    CountLeAll(kept, t);
    if x :| x in offered - kept && x.key <= t {
      AllKeptCount(kept, offered, x, capacity, t);
    } else {
      NoneCount(offered - kept, t);
      assert |kept| <= capacity;
    }
  }

  lemma CountSplit(kept: multiset<Entry>, offered: multiset<Entry>, t: real)
    requires kept <= offered
    ensures CountLe(offered, t) == CountLe(kept, t) + CountLe(offered - kept, t)
  {
    KeptAndDropped(kept, offered);
    CountLeSum(kept, offered - kept, t);
  }

  lemma NoneCount(m: multiset<Entry>, t: real)
    requires forall x :: x in m ==> x.key > t
    ensures CountLe(m, t) == 0
  {
    CountLeAll(m, t);
  }

  lemma AllKeptCount(kept: multiset<Entry>, offered: multiset<Entry>, x: Entry, capacity: nat, t: real)
    requires KeepsNearest(kept, offered, capacity) && x in offered - kept && x.key <= t
    ensures CountLe(kept, t) == capacity
  {
    SomethingDropped(kept, offered, x, capacity);
    CountLeAll(kept, t);
  }

  lemma KeptAndDropped(kept: multiset<Entry>, offered: multiset<Entry>)
    requires kept <= offered
    ensures kept + (offered - kept) == offered && |kept| + |offered - kept| == |offered|
  {
    assert kept + (offered - kept) == offered;
  }

  /** Dropping anything takes a full heap of entries no farther. */
  lemma SomethingDropped(kept: multiset<Entry>, offered: multiset<Entry>, x: Entry, capacity: nat)
    requires KeepsNearest(kept, offered, capacity) && x in offered - kept
    ensures |kept| == capacity && forall y :: y in kept ==> y.key <= x.key
  {
    KeptAndDropped(kept, offered);
  }

  class Heap {
    const objs: array<int>
    const keys: array<real>
    var count: nat
    /** Everything ever offered. */
    ghost var offered: multiset<Entry>

    ghost predicate Valid()
      reads this, objs, keys
    {
      && objs.Length == keys.Length > 0 && count <= keys.Length
      && IsHeap(Entries(count))
      && KeepsNearest(multiset(Entries(count)), offered, keys.Length)
    }

    function Entries(n: nat): (es: seq<Entry>)
      reads objs, keys
      requires n <= objs.Length && n <= keys.Length
      ensures |es| == n
    {
      Zip(keys[..n], objs[..n])
    }

    constructor (capacity: nat)
      requires capacity > 0
      ensures Valid() && fresh(objs) && fresh(keys) && keys.Length == capacity && count == 0 && offered == multiset{}
    {
      objs := new int[capacity](i => 0);
      keys := new real[capacity](i => 0.0);
      count := 0;
      offered := multiset{};
    }

    method Store(idx: nat, e: Entry, ghost n: nat)
      requires idx < n <= objs.Length == keys.Length
      modifies objs, keys
      ensures Entries(n) == old(Entries(n))[idx := e]
    {
      objs[idx] := e.obj;
      keys[idx] := e.key;
      assert keys[..n] == old(keys[..n])[idx := e.key] && objs[..n] == old(objs[..n])[idx := e.obj];
    }

    /** Apart from cell `hole`, where the travelling entry belongs, the first `|es|` cells hold `es`. */
    ghost predicate Holds(es: seq<Entry>, hole: nat, e: Entry)
      reads objs, keys
    {
      hole < |es| <= objs.Length == keys.Length && es[hole] == e && Entries(|es|)[hole := e] == es
    }

    /** Pull the entry at `from` into the hole, which moves to `from`. */
    method Pull(hole: nat, from: nat, ghost es: seq<Entry>, ghost e: Entry)
      requires Holds(es, hole, e) && from < |es| && from != hole
      modifies objs, keys
      ensures Holds(Swap(es, hole, from), from, e)
    {
      assert Entries(|es|)[from] == es[from];
      Store(hole, Entry(keys[from], objs[from]), |es|);
    }

    method Drop(hole: nat, e: Entry, ghost es: seq<Entry>)
      requires Holds(es, hole, e)
      modifies objs, keys
      ensures Entries(|es|) == es
    {
      Store(hole, e, |es|);
    }

    /** Move the hole one level up when the entry exceeds the parent; otherwise its place is found. */
    method Climb(e: Entry, hole: nat, ghost es: seq<Entry>) returns (up: bool, ghost climbed: seq<Entry>)
      requires 0 < hole < |es| && Holds(es, hole, e) && HeapBelow(es, hole)
      modifies objs, keys
      ensures up ==> |climbed| == |es| && multiset(climbed) == multiset(es)
      ensures up ==> Holds(climbed, Parent(hole), e) && HeapBelow(climbed, Parent(hole))
      ensures !up ==> Holds(es, hole, e) && IsHeap(es)
    {
      var parent := Parent(hole);
      var above := KeyAt(parent, hole, es, e);
      if !(e.key > above) {
        Raised(es, hole);
        return false, es;
      }
      Raise(es, hole);
      Pull(hole, parent, es, e);
      return true, Swap(es, hole, parent);
    }

    /** A new entry in the free slot sifts up while it exceeds its parent. */
    method SiftUp(e: Entry, ghost start: seq<Entry>) returns (ghost es: seq<Entry>)
      requires |start| == count + 1 && Holds(start, count, e) && HeapBelow(start, count)
      modifies objs, keys
      ensures |es| == count + 1 && Entries(|es|) == es && IsHeap(es) && multiset(es) == multiset(start)
    {
      es := start;
      var idx: nat := count;
      var up := true;
      while up && idx != 0
        invariant idx < |es| == count + 1 && Holds(es, idx, e) && multiset(es) == multiset(start)
        invariant if up then HeapBelow(es, idx) else IsHeap(es)
        decreases up, idx
      {
        ghost var climbed;
        up, climbed := Climb(e, idx, es);
        if up {
          es, idx := climbed, Parent(idx);
        }
      }
      if up {
        Raised(es, 0);
      }
      Drop(idx, e, es);
    }

    method KeyAt(i: nat, hole: nat, ghost es: seq<Entry>, ghost e: Entry) returns (key: real)
      requires Holds(es, hole, e) && i < |es| && i != hole
      ensures key == es[i].key
    {
      assert es[i] == Entries(|es|)[i];
      key := keys[i];
    }

    /** The larger child of a hole, the right one on ties; none for a leaf. */
    method Larger(idx: nat, ghost es: seq<Entry>, ghost e: Entry) returns (child: nat)
      requires Holds(es, idx, e) && |es| == count
      ensures child >= count ==> forall i :: 0 < i < |es| ==> Parent(i) != idx
      ensures child < count ==> LargerChild(es, idx, child) && keys[child] == es[child].key
    {
      var right := idx * 2 + 2;
      child := idx * 2 + 1;
      assert forall i :: 0 <= i < count && i != idx ==> es[i] == Entries(count)[i];
      if right < count && keys[child] <= keys[right] {
        child := right;
      }
    }

    /** An entry replaces the root and sifts down toward the larger child. */
    method SiftDown(e: Entry)
      requires objs.Length == keys.Length == count > 0 && IsHeap(Entries(count))
      modifies objs, keys
      ensures IsHeap(Entries(count))
      ensures multiset(Entries(count)) == multiset(old(Entries(count))[0 := e])
    {
      ghost var es := Entries(count)[0 := e];
      ghost var all := multiset(es);
      var idx: nat := 0;
      while true
        invariant Holds(es, idx, e) && |es| == count && HeapAbove(es, idx) && multiset(es) == all
        decreases count - idx
      {
        var child := Larger(idx, es, e);
        if child >= count || keys[child] <= e.key {
          break;
        }
        Lower(es, idx, child);
        Pull(idx, child, es, e);
        es := Swap(es, idx, child);
        idx := child;
      }
      Lowered(es, idx);
      Drop(idx, e, es);
    }

    /** The root has the largest key. */
    lemma Farthest()
      requires objs.Length == keys.Length >= count > 0 && IsHeap(Entries(count))
      ensures Entry(keys[0], objs[0]) in multiset(Entries(count))
      ensures forall x :: x in multiset(Entries(count)) ==> x.key <= keys[0]
    {
      var es := Entries(count);
      assert es[0] == Entry(keys[0], objs[0]);
      forall x | x in multiset(es) ensures x.key <= keys[0] {
        var i :| 0 <= i < |es| && es[i] == x;
        RootIsLargest(es, i);
      }
    }

    /**
     * Offer one object: kept when there is room or when it is strictly nearer than the farthest kept; one
     * no nearer than that leaves a full heap exactly as it was.
     */
    method AddObject(distSq: real, handle: int)
      requires Valid()
      modifies this`count, this`offered, objs, keys
      ensures Valid() && offered == old(offered) + multiset{Entry(distSq, handle)}
      ensures multiset(Entries(count))
        == Offered(old(multiset(Entries(count))), old(Entry(keys[0], objs[0])), Entry(distSq, handle), keys.Length)
      ensures old(count == keys.Length && keys[0] <= distSq) ==> keys[..] == old(keys[..]) && objs[..] == old(objs[..])
    {
      var e := Entry(distSq, handle);
      OfferNext(e);
      offered := offered + multiset{e};
      Place(e);
    }

    lemma OfferNext(e: Entry)
      requires Valid()
      ensures KeepsNearest(Offered(multiset(Entries(count)), Entry(keys[0], objs[0]), e, keys.Length),
                           offered + multiset{e}, keys.Length)
    {
      if count > 0 {
        Farthest();
      }
      assert |multiset(Entries(count))| == |Entries(count)|;
      OfferKeepsNearest(multiset(Entries(count)), offered, Entry(keys[0], objs[0]), e, keys.Length);
    }

    method Place(e: Entry)
      requires objs.Length == keys.Length > 0 && count <= keys.Length && IsHeap(Entries(count))
      modifies this`count, objs, keys
      ensures count <= keys.Length && IsHeap(Entries(count))
      ensures multiset(Entries(count)) ==
        Offered(old(multiset(Entries(count))), old(Entry(keys[0], objs[0])), e, keys.Length)
      ensures old(count == keys.Length && keys[0] <= e.key) ==> keys[..] == old(keys[..]) && objs[..] == old(objs[..])
    {
      assert |multiset(Entries(count))| == |Entries(count)|;
      if count < keys.Length {
        ghost var start := Entries(count) + [e];
        Appended(Entries(count), e);
        assert Entries(count + 1)[count := e] == start;
        ghost var es := SiftUp(e, start);
        count := count + 1;
      } else if e.key < keys[0] {
        ReplaceRoot(Entries(count), e);
        SiftDown(e);
      }
    }
  }

  lemma ReplaceRoot(es: seq<Entry>, e: Entry)
    requires |es| > 0
    ensures multiset(es[0 := e]) == multiset(es) - multiset{es[0]} + multiset{e}
  {
  }
}
