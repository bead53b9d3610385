/** The `SinglyLinkedList<T>` class as written. It keeps two pieces of state
    that its operations update independently: a backing array with a `size`
    counter (used by `add`, `get`, `insert` and `size`), and a chain of `Link`
    nodes from `head` (walked and edited only by `remove`). Java exceptions
    become a `false` (or `None`) outcome that leaves the list unchanged. */
module LinkedList {

  import opened JavaInt
  import opened JavaArrays
  import opened ListSpec

  /** No value occurs twice in `s`. */
  ghost predicate Distinct<U>(s: seq<U>) {
    forall i, j :: 0 <= i < j < |s| ==> s[i] != s[j]
  }

  /** Dropping one position keeps a sequence free of repeats, and what was
      dropped no longer occurs in it. */
  lemma SpliceKeepsDistinct<U>(s: seq<U>, k: nat)
    requires Distinct(s) && k < |s|
    ensures Distinct(s[..k] + s[k + 1..])
    ensures s[k] !in s[..k] + s[k + 1..]
  {
  }

  /** A node of the `head` chain. */
  class Link<T> {
    var value: T
    var next: Link?<T>

    /** A node with no successor. */
    constructor (value: T)
      ensures this.value == value && next == null
    {
      this.value := value;
      this.next := null;
    }
  }

  class SinglyLinkedList<T(0)> {
    var size: int
    var myArray: array<T>
    var head: Link?<T>

    // Public view: the nodes along the chain from `head`, their values, and
    // the objects the list is made of.
    ghost var nodes: seq<Link<T>>
    ghost var Chain: seq<T>
    ghost var Repr: set<object>

    /** `size` is a Java `int` and counts the array's slots; `nodes` lists the
        chain from `head` in order, without repeats, ending in `null`. */
    ghost predicate Valid()
      reads this, Repr
    {
      this in Repr && myArray in Repr &&
      0 <= size <= MAX && myArray.Length == size &&
      |nodes| == |Chain| &&
      (forall i :: 0 <= i < |nodes| ==> nodes[i] in Repr) &&
      Distinct(nodes) &&
      head == NodeAt(0) &&
      (forall i :: 0 <= i < |nodes| ==> nodes[i].value == Chain[i]) &&
      // Triggered on the field read alone: `NodeAt(i + 1)` unfolds to
      // `nodes[i + 1]`, which must not set off the next instance.
      (forall i {:trigger nodes[i].next} :: 0 <= i < |nodes| ==> nodes[i].next == NodeAt(i + 1))
    }

    /** What `add`, `insert` and `remove` keep true of the chain on top of
        `Valid`: `add` and `insert` leave a single node and `remove` only
        shortens the chain, so it holds at most one node, and none at all
        while the array is still empty. */
    ghost predicate ShortChain()
      reads this
    {
      |Chain| <= 1 && (Chain != [] ==> size > 0)
    }

    /** The `i`-th node along the chain, or `null` past its end. */
    ghost function NodeAt(i: nat): Link?<T>
      reads this
    {
      if i < |nodes| then nodes[i] else null
    }

    /** The list's elements as `add`, `get` and `insert` see them. */
    ghost function Elements(): seq<T>
      reads this, Repr
      requires Valid()
    {
      myArray[..]
    }

    constructor ()
      ensures Valid() && ShortChain() && fresh(Repr)
      ensures Elements() == [] && Chain == [] && head == null
    {
      size := 0;
      myArray := new T[0];
      head := null;
      nodes := [];
      Chain := [];
      Repr := {this, myArray};
    }

    /** `add(value)`: copy the array one slot longer, store `value` in the new
        last slot, and replace the chain by a single fresh node. It fails only
        when `size + 1` overflows Java's `int`. */
    method Add(value: T) returns (ok: bool)
      requires Valid()
      modifies this
      ensures Valid() && fresh(Repr - old(Repr))
      ensures ok == Appended(old(Elements()), value).Some?
      ensures ok ==> Elements() == Appended(old(Elements()), value).value && size == old(size) + 1
      ensures ok ==> head != null && fresh(head) && head.value == value && head.next == null && Chain == [value]
      ensures !ok ==> myArray == old(myArray) && size == old(size) && head == old(head) &&
                      nodes == old(nodes) && Chain == old(Chain) && Repr == old(Repr)
      ensures old(ShortChain()) ==> ShortChain()
    {
      var copy := CopyOf(myArray, Wrap(size + 1));
      if copy == null {
        return false;
      }
      copy[size] := value;
      myArray := copy;
      head := new Link(value);
      size := size + 1;
      nodes := [head];
      Chain := [value];
      Repr := {this, myArray, head};
      assert myArray[..] == old(myArray[..]) + [value];
      ok := true;
    }

    /** `get(index)`: the guard `index < size || index > 0` lets every index
        through except 0 on an empty list; the array access then rejects the
        rest. So the call succeeds exactly on the valid positions. */
    function Get(index: int): (r: Option<T>)
      reads this, Repr
      requires Valid() && IsInt(index)
      ensures r.Some? <==> 0 <= index < |Elements()|
      ensures r.Some? ==> r.value == Elements()[index]
    {
      if index < size || index > 0 then
        if 0 <= index < myArray.Length then Some(myArray[index]) else None
      else
        None
    }

    /** `indexOf(number)`: a stub that answers 0 whatever it is asked. */
    function IndexOf(number: T): (r: int)
      ensures r == 0
    {
      0
    }

    /** `size()`: the element count, read from the field. */
    function Size(): (n: int)
      reads this, Repr
      requires Valid()
      ensures n == |Elements()|
    {
      size
    }

    /** `insert(index, number)`: `add` at or past the end; otherwise the array
        copies of `InsertSteps`, after which the chain is replaced by a single
        fresh node. A failed copy leaves the list as it was. */
    method Insert(index: int, number: T) returns (ok: bool)
      requires Valid() && IsInt(index)
      modifies this
      ensures Valid() && fresh(Repr - old(Repr))
      ensures ok == Inserted(old(Elements()), index, number).Some?
      ensures ok ==> Elements() == Inserted(old(Elements()), index, number).value && size == old(size) + 1
      ensures ok ==> head != null && fresh(head) && head.value == number && head.next == null && Chain == [number]
      ensures !ok ==> myArray == old(myArray) && size == old(size) && head == old(head) &&
                      nodes == old(nodes) && Chain == old(Chain) && Repr == old(Repr)
      ensures old(ShortChain()) ==> ShortChain()
    {
      if index >= size {
        ok := Add(number);
        return;
      }
      var copy := CopyWithInsert(myArray, index, number);
      if copy == null {
        return false;
      }
      myArray := copy;
      head := new Link(number);
      size := size + 1;
      nodes := [head];
      Chain := [number];
      Repr := {this, myArray, head};
      ok := true;
    }

    /** The walk of `remove(index)` for an index other than 0: starting at
        `head`, step to the next node while `index - 1 > 0` (in Java `int`
        arithmetic), decrementing `index`. Stepping from or onto `null` raises;
        either way the result is `null`, so the walk ends on the node
        `LoopSteps(index)` places down the chain, or on `null` when the chain
        is shorter than that. */
    method ElementBefore(index: int) returns (elementBeforeIndex: Link?<T>)
      requires Valid() && IsInt(index)
      ensures elementBeforeIndex == NodeAt(LoopSteps(index))
    {
      elementBeforeIndex := head;
      var i := index;
      ghost var walked := 0;
      while Wrap(i - 1) > 0
        invariant IsInt(i)
        invariant walked + LoopSteps(i) == LoopSteps(index)
        invariant elementBeforeIndex == NodeAt(walked)
        decreases if i == MIN then MAX + 1 else i
      {
        if elementBeforeIndex == null {
          return null;
        }
        elementBeforeIndex := elementBeforeIndex.next;
        i := Wrap(i - 1);
        walked := walked + 1;
        if elementBeforeIndex == null {
          return null;
        }
      }
    }

    /** `elementBeforeIndex.setNext(elementAtIndex.getNext())` at the end of
        `remove`: the `k`-th node skips its successor, which leaves the chain. */
    method UnlinkAfter(elementBeforeIndex: Link<T>, ghost k: nat)
      requires Valid() && k + 1 < |nodes| && elementBeforeIndex == nodes[k]
      modifies this, elementBeforeIndex
      ensures Valid() && Repr == old(Repr) - {old(nodes[k + 1])}
      ensures Chain == old(Chain[..k + 1] + Chain[k + 2..])
      ensures myArray == old(myArray) && size == old(size) && head == old(head)
    {
      var elementAtIndex := elementBeforeIndex.next;
      ghost var oldNodes, oldChain := nodes, Chain;
      SpliceKeepsDistinct(oldNodes, k + 1);
      elementBeforeIndex.next := elementAtIndex.next;
      nodes := nodes[..k + 1] + nodes[k + 2..];
      Chain := Chain[..k + 1] + Chain[k + 2..];
      Repr := Repr - {elementAtIndex};
      forall p | 0 <= p < |nodes|
        ensures nodes[p] in Repr && nodes[p].value == Chain[p]
        ensures nodes[p].next == NodeAt(p + 1)
      {
        var q := if p <= k then p else p + 1;
        assert nodes[p] == oldNodes[q] && Chain[p] == oldChain[q];
        assert p + 1 < |nodes| ==> nodes[p + 1] == oldNodes[if p < k then p + 1 else p + 2];
      }
    }

    /** `remove(index)`: edits the chain only. Index 0 moves `head` on; any
        other index walks `elementBeforeIndex` along the chain while
        `index - 1 > 0` and then unlinks its successor. Running off the chain
        (a null node) fails. The array and `size` are never touched. */
    method Remove(index: int) returns (ok: bool)
      requires Valid() && IsInt(index)
      modifies Repr
      ensures Valid() && Repr <= old(Repr)
      ensures ok == Removed(old(Chain), index).Some?
      ensures Chain == if ok then Removed(old(Chain), index).value else old(Chain)
      ensures myArray == old(myArray) && size == old(size) && Elements() == old(Elements())
      ensures old(ShortChain()) ==> ShortChain() && (ok <==> index == 0 && old(Chain) != [])
    {
      if ShortChain() {
        RemovedFromShortChain(Chain, index);
      }
      if index == 0 {
        if head == null {
          return false;
        }
        ghost var gone := head;
        head := head.next;
        nodes := nodes[1..];
        Chain := Chain[1..];
        Repr := Repr - {gone};
        forall p | 0 <= p < |nodes|
          ensures nodes[p] in Repr && nodes[p].value == Chain[p]
          ensures nodes[p].next == NodeAt(p + 1)
        {
          assert nodes[p] == old(nodes)[p + 1] != old(nodes)[0];
        }
        return true;
      }
      var elementBeforeIndex := ElementBefore(index);
      ghost var walked := LoopSteps(index);
      if elementBeforeIndex == null {
        return false;
      }
      var elementAtIndex := elementBeforeIndex.next;
      if elementAtIndex == null {
        return false;
      }
      UnlinkAfter(elementBeforeIndex, walked);
      ok := true;
    }
  }

  /** The local `copy` that `insert` builds for an index below `size`:
      `new Object[size + 1]` (a negative length when `size + 1` overflows), the
      new value stored, and the old elements copied around it with
      `System.arraycopy`. `null` stands for the exception any step raises. */
  method CopyWithInsert<T(0)>(a: array<T>, index: int, number: T) returns (copy: array?<T>)
    requires a.Length <= MAX && IsInt(index) && index < a.Length
    ensures copy == null <==> Inserted(a[..], index, number).None?
    ensures copy != null ==> fresh(copy) && copy[..] == Inserted(a[..], index, number).value
  {
    var length := Wrap(a.Length + 1);
    if length < 0 {
      return null;
    }
    copy := new T[length];
    ghost var blank := copy[..];
    var ok;
    if index == 0 {
      copy[0] := number;
      ok := ArrayCopy(a, 0, copy, 1, a.Length);
    } else {
      ok := ArrayCopy(a, 0, copy, 0, index);
      if ok {
        copy[index] := number;
        ok := ArrayCopy(a, index, copy, index + 1, a.Length - 1);
      }
    }
    InsertStepsAreInserted(a[..], index, number, blank);
    if !ok {
      return null;
    }
  }

  // One scenario (add 10, 20, 30; insert 15 at 1; remove 0) on the code as
  // written, one phase per method.

  /** `remove(0)` on a new list fails; three `add` calls then build the
      elements in order. */
  method ScenarioAdd() {
    var list := new SinglyLinkedList<int>();
    var ok := list.Remove(0);
    assert !ok;
    ok := list.Add(10);
    ok := list.Add(20);
    ok := list.Add(30);
    assert list.Size() == 3 && list.Get(0) == Some(10) && list.Get(1) == Some(20) && list.Get(2) == Some(30);
    assert list.Get(3) == None && list.Get(-1) == None;
  }

  /** `insert(1, 15)` on three elements splices 15 in at position 1 and leaves
      a chain holding only 15; `insert(2, 25)` fails and changes nothing. */
  method ScenarioInsert(list: SinglyLinkedList<int>)
    requires list.Valid() && list.Elements() == [10, 20, 30]
    modifies list
  {
    var ok := list.Insert(1, 15);
    assert list.Get(1) == Some(15) && list.Get(2) == Some(20) && list.Size() == 4;
    assert list.Chain == [15];
    ok := list.Insert(2, 25);
    assert !ok && list.Elements() == [10, 15, 20, 30];
  }

  /** On a list whose array is empty, every `remove` fails. */
  method ScenarioRemoveEmpty(list: SinglyLinkedList<int>, index: int)
    requires list.Valid() && list.ShortChain() && list.Size() == 0 && IsInt(index)
    modifies list.Repr
  {
    var ok := list.Remove(index);
    assert !ok;
  }

  /** `remove(0)` only drops the one-node chain: the elements and the size
      stay as they were, and a second `remove(0)` fails. */
  method ScenarioRemove(list: SinglyLinkedList<int>)
    requires list.Valid() && list.Elements() == [10, 15, 20, 30] && list.Chain == [15]
    modifies list.Repr
  {
    var ok := list.Remove(0);
    assert ok && list.Chain == [];
    assert list.Get(0) == Some(10) && list.Size() == 4;
    ok := list.Remove(0);
    assert !ok;
  }
}
