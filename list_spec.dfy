/** What each operation of `SinglyLinkedList` does to the list's two pieces of
    state, stated on values: the backing array's contents (`add`, `insert`) and
    the values along the `head` chain (`remove`). Everything follows the code as
    written, including where it departs from its documentation comments. */
module ListSpec {

  import opened JavaInt
  import opened JavaArrays

  /** `add(v)` on array contents `s` (`size == |s|`): `Arrays.copyOf` to
      `size + 1` slots, computed in Java `int`, then a store at index `size`.
      The copy fails when `size + 1` wraps to a negative length. */
  function Appended<T>(s: seq<T>, v: T): (r: Option<seq<T>>)
    requires |s| <= MAX
    ensures r.Some? <==> |s| < MAX
    ensures r.Some? ==> |r.value| == |s| + 1 && r.value[|s|] == v && r.value[..|s|] == s
  {
    if Wrap(|s| + 1) < 0 then None else Some(s + [v])
  }

  /** A run of `add` calls, one per element of `vs`, stopping at the first
      that fails. */
  function AppendAll<T>(s: seq<T>, vs: seq<T>): Option<seq<T>>
    requires |s| <= MAX
    decreases |vs|
  {
    if vs == [] then Some(s)
    else
      match Appended(s, vs[0])
      case None => None
      case Some(t) => AppendAll(t, vs[1..])
  }

  /** Appending the values one by one from any start builds `s + vs`, and
      fails only once the size would pass Java's `int` range. */
  lemma {:induction false} AppendAllBuilds<T>(s: seq<T>, vs: seq<T>)
    requires |s| <= MAX
    ensures AppendAll(s, vs).Some? <==> |s| + |vs| <= MAX
    ensures AppendAll(s, vs).Some? ==> AppendAll(s, vs).value == s + vs
    decreases |vs|
  {
    if vs != [] && |s| < MAX {
      AppendAllBuilds(s + [vs[0]], vs[1..]);
      assert s + [vs[0]] + vs[1..] == s + vs;
    }
  }

  /** `insert(index, v)` on array contents `s`, step by step: the `add` branch
      for `index >= size`; otherwise a fresh `copy` of `size + 1` slots (whose
      initial contents are `blank`) filled by `System.arraycopy` calls around a
      store of `v`. A failing step raises, and the list keeps its old array. */
  function InsertSteps<T>(s: seq<T>, index: int, v: T, blank: seq<T>): Option<seq<T>>
    requires |s| <= MAX && IsInt(index) && |blank| == |s| + 1
  {
    if index >= |s| then Appended(s, v)
    else if Wrap(|s| + 1) < 0 then None
    else if index == 0 then
      ArrayCopied(s, 0, blank[0 := v], 1, |s|)
    else
      match ArrayCopied(s, 0, blank, 0, index)
      case None => None
      case Some(c) => ArrayCopied(s, index, c[index := v], index + 1, |s| - 1)
  }

  /** The outcome of `insert(index, v)` in closed form: past the end it is
      `add`; at 0 it prepends; at 1 (with two or more elements) it splices `v`
      in after the first element; at every other index below `size`, negative
      indices included, one of the copies goes out of bounds. */
  function Inserted<T>(s: seq<T>, index: int, v: T): Option<seq<T>>
    requires |s| <= MAX
  {
    if index >= |s| then Appended(s, v)
    else if |s| == MAX then None
    else if index == 0 then Some([v] + s)
    else if index == 1 then Some(s[..1] + [v] + s[1..])
    else None
  }

  /** The copy steps give the closed form whatever the fresh array held. */
  lemma InsertStepsAreInserted<T>(s: seq<T>, index: int, v: T, blank: seq<T>)
    requires |s| <= MAX && IsInt(index) && |blank| == |s| + 1
    ensures InsertSteps(s, index, v, blank) == Inserted(s, index, v)
  {
    if index < |s| && |s| < MAX {
      if index == 0 {
        var r := ArrayCopied(s, 0, blank[0 := v], 1, |s|);
        assert r.value == [v] + s by {
          assert forall i :: 0 <= i < |s| + 1 ==> r.value[i] == ([v] + s)[i];
        }
      } else if index == 1 {
        var c := ArrayCopied(s, 0, blank, 0, 1).value;
        var r := ArrayCopied(s, 1, c[1 := v], 2, |s| - 1);
        assert r.value == s[..1] + [v] + s[1..] by {
          assert forall i :: 0 <= i < |s| + 1 ==> r.value[i] == (s[..1] + [v] + s[1..])[i];
        }
      } else if index >= 2 {
        var c := ArrayCopied(s, 0, blank, 0, index);
        assert c.Some?;
        assert ArrayCopied(s, index, c.value[index := v], index + 1, |s| - 1).None?;
      }
    }
  }

  /** How many times the walking loop of `remove` runs: its guard is
      `index - 1 > 0` in Java `int` arithmetic and each pass decrements
      `index`. */
  function LoopSteps(index: int): nat
    requires IsInt(index)
    decreases if index == MIN then MAX + 1 else index
  {
    if Wrap(index - 1) > 0 then 1 + LoopSteps(Wrap(index - 1)) else 0
  }

  /** The loop runs `index - 1` times from `index >= 2`, not at all from 1 or
      from a negative index, except that `Integer.MIN_VALUE - 1` wraps round to
      `Integer.MAX_VALUE` and the loop then runs `MAX` times. */
  lemma {:induction false} LoopStepsCount(index: int)
    requires IsInt(index)
    ensures LoopSteps(index) == if index >= 2 then index - 1 else if index == MIN then MAX else 0
    decreases if index == MIN then MAX + 1 else index
  {
    if index >= 2 {
      LoopStepsCount(index - 1);
    } else if index == MIN {
      LoopStepsCount(MAX);
    }
  }

  /** `remove(index)` on the values along the `head` chain. Index 0 drops the
      head, and fails on an empty chain. Any other index walks `LoopSteps(index)`
      links to the node before the one to unlink; the walk fails when it runs
      off the chain, and so does the unlink when there is no next node. */
  function Removed<T>(chain: seq<T>, index: int): Option<seq<T>>
    requires IsInt(index)
  {
    if index == 0 then
      if chain == [] then None else Some(chain[1..])
    else
      var k := LoopSteps(index);
      if k + 1 < |chain| then Some(chain[..k + 1] + chain[k + 2..]) else None
  }

  /** A positive index unlinks exactly the node at that position, and fails
      exactly when the chain has no node there. */
  lemma RemovedAt<T>(chain: seq<T>, index: int)
    requires 1 <= index <= MAX
    ensures Removed(chain, index).Some? <==> index < |chain|
    ensures Removed(chain, index).Some? ==>
      Removed(chain, index).value == chain[..index] + chain[index + 1..]
  {
    LoopStepsCount(index);
  }

  /** A negative index other than `Integer.MIN_VALUE` behaves like index 1. */
  lemma NegativeRemovesSecond<T>(chain: seq<T>, index: int)
    requires MIN < index < 0
    ensures Removed(chain, index) == Removed(chain, 1)
  {
  }

  /** `Integer.MIN_VALUE` walks as if it were the index `2^31`, one past the
      largest `int`. */
  lemma MinRemovesPastMax<T>(chain: seq<T>)
    ensures Removed(chain, MIN).Some? <==> MAX + 1 < |chain|
    ensures Removed(chain, MIN).Some? ==>
      Removed(chain, MIN).value == chain[..MAX + 1] + chain[MAX + 2..]
  {
    LoopStepsCount(MIN);
  }

  /** A successful removal drops exactly one value and keeps the order of the
      rest: the result is the chain without one of its positions. */
  lemma RemovedDropsOne<T>(chain: seq<T>, index: int)
    requires IsInt(index)
    ensures Removed(chain, index).Some? ==>
      exists p :: 0 <= p < |chain| && Removed(chain, index).value == chain[..p] + chain[p + 1..]
  {
    if index == 0 && chain != [] {
      assert chain[1..] == chain[..0] + chain[0 + 1..];
    }
  }

  /** `add` and `insert` leave a chain of one node, and `remove` only shortens
      it, so the chain never holds more than one value. On such a chain only
      `remove(0)` succeeds, and only on a non-empty chain. */
  lemma RemovedFromShortChain<T>(chain: seq<T>, index: int)
    requires IsInt(index) && |chain| <= 1
    ensures Removed(chain, index).Some? <==> index == 0 && |chain| == 1
    ensures Removed(chain, index).Some? ==> Removed(chain, index).value == []
  {
  }
}
