# SinglyLinkedList, modelled as written

This project models the Java class `com.codecool.linkedlist.SinglyLinkedList<T>`
and proves properties of that model in Dafny.

Despite its name, the class keeps two pieces of state that its operations
update independently:

- a backing array `myArray` and a `size` counter. `add`, `get`, `insert` and
  `size` work on these, copying the array with `Arrays.copyOf` and
  `System.arraycopy`;
- a chain of `Link` nodes starting at `head`. Only `remove` walks and edits
  this chain. `add` and `insert` just overwrite `head` with a fresh node that
  has no successor.

The model follows the code, not the linked-list contract that the class's
documentation comments describe. Where they differ, the code wins:

- `insert` shifts correctly only at index 0, at index 1, or at an index at or
  past the end. At any other index one of its `System.arraycopy` calls goes
  out of bounds and the call fails.
- `remove` never touches the array or `size`.
- `indexOf` is a stub that always answers 0.
- As a result, inserting and then removing at the same index does not restore
  the elements, and `get` after `remove` still sees the removed element.

Files:

- `java_int.dfy` (module `JavaInt`): Java's 32-bit `int` range and wrap-around.
- `java_arrays.dfy` (module `JavaArrays`): `System.arraycopy` and
  `Arrays.copyOf`, modelled by their copy effect and bounds checks. The
  `Option` type used for failing calls is also here.
- `list_spec.dfy` (module `ListSpec`): what each operation does, stated on
  values, with lemmas:
  - `Appended`: `add` on the array contents.
  - `InsertSteps` and `Inserted`: `insert` as its copy steps and in closed form.
  - `LoopSteps`: how many times the walking loop of `remove` runs.
  - `Removed`: `remove` on the values along the chain.
- `singly_linked_list.dfy` (module `LinkedList`): the class itself.
  - `myArray` is an `array<T>` that the methods replace, `size` is an `int`,
    and `head` points to real `Link` objects.
  - Ghost fields list the chain's nodes (`nodes`), their values (`Chain`) and
    the objects that make up the list (`Repr`).
  - Each method is proved against the `ListSpec` function for its operation.
  - The ghost predicate `ShortChain` states what the operations keep true of
    the chain beyond `Valid`: it holds at most one node, and none while the
    array is empty.
  - Client methods (`ScenarioAdd`, `ScenarioInsert`, `ScenarioRemove`) walk
    through one scenario (remove 0 on a new list; add 10, 20, 30; insert 15
    at 1; remove 0) on the code as written. `ScenarioRemoveEmpty` shows that
    any `remove` on a list with an empty array fails.

Java exceptions become a `false` result, or `None` for `get`. A failing
operation leaves the list as it was, exactly as in the source: every failure
is raised before any field is assigned.

## Model

| member | source | states |
|---|---|---|
| `JavaInt.Wrap` | src/main/java/com/codecool/linkedlist/SinglyLinkedList.java:126-128 | Java `int` arithmetic: the result is always an `int`, equals the exact value when that fits, and is shifted by 2^32 after a single overflow or underflow (as `index - 1` is for `Integer.MIN_VALUE`) |
| `JavaArrays.ArrayCopied` | src/main/java/com/codecool/linkedlist/SinglyLinkedList.java:90-94 | `System.arraycopy` succeeds exactly when both positions and the length are non-negative and neither range runs past its array. On success the destination keeps its length, holds the source range at the destination positions, and is unchanged elsewhere |
| `JavaArrays.ArrayCopy` | src/main/java/com/codecool/linkedlist/SinglyLinkedList.java:90-94 | the array form of `System.arraycopy`: it succeeds exactly when `ArrayCopied` does, and then the destination's contents are `ArrayCopied`'s result. Otherwise the destination is untouched. The source is read as if through a temporary copy |
| `JavaArrays.CopyOf` | src/main/java/com/codecool/linkedlist/SinglyLinkedList.java:47 | `Arrays.copyOf` fails exactly for a negative length. Otherwise it returns a fresh array of that length whose leading slots equal the original's |
| `ListSpec.Appended` | src/main/java/com/codecool/linkedlist/SinglyLinkedList.java:46-51 | `add(v)` succeeds exactly when `size + 1` does not overflow. The array then grows by exactly one slot, holds `v` in that slot, and keeps every earlier slot unchanged |
| `ListSpec.AppendAllBuilds` | src/main/java/com/codecool/linkedlist/SinglyLinkedList.java:46-51 | a run of `add` calls with `v0..vn-1` turns contents `s` into `s + [v0..vn-1]`. It fails only when the total would pass the `int` range. So `n` adds from empty give `size() == n` and `get(i) == vi` |
| `ListSpec.InsertStepsAreInserted` | src/main/java/com/codecool/linkedlist/SinglyLinkedList.java:83-99 | the array steps of `insert`, whatever the fresh `copy` held, give: `add` for `index >= size`; `[v] + old` at 0; `old[..1] + [v] + old[1..]` at 1 (with `size > 1`); failure for `2 <= index < size`, for negative indices, and when `size + 1` overflows |
| `ListSpec.LoopStepsCount` | src/main/java/com/codecool/linkedlist/SinglyLinkedList.java:126-128 | the walking loop of `remove` runs `index - 1` times from `index >= 2`, and never from 1 or from a negative index. The exception is `Integer.MIN_VALUE`: there `index - 1` wraps and the loop runs `Integer.MAX_VALUE` times |
| `ListSpec.RemovedAt` | src/main/java/com/codecool/linkedlist/SinglyLinkedList.java:125-137 | `remove(i)` with `i >= 1` succeeds exactly when the chain has a node at position `i`, and then unlinks that node alone: `chain[..i] + chain[i+1..]` |
| `ListSpec.NegativeRemovesSecond` | src/main/java/com/codecool/linkedlist/SinglyLinkedList.java:125-137 | a negative index other than `Integer.MIN_VALUE` removes exactly as index 1 does, because the loop guard is false at once |
| `ListSpec.MinRemovesPastMax` | src/main/java/com/codecool/linkedlist/SinglyLinkedList.java:125-137 | `remove(Integer.MIN_VALUE)` acts on position 2^31: it succeeds exactly on a chain longer than 2^31 nodes, and then unlinks that node |
| `ListSpec.RemovedDropsOne` | src/main/java/com/codecool/linkedlist/SinglyLinkedList.java:116-137 | every successful `remove` drops exactly one position of the chain and keeps the order of the rest |
| `ListSpec.RemovedFromShortChain` | src/main/java/com/codecool/linkedlist/SinglyLinkedList.java:116-137 | on a chain of at most one node (all that `add` and `insert` ever leave), only `remove(0)` on a one-node chain succeeds, and it leaves the chain empty |
| `LinkedList.Link.constructor` | src/main/java/com/codecool/linkedlist/SinglyLinkedList.java:15-17 | a new node holds the given value and has no successor |
| `LinkedList.SinglyLinkedList.constructor` | src/main/java/com/codecool/linkedlist/SinglyLinkedList.java:34-37 | a new list satisfies the invariant, with no elements and no chain. The invariant includes `myArray.Length == size`. The chain invariant `ShortChain` (at most one node, and none while the array is empty) holds from the start |
| `LinkedList.SinglyLinkedList.Add` | src/main/java/com/codecool/linkedlist/SinglyLinkedList.java:46-51 | keeps the invariant. It succeeds exactly as `Appended` does, and the new elements are `Appended`'s result with `size` one larger. After success, `head` is a fresh single node holding the value and the old chain is discarded. A failure changes nothing. `ShortChain` is kept |
| `LinkedList.SinglyLinkedList.Get` | src/main/java/com/codecool/linkedlist/SinglyLinkedList.java:59-65 | although its guard (`index < size` or `index > 0`) lets almost every index through, `get` succeeds exactly for `0 <= index < size` and returns the element at that position. It reads and changes nothing else |
| `LinkedList.SinglyLinkedList.IndexOf` | src/main/java/com/codecool/linkedlist/SinglyLinkedList.java:73-75 | `indexOf` answers 0 whatever it is asked and whatever the list holds |
| `LinkedList.SinglyLinkedList.Size` | src/main/java/com/codecool/linkedlist/SinglyLinkedList.java:107-109 | `size()` is the number of elements in the array, with no side effect |
| `LinkedList.CopyWithInsert` | src/main/java/com/codecool/linkedlist/SinglyLinkedList.java:87-95 | the local `copy` of `insert` for an index below `size` is built exactly when `Inserted` succeeds. It is then a fresh array holding `Inserted`'s result. Otherwise one of the steps raised |
| `LinkedList.SinglyLinkedList.Insert` | src/main/java/com/codecool/linkedlist/SinglyLinkedList.java:83-100 | keeps the invariant. It succeeds exactly as `Inserted` does, the new elements are `Inserted`'s result, and `size` is one larger. After success, `head` is a fresh single node holding the value. A failed insert leaves `myArray`, `size` and the chain unchanged. `ShortChain` is kept |
| `LinkedList.SinglyLinkedList.ElementBefore` | src/main/java/com/codecool/linkedlist/SinglyLinkedList.java:125-132 | the walk ends on the node `LoopSteps(index)` positions down the chain, or on `null` when the chain is shorter. It modifies nothing |
| `LinkedList.SinglyLinkedList.UnlinkAfter` | src/main/java/com/codecool/linkedlist/SinglyLinkedList.java:133-137 | `setNext` on node `k` drops node `k + 1` from the chain and from the list's objects, keeps the invariant, and leaves the array, `size` and `head` alone |
| `LinkedList.SinglyLinkedList.Remove` | src/main/java/com/codecool/linkedlist/SinglyLinkedList.java:116-138 | keeps the invariant. It succeeds exactly as `Removed` does on the old chain, and the chain becomes `Removed`'s result. `myArray`, `size` and the elements never change. `ShortChain` is kept, and under it `remove` succeeds exactly for index 0 on a non-empty chain. So every `remove` on a list whose array is still empty fails |

## Left out

- Exception types: `IndexOutOfBoundsException`, `ArrayIndexOutOfBoundsException`, `NullPointerException` and `NegativeArraySizeException` all become the same failure outcome.
- The JVM's array length limit, which lies a little below `Integer.MAX_VALUE`, and `OutOfMemoryError` are not modelled. The model's `add` fails only where `size + 1` overflows `int`.
- The unchecked cast `(T[]) new Object[...]` and the `null` that Java puts in freshly allocated slots are not modelled: those slots hold unspecified values here. `InsertStepsAreInserted` shows that a successful `insert` never exposes them.
- Object identity and garbage collection of discarded `Link` nodes are not modelled beyond dropping them from `Repr`.
- `Link.getValue` has no caller in the class. `getNext` and `setNext` are modelled as direct reads and writes of `next`.
- `IndexOf`: only its literal behaviour (always 0) is modelled. The documented search ("index of the value, or -1") is not implemented by the source, so nothing is proved about it.
- The documented contracts of `insert` (shifting at any interior index) and `remove` (removing the element from the list and shrinking `size`) are not what the code does, so they are not proved. The insert-then-remove round trip does not hold for the code, and the model does not claim it.
- `Add`: Java's `add` returns nothing. The model returns a success flag only because the `size + 1` overflow can make the copy fail.
