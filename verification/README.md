# Bounded array stack

A model of the generic, fixed-capacity LIFO stack `Stack<T>`: a backing
array whose length is the capacity, and a counter `size` of occupied leading
cells. The stack offers three constructors (default capacity 10, a checked
capacity, and restoring from a caller's array and size), `push` and `pop`
with explicit full/empty errors, `peek`, the `';'`-separated listing
`list()`, and the queries `size`, `capacity`, `isEmpty` and `isFull`.

The project has three modules:

- `StackSpec` (StackSpec.dfy) is the value-level specification. A
  `Snapshot(cells, size)` is the whole state of a stack. `Push`, `Pop` and
  `Peek` are functions on snapshots whose contracts give the success and
  error behaviour. `Join` is the listing. The lemmas prove LIFO order for
  any run of pushes and pops, push-then-pop, and a split/join round trip of
  the listing.
- `ArrayStack` (ArrayStack.dfy) is the class `Stack<T>` over
  `array<Ref<T>>`. Each method or function is proved to step or read the
  object's `Snap()` exactly as the matching `StackSpec` function does. The
  class also keeps the invariant `0 <= size <= data.Length` and never
  replaces the array, so the capacity never changes.
- `StackScenarios` (StackScenarios.dfy) holds the demonstration program's
  scenarios as client methods. Their postconditions are the values and
  errors the program expects. They are proved from the class contracts.

Modelling choices:

- A cell holds a `Ref<T>`: `Null` or `Obj(x)`. Java elements are references
  and `push(null)` is legal, so `Push` takes a `Ref<T>` and `Pop`/`Peek`
  return one. `pop` clears the vacated cell to `Null`, and `list()` renders a
  null cell as `"null"`, as `StringBuilder.append(Object)` does.
- The element's `toString` is a parameter `show: T -> string` of `List`.
- The checked exceptions are the `Error` variants `StackFull` and
  `StackEmpty`. The constructors' `IllegalArgumentException` is
  `IllegalArgument`. A Dafny constructor cannot fail, so the constructors
  carry the success condition as `requires`. The static methods `New` and
  `Restore` perform the source's argument check and return a `Result`.
- The restoring constructor adopts the caller's array by reference:
  `Adopt` and `Restore` ensure `data == cells`, so the aliasing is explicit.
- The restoring constructor checks only `0 <= size <= data.length`
  (src/Stack.java:45), so a restored stack may have capacity 0; capacity at
  least 1 holds only for stacks built with a capacity.
- Both argument checks, capacity below one and size out of range, throw the
  same `IllegalArgumentException` (src/Stack.java:27, :46), so the model has
  one error variant, `IllegalArgument`, for both.
- The restoring constructor stores the caller's array itself
  (src/Stack.java:48): the stack and the caller share it, and a write
  through the caller's reference changes the stack.
- `Clean()` says that every cell above the top is `Null`. The capacity
  constructors establish it, and `Push` and `Pop` preserve it. A restored
  stack need not have it. So push-then-pop restores the exact previous cells
  only when the written cell was `Null` before (`PushThenPop`).

## Model

| member | source | states |
|---|---|---|
| `ArrayStack.Stack.Default` | src/Stack.java:15-17 | the no-argument constructor gives capacity 10, size 0 and all cells cleared |
| `ArrayStack.Stack.constructor` | src/Stack.java:29-30 | for a capacity of at least 1: a fresh array of exactly that many cleared cells, size 0 |
| `ArrayStack.Stack.New` | src/Stack.java:25-31 | fails with IllegalArgument exactly when capacity < 1; otherwise yields an empty, clean stack whose capacity is the argument |
| `ArrayStack.Stack.Adopt` | src/Stack.java:48-49 | for 0 <= size <= cells.Length: the stack uses the caller's array itself, not a copy, with that size |
| `ArrayStack.Stack.Restore` | src/Stack.java:41-50 | fails with IllegalArgument exactly when size < 0 or size > cells.Length; otherwise adopts exactly that array and size, so capacity is the array's length, possibly 0 |
| `ArrayStack.Stack.Push` | src/Stack.java:58-64 | keeps 0 <= size <= capacity and the same array; the result and new state are those of `StackSpec.Push` on the old state |
| `ArrayStack.Stack.Pop` | src/Stack.java:72-83 | keeps 0 <= size <= capacity and the same array; the result and new state are those of `StackSpec.Pop` on the old state |
| `ArrayStack.Stack.Peek` | src/Stack.java:91-100 | agrees with `StackSpec.Peek` on the current state; as a function of the state, repeated peeks return the same value and change nothing |
| `ArrayStack.Stack.List` | src/Stack.java:108-115 | the loop's result is the occupied cells data[0..size) rendered bottom to top and separated by ';' (`Join`); it changes nothing |
| `ArrayStack.Stack.Size` | src/Stack.java:120-122 | the number of elements on the stack, never above the capacity |
| `ArrayStack.Stack.Capacity` | src/Stack.java:127-129 | the capacity is the number of backing cells |
| `ArrayStack.Stack.IsEmpty` | src/Stack.java:134-136 | true exactly when the stack holds no element |
| `ArrayStack.Stack.IsFull` | src/Stack.java:141-143 | true exactly when the number of elements equals the capacity |
| `StackSpec.Peek` | src/Stack.java:91-100 | StackEmpty exactly on an empty stack; otherwise the top element, the last of data[0..size) |
| `StackSpec.Push` | src/Stack.java:58-64 | StackFull exactly when size == capacity, and then the state is unchanged; otherwise size grows by one, the contents gain the value on top, every other cell is unchanged, capacity is kept, and clean stays clean |
| `StackSpec.Pop` | src/Stack.java:72-83 | StackEmpty exactly when size == 0, and then the state is unchanged; otherwise returns what Peek shows (the old top), clears that cell, shrinks size by one, leaves every other cell and the contents below unchanged, and keeps clean |
| `StackSpec.PushThenPop` | src/Stack.java:58-83 | a successful push of v then a pop returns v and restores the previous size and contents; the cells come back exactly when the written cell was cleared before |
| `StackSpec.PushAllAppends` | src/Stack.java:58-64 | pushing values that fit in the remaining capacity always succeeds and appends them, in order, to the contents |
| `StackSpec.PopNReverses` | src/Stack.java:72-83 | popping n times from a stack whose contents end in n values returns them top first and leaves the contents below |
| `StackSpec.LifoOrder` | src/Stack.java:58-83 | LIFO: pushing v1..vn (room permitting) and then popping n times yields vn..v1 and restores the previous contents |
| `StackSpec.JoinEmpty` | src/Stack.java:108-115 | the listing is "" exactly for the empty stack or a single element whose text is empty |
| `StackSpec.JoinAppend` | src/Stack.java:108-115 | the listing of two non-empty runs of cells is their listings joined by one ';' |
| `StackSpec.SplitJoin` | src/Stack.java:108-115 | when no element text contains ';', splitting the listing of a non-empty stack at ';' gives back each element's text in order |
| `StackScenarios.FilledNumberStack` | src/StackTest.java:15-21 | three successful pushes onto a new stack of capacity 3 leave 10, 20, 30 bottom to top |
| `StackScenarios.NumberScenario` | src/StackTest.java:15-54 | capacity 3: after pushing 10, 20, 30 the listing is "10;20;30", peek gives 30 and the listing is still "10;20;30", pop gives 30, then "10;20", after pushing 99 "10;20;99", and one more push signals StackFull |
| `StackScenarios.DrainScenario` | src/StackTest.java:57-71 | popping until empty returns the contents top first, and one more pop signals StackEmpty |
| `StackScenarios.FilledTextStack` | src/StackTest.java:78-84 | three successful pushes onto a new stack of capacity 4 leave "A", "B", "C" bottom to top |
| `StackScenarios.TextScenario` | src/StackTest.java:78-116 | capacity 4: "A;B;C", peek gives "C" and the listing is still "A;B;C", pop gives "C", then "A;B", after pushing D and E "A;B;D;E", and one more push signals StackFull |
| `StackScenarios.EmptyPeekScenario` | src/StackTest.java:119-127 | peek on a never-pushed stack of capacity 2 signals StackEmpty, and its listing is "" |
| `StackScenarios.ConstructionScenario` | src/Stack.java:15-31 | capacities 0 and -1 are rejected with IllegalArgument, and the default stack has capacity 10 |

## Left out

- Java's 32-bit `int` is not modelled. A Java array length is at most 2^31 - 1 and `size` never exceeds it, so `size++` cannot overflow.
- The `data == null` check of the restoring constructor has no counterpart, because Dafny arrays are never null.
- The exception messages are left out: errors are only the `Error` variants.
- An `OutOfMemoryError` on allocating a huge array is not modelled.
- The element's `toString` is a foreign call. It is the parameter `show`. The scenarios supply a decimal rendering for integers and the identity for strings.
- The `Object[]` storage and the unchecked `(T)` casts are a Java generics artifact. They are replaced by a typed `array<Ref<T>>`.
- The demonstration program's console output is I/O and is left out. Its expected values are the postconditions of the `StackScenarios` methods.
- Thread-safety and concurrent use are not part of the stack and are not modelled.
