/** The scenarios of the stack's demonstration program, as client methods
    whose postconditions are the values and error signals it expects. They
    are proved from the contracts of `ArrayStack.Stack` alone. */
module StackScenarios {
  import opened StackSpec
  import opened ArrayStack

  /** Decimal form of an integer, as the element's string form in the
      integer scenarios. */
  function DecimalString(n: int): (s: string)
    ensures |s| >= 1
  {
    if n < 0 then "-" + Digits(-n) else Digits(n)
  }

  function Digits(n: nat): (s: string)
    ensures |s| >= 1
    decreases n
  {
    var d := "0123456789"[n % 10];
    if n < 10 then [d] else Digits(n / 10) + [d]
  }

  function Identity(s: string): (r: string) {
    s
  }

  lemma TwoDigitDecimal(n: int)
    requires 10 <= n < 100
    ensures DecimalString(n) == ["0123456789"[n / 10], "0123456789"[n % 10]]
  {
    assert 1 <= n / 10 < 10;
    assert Digits(n / 10) == ["0123456789"[n / 10 % 10]];
    assert n / 10 % 10 == n / 10;
  }

  lemma NumberListings()
    ensures Join([Obj(10), Obj(20), Obj(30)], DecimalString) == "10;20;30"
    ensures Join([Obj(10), Obj(20)], DecimalString) == "10;20"
    ensures Join([Obj(10), Obj(20), Obj(99)], DecimalString) == "10;20;99"
  {
    TwoDigitDecimal(10);
    TwoDigitDecimal(20);
    TwoDigitDecimal(30);
    TwoDigitDecimal(99);
    assert [Obj(10), Obj(20), Obj(30)][..2] == [Obj(10), Obj(20)];
    assert [Obj(10), Obj(20), Obj(99)][..2] == [Obj(10), Obj(20)];
    assert [Obj(10), Obj(20)][..1] == [Obj(10)];
  }

  /** A fresh stack of capacity 3 holding 10, 20, 30 bottom to top. */
  method FilledNumberStack() returns (s: Stack<int>)
    ensures fresh(s) && fresh(s.data) && s.Valid()
    ensures s.Snap().Capacity() == 3 && s.Snap().Contents() == [Obj(10), Obj(20), Obj(30)]
  {
    s := new Stack<int>(3);
    var ok := s.Push(Obj(10));
    assert s.Snap().Contents() == [Obj(10)];
    ok := s.Push(Obj(20));
    assert s.Snap().Contents() == [Obj(10), Obj(20)];
    ok := s.Push(Obj(30));
  }

  /** Capacity 3: push 10, 20, 30; list, peek, list again, pop, push 99, then a push
      into the full stack. */
  method NumberScenario()
    returns (listed: string, peeked: Result<Ref<int>>, afterPeek: string, popped: Result<Ref<int>>,
             afterPop: string, afterPush: string, overflow: Outcome)
    ensures listed == "10;20;30" && afterPeek == "10;20;30"
    ensures peeked == Success(Obj(30)) && popped == Success(Obj(30))
    ensures afterPop == "10;20" && afterPush == "10;20;99"
    ensures overflow == Fail(StackFull)
  {
    NumberListings();
    var s := FilledNumberStack();
    listed := s.List(DecimalString);
    peeked := s.Peek();
    afterPeek := s.List(DecimalString);
    popped := s.Pop();
    assert s.Snap().Contents() == [Obj(10), Obj(20)];
    afterPop := s.List(DecimalString);
    var ok := s.Push(Obj(99));
    assert s.Snap().Contents() == [Obj(10), Obj(20), Obj(99)];
    afterPush := s.List(DecimalString);
    overflow := s.Push(Obj(111));
  }

  /** Pops every element until the stack is empty, then one pop more,
      which signals StackEmpty. */
  method DrainScenario<T>(s: Stack<T>) returns (popped: seq<Ref<T>>, last: Result<Ref<T>>)
    requires s.Valid()
    modifies s, s.data
    ensures s.Valid() && s.data == old(s.data)
    ensures popped == Reversed(old(s.Snap().Contents()))
    ensures s.Snap().Contents() == [] && last == Failure(StackEmpty)
  {
    ghost var start := s.Snap().Contents();
    ghost var rest := start;
    popped := [];
    while !s.IsEmpty()
      invariant s.Valid() && s.data == old(s.data)
      invariant rest == s.Snap().Contents()
      invariant start == rest + Reversed(popped)
      decreases |rest|
    {
      var x := s.Pop();
      PopStep(start, rest, s.Snap().Contents(), popped, x.value);
      rest := s.Snap().Contents();
      popped := popped + [x.value];
    }
    assert rest == [] && start == Reversed(popped);
    ReversedTwice(popped);
    last := s.Pop();
  }

  /** One round of the draining loop: the popped value moves from the top of
      the remaining contents to the end of the popped sequence. */
  lemma PopStep<T>(start: seq<T>, rest: seq<T>, rest': seq<T>, popped: seq<T>, x: T)
    requires start == rest + Reversed(popped) && rest == rest' + [x]
    ensures start == rest' + Reversed(popped + [x])
  {
    ReversedSnoc(popped, x);
  }

  lemma {:induction false} ReversedSnoc<T>(vs: seq<T>, x: T)
    ensures Reversed(vs + [x]) == [x] + Reversed(vs)
  {
    assert (vs + [x])[..|vs + [x]| - 1] == vs;
  }

  lemma {:induction false} ReversedTwice<T>(vs: seq<T>)
    ensures Reversed(Reversed(vs)) == vs
    decreases |vs|
  {
    if vs != [] {
      var init, x := vs[..|vs| - 1], vs[|vs| - 1];
      ReversedTwice(init);
      ReversedCons(x, Reversed(init));
      assert init + [x] == vs;
    }
  }

  lemma {:induction false} ReversedCons<T>(x: T, vs: seq<T>)
    ensures Reversed([x] + vs) == Reversed(vs) + [x]
    decreases |vs|
  {
    if vs != [] {
      var init := vs[..|vs| - 1];
      assert ([x] + vs)[..|vs|] == [x] + init;
      ReversedCons(x, init);
    }
  }

  lemma TextListings()
    ensures Join([Obj("A"), Obj("B"), Obj("C")], Identity) == "A;B;C"
    ensures Join([Obj("A"), Obj("B")], Identity) == "A;B"
    ensures Join([Obj("A"), Obj("B"), Obj("D"), Obj("E")], Identity) == "A;B;D;E"
  {
    assert [Obj("A"), Obj("B"), Obj("C")][..2] == [Obj("A"), Obj("B")];
    assert [Obj("A"), Obj("B"), Obj("D"), Obj("E")][..3] == [Obj("A"), Obj("B"), Obj("D")];
    assert [Obj("A"), Obj("B"), Obj("D")][..2] == [Obj("A"), Obj("B")];
    assert [Obj("A"), Obj("B")][..1] == [Obj("A")];
  }

  /** A fresh stack of capacity 4 holding "A", "B", "C" bottom to top. */
  method FilledTextStack() returns (s: Stack<string>)
    ensures fresh(s) && fresh(s.data) && s.Valid()
    ensures s.Snap().Capacity() == 4 && s.Snap().Contents() == [Obj("A"), Obj("B"), Obj("C")]
  {
    s := new Stack<string>(4);
    var ok := s.Push(Obj("A"));
    assert s.Snap().Contents() == [Obj("A")];
    ok := s.Push(Obj("B"));
    assert s.Snap().Contents() == [Obj("A"), Obj("B")];
    ok := s.Push(Obj("C"));
  }

  /** Capacity 4 with strings: push A, B, C; list, peek, list again, pop; push D and E
      to fill it; then a push into the full stack. */
  method TextScenario()
    returns (listed: string, peeked: Result<Ref<string>>, afterPeek: string, popped: Result<Ref<string>>,
             afterPop: string, full: string, overflow: Outcome)
    ensures listed == "A;B;C" && afterPeek == "A;B;C"
    ensures peeked == Success(Obj("C")) && popped == Success(Obj("C"))
    ensures afterPop == "A;B" && full == "A;B;D;E"
    ensures overflow == Fail(StackFull)
  {
    TextListings();
    var s := FilledTextStack();
    listed := s.List(Identity);
    peeked := s.Peek();
    afterPeek := s.List(Identity);
    popped := s.Pop();
    assert s.Snap().Contents() == [Obj("A"), Obj("B")];
    afterPop := s.List(Identity);
    var ok := s.Push(Obj("D"));
    assert s.Snap().Contents() == [Obj("A"), Obj("B"), Obj("D")];
    ok := s.Push(Obj("E"));
    assert s.Snap().Contents() == [Obj("A"), Obj("B"), Obj("D"), Obj("E")];
    full := s.List(Identity);
    overflow := s.Push(Obj("F"));
  }

  /** Peek on a never-pushed stack of capacity 2 signals StackEmpty. */
  method EmptyPeekScenario() returns (peeked: Result<Ref<string>>, listed: string)
    ensures peeked == Failure(StackEmpty) && listed == ""
  {
    var s := new Stack<string>(2);
    peeked := s.Peek();
    listed := s.List(Identity);
  }

  /** Capacities below one are rejected; the default stack holds ten. */
  method ConstructionScenario()
    returns (zero: Result<Stack<int>>, negative: Result<Stack<int>>, defaultCapacity: nat)
    ensures zero == Failure(IllegalArgument) && negative == Failure(IllegalArgument)
    ensures defaultCapacity == 10
  {
    zero := Stack<int>.New(0);
    negative := Stack<int>.New(-1);
    var s := new Stack<int>.Default();
    defaultCapacity := s.Capacity();
  }
}
