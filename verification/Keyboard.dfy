/**
  kernel/keyboard.c: a process's keyboard buffer, a ring of 1024 characters.
 */
module Keyboard {
  const SIZE: int := 1024
  const NUL: char := '\0'

  /** `keyboard_get_next_index`. */
  function NextIndex(i: nat): nat {
    (i + 1) % SIZE
  }

  /** `keyboard_get_last_index`. */
  function LastIndex(i: nat): nat {
    (i + SIZE - 1) % SIZE
  }

  /** Where the k-th waiting character is stored, and which place in the queue a slot has. */
  function SlotOf(head: nat, k: nat): nat {
    (head + 1 + k) % SIZE
  }

  function PlaceOf(head: nat, slot: nat): nat
    requires head < SIZE
  {
    (slot + SIZE - head - 1) % SIZE
  }

  lemma SlotAndPlace(head: nat, k: nat)
    requires head < SIZE && k < SIZE
    ensures SlotOf(head, k) < SIZE && PlaceOf(head, SlotOf(head, k)) == k
  {
  }

  lemma PlaceAndSlot(head: nat, slot: nat)
    requires head < SIZE && slot < SIZE
    ensures PlaceOf(head, slot) < SIZE && SlotOf(head, PlaceOf(head, slot)) == slot
  {
  }

  lemma NextSlot(head: nat, size: nat)
    requires head < SIZE && size < SIZE
    ensures NextIndex((head + size) % SIZE) == SlotOf(head, size) == (head + (size + 1)) % SIZE
  {
  }

  /** The last of some waiting characters: its slot, which no other place has, and the slot before it. */
  lemma LastPlace(head: nat, size: nat)
    requires head < SIZE && 0 < size <= SIZE
    ensures var tail := (head + size) % SIZE;
      tail < SIZE && PlaceOf(head, tail) == size - 1 && LastIndex(tail) == (head + size - 1) % SIZE
    ensures forall j :: 0 <= j < SIZE && PlaceOf(head, j) == size - 1 ==> j == (head + size) % SIZE
  {
    SlotAndPlace(head, size - 1);
    forall j | 0 <= j < SIZE && PlaceOf(head, j) == size - 1 ensures j == (head + size) % SIZE {
      PlaceAndSlot(head, j);
    }
  }

  datatype Key = Push(c: char) | Pop | Backspace

  /** The queue a key operation makes of a queue: push at the back unless the character is NUL or the queue is full,
      pop at the front, backspace at the back. */
  function After(queue: string, key: Key): string {
    match key
    case Push(c) => if c == NUL || |queue| == SIZE then queue else queue + [c]
    case Pop => if queue == [] then queue else queue[1..]
    case Backspace => if queue == [] then queue else queue[..|queue| - 1]
  }

  function AfterAll(queue: string, keys: seq<Key>): string {
    if keys == [] then queue else After(AfterAll(queue, keys[..|keys| - 1]), keys[|keys| - 1])
  }

  /** What the pops return, in order; an empty queue gives NUL. */
  function Popped(queue: string, keys: seq<Key>): string {
    if keys == [] then []
    else
      var before := AfterAll(queue, keys[..|keys| - 1]);
      Popped(queue, keys[..|keys| - 1])
      + if keys[|keys| - 1].Pop? then [if before == [] then NUL else before[0]] else []
  }

  /** A backspace undoes a push exactly when the push was accepted, or the queue was empty. */
  lemma BackspaceUndoesPush(queue: string, c: char)
    requires |queue| <= SIZE
    ensures After(After(queue, Push(c)), Backspace) == queue <==> queue == [] || (c != NUL && |queue| < SIZE)
  {
    if c != NUL && |queue| < SIZE {
      assert After(queue, Push(c)) == queue + [c];
      assert (queue + [c])[..|queue|] == queue;
    } else if |queue| > 0 && (c == NUL || |queue| == SIZE) {
      assert After(queue, Push(c)) == queue;
      assert |queue[..|queue| - 1]| == |queue| - 1;
    }
  }

  /** Keys in two rows are keys in one. */
  lemma {:induction false} KeysJoin(queue: string, one: seq<Key>, two: seq<Key>)
    ensures AfterAll(queue, one + two) == AfterAll(AfterAll(queue, one), two)
    ensures Popped(queue, one + two) == Popped(queue, one) + Popped(AfterAll(queue, one), two)
    decreases |two|
  {
    hide After;
    if two == [] {
      assert one + two == one;
    } else {
      var front := two[..|two| - 1];
      KeysJoin(queue, one, front);
      assert (one + two)[..|one + two| - 1] == one + front;
    }
  }

  function Pushes(cs: string): seq<Key> {
    seq(|cs|, k requires 0 <= k < |cs| => Push(cs[k]))
  }

  function Pops(n: nat): seq<Key> {
    seq(n, _ => Pop)
  }

  /** Characters that fit stand behind what waits already, in the order they were pushed. */
  lemma {:induction false} PushInOrder(queue: string, cs: string)
    requires |queue| + |cs| <= SIZE && forall k :: 0 <= k < |cs| ==> cs[k] != NUL
    ensures AfterAll(queue, Pushes(cs)) == queue + cs && Popped(queue, Pushes(cs)) == []
    decreases |cs|
  {
    if cs == [] {
      assert queue + cs == queue;
    } else {
      var front := cs[..|cs| - 1];
      PushInOrder(queue, front);
      assert Pushes(cs)[..|cs| - 1] == Pushes(front) && queue + cs == queue + front + [cs[|cs| - 1]];
    }
  }

  /** What is typed, without the NULs. */
  function Typed(cs: string): string {
    if cs == [] then []
    else Typed(cs[..|cs| - 1]) + if cs[|cs| - 1] == '\0' then [] else [cs[|cs| - 1]]
  }

  /** Any characters: the NULs are skipped, and once 1024 characters wait the rest is dropped. */
  lemma {:induction false} PushesExact(queue: string, cs: string)
    requires |queue| <= 1024
    ensures var all := queue + Typed(cs);
      AfterAll(queue, Pushes(cs)) == if |all| <= 1024 then all else all[..1024]
    decreases |cs|
  {
    if cs == [] {
      assert queue + Typed(cs) == queue;
    } else {
      var front, c := cs[..|cs| - 1], cs[|cs| - 1];
      PushesExact(queue, front);
      assert Pushes(cs)[..|cs| - 1] == Pushes(front) && Pushes(cs)[|cs| - 1] == Push(c);
      assert queue + Typed(cs) == queue + Typed(front) + if c == '\0' then [] else [c];
    }
  }

  /** Pops take from the front, in order, and leave the rest. */
  lemma {:induction false} PopInOrder(queue: string, n: nat)
    requires n <= |queue|
    ensures Popped(queue, Pops(n)) == queue[..n] && AfterAll(queue, Pops(n)) == queue[n..]
    decreases n
  {
    if n > 0 {
      PopInOrder(queue, n - 1);
      assert Pops(n)[..n - 1] == Pops(n - 1) && queue[n - 1..][1..] == queue[n..];
      assert queue[..n] == queue[..n - 1] + [queue[n - 1..][0]];
    }
  }

  /** First in, first out: what waits, and then what is pushed, comes out in order, and nothing is left. */
  lemma FirstInFirstOut(queue: string, cs: string)
    requires |queue| + |cs| <= SIZE && forall k :: 0 <= k < |cs| ==> cs[k] != NUL
    ensures Popped(queue, Pushes(cs) + Pops(|queue| + |cs|)) == queue + cs
    ensures AfterAll(queue, Pushes(cs) + Pops(|queue| + |cs|)) == []
  {
    hide AfterAll, Popped, Pushes, Pops;
    PushInOrder(queue, cs);
    PopInOrder(queue + cs, |queue| + |cs|);
    KeysJoin(queue, Pushes(cs), Pops(|queue| + |cs|));
    assert (queue + cs)[..|queue + cs|] == queue + cs;
  }

  class Buffer {
    const buffer: array<char>
    var head: nat
    var tail: nat
    var size: nat
    ghost var queue: string

    /** The window after `head` holds the queue and every slot outside it is NUL. */
    ghost predicate Valid()
      reads this, buffer
    {
      && buffer.Length == SIZE && head < SIZE && size == |queue| <= SIZE && tail == (head + size) % SIZE
      && (forall k :: 0 <= k < |queue| ==> queue[k] != NUL)
      && forall j :: 0 <= j < SIZE ==> buffer[j] == if PlaceOf(head, j) < size then queue[PlaceOf(head, j)] else NUL
    }

    constructor ()
      ensures Valid() && queue == [] && fresh(buffer)
    {
      buffer := new char[SIZE](_ => NUL);
      head, tail, size, queue := 0, 0, 0, [];
    }

    /** `keyboard_push`. */
    method PushKey(c: char)
      requires Valid()
      modifies this, buffer
      ensures Valid() && queue == After(old(queue), Push(c))
    {
      hide PlaceOf, SlotOf;
      if c == NUL {
        return;
      }
      if size == SIZE {
        return;
      }
      var index := NextIndex(tail);
      SlotAndPlace(head, size);
      NextSlot(head, size);
      forall j | 0 <= j < SIZE && PlaceOf(head, j) == size ensures j == index {
        PlaceAndSlot(head, j);
      }
      buffer[index] := c;
      tail := index;
      size := size + 1;
      queue := queue + [c];
    }

    /** `keyboard_pop`. */
    method PopKey() returns (c: char)
      requires Valid()
      modifies this, buffer
      ensures Valid() && queue == After(old(queue), Pop)
      ensures c == if old(queue) == [] then NUL else old(queue)[0]
    {
      if size == 0 {
        return NUL;
      }
      var index := NextIndex(head);
      SlotAndPlace(head, 0);
      c := buffer[index];
      ghost var before := head;
      buffer[index] := NUL;
      head := index;
      size := size - 1;
      queue := queue[1..];
      forall j | 0 <= j < SIZE ensures PlaceOf(head, j) == if j == index then SIZE - 1 else PlaceOf(before, j) - 1 {
        PlaceAfterPop(before, j);
      }
    }

    /** `keyboard_backspace`. */
    method Erase()
      requires Valid()
      modifies this, buffer
      ensures Valid() && queue == After(old(queue), Backspace)
    {
      if size == 0 {
        return;
      }
      hide LastIndex, PlaceOf;
      LastPlace(head, size);
      buffer[tail] := NUL;
      var index := LastIndex(tail);
      tail := index;
      size := size - 1;
      queue := queue[..|queue| - 1];
    }

    /** Every sequence of key operations keeps the ring a refinement of the bounded queue. */
    method Run(keys: seq<Key>) returns (popped: string)
      requires Valid()
      modifies this, buffer
      ensures Valid() && queue == AfterAll(old(queue), keys) && popped == Popped(old(queue), keys)
    {
      popped := [];
      var i := 0;
      while i < |keys|
        invariant 0 <= i <= |keys| && Valid()
        invariant queue == AfterAll(old(queue), keys[..i]) && popped == Popped(old(queue), keys[..i])
      {
        assert keys[..i + 1][..i] == keys[..i];
        match keys[i] {
          case Push(c) => PushKey(c);
          case Pop => var c := PopKey(); popped := popped + [c];
          case Backspace => Erase();
        }
        i := i + 1;
      }
      assert keys[..i] == keys;
    }
  }

  /** On the ring itself: two keys typed come out in the order they were typed, and then there is nothing. */
  method TypeTwo(a: char, b: char) returns (first: char, second: char, third: char)
    requires a != NUL && b != NUL
    ensures first == a && second == b && third == NUL
  {
    var ring := new Buffer();
    var keys := [Push(a), Push(b)] + Pops(2);
    FirstInFirstOut([], [a, b]);
    assert Pushes([a, b]) == [Push(a), Push(b)] && [] + [a, b] == [a, b];
    var popped := ring.Run(keys);
    first, second := popped[0], popped[1];
    third := ring.PopKey();
  }

  lemma PlaceAfterPop(head: nat, j: nat)
    requires head < SIZE && j < SIZE
    ensures PlaceOf(NextIndex(head), j) == if j == NextIndex(head) then SIZE - 1 else PlaceOf(head, j) - 1
  {
  }
}
