/** The ring buffer used by the texture cache: a queue whose slots have stable indices. */
module RingFifo {

  /** The slot after `i`, modulo the size. */
  function Successor(i: nat, size: nat): (r: nat)
    requires i < size
    ensures r == if i + 1 == size then 0 else i + 1
  {
    (i + 1) % size
  }

  class Fifo<T(0)> {
    const size: nat
    const data: array<T>
    var head: nat
    var tail: nat
    var num: nat

    constructor (size: nat)
      requires 0 < size
      ensures Valid() && this.size == size && Contents() == [] && fresh(data)
    {
      this.size := size;
      data := new T[size];
      head, tail, num := 0, 0, 0;
    }

    ghost predicate Valid()
      reads this
    {
      && 0 < size == data.Length && num <= size
      && head < size && tail < size
      && head == Slot(num)
    }

    /** The slot of the i-th oldest element. */
    ghost function Slot(i: nat): (r: nat)
      requires 0 < size && tail < size && i <= size
      reads this
      ensures r < size
    {
      if tail + i < size then tail + i else tail + i - size
    }

    ghost function Contents(): (s: seq<T>)
      requires Valid()
      reads this, data
      ensures |s| == num
    {
      seq(num, i requires 0 <= i < num && Valid() reads this, data => data[Slot(i)])
    }

    predicate Full()
      reads this
    {
      num == size
    }

    predicate Empty()
      reads this
    {
      num == 0
    }

    method Push(e: T) returns (slot: nat)
      requires Valid() && !Full()
      modifies this, data
      ensures Valid() && Contents() == old(Contents()) + [e]
      ensures tail == old(tail) && slot == Slot(old(num))
      ensures forall i :: 0 <= i <= old(num) ==> Slot(i) == old(Slot(i))
    {
      data[head] := e;
      slot := head;
      head := Successor(head, size);
      num := num + 1;
    }

    method Pop() returns (e: T)
      requires Valid() && !Empty()
      modifies this
      ensures Valid() && e == old(Contents())[0] && Contents() == old(Contents())[1..]
      ensures forall i :: 0 <= i < num ==> Slot(i) == old(Slot(i + 1))
    {
      e := data[tail];
      tail := Successor(tail, size);
      num := num - 1;
    }

    method PeekAt(index: nat) returns (e: T)
      requires Valid() && index < size
      ensures e == data[index]
      ensures forall i :: 0 <= i < num && Slot(i) == index ==> e == Contents()[i]
    {
      e := data[index];
    }

    /** Overwrites an element in place. */
    method UpdateAt(index: nat, e: T, ghost i: nat)
      requires Valid() && i < num && index == Slot(i)
      modifies data
      ensures Valid() && Contents() == old(Contents())[i := e]
    {
      data[index] := e;
    }

    method NextPopIndex() returns (slot: nat)
      requires Valid()
      ensures slot == Slot(0)
    {
      slot := tail;
    }
  }
}
