/** The delay queue: a linked list padded with bubbles, so that an item spends a minimum time in it. */
module DelayQueue {

  /** A slot of the queue: an item or a bubble. */
  datatype Slot<T> = Bubble | Item(value: T)

  // ----- what the operations do to the slots -----

  /** A push fills the last slot if that is a bubble in a queue of sufficient length. */
  function Pushed<T>(q: seq<Slot<T>>, minLen: nat, x: Slot<T>): (r: seq<Slot<T>>) {
    if q != [] && q[|q| - 1].Bubble? && minLen <= |q| then q[..|q| - 1] + [x] else q + [x]
  }

  function Popped<T>(q: seq<Slot<T>>, minLen: nat): (r: seq<Slot<T>>) {
    if q == [] then []
    else if |q| - 1 < minLen then q[1..] + [Bubble]
    else q[1..]
  }

  function Top<T>(q: seq<Slot<T>>): Slot<T> {
    if q == [] then Bubble else q[0]
  }

  function Padded<T>(q: seq<Slot<T>>, minLen: nat): seq<Slot<T>>
    decreases minLen - |q|
  {
    if minLen <= |q| then q else Padded(q + [Bubble], minLen)
  }

  function Trimmed<T>(q: seq<Slot<T>>, minLen: nat): seq<Slot<T>>
    decreases |q|
  {
    if |q| <= minLen || q[|q| - 1].Item? then q else Trimmed(q[..|q| - 1], minLen)
  }

  /** The queue after its minimum length has been changed. */
  function Resized<T>(q: seq<Slot<T>>, minLen: nat, newMinLen: nat): seq<Slot<T>> {
    if newMinLen == minLen then q
    else if newMinLen > minLen then Padded(q, newMinLen)
    else Trimmed(q, newMinLen)
  }

  // ----- order: what comes out is what went in -----

  function Items<T>(q: seq<Slot<T>>): seq<T> {
    if q == [] then []
    else Items(q[..|q| - 1]) + if q[|q| - 1].Item? then [q[|q| - 1].value] else []
  }

  lemma {:induction false} ItemsConcat<T>(p: seq<Slot<T>>, q: seq<Slot<T>>)
    ensures Items(p + q) == Items(p) + Items(q)
  {
    if q == [] {
      assert p + q == p;
    } else {
      assert (p + q)[..|p + q| - 1] == p + q[..|q| - 1];
      ItemsConcat(p, q[..|q| - 1]);
    }
  }

  lemma {:induction false} PaddingAddsNoItem<T>(q: seq<Slot<T>>, minLen: nat)
    ensures Items(Padded(q, minLen)) == Items(q) && |Padded(q, minLen)| == if |q| < minLen then minLen else |q|
    decreases minLen - |q|
  {
    if |q| < minLen {
      ItemsConcat(q, [Bubble]);
      PaddingAddsNoItem(q + [Bubble], minLen);
    }
  }

  lemma {:induction false} TrimmingDropsNoItem<T>(q: seq<Slot<T>>, minLen: nat)
    ensures Items(Trimmed(q, minLen)) == Items(q)
    ensures |Trimmed(q, minLen)| <= |q| && (minLen <= |q| ==> minLen <= |Trimmed(q, minLen)|)
    decreases |q|
  {
    if |q| > minLen && q[|q| - 1].Bubble? {
      TrimmingDropsNoItem(q[..|q| - 1], minLen);
    }
  }

  datatype Op<T> = Push(slot: Slot<T>) | Pop | SetMinLength(minLen: nat)

  datatype Queue<T> = Queue(slots: seq<Slot<T>>, minLen: nat)

  function Applied<T>(q: Queue<T>, op: Op<T>): Queue<T> {
    match op
    case Push(x) => q.(slots := Pushed(q.slots, q.minLen, x))
    case Pop => q.(slots := Popped(q.slots, q.minLen))
    case SetMinLength(n) => Queue(Resized(q.slots, q.minLen, n), n)
  }

  function After<T>(q: Queue<T>, ops: seq<Op<T>>): Queue<T> {
    if ops == [] then q else Applied(After(q, ops[..|ops| - 1]), ops[|ops| - 1])
  }

  function Input<T>(op: Op<T>): seq<T> {
    if op.Push? && op.slot.Item? then [op.slot.value] else []
  }

  function Output<T>(q: Queue<T>, op: Op<T>): seq<T> {
    if op.Pop? && Top(q.slots).Item? then [Top(q.slots).value] else []
  }

  /** The items pushed by a sequence of operations. */
  function Inputs<T>(ops: seq<Op<T>>): seq<T> {
    if ops == [] then [] else Inputs(ops[..|ops| - 1]) + Input(ops[|ops| - 1])
  }

  /** The items popped by a sequence of operations. */
  function Outputs<T>(q: Queue<T>, ops: seq<Op<T>>): seq<T> {
    if ops == [] then []
    else Outputs(q, ops[..|ops| - 1]) + Output(After(q, ops[..|ops| - 1]), ops[|ops| - 1])
  }

  lemma ItemsAppend<T>(s: seq<Slot<T>>, x: Slot<T>)
    ensures Items(s + [x]) == Items(s) + if x.Item? then [x.value] else []
  {
    var t := s + [x];
    assert t[..|t| - 1] == s && t[|t| - 1] == x;
  }

  lemma PushKeepsOrder<T>(s: seq<Slot<T>>, minLen: nat, x: Slot<T>)
    ensures Items(Pushed(s, minLen, x)) == Items(s) + Input(Push(x))
  {
    if s != [] && s[|s| - 1].Bubble? && minLen <= |s| {
      ItemsAppend(s[..|s| - 1], x);
    } else {
      ItemsAppend(s, x);
    }
  }

  lemma PopKeepsOrder<T>(s: seq<Slot<T>>, minLen: nat)
    ensures (if Top(s).Item? then [Top(s).value] else []) + Items(Popped(s, minLen)) == Items(s)
  {
    if s != [] {
      assert s == [s[0]] + s[1..];
      ItemsConcat([s[0]], s[1..]);
      assert [s[0]][..0] == [];
      assert (s[1..] + [Bubble])[..|s| - 1] == s[1..];
    }
  }

  /** One operation moves items only from the input to the queue and from the queue to the output. */
  lemma OperationKeepsOrder<T>(q: Queue<T>, op: Op<T>)
    ensures Output(q, op) + Items(Applied(q, op).slots) == Items(q.slots) + Input(op)
  {
    match op {
      case Push(x) => PushKeepsOrder(q.slots, q.minLen, x);
      case Pop => PopKeepsOrder(q.slots, q.minLen);
      case SetMinLength(n) =>
        PaddingAddsNoItem(q.slots, n);
        TrimmingDropsNoItem(q.slots, n);
    }
  }

  lemma Chain<T>(outs: seq<T>, out: seq<T>, left: seq<T>, mid: seq<T>, in_: seq<T>, start: seq<T>, ins: seq<T>)
    requires outs + mid == start + ins && out + left == mid + in_
    ensures (outs + out) + left == start + (ins + in_)
  {
    assert (outs + out) + left == outs + (out + left);
    assert outs + (mid + in_) == (outs + mid) + in_;
  }

  /** For every sequence of pushes, pops and changes of length: the items that came out, followed by those
      still queued, are those queued at first, followed by those that went in. */
  lemma {:induction false} ItemsComeOutInOrder<T>(q: Queue<T>, ops: seq<Op<T>>)
    ensures Outputs(q, ops) + Items(After(q, ops).slots) == Items(q.slots) + Inputs(ops)
  {
    if ops != [] {
      var before, op := ops[..|ops| - 1], ops[|ops| - 1];
      var q' := After(q, before);
      ItemsComeOutInOrder(q, before);
      OperationKeepsOrder(q', op);
      Chain(Outputs(q, before), Output(q', op), Items(Applied(q', op).slots), Items(q'.slots), Input(op),
            Items(q.slots), Inputs(before));
    }
  }

  // ----- delay: how long an item stays -----

  function Pops<T>(ops: seq<Op<T>>): nat {
    if ops == [] then 0 else Pops(ops[..|ops| - 1]) + if ops[|ops| - 1].Pop? then 1 else 0
  }

  lemma {:induction false} PaddingKeepsPlaces<T>(q: seq<Slot<T>>, minLen: nat)
    ensures q <= Padded(q, minLen)
    ensures forall k :: |q| <= k < |Padded(q, minLen)| ==> Padded(q, minLen)[k].Bubble?
    decreases minLen - |q|
  {
    if |q| < minLen {
      PaddingKeepsPlaces(q + [Bubble], minLen);
    }
  }

  /** Only bubbles are trimmed, from the end, and no more of them than asked for. */
  lemma {:induction false} TrimmingKeepsPlaces<T>(q: seq<Slot<T>>, minLen: nat)
    ensures var r := Trimmed(q, minLen);
      && r <= q && (forall k :: |r| <= k < |q| ==> q[k].Bubble?)
      && (minLen < |r| ==> r[|r| - 1].Item?)
      && (minLen <= |q| ==> minLen <= |r|)
    decreases |q|
  {
    if |q| > minLen && q[|q| - 1].Bubble? {
      TrimmingKeepsPlaces(q[..|q| - 1], minLen);
    }
  }

  lemma ItemAdvancesOnce<T>(q: Queue<T>, op: Op<T>, i: nat, x: T)
    requires i < |q.slots| && q.slots[i] == Item(x) && (op.Pop? ==> 0 < i)
    ensures var s := Applied(q, op).slots;
      if op.Pop? then i - 1 < |s| && s[i - 1] == Item(x) else i < |s| && s[i] == Item(x)
  {
    if op.SetMinLength? {
      PaddingKeepsPlaces(q.slots, op.minLen);
      TrimmingKeepsPlaces(q.slots, op.minLen);
    }
  }

  /** An item moves forward by one slot per pop and is moved by nothing else, not by a change of length either. */
  lemma {:induction false} ItemAdvances<T>(q: Queue<T>, ops: seq<Op<T>>, i: nat, x: T)
    requires i < |q.slots| && q.slots[i] == Item(x) && Pops(ops) <= i
    ensures var s := After(q, ops).slots; i - Pops(ops) < |s| && s[i - Pops(ops)] == Item(x)
  {
    if ops != [] {
      var before := ops[..|ops| - 1];
      ItemAdvances(q, before, i, x);
      ItemAdvancesOnce(After(q, before), ops[|ops| - 1], i - Pops(before), x);
    }
  }

  /** With a minimum length L, an item that takes the place of the tail bubble of a queue of L slots comes
      out with exactly the L-th following pop, whatever is done to the queue in between. */
  lemma ItemIsDelayed<T>(q: Queue<T>, x: T, ops: seq<Op<T>>)
    requires 0 < q.minLen == |q.slots| && q.slots[q.minLen - 1].Bubble?
    requires Pops(ops) == q.minLen - 1
    ensures Top(After(Applied(q, Push(Item(x))), ops).slots) == Item(x)
  {
    ItemAdvances(Applied(q, Push(Item(x))), ops, q.minLen - 1, x);
  }

  /** No slot beyond the minimum length is wasted: a longer queue ends in an item. */
  ghost predicate Tight<T>(q: Queue<T>) {
    q.minLen <= |q.slots| && (q.minLen < |q.slots| ==> q.slots[|q.slots| - 1].Item?)
  }

  /** Pops, pushes of items and changes of length keep a queue tight. */
  lemma StaysTight<T>(q: Queue<T>, op: Op<T>)
    requires Tight(q) && (op.Push? ==> op.slot.Item?)
    ensures Tight(Applied(q, op))
  {
    if op.SetMinLength? {
      PaddingAddsNoItem(q.slots, op.minLen);
      PaddingKeepsPlaces(q.slots, op.minLen);
      TrimmingKeepsPlaces(q.slots, op.minLen);
    }
  }

  /** An item pushed when the minimum length is set to L takes the last place, the L-th or a later one. It takes
      exactly the L-th if no item before it has to be waited for at that place or behind. */
  lemma ItemTakesPlace<T>(q: Queue<T>, latency: nat, x: T)
    requires Tight(q)
    ensures var s := Applied(Applied(q, SetMinLength(latency)), Push(Item(x))).slots;
      && s != [] && s[|s| - 1] == Item(x) && latency <= |s|
      && (0 < latency && (forall k :: latency - 1 <= k < |q.slots| ==> q.slots[k].Bubble?) ==> |s| == latency)
  {
    var q' := Applied(q, SetMinLength(latency));
    StaysTight(q, SetMinLength(latency));
    PaddingAddsNoItem(q.slots, latency);
    PaddingKeepsPlaces(q.slots, latency);
    TrimmingKeepsPlaces(q.slots, latency);
    if 0 < latency && forall k :: latency - 1 <= k < |q.slots| ==> q.slots[k].Bubble? {
      assert |q'.slots| == latency && q'.slots[latency - 1].Bubble?;
    }
  }

  /** So it comes out with the L-th following pop, or with a later one if it has to wait for items before it. */
  lemma ItemLeavesAfterLatency<T>(q: Queue<T>, latency: nat, x: T, ops: seq<Op<T>>)
    requires Tight(q)
    requires Pops(ops) == |Applied(Applied(q, SetMinLength(latency)), Push(Item(x))).slots| - 1
    ensures Top(After(Applied(Applied(q, SetMinLength(latency)), Push(Item(x))), ops).slots) == Item(x)
    ensures latency <= Pops(ops) + 1
  {
    ItemTakesPlace(q, latency, x);
    ItemAdvances(Applied(Applied(q, SetMinLength(latency)), Push(Item(x))), ops, Pops(ops), x);
  }

  // ----- the linked list -----

  class Node<T> {
    var data: Slot<T>
    var next: Node?<T>

    constructor (data: Slot<T>)
      ensures this.data == data && next == null
    {
      this.data := data;
      next := null;
    }
  }

  class FifoPipeline<T> {
    var minLen: nat
    const maxLen: nat
    var length: nat
    var head: Node?<T>
    var tail: Node?<T>
    ghost var nodes: seq<Node<T>>

    ghost function Repr(): set<Node<T>>
      reads this
    {
      set n | n in nodes
    }

    /** The nodes are linked in order from head to tail. */
    ghost predicate Linked()
      reads this, nodes
    {
      && length == |nodes|
      && (forall i, j :: 0 <= i < j < |nodes| ==> nodes[i] != nodes[j])
      && (forall i, j :: 0 <= i < |nodes| && 0 <= j < |nodes| && j == i + 1 ==> nodes[i].next == nodes[j])
      && if nodes == [] then head == null && tail == null
         else head == nodes[0] && tail == nodes[|nodes| - 1] && nodes[|nodes| - 1].next == null
    }

    ghost predicate Valid()
      reads this, nodes
    {
      Linked() && minLen <= length && minLen <= maxLen
    }

    ghost function Slots(): seq<Slot<T>>
      reads this, nodes
    {
      seq(|nodes|, i requires 0 <= i < |nodes| reads this, nodes => nodes[i].data)
    }

    constructor (minLen: nat, maxLen: nat)
      requires 0 < maxLen && minLen <= maxLen
      ensures Valid() && this.minLen == minLen && this.maxLen == maxLen
      ensures Slots() == Padded([], minLen) && fresh(Repr())
    {
      this.minLen, this.maxLen := minLen, maxLen;
      length, head, tail, nodes := 0, null, null, [];
      new;
      Pad();
    }

    /** Appends a new last node. */
    method Append(x: Slot<T>)
      requires Linked()
      modifies this, Repr()
      ensures Linked() && Slots() == old(Slots()) + [x] && minLen == old(minLen)
      ensures fresh(Repr() - old(Repr()))
    {
      var n := new Node<T>(x);
      if head == null {
        head := n;
      } else {
        tail.next := n;
      }
      tail := n;
      nodes := nodes + [n];
      length := length + 1;
    }

    method Push(x: Slot<T>)
      requires Linked() && length < maxLen
      modifies this, Repr()
      ensures Linked() && Slots() == Pushed(old(Slots()), minLen, x) && minLen == old(minLen)
      ensures fresh(Repr() - old(Repr()))
    {
      assert nodes != [] ==> Slots()[|nodes| - 1] == tail.data;
      if head == null || tail.data.Item? || length < minLen {
        Append(x);
      } else {
        tail.data := x;
      }
    }

    /** Pushes bubbles up to the minimum length. */
    method Pad()
      requires Linked() && minLen <= maxLen
      modifies this, Repr()
      ensures Valid() && Slots() == Padded(old(Slots()), minLen) && minLen == old(minLen)
      ensures fresh(Repr() - old(Repr()))
    {
      while length < minLen
        invariant Linked() && minLen == old(minLen)
        invariant fresh(Repr() - old(Repr()))
        invariant Padded(Slots(), minLen) == Padded(old(Slots()), minLen)
        decreases minLen - length
      {
        Push(Bubble);
      }
    }

    /** Unlinks the first node. */
    method RemoveHead() returns (x: Slot<T>)
      requires Linked() && head != null
      modifies this, Repr()
      ensures Linked() && x == old(Slots())[0] && Slots() == old(Slots())[1..]
      ensures minLen == old(minLen) && nodes == old(nodes)[1..]
    {
      x := head.data;
      var next := head.next;
      if head == tail {
        assert next == null;
        tail := null;
      }
      head := next;
      nodes := nodes[1..];
      length := length - 1;
    }

    method Pop() returns (x: Slot<T>)
      requires Valid()
      modifies this, Repr()
      ensures Valid() && x == Top(old(Slots())) && Slots() == Popped(old(Slots()), minLen)
      ensures minLen == old(minLen)
      ensures fresh(Repr() - old(Repr()))
    {
      x := Bubble;
      if head != null {
        x := RemoveHead();
        if minLen != 0 && length < minLen {
          Push(Bubble);
        }
      }
    }

    /** Unlinks the last node, searching its predecessor from the head. */
    method RemoveTail()
      requires Linked() && head != null
      modifies this, Repr()
      ensures Linked() && Slots() == old(Slots())[..|old(Slots())| - 1]
      ensures minLen == old(minLen) && nodes == old(nodes)[..|old(nodes)| - 1]
    {
      var iter := head;
      ghost var k := 0;
      while iter != null && iter.next != tail
        invariant k <= |nodes| && (iter == null <==> k == |nodes|) && (iter != null ==> iter == nodes[k])
        invariant |nodes| >= 2 ==> k <= |nodes| - 2
        decreases |nodes| - k
      {
        assert k < |nodes| - 1 ==> iter.next == nodes[k + 1];
        iter := iter.next;
        k := k + 1;
      }
      if iter == null {
        head, tail := null, null;
        nodes := [];
      } else {
        assert k < |nodes| - 1 ==> iter.next == nodes[k + 1];
        tail := iter;
        tail.next := null;
        nodes := nodes[..|nodes| - 1];
      }
      length := length - 1;
    }

    method SetMinLength(newMinLen: nat)
      requires Valid() && newMinLen <= maxLen
      modifies this, Repr()
      ensures Valid() && minLen == newMinLen && Slots() == Resized(old(Slots()), old(minLen), newMinLen)
      ensures fresh(Repr() - old(Repr()))
    {
      if newMinLen == minLen {
        return;
      }
      if newMinLen > minLen {
        minLen := newMinLen;
        assert Slots() == old(Slots());
        Pad();
      } else {
        assert head != null;
        minLen := newMinLen;
        assert Slots() == old(Slots());
        while length > minLen && tail.data.Bubble?
          invariant Linked() && minLen == newMinLen <= length
          invariant Repr() <= old(Repr())
          invariant Trimmed(Slots(), newMinLen) == Trimmed(old(Slots()), newMinLen)
          decreases length
        {
          assert Slots()[|nodes| - 1] == tail.data;
          RemoveTail();
        }
        assert nodes != [] ==> Slots()[|nodes| - 1] == tail.data;
      }
    }
  }
}
