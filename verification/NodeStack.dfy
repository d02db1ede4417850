/** The linked-list stack of the OpenSSL compatibility layer: every node knows how many nodes there are from it
    on, and the first node never moves. */
module NodeStack {
  datatype Option<T> = None | Some(value: T)

  const WOLFSSL_FAILURE: int := 0

  // ----- the plain sequence it stands for ------------------------------------------------------

  /** Where wolfSSL_sk_insert puts an item: behind the last one when the index is negative or too large. */
  function InsertPlace(size: nat, idx: int): (k: nat)
    ensures k <= size
  {
    if 0 <= idx < size then idx else size
  }

  function InsertAt<T>(xs: seq<T>, x: T, idx: int): (r: seq<T>)
    ensures |r| == |xs| + 1
  {
    xs[..InsertPlace(|xs|, idx)] + [x] + xs[InsertPlace(|xs|, idx)..]
  }

  /** Which item wolfSSL_sk_pop_node takes: the last one when the index is negative or too large. */
  function PopPlace(size: nat, idx: int): (k: nat)
    requires size > 0
    ensures k < size
  {
    if 0 <= idx < size then idx else size - 1
  }

  function Without<T>(xs: seq<T>, k: nat): (r: seq<T>)
    requires k < |xs|
    ensures |r| == |xs| - 1
  {
    xs[..k] + xs[k + 1..]
  }

  datatype Op<T> = Insert(item: T, idx: int) | Pop(idx: int)

  /** What an operation gives back, if anything, and what it leaves. */
  function Apply<T>(xs: seq<T>, op: Op<T>): (Option<T>, seq<T>) {
    match op
    case Insert(x, idx) => (None, InsertAt(xs, x, idx))
    case Pop(idx) =>
      if xs == [] then (None, [])
      else (Some(xs[PopPlace(|xs|, idx)]), Without(xs, PopPlace(|xs|, idx)))
  }

  /** Popping at an index undoes inserting at it, whatever the index. */
  lemma PopUndoesInsert<T>(xs: seq<T>, x: T, idx: int)
    ensures Apply(InsertAt(xs, x, idx), Pop(idx)) == (Some(x), xs)
  {
    var k := InsertPlace(|xs|, idx);
    var ys := InsertAt(xs, x, idx);
    assert PopPlace(|ys|, idx) == k && ys[k] == x;
    assert ys[..k] == xs[..k] && ys[k + 1..] == xs[k..] && xs[..k] + xs[k..] == xs;
  }

  function PushAll<T>(xs: seq<T>, items: seq<T>): seq<T>
    decreases |items|
  {
    if items == [] then xs else PushAll(InsertAt(xs, items[0], -1), items[1..])
  }

  /** The items popped n times. */
  function PopMany<T>(xs: seq<T>, n: nat): (seq<Option<T>>, seq<T>) {
    if n == 0 then ([], xs)
    else
      var (x, ys) := Apply(xs, Pop(-1));
      var (rest, zs) := PopMany(ys, n - 1);
      ([x] + rest, zs)
  }

  function Reversed<T>(xs: seq<T>): (r: seq<Option<T>>)
    ensures |r| == |xs|
  {
    if xs == [] then [] else [Some(xs[|xs| - 1])] + Reversed(xs[..|xs| - 1])
  }

  lemma {:induction false} PushAllAppends<T>(xs: seq<T>, items: seq<T>)
    ensures PushAll(xs, items) == xs + items
    decreases |items|
  {
    if items == [] {
      assert xs + items == xs;
    } else {
      PushAllAppends(InsertAt(xs, items[0], -1), items[1..]);
      assert InsertAt(xs, items[0], -1) + items[1..] == xs + items;
    }
  }

  lemma {:induction false} PopManyReverses<T>(xs: seq<T>, items: seq<T>)
    ensures PopMany(xs + items, |items|) == (Reversed(items), xs)
    decreases |items|
  {
    if items == [] {
      assert xs + items == xs;
    } else {
      var last := |items| - 1;
      assert Without(xs + items, |xs| + last) == xs + items[..last];
      PopManyReverses(xs, items[..last]);
    }
  }

  /** Last in, first out. */
  lemma LastInFirstOut<T>(xs: seq<T>, items: seq<T>)
    ensures PopMany(PushAll(xs, items), |items|) == (Reversed(items), xs)
  {
    PushAllAppends(xs, items);
    PopManyReverses(xs, items);
  }

  // ----- the nodes ------------------------------------------------------------------------------

  class Node<T> {
    var data: Option<T>
    var next: Node?<T>
    var num: int

    constructor ()
      ensures data == None && next == null && num == 0
    {
      data, next, num := None, null, 0;
    }
  }

  class Stack<T> {
    const head: Node<T>
    ghost var nodes: seq<Node<T>>
    ghost var contents: seq<T>

    /** The nodes from head on, linked one to the next. */
    ghost predicate Chain()
      reads this`nodes, nodes`next
    {
      && nodes != [] && nodes[0] == head
      && (forall i, j :: 0 <= i < j < |nodes| ==> nodes[i] != nodes[j])
      && (forall i {:trigger nodes[i].next} :: 0 <= i < |nodes| ==>
            nodes[i].next == if i + 1 < |nodes| then nodes[i + 1] else null)
    }

    /** Every node holds an item ... */
    ghost predicate Holds(xs: seq<T>)
      reads this`nodes, nodes`data
    {
      |nodes| == |xs| && forall i {:trigger nodes[i].data} :: 0 <= i < |nodes| ==> nodes[i].data == Some(xs[i])
    }

    /** ... and the number of nodes from it on; the first k already count one to come behind them. */
    ghost predicate Counts(k: nat)
      reads this`nodes, nodes`num
    {
      forall i {:trigger nodes[i].num} :: 0 <= i < |nodes| ==> nodes[i].num == |nodes| - i + if i < k then 1 else 0
    }

    /** An empty stack is an empty first node. */
    ghost predicate Valid()
      reads this, nodes
    {
      && Chain()
      && if contents == [] then |nodes| == 1 && head.data == None && head.num == 0 else Holds(contents) && Counts(0)
    }

    constructor ()
      ensures Valid() && contents == [] && fresh(head)
    {
      head := new Node();
      contents := [];
      new;
      nodes := [head];
    }

    /** wolfssl_sk_node_copy */
    method NodeCopy(dst: Node<T>, src: Node<T>)
      modifies dst
      ensures dst.data == src.data && dst.next == src.next && dst.num == src.num
    {
      dst.data, dst.next, dst.num := src.data, src.next, src.num;
    }

    /** The part of wolfSSL_sk_insert for an empty stack. */
    method InsertFirst(x: T)
      requires Valid() && contents == []
      modifies this`contents, head
      ensures Valid() && contents == [x]
    {
      head.data, head.num := Some(x), 1;
      contents := [x];
    }

    /** The part of wolfSSL_sk_insert for the front: the old first node moves, its place stays. */
    method InsertFront(x: T)
      requires Valid() && contents != []
      modifies this`nodes, this`contents, head
      ensures Valid() && contents == [x] + old(contents)
      ensures forall n :: n in nodes ==> n in old(nodes) || fresh(n)
    {
      var node := new Node();
      NodeCopy(node, head);
      head.data, head.num, head.next := Some(x), head.num + 1, node;
      nodes, contents := [head, node] + nodes[1..], [x] + contents;
    }

    /** The loop of wolfSSL_sk_insert: finds the node to insert behind, counting one more in every node passed. */
    method FindPrevious(index: int) returns (prev: Node<T>, num: int, ghost k: nat)
      requires Chain() && Counts(1) && index != 0
      modifies nodes`num
      ensures Chain() && k < |nodes| && Counts(k + 1) && prev == nodes[k] && num == |nodes| - k
      ensures k + 1 == InsertPlace(|nodes|, index)
    {
      var idx := index - 1;
      prev, num, k := head, head.num - 1, 0;
      while idx != 0 && prev.next != null
        invariant Chain() && k < |nodes| && Counts(k + 1) && prev == nodes[k] && num == |nodes| - k
        invariant index > 0 ==> idx == index - 1 - k >= 0
        invariant index < 0 ==> idx < 0
        decreases |nodes| - k
      {
        prev := prev.next;
        prev.num := num;
        num, k, idx := num - 1, k + 1, idx - 1;
      }
    }

    /** The part for every other place. */
    method InsertBehind(x: T, index: int)
      requires Valid() && contents != [] && index != 0
      modifies this`nodes, this`contents, nodes
      ensures Valid() && contents == InsertAt(old(contents), x, index)
      ensures forall n :: n in nodes ==> n in old(nodes) || fresh(n)
    {
      assert nodes[0] == head && Holds(contents);
      hide Chain, Holds;
      var node := new Node();
      node.data := Some(x);
      head.num := head.num + 1;
      var prev, num, k := FindPrevious(index);
      node.num := num;
      LinkBehind(prev, node, k, x);
    }

    /** Hangs a node that holds x and counts the nodes from it on behind the one at k. */
    method LinkBehind(prev: Node<T>, node: Node<T>, ghost k: nat, ghost x: T)
      requires Chain() && k < |nodes| && prev == nodes[k] && node !in nodes
      requires Holds(contents) && Counts(k + 1) && node.data == Some(x) && node.num == |nodes| - k
      modifies this`nodes, this`contents, prev`next, node`next
      ensures Chain() && Holds(contents) && Counts(0)
      ensures contents == old(contents)[..k + 1] + [x] + old(contents)[k + 1..]
      ensures forall n :: n in nodes ==> n in old(nodes) || n == node
    {
      node.next := prev.next;
      prev.next := node;
      ghost var before := nodes;
      nodes, contents := nodes[..k + 1] + [node] + nodes[k + 1..], contents[..k + 1] + [x] + contents[k + 1..];
      assert forall i {:trigger nodes[i]} :: 0 <= i < |nodes| ==>
        nodes[i] == if i <= k then before[i] else if i == k + 1 then node else before[i - 1];
    }

    /** wolfSSL_sk_insert on a stack that is there. */
    method Insert(data: Option<T>, idx: int) returns (ret: int)
      requires Valid()
      modifies this`nodes, this`contents, nodes
      ensures Valid()
      ensures data == None ==> ret == WOLFSSL_FAILURE && contents == old(contents)
      ensures data != None ==> contents == InsertAt(old(contents), data.value, idx) && ret == |contents|
    {
      if data == None {
        return WOLFSSL_FAILURE;
      }
      assert nodes[0] == head && (head.num == 0 <==> contents == []);
      if head.num == 0 {
        InsertFirst(data.value);
        return 1;
      }
      hide Chain, Holds, Counts;
      if idx == 0 {
        InsertFront(data.value);
      } else {
        InsertBehind(data.value, idx);
      }
      ret := head.num;
    }

    /** The part of wolfSSL_sk_pop_node for the first node: the second one moves into its place. */
    method PopFront() returns (ret: Option<T>)
      requires Valid() && contents != []
      modifies this`nodes, this`contents, head
      ensures Valid() && ret == Some(old(contents[0])) && contents == old(contents)[1..]
      ensures forall n :: n in nodes ==> n in old(nodes)
    {
      head.num := head.num - 1;
      ret := head.data;
      if ret != None {
        head.data := None;
      }
      if head.next != null {
        NodeCopy(head, head.next);
        nodes := [head] + nodes[2..];
      }
      contents := contents[1..];
    }

    /** The first k nodes count one less already. */
    ghost predicate CountsLess(k: nat)
      reads this`nodes, nodes`num
    {
      forall i {:trigger nodes[i].num} :: 0 <= i < |nodes| ==> nodes[i].num == |nodes| - i - if i < k then 1 else 0
    }

    /** The loop of wolfSSL_sk_pop_node: finds the node to take out, counting one less in every node passed. */
    method FindToPop(index: int) returns (prev: Node<T>, tmp: Node<T>, ghost k: nat)
      requires Chain() && CountsLess(1) && |nodes| > 1 && index != 0
      modifies nodes`num
      ensures Chain() && CountsLess(k) && 0 < k < |nodes| && prev == nodes[k - 1] && tmp == nodes[k]
      ensures k == PopPlace(|nodes|, index)
    {
      var idx := index - 1;
      prev, tmp, k := head, head.next, 1;
      while idx != 0 && tmp.next != null
        invariant Chain() && CountsLess(k) && 0 < k < |nodes| && prev == nodes[k - 1] && tmp == nodes[k]
        invariant index > 0 ==> idx == index - k >= 0
        invariant index < 0 ==> idx < 0
        decreases |nodes| - k
      {
        prev := tmp;
        prev.num := prev.num - 1;
        tmp, k, idx := tmp.next, k + 1, idx - 1;
      }
    }

    /** Takes the node at k out of the chain. */
    method UnlinkBehind(prev: Node<T>, tmp: Node<T>, ghost k: nat)
      requires Chain() && 0 < k < |nodes| && prev == nodes[k - 1] && tmp == nodes[k]
      requires Holds(contents) && CountsLess(k)
      modifies this`nodes, this`contents, prev`next
      ensures Chain() && Holds(contents) && Counts(0)
      ensures contents == Without(old(contents), k) && (forall n :: n in nodes ==> n in old(nodes))
    {
      prev.next := tmp.next;
      ghost var before := nodes;
      nodes, contents := Without(nodes, k), Without(contents, k);
      assert forall i {:trigger nodes[i]} :: 0 <= i < |nodes| ==> nodes[i] == before[if i < k then i else i + 1];
    }

    /** The part of wolfSSL_sk_pop_node for every other node. */
    method PopBehind(idx: int) returns (ret: Option<T>)
      requires Valid() && |contents| > 1 && idx != 0
      modifies this`nodes, this`contents, nodes
      ensures Valid() && (ret, contents) == Apply(old(contents), Pop(idx))
      ensures forall n :: n in nodes ==> n in old(nodes)
    {
      head.num := head.num - 1;
      var prev, tmp, k := FindToPop(idx);
      ret := tmp.data;
      UnlinkBehind(prev, tmp, k);
    }

    /** wolfSSL_sk_pop_node on a stack that is there. */
    method PopNode(idx: int) returns (ret: Option<T>)
      requires Valid()
      modifies this`nodes, this`contents, nodes
      ensures Valid() && (ret, contents) == Apply(old(contents), Pop(idx))
      ensures forall n :: n in nodes ==> n in old(nodes)
    {
      if head.num == 0 {
        return None;
      }
      if idx == 0 || head.next == null {
        ret := PopFront();
        assert Without(old(contents), 0) == old(contents)[1..];
        return;
      }
      ret := PopBehind(idx);
    }

    /** wolfSSL_sk_push and wolfSSL_sk_pop */
    method Push(data: Option<T>) returns (ret: int)
      requires Valid()
      modifies this`nodes, this`contents, nodes
      ensures Valid()
      ensures data == None ==> ret == WOLFSSL_FAILURE && contents == old(contents)
      ensures data != None ==> contents == old(contents) + [data.value] && ret == |contents|
    {
      ret := Insert(data, -1);
      assert data != None ==> InsertAt(old(contents), data.value, -1) == old(contents) + [data.value];
    }

    method PopLast() returns (ret: Option<T>)
      requires Valid()
      modifies this`nodes, this`contents, nodes
      ensures Valid()
      ensures old(contents) == [] ==> ret == None && contents == []
      ensures old(contents) != [] ==> contents + [old(contents)[|old(contents)| - 1]] == old(contents)
                                      && ret == Some(old(contents)[|old(contents)| - 1])
    {
      ret := PopNode(-1);
    }

    /** wolfSSL_sk_num */
    method Num() returns (n: int)
      requires Valid()
      ensures n == |contents|
    {
      n := head.num;
    }

    /** wolfSSL_sk_value: an index that is not positive gives the first item. */
    method Value(index: int) returns (val: Option<T>)
      requires Valid()
      ensures val == if contents == [] || index >= |contents| then None
                     else Some(contents[if index <= 0 then 0 else index])
    {
      var sk: Node?<T>, i := head, index;
      ghost var k := 0;
      while sk != null && i > 0
        invariant 0 <= k <= |nodes| && sk == if k < |nodes| then nodes[k] else null
        invariant if index > 0 then i == index - k >= 0 else k == 0 && i == index
        decreases |nodes| - k
      {
        sk, i, k := sk.next, i - 1, k + 1;
      }
      val := if sk == null then None else sk.data;
    }

    /** wolfSSL_sk_get_node: the index may be the number of nodes, for which there is no node but in an empty stack. */
    method GetNode(idx: int) returns (ret: Node?<T>)
      requires Valid()
      ensures ret == if 0 <= idx < |nodes| && (contents != [] || idx == 0) then nodes[idx] else null
    {
      if idx < 0 || idx > head.num {
        return null;
      }
      ret := head;
      var i := 0;
      while i < idx
        invariant 0 <= i <= idx && ret == if i < |nodes| then nodes[i] else null
      {
        ret := ret.next;
        i := i + 1;
      }
    }
  }
}
