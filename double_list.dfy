/** The doubly linked list `double_list<T>`: heap nodes linked by `pre`/`nxt`,
    ending in a sentinel node `tail` that holds no value. The list is empty
    exactly when `head == tail`.

    The abstract view of a list is two ghost fields: `nodes`, its real nodes
    in order followed by the sentinel, and `contents`, the values of the
    real nodes. `Valid()` ties them to the pointer fields. It does not state
    that the nodes are pairwise distinct: that follows from the links and is
    proved as `NodesDistinct`.
 */
module DoubleList {
  import opened Errors

  /** One node: the value it owns (`None` in the sentinel) and its two links. */
  class Node<T> {
    var val: Option<T>
    var pre: Node?<T>
    var nxt: Node?<T>

    /** `Node(val)` with both links left null, the only form the list uses. */
    constructor (val: Option<T>)
      ensures this.val == val && pre == null && nxt == null
    {
      this.val := val;
      pre := null;
      nxt := null;
    }
  }

  /** Position of `n` in `s`: its first occurrence. */
  ghost function IndexOf<T>(s: seq<Node<T>>, n: Node<T>): (k: nat)
    requires n in s
    ensures k < |s| && s[k] == n && n !in s[..k]
  {
    if s[0] == n then 0
    else
      var k := 1 + IndexOf(s[1..], n);
      assert s[..k] == [s[0]] + s[1..][..k - 1];
      k
  }

  /** An iterator is the node it points at. The C++ iterator is a value type
      (copied on assignment and when passed), so stepping it yields the
      stepped value, which the caller stores back.
   */
  datatype Iterator<T> = Iterator(p: Node?<T>)
  {
    /** `++iter`: fails exactly on a null iterator and on the sentinel;
        otherwise moves one node forward, so that the last real element
        steps onto `end()`. */
    method Increment(ghost l: DoubleList<T>) returns (r: Result<Iterator<T>>)
      requires l.Valid() && (p == null || p in l.nodes)
      ensures r.Err? <==> p == null || p == l.tail
      ensures r.Err? ==> r.error == InvalidIterator
      ensures forall i :: 0 <= i < |l.contents| && p == l.nodes[i] ==> r == Ok(Iterator(l.nodes[i + 1]))
      ensures |l.contents| > 0 && p == l.nodes[|l.contents| - 1] ==> r == Ok(Iterator(l.tail))
    {
      if p == null || p.nxt == null {
        if p != null {
          ghost var j := IndexOf(l.nodes, p);
          if j < |l.contents| {
            l.LinkAt(j);
          }
        }
        return Err(InvalidIterator);
      }
      return Ok(Iterator(p.nxt));
    }

    /** `iter++`: the same check and step as `++iter`; on success gives the
        stepped iterator and, second, the copy of the iterator before the step. */
    method PostIncrement(ghost l: DoubleList<T>) returns (r: Result<(Iterator<T>, Iterator<T>)>)
      requires l.Valid() && (p == null || p in l.nodes)
      ensures r.Err? <==> p == null || p == l.tail
      ensures r.Err? ==> r.error == InvalidIterator
      ensures forall i :: 0 <= i < |l.contents| && p == l.nodes[i] ==> r == Ok((Iterator(l.nodes[i + 1]), this))
    {
      var stepped := Increment(l);
      match stepped
      case Err(e) => r := Err(e);
      case Ok(it) => r := Ok((it, this));
    }

    /** `--iter`: fails exactly on a null iterator and on `head`; otherwise
        moves one node back. */
    method Decrement(ghost l: DoubleList<T>) returns (r: Result<Iterator<T>>)
      requires l.Valid() && (p == null || p in l.nodes)
      ensures r.Err? <==> p == null || p == l.head
      ensures r.Err? ==> r.error == InvalidIterator
      ensures forall i :: 0 < i < |l.nodes| && p == l.nodes[i] ==> r == Ok(Iterator(l.nodes[i - 1]))
    {
      if p == null || p.pre == null {
        if p != null {
          ghost var j := IndexOf(l.nodes, p);
          if j > 0 {
            l.LinkAt(j - 1);
          }
        }
        return Err(InvalidIterator);
      }
      return Ok(Iterator(p.pre));
    }

    /** `iter--`: the same check and step as `--iter`; on success gives the
        stepped iterator and, second, the copy of the iterator before the step. */
    method PostDecrement(ghost l: DoubleList<T>) returns (r: Result<(Iterator<T>, Iterator<T>)>)
      requires l.Valid() && (p == null || p in l.nodes)
      ensures r.Err? <==> p == null || p == l.head
      ensures r.Err? ==> r.error == InvalidIterator
      ensures forall i :: 0 < i < |l.nodes| && p == l.nodes[i] ==> r == Ok((Iterator(l.nodes[i - 1]), this))
    {
      var stepped := Decrement(l);
      match stepped
      case Err(e) => r := Err(e);
      case Ok(it) => r := Ok((it, this));
    }

    /** `*iter`: fails exactly on a null iterator and on the sentinel;
        otherwise gives the value of the element the iterator denotes. */
    method Deref(ghost l: DoubleList<T>) returns (r: Result<T>)
      requires l.Valid() && (p == null || p in l.nodes)
      ensures r.Err? <==> p == null || p == l.tail
      ensures r.Err? ==> r.error == InvalidIterator
      ensures forall i :: 0 <= i < |l.contents| && p == l.nodes[i] ==> r == Ok(l.contents[i])
    {
      if p == null || p.nxt == null {
        if p != null {
          ghost var j := IndexOf(l.nodes, p);
          if j < |l.contents| {
            l.LinkAt(j);
          }
        }
        return Err(InvalidIterator);
      }
      ghost var i := IndexOf(l.nodes, p);
      assert i < |l.contents|;
      return Ok(p.val.value);
    }

    /** `iter == rhs`: the two iterators point at the same node, which makes
        them the same iterator value. That this means the same position in
        a valid list, in both directions, is `IteratorsEqualIffSamePosition`. */
    predicate Equals(rhs: Iterator<T>): (r: bool)
      ensures r <==> this == rhs
    {
      p == rhs.p
    }

    /** `iter != rhs`: exactly the negation of `iter == rhs`. That this
        means different positions in a valid list is
        `IteratorsEqualIffSamePosition`. */
    predicate NotEquals(rhs: Iterator<T>): (r: bool)
      ensures r <==> !Equals(rhs)
    {
      p != rhs.p
    }
  }

  class DoubleList<T> {
    var head: Node<T>
    var tail: Node<T>
    /** The real nodes in order, then the sentinel. */
    ghost var nodes: seq<Node<T>>
    /** The values held by the real nodes, in order. */
    ghost var contents: seq<T>

    ghost predicate Valid()
      reads this, nodes
    {
      |nodes| == |contents| + 1 &&
      head == nodes[0] && tail == nodes[|contents|] &&
      head.pre == null && tail.nxt == null && tail.val == None &&
      (forall i :: 0 <= i < |contents| ==> nodes[i].val == Some(contents[i])) &&
      (forall i :: 0 <= i < |contents| ==> nodes[i].nxt == nodes[i + 1]) &&
      (forall i :: 0 < i < |nodes| ==> nodes[i].pre == nodes[i - 1])
    }

    /** The links between positions `k` and `k + 1`. */
    lemma LinkAt(k: nat)
      requires Valid() && k < |contents|
      ensures nodes[k].nxt == nodes[k + 1] && nodes[k + 1].pre == nodes[k]
    {
    }

    /** Two positions of a valid list hold different nodes: walking `pre`
        back from equal nodes would reach `head` at two different depths,
        but only `head` has a null `pre`. */
    lemma {:induction false} DistinctAt(i: nat, j: nat)
      requires Valid() && i < j < |nodes|
      ensures nodes[i] != nodes[j]
      decreases i
    {
      if i > 0 {
        DistinctAt(i - 1, j - 1);
        assert nodes[i].pre == nodes[i - 1] && nodes[j].pre == nodes[j - 1];
      } else {
        assert nodes[j].pre == nodes[j - 1];
      }
    }

    /** The node at position `k` occurs at no other position. */
    lemma OnlyAt(k: nat)
      requires Valid() && k < |nodes|
      ensures forall j :: 0 <= j < |nodes| && j != k ==> nodes[j] != nodes[k]
    {
      forall j | 0 <= j < |nodes| && j != k
        ensures nodes[j] != nodes[k]
      {
        if j < k {
          DistinctAt(j, k);
        } else {
          DistinctAt(k, j);
        }
      }
    }

    /** A valid list has no repeated node: it is acyclic and the sentinel is
        reached exactly once. */
    lemma NodesDistinct()
      requires Valid()
      ensures forall i, j :: 0 <= i < j < |nodes| ==> nodes[i] != nodes[j]
    {
      forall i, j | 0 <= i < j < |nodes|
        ensures nodes[i] != nodes[j]
      {
        DistinctAt(i, j);
      }
    }

    /** In a valid list, the node at position `i` is found at position `i`. */
    lemma IndexOfAt(i: nat)
      requires Valid() && i < |nodes|
      ensures IndexOf(nodes, nodes[i]) == i
    {
      var k := IndexOf(nodes, nodes[i]);
      if k < i {
        DistinctAt(k, i);
      }
    }

    /** `head == tail` exactly when the list holds no element. */
    lemma EmptyIffHeadIsTail()
      requires Valid()
      ensures head == tail <==> contents == []
    {
      if contents != [] {
        DistinctAt(0, |contents|);
      }
    }

    /** Iterator comparison on a valid list: two iterators into the list are
        equal exactly when they denote the same position. */
    lemma IteratorsEqualIffSamePosition(i: nat, j: nat)
      requires Valid() && i < |nodes| && j < |nodes|
      ensures Iterator(nodes[i]).Equals(Iterator(nodes[j])) <==> i == j
      ensures Iterator(nodes[i]).NotEquals(Iterator(nodes[j])) <==> i != j
    {
      if i < j {
        DistinctAt(i, j);
      } else if j < i {
        DistinctAt(j, i);
      }
    }

    /** The default constructor: a list holding only a fresh sentinel. */
    constructor ()
      ensures Valid() && contents == []
      ensures forall i :: 0 <= i < |nodes| ==> fresh(nodes[i])
    {
      var s := new Node<T>(None);
      head, tail := s, s;
      nodes, contents := [s], [];
    }

    /** The copy constructor: appends a copy of each of `other`'s values,
        from `head` up to the sentinel, into fresh nodes. */
    constructor Copy(other: DoubleList<T>)
      requires other.Valid()
      ensures Valid() && contents == other.contents
      ensures forall i :: 0 <= i < |nodes| ==> fresh(nodes[i])
    {
      var s := new Node<T>(None);
      head, tail := s, s;
      nodes, contents := [s], [];
      new;
      AppendCopies(other);
    }

    /** `operator=`: unless `other` is this very list, drops the current
        nodes and rebuilds the list from copies of `other`'s values in fresh
        nodes. Self-assignment changes nothing. */
    method Assign(other: DoubleList<T>)
      requires Valid() && other.Valid()
      modifies this
      ensures Valid()
      ensures contents == old(other.contents)
      ensures this == other ==> nodes == old(nodes) && head == old(head) && tail == old(tail)
      ensures this != other ==> forall i :: 0 <= i < |nodes| ==> fresh(nodes[i])
    {
      if this == other {
        return;
      }
      var freed := Destroy();
      var s := new Node<T>(None);
      head, tail := s, s;
      nodes, contents := [s], [];
      AppendCopies(other);
    }

    /** The loop the copy constructor and `operator=` share: walks `other`
        from `head` to its sentinel and appends a copy of each value with
        `insert_tail`, into fresh nodes before this list's own sentinel. */
    method AppendCopies(other: DoubleList<T>)
      requires Valid() && other.Valid() && this != other
      requires contents == [] && tail !in other.nodes
      modifies this, nodes
      ensures Valid() && contents == other.contents && tail == old(tail)
      ensures forall i :: 0 <= i < |contents| ==> fresh(nodes[i])
    {
      other.NodesDistinct();
      var temp := other.head;
      ghost var k := 0;
      while temp != other.tail
        invariant Valid() && other.Valid() && tail == old(tail)
        invariant forall i :: 0 <= i < |contents| ==> fresh(nodes[i])
        invariant k <= |other.contents| && temp == other.nodes[k]
        invariant contents == other.contents[..k]
        decreases |other.contents| - k
      {
        InsertTail(temp.val.value);
        temp := temp.nxt;
        k := k + 1;
      }
      assert k == |other.contents|;
    }

    /** `begin()`: denotes position 0, which is `end()` exactly when the
        list is empty. */
    method Begin() returns (r: Iterator<T>)
      requires Valid()
      ensures r.p == nodes[0]
      ensures r.p == tail <==> contents == []
    {
      EmptyIffHeadIsTail();
      return Iterator(head);
    }

    /** `end()`: denotes the sentinel, one past the last element. */
    method End() returns (r: Iterator<T>)
      requires Valid()
      ensures r.p == nodes[|contents|]
      ensures r.p != null && r.p.nxt == null && r.p.val == None
    {
      return Iterator(tail);
    }

    /** `last()`: fails when the list is empty (the sentinel has no
        predecessor); otherwise denotes the last element. */
    method Last() returns (r: Result<Iterator<T>>)
      requires Valid()
      ensures r.Err? <==> contents == []
      ensures r.Err? ==> r.error == InvalidIterator
      ensures r.Ok? ==> r.value.p == nodes[|contents| - 1] && r.value.p.val == Some(contents[|contents| - 1])
    {
      if |contents| > 0 {
        LinkAt(|contents| - 1);
      }
      if tail.pre == null {
        return Err(InvalidIterator);
      }
      return Ok(Iterator(tail.pre));
    }

    /** `empty()` as written: it returns `head != tail`, which holds when the
        list is NOT empty (the opposite of its documented meaning). */
    method Empty() returns (r: bool)
      requires Valid()
      ensures r <==> contents != []
    {
      EmptyIffHeadIsTail();
      return head != tail;
    }

    /** `empty()` as documented and as the enclosing container's callers use
        it: true exactly when the list holds no element. */
    method IsEmpty() returns (r: bool)
      requires Valid()
      ensures r <==> contents == []
    {
      EmptyIffHeadIsTail();
      return head == tail;
    }

    /** `destroy()`: walks from `head` to the sentinel and releases each
        node. Deallocation is not modelled: `freed` lists the nodes released,
        in order, which are every node of the list, each once, sentinel last. */
    method Destroy() returns (freed: seq<Node<T>>)
      requires Valid()
      ensures freed == nodes
      ensures forall i, j :: 0 <= i < j < |freed| ==> freed[i] != freed[j]
      ensures freed[|freed| - 1] == tail && freed[|freed| - 1].val == None
    {
      NodesDistinct();
      var temp := head;
      freed := [];
      ghost var k := 0;
      while temp != tail
        invariant k <= |contents| && temp == nodes[k]
        invariant freed == nodes[..k]
        decreases |contents| - k
      {
        var temp2 := temp.nxt;
        freed := freed + [temp];
        temp := temp2;
        k := k + 1;
      }
      freed := freed + [tail];
    }

    /** `clear()`: releases every node and leaves an empty, usable list. */
    method Clear()
      requires Valid()
      modifies this
      ensures Valid() && contents == []
      ensures head == tail && fresh(head)
    {
      var freed := Destroy();
      var s := new Node<T>(None);
      head, tail := s, s;
      nodes, contents := [s], [];
    }

    /** `*iter = v`, a store through the reference that `*iter` returns:
        fails with `InvalidIterator` exactly on a null iterator and on the
        sentinel, changing nothing; otherwise the element the iterator
        denotes becomes `v` in place, and no node and no other element
        changes. */
    method SetAt(it: Iterator<T>, v: T) returns (r: Outcome)
      requires Valid() && (it.p == null || it.p in nodes)
      modifies this, nodes
      ensures Valid() && nodes == old(nodes) && head == old(head) && tail == old(tail)
      ensures r.Fail? <==> it.p == null || it.p == tail
      ensures r.Fail? ==> r.error == InvalidIterator && contents == old(contents)
      ensures r.Pass? ==> contents == old(contents)[IndexOf(old(nodes), it.p) := v]
    {
      if it.p == null || it.p.nxt == null {
        if it.p != null {
          ghost var j := IndexOf(nodes, it.p);
          if j < |contents| {
            LinkAt(j);
          }
        }
        return Fail(InvalidIterator);
      }
      ghost var i := IndexOf(nodes, it.p);
      OnlyAt(i);
      it.p.val := Some(v);
      contents := contents[i := v];
      return Pass;
    }

    /** `insert_head(val)`: a fresh node holding `v` becomes the first node. */
    method InsertHead(v: T)
      requires Valid()
      modifies this, nodes
      ensures Valid()
      ensures contents == [v] + old(contents)
      ensures nodes == [head] + old(nodes) && fresh(head) && head.pre == null
      ensures tail == old(tail)
    {
      OnlyAt(0);
      var cur := new Node(Some(v));
      // `insert_head`'s two branches perform the same three assignments
      cur.nxt := head;
      cur.nxt.pre := cur;
      head := cur;
      nodes, contents := [cur] + nodes, [v] + contents;
    }

    /** `insert_tail(val)`: a fresh node holding `v` is linked in just before
        the sentinel, which stays the same node. */
    method InsertTail(v: T)
      requires Valid()
      modifies this, nodes
      ensures Valid()
      ensures contents == old(contents) + [v]
      ensures tail == old(tail) && fresh(nodes[|old(contents)|])
      ensures nodes == old(nodes)[..|old(contents)|] + [nodes[|old(contents)|], tail]
    {
      NodesDistinct();
      ghost var n := |contents|;
      var cur := new Node(Some(v));
      if head == tail {
        cur.nxt := tail;
        cur.nxt.pre := cur;
        head := cur;
      } else {
        EmptyIffHeadIsTail();
        LinkAt(|contents| - 1);
        cur.nxt := tail;
        cur.pre := tail.pre;
        cur.nxt.pre := cur;
        cur.pre.nxt := cur;
      }
      nodes := nodes[..|contents|] + [cur, tail];
      contents := contents + [v];
      assert forall j :: 0 <= j < n ==> nodes[j] == old(nodes)[j];
    }

    /** `delete_head()`: fails on the empty list, changing nothing; otherwise
        unlinks the first node, and the new first node has no predecessor. */
    method DeleteHead() returns (r: Outcome)
      requires Valid()
      modifies this, nodes
      ensures Valid()
      ensures r == if old(contents) == [] then Fail(ContainerIsEmpty) else Pass
      ensures r.Fail? ==> contents == old(contents) && nodes == old(nodes) && head == old(head) && tail == old(tail)
      ensures r.Pass? ==> contents == old(contents)[1..] && nodes == old(nodes)[1..] && head.pre == null && tail == old(tail)
    {
      EmptyIffHeadIsTail();
      if head == tail {
        return Fail(ContainerIsEmpty);
      }
      OnlyAt(1);
      OnlyAt(|contents|);
      LinkAt(0);
      var cur := head;
      if cur.nxt == tail {
        cur.nxt.pre := null;
        head := tail;
      } else {
        var tmp := cur.nxt;
        cur.nxt.pre := null;
        head := tmp;
      }
      nodes, contents := nodes[1..], contents[1..];
      return Pass;
    }

    /** `delete_tail()`: fails on the empty list, changing nothing; otherwise
        unlinks the last real node, and removing the only element makes
        `head == tail` again. */
    method DeleteTail() returns (r: Outcome)
      requires Valid()
      modifies this, nodes
      ensures Valid()
      ensures r == if old(contents) == [] then Fail(ContainerIsEmpty) else Pass
      ensures r.Fail? ==> contents == old(contents) && nodes == old(nodes) && head == old(head) && tail == old(tail)
      ensures r.Pass? ==> contents == old(contents)[..|old(contents)| - 1] && tail == old(tail)
      ensures r.Pass? ==> nodes == old(nodes)[..|old(contents)| - 1] + [tail]
      ensures r.Pass? && contents == [] ==> head == tail
    {
      EmptyIffHeadIsTail();
      if head == tail {
        return Fail(ContainerIsEmpty);
      }
      OnlyAt(|contents|);
      LinkAt(0);
      LinkAt(|contents| - 1);
      if |contents| > 1 {
        OnlyAt(|contents| - 2);
        LinkAt(|contents| - 2);
      }
      var cur := tail.pre;
      if head.nxt == tail {
        cur.nxt.pre := null;
        head := tail;
      } else {
        cur.nxt.pre := cur.pre;
        cur.pre.nxt := cur.nxt;
      }
      nodes := nodes[..|contents| - 1] + [tail];
      contents := contents[..|contents| - 1];
      return Pass;
    }

    /** `erase(pos)`. On the real element at position i it removes that
        element, and the returned iterator denotes position i of the new
        list, which is the old successor or `end()`. On the empty list `pos`
        can only be `end() == begin()`, so the call goes to `delete_head`,
        which fails with `ContainerIsEmpty` and changes nothing. */
    method Erase(pos: Iterator<T>) returns (r: Result<Iterator<T>>)
      requires Valid()
      requires pos.p in nodes && (pos.p == tail ==> contents == [])
      modifies this, nodes
      ensures Valid() && tail == old(tail)
      ensures r.Err? <==> old(contents) == []
      ensures r.Err? ==> r.error == ContainerIsEmpty && contents == old(contents) && nodes == old(nodes)
      ensures r.Ok? ==> var i := IndexOf(old(nodes), pos.p);
        contents == old(contents)[..i] + old(contents)[i + 1..] &&
        nodes == old(nodes)[..i] + old(nodes)[i + 1..] &&
        r.value.p == nodes[i] && r.value.p == old(nodes)[i + 1]
    {
      ghost var i := IndexOf(nodes, pos.p);
      if pos == Iterator(head) {
        var o := DeleteHead();
        if o.Fail? {
          return Err(o.error);
        }
        r := Ok(Iterator(head));
      } else {
        var it := UnlinkAt(pos.p, i);
        r := Ok(it);
      }
    }

    /** The second branch of `erase`: the node at position i, neither `head`
        nor the sentinel, is bypassed by its two neighbours' links, and the
        iterator to its successor is returned. */
    method UnlinkAt(cur: Node<T>, ghost i: nat) returns (r: Iterator<T>)
      requires Valid()
      requires 0 < i < |contents| && nodes[i] == cur
      modifies this, nodes
      ensures Valid() && tail == old(tail)
      ensures contents == old(contents)[..i] + old(contents)[i + 1..]
      ensures nodes == old(nodes)[..i] + old(nodes)[i + 1..]
      ensures r.p == nodes[i] && r.p == old(nodes)[i + 1]
    {
      LinkAt(i - 1);
      LinkAt(i);
      OnlyAt(i - 1);
      OnlyAt(i + 1);
      cur.pre.nxt := cur.nxt;
      cur.nxt.pre := cur.pre;
      r := Iterator(cur.nxt);
      nodes, contents := nodes[..i] + nodes[i + 1..], contents[..i] + contents[i + 1..];
    }
  }

  /** The input that shows `empty()` inverted: on a freshly constructed,
      empty list it answers false. */
  method FreshListReportsNonEmpty() returns (r: bool)
    ensures !r
  {
    var l := new DoubleList<int>();
    r := l.Empty();
  }
}
