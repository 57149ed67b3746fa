/** The Chtholly tree itself: a singly linked chain of mutable nodes whose
    operations edit the chain in place. Each tree keeps a ghost picture of its
    chain (the nodes in order, and their views as values) and every operation
    is proved to move that picture exactly as the functions of module
    Intervals describe. */
module ChthollyTrees {
  import opened Intervals

  /** A node of the chain: the closed interval [left, right] holding value,
      and the node after it (null for the last one). */
  class Node<T> {
    var left: int
    var right: int
    var value: T
    var next: Node?<T>

    constructor (left: int, right: int, value: T, next: Node?<T>)
      ensures this.left == left && this.right == right && this.value == value && this.next == next
    {
      this.left := left;
      this.right := right;
      this.value := value;
      this.next := next;
    }

    /** The node as a value, without its link. */
    function View(): Interval<T>
      reads this
    {
      Interval(left, right, value)
    }
  }

  // ---------------------------------------------------------------- the chain in the heap

  /** The node that follows position j of ns in a linked chain. */
  function Succ<T>(ns: seq<Node<T>>, j: int): Node?<T>
    requires 0 <= j < |ns|
  {
    if j + 1 < |ns| then ns[j + 1] else null
  }

  /** The j-th node shows c[j] and links to the node after it in ns, or to
      null when it is the last. */
  ghost predicate NodeAt<T>(ns: seq<Node<T>>, c: seq<Interval<T>>, j: int)
    requires 0 <= j < |ns| == |c|
    reads ns[j]
  {
    ns[j].View() == c[j] && ns[j].next == Succ(ns, j)
  }

  /** Walking ns through next visits exactly ns, in order, and ends in null;
      and the j-th node shows c[j]. */
  ghost predicate Linked<T>(ns: seq<Node<T>>, c: seq<Interval<T>>)
    reads ns
  {
    && |ns| == |c|
    && |ns| > 0
    && (forall j :: 0 <= j < |ns| ==> NodeAt(ns, c, j))
  }

  /** Linked, except that nothing is said about the node at position i. Its
      reads clause leaves that node out, so an edit of that one node (or of
      a node outside ns) keeps it. With i outside ns it is Linked. */
  ghost predicate LinkedBut<T>(ns: seq<Node<T>>, c: seq<Interval<T>>, i: int)
    reads set j | 0 <= j < |ns| && j != i :: ns[j]
  {
    && |ns| == |c|
    && |ns| > 0
    && (forall j :: 0 <= j < |ns| && j != i ==> NodeAt(ns, c, j))
  }

  lemma LinkedLoosen<T>(ns: seq<Node<T>>, c: seq<Interval<T>>, i: int)
    requires Linked(ns, c)
    ensures LinkedBut(ns, c, i)
  {
  }

  /** Every node of ns lies in the footprint r. */
  predicate Owned<T>(ns: seq<Node<T>>, r: set<object>)
  {
    forall j :: 0 <= j < |ns| ==> ns[j] in r
  }

  lemma SpliceOwned<T>(ns: seq<Node<T>>, r: set<object>, a: int, b: int, n: Node<T>)
    requires Owned(ns, r) && 0 <= a <= b <= |ns|
    ensures Owned(Splice(ns, a, b, n), r + {n})
  {
  }

  /** A linked chain whose views strictly increase never visits a node twice:
      no other position holds the node at position i. */
  lemma LinkedUnique<T>(ns: seq<Node<T>>, c: seq<Interval<T>>, i: int)
    requires Linked(ns, c) && Chained(c) && 0 <= i < |ns|
    ensures forall j :: 0 <= j < |ns| && j != i ==> ns[j] != ns[i]
  {
    assert NodeAt(ns, c, i);
    forall j | 0 <= j < |ns| && j != i
      ensures ns[j] != ns[i]
    {
      assert NodeAt(ns, c, j);
      if j < i {
        ChainedOrdered(c, j, i);
      } else {
        ChainedOrdered(c, i, j);
      }
    }
  }

  /** What split needs before it cuts the i-th node at pos: the cut chain
      still partitions [min, max], and no other position holds that node. */
  lemma CutReady<T>(ns: seq<Node<T>>, c: seq<Interval<T>>, min: int, max: int, i: int, pos: int)
    requires Linked(ns, c) && Partitions(c, min, max)
    requires 0 <= i < |c| && c[i].left < pos <= c[i].right
    ensures Partitions(SplitHere(c, i, pos), min, max)
    ensures forall j :: 0 <= j < |ns| && j != i ==> ns[j] != ns[i]
  {
    PartitionBounds(c, min, max);
    LocateUnique(c, i, pos);
    SplitAtShape(c, min, max, pos);
    SplitAtPartitions(c, min, max, pos);
    LinkedUnique(ns, c, i);
  }

  /** The in-place edit of split: the i-th node now shows [left, pos - 1] and
      links to a node showing [pos, right] with the same value, which links
      to the old successor. The chain with that node inserted after the i-th
      then shows c split at pos. */
  lemma CutLinked<T>(ns: seq<Node<T>>, c: seq<Interval<T>>, i: int, pos: int, upper: Node<T>)
    requires LinkedBut(ns, c, i) && 0 <= i < |ns|
    requires ns[i].View() == Interval(c[i].left, pos - 1, c[i].value) && ns[i].next == upper
    requires upper.View() == Interval(pos, c[i].right, c[i].value) && upper.next == Succ(ns, i)
    ensures Linked(Splice(ns, i + 1, i + 1, upper), SplitHere(c, i, pos))
  {
    var s := Splice(ns, i + 1, i + 1, upper);
    var t := SplitHere(c, i, pos);
    forall j | 0 <= j < |s|
      ensures NodeAt(s, t, j)
    {
      if j < i {
        assert NodeAt(ns, c, j);
        assert s[j] == ns[j] && t[j] == c[j] && s[j + 1] == ns[j + 1];
      } else if j == i + 1 {
        if i + 1 < |ns| {
          assert s[j + 1] == ns[i + 1];
        }
      } else if i + 1 < j {
        assert NodeAt(ns, c, j - 1);
        assert s[j] == ns[j - 1] && t[j] == c[j - 1];
        if j + 1 < |s| {
          assert s[j + 1] == ns[j];
        }
      }
    }
  }

  /** The in-place edit of assign: added shows n and links to ns[b] (or null),
      and the node before ns[a], if any, now links to added. The chain with
      ns[a..b] replaced by added then shows c with c[a..b] replaced by n. */
  lemma SpliceLinked<T>(ns: seq<Node<T>>, c: seq<Interval<T>>, a: int, b: int, n: Interval<T>, added: Node<T>)
    requires LinkedBut(ns, c, a - 1) && 0 <= a < b <= |ns|
    requires 0 < a ==> ns[a - 1].View() == c[a - 1] && ns[a - 1].next == added
    requires added.View() == n && added.next == (if b < |ns| then ns[b] else null)
    ensures Linked(Splice(ns, a, b, added), Splice(c, a, b, n))
  {
    var s := Splice(ns, a, b, added);
    var t := Splice(c, a, b, n);
    forall j | 0 <= j < |s|
      ensures NodeAt(s, t, j)
    {
      if j < a - 1 {
        assert NodeAt(ns, c, j);
        assert s[j] == ns[j] && t[j] == c[j] && s[j + 1] == ns[j + 1];
      } else if j == a {
        if b < |ns| {
          assert s[j + 1] == ns[b];
        }
      } else if a < j {
        assert NodeAt(ns, c, j - a - 1 + b);
        assert s[j] == ns[j - a - 1 + b] && t[j] == c[j - a - 1 + b];
        if j + 1 < |s| {
          assert s[j + 1] == ns[j - a + b];
        }
      }
    }
  }

  /** One step of perform: the i-th node now holds v, with its bounds and
      link as before. The chain then shows c with that one value replaced. */
  lemma StepLinked<T>(ns: seq<Node<T>>, c: seq<Interval<T>>, i: int, v: T)
    requires LinkedBut(ns, c, i) && 0 <= i < |ns|
    requires ns[i].View() == Interval(c[i].left, c[i].right, v) && ns[i].next == Succ(ns, i)
    ensures Linked(ns, c[i := Interval(c[i].left, c[i].right, v)])
  {
    var t := c[i := Interval(c[i].left, c[i].right, v)];
    forall j | 0 <= j < |ns|
      ensures NodeAt(ns, t, j)
    {
      if j != i {
        assert NodeAt(ns, c, j);
      }
    }
  }

  // ---------------------------------------------------------------- the tree

  class ChthollyTree<T> {
    /** The domain [min, max] the tree covers. */
    var min: int
    var max: int
    /** The first node of the chain. */
    var root: Node<T>

    /** The nodes reachable from root, in chain order. */
    ghost var nodes: seq<Node<T>>
    /** The views of those nodes. */
    ghost var chain: seq<Interval<T>>
    ghost var Repr: set<object>

    /** root leads, through next, along nodes to null; each node shows the
        matching entry of chain; and chain tiles [min, max]. */
    ghost predicate Valid()
      reads this, Repr
    {
      && this in Repr
      && Owned(nodes, Repr)
      && Linked(nodes, chain)
      && Partitions(chain, min, max)
      && root == nodes[0]
    }

    /** Takes over the chain that starts at node: min is its first left, max is
        the right of the node the walk along next ends at. */
    constructor (node: Node<T>, ghost ns: seq<Node<T>>, ghost c: seq<Interval<T>>)
      requires Linked(ns, c) && Chained(c) && ns[0] == node
      ensures Valid() && fresh(Repr - set j | 0 <= j < |ns| :: ns[j])
      ensures min == c[0].left && max == c[|c| - 1].right
      ensures root == node && nodes == ns && chain == c
    {
      assert NodeAt(ns, c, 0);
      min := node.left;
      var lastNode := node;
      ghost var i := 0;
      while lastNode.next != null
        invariant 0 <= i < |ns| && lastNode == ns[i]
        decreases |ns| - i
      {
        assert NodeAt(ns, c, i);
        lastNode := lastNode.next;
        i := i + 1;
      }
      assert NodeAt(ns, c, i);
      max := lastNode.right;
      root := node;
      nodes := ns;
      chain := c;
      Repr := {this} + set j | 0 <= j < |ns| :: ns[j];
    }

    /** The edit split makes when pos falls strictly inside the i-th node:
        that node keeps [left, pos - 1] and a new node [pos, right] with the
        same value is linked in right after it. */
    method Cut(node: Node<T>, ghost i: int, pos: int) returns (newNode: Node<T>)
      requires Valid() && 0 <= i < |nodes| && node == nodes[i]
      requires node.left < pos <= node.right
      requires Partitions(SplitHere(chain, i, pos), min, max)
      requires forall j :: 0 <= j < |nodes| && j != i ==> nodes[j] != node
      modifies this, node
      ensures Valid() && fresh(newNode) && Repr == old(Repr) + {newNode}
      ensures min == old(min) && max == old(max)
      ensures chain == SplitHere(old(chain), i, pos)
      ensures nodes == Splice(old(nodes), i + 1, i + 1, newNode)
    {
      ghost var ns := nodes;
      ghost var c := chain;
      assert NodeAt(ns, c, i);
      LinkedLoosen(ns, c, i);
      var upper := new Node(pos, node.right, node.value, node.next);
      node.right := pos - 1;
      node.next := upper;
      CutLinked(ns, c, i, pos, upper);
      SpliceOwned(ns, Repr, i + 1, i + 1, upper);
      nodes := Splice(ns, i + 1, i + 1, upper);
      chain := SplitHere(c, i, pos);
      Repr := Repr + {upper};
      newNode := upper;
    }

    /** split(pos): make pos the left end of a node and return that node. The
        node containing pos is cut in two when pos is not already its left;
        the upper half is a new node linked in right after it. */
    method Split(pos: int) returns (r: Result<Node<T>>, ghost k: nat)
      requires Valid()
      modifies Repr
      ensures Valid() && fresh(Repr - old(Repr))
      ensures min == old(min) && max == old(max)
      ensures !(min <= pos <= max) ==> r == Err(PositionOutOfRange) && unchanged(old(Repr))
      ensures min <= pos <= max ==>
        && chain == SplitAt(old(chain), pos)
        && k == Locate(chain, pos) && k < |nodes|
        && r == Ok(nodes[k])
        && (nodes == old(nodes) || (k <= |old(nodes)| && nodes == Splice(old(nodes), k, k, r.value)))
    {
      if pos < min || pos > max {
        return Err(PositionOutOfRange), 0;
      }
      LocateInDomain(chain, min, max, pos);
      SplitAtShape(chain, min, max, pos);
      ghost var target := Locate(chain, pos);
      var node: Node?<T> := root;
      ghost var i := 0;
      while node != null
        invariant 0 <= i <= target && node == nodes[i]
        invariant Valid() && unchanged(old(Repr))
        decreases target - i
      {
        assert NodeAt(nodes, chain, i);
        if node.left == pos {
          LocateUnique(chain, i, pos);
          return Ok(node), i;
        }
        if node.left <= pos <= node.right {
          LocateUnique(chain, i, pos);
          CutReady(nodes, chain, min, max, i, pos);
          var newNode := Cut(node, i, pos);
          LocateUnique(chain, i + 1, pos);
          return Ok(newNode), i + 1;
        }
        node := node.next;
        i := i + 1;
      }
      assert false;
    }

    /** The two splits assign and perform start with: at left, and at
        right + 1 unless that falls past max. Returns the node that now starts
        at left and the one that starts at right + 1 (null when there is none). */
    method SplitRange(left: int, right: int) returns (leftNode: Node<T>, rightNode: Node?<T>, ghost a: nat, ghost b: nat)
      requires Valid() && min <= left <= right <= max
      modifies Repr
      ensures Valid() && fresh(Repr - old(Repr))
      ensures min == old(min) && max == old(max)
      ensures chain == Isolate(old(chain), left, right, max)
      ensures a == Locate(chain, left) && b == EndIndex(chain, right, max)
      ensures a < |nodes| && leftNode == nodes[a]
      ensures rightNode == if b < |nodes| then nodes[b] else null
    {
      ghost var c0 := chain;
      IsolateSpan(c0, min, max, left, right);
      var leftResult, a1 := Split(left);
      leftNode := leftResult.value;
      ghost var c1 := chain;
      a := a1;
      if right + 1 > max {
        rightNode := null;
        b := |nodes|;
        assert Isolate(c0, left, right, max) == c1;
      } else {
        ghost var r1 := Repr;
        assert fresh(r1 - old(Repr));
        var rightResult, b1 := Split(right + 1);
        assert fresh(Repr - r1);
        rightNode := rightResult.value;
        b := b1;
        assert Isolate(c0, left, right, max) == SplitAt(c1, right + 1) == chain;
        assert Locate(chain, left) == a1 < b1;
      }
    }

    /** The walk assign makes when the node at left is not the root: from root
        along next until the node whose next is node. In a valid tree it
        stops at the position just before node. */
    method Predecessor(node: Node<T>, ghost a: int) returns (pre: Node<T>)
      requires Valid() && 0 < a < |nodes| && node == nodes[a]
      ensures pre == nodes[a - 1]
    {
      LinkedUnique(nodes, chain, a);
      pre := root;
      ghost var j := 0;
      while pre.next != node
        invariant 0 <= j < a && pre == nodes[j]
        decreases a - j
      {
        assert NodeAt(nodes, chain, j);
        if pre.next == null {
          assert false;
        }
        pre := pre.next;
        j := j + 1;
      }
      assert NodeAt(nodes, chain, j);
    }

    /** The edit of assign once both splits are made: a new node
        [left, right] = value takes the place of the nodes from leftNode (at
        position a) up to rightNode (at position b, or null), becoming the
        root when leftNode was the root and the successor of leftNode's
        predecessor otherwise. */
    method LinkIn(leftNode: Node<T>, rightNode: Node?<T>, left: int, right: int, value: T, ghost a: int, ghost b: int)
      returns (newNode: Node<T>)
      requires Valid() && 0 <= a < b <= |nodes|
      requires leftNode == nodes[a] && rightNode == (if b < |nodes| then nodes[b] else null)
      requires Partitions(Splice(chain, a, b, Interval(left, right, value)), min, max)
      modifies Repr
      ensures Valid() && fresh(newNode) && Repr == old(Repr) + {newNode}
      ensures min == old(min) && max == old(max)
      ensures nodes == Splice(old(nodes), a, b, newNode)
      ensures chain == Splice(old(chain), a, b, Interval(left, right, value))
      ensures newNode.View() == Interval(left, right, value)
    {
      ghost var ns := nodes;
      ghost var c := chain;
      LinkedUnique(ns, c, a);
      newNode := new Node(left, right, value, null);
      if root == leftNode {
        LinkedLoosen(ns, c, -1);
        root := newNode;
        newNode.next := rightNode;
      } else {
        var preLeftNode := Predecessor(leftNode, a);
        assert NodeAt(ns, c, a - 1);
        LinkedUnique(ns, c, a - 1);
        LinkedLoosen(ns, c, a - 1);
        preLeftNode.next := newNode;
        newNode.next := rightNode;
      }
      SpliceOwned(ns, Repr, a, b, newNode);
      nodes := Splice(ns, a, b, newNode);
      chain := Splice(c, a, b, Interval(left, right, value));
      Repr := Repr + {newNode};
      SpliceLinked(ns, c, a, b, Interval(left, right, value), newNode);
    }

    /** assign(left, right, value): split at left and (inside the domain) at
        right + 1, then link one new node [left, right] = value in place of
        the nodes between the two split points. */
    method Assign(left: int, right: int, value: T) returns (r: Result<Node<T>>)
      requires Valid()
      modifies Repr
      ensures Valid() && fresh(Repr - old(Repr))
      ensures min == old(min) && max == old(max)
      ensures left > right ==> r == Err(RangeInvalid) && unchanged(old(Repr))
      ensures left <= right && (left < min || right > max) ==> r == Err(RangeOutOfRange) && unchanged(old(Repr))
      ensures left <= right && min <= left && right <= max ==>
        && chain == Assigned(old(chain), left, right, value, max)
        && Locate(chain, left) < |nodes|
        && r == Ok(nodes[Locate(chain, left)])
        && fresh(r.value)
        && r.value.View() == Interval(left, right, value)
    {
      if left > right {
        return Err(RangeInvalid);
      }
      if left < min || right > max {
        return Err(RangeOutOfRange);
      }
      ghost var c0 := chain;
      var leftNode, rightNode, a, b := SplitRange(left, right);
      ghost var c2 := chain;
      ghost var r2 := Repr;
      IsolateSpan(c0, min, max, left, right);
      SplicePartitions(c2, min, max, left, right, a, b, value);
      SpliceNode(c2, min, max, left, right, a, b, value);
      var newNode := LinkIn(leftNode, rightNode, left, right, value, a, b);
      assert fresh(r2 - old(Repr));
      return Ok(newNode);
    }

    /** The loop of perform: from leftNode, at position a, along next up to
        rightNode, at position b (or null), each node's value becomes what
        action computes from that node. The ghost result lists the nodes
        handed to action, in call order. */
    method ApplyRun(leftNode: Node<T>, rightNode: Node?<T>, action: Interval<T> -> T, ghost a: int, ghost b: int)
      returns (ghost calls: seq<Interval<T>>)
      requires Valid() && 0 <= a < b <= |nodes|
      requires leftNode == nodes[a] && rightNode == (if b < |nodes| then nodes[b] else null)
      modifies Repr
      ensures Valid() && nodes == old(nodes) && Repr == old(Repr)
      ensures min == old(min) && max == old(max)
      ensures chain == Retag(old(chain), a, b, action)
      ensures calls == old(chain)[a..b]
    {
      ghost var ns := nodes;
      ghost var c := chain;
      if b < |ns| {
        LinkedUnique(ns, c, b);
      }
      var currentNode: Node?<T> := leftNode;
      calls := [];
      ghost var i := a;
      while currentNode != null && currentNode != rightNode
        invariant a <= i <= b
        invariant currentNode == if i < |ns| then ns[i] else null
        invariant Valid() && nodes == ns && Repr == old(Repr)
        invariant min == old(min) && max == old(max)
        invariant |chain| == |c|
        invariant forall j :: 0 <= j < |c| ==>
          chain[j] == if a <= j < i then Interval(c[j].left, c[j].right, action(c[j])) else c[j]
        invariant calls == c[a..i]
        decreases b - i
      {
        ghost var before := chain;
        assert NodeAt(ns, before, i);
        LinkedUnique(ns, before, i);
        LinkedLoosen(ns, before, i);
        currentNode.value := action(currentNode.View());
        StepLinked(ns, before, i, action(c[i]));
        chain := before[i := Interval(c[i].left, c[i].right, action(c[i]))];
        RetaggedPartitions(before, chain, min, max);
        calls := calls + [c[i]];
        currentNode := currentNode.next;
        i := i + 1;
      }
      assert i == b;
      assert chain == Retag(c, a, b, action);
    }

    /** perform(left, right, action): split as assign does, then walk from the
        node at left up to (not including) the node at right + 1, replacing
        each node's value by what action computes from it. The ghost result
        lists the nodes handed to action, in call order. */
    method Perform(left: int, right: int, action: Interval<T> -> T) returns (r: Outcome, ghost calls: seq<Interval<T>>)
      requires Valid()
      modifies Repr
      ensures Valid() && fresh(Repr - old(Repr))
      ensures min == old(min) && max == old(max)
      ensures left > right ==> r == Fail(RangeInvalid) && calls == [] && unchanged(old(Repr))
      ensures left <= right && (left < min || right > max) ==> r == Fail(RangeOutOfRange) && calls == [] && unchanged(old(Repr))
      ensures left <= right && min <= left && right <= max ==>
        && r == Pass
        && chain == Performed(old(chain), left, right, action, max)
        && calls == Within(Isolate(old(chain), left, right, max), left, right)
    {
      calls := [];
      if left > right {
        return Fail(RangeInvalid), calls;
      }
      if left < min || right > max {
        return Fail(RangeOutOfRange), calls;
      }
      ghost var c0 := chain;
      var leftNode, rightNode, a, b := SplitRange(left, right);
      ghost var c2 := chain;
      IsolateSpan(c0, min, max, left, right);
      PerformedCalls(c0, min, max, left, right);
      RunSeparates(c2, min, max, left, right, a, b);
      TransformRetag(c2, left, right, a, b, action);
      calls := ApplyRun(leftNode, rightNode, action, a, b);
      return Pass, calls;
    }

    /** query(left, right, read): walk the whole chain and hand read a copy of
        every node that meets [left, right], clamped to it, stopping at the
        first node past right. The copies are returned in call order instead
        of being passed to a callback. */
    method Query(left: int, right: int) returns (r: Result<seq<Interval<T>>>)
      requires Valid()
      ensures left > right ==> r == Err(RangeInvalid)
      ensures left <= right && (left < min || right > max) ==> r == Err(RangeOutOfRange)
      ensures left <= right && min <= left && right <= max ==> r == Ok(Clip(chain, left, right))
    {
      if left > right {
        return Err(RangeInvalid);
      }
      if left < min || right > max {
        return Err(RangeOutOfRange);
      }
      var emitted: seq<Interval<T>> := [];
      var node: Node?<T> := root;
      ghost var i := 0;
      while node != null
        invariant 0 <= i <= |nodes|
        invariant node == if i < |nodes| then nodes[i] else null
        invariant emitted == Clip(chain[..i], left, right)
        decreases |nodes| - i
      {
        assert NodeAt(nodes, chain, i);
        assert chain[..i + 1][..i] == chain[..i];
        if node.left < left && node.right < left {
        } else if node.left <= left && node.right >= left {
          emitted := emitted + [Interval(left, if right < node.right then right else node.right, node.value)];
        } else if node.left >= left && node.right <= right {
          emitted := emitted + [Interval(node.left, node.right, node.value)];
        } else if node.left <= right && node.right >= right {
          emitted := emitted + [Interval(if left > node.left then left else node.left, right, node.value)];
        } else if node.left > right && node.right > right {
          ChainedSorted(chain);
          ClipPrefix(chain, left, right, i);
          break;
        }
        node := node.next;
        i := i + 1;
      }
      if node == null {
        assert chain[..i] == chain;
      }
      return Ok(emitted);
    }
  }
}
