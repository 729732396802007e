/** A singly linked list of ints whose nodes are also its handles: every
    operation is called on the head node and walks the `next` pointers.

    The head carries the ghost view of the list it starts: `Nodes` (the
    nodes in list order, the head first), `Contents` (their values) and
    `Repr` (the set of those nodes). Only the head's ghost fields are
    meaningful; a node further down keeps whatever ghost view it had. */
module ListNodes {
  import Decimal

  /** Outcome of `insert`/`remove`: they either succeed or throw
      `ListNodeException`, whose message quotes the position and the size. */
  datatype Status = Success | ListNodeException(position: nat, size: nat)

  /** Positions 1..InsertCap are reachable by the non-head insertion loop,
      which stops once its counter reaches this value. */
  const InsertCap: nat := 100

  /** `ns` is a null-terminated, acyclic chain of nodes linked by `next`. */
  ghost predicate Chain(ns: seq<Node>)
    reads ns`next
  {
    |ns| >= 1 &&
    (forall i :: 0 <= i < |ns| - 1 ==> ns[i].next == ns[i + 1]) &&
    ns[|ns| - 1].next == null
  }

  /** A chain never visits a node twice: two equal nodes would have the
      same successors all the way down, but only the last one has none. */
  lemma ChainDistinct(ns: seq<Node>)
    requires Chain(ns)
    ensures forall i, j :: 0 <= i < j < |ns| ==> ns[i] != ns[j]
  {
    forall i, j | 0 <= i < j < |ns|
      ensures ns[i] != ns[j]
    {
      if ns[i] == ns[j] {
        ChainShift(ns, i, j, |ns| - 1 - j);
        ChainNextNull(ns, i + |ns| - 1 - j);
        assert false;
      }
    }
  }

  /** Equal nodes in a chain have equal successors `d` steps on. */
  lemma {:induction false} ChainShift(ns: seq<Node>, i: nat, j: nat, d: nat)
    requires Chain(ns) && i < j && j + d < |ns| && ns[i] == ns[j]
    ensures ns[i + d] == ns[j + d]
    decreases d
  {
    if d > 0 {
      ChainShift(ns, i, j, d - 1);
      assert ns[i + d] == ns[i + d - 1].next;
    }
  }

  /** In a chain, only the last node has no successor. */
  lemma ChainNextNull(ns: seq<Node>, i: nat)
    requires Chain(ns) && i < |ns|
    ensures ns[i].next == null <==> i == |ns| - 1
  {
    if i < |ns| - 1 {
      assert ns[i].next == ns[i + 1];
    }
  }

  /** Linking `x` between `ns[k - 1]` and `ns[k]` yields a chain. */
  lemma SplicedChain(ns: seq<Node>, k: nat, x: Node)
    requires 1 <= k < |ns|
    requires forall i :: 0 <= i < |ns| - 1 && i != k - 1 ==> ns[i].next == ns[i + 1]
    requires ns[|ns| - 1].next == null
    requires ns[k - 1].next == x && x.next == ns[k]
    ensures Chain(ns[..k] + [x] + ns[k..])
  {
    var r := ns[..k] + [x] + ns[k..];
    forall i | 0 <= i < |r| - 1
      ensures r[i].next == r[i + 1]
    {
      if i < k - 1 {
        assert r[i] == ns[i] && r[i + 1] == ns[i + 1];
      } else if i == k - 1 {
        assert r[i] == ns[k - 1] && r[i + 1] == x;
      } else if i == k {
        assert r[i] == x && r[i + 1] == ns[k];
      } else {
        assert r[i] == ns[i - 1] && r[i + 1] == ns[i];
      }
    }
    assert r[|r| - 1] == ns[|ns| - 1];
  }

  /** The values along a chain with `x` placed at index `k`. */
  lemma SplicedVals(ns: seq<Node>, c: seq<int>, k: nat, x: Node, v: int)
    requires k <= |ns| == |c|
    requires forall i :: 0 <= i < |ns| ==> ns[i].val == c[i]
    requires x.val == v
    ensures |ns[..k] + [x] + ns[k..]| == |c[..k] + [v] + c[k..]|
    ensures forall i :: 0 <= i < |ns| + 1 ==> (ns[..k] + [x] + ns[k..])[i].val == (c[..k] + [v] + c[k..])[i]
  {
    forall i | 0 <= i < |ns| + 1
      ensures (ns[..k] + [x] + ns[k..])[i].val == (c[..k] + [v] + c[k..])[i]
    {
      if i < k {
        assert (ns[..k] + [x] + ns[k..])[i] == ns[i];
        assert (c[..k] + [v] + c[k..])[i] == c[i];
      } else if i > k {
        assert (ns[..k] + [x] + ns[k..])[i] == ns[i - 1];
        assert (c[..k] + [v] + c[k..])[i] == c[i - 1];
      }
    }
  }

  /** The nodes of a chain with `x` placed at index `k`. */
  lemma SplicedMembers(ns: seq<Node>, k: nat, x: Node, r: seq<Node>)
    requires k <= |ns| && r == ns[..k] + [x] + ns[k..]
    ensures (set n | n in r) == (set n | n in ns) + {x}
  {
    assert ns == ns[..k] + ns[k..];
  }

  /** Linking `ns[k - 1]` straight to `ns[k + 1]` yields a chain without `ns[k]`. */
  lemma UnlinkedChain(ns: seq<Node>, k: nat)
    requires 1 <= k < |ns| - 1
    requires forall i :: 0 <= i < |ns| - 1 && i != k - 1 ==> ns[i].next == ns[i + 1]
    requires ns[|ns| - 1].next == null
    requires ns[k - 1].next == ns[k + 1]
    ensures Chain(ns[..k] + ns[k + 1..])
  {
    var r := ns[..k] + ns[k + 1..];
    forall i | 0 <= i < |r| - 1
      ensures r[i].next == r[i + 1]
    {
      if i < k - 1 {
        assert r[i] == ns[i] && r[i + 1] == ns[i + 1];
      } else if i == k - 1 {
        assert r[i] == ns[k - 1] && r[i + 1] == ns[k + 1];
      } else {
        assert r[i] == ns[i + 1] && r[i + 1] == ns[i + 2];
      }
    }
    assert r[|r| - 1] == ns[|ns| - 1];
  }

  /** The values along a chain without its node at index `k`. */
  lemma UnlinkedVals(ns: seq<Node>, c: seq<int>, k: nat, rest: seq<Node>, restVals: seq<int>)
    requires k < |ns| == |c|
    requires forall i :: 0 <= i < |ns| ==> ns[i].val == c[i]
    requires rest == ns[..k] + ns[k + 1..] && restVals == c[..k] + c[k + 1..]
    ensures |rest| == |restVals|
    ensures forall i :: 0 <= i < |rest| ==> rest[i].val == restVals[i]
  {
    forall i | 0 <= i < |rest|
      ensures rest[i].val == restVals[i]
    {
      if i < k {
        assert rest[i] == ns[i] && restVals[i] == c[i];
      } else {
        assert rest[i] == ns[i + 1] && restVals[i] == c[i + 1];
      }
    }
  }

  /** The values after inserting `v` at `position` as `insert(val, position)`
      does: at the index for positions up to InsertCap, nowhere beyond. */
  ghost function InsertedAt(c: seq<int>, v: int, position: nat): seq<int>
    requires position <= |c|
  {
    if position <= InsertCap then c[..position] + [v] + c[position..] else c
  }

  /** The values after `remove(position)`: position 0 is left in place. */
  ghost function RemovedAt(c: seq<int>, position: nat): seq<int>
    requires position < |c|
  {
    if position == 0 then c else c[..position] + c[position + 1..]
  }

  /** Removing at the position just inserted at restores the list, for every
      position the insertion loop reaches. */
  lemma RemoveUndoesInsert(c: seq<int>, v: int, position: nat)
    requires 1 <= position <= |c| && position <= InsertCap
    ensures |InsertedAt(c, v, position)| == |c| + 1
    ensures InsertedAt(c, v, position)[position] == v
    ensures RemovedAt(InsertedAt(c, v, position), position) == c
  {
    var d := InsertedAt(c, v, position);
    assert d[..position] == c[..position];
    assert d[position + 1..] == c[position..];
  }

  /** The values of the list rendered one after the other, separated by
      `delimiter`. */
  function Joined(c: seq<int>, delimiter: string): string
    decreases |c|
  {
    if |c| == 0 then ""
    else if |c| == 1 then Decimal.IntToDecimal(c[0])
    else Joined(c[..|c| - 1], delimiter) + delimiter + Decimal.IntToDecimal(c[|c| - 1])
  }

  /** What `toString(delimiter)` returns for a list with values `c`. */
  function Render(c: seq<int>, delimiter: string): string {
    "[" + Joined(c, delimiter) + "]"
  }

  /** What `toString` has built after rendering the first `i` values:
      each followed by the delimiter unless it is the last. */
  ghost function RenderedPrefix(c: seq<int>, delimiter: string, i: nat): string
    requires i <= |c|
  {
    "[" + Joined(c[..i], delimiter) + (if 0 < i < |c| then delimiter else "")
  }

  lemma RenderStep(c: seq<int>, delimiter: string, i: nat)
    requires i < |c|
    ensures RenderedPrefix(c, delimiter, i + 1) ==
            RenderedPrefix(c, delimiter, i) + Decimal.IntToDecimal(c[i]) +
            (if i + 1 < |c| then delimiter else "")
  {
    assert c[..i + 1][..i] == c[..i];
  }

  /** Index of the last `d` in `s`, or -1 when there is none. */
  function LastIndex(s: string, d: char): (r: int)
    ensures -1 <= r < |s|
    ensures r >= 0 ==> s[r] == d
    ensures forall k :: r < k < |s| ==> s[k] != d
    decreases |s|
  {
    if s == [] then -1 else if s[|s| - 1] == d then |s| - 1 else LastIndex(s[..|s| - 1], d)
  }

  /** `s` cut at every `d`: the reading side of `Joined`. */
  function Fields(s: string, d: char): (r: seq<string>)
    ensures |r| >= 1
    decreases |s|
  {
    var k := LastIndex(s, d);
    if k < 0 then [s] else Fields(s[..k], d) + [s[k + 1..]]
  }

  /** The last `d` is the one before a tail without any. */
  lemma {:induction false} LastIndexBefore(front: string, d: char, tail: string)
    requires d !in tail
    ensures LastIndex(front + [d] + tail, d) == |front|
    decreases |tail|
  {
    var s := front + [d] + tail;
    if tail == [] {
      assert s[|s| - 1] == d;
    } else {
      assert s[|s| - 1] == tail[|tail| - 1] != d;
      assert s[..|s| - 1] == front + [d] + tail[..|tail| - 1];
      LastIndexBefore(front, d, tail[..|tail| - 1]);
    }
  }

  /** The decimal text of a number never contains a character other than a
      digit or '-'. */
  predicate IsSeparator(d: char) {
    d != '-' && !Decimal.IsDigit(d)
  }

  lemma DecimalHasNoSeparator(x: int, d: char)
    requires IsSeparator(d)
    ensures d !in Decimal.IntToDecimal(x)
  {
    var s := Decimal.IntToDecimal(x);
    assert forall k :: 0 <= k < |s| ==> s[k] == '-' || Decimal.IsDigit(s[k]);
  }

  /** The decimal text of each value, in order. */
  function Decimals(c: seq<int>): (r: seq<string>)
    ensures |r| == |c|
    decreases |c|
  {
    if c == [] then [] else Decimals(c[..|c| - 1]) + [Decimal.IntToDecimal(c[|c| - 1])]
  }

  /** Different values have different decimal texts. */
  lemma {:induction false} DecimalsInjective(a: seq<int>, b: seq<int>)
    requires Decimals(a) == Decimals(b)
    ensures a == b
    decreases |a|
  {
    if a != [] {
      var last := |a| - 1;
      assert Decimals(a)[last] == Decimals(b)[last];
      Decimal.IntToDecimalInjective(a[last], b[last]);
      assert Decimals(a[..last]) == Decimals(a)[..last];
      assert Decimals(b[..last]) == Decimals(b)[..last];
      DecimalsInjective(a[..last], b[..last]);
      assert a == a[..last] + [a[last]] && b == b[..last] + [b[last]];
    }
  }

  /** Splitting a rendering on a one-character separator gives back the
      decimal text of every value, in order. */
  lemma {:induction false} FieldsOfJoined(c: seq<int>, d: char)
    requires |c| >= 1 && IsSeparator(d)
    ensures Fields(Joined(c, [d]), d) == Decimals(c)
    decreases |c|
  {
    var last := Decimal.IntToDecimal(c[|c| - 1]);
    DecimalHasNoSeparator(c[|c| - 1], d);
    if |c| == 1 {
      assert LastIndex(last, d) == -1;
    } else {
      var p := c[..|c| - 1];
      var front := Joined(p, [d]);
      var s := front + [d] + last;
      assert Joined(c, [d]) == s;
      LastIndexBefore(front, d, last);
      assert s[..|front|] == front && s[|front| + 1..] == last;
      assert Fields(s, d) == Fields(front, d) + [last];
      FieldsOfJoined(p, d);
    }
  }

  /** Two lists render the same with the default separator only when they
      hold the same values. */
  lemma RenderInjective(a: seq<int>, b: seq<int>)
    requires Render(a, ";") == Render(b, ";")
    ensures a == b
  {
    assert Joined(a, ";") == Render(a, ";")[1..|Render(a, ";")| - 1];
    assert Joined(b, ";") == Render(b, ";")[1..|Render(b, ";")| - 1];
    if a != [] && b != [] {
      FieldsOfJoined(a, ';');
      FieldsOfJoined(b, ';');
      DecimalsInjective(a, b);
    } else {
      assert a == [] || |Joined(a, ";")| >= 1;
      assert b == [] || |Joined(b, ";")| >= 1;
    }
  }

  /** The rendering the insert unit test expects. */
  lemma RenderInsertExample()
    ensures Render([1, 10, 2, 3], ";") == "[1;10;2;3]"
  {
    assert [1, 10, 2, 3][..3] == [1, 10, 2];
    assert [1, 10, 2][..2] == [1, 10];
    assert [1, 10][..1] == [1];
    assert Decimal.NatToDecimal(10) == "10";
  }

  /** The rendering the remove unit test expects. */
  lemma RenderRemoveExample()
    ensures Render([1, 3], ";") == "[1;3]"
  {
    assert [1, 3][..1] == [1];
  }

  /** The rendering the merge unit test expects. */
  lemma RenderMergeExample()
    ensures Render([1, 2, 3, 4, 5, 6], ";") == "[1;2;3;4;5;6]"
  {
    assert [1, 2, 3, 4, 5, 6][..5] == [1, 2, 3, 4, 5];
    assert [1, 2, 3, 4, 5][..4] == [1, 2, 3, 4];
    assert [1, 2, 3, 4][..3] == [1, 2, 3];
    assert [1, 2, 3][..2] == [1, 2];
    assert [1, 2][..1] == [1];
  }

  function Min(x: nat, y: nat): nat {
    if x <= y then x else y
  }

  /** `a[0], b[0], a[1], b[1], ...` for as long as both have elements. */
  function Interleave(a: seq<int>, b: seq<int>): (r: seq<int>)
    ensures |r| == 2 * Min(|a|, |b|)
  {
    if a == [] || b == [] then [] else [a[0], b[0]] + Interleave(a[1..], b[1..])
  }

  /** Element by element: the even slots come from `a`, the odd ones from `b`. */
  lemma {:induction false} InterleaveAt(a: seq<int>, b: seq<int>, k: nat)
    requires k < Min(|a|, |b|)
    ensures Interleave(a, b)[2 * k] == a[k]
    ensures Interleave(a, b)[2 * k + 1] == b[k]
    decreases k
  {
    if k > 0 {
      InterleaveAt(a[1..], b[1..], k - 1);
    }
  }

  /** Extending both inputs by one element extends the result by the pair. */
  lemma {:induction false} InterleaveSnoc(a: seq<int>, b: seq<int>, x: int, y: int)
    requires |a| == |b|
    ensures Interleave(a + [x], b + [y]) == Interleave(a, b) + [x, y]
    decreases |a|
  {
    if a != [] {
      assert (a + [x])[1..] == a[1..] + [x];
      assert (b + [y])[1..] == b[1..] + [y];
      InterleaveSnoc(a[1..], b[1..], x, y);
    }
  }

  /** One more element from each input adds one more pair at the end. */
  lemma InterleavePrefixStep(a: seq<int>, b: seq<int>, i: nat)
    requires i < |a| && i < |b|
    ensures Interleave(a[..i + 1], b[..i + 1]) == Interleave(a[..i], b[..i]) + [a[i], b[i]]
  {
    assert a[..i + 1] == a[..i] + [a[i]];
    assert b[..i + 1] == b[..i] + [b[i]];
    InterleaveSnoc(a[..i], b[..i], a[i], b[i]);
  }

  /** Elements of the longer input beyond the shorter one's length are dropped. */
  lemma {:induction false} InterleaveTruncate(a: seq<int>, b: seq<int>)
    ensures Interleave(a, b) == Interleave(a[..Min(|a|, |b|)], b[..Min(|a|, |b|)])
    decreases |a|
  {
    if a != [] && b != [] {
      var m := Min(|a|, |b|);
      assert a[..m][1..] == a[1..][..m - 1];
      assert b[..m][1..] == b[1..][..m - 1];
      InterleaveTruncate(a[1..], b[1..]);
    }
  }

  class Node {
    var val: int
    var next: Node?

    ghost var Nodes: seq<Node>
    ghost var Contents: seq<int>
    ghost var Repr: set<Node>

    /** This node heads an acyclic list whose nodes are `Nodes`. */
    ghost predicate Valid()
      reads this, Repr
    {
      this in Repr &&
      Repr == (set n | n in Nodes) &&
      |Nodes| >= 1 && Nodes[0] == this && Chain(Nodes) &&
      |Contents| == |Nodes| &&
      (forall k :: 0 <= k < |Nodes| ==> Nodes[k].val == Contents[k])
    }

    /** `ListNode(int x)`: a one-node list. */
    constructor (x: int)
      ensures Valid() && fresh(Repr)
      ensures Contents == [x] && Nodes == [this]
    {
      val := x;
      next := null;
      new;
      Nodes := [this];
      Contents := [x];
      Repr := {this};
    }

    /** `ListNode()`: a one-node list holding 0. */
    constructor Default()
      ensures Valid() && fresh(Repr)
      ensures Contents == [0] && Nodes == [this]
    {
      val := 0;
      next := null;
      new;
      Nodes := [this];
      Contents := [0];
      Repr := {this};
    }

    /** `append(ListNode*)`: makes `newNode` the successor of this node,
        dropping whatever followed it before. */
    method AppendNode(newNode: Node?)
      requires newNode != null ==> newNode.Valid() && this !in newNode.Repr
      modifies this
      ensures Valid()
      ensures val == old(val) && next == newNode
      ensures newNode == null ==> Contents == [val] && Nodes == [this]
      ensures newNode != null ==>
                Contents == [val] + newNode.Contents && Nodes == [this] + newNode.Nodes
    {
      next := newNode;
      if newNode == null {
        Nodes, Contents, Repr := [this], [val], {this};
      } else {
        Nodes := [this] + newNode.Nodes;
        Contents := [val] + newNode.Contents;
        Repr := {this} + newNode.Repr;
      }
    }

    /** `insert(position, ListNode*)`: the loop only acts when its index
        equals `position`, and then splices `newNode` right after this
        node, so the result does not depend on `position`. */
    method InsertNode(position: nat, newNode: Node)
      requires Valid() && newNode !in Repr
      requires position < 0xFFFF_FFFF
      modifies this, newNode
      ensures Valid()
      ensures Nodes == [this, newNode] + old(Nodes)[1..]
      ensures Contents == [old(val), old(newNode.val)] + old(Contents)[1..]
    {
      ChainDistinct(Nodes);
      for idx := 0 to position + 1
        invariant idx <= position ==> unchanged(this, newNode)
        invariant idx > position ==>
                    next == newNode && newNode.next == old(next) &&
                    val == old(val) && newNode.val == old(newNode.val) &&
                    Nodes == old(Nodes) && Contents == old(Contents) && Repr == old(Repr)
      {
        if position == idx {
          newNode.next := next;
          next := newNode;  // this->append(newNode)
        }
      }
      Nodes := [this, newNode] + Nodes[1..];
      Contents := [val, newNode.val] + Contents[1..];
      Repr := Repr + {newNode};
    }

    /** `size()`: starts at the second node and counts the links after it,
        so it returns two less than the number of nodes. It dereferences
        the second node, which must exist. */
    method Size() returns (count: nat)
      requires Valid()
      requires |Contents| >= 2
      ensures count == |Contents| - 2
    {
      count := 0;
      var nextNode := next;
      while nextNode.next != null
        invariant count + 1 < |Nodes|
        invariant nextNode == Nodes[count + 1]
        decreases |Nodes| - count
      {
        nextNode := nextNode.next;
        count := count + 1;
      }
      ChainNextNull(Nodes, count + 1);
    }

    /** The count the unit tests expect from `size()`: the number of links,
        one less than the number of nodes, also for a single node. */
    method Count() returns (count: nat)
      requires Valid()
      ensures count == |Contents| - 1
    {
      count := 0;
      var current := this;
      while current.next != null
        invariant count < |Nodes|
        invariant current == Nodes[count]
        decreases |Nodes| - count
      {
        current := current.next;
        count := count + 1;
      }
      ChainNextNull(Nodes, count);
    }

    /** `append(int)`: walks to the tail and links a new node holding `v`. */
    method Append(v: int) returns (ghost node: Node)
      requires Valid()
      modifies Repr
      ensures Valid() && fresh(node) && Repr == old(Repr) + {node}
      ensures Nodes == old(Nodes) + [node] && Contents == old(Contents) + [v]
    {
      var current := this;
      ghost var i := 0;
      while current.next != null
        invariant i < |Nodes| && current == Nodes[i]
        decreases |Nodes| - i
      {
        current := current.next;
        i := i + 1;
      }
      ChainNextNull(Nodes, i);
      ChainDistinct(Nodes);
      var last := new Node(v);
      current.next := last;
      node := last;
      Nodes := Nodes + [node];
      Contents := Contents + [v];
      Repr := Repr + {node};
    }

    /** `insert(val, position)`: throws when `position` exceeds `size() + 1`.
        Position 0 keeps the head object (InsertAtHead); other positions are
        handled by a walk whose counter stops at InsertCap (SpliceWalk), so
        a position beyond it changes nothing. The node allocated before the
        branch is only used by the walk. */
    method Insert(v: int, position: nat) returns (status: Status)
      requires Valid()
      requires |Contents| >= 2
      modifies Repr
      ensures Valid() && fresh(Repr - old(Repr))
      ensures status.ListNodeException? <==> position > |old(Contents)| - 1
      ensures status.ListNodeException? ==>
                status == ListNodeException(position, |old(Contents)| - 2) &&
                Nodes == old(Nodes) && Contents == old(Contents)
      ensures status.Success? ==> Contents == InsertedAt(old(Contents), v, position)
      ensures status.Success? && position == 0 ==>
                |Nodes| >= 2 && fresh(Nodes[1]) && Nodes == [this, Nodes[1]] + old(Nodes)[1..]
      ensures status.Success? && 1 <= position <= InsertCap ==>
                position < |Nodes| && fresh(Nodes[position]) &&
                Nodes == old(Nodes)[..position] + [Nodes[position]] + old(Nodes)[position..]
      ensures status.Success? && position > InsertCap ==> Nodes == old(Nodes)
    {
      var s := Size();
      if position > s + 1 {
        return ListNodeException(position, s);
      }
      var newNode := new Node(v);
      if position == 0 {
        InsertAtHead(v);
      } else {
        SpliceWalk(newNode, position);
      }
      status := Success;
    }

    /** The position-0 branch of `insert(val, position)`: a copy of the head
        becomes the second node, and the head itself takes `v`. */
    method InsertAtHead(v: int)
      requires Valid() && |Nodes| >= 2
      modifies Repr
      ensures Valid() && fresh(Repr - old(Repr))
      ensures Contents == [v] + old(Contents)
      ensures |Nodes| >= 2 && fresh(Nodes[1]) && Nodes == [this, Nodes[1]] + old(Nodes)[1..]
    {
      ghost var ns, c := Nodes, Contents;
      ChainDistinct(ns);
      var head := HeadLink(v);
      ghost var newNodes := ns[..1] + [head] + ns[1..];
      assert newNodes == [this, head] + ns[1..];
      SplicedChain(ns, 1, head);
      SplicedVals(ns, [v] + c[1..], 1, head, c[0]);
      assert ([v] + c[1..])[..1] + [c[0]] + ([v] + c[1..])[1..] == [v] + c;
      SplicedMembers(ns, 1, head, newNodes);
      SetView(newNodes, [v] + c, Repr + {head});
    }

    /** The links of the head branch: a fresh node takes over this node's
        value and successor, and this node takes `v` and points to it. */
    method HeadLink(v: int) returns (head: Node)
      modifies this`val, this`next
      ensures fresh(head)
      ensures head.val == old(val) && head.next == old(next)
      ensures val == v && next == head
    {
      var current := this;
      head := new Node(current.val);
      head.next := current.next;
      current.val := v;
      current.next := head;
    }

    /** The non-head branch of `insert(val, position)`: walk from the head
        for at most InsertCap steps and link `newNode` after the node at
        index `position - 1` when the walk reaches it. */
    method SpliceWalk(newNode: Node, position: nat)
      requires Valid()
      requires 1 <= position < |Nodes|
      requires newNode !in Repr && newNode.next == null
      modifies Repr, newNode
      ensures Valid()
      ensures Repr == old(Repr) + (if position <= InsertCap then {newNode} else {})
      ensures Contents == InsertedAt(old(Contents), old(newNode.val), position)
      ensures position <= InsertCap ==>
                Nodes == old(Nodes)[..position] + [newNode] + old(Nodes)[position..]
      ensures position > InsertCap ==> Nodes == old(Nodes)
    {
      ghost var ns := Nodes;
      ChainDistinct(ns);
      LinkWalk(ns, newNode, position);
      if position <= InsertCap {
        ghost var newNodes := ns[..position] + [newNode] + ns[position..];
        SplicedVals(ns, Contents, position, newNode, newNode.val);
        SplicedMembers(ns, position, newNode, newNodes);
        SetView(newNodes, Contents[..position] + [newNode.val] + Contents[position..], Repr + {newNode});
      } else {
        SetView(ns, Contents, Repr);
      }
    }

    /** The walk of the non-head branch on the chain `ns` this node heads:
        for at most InsertCap steps, and at counter `position - 1` it links
        `newNode` after the current node. */
    method LinkWalk(ghost ns: seq<Node>, newNode: Node, position: nat)
      requires Chain(ns) && ns[0] == this && 1 <= position < |ns|
      requires forall i, j :: 0 <= i < j < |ns| ==> ns[i] != ns[j]
      requires newNode !in ns && newNode.next == null
      modifies ns`next, newNode`next
      ensures position <= InsertCap ==> Chain(ns[..position] + [newNode] + ns[position..])
      ensures position > InsertCap ==> Chain(ns) && newNode.next == null
    {
      var current: Node? := this;
      var counter := 0;
      ghost var newNodes :=
        if position <= InsertCap then ns[..position] + [newNode] + ns[position..] else ns;
      assert forall k :: 0 <= k < |newNodes| ==>
        newNodes[k] == if position > InsertCap || k < position then ns[k]
                       else if k == position then newNode else ns[k - 1];
      while current != null && counter < InsertCap
        invariant counter <= InsertCap && counter <= |newNodes|
        invariant current == if counter < |newNodes| then newNodes[counter] else null
        invariant forall i :: 0 <= i < |ns| - 1 && i + 1 != position ==> ns[i].next == ns[i + 1]
        invariant ns[|ns| - 1].next == null
        invariant counter < position ==> ns[position - 1].next == ns[position] && newNode.next == null
        invariant counter >= position ==> ns[position - 1].next == newNode && newNode.next == ns[position]
        decreases InsertCap - counter
      {
        if counter + 1 == position {
          newNode.next := current.next;
          current.next := newNode;  // current->append(newNode)
        }
        counter := counter + 1;
        current := current.next;
      }
      if position <= InsertCap {
        SplicedChain(ns, position, newNode);
      }
    }

    /** `toString(delimiter)`: the values in decimal between brackets,
        separated by `delimiter`. */
    method ToString(delimiter: string := ";") returns (result: string)
      requires Valid()
      ensures result == Render(Contents, delimiter)
    {
      result := RenderWalk(Nodes, Contents, delimiter);
    }

    /** The loop of `toString` along the chain `ns` this node heads, whose
        values are `c`. */
    method RenderWalk(ghost ns: seq<Node>, ghost c: seq<int>, delimiter: string) returns (result: string)
      requires Chain(ns) && ns[0] == this && |c| == |ns|
      requires forall k :: 0 <= k < |ns| ==> ns[k].val == c[k]
      ensures result == Render(c, delimiter)
    {
      result := "[";
      var current: Node? := this;
      ghost var i := 0;
      while current != null
        invariant i <= |ns|
        invariant current == if i < |ns| then ns[i] else null
        invariant result == RenderedPrefix(c, delimiter, i)
        decreases |ns| - i
      {
        ChainNextNull(ns, i);
        RenderStep(c, delimiter, i);
        result := result + Decimal.IntToDecimal(current.val);
        if current.next != null {
          result := result + delimiter;
        }
        current := current.next;
        i := i + 1;
      }
      assert c[..i] == c;
      result := result + "]";
    }

    /** `remove(position)`: throws when `position` exceeds `size()`;
        otherwise unlinks the node at `position`. The walk only acts at
        counter `position - 1`, so position 0 changes nothing. */
    method Remove(position: nat) returns (status: Status)
      requires Valid()
      requires |Contents| >= 2
      modifies Repr
      ensures Valid()
      ensures status.ListNodeException? <==> position > |old(Contents)| - 2
      ensures status.ListNodeException? ==>
                status == ListNodeException(position, |old(Contents)| - 2) &&
                Nodes == old(Nodes) && Contents == old(Contents)
      ensures status.Success? ==>
                Contents == RemovedAt(old(Contents), position) &&
                Nodes == (if position == 0 then old(Nodes)
                          else old(Nodes)[..position] + old(Nodes)[position + 1..])
    {
      var s := Size();
      if position > s {
        return ListNodeException(position, s);
      }
      ghost var ns := Nodes;
      ChainDistinct(ns);
      UnlinkWalk(ns, position);
      if position != 0 {
        ghost var newNodes := ns[..position] + ns[position + 1..];
        ghost var newContents := Contents[..position] + Contents[position + 1..];
        UnlinkedVals(ns, Contents, position, newNodes, newContents);
        SetView(newNodes, newContents, set n | n in newNodes);
      } else {
        SetView(ns, Contents, Repr);
      }
      status := Success;
    }

    /** Records `ns` and their values `c` as the ghost view of the list
        this node heads. */
    ghost method SetView(ns: seq<Node>, c: seq<int>, r: set<Node>)
      requires |ns| >= 1 && ns[0] == this && Chain(ns) && |c| == |ns|
      requires forall k :: 0 <= k < |ns| ==> ns[k].val == c[k]
      requires forall n :: n in r <==> n in ns
      modifies this`Nodes, this`Contents, this`Repr
      ensures Valid() && Nodes == ns && Contents == c && Repr == r
    {
      Nodes, Contents, Repr := ns, c, r;
    }

    /** The walk of `remove(position)` once the bound check has passed, on
        the chain `ns` this node heads: the node at counter `position - 1`
        is linked past its successor, and the walk carries on to the end. */
    method UnlinkWalk(ghost ns: seq<Node>, position: nat)
      requires Chain(ns) && ns[0] == this && position < |ns| - 1
      requires forall i, j :: 0 <= i < j < |ns| ==> ns[i] != ns[j]
      modifies ns`next
      ensures position == 0 ==> Chain(ns)
      ensures position != 0 ==> Chain(ns[..position] + ns[position + 1..])
    {
      var counter := 0;
      var current: Node? := this;
      ghost var newNodes := if position == 0 then ns else ns[..position] + ns[position + 1..];
      assert forall k :: 0 <= k < |newNodes| ==> newNodes[k] == if position == 0 || k < position then ns[k] else ns[k + 1];
      while current != null
        invariant counter <= |newNodes|
        invariant current == if counter < |newNodes| then newNodes[counter] else null
        invariant forall i :: 0 <= i < |ns| - 1 && i + 1 != position ==> ns[i].next == ns[i + 1]
        invariant ns[|ns| - 1].next == null
        invariant 1 <= position ==> ns[position - 1].next == if counter < position then ns[position] else ns[position + 1]
        decreases |newNodes| - counter
      {
        if counter + 1 == position {
          current.next := current.next.next;
        }
        counter := counter + 1;
        current := current.next;
      }
      if position != 0 {
        UnlinkedChain(ns, position);
      }
    }
  }

  /** `vector2ListNode`: null for no data, otherwise a fresh list holding
      the data in order, built by appending one value at a time. */
  method VectorToList(data: seq<int>) returns (list: Node?)
    ensures list == null <==> data == []
    ensures list != null ==> list.Valid() && fresh(list.Repr) && list.Contents == data
  {
    list := null;
    for i := 0 to |data|
      invariant list == null <==> i == 0
      invariant list != null ==> list.Valid() && fresh(list.Repr) && list.Contents == data[..i]
    {
      ghost var added;
      list, added := Push(list, data[i]);
    }
    assert data[..|data|] == data;
  }

  /** The step both builders repeat: a null list becomes a fresh one-node
      list holding `x`, any other list gets `x` appended. */
  method Push(list: Node?, x: int) returns (r: Node, ghost added: set<Node>)
    requires list != null ==> list.Valid()
    modifies if list == null then {} else list.Repr
    ensures r.Valid() && fresh(added)
    ensures list != null ==> r == list
    ensures list == null ==> r.Repr == added && r.Contents == [x]
    ensures list != null ==>
              r.Repr == old(list.Repr) + added && r.Contents == old(list.Contents) + [x]
  {
    if list == null {
      r := new Node(x);
      added := {r};
    } else {
      r := list;
      ghost var node := r.Append(x);
      added := {node};
    }
  }

  /** One round of `mergeTwoList`: the first round starts the merged list
      with a node holding `x`, later rounds append `x`; both then append `y`. */
  method PushPair(merged: Node?, x: int, y: int) returns (r: Node, ghost added: set<Node>)
    requires merged != null ==> merged.Valid()
    modifies if merged == null then {} else merged.Repr
    ensures r.Valid() && fresh(added)
    ensures merged != null ==> r == merged
    ensures merged == null ==> r.Repr == added && r.Contents == [x, y]
    ensures merged != null ==>
              r.Repr == old(merged.Repr) + added && r.Contents == old(merged.Contents) + [x, y]
  {
    ghost var first, second;
    r, first := Push(merged, x);
    r, second := Push(r, y);
    added := first + second;
  }

  /** `mergeTwoList`: a fresh list alternating the values of the two inputs
      while both have one left; null when either input is null. The inputs
      are only read. */
  method MergeTwoLists(list1: Node?, list2: Node?) returns (merged: Node?)
    requires list1 != null ==> list1.Valid()
    requires list2 != null ==> list2.Valid()
    ensures merged == null <==> list1 == null || list2 == null
    ensures merged != null ==>
              merged.Valid() && fresh(merged.Repr) &&
              merged.Contents == Interleave(list1.Contents, list2.Contents)
  {
    ghost var n1 := if list1 == null then [] else list1.Nodes;
    ghost var n2 := if list2 == null then [] else list2.Nodes;
    ghost var c1 := if list1 == null then [] else list1.Contents;
    ghost var c2 := if list2 == null then [] else list2.Contents;
    merged := MergeWalk(list1, list2, n1, c1, n2, c2);
  }

  /** `p` starts the chain `ns` holding the values `c`, and is null exactly
      when there are none. */
  ghost predicate Starts(p: Node?, ns: seq<Node>, c: seq<int>)
    reads ns
  {
    (p == null <==> ns == []) &&
    (p != null ==> Chain(ns) && ns[0] == p) &&
    |c| == |ns| && (forall k :: 0 <= k < |ns| ==> ns[k].val == c[k])
  }

  /** The loop of `mergeTwoList` over the chains `n1` and `n2` that
      `list1` and `list2` start. */
  method MergeWalk(list1: Node?, list2: Node?, ghost n1: seq<Node>, ghost c1: seq<int>,
                   ghost n2: seq<Node>, ghost c2: seq<int>) returns (merged: Node?)
    requires Starts(list1, n1, c1) && Starts(list2, n2, c2)
    ensures merged == null <==> n1 == [] || n2 == []
    ensures merged != null ==>
              merged.Valid() && fresh(merged.Repr) && merged.Contents == Interleave(c1, c2)
  {
    merged := null;
    var p1, p2 := list1, list2;
    ghost var i := 0;
    ghost var done: seq<int> := [];
    ghost var made: set<Node> := {};
    while p1 != null && p2 != null
      invariant i <= |n1| && i <= |n2|
      invariant p1 == if i < |n1| then n1[i] else null
      invariant p2 == if i < |n2| then n2[i] else null
      invariant done == Interleave(c1[..i], c2[..i])
      invariant merged == null <==> i == 0
      invariant fresh(made) && (merged == null ==> made == {})
      invariant merged != null ==> merged.Valid() && merged.Repr == made && merged.Contents == done
      decreases |n1| - i
    {
      // The inputs are not modified: read what they held on entry.
      assert old(p1.val) == c1[i] && old(p2.val) == c2[i];
      assert old(p1.next) == if i + 1 < |n1| then n1[i + 1] else null;
      assert old(p2.next) == if i + 1 < |n2| then n2[i + 1] else null;
      var x, y := p1.val, p2.val;
      var n1next, n2next := p1.next, p2.next;
      ghost var added;
      merged, added := PushPair(merged, x, y);
      made := made + added;
      InterleavePrefixStep(c1, c2, i);
      done := Interleave(c1[..i + 1], c2[..i + 1]);
      p1 := n1next;
      p2 := n2next;
      i := i + 1;
    }
    InterleaveTruncate(c1, c2);
  }

  /** The list the unit tests start from: `ListNode(1)`, then `append(2)`
      and `append(3)`. */
  method ListOfThree() returns (list: Node)
    ensures list.Valid() && fresh(list.Repr) && list.Contents == [1, 2, 3]
  {
    list := new Node(1);
    ghost var node := list.Append(2);
    node := list.Append(3);
  }

  /** The list of the size unit test, [1, 2, 3]: `size()` as written
      answers 1 where the test expects 2. */
  method SizeOfThreeAsWritten() returns (size: nat)
    ensures size == 1
  {
    var list := ListOfThree();
    size := list.Size();
  }

  /** The same list counted by links answers the 2 the test expects. */
  method SizeOfThreeCorrected() returns (size: nat)
    ensures size == 2
  {
    var list := ListOfThree();
    size := list.Count();
  }

  /** The insert unit test: 10 inserted at position 1 of [1, 2, 3] renders
      as "[1;10;2;3]"; `size()` as written answers 2 where the test
      expects 3. */
  method InsertScenario() returns (size: nat, text: string)
    ensures size == 2 && text == "[1;10;2;3]"
  {
    var list := ListOfThree();
    var status := list.Insert(10, 1);
    assert list.Contents == [1, 10, 2, 3];
    size := list.Size();
    text := list.ToString();
    RenderInsertExample();
  }

  /** The remove unit test: removing position 1 of [1, 2, 3] renders as
      "[1;3]"; `size()` as written answers 0 where the test expects 1. */
  method RemoveScenario() returns (size: nat, text: string)
    ensures size == 0 && text == "[1;3]"
  {
    var list := ListOfThree();
    var status := list.Remove(1);
    assert list.Contents == [1, 3];
    size := list.Size();
    text := list.ToString();
    RenderRemoveExample();
  }

  /** The merge unit test: [1, 3, 5] merged with [2, 4, 6] renders as
      "[1;2;3;4;5;6]"; `size()` as written answers 4 where the test
      expects 5. */
  method MergeScenario() returns (size: nat, text: string)
    ensures size == 4 && text == "[1;2;3;4;5;6]"
  {
    var list1 := VectorToList([1, 3, 5]);
    var list2 := VectorToList([2, 4, 6]);
    var merged := MergeTwoLists(list1, list2);
    assert [1, 3, 5][1..] == [3, 5] && [3, 5][1..] == [5] && [5][1..] == [];
    assert [2, 4, 6][1..] == [4, 6] && [4, 6][1..] == [6] && [6][1..] == [];
    assert merged.Contents == [1, 2, 3, 4, 5, 6];
    size := merged.Size();
    text := merged.ToString();
    RenderMergeExample();
  }
}
