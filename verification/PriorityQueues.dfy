/** The priority queue: a singly linked list of nodes, highest priority first. */
module PriorityQueues {
  import opened Basics
  import opened Priorities
  import opened PriorityRuns

  class Node<T> {
    var next: Node?<T>
    const data: T
    var priority: int

    constructor (data: T, priority: int)
      ensures this.data == data && this.priority == priority && next == null
    {
      this.data, this.priority, this.next := data, priority, null;
    }
  }

  /** Node number i of the list, or null past its end. */
  ghost function At<T>(ns: seq<Node<T>>, i: nat): Node?<T> {
    if i < |ns| then ns[i] else null
  }

  /** The list that hangs off root has the nodes ns and holds the entries. */
  ghost predicate Linked<T>(root: Node?<T>, ns: seq<Node<T>>, items: seq<Entry<T>>)
    reads ns
  {
    && |items| == |ns| && root == At(ns, 0) && NoDuplicates(ns)
    && forall i {:trigger ns[i].next} {:trigger ns[i].priority} :: 0 <= i < |ns| ==>
        ns[i].next == At(ns, i + 1) && items[i] == Entry(ns[i].data, ns[i].priority)
  }

  /** The same elements, in whatever order. */
  ghost predicate Rearranged<T>(t: seq<T>, s: seq<T>) {
    |t| == |s| && (forall i :: 0 <= i < |t| ==> t[i] in s) && (forall i :: 0 <= i < |s| ==> s[i] in t)
  }

  lemma MoveRearranges<T>(s: seq<T>, i: nat, k: nat)
    requires k < |s| && i < |s|
    ensures Rearranged(InsertAt(RemoveAt(s, i), k, s[i]), s)
  {
    var r := RemoveAt(s, i);
    var t := InsertAt(r, k, s[i]);
    forall j | 0 <= j < |s| ensures s[j] in t {
      if j != i {
        var l := if j < i then j else j - 1;
        assert r[l] == s[j];
        assert t[if l < k then l else l + 1] == s[j];
      } else {
        assert t[k] == s[j];
      }
    }
  }

  lemma SwapRearranges<T>(s: seq<T>)
    requires |s| >= 2
    ensures Rearranged(SwapNext(s, 0), s)
  {
    var t := SwapNext(s, 0);
    forall j | 0 <= j < |s| ensures s[j] in t {
      assert t[if j == 0 then 1 else if j == 1 then 0 else j] == s[j];
    }
  }

  lemma RemoveKeepsDistinct<T>(ns: seq<T>, k: nat)
    requires k < |ns| && NoDuplicates(ns)
    ensures NoDuplicates(RemoveAt(ns, k)) && ns[k] !in RemoveAt(ns, k)
  {
  }

  class PriorityQueue<T(==)> {
    var root: Node?<T>
    var elementCount: int
    ghost var nodes: seq<Node<T>>
    ghost var items: seq<Entry<T>>

    ghost predicate Valid()
      reads this, nodes
    {
      Linked(root, nodes, items) && elementCount == |nodes| && Sorted(items)
    }

    constructor ()
      ensures Valid() && nodes == [] && items == []
    {
      root, elementCount, nodes, items := null, 0, [], [];
    }

    /** The last of the leading nodes with at least the given priority, and their number. */
    method GetLastWithPriority(priority: int) returns (last: Node?<T>, idx: nat)
      requires Linked(root, nodes, items)
      ensures idx == Leading(items, priority)
      ensures last == if idx == 0 then null else nodes[idx - 1]
    {
      var current := root;
      last, idx := null, 0;
      while current != null && priority <= current.priority
        invariant idx <= |nodes| && current == At(nodes, idx)
        invariant last == if idx == 0 then null else nodes[idx - 1]
        invariant forall i :: 0 <= i < idx ==> items[i].priority >= priority
        decreases |nodes| - idx
      {
        last := current;
        current := current.next;
        idx := idx + 1;
      }
      LeadingUnique(items, priority, idx);
    }

    /** Links a node in at position idx, behind the given node or at the front. */
    method LinkAfter(current: Node?<T>, nu: Node<T>, ghost idx: nat)
      requires Linked(root, nodes, items) && nu !in nodes
      requires idx <= |nodes| && current == if idx == 0 then null else nodes[idx - 1]
      modifies this`root, this`nodes, this`items, nodes`next, nu`next
      ensures nodes == InsertAt(old(nodes), idx, nu) && items == InsertAt(old(items), idx, Entry(nu.data, nu.priority))
      ensures Linked(root, nodes, items)
    {
      if current == null {
        nu.next := root;
        root := nu;
      } else {
        nu.next := current.next;
        current.next := nu;
      }
      nodes, items := InsertAt(nodes, idx, nu), InsertAt(items, idx, Entry(nu.data, nu.priority));
    }

    /** Links a node in before the first node of lower priority; the list need not be sorted. */
    method InsertNode(nu: Node<T>) returns (idx: nat)
      requires Linked(root, nodes, items) && nu !in nodes
      modifies this`root, this`nodes, this`items, nodes`next, nu`next
      ensures idx == Leading(old(items), nu.priority)
      ensures nodes == InsertAt(old(nodes), idx, nu)
      ensures Linked(root, nodes, items)
      ensures items == Priorities.Insert(old(items), Entry(nu.data, nu.priority))
    {
      var current;
      current, idx := GetLastWithPriority(nu.priority);
      LinkAfter(current, nu, idx);
    }

    method Insert(d: T, priority: int) returns (idx: nat)
      requires Valid()
      modifies this, nodes`next
      ensures Valid() && items == Priorities.Insert(old(items), Entry(d, priority))
      ensures idx == Leading(old(items), priority)
      ensures forall n :: n in nodes ==> n in old(nodes) || fresh(n)
    {
      var nu := new Node(d, priority);
      idx := InsertNode(nu);
      elementCount := elementCount + 1;
      InsertIsStable(old(items), Entry(d, priority));
    }

    /** Links the node at position idx out, its predecessor being given. */
    method UnlinkNode(prior: Node?<T>, current: Node<T>, ghost idx: nat)
      requires Linked(root, nodes, items) && idx < |nodes| && current == nodes[idx]
      requires prior == if idx == 0 then null else nodes[idx - 1]
      modifies this`root, this`nodes, this`items, nodes`next
      ensures nodes == RemoveAt(old(nodes), idx) && items == RemoveAt(old(items), idx)
      ensures Linked(root, nodes, items)
    {
      if prior == null {
        root := current.next;
      } else {
        prior.next := current.next;
      }
      nodes, items := RemoveAt(nodes, idx), RemoveAt(items, idx);
    }

    method Unlink(prior: Node?<T>, current: Node<T>, ghost idx: nat)
      requires Linked(root, nodes, items) && idx < |nodes| && current == nodes[idx]
      requires prior == if idx == 0 then null else nodes[idx - 1]
      modifies this`root, this`nodes, this`items, nodes`next
      ensures nodes == RemoveAt(old(nodes), idx) && current !in nodes
      ensures Linked(root, nodes, items)
      ensures items == RemoveAt(old(items), idx)
    {
      RemoveKeepsDistinct(nodes, idx);
      UnlinkNode(prior, current, idx);
    }

    /** Exchanges the first two nodes. */
    method SwapFrontNodes()
      requires Linked(root, nodes, items) && |nodes| >= 2
      modifies this`root, this`nodes, this`items, nodes`next
      ensures nodes == SwapNext(old(nodes), 0) && items == SwapNext(old(items), 0)
      ensures Linked(root, nodes, items)
    {
      var current := root;
      root := current.next;
      current.next := root.next;
      root.next := current;
      nodes, items := SwapNext(nodes, 0), SwapNext(items, 0);
    }

    method SwapFront()
      requires Linked(root, nodes, items) && |nodes| >= 2
      modifies this`root, this`nodes, this`items, nodes`next
      ensures Linked(root, nodes, items)
      ensures items == SwapNext(old(items), 0)
      ensures Rearranged(nodes, old(nodes))
    {
      SwapFrontNodes();
      SwapRearranges(old(nodes));
    }

    /** The sort that follows a change of priority.  It restarts at the root after every move;
        each move removes inversions, so it ends, and it leaves a stable descending sort of the
        same nodes. */
    method EnforcePriorities()
      requires Linked(root, nodes, items)
      modifies this`root, this`nodes, this`items, nodes`next
      ensures Linked(root, nodes, items) && StableSortOf(items, old(items))
      ensures Rearranged(nodes, old(nodes))
    {
      var current, prior: Node?<T> := root, null;
      ghost var i: nat := 0;
      while current != null
        invariant Linked(root, nodes, items)
        invariant i <= |nodes| && current == At(nodes, i)
        invariant prior == if i == 0 then null else nodes[i - 1]
        invariant Sorted(items[..i])
        invariant forall p :: Class(items, p) == Class(old(items), p)
        invariant Rearranged(nodes, old(nodes))
        decreases Inversions(items), |nodes| - i
      {
        current, i := RestoreOrder(prior, current, i);
        prior := current;
        current := current.next;
        i := i + 1;
      }
      assert items[..i] == items;
    }

    /** One test of the sort: current is left alone, or it is moved and the test restarts. */
    method RestoreOrder(prior: Node?<T>, current: Node<T>, ghost i: nat) returns (at: Node<T>, ghost j: nat)
      requires Linked(root, nodes, items) && i < |nodes| && current == nodes[i]
      requires prior == if i == 0 then null else nodes[i - 1]
      requires Sorted(items[..i])
      modifies this`root, this`nodes, this`items, nodes`next
      ensures Linked(root, nodes, items) && j < |nodes| && at == nodes[j]
      ensures Sorted(items[..j + 1])
      ensures forall p :: Class(items, p) == Class(old(items), p)
      ensures Rearranged(nodes, old(nodes))
      ensures Inversions(items) < Inversions(old(items)) || (items == old(items) && j == i)
    {
      at, j := current, i;
      ghost var before := items;
      if prior == null {
        if current.next != null {
          if current.next.priority > current.priority {
            SwapRemovesInversion(before, 0);
            SwapFront();
            at := root;
          }
        }
      } else if prior.priority < current.priority {
        PromoteEffect(before, i);
        Promote(prior, current, i);
        at, j := root, 0;
      }
      if j != 0 {
        SortedExtend(items, j);
      }
    }

    /** Takes the node out and inserts it again. */
    method Promote(prior: Node<T>, current: Node<T>, ghost i: nat)
      requires Linked(root, nodes, items) && 0 < i < |nodes| && prior == nodes[i - 1] && current == nodes[i]
      modifies this`root, this`nodes, this`items, nodes`next
      ensures Linked(root, nodes, items)
      ensures var k := Leading(RemoveAt(old(items), i), current.priority);
              k <= i ==> items == MoveUp(old(items), i, k)
      ensures Rearranged(nodes, old(nodes))
    {
      Unlink(prior, current, i);
      var k := InsertNode(current);
      MoveRearranges(old(nodes), i, k);
    }

    /** Inserts unless the data is already there.  Its return value is the position of the node it
        was linked behind, which is the position of the new node only at the front. */
    method InsertIfAbsent(d: T, priority: int) returns (r: int)
      requires Valid()
      modifies this, nodes`next
      ensures Valid() && forall n :: n in nodes ==> n in old(nodes) || fresh(n)
      ensures d in Data(old(items)) <==> r == -1
      ensures items == if r == -1 then old(items) else Priorities.Insert(old(items), Entry(d, priority))
      ensures var k := Leading(old(items), priority); r == -1 || r == if k == 0 then 0 else k - 1
    {
      if root == null {
        r := Insert(d, priority);
        return;
      }
      SortedLeading(items, priority);
      var found, insertPointer;
      found, insertPointer, r := Scan(d, priority);
      if found {
        return -1;
      }
      LinkNew(d, priority, insertPointer, Leading(items, priority));
      if insertPointer == null {
        r := 0;
      }
    }

    /** The scan of InsertIfAbsent: it looks for the data and remembers the last node with enough
        priority, counting from -1. */
    method Scan(d: T, priority: int) returns (found: bool, insertPointer: Node?<T>, r: int)
      requires Linked(root, nodes, items)
      requires forall i :: 0 <= i < |nodes| ==> (items[i].priority >= priority <==> i < Leading(items, priority))
      ensures found <==> d in Data(items)
      ensures !found ==> r == Leading(items, priority) - 1
      ensures !found ==> insertPointer == if r < 0 then null else nodes[r]
    {
      ghost var k := Leading(items, priority);
      ghost var i: nat := 0;
      var current := root;
      found, insertPointer, r := false, null, -1;
      while current != null
        invariant i <= |nodes| && current == At(nodes, i)
        invariant r + 1 == if i < k then i else k
        invariant insertPointer == if r < 0 then null else nodes[r]
        invariant forall j :: 0 <= j < i ==> items[j].data != d
        decreases |nodes| - i
      {
        assert items[i] == Entry(current.data, current.priority);
        if current.data == d {
          assert Data(items)[i] == d;
          found := true;
          return;
        }
        if current.priority >= priority {
          insertPointer := current;
          r := r + 1;
        }
        current := current.next;
        i := i + 1;
      }
    }

    /** The new node of InsertIfAbsent, linked in behind the insert pointer. */
    method LinkNew(d: T, priority: int, insertPointer: Node?<T>, ghost k: nat)
      requires Valid() && k == Leading(items, priority)
      requires insertPointer == if k == 0 then null else nodes[k - 1]
      modifies this, nodes`next
      ensures Valid() && items == Priorities.Insert(old(items), Entry(d, priority))
      ensures forall n :: n in nodes ==> n in old(nodes) || fresh(n)
    {
      var nu := new Node(d, priority);
      LinkAfter(insertPointer, nu, k);
      elementCount := elementCount + 1;
      InsertIsStable(old(items), Entry(d, priority));
    }

    /** Removes and returns the head. */
    method Dequeue() returns (r: Option<T>)
      requires Valid()
      modifies this`root, this`nodes, this`items, this`elementCount, nodes`next
      ensures Valid() && (forall n :: n in nodes ==> n in old(nodes))
      ensures if old(items) == [] then r == None && items == []
              else r == Some(old(items)[0].data) && items == old(items)[1..]
    {
      r := None;
      var current := root;
      if current != null {
        r := Some(current.data);
        assert items[0] == Entry(current.data, current.priority);
        Unlink(null, current, 0);
        elementCount := elementCount - 1;
        assert RemoveAt(old(items), 0) == old(items)[1..];
      }
    }

    /** Takes out the node at the given position. */
    method RemovePosition(pos: int) returns (r: bool)
      requires Valid()
      modifies this`root, this`nodes, this`items, this`elementCount, nodes`next
      ensures Valid() && (forall n :: n in nodes ==> n in old(nodes))
      ensures r <==> 0 <= pos < |old(items)|
      ensures items == if r then RemoveAt(old(items), pos) else old(items)
    {
      var i: nat := 0;
      var prior: Node?<T>, current := null, root;
      while current != null
        invariant i <= |nodes| && current == At(nodes, i) && !(0 <= pos < i)
        invariant prior == if i == 0 then null else nodes[i - 1]
        decreases |nodes| - i
      {
        if i == pos {
          Unlink(prior, current, i);
          elementCount := elementCount - 1;
          RemoveKeepsSorted(old(items), pos);
          return true;
        }
        i := i + 1;
        prior := current;
        current := current.next;
      }
      r := false;
    }

    method GetLast() returns (last: Node?<T>)
      requires Linked(root, nodes, items)
      ensures last == if nodes == [] then null else nodes[|nodes| - 1]
    {
      ghost var i: nat := 0;
      last := root;
      while last != null && last.next != null
        invariant nodes != [] ==> i < |nodes| && last == nodes[i]
        invariant nodes == [] ==> last == null
        decreases |nodes| - i
      {
        last := last.next;
        i := i + 1;
      }
    }

    /** Sends the head to the rear, demoted to the rear's priority. */
    method Recycle() returns (r: Option<T>)
      requires Valid()
      modifies this`root, this`nodes, this`items, nodes
      ensures Valid() && items == Recycled(old(items))
      ensures var s := old(items);
        items == if |s| <= 1 then s else s[1..] + [Entry(s[0].data, s[|s| - 1].priority)]
      ensures r == if old(items) == [] then None else Some(old(items)[0].data)
      ensures forall i :: 0 <= i < |nodes| ==> nodes[i] in old(nodes)
    {
      r := None;
      if root != null {
        r := Some(root.data);
        assert items[0] == Entry(root.data, root.priority);
        if elementCount > 1 {
          RecycleKeepsSorted(items);
          HeadToRear(Recycled(items));
        }
      }
    }

    method HeadToRear(ghost t: seq<Entry<T>>)
      requires Linked(root, nodes, items) && |nodes| > 1 && t == Recycled(items)
      modifies this`root, this`nodes, this`items, nodes
      ensures Linked(root, nodes, items) && items == t && |nodes| == |old(nodes)|
      ensures forall i :: 0 <= i < |nodes| ==> nodes[i] in old(nodes)
    {
      var current := root;
      assert items[0] == Entry(current.data, current.priority);
      Unlink(null, current, 0);
      current.next := null;
      var temp := GetLast();
      assert temp == old(nodes)[|nodes|];
      Append(current, temp);
    }

    method Append(current: Node<T>, temp: Node<T>)
      requires Linked(root, nodes, items) && nodes != [] && current !in nodes && temp == nodes[|nodes| - 1]
      modifies this`root, this`nodes, this`items, nodes`next, current
      ensures Linked(root, nodes, items) && nodes == InsertAt(old(nodes), |old(nodes)|, current)
      ensures items == old(items) + [Entry(current.data, old(temp.priority))]
    {
      current.priority := temp.priority;
      LinkAfter(temp, current, |nodes|);
    }

    /** The first node that holds the data. */
    method GetNodeByElement(x: T) returns (r: Node?<T>)
      requires Linked(root, nodes, items)
      ensures r == At(nodes, Find(items, x))
    {
      ghost var i: nat := 0;
      r := root;
      while r != null
        invariant i <= |nodes| && r == At(nodes, i)
        invariant forall j :: 0 <= j < i ==> items[j].data != x
        decreases |nodes| - i
      {
        if r.data == x {
          assert items[i] == Entry(r.data, r.priority);
          FindUnique(items, x, i);
          return;
        }
        r := r.next;
        i := i + 1;
      }
      FindUnique(items, x, i);
    }

    method IncrementPriority(x: T) returns (r: bool)
      requires Valid()
      modifies this`root, this`nodes, this`items, nodes
      ensures Valid() && Rearranged(nodes, old(nodes)) && (r <==> Find(old(items), x) < |old(items)|)
      ensures forall i :: 0 <= i < |old(nodes)| ==>
        old(nodes)[i].priority == old(nodes[i].priority) + if i == Find(old(items), x) then 1 else 0
      ensures StableSortOf(items, Changed(old(items), x, 1)) && items == Next(old(items), Changing(x, 1))
    {
      ghost var s := items;
      r := AddToPriority(x, 1);
      ChangeIsNext(s, items, x, 1);
    }

    method DecrementPriority(x: T) returns (r: bool)
      requires Valid()
      modifies this`root, this`nodes, this`items, nodes
      ensures Valid() && Rearranged(nodes, old(nodes)) && (r <==> Find(old(items), x) < |old(items)|)
      ensures forall i :: 0 <= i < |old(nodes)| ==>
        old(nodes)[i].priority == old(nodes[i].priority) + if i == Find(old(items), x) then -1 else 0
      ensures StableSortOf(items, Changed(old(items), x, -1)) && items == Next(old(items), Changing(x, -1))
    {
      ghost var s := items;
      r := AddToPriority(x, -1);
      ChangeIsNext(s, items, x, -1);
    }

    method AddToPriority(x: T, delta: int) returns (r: bool)
      requires Valid()
      modifies this`root, this`nodes, this`items, nodes
      ensures Valid() && Rearranged(nodes, old(nodes)) && (r <==> Find(old(items), x) < |old(items)|)
      ensures forall i :: 0 <= i < |old(nodes)| ==>
        old(nodes)[i].priority == old(nodes[i].priority) + if i == Find(old(items), x) then delta else 0
      ensures StableSortOf(items, Changed(old(items), x, delta))
    {
      var current := GetNodeByElement(x);
      r := current != null;
      ghost var k, changed := Find(items, x), Changed(items, x, delta);
      if r {
        assert items[k] == Entry(current.data, current.priority);
        assert changed == WithPriority(items, k, current.priority + delta);
        Reprioritise(current, current.priority + delta, k);
        assert StableSortOf(items, changed);
      }
    }

    method Reprioritise(current: Node<T>, priority: int, ghost k: nat)
      requires Linked(root, nodes, items) && k < |nodes| && current == nodes[k]
      modifies this`root, this`nodes, this`items, nodes`next, current`priority
      ensures Linked(root, nodes, items) && Rearranged(nodes, old(nodes)) && current.priority == priority
      ensures StableSortOf(items, WithPriority(old(items), k, priority))
    {
      SetPriority(current, priority, k);
      EnforcePriorities();
    }

    method SetPriority(current: Node<T>, priority: int, ghost k: nat)
      requires Linked(root, nodes, items) && k < |nodes| && current == nodes[k]
      modifies this`items, current`priority
      ensures Linked(root, nodes, items) && items == WithPriority(old(items), k, priority)
      ensures current.priority == priority
    {
      current.priority := priority;
      items := WithPriority(items, k, priority);
    }
  }
}
