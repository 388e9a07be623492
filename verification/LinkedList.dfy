/** The singly linked lists of src/sp_list.c, and their insertion sort. */
module LinkedList {

  // ---- insertion sort on sequences ----

  // Before the first element that x is less than.
  function Insert<T>(cmp: (T, T) -> int, x: T, s: seq<T>): seq<T> {
    if s == [] then [x]
    else if cmp(x, s[0]) < 0 then [x] + s
    else [s[0]] + Insert(cmp, x, s[1..])
  }

  // The elements of rest, inserted one after the other.
  function InsertAll<T>(cmp: (T, T) -> int, s: seq<T>, rest: seq<T>): seq<T>
    decreases |rest|
  {
    if rest == [] then s else InsertAll(cmp, Insert(cmp, rest[0], s), rest[1..])
  }

  function Sort<T>(cmp: (T, T) -> int, s: seq<T>): seq<T> {
    InsertAll(cmp, [], s)
  }

  lemma {:induction false} InsertPermutes<T>(cmp: (T, T) -> int, x: T, s: seq<T>)
    ensures multiset(Insert(cmp, x, s)) == multiset(s) + multiset{x}
  {
    if s == [] {
    } else {
      InsertPermutes(cmp, x, s[1..]);
      assert s == [s[0]] + s[1..];
    }
  }

  lemma {:induction false} InsertAllPermutes<T>(cmp: (T, T) -> int, s: seq<T>, rest: seq<T>)
    ensures multiset(InsertAll(cmp, s, rest)) == multiset(s) + multiset(rest)
    decreases |rest|
  {
    if rest == [] {
    } else {
      InsertPermutes(cmp, rest[0], s);
      InsertAllPermutes(cmp, Insert(cmp, rest[0], s), rest[1..]);
      assert rest == [rest[0]] + rest[1..];
    }
  }

  // cmp(a, b) >= 0 is a total preorder.
  ghost predicate IsPreorder<T(!new)>(cmp: (T, T) -> int) {
    && (forall a, b :: cmp(a, b) >= 0 || cmp(b, a) >= 0)
    && (forall a, b, c :: cmp(a, b) >= 0 && cmp(b, c) >= 0 ==> cmp(a, c) >= 0)
  }

  predicate IsSorted<T>(cmp: (T, T) -> int, s: seq<T>) {
    forall i, j :: 0 <= i < j < |s| ==> cmp(s[j], s[i]) >= 0
  }

  lemma {:induction false} InsertSorted<T(!new)>(cmp: (T, T) -> int, x: T, s: seq<T>)
    requires IsPreorder(cmp) && IsSorted(cmp, s)
    ensures IsSorted(cmp, Insert(cmp, x, s))
  {
    if s == [] {
    } else if cmp(x, s[0]) < 0 {
      assert forall i :: 0 < i < |s| ==> cmp(s[i], s[0]) >= 0 && cmp(s[0], x) >= 0;
    } else {
      InsertSorted(cmp, x, s[1..]);
      InsertPermutes(cmp, x, s[1..]);
      var r := Insert(cmp, x, s[1..]);
      forall i | 0 <= i < |r| ensures cmp(r[i], s[0]) >= 0 {
        assert r[i] in multiset(s[1..]) + multiset{x};
        assert r[i] == x || r[i] in s[1..];
      }
    }
  }

  lemma {:induction false} InsertAllSorted<T(!new)>(cmp: (T, T) -> int, s: seq<T>, rest: seq<T>)
    requires IsPreorder(cmp) && IsSorted(cmp, s)
    ensures IsSorted(cmp, InsertAll(cmp, s, rest))
    decreases |rest|
  {
    if rest == [] {
    } else {
      InsertSorted(cmp, rest[0], s);
      InsertAllSorted(cmp, Insert(cmp, rest[0], s), rest[1..]);
    }
  }

  // The elements that compare equal to x, in order.
  function Equals<T>(cmp: (T, T) -> int, x: T, s: seq<T>): seq<T> {
    if s == [] then []
    else (if cmp(x, s[0]) >= 0 && cmp(s[0], x) >= 0 then [s[0]] else []) + Equals(cmp, x, s[1..])
  }

  lemma {:induction false} InsertEquals<T(!new)>(cmp: (T, T) -> int, y: T, x: T, s: seq<T>)
    requires IsPreorder(cmp) && IsSorted(cmp, s)
    ensures Equals(cmp, y, Insert(cmp, x, s)) == Equals(cmp, y, s) + Equals(cmp, y, [x])
  {
    SingleEquals(cmp, y, x);
    if s == [] {
    } else if cmp(x, s[0]) < 0 {
      assert ([x] + s)[1..] == s;
      if cmp(x, y) >= 0 && cmp(y, x) >= 0 {
        NoEquals(cmp, y, s);
      }
    } else {
      InsertEquals(cmp, y, x, s[1..]);
      var r := Insert(cmp, x, s[1..]);
      assert ([s[0]] + r)[1..] == r;
    }
  }

  lemma {:induction false} NoEquals<T(!new)>(cmp: (T, T) -> int, y: T, s: seq<T>)
    requires IsPreorder(cmp) && forall i :: 0 <= i < |s| ==> cmp(y, s[i]) < 0
    ensures Equals(cmp, y, s) == []
  {
    if s == [] {
    } else {
      NoEquals(cmp, y, s[1..]);
    }
  }

  lemma {:induction false} InsertAllEquals<T(!new)>(cmp: (T, T) -> int, y: T, s: seq<T>, rest: seq<T>)
    requires IsPreorder(cmp) && IsSorted(cmp, s)
    ensures Equals(cmp, y, InsertAll(cmp, s, rest)) == Equals(cmp, y, s) + Equals(cmp, y, rest)
    decreases |rest|
  {
    if rest == [] {
    } else {
      InsertSorted(cmp, rest[0], s);
      InsertEquals(cmp, y, rest[0], s);
      InsertAllEquals(cmp, y, Insert(cmp, rest[0], s), rest[1..]);
      EqualsFirst(cmp, y, Equals(cmp, y, s), rest);
    }
  }

  lemma EqualsFirst<T>(cmp: (T, T) -> int, y: T, before: seq<T>, s: seq<T>)
    requires s != []
    ensures before + Equals(cmp, y, s) == before + Equals(cmp, y, [s[0]]) + Equals(cmp, y, s[1..])
  {
    SingleEquals(cmp, y, s[0]);
    Associates(before, Equals(cmp, y, [s[0]]), Equals(cmp, y, s[1..]));
  }

  lemma SingleEquals<T>(cmp: (T, T) -> int, y: T, x: T)
    ensures Equals(cmp, y, [x]) == if cmp(y, x) >= 0 && cmp(x, y) >= 0 then [x] else []
  {
    assert [x][1..] == [];
  }

  lemma Associates<T>(a: seq<T>, b: seq<T>, c: seq<T>)
    ensures a + (b + c) == a + b + c
  {
  }

  /** For any comparison that is a total preorder, the sort is a sorted permutation that keeps
      elements that compare equal in their order. */
  lemma SortIsStable<T(!new)>(cmp: (T, T) -> int, s: seq<T>, y: T)
    requires IsPreorder(cmp)
    ensures IsSorted(cmp, Sort(cmp, s)) && multiset(Sort(cmp, s)) == multiset(s)
    ensures Equals(cmp, y, Sort(cmp, s)) == Equals(cmp, y, s)
  {
    InsertAllSorted(cmp, [], s);
    InsertAllPermutes(cmp, [], s);
    InsertAllEquals(cmp, y, [], s);
  }

  lemma {:induction false} InsertSteps<T>(cmp: (T, T) -> int, x: T, s: seq<T>, k: nat)
    requires k <= |s| && (forall i :: 0 <= i < k ==> cmp(x, s[i]) >= 0) && (k < |s| ==> cmp(x, s[k]) < 0)
    ensures Insert(cmp, x, s) == s[..k] + [x] + s[k..]
  {
    if k > 0 {
      InsertSteps(cmp, x, s[1..], k - 1);
      BehindFirst(s, k, x);
    }
  }

  lemma BehindFirst<T>(s: seq<T>, k: nat, x: T)
    requires 0 < k <= |s|
    ensures [s[0]] + (s[1..][..k - 1] + [x] + s[1..][k - 1..]) == s[..k] + [x] + s[k..]
  {
    var l, r := [s[0]] + (s[1..][..k - 1] + [x] + s[1..][k - 1..]), s[..k] + [x] + s[k..];
    assert |l| == |r|;
    forall i | 0 <= i < |l| ensures l[i] == r[i] {
    }
  }

  // ---- nodes ----

  class Node<T> {
    var next: Node?<T>
    const data: T

    constructor (data: T, next: Node?<T>)
      ensures this.data == data && this.next == next
    {
      this.data := data;
      this.next := next;
    }
  }

  // head is the first of these nodes, each linked to the following one: a list without cycles.
  ghost predicate IsList<T>(head: Node?<T>, nodes: seq<Node<T>>)
    reads nodes
  {
    && head == At(nodes, 0)
    && (forall i {:trigger nodes[i].next} :: 0 <= i < |nodes| ==> nodes[i].next == At(nodes, i + 1))
    && Distinct(nodes)
  }

  ghost predicate Distinct<T>(s: seq<T>) {
    forall i, j :: 0 <= i < j < |s| ==> s[i] != s[j]
  }

  ghost function At<T>(nodes: seq<Node<T>>, i: nat): Node?<T> {
    if i < |nodes| then nodes[i] else null
  }

  ghost function Data<T>(nodes: seq<Node<T>>): (r: seq<T>)
    ensures |r| == |nodes| && forall i :: 0 <= i < |nodes| ==> r[i] == nodes[i].data
  {
    seq(|nodes|, i requires 0 <= i < |nodes| => nodes[i].data)
  }

  lemma DataOfSum<T>(a: seq<Node<T>>, b: seq<Node<T>>)
    ensures Data(a + b) == Data(a) + Data(b)
    ensures |b| == 1 ==> Data(b) == [b[0].data]
  {
  }

  ghost function ByData<T>(cmp: (T, T) -> int): (Node<T>, Node<T>) -> int {
    (a: Node<T>, b: Node<T>) => cmp(a.data, b.data)
  }

  lemma {:induction false} InsertMembers<T>(cmp: (T, T) -> int, x: T, s: seq<T>)
    ensures forall y :: y in Insert(cmp, x, s) ==> y == x || y in s
  {
    if s != [] && cmp(x, s[0]) >= 0 {
      InsertMembers(cmp, x, s[1..]);
    }
  }

  // A list with one node linked in at position k.
  lemma LinkedIn<T>(first: Node<T>, current: Node<T>, nodes: seq<Node<T>>, k: nat)
    requires k <= |nodes| && current !in nodes && Distinct(nodes)
    requires forall i :: 0 <= i < |nodes| ==> nodes[i].next == if i + 1 == k then current else At(nodes, i + 1)
    requires current.next == At(nodes, k) && first == if k == 0 then current else nodes[0]
    ensures IsList(first, nodes[..k] + [current] + nodes[k..])
  {
    var r := nodes[..k] + [current] + nodes[k..];
    InsertDistinct(nodes, k, current);
    forall i | 0 <= i < |r| ensures r[i].next == At(r, i + 1) {
      if i < k {
        assert r[i] == nodes[i];
      } else if i > k {
        assert r[i] == nodes[i - 1] && At(r, i + 1) == At(nodes, i);
      }
    }
  }

  lemma InsertDistinct<T>(s: seq<T>, k: nat, x: T)
    requires k <= |s| && Distinct(s) && x !in s
    ensures Distinct(s[..k] + [x] + s[k..])
  {
    var r := s[..k] + [x] + s[k..];
    forall i, j | 0 <= i < j < |r| ensures r[i] != r[j] {
      assert (i < k ==> r[i] == s[i]) && (i > k ==> r[i] == s[i - 1]);
      assert (j < k ==> r[j] == s[j]) && (j > k ==> r[j] == s[j - 1]);
    }
  }

  // Links current into the sorted list, behind the elements it is not less than.
  method Link<T>(cmp: (T, T) -> int, current: Node<T>, head: Node?<T>, ghost nodes: seq<Node<T>>)
    returns (first: Node<T>)
    requires IsList(head, nodes) && current !in nodes
    modifies current, nodes
    ensures IsList(first, Insert(ByData(cmp), current, nodes))
  {
    if head == null || cmp(current.data, head.data) < 0 {
      InsertSteps(ByData(cmp), current, nodes, 0);
      current.next := head;
      LinkedIn(current, current, nodes, 0);
      return current;
    }
    first := head;
    var p := head;
    ghost var k := 1;
    while p.next != null && cmp(current.data, p.next.data) >= 0
      invariant 0 < k <= |nodes| && p == nodes[k - 1]
      invariant forall i :: 0 <= i < k ==> cmp(current.data, nodes[i].data) >= 0
      decreases |nodes| - k
    {
      p := p.next;
      k := k + 1;
    }
    InsertSteps(ByData(cmp), current, nodes, k);
    current.next := p.next;
    p.next := current;
    LinkedIn(first, current, nodes, k);
  }

  lemma ShortIsSorted<T>(cmp: (T, T) -> int, s: seq<T>)
    requires |s| <= 1
    ensures Sort(cmp, s) == s
  {
    if s != [] {
      assert Sort(cmp, s) == InsertAll(cmp, [s[0]], s[1..]);
    }
  }

  // The nodes sorted so far and those that remain are different nodes of the list.
  ghost predicate Parted<T>(sorted: seq<T>, remaining: seq<T>, nodes: seq<T>) {
    && (forall i :: 0 <= i < |sorted| ==> sorted[i] in nodes && sorted[i] !in remaining)
    && (forall i :: 0 <= i < |remaining| ==> remaining[i] in nodes)
  }

  lemma TakeNext<T>(cmp: (T, T) -> int, sorted: seq<T>, remaining: seq<T>, nodes: seq<T>)
    requires Parted(sorted, remaining, nodes) && remaining != [] && Distinct(remaining)
    ensures Parted(Insert(cmp, remaining[0], sorted), remaining[1..], nodes) && Distinct(remaining[1..])
    ensures remaining[0] !in sorted && remaining[0] !in remaining[1..]
    ensures forall y :: y in remaining[1..] ==> y !in sorted
    ensures InsertAll(cmp, sorted, remaining) == InsertAll(cmp, Insert(cmp, remaining[0], sorted), remaining[1..])
  {
    InsertMembers(cmp, remaining[0], sorted);
    var r := Insert(cmp, remaining[0], sorted);
    forall i | 0 <= i < |r| ensures r[i] in nodes && r[i] !in remaining[1..] {
      assert r[i] == remaining[0] || r[i] in sorted;
    }
  }

  lemma Tail<T>(list: Node<T>, nodes: seq<Node<T>>)
    requires IsList(list, nodes)
    ensures nodes != [] && list == nodes[0] && IsList(list.next, nodes[1..])
  {
    assert nodes != [];
    forall i | 0 <= i < |nodes[1..]| ensures nodes[1..][i].next == At(nodes[1..], i + 1) {
      assert nodes[1..][i] == nodes[i + 1];
    }
  }

  /** Sorting relinks the nodes of the list and allocates none. */
  method SortList<T>(list: Node?<T>, cmp: (T, T) -> int, ghost nodes: seq<Node<T>>) returns (head: Node?<T>)
    requires IsList(list, nodes)
    modifies nodes
    ensures IsList(head, Sort(ByData(cmp), nodes))
  {
    if list == null || list.next == null {
      ShortIsSorted(ByData(cmp), nodes);
      return list;
    }
    head := null;
    var rest := list;
    ghost var sorted: seq<Node<T>>, remaining: seq<Node<T>> := [], nodes;
    while rest != null
      invariant IsList(head, sorted) && IsList(rest, remaining) && Parted(sorted, remaining, nodes)
      invariant InsertAll(ByData(cmp), sorted, remaining) == Sort(ByData(cmp), nodes)
      decreases |remaining|
    {
      TakeNext<Node<T>>(ByData(cmp), sorted, remaining, nodes);
      Tail(rest, remaining);
      var current := rest;
      rest := rest.next;
      head := Link(cmp, current, head, sorted);
      sorted := Insert<Node<T>>(ByData(cmp), current, sorted);
      remaining := remaining[1..];
    }
  }

  lemma {:induction false} DataInsert<T>(cmp: (T, T) -> int, x: Node<T>, nodes: seq<Node<T>>)
    ensures Data(Insert(ByData(cmp), x, nodes)) == Insert(cmp, x.data, Data(nodes))
  {
    if nodes == [] {
    } else {
      assert Data(nodes)[1..] == Data(nodes[1..]);
      DataInsert(cmp, x, nodes[1..]);
    }
  }

  lemma {:induction false} DataInsertAll<T>(cmp: (T, T) -> int, nodes: seq<Node<T>>, rest: seq<Node<T>>)
    ensures Data(InsertAll(ByData(cmp), nodes, rest)) == InsertAll(cmp, Data(nodes), Data(rest))
    decreases |rest|
  {
    if rest == [] {
    } else {
      DataInsert(cmp, rest[0], nodes);
      assert Data(rest)[1..] == Data(rest[1..]);
      DataInsertAll(cmp, Insert(ByData(cmp), rest[0], nodes), rest[1..]);
    }
  }

  /** Sorting the nodes sorts the data. */
  lemma DataSort<T>(cmp: (T, T) -> int, nodes: seq<Node<T>>)
    ensures Data(Sort(ByData(cmp), nodes)) == Sort(cmp, Data(nodes))
  {
    DataInsertAll(cmp, [], nodes);
    assert Data<T>([]) == [];
  }

  /** Adds an element at the end. */
  method Append<T>(list: Node?<T>, data: T, ghost nodes: seq<Node<T>>)
    returns (origin: Node<T>, ghost added: Node<T>)
    requires IsList(list, nodes)
    modifies nodes
    ensures IsList(origin, nodes + [added]) && added.data == data && fresh(added)
  {
    var node := new Node<T>(data, null);
    added := node;
    if list == null {
      return node, node;
    }
    origin := list;
    var p := list;
    ghost var k := 0;
    while p.next != null
      invariant 0 <= k < |nodes| && p == nodes[k]
      decreases |nodes| - k
    {
      p := p.next;
      k := k + 1;
    }
    p.next := node;
  }

  /** Adds an element at the front. */
  method Prepend<T>(list: Node?<T>, data: T, ghost nodes: seq<Node<T>>) returns (node: Node<T>)
    requires IsList(list, nodes)
    ensures fresh(node) && IsList(node, [node] + nodes) && Data([node] + nodes) == [data] + Data(nodes)
  {
    node := new Node<T>(data, list);
  }
}
