/** The node pool as a flat array of nodes and the singly linked lists threaded through it.
    A pointer is an index into the pool.  Each list comes with a ghost sequence of the nodes on it, and a
    ghost `place` says of every node of the pool which list it is on and where: so no two lists
    share a node, no list repeats one, and none is forgotten. */
module NodeLists {
  import opened Spans

  const NULL := -1

  datatype Node = Node(address: nat, size: nat, next: int)

  // List names: a node in hand, the spare nodes, the free list; a cache is named by its class index.
  const LOOSE := -3
  const SPARE := -2
  const FREE := -1

  datatype Place = Place(list: int, index: int)

  const NOWHERE := Place(LOOSE, 0)

  function Succ(ns: seq<int>, i: int): int
    requires -1 <= i < |ns|
  {
    if i + 1 < |ns| then ns[i + 1] else NULL
  }

  /** Stacks number their nodes from the bottom, the free list from the front. */
  function Rank(list: int, n: int, i: int): int {
    if list == FREE then i else n - 1 - i
  }

  ghost predicate Placed(mem: seq<Node>, place: seq<Place>, list: int, ns: seq<int>) {
    && |place| == |mem|
    && forall i | 0 <= i < |ns| :: 0 <= ns[i] < |mem| && place[ns[i]] == Place(list, Rank(list, |ns|, i))
  }

  ghost predicate Complete(place: seq<Place>, list: int, ns: seq<int>) {
    forall j {:trigger place[j].list} | 0 <= j < |place| && place[j].list == list ::
      var i := Rank(list, |ns|, place[j].index);
      0 <= i < |ns| && ns[i] == j
  }

  ghost predicate Linked(mem: seq<Node>, head: int, ns: seq<int>)
    requires forall i | 0 <= i < |ns| :: 0 <= ns[i] < |mem|
  {
    && head == Succ(ns, -1)
    && forall i {:trigger mem[ns[i]]} | 0 <= i < |ns| :: mem[ns[i]].next == Succ(ns, i)
  }

  /** `head` starts the list named `list`, and its nodes are `ns` in order. */
  ghost predicate List(mem: seq<Node>, place: seq<Place>, list: int, head: int, ns: seq<int>) {
    Placed(mem, place, list, ns) && Linked(mem, head, ns) && Complete(place, list, ns)
  }

  /** The nodes `ns` describe the spans `s`, none of them at the null address. */
  ghost predicate Holds(mem: seq<Node>, ns: seq<int>, s: seq<Span>) {
    && |ns| == |s|
    && forall i {:trigger s[i]} {:trigger mem[ns[i]]} | 0 <= i < |ns| ::
         && 0 <= ns[i] < |mem|
         && mem[ns[i]].address == s[i].addr && mem[ns[i]].size == s[i].size && s[i].addr > 0
  }

  /** Whatever happens to nodes that are not on a list leaves the list alone. */
  lemma ListFrame(mem: seq<Node>, mem': seq<Node>, place: seq<Place>, place': seq<Place>,
                  list: int, head: int, ns: seq<int>, s: seq<Span>)
    requires List(mem, place, list, head, ns) && Holds(mem, ns, s)
    requires |mem'| == |mem| && |place'| == |place|
    requires forall j | 0 <= j < |mem| && (place[j].list == list || place'[j].list == list) ::
               mem'[j] == mem[j] && place'[j] == place[j]
    ensures List(mem', place', list, head, ns) && Holds(mem', ns, s)
  {
    forall i | 0 <= i < |ns| ensures mem'[ns[i]] == mem[ns[i]] && place'[ns[i]] == place[ns[i]] {
      assert place[ns[i]].list == list;
    }
  }

  /** The same for a list whose blocks do not matter. */
  lemma LinksFrame(mem: seq<Node>, mem': seq<Node>, place: seq<Place>, place': seq<Place>, list: int, head: int, ns: seq<int>)
    requires List(mem, place, list, head, ns) && |mem'| == |mem| && |place'| == |place|
    requires forall j | 0 <= j < |mem| && (place[j].list == list || place'[j].list == list) ::
               mem'[j] == mem[j] && place'[j] == place[j]
    ensures List(mem', place', list, head, ns)
  {
    forall i | 0 <= i < |ns| ensures mem'[ns[i]] == mem[ns[i]] && place'[ns[i]] == place[ns[i]] {
      assert place[ns[i]].list == list;
    }
  }

  /** Put a loose node on top of a stack. */
  lemma PushNode(mem: seq<Node>, place: seq<Place>, list: int, head: int, ns: seq<int>, n: int, v: Node)
    requires List(mem, place, list, head, ns) && list != FREE && list != LOOSE
    requires 0 <= n < |mem| && place[n].list == LOOSE && v.next == head
    ensures List(mem[n := v], place[n := Place(list, |ns|)], list, n, [n] + ns)
  {
    var mem', place', ns' := mem[n := v], place[n := Place(list, |ns|)], [n] + ns;
    forall i | 0 <= i < |ns'|
      ensures 0 <= ns'[i] < |mem'| && place'[ns'[i]] == Place(list, Rank(list, |ns'|, i)) && mem'[ns'[i]].next == Succ(ns', i)
    {
      if i > 0 {
        assert place[ns[i - 1]].list == list;
      }
    }
  }

  /** What a stack says of the node at position `i`. */
  lemma StackAt(mem: seq<Node>, place: seq<Place>, list: int, head: int, ns: seq<int>, i: nat)
    requires List(mem, place, list, head, ns) && list != FREE && i < |ns|
    ensures 0 <= ns[i] < |mem| && place[ns[i]] == Place(list, |ns| - 1 - i)
    ensures mem[ns[i]].next == if i + 1 < |ns| then ns[i + 1] else NULL
  {
  }

  lemma PopPlaced(mem: seq<Node>, place: seq<Place>, list: int, head: int, ns: seq<int>, v: Node)
    requires List(mem, place, list, head, ns) && list != FREE && ns != []
    ensures 0 <= head < |mem| == |place|
    ensures Placed(mem[head := v], place[head := NOWHERE], list, ns[1..])
  {
    StackAt(mem, place, list, head, ns, 0);
    forall i | 0 <= i < |ns| - 1
      ensures 0 <= ns[1..][i] < |mem| && place[head := NOWHERE][ns[1..][i]] == Place(list, Rank(list, |ns| - 1, i))
    {
      StackAt(mem, place, list, head, ns, i + 1);
    }
  }

  lemma PopLinked(mem: seq<Node>, place: seq<Place>, list: int, head: int, ns: seq<int>, v: Node)
    requires List(mem, place, list, head, ns) && list != FREE && ns != []
    requires 0 <= head < |mem| == |place|
    requires Placed(mem[head := v], place[head := NOWHERE], list, ns[1..])
    ensures Linked(mem[head := v], mem[head].next, ns[1..])
  {
    StackAt(mem, place, list, head, ns, 0);
    forall i | 0 <= i < |ns| - 1 ensures mem[head := v][ns[1..][i]].next == Succ(ns[1..], i) {
      StackAt(mem, place, list, head, ns, i + 1);
    }
  }

  lemma PopComplete(mem: seq<Node>, place: seq<Place>, list: int, head: int, ns: seq<int>)
    requires List(mem, place, list, head, ns) && list != FREE && list != LOOSE && ns != []
    requires 0 <= head < |place|
    ensures Complete(place[head := NOWHERE], list, ns[1..])
  {
    StackAt(mem, place, list, head, ns, 0);
    forall j | 0 <= j < |place| && place[head := NOWHERE][j].list == list
      ensures var i := |ns| - 2 - place[j].index; 0 <= i < |ns| - 1 && ns[1..][i] == j
    {
      assert place[j].list == list;
    }
  }

  /** Take the top node off a stack and do with it as one likes. */
  lemma PopNode(mem: seq<Node>, place: seq<Place>, list: int, head: int, ns: seq<int>, v: Node)
    requires List(mem, place, list, head, ns) && list != FREE && list != LOOSE && ns != []
    ensures 0 <= head < |mem| == |place| && head == ns[0]
    ensures List(mem[head := v], place[head := NOWHERE], list, mem[head].next, ns[1..])
  {
    PopPlaced(mem, place, list, head, ns, v);
    PopLinked(mem, place, list, head, ns, v);
    PopComplete(mem, place, list, head, ns);
  }

  /** The places after a node joins the free list at position `p`. */
  function Joined(place: seq<Place>, n: int, p: nat): (place': seq<Place>)
    ensures |place'| == |place|
    ensures forall j {:trigger place'[j]} | 0 <= j < |place| :: place'[j] ==
              if j == n then Place(FREE, p)
              else if place[j].list == FREE && place[j].index >= p then Place(FREE, place[j].index + 1)
              else place[j]
  {
    seq(|place|, j requires 0 <= j < |place| =>
      if j == n then Place(FREE, p)
      else if place[j].list == FREE && place[j].index >= p then Place(FREE, place[j].index + 1)
      else place[j])
  }

  /** The places after the node at position `p` leaves the free list. */
  function Departed(place: seq<Place>, n: int, p: nat): (place': seq<Place>)
    ensures |place'| == |place|
    ensures forall j {:trigger place'[j]} | 0 <= j < |place| :: place'[j] ==
              if j == n then NOWHERE
              else if place[j].list == FREE && place[j].index > p then Place(FREE, place[j].index - 1)
              else place[j]
  {
    seq(|place|, j requires 0 <= j < |place| =>
      if j == n then NOWHERE
      else if place[j].list == FREE && place[j].index > p then Place(FREE, place[j].index - 1)
      else place[j])
  }

  function InsertNode(ns: seq<int>, n: int, p: nat): (r: seq<int>)
    requires p <= |ns|
    ensures |r| == |ns| + 1
    ensures forall i {:trigger r[i]} | 0 <= i < |r| :: r[i] == if i < p then ns[i] else if i == p then n else ns[i - 1]
  {
    ns[..p] + [n] + ns[p..]
  }

  function RemoveNode(ns: seq<int>, p: nat): (r: seq<int>)
    requires p < |ns|
    ensures |r| == |ns| - 1
    ensures forall i {:trigger r[i]} | 0 <= i < |r| :: r[i] == if i < p then ns[i] else ns[i + 1]
  {
    ns[..p] + ns[p + 1..]
  }

  /** What the free list says of the node at position `i`. */
  lemma FreeAt(mem: seq<Node>, place: seq<Place>, head: int, ns: seq<int>, i: nat)
    requires List(mem, place, FREE, head, ns) && i < |ns|
    ensures 0 <= ns[i] < |mem| && place[ns[i]] == Place(FREE, i)
    ensures mem[ns[i]].next == if i + 1 < |ns| then ns[i + 1] else NULL
  {
  }

  lemma FreeOnce(mem: seq<Node>, place: seq<Place>, head: int, ns: seq<int>, i: nat, j: nat)
    requires List(mem, place, FREE, head, ns) && i < |ns| && j < |ns|
    ensures 0 <= ns[i] < |mem| && 0 <= ns[j] < |mem|
    ensures ns[i] == ns[j] ==> i == j
  {
    FreeAt(mem, place, head, ns, i);
    FreeAt(mem, place, head, ns, j);
  }

  /** Node `n` has been linked between the neighbours of position `p`, and no other link has changed. */
  ghost predicate LinkedIn(mem: seq<Node>, mem': seq<Node>, ns: seq<int>, n: int, p: nat)
    requires p <= |ns|
  {
    && |mem'| == |mem| && 0 <= n < |mem|
    && mem'[n].next == (if p < |ns| then ns[p] else NULL)
    && (p > 0 ==> 0 <= ns[p - 1] < |mem| && mem'[ns[p - 1]].next == n)
    && forall j | 0 <= j < |mem| && j != n && (p > 0 ==> j != ns[p - 1]) :: mem'[j].next == mem[j].next
  }

  lemma JoinLinkAt(mem: seq<Node>, mem': seq<Node>, place: seq<Place>, ns: seq<int>, n: int, p: nat, k: nat)
    requires p <= |ns| && k < |ns| && LinkedIn(mem, mem', ns, n, p) && |place| == |mem| && place[n].list == LOOSE
    requires 0 <= ns[k] < |mem| && place[ns[k]] == Place(FREE, k)
    requires mem[ns[k]].next == if k + 1 < |ns| then ns[k + 1] else NULL
    requires p > 0 && ns[k] == ns[p - 1] ==> k == p - 1
    ensures var i, ns' := if k < p then k else k + 1, InsertNode(ns, n, p);
      && ns'[i] == ns[k]
      && Joined(place, n, p)[ns'[i]] == Place(FREE, i)
      && mem'[ns'[i]].next == if i + 1 < |ns'| then ns'[i + 1] else NULL
  {
  }

  lemma JoinLinks(mem: seq<Node>, mem': seq<Node>, place: seq<Place>, head: int, ns: seq<int>, n: int, p: nat, i: nat)
    requires List(mem, place, FREE, head, ns) && p <= |ns| && i <= |ns|
    requires LinkedIn(mem, mem', ns, n, p) && |place| == |mem| && place[n].list == LOOSE
    ensures var ns' := InsertNode(ns, n, p);
      && 0 <= ns'[i] < |mem'| && Joined(place, n, p)[ns'[i]] == Place(FREE, i)
      && mem'[ns'[i]].next == if i + 1 < |ns'| then ns'[i + 1] else NULL
  {
    if i != p {
      var k := if i < p then i else i - 1;
      FreeAt(mem, place, head, ns, k);
      if p > 0 {
        FreeOnce(mem, place, head, ns, k, p - 1);
      }
      JoinLinkAt(mem, mem', place, ns, n, p, k);
    }
  }

  lemma JoinPlaces(mem: seq<Node>, place: seq<Place>, head: int, ns: seq<int>, n: int, p: nat, j: nat)
    requires List(mem, place, FREE, head, ns) && p <= |ns| && j < |mem| && 0 <= n < |mem|
    requires |place| == |mem| && Joined(place, n, p)[j].list == FREE
    ensures var i := Joined(place, n, p)[j].index;
      0 <= i <= |ns| && InsertNode(ns, n, p)[i] == j
  {
    if j != n {
      assert place[j].list == FREE;
    }
  }

  /** Link a loose node into the free list before position `p`. */
  lemma JoinFree(mem: seq<Node>, mem': seq<Node>, place: seq<Place>, head: int, ns: seq<int>, n: int, p: nat)
    requires List(mem, place, FREE, head, ns) && p <= |ns|
    requires LinkedIn(mem, mem', ns, n, p) && |place| == |mem| && place[n].list == LOOSE
    ensures List(mem', Joined(place, n, p), FREE, Succ(InsertNode(ns, n, p), -1), InsertNode(ns, n, p))
  {
    var place', ns' := Joined(place, n, p), InsertNode(ns, n, p);
    forall i | 0 <= i < |ns'|
      ensures 0 <= ns'[i] < |mem'| && place'[ns'[i]] == Place(FREE, i) && mem'[ns'[i]].next == Succ(ns', i)
    {
      JoinLinks(mem, mem', place, head, ns, n, p, i);
    }
    forall j | 0 <= j < |place'| && place'[j].list == FREE
      ensures 0 <= place'[j].index < |ns'| && ns'[place'[j].index] == j
    {
      JoinPlaces(mem, place, head, ns, n, p, j);
    }
  }

  /** The node at position `p` has been bypassed, and no other link has changed. */
  ghost predicate LinkedOut(mem: seq<Node>, mem': seq<Node>, ns: seq<int>, p: nat)
    requires p < |ns|
  {
    && |mem'| == |mem|
    && (p > 0 ==> 0 <= ns[p - 1] < |mem| && mem'[ns[p - 1]].next == (if p + 1 < |ns| then ns[p + 1] else NULL))
    && forall j | 0 <= j < |mem| && j != ns[p] && (p > 0 ==> j != ns[p - 1]) :: mem'[j].next == mem[j].next
  }

  lemma LeaveLinkAt(mem: seq<Node>, mem': seq<Node>, place: seq<Place>, ns: seq<int>, p: nat, k: nat)
    requires p < |ns| && k < |ns| && k != p && LinkedOut(mem, mem', ns, p) && |place| == |mem|
    requires 0 <= ns[k] < |mem| && ns[k] != ns[p] && place[ns[k]] == Place(FREE, k)
    requires mem[ns[k]].next == if k + 1 < |ns| then ns[k + 1] else NULL
    requires p > 0 && ns[k] == ns[p - 1] ==> k == p - 1
    ensures var i, ns' := if k < p then k else k - 1, RemoveNode(ns, p);
      && ns'[i] == ns[k]
      && Departed(place, ns[p], p)[ns'[i]] == Place(FREE, i)
      && mem'[ns'[i]].next == if i + 1 < |ns'| then ns'[i + 1] else NULL
  {
  }

  lemma LeaveLinks(mem: seq<Node>, mem': seq<Node>, place: seq<Place>, head: int, ns: seq<int>, p: nat, i: nat)
    requires List(mem, place, FREE, head, ns) && p < |ns| && i < |ns| - 1
    requires LinkedOut(mem, mem', ns, p)
    ensures var ns' := RemoveNode(ns, p);
      && 0 <= ns'[i] < |mem'| && |place| == |mem|
      && Departed(place, ns[p], p)[ns'[i]] == Place(FREE, i)
      && mem'[ns'[i]].next == if i + 1 < |ns'| then ns'[i + 1] else NULL
  {
    var k := if i < p then i else i + 1;
    FreeAt(mem, place, head, ns, k);
    FreeOnce(mem, place, head, ns, k, p);
    if p > 0 {
      FreeOnce(mem, place, head, ns, k, p - 1);
    }
    LeaveLinkAt(mem, mem', place, ns, p, k);
  }

  lemma LeavePlaces(mem: seq<Node>, place: seq<Place>, head: int, ns: seq<int>, p: nat, j: nat)
    requires List(mem, place, FREE, head, ns) && p < |ns| && j < |mem|
    requires |place| == |mem| && Departed(place, ns[p], p)[j].list == FREE
    ensures var i := Departed(place, ns[p], p)[j].index;
      0 <= i < |ns| - 1 && RemoveNode(ns, p)[i] == j
  {
    FreeAt(mem, place, head, ns, p);
    assert place[j].list == FREE;
  }

  /** Unlink the node at position `p` from the free list. */
  lemma LeaveFree(mem: seq<Node>, mem': seq<Node>, place: seq<Place>, head: int, ns: seq<int>, p: nat)
    requires List(mem, place, FREE, head, ns) && p < |ns|
    requires LinkedOut(mem, mem', ns, p)
    ensures List(mem', Departed(place, ns[p], p), FREE, Succ(RemoveNode(ns, p), -1), RemoveNode(ns, p))
  {
    var place', ns' := Departed(place, ns[p], p), RemoveNode(ns, p);
    forall i | 0 <= i < |ns'|
      ensures 0 <= ns'[i] < |mem'| && place'[ns'[i]] == Place(FREE, i) && mem'[ns'[i]].next == Succ(ns', i)
    {
      LeaveLinks(mem, mem', place, head, ns, p, i);
    }
    forall j | 0 <= j < |place'| && place'[j].list == FREE
      ensures 0 <= place'[j].index < |ns'| && ns'[place'[j].index] == j
    {
      LeavePlaces(mem, place, head, ns, p, j);
    }
  }
}
