/** No node of the pool is leaked or shared: on a settled pool the lists partition it. */
module NodeConservation {
  import opened ArenaModel
  import opened NodeLists
  import opened NodeHeap
  import opened HeapOps

  ghost function On(place: seq<Place>, list: int): set<int> {
    set j | 0 <= j < |place| && place[j].list == list
  }

  /** The nodes on lists named below `list`. */
  ghost function Below(place: seq<Place>, list: int): set<int> {
    set j | 0 <= j < |place| && place[j].list < list
  }

  lemma {:induction false} DistinctCount(ns: seq<int>)
    requires forall i, j | 0 <= i < j < |ns| :: ns[i] != ns[j]
    ensures |set x | x in ns| == |ns|
  {
    if ns == [] {
      assert (set x | x in ns) == {};
    } else {
      DistinctCount(ns[1..]);
      assert (set x | x in ns) == (set x | x in ns[1..]) + {ns[0]};
    }
  }

  /** A list holds as many nodes as have its name. */
  lemma ListCount(mem: seq<Node>, place: seq<Place>, list: int, head: int, ns: seq<int>)
    requires List(mem, place, list, head, ns)
    ensures |On(place, list)| == |ns|
  {
    forall i, j | 0 <= i < j < |ns| ensures ns[i] != ns[j] {
      assert place[ns[i]] != place[ns[j]];
    }
    DistinctCount(ns);
    forall j ensures j in On(place, list) <==> j in (set x | x in ns) {
      if j in ns {
        var i :| 0 <= i < |ns| && ns[i] == j;
        assert place[ns[i]].list == list;
      }
      if j in On(place, list) {
        assert place[j].list == list;
      }
    }
    assert On(place, list) == set x | x in ns;
  }

  lemma BelowNext(place: seq<Place>, list: int)
    ensures |Below(place, list + 1)| == |Below(place, list)| + |On(place, list)|
  {
    assert Below(place, list + 1) == Below(place, list) + On(place, list);
    assert Below(place, list) !! On(place, list);
  }

  /** The indices below `n`. */
  ghost function Indices(n: nat): (s: set<int>)
    ensures forall j :: j in s <==> 0 <= j < n
    ensures |s| == n
  {
    if n == 0 then {} else Indices(n - 1) + {n - 1}
  }

  lemma {:induction false} CachedPrefix(cs: seq<SizeClass>, k: nat)
    requires k < |cs|
    ensures |Cached(cs[..k + 1])| == |Cached(cs[..k])| + |cs[k].blocks|
  {
    if k > 0 {
      CachedPrefix(cs[1..], k - 1);
      assert cs[..k + 1][1..] == cs[1..][..k] && cs[..k][1..] == cs[1..][..k - 1];
    } else {
      assert cs[..1][1..] == [];
    }
  }

  lemma {:induction false} CacheNodesCount(h: Heap, k: nat)
    requires Settled(h) && k <= |h.caches|
    ensures |Below(h.place, k)| == |h.spare| + |h.spans| + |Cached(Classes(h.caches)[..k])|
  {
    var cs := Classes(h.caches);
    if k == 0 {
      BelowNext(h.place, LOOSE);
      BelowNext(h.place, SPARE);
      BelowNext(h.place, FREE);
      ListCount(h.mem, h.place, SPARE, h.spareHead, h.spare);
      ListCount(h.mem, h.place, FREE, h.freeHead, h.free);
      NoneInHand(h);
    } else {
      CacheNodesCount(h, k - 1);
      BelowNext(h.place, k - 1);
      assert CacheGood(h, k - 1);
      ListCount(h.mem, h.place, k - 1, h.caches[k - 1].head, h.caches[k - 1].nodes);
      CachedPrefix(cs, k - 1);
    }
  }

  lemma NoneInHand(h: Heap)
    requires Settled(h)
    ensures On(h.place, LOOSE) == {} && Below(h.place, LOOSE) == {}
  {
    forall j | 0 <= j < |h.place| ensures h.place[j].list > LOOSE {
      assert h.place[j].list == LOOSE <==> j in {};
    }
  }

  /** Spare nodes, free blocks and cached blocks together account for every node of the pool. */
  lemma NodesConserved(h: Heap)
    requires Settled(h)
    ensures |h.spare| + |h.spans| + |Cached(Classes(h.caches))| == |h.mem|
  {
    var cs := Classes(h.caches);
    CacheNodesCount(h, |h.caches|);
    assert cs[..|h.caches|] == cs;
    forall j | 0 <= j < |h.place| ensures h.place[j].list < |h.caches| {
      assert LOOSE <= h.place[j].list;
    }
    assert Below(h.place, |h.caches|) == Indices(|h.mem|);
  }

  /** The nodes of a list, by its name. */
  function NodesOf(h: Heap, list: int): seq<int> {
    if list == SPARE then h.spare
    else if list == FREE then h.free
    else if 0 <= list < |h.caches| then h.caches[list].nodes
    else []
  }

  lemma PlaceOf(h: Heap, list: int, i: nat)
    requires Settled(h) && i < |NodesOf(h, list)|
    ensures var n := NodesOf(h, list)[i];
      0 <= n < |h.place| && h.place[n] == Place(list, Rank(list, |NodesOf(h, list)|, i))
  {
    if 0 <= list { assert CacheGood(h, list); }
  }

  /** No node is on two lists or twice on one. */
  lemma NodesSeparate(h: Heap, p: int, q: int, i: nat, j: nat)
    requires Settled(h) && i < |NodesOf(h, p)| && j < |NodesOf(h, q)|
    ensures NodesOf(h, p)[i] == NodesOf(h, q)[j] <==> p == q && i == j
  {
    PlaceOf(h, p, i);
    PlaceOf(h, q, j);
  }
}
