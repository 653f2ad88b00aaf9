/** The static routing table as a binary trie keyed by destination-prefix
    bits (router.c:18-84, 124-158).

    A trie node is identified by the bit path that leads to it from the root
    (a tree has exactly one such path per node), so the trie's state is the
    set of allocated nodes and the route slot of each node. */
module RoutingTrie {
  import opened Words
  import opened Wrappers

  /** One routing-table entry; prefix and mask in host byte order. */
  datatype Route = Route(prefix: Word32, nextHop: Word32, mask: Word32, iface: nat)

  /** The node at which a route is stored: its prefix's top bits, as many as
      the mask has leading 1-bits. */
  function RoutePath(r: Route): (p: seq<bool>)
    ensures |p| == PrefixLength(r.mask)
  {
    TopBits(r.prefix, PrefixLength(r.mask))
  }

  /** A route covers an address when the address's top bits equal the
      prefix's top bits, for the route's prefix length. */
  predicate Matches(r: Route, a: Word32)
  {
    TopBits(a, PrefixLength(r.mask)) == RoutePath(r)
  }

  /** The nodes on the way from the root to `p`, both ends included. */
  function PathNodes(p: seq<bool>): set<seq<bool>>
  {
    set i | 0 <= i <= |p| :: p[..i]
  }

  /** The node one level up; the root is its own parent. */
  function Parent(p: seq<bool>): (q: seq<bool>)
    ensures p != [] ==> p == q + [p[|p| - 1]]
  {
    if p == [] then [] else p[..|p| - 1]
  }

  /** Every allocated node hangs under an allocated parent. */
  ghost predicate PrefixClosed(nodes: set<seq<bool>>)
  {
    forall p {:trigger Parent(p)} | p in nodes :: Parent(p) in nodes
  }

  /** Every stored route sits at the node its own prefix and mask lead to. */
  ghost predicate Placed(slots: map<seq<bool>, Route>)
  {
    forall p | p in slots :: IsContiguous(slots[p].mask) && RoutePath(slots[p]) == p
  }

  /** The route of the deepest node above depth `n` on the path of `a` that
      holds one: what the lookup loop remembers last. */
  function BestOnPath(slots: map<seq<bool>, Route>, a: Word32, n: nat): (r: Option<Route>)
    requires n <= 32
    ensures r.Some? ==> exists p | p in slots :: slots[p] == r.value
  {
    if n == 0 then None
    else if TopBits(a, n - 1) in slots then Some(slots[TopBits(a, n - 1)])
    else BestOnPath(slots, a, n - 1)
  }

  /** BestOnPath is None exactly when no node at depth below `n` on the path
      holds a route, and otherwise the route of the deepest such node. */
  lemma {:induction false} BestOnPathIsDeepest(slots: map<seq<bool>, Route>, a: Word32, n: nat)
    requires n <= 32
    ensures BestOnPath(slots, a, n).None? <==> forall d | 0 <= d < n :: TopBits(a, d) !in slots
    ensures BestOnPath(slots, a, n).Some? ==>
      exists d | 0 <= d < n ::
        TopBits(a, d) in slots && slots[TopBits(a, d)] == BestOnPath(slots, a, n).value &&
        forall e | d < e < n :: TopBits(a, e) !in slots
  {
    if n > 0 && TopBits(a, n - 1) !in slots {
      BestOnPathIsDeepest(slots, a, n - 1);
    }
  }

  /** Longest-prefix match over the stored routes, depth-32 routes excepted:
      a returned route covers the address with a prefix shorter than 32 bits,
      and no stored route of prefix length below 32 that covers the address
      is longer. In particular a /32 route is never returned, and a default
      route (mask 0) only when nothing longer covers the address. */
  lemma LookupIsLongestMatch(slots: map<seq<bool>, Route>, a: Word32)
    requires Placed(slots)
    ensures BestOnPath(slots, a, 32).Some? ==>
      var r := BestOnPath(slots, a, 32).value;
      Matches(r, a) && PrefixLength(r.mask) < 32 && RoutePath(r) in slots && slots[RoutePath(r)] == r
    ensures forall p | p in slots && Matches(slots[p], a) && PrefixLength(slots[p].mask) < 32 ::
      BestOnPath(slots, a, 32).Some? &&
      PrefixLength(slots[p].mask) <= PrefixLength(BestOnPath(slots, a, 32).value.mask)
  {
    BestOnPathIsDeepest(slots, a, 32);
    var best := BestOnPath(slots, a, 32);
    if best.Some? {
      var d :| 0 <= d < 32 && TopBits(a, d) in slots && slots[TopBits(a, d)] == best.value &&
        forall e | d < e < 32 :: TopBits(a, e) !in slots;
      assert RoutePath(best.value) == TopBits(a, d);
    }
    forall p | p in slots && Matches(slots[p], a) && PrefixLength(slots[p].mask) < 32
      ensures best.Some? && PrefixLength(slots[p].mask) <= PrefixLength(best.value.mask)
    {
      var len := PrefixLength(slots[p].mask);
      assert TopBits(a, len) == p;
    }
  }

  /** A route with mask 0 is stored at the root, so every lookup that
      reaches the root sees it. */
  lemma DefaultRouteAtRoot(r: Route)
    requires r.mask == 0
    ensures RoutePath(r) == []
  {
    BitOfZero(31);
  }

  /** A /32 route is stored at depth 32, which the lookup walk never
      inspects: in a table holding only that route, a lookup of the very
      address it names finds nothing. */
  lemma {:induction false} HostRouteNeverFound(r: Route)
    requires PrefixLength(r.mask) == 32
    ensures BestOnPath(Installed(map[], [r]), r.prefix, 32) == None
  {
    var slots := Installed(map[], [r]);
    assert [r][..0] == [];
    assert Installed(map[], []) == map[];
    assert slots == map[RoutePath(r) := r];
    BestOnPathIsDeepest(slots, r.prefix, 32);
    forall d | 0 <= d < 32 ensures TopBits(r.prefix, d) !in slots {
      assert |TopBits(r.prefix, d)| != |RoutePath(r)|;
    }
  }

  /** The route slots after inserting `table` in order into `slots`. */
  function Installed(slots: map<seq<bool>, Route>, table: seq<Route>): (m: map<seq<bool>, Route>)
    ensures m.Keys == slots.Keys + EntryPaths(table)
    decreases |table|
  {
    if table == [] then slots
    else
      var last := table[|table| - 1];
      EntryPathsStep(table, table[..|table| - 1]);
      Installed(slots, table[..|table| - 1])[RoutePath(last) := last]
  }

  /** The nodes allocated by inserting `table`. */
  function TableNodes(table: seq<Route>): (s: set<seq<bool>>)
    ensures forall j | 0 <= j < |table| :: PathNodes(RoutePath(table[j])) <= s
    ensures forall p | p in s :: |p| <= 32
    decreases |table|
  {
    if table == [] then {}
    else
      PathNodesShallow(RoutePath(table[|table| - 1]));
      TableNodes(table[..|table| - 1]) + PathNodes(RoutePath(table[|table| - 1]))
  }

  /** The nodes at which the entries of `table` are stored. */
  function EntryPaths(table: seq<Route>): set<seq<bool>>
  {
    set j | 0 <= j < |table| :: RoutePath(table[j])
  }

  /** The entry paths of a table: those of all but the last entry, and the
      last one's. */
  lemma EntryPathsStep(table: seq<Route>, front: seq<Route>)
    requires table != [] && front == table[..|table| - 1]
    ensures EntryPaths(table) == EntryPaths(front) + {RoutePath(table[|table| - 1])}
  {
    forall j | 0 <= j < |front| ensures front[j] == table[j] { }
  }

  /** The nodes on a path are no deeper than its end. */
  lemma PathNodesShallow(p: seq<bool>)
    requires |p| <= 32
    ensures forall q | q in PathNodes(p) :: |q| <= 32
  {
  }

  /** Entry `j` is the last entry of `table` whose path leads to node `p`. */
  ghost predicate LastWriter(table: seq<Route>, p: seq<bool>, j: int)
  {
    0 <= j < |table| && RoutePath(table[j]) == p &&
    forall k | j < k < |table| :: RoutePath(table[k]) != p
  }

  /** No entry of `table` leads to node `p`. */
  ghost predicate Untouched(table: seq<Route>, p: seq<bool>)
  {
    forall j | 0 <= j < |table| :: RoutePath(table[j]) != p
  }

  /** Last write wins: node `p` holds a route after the insertions exactly
      when it held one before or some entry leads to it; it then holds the
      route of the last entry that leads to it, or its earlier route when no
      entry does. */
  lemma {:induction false} InstalledLastWins(slots: map<seq<bool>, Route>, table: seq<Route>, p: seq<bool>)
    ensures p in Installed(slots, table) <==> p in slots || !Untouched(table, p)
    ensures p in Installed(slots, table) ==>
      (exists j :: LastWriter(table, p, j) && Installed(slots, table)[p] == table[j]) ||
      (Untouched(table, p) && Installed(slots, table)[p] == slots[p])
    decreases |table|
  {
    if table != [] {
      var n := |table| - 1;
      var front := table[..n];
      InstalledLastWins(slots, front, p);
      if RoutePath(table[n]) == p {
        assert LastWriter(table, p, n);
      } else {
        UntouchedFront(table, p);
        if j :| LastWriter(front, p, j) && Installed(slots, front)[p] == front[j] {
          LastWriterFront(table, p, j);
        }
      }
    }
  }

  /** When the last entry does not lead to `p`, dropping it changes neither
      whether `p` is touched nor which entry writes it last. */
  lemma UntouchedFront(table: seq<Route>, p: seq<bool>)
    requires table != [] && RoutePath(table[|table| - 1]) != p
    ensures Untouched(table, p) <==> Untouched(table[..|table| - 1], p)
  {
    var front := table[..|table| - 1];
    forall j | 0 <= j < |front| ensures front[j] == table[j] { }
    if !Untouched(table, p) {
      var j :| 0 <= j < |table| && RoutePath(table[j]) == p;
      assert RoutePath(front[j]) == p;
    }
  }

  lemma LastWriterFront(table: seq<Route>, p: seq<bool>, j: int)
    requires table != [] && RoutePath(table[|table| - 1]) != p
    requires LastWriter(table[..|table| - 1], p, j)
    ensures LastWriter(table, p, j)
  {
    var n := |table| - 1;
    forall k | j < k < |table| ensures RoutePath(table[k]) != p {
      if k < n { assert table[k] == table[..n][k]; }
    }
  }

  /** Inserting routes with contiguous masks keeps every route at its own node. */
  lemma {:induction false} InstalledPlaced(slots: map<seq<bool>, Route>, table: seq<Route>)
    requires Placed(slots)
    requires forall j | 0 <= j < |table| :: IsContiguous(table[j].mask)
    ensures Placed(Installed(slots, table))
    decreases |table|
  {
    if table != [] {
      InstalledPlaced(slots, table[..|table| - 1]);
    }
  }

  /** Building from a table and looking an address up is longest-prefix
      match over the table's entries of prefix length below 32, ties between
      entries for the same prefix going to the last one. */
  lemma TableLookupIsLongestMatch(table: seq<Route>, a: Word32)
    requires forall j | 0 <= j < |table| :: IsContiguous(table[j].mask)
    ensures BestOnPath(Installed(map[], table), a, 32).Some? ==>
      exists j | 0 <= j < |table| ::
        var r := table[j];
        BestOnPath(Installed(map[], table), a, 32).value == r &&
        Matches(r, a) && PrefixLength(r.mask) < 32 &&
        forall k | j < k < |table| && Matches(table[k], a) :: PrefixLength(table[k].mask) != PrefixLength(r.mask)
    ensures forall j | 0 <= j < |table| && Matches(table[j], a) && PrefixLength(table[j].mask) < 32 ::
      BestOnPath(Installed(map[], table), a, 32).Some? &&
      PrefixLength(table[j].mask) <= PrefixLength(BestOnPath(Installed(map[], table), a, 32).value.mask)
  {
    var slots := Installed(map[], table);
    InstalledPlaced(map[], table);
    LookupIsLongestMatch(slots, a);
    var best := BestOnPath(slots, a, 32);
    if best.Some? {
      var r := best.value;
      var p := RoutePath(r);
      InstalledLastWins(map[], table, p);
      var j :| LastWriter(table, p, j) && slots[p] == table[j];
      forall k | j < k < |table| && Matches(table[k], a)
        ensures PrefixLength(table[k].mask) != PrefixLength(r.mask)
      {
        assert RoutePath(table[k]) != p;
      }
    }
    forall j | 0 <= j < |table| && Matches(table[j], a) && PrefixLength(table[j].mask) < 32
      ensures best.Some? && PrefixLength(table[j].mask) <= PrefixLength(best.value.mask)
    {
      var p := RoutePath(table[j]);
      InstalledLastWins(map[], table, p);
      assert RoutePath(slots[p]) == p;
      assert Matches(slots[p], a);
    }
  }

  /** Inserting one more entry of the table: the nodes and slots after
      `i + 1` entries are those after `i` entries plus the next entry's. */
  lemma TableStep(base: set<seq<bool>>, slots: map<seq<bool>, Route>, table: seq<Route>, i: nat)
    requires i < |table|
    ensures base + TableNodes(table[..i + 1]) == (base + TableNodes(table[..i])) + PathNodes(RoutePath(table[i]))
    ensures Installed(slots, table[..i + 1]) == Installed(slots, table[..i])[RoutePath(table[i]) := table[i]]
  {
    assert table[..i + 1][..i] == table[..i];
  }

  /** Every ancestor of an allocated node is allocated. */
  lemma {:induction false} AncestorAllocated(nodes: set<seq<bool>>, p: seq<bool>, j: nat)
    requires PrefixClosed(nodes) && p in nodes && j <= |p|
    ensures p[..j] in nodes
    decreases |p| - j
  {
    if j == |p| {
      assert p[..j] == p;
    } else {
      var parent := Parent(p);
      assert parent in nodes;
      AncestorAllocated(nodes, parent, j);
      assert parent[..j] == p[..j];
    }
  }

  /** Past the first depth whose node is missing, no node on the path holds
      a route, so stopping the walk there loses nothing. */
  lemma {:induction false} NothingBelowMissing(nodes: set<seq<bool>>, slots: map<seq<bool>, Route>, a: Word32, d: nat, n: nat)
    requires PrefixClosed(nodes) && slots.Keys <= nodes
    requires d <= n <= 32 && TopBits(a, d) !in nodes
    ensures BestOnPath(slots, a, n) == BestOnPath(slots, a, d)
    decreases n - d
  {
    if d < n {
      NothingBelowMissing(nodes, slots, a, d, n - 1);
      if TopBits(a, n - 1) in slots {
        AncestorAllocated(nodes, TopBits(a, n - 1), d);
        TopBitsPrefix(a, d, n - 1);
      }
    }
  }

  /** Where the lookup walk stops, at depth 32 or at the first missing node,
      its remembered route is already the final answer. */
  lemma WalkEnd(nodes: set<seq<bool>>, slots: map<seq<bool>, Route>, a: Word32, node: seq<bool>, n: nat)
    requires PrefixClosed(nodes) && slots.Keys <= nodes
    requires |node| <= n <= 32 && node == TopBits(a, |node|) && (|node| < n ==> node !in nodes)
    ensures BestOnPath(slots, a, n) == BestOnPath(slots, a, |node|)
  {
    if |node| < n {
      NothingBelowMissing(nodes, slots, a, |node|, n);
    }
  }

  /** One level of the lookup walk: the next node on the path, and the best
      route once the current node has been inspected. */
  lemma WalkStep(slots: map<seq<bool>, Route>, a: Word32, node: seq<bool>)
    requires |node| < 32 && node == TopBits(a, |node|)
    ensures node + [Bit(a, 31 - |node|)] == TopBits(a, |node| + 1)
    ensures BestOnPath(slots, a, |node| + 1) ==
      if node in slots then Some(slots[node]) else BestOnPath(slots, a, |node|)
  {
    TopBitsStep(a, |node|);
  }

  lemma PathNodesRoot()
    ensures PathNodes([]) == {[]}
  {
    var e: seq<bool> := [];
    assert e[..0] == e;
  }

  lemma PathNodesStep(node: seq<bool>, b: bool)
    ensures PathNodes(node + [b]) == PathNodes(node) + {node + [b]}
  {
    var child := node + [b];
    assert child[..|child|] == child;
    forall q | q in PathNodes(node) ensures q in PathNodes(child) {
      var i :| 0 <= i <= |node| && q == node[..i];
      assert q == child[..i];
    }
    forall q | q in PathNodes(child) ensures q in PathNodes(node) + {child} {
      var i :| 0 <= i <= |child| && q == child[..i];
      if i <= |node| {
        assert q == node[..i];
      }
    }
  }

  /** The state of the insertion walk for `route`: the walk stands at depth
      |node| on the route's path, no deeper than the route's prefix length,
      with `pos` the bit it examines next and `mask` the mask accumulated so
      far; every node on the path down to `node` is allocated and nothing
      else was added to `before`. */
  ghost predicate Inserting(before: set<seq<bool>>, nodes: set<seq<bool>>, route: Route, node: seq<bool>, pos: int, mask: Word32)
  {
    IsContiguous(route.mask) &&
    |node| <= PrefixLength(route.mask) && node == RoutePath(route)[..|node|] &&
    pos == 31 - |node| && mask == Mask(|node|) &&
    Grown(before, nodes, node)
  }

  /** `nodes` is `before` plus the path down to `node`, closed under parents
      and at most 32 levels deep. */
  ghost predicate Grown(before: set<seq<bool>>, nodes: set<seq<bool>>, node: seq<bool>)
  {
    node in nodes && nodes == before + PathNodes(node) &&
    PrefixClosed(nodes) && forall p | p in nodes :: |p| <= 32
  }

  /** While the accumulated mask differs from a contiguous mask, the walk is
      above the mask's prefix length. */
  lemma Deeper(d: nat, k: nat, m: Word32)
    requires d <= k <= 32 && Mask(d) != m && m == Mask(k)
    ensures d < k
  {
  }

  /** One level of the insertion walk: allocating the child for bit `b`
      (a no-op when it exists) keeps the walk's state. */
  lemma ChildStep(before: set<seq<bool>>, nodes: set<seq<bool>>, route: Route, node: seq<bool>, pos: int, mask: Word32, b: bool)
    requires Inserting(before, nodes, route, node, pos, mask)
    requires |node| < PrefixLength(route.mask) && b == Bit(route.prefix, 31 - |node|)
    ensures Inserting(before, nodes + {node + [b]}, route, node + [b], pos - 1, NextMask(mask))
    ensures node + [b] in nodes ==> nodes + {node + [b]} == nodes
  {
    GrowStep(before, nodes, node, b);
    PathStep(RoutePath(route), route.prefix, node, b);
    assert Mask(|node| + 1) == NextMask(mask);
  }

  lemma GrowStep(before: set<seq<bool>>, nodes: set<seq<bool>>, node: seq<bool>, b: bool)
    requires Grown(before, nodes, node) && |node| < 32
    ensures Grown(before, nodes + {node + [b]}, node + [b])
    ensures node + [b] in nodes ==> nodes + {node + [b]} == nodes
  {
    var child := node + [b];
    assert Parent(child) == node;
    PathNodesStep(node, b);
  }

  lemma PathStep(path: seq<bool>, prefix: Word32, node: seq<bool>, b: bool)
    requires |node| < |path| <= 32 && path == TopBits(prefix, |path|)
    requires node == path[..|node|] && b == Bit(prefix, 31 - |node|)
    ensures node + [b] == path[..|node| + 1]
  {
    var d := |node|;
    assert path[d] == b;
    assert path[..d + 1] == path[..d] + [path[d]];
  }

  /** The routing trie: its allocated nodes and their route slots. An empty
      node set is the NULL head before the first insertion. */
  class Trie {
    var nodes: set<seq<bool>>
    var routes: map<seq<bool>, Route>

    ghost predicate Valid()
      reads this
    {
      PrefixClosed(nodes) &&
      (forall p | p in nodes :: |p| <= 32) &&
      routes.Keys <= nodes &&
      Placed(routes)
    }

    /** The empty trie: no head node yet. */
    constructor ()
      ensures Valid() && nodes == {} && routes == map[]
    {
      nodes := {};
      routes := map[];
    }

    /** add_trie_node: walk one prefix bit per level, most significant bit
        first, allocating missing children, until the accumulated mask equals
        the route's mask; store the route at that node. The walk ends only for
        a contiguous mask. */
    method AddTrieNode(route: Route)
      requires Valid() && IsContiguous(route.mask)
      modifies this
      ensures Valid()
      ensures nodes == old(nodes) + PathNodes(RoutePath(route))
      ensures routes == old(routes)[RoutePath(route) := route]
    {
      if nodes == {} {
        nodes := {[]};
      } else {
        var some :| some in nodes;
        AncestorAllocated(nodes, some, 0);
      }
      PathNodesRoot();
      var mask: Word32 := 0;
      var pos: int := 31;
      var node: seq<bool> := [];
      while true
        invariant Inserting(old(nodes), nodes, route, node, pos, mask)
        invariant routes == old(routes)
        decreases 32 - |node|
      {
        if mask == route.mask {
          MaskInjective(|node|, PrefixLength(route.mask));
          assert node == RoutePath(route);
          routes := routes[node := route];
          break;
        }
        Deeper(|node|, PrefixLength(route.mask), route.mask);
        var byte := Bit(route.prefix, pos);
        ChildStep(old(nodes), nodes, route, node, pos, mask, byte);
        var child := node + [byte];
        if child !in nodes {
          nodes := nodes + {child};
        }
        node := child;
        mask := NextMask(mask);
        pos := pos - 1;
      }
    }

    /** create_trie_table: insert every entry of the table, in order. */
    method CreateTrieTable(table: seq<Route>)
      requires Valid()
      requires forall j | 0 <= j < |table| :: IsContiguous(table[j].mask)
      modifies this
      ensures Valid()
      ensures nodes == old(nodes) + TableNodes(table)
      ensures routes == Installed(old(routes), table)
    {
      for i := 0 to |table|
        invariant Valid()
        invariant nodes == old(nodes) + TableNodes(table[..i])
        invariant routes == Installed(old(routes), table[..i])
      {
        TableStep(old(nodes), old(routes), table, i);
        AddTrieNode(table[i]);
      }
      assert table[..|table|] == table;
    }

    /** get_best_route: walk the address's bits from the root while the node
        exists and fewer than 32 bits are used, remembering the last route
        seen. Nodes at depth 32 are never inspected. */
    method GetBestRoute(address: Word32) returns (best: Option<Route>)
      requires Valid()
      ensures best == BestOnPath(routes, address, 32)
    {
      best := None;
      var pos: int := 31;
      var node: seq<bool> := [];
      while pos >= 0 && node in nodes
        invariant -1 <= pos <= 31 && |node| == 31 - pos
        invariant node == TopBits(address, |node|)
        invariant best == BestOnPath(routes, address, |node|)
      {
        WalkStep(routes, address, node);
        if node in routes {
          best := Some(routes[node]);
        }
        var byte := Bit(address, pos);
        if !byte {
          node := node + [false];
        } else {
          node := node + [true];
        }
        pos := pos - 1;
      }
      WalkEnd(nodes, routes, address, node, 32);
    }
  }
}
