/**
 * The cycle detector over type declarations (`cycleDeclChecker`): a
 * depth-first search that colours nodes not-visiting / in-visiting /
 * visited and reports a cycle when it meets an in-visiting node again.
 *
 * `typEdge` maps each type name to the set of names it refers to; here each
 * set is a sequence without repeats, in insertion order. Go walks a map in
 * an unspecified order, so the model fixes one; `IsCycleExact` shows the
 * answer is the same for every order, since it depends only on which edges
 * exist.
 */
module CycleCheck {
  datatype VisitStatus = NotVisiting | InVisiting | Visited

  /** `typEdge`: the names each declared type refers to. */
  type Graph = map<string, seq<string>>

  /** `typVisits`. */
  type Visits = map<string, VisitStatus>

  /** `typEdge[v]`: a missing entry reads as the empty set. */
  function Adj(g: Graph, v: string): seq<string> {
    if v in g then g[v] else []
  }

  /** `typVisits[k]`: a missing entry reads as the zero value, `notVisiting`. */
  function Status(vs: Visits, k: string): VisitStatus {
    if k in vs then vs[k] else NotVisiting
  }

  /** The `resetVisits` loop: every key present is set back to `notVisiting`. */
  function Reset(vs: Visits): (r: Visits)
    ensures r.Keys == vs.Keys
    ensures forall k :: Status(r, k) == NotVisiting
  {
    map k | k in vs :: NotVisiting
  }

  /** Every name that occurs in the graph, as a source or as a target. */
  ghost function Nodes(g: Graph): set<string> {
    g.Keys + set u, k | u in g && k in g[u] :: k
  }

  /** The nodes of `g` the search has not reached yet. */
  ghost function White(g: Graph, vs: Visits): set<string> {
    set k | k in Nodes(g) && Status(vs, k) == NotVisiting
  }

  lemma InNodes(g: Graph, u: string, k: string)
    requires k in Adj(g, u)
    ensures k in Nodes(g)
  {
    assert u in g && k in g[u];
  }

  lemma SubsetSmaller(a: set<string>, b: set<string>)
    requires a <= b
    ensures |a| <= |b|
  {
    assert b == a + (b - a);
  }

  lemma MarkWhite(g: Graph, vs: Visits, k: string, s: VisitStatus)
    requires k in Nodes(g) && Status(vs, k) == NotVisiting && s != NotVisiting
    ensures White(g, vs[k := s]) == White(g, vs) - {k}
    ensures |White(g, vs[k := s])| < |White(g, vs)|
  {
    assert k in White(g, vs);
  }

  /**
   * `isCycle(v, resetVisits)`: returns whether a cycle was found, and the
   * visit map as the search left it.
   */
  function IsCycle(g: Graph, v: string, reset: bool, vs: Visits): (r: (bool, Visits))
    ensures !reset ==> White(g, r.1) <= White(g, vs[v := InVisiting])
    decreases if reset then 1 else 0, |White(g, (if reset then Reset(vs) else vs)[v := InVisiting])|, 1
  {
    var vs0 := if reset then Reset(vs) else vs;
    Scan(g, v, 0, vs0[v := InVisiting])
  }

  /**
   * The loop over `typEdge[v]`, from its `i`-th entry on; on leaving it
   * without finding a cycle `v` becomes `visited`.
   */
  function Scan(g: Graph, v: string, i: nat, vs: Visits): (r: (bool, Visits))
    requires i <= |Adj(g, v)|
    ensures White(g, r.1) <= White(g, vs)
    decreases 0, |White(g, vs)|, 0, |Adj(g, v)| - i
  {
    var adj := Adj(g, v);
    if i == |adj| then (false, vs[v := Visited])
    else
      var k := adj[i];
      match Status(vs, k)
      case InVisiting => (true, vs)
      case Visited => Scan(g, v, i + 1, vs)
      case NotVisiting =>
        InNodes(g, v, k);
        MarkWhite(g, vs, k, InVisiting);
        var (found, vs1) := IsCycle(g, k, false, vs);
        SubsetSmaller(White(g, vs1), White(g, vs[k := InVisiting]));
        if found then (true, vs1) else Scan(g, v, i + 1, vs1)
  }

  /** There is an edge from `a` to `b`. */
  ghost predicate Edge(g: Graph, a: string, b: string) {
    b in Adj(g, a)
  }

  /** `p` walks along edges of `g`. */
  ghost predicate IsPath(g: Graph, p: seq<string>) {
    |p| >= 1 && forall j :: 0 <= j < |p| - 1 ==> Edge(g, p[j], p[j + 1])
  }

  /** A walk from `root` that comes back to a node it has already passed. */
  ghost predicate Lasso(g: Graph, root: string, p: seq<string>) {
    IsPath(g, p) && p[0] == root && |p| >= 2 && p[|p| - 1] in p[..|p| - 1]
  }

  /** Some cycle of `g` can be reached from `root`. */
  ghost predicate CycleReachable(g: Graph, root: string) {
    exists p :: Lasso(g, root, p)
  }

  /** A node lies on a cycle: a walk of at least one edge leads back to it. */
  ghost predicate OnCycle(g: Graph, u: string) {
    exists c :: IsPath(g, c) && |c| >= 2 && c[0] == u && c[|c| - 1] == u
  }

  /** A node can be reached from `root`. */
  ghost predicate Reachable(g: Graph, root: string, u: string) {
    exists p :: IsPath(g, p) && p[0] == root && p[|p| - 1] == u
  }

  lemma PathSlice(g: Graph, p: seq<string>, lo: nat, hi: nat)
    requires IsPath(g, p) && lo < hi <= |p|
    ensures IsPath(g, p[lo..hi])
  {
    forall j | 0 <= j < hi - lo - 1 ensures Edge(g, p[lo..hi][j], p[lo..hi][j + 1]) {
      assert Edge(g, p[lo + j], p[lo + j + 1]);
    }
  }

  lemma PathJoin(g: Graph, p: seq<string>, c: seq<string>)
    requires IsPath(g, p) && IsPath(g, c) && p[|p| - 1] == c[0]
    ensures IsPath(g, p + c[1..])
  {
    var q := p + c[1..];
    forall j | 0 <= j < |q| - 1 ensures Edge(g, q[j], q[j + 1]) {
      if j < |p| - 1 {
        assert q[j] == p[j] && q[j + 1] == p[j + 1];
      } else {
        assert q[j] == c[j - |p| + 1] && q[j + 1] == c[j - |p| + 2];
      }
    }
  }

  /** A lasso splits into a walk to a node and a cycle through it. */
  lemma LassoSplits(g: Graph, root: string, p: seq<string>) returns (u: string)
    requires Lasso(g, root, p)
    ensures Reachable(g, root, u) && OnCycle(g, u)
  {
    var n := |p|;
    var s :| 0 <= s < n - 1 && p[s] == p[n - 1];
    u := p[s];
    PrefixReaches(g, p, s);
    SuffixCycles(g, p, s);
  }

  lemma PrefixReaches(g: Graph, p: seq<string>, s: nat)
    requires IsPath(g, p) && s < |p|
    ensures Reachable(g, p[0], p[s])
  {
    var q := p[..s + 1];
    PathSlice(g, p, 0, s + 1);
    assert q == p[0..s + 1];
    assert q[0] == p[0] && q[|q| - 1] == p[s];
  }

  lemma SuffixCycles(g: Graph, p: seq<string>, s: nat)
    requires IsPath(g, p) && s < |p| - 1 && p[s] == p[|p| - 1]
    ensures OnCycle(g, p[s])
  {
    var c := p[s..];
    PathSlice(g, p, s, |p|);
    assert c == p[s..|p|];
    assert c[0] == p[s] && c[|c| - 1] == p[s];
  }

  /** A walk to a node on a cycle, followed by the cycle, is a lasso. */
  lemma LassoJoins(g: Graph, root: string, u: string)
    requires Reachable(g, root, u) && OnCycle(g, u)
    ensures CycleReachable(g, root)
  {
    var p :| IsPath(g, p) && p[0] == root && p[|p| - 1] == u;
    var c :| IsPath(g, c) && |c| >= 2 && c[0] == u && c[|c| - 1] == u;
    PathJoin(g, p, c);
    var q := p + c[1..];
    assert q[|q| - 1] == u && q[|p| - 1] == u;
    assert q[..|q| - 1][|p| - 1] == u;
    assert Lasso(g, root, q);
  }

  /**
   * The lasso form says what one expects: a cycle is reachable exactly when
   * some node reachable from `root` lies on a cycle.
   */
  lemma LassoMeansReachableCycle(g: Graph, root: string)
    ensures CycleReachable(g, root) <==> exists u :: Reachable(g, root, u) && OnCycle(g, u)
  {
    if CycleReachable(g, root) {
      var p :| Lasso(g, root, p);
      var u := LassoSplits(g, root, p);
    }
    if u :| Reachable(g, root, u) && OnCycle(g, u) {
      LassoJoins(g, root, u);
    }
  }

  /** The first index of `x` in `order`. */
  function Pos(order: seq<string>, x: string): (r: nat)
    requires x in order
    ensures r < |order| && order[r] == x && x !in order[..r]
  {
    if order[0] == x then 0
    else
      assert order[1..][..Pos(order[1..], x)] == order[1..Pos(order[1..], x) + 1];
      1 + Pos(order[1..], x)
  }

  /**
   * The order in which nodes became `visited`: each one's successors had
   * all become `visited` before it.
   */
  ghost predicate Ranked(g: Graph, order: seq<string>) {
    forall j :: 0 <= j < |order| ==> forall w :: w in Adj(g, order[j]) ==> w in order[..j]
  }

  /** Along a walk that starts at a visited node, the first positions strictly fall. */
  lemma {:induction false} Descend(g: Graph, order: seq<string>, q: seq<string>)
    requires Ranked(g, order) && IsPath(g, q) && q[0] in order
    ensures forall t :: 0 <= t < |q| ==> q[t] in order
    ensures forall s, t :: 0 <= s < t < |q| ==> Pos(order, q[t]) < Pos(order, q[s])
  {
    var n := |q|;
    if n > 1 {
      var q' := q[..n - 1];
      assert IsPath(g, q') by {
        forall j | 0 <= j < |q'| - 1 ensures Edge(g, q'[j], q'[j + 1]) {
          assert Edge(g, q[j], q[j + 1]);
        }
      }
      Descend(g, order, q');
      var a := q[n - 2];
      assert a == q'[n - 2];
      var pa := Pos(order, a);
      assert Edge(g, q[n - 2], q[n - 1]);
      assert q[n - 1] in order[..pa];
      assert Pos(order, q[n - 1]) < pa;
      forall s, t | 0 <= s < t < n
        ensures Pos(order, q[t]) < Pos(order, q[s])
      {
        if t < n - 1 {
          assert q[t] == q'[t] && q[s] == q'[s];
        } else if s < n - 2 {
          assert q[s] == q'[s] && a == q'[n - 2];
        }
      }
    }
  }

  /** No walk from a visited node returns to a node it passed. */
  lemma NoLassoFromRanked(g: Graph, order: seq<string>, root: string)
    requires Ranked(g, order) && root in order
    ensures !CycleReachable(g, root)
  {
    if p :| Lasso(g, root, p) {
      var n := |p|;
      var s :| 0 <= s < n - 1 && p[s] == p[n - 1];
      Descend(g, order, p);
    }
  }

  /**
   * What holds while the search runs: the in-visiting nodes are exactly the
   * current DFS stack, a duplicate-free walk from `root`; the visited nodes
   * are exactly those of `order`, ranked below their successors.
   */
  ghost predicate Inv(g: Graph, root: string, vs: Visits, stack: seq<string>, order: seq<string>) {
    (|stack| > 0 ==> IsPath(g, stack) && stack[0] == root)
    && (forall a, b :: 0 <= a < b < |stack| ==> stack[a] != stack[b])
    && (forall k :: Status(vs, k) == InVisiting <==> k in stack)
    && (forall k :: Status(vs, k) == Visited <==> k in order)
    && Ranked(g, order)
  }

  lemma PathPrefix(g: Graph, p: seq<string>, m: nat)
    requires IsPath(g, p) && 1 <= m <= |p|
    ensures IsPath(g, p[..m])
  {
    forall j | 0 <= j < m - 1 ensures Edge(g, p[..m][j], p[..m][j + 1]) {
      assert Edge(g, p[j], p[j + 1]);
    }
  }

  lemma PathExtend(g: Graph, p: seq<string>, k: string)
    requires IsPath(g, p) && Edge(g, p[|p| - 1], k)
    ensures IsPath(g, p + [k])
  {
    var q := p + [k];
    forall j | 0 <= j < |q| - 1 ensures Edge(g, q[j], q[j + 1]) {
      if j < |p| - 1 {
        assert q[j] == p[j] && q[j + 1] == p[j + 1];
      }
    }
  }

  /** Leaving `v` with every successor visited: `v` moves from the stack to the order. */
  lemma FinishKeepsInv(g: Graph, root: string, v: string, vs: Visits, stack: seq<string>, order: seq<string>)
    requires Inv(g, root, vs, stack, order) && |stack| > 0 && stack[|stack| - 1] == v
    requires forall j :: 0 <= j < |Adj(g, v)| ==> Status(vs, Adj(g, v)[j]) == Visited
    ensures Inv(g, root, vs[v := Visited], stack[..|stack| - 1], order + [v])
  {
    var n := |stack|;
    var vs' := vs[v := Visited];
    var order' := order + [v];
    var stack' := stack[..n - 1];
    if n > 1 {
      PathPrefix(g, stack, n - 1);
    }
    forall k ensures Status(vs', k) == InVisiting <==> k in stack' {
      if k in stack' {
        var a :| 0 <= a < n - 1 && stack'[a] == k;
        assert stack[a] == k && stack[n - 1] == v;
      }
      if k != v && k in stack {
        var a :| 0 <= a < n && stack[a] == k;
        assert a < n - 1 && stack'[a] == k;
      }
    }
    forall j | 0 <= j < |order'|
      ensures forall w :: w in Adj(g, order'[j]) ==> w in order'[..j]
    {
      if j < |order| {
        assert order'[..j] == order[..j];
      } else {
        assert order'[..j] == order;
        forall w | w in Adj(g, v) ensures w in order {
          var t :| 0 <= t < |Adj(g, v)| && Adj(g, v)[t] == w;
        }
      }
    }
  }

  /** Descending into a not-yet-visited successor `k` of `v`. */
  lemma PushKeepsInv(g: Graph, root: string, v: string, k: string, vs: Visits,
                     stack: seq<string>, order: seq<string>)
    requires Inv(g, root, vs, stack, order) && |stack| > 0 && stack[|stack| - 1] == v
    requires Edge(g, v, k) && Status(vs, k) == NotVisiting
    ensures Inv(g, root, vs[k := InVisiting], stack + [k], order)
  {
    PathExtend(g, stack, k);
  }

  /** Meeting an in-visiting successor closes a lasso along the stack. */
  lemma BackEdgeIsCycle(g: Graph, root: string, v: string, k: string, vs: Visits,
                        stack: seq<string>, order: seq<string>)
    requires Inv(g, root, vs, stack, order) && |stack| > 0 && stack[|stack| - 1] == v
    requires Edge(g, v, k) && Status(vs, k) == InVisiting
    ensures CycleReachable(g, root)
  {
    PathExtend(g, stack, k);
    var p := stack + [k];
    assert p[..|p| - 1] == stack;
    assert Lasso(g, root, p);
  }

  /**
   * The search from `v`, resumed at its `i`-th successor: a reported cycle
   * is real; otherwise `v` leaves the stack as visited and the invariant
   * holds again, with `order` grown at its end.
   */
  lemma {:induction false} ScanCorrect(g: Graph, root: string, v: string, i: nat, vs: Visits,
                                       stack: seq<string>, order: seq<string>)
    returns (order': seq<string>)
    requires i <= |Adj(g, v)|
    requires Inv(g, root, vs, stack, order) && |stack| > 0 && stack[|stack| - 1] == v
    requires forall j :: 0 <= j < i ==> Status(vs, Adj(g, v)[j]) == Visited
    ensures Scan(g, v, i, vs).0 ==> CycleReachable(g, root)
    ensures !Scan(g, v, i, vs).0 ==>
      Inv(g, root, Scan(g, v, i, vs).1, stack[..|stack| - 1], order') && order <= order' && v in order'
    decreases |White(g, vs)|, |Adj(g, v)| - i, 1
  {
    order' := order;
    var adj := Adj(g, v);
    if i == |adj| {
      FinishKeepsInv(g, root, v, vs, stack, order);
      order' := order + [v];
    } else {
      var k := adj[i];
      assert Edge(g, v, k);
      match Status(vs, k)
      case InVisiting =>
        BackEdgeIsCycle(g, root, v, k, vs, stack, order);
      case Visited =>
        assert Scan(g, v, i, vs) == Scan(g, v, i + 1, vs);
        order' := ScanCorrect(g, root, v, i + 1, vs, stack, order);
      case NotVisiting =>
        order' := DescendCorrect(g, root, v, i, vs, stack, order);
    }
  }

  /** The step of `ScanCorrect` that descends into an unvisited successor. */
  lemma {:induction false} DescendCorrect(g: Graph, root: string, v: string, i: nat, vs: Visits,
                                          stack: seq<string>, order: seq<string>)
    returns (order': seq<string>)
    requires i < |Adj(g, v)| && Status(vs, Adj(g, v)[i]) == NotVisiting
    requires Inv(g, root, vs, stack, order) && |stack| > 0 && stack[|stack| - 1] == v
    requires forall j :: 0 <= j < i ==> Status(vs, Adj(g, v)[j]) == Visited
    ensures Scan(g, v, i, vs).0 ==> CycleReachable(g, root)
    ensures !Scan(g, v, i, vs).0 ==>
      Inv(g, root, Scan(g, v, i, vs).1, stack[..|stack| - 1], order') && order <= order' && v in order'
    decreases |White(g, vs)|, |Adj(g, v)| - i, 0
  {
    order' := order;
    var adj := Adj(g, v);
    var k := adj[i];
    assert Edge(g, v, k);
    InNodes(g, v, k);
    MarkWhite(g, vs, k, InVisiting);
    var vsk := vs[k := InVisiting];
    PushKeepsInv(g, root, v, k, vs, stack, order);
    var ord1 := ScanCorrect(g, root, k, 0, vsk, stack + [k], order);
    var (found, vs1) := IsCycle(g, k, false, vs);
    assert (found, vs1) == Scan(g, k, 0, vsk);
    SubsetSmaller(White(g, vs1), White(g, vsk));
    if !found {
      assert (stack + [k])[..|stack|] == stack;
      assert Scan(g, v, i, vs) == Scan(g, v, i + 1, vs1);
      forall j | 0 <= j < i + 1 ensures Status(vs1, adj[j]) == Visited {
        if j < i {
          assert adj[j] in order;
        }
      }
      order' := ScanCorrect(g, root, v, i + 1, vs1, stack, ord1);
    }
  }

  /**
   * `isCycle(root, true)` answers exactly whether a cycle is reachable from
   * `root`, whatever the visit map held before: the reset wipes it.
   */
  lemma IsCycleExact(g: Graph, root: string, vs: Visits)
    ensures IsCycle(g, root, true, vs).0 <==> CycleReachable(g, root)
  {
    var vs0 := Reset(vs)[root := InVisiting];
    assert Inv(g, root, vs0, [root], []);
    var order := ScanCorrect(g, root, root, 0, vs0, [root], []);
    if !IsCycle(g, root, true, vs).0 {
      NoLassoFromRanked(g, order, root);
    }
  }

  /**
   * `typEdge[a][b] = struct{}{}`: the edge is added unless present, and no
   * other edge changes.
   */
  function AddEdge(g: Graph, a: string, b: string): (r: Graph)
    ensures forall x, y :: Edge(r, x, y) <==> Edge(g, x, y) || (x == a && y == b)
  {
    if b in Adj(g, a) then g else g[a := Adj(g, a) + [b]]
  }

  /** `typEdge[t] = map[string]struct{}{}` unless `t` has an entry already: no edge changes. */
  function Register(g: Graph, t: string): (r: Graph)
    ensures t in r
    ensures forall x, y :: Edge(r, x, y) <==> Edge(g, x, y)
  {
    if t in g then g else g[t := []]
  }

  /** Every edge of `g1` is an edge of `g2`. */
  ghost predicate SubGraph(g1: Graph, g2: Graph) {
    forall a, b :: Edge(g1, a, b) ==> Edge(g2, a, b)
  }

  /** A reachable cycle stays reachable when edges are added. */
  lemma CycleMonotone(g1: Graph, g2: Graph, root: string)
    requires SubGraph(g1, g2) && CycleReachable(g1, root)
    ensures CycleReachable(g2, root)
  {
    var p :| Lasso(g1, root, p);
    assert forall j :: 0 <= j < |p| - 1 ==> Edge(g1, p[j], p[j + 1]);
    assert Lasso(g2, root, p);
  }

  /** A cycle reachable from a successor is reachable from its predecessor. */
  lemma CycleThroughEdge(g: Graph, a: string, b: string)
    requires Edge(g, a, b) && CycleReachable(g, b)
    ensures CycleReachable(g, a)
  {
    var p :| Lasso(g, b, p);
    var q := [a] + p;
    assert forall j :: 0 <= j < |q| - 1 ==> Edge(g, q[j], q[j + 1]) by {
      forall j | 0 <= j < |q| - 1
        ensures Edge(g, q[j], q[j + 1])
      {
        if j > 0 {
          assert q[j] == p[j - 1] && q[j + 1] == p[j];
        }
      }
    }
    assert q[|q| - 1] == p[|p| - 1];
    assert p[..|p| - 1] == q[1..|q| - 1];
    assert Lasso(g, a, q);
  }

  /** Graphs with the same edges have the same reachable cycles. */
  lemma SameEdgesSameCycles(g1: Graph, g2: Graph, root: string)
    requires SubGraph(g1, g2) && SubGraph(g2, g1)
    ensures CycleReachable(g1, root) <==> CycleReachable(g2, root)
  {
    if CycleReachable(g1, root) {
      CycleMonotone(g1, g2, root);
    }
    if CycleReachable(g2, root) {
      CycleMonotone(g2, g1, root);
    }
  }

  /**
   * The answer does not depend on the order the edge sets are walked in,
   * nor on what the visit map held: two edge maps with the same edges,
   * listed in any order, get the same answer.
   */
  lemma IsCycleOrderFree(g1: Graph, g2: Graph, v: string, vs1: Visits, vs2: Visits)
    requires SubGraph(g1, g2) && SubGraph(g2, g1)
    ensures IsCycle(g1, v, true, vs1).0 == IsCycle(g2, v, true, vs2).0
  {
    IsCycleExact(g1, v, vs1);
    IsCycleExact(g2, v, vs2);
    SameEdgesSameCycles(g1, g2, v);
  }

  /** A type that refers to itself is a cycle. */
  lemma SelfLoopIsCycle(g: Graph, v: string, vs: Visits)
    requires Edge(g, v, v)
    ensures IsCycle(g, v, true, vs).0
  {
    var p := [v, v];
    assert p[..1] == [v];
    assert Lasso(g, v, p);
    IsCycleExact(g, v, vs);
  }

  /**
   * A search that finds no cycle leaves `v` and every node reachable from
   * it `visited`.
   */
  lemma IsCycleVisitsReachable(g: Graph, v: string, vs: Visits)
    ensures !IsCycle(g, v, true, vs).0 ==>
      forall u :: Reachable(g, v, u) ==> Status(IsCycle(g, v, true, vs).1, u) == Visited
  {
    var vs0 := Reset(vs)[v := InVisiting];
    assert Inv(g, v, vs0, [v], []);
    var order := ScanCorrect(g, v, v, 0, vs0, [v], []);
    if !IsCycle(g, v, true, vs).0 {
      forall u | Reachable(g, v, u) ensures Status(IsCycle(g, v, true, vs).1, u) == Visited {
        var p :| IsPath(g, p) && p[0] == v && p[|p| - 1] == u;
        Descend(g, order, p);
      }
    }
  }
}
