/** The two traversals of linked structures read from memory: a breadth-first one and a stack-based one with a budget. */
module Traversal {
  import opened Sequences

  // ---------- Breadth-first over the entity list ----------

  /** The links and the entity pointer stored at a node's address. */
  datatype Node = Node(prev: nat, next: nat, entity: nat)

  /** Address 0 and the list head end the traversal. */
  predicate Real(head: nat, a: nat) {
    a != head && a != 0
  }

  /** A walk along links that only leaves real nodes. */
  ghost predicate Path(mem: map<nat, Node>, head: nat, p: seq<nat>) {
    p != [] && forall i :: 0 <= i < |p| - 1 ==> Linked(mem, head, p[i], p[i + 1])
  }

  predicate Linked(mem: map<nat, Node>, head: nat, a: nat, b: nat) {
    Real(head, a) && a in mem && (b == mem[a].prev || b == mem[a].next)
  }

  ghost predicate Reachable(mem: map<nat, Node>, head: nat, root: nat, a: nat) {
    exists p :: Path(mem, head, p) && p[0] == root && p[|p| - 1] == a
  }

  /** Every real node that can be reached can be read. */
  ghost predicate Readable(mem: map<nat, Node>, head: nat, root: nat) {
    forall a :: Reachable(mem, head, root, a) && Real(head, a) ==> a in mem
  }

  function Entity(mem: map<nat, Node>, head: nat, a: nat): seq<nat> {
    if Real(head, a) && a in mem && mem[a].entity != 0 then [mem[a].entity] else []
  }

  /** The entities of the real nodes among `visited` that have one, in order. */
  function Entities(mem: map<nat, Node>, head: nat, visited: seq<nat>): seq<nat> {
    if visited == [] then []
    else
      var a := visited[|visited| - 1];
      Entities(mem, head, visited[..|visited| - 1]) + Entity(mem, head, a)
  }

  lemma EntitiesAppend(mem: map<nat, Node>, head: nat, visited: seq<nat>, a: nat)
    ensures Entities(mem, head, visited + [a]) == Entities(mem, head, visited) + Entity(mem, head, a)
  {
    assert (visited + [a])[..|visited|] == visited;
  }

  /** The cached entities are those whose pointers the visited nodes hold, null pointers left out. */
  lemma {:induction false} EntitiesAre(mem: map<nat, Node>, head: nat, visited: seq<nat>, e: nat)
    ensures e in Entities(mem, head, visited) <==>
      e != 0 && exists a :: a in visited && a != head && a != 0 && a in mem && mem[a].entity == e
  {
    if visited != [] {
      var n := |visited| - 1;
      EntitiesAre(mem, head, visited[..n], e);
      assert visited == visited[..n] + [visited[n]];
    }
  }

  lemma ReachRoot(mem: map<nat, Node>, head: nat, root: nat)
    ensures Reachable(mem, head, root, root)
  {
    assert Path(mem, head, [root]);
  }

  lemma ReachNext(mem: map<nat, Node>, head: nat, root: nat, a: nat, b: nat)
    requires Reachable(mem, head, root, a) && Linked(mem, head, a, b)
    ensures Reachable(mem, head, root, b)
  {
    var p :| Path(mem, head, p) && p[0] == root && p[|p| - 1] == a;
    assert Path(mem, head, p + [b]);
  }

  /** A set of addresses that holds the root and follows every link holds everything reachable. */
  lemma {:induction false} ClosedHoldsPath(mem: map<nat, Node>, head: nat, visited: seq<nat>, p: seq<nat>)
    requires Path(mem, head, p) && p[0] in visited
    requires forall a, b :: a in visited && Linked(mem, head, a, b) ==> b in visited
    ensures p[|p| - 1] in visited
  {
    if |p| > 1 {
      assert Linked(mem, head, p[0], p[1]);
      assert Path(mem, head, p[1..]) by {
        forall i | 0 <= i < |p[1..]| - 1
          ensures Linked(mem, head, p[1..][i], p[1..][i + 1])
        {
          assert Linked(mem, head, p[i + 1], p[i + 2]);
        }
      }
      ClosedHoldsPath(mem, head, visited, p[1..]);
    }
  }

  /** Everything seen is reachable, and whatever a visited node links to is visited or waiting. */
  ghost predicate Frontier(mem: map<nat, Node>, head: nat, root: nat, visited: seq<nat>, queue: seq<nat>) {
    && (forall a :: a in visited ==> Reachable(mem, head, root, a))
    && (forall a :: a in queue ==> Reachable(mem, head, root, a))
    && (root in visited || root in queue)
    && forall a, b :: a in visited && Linked(mem, head, a, b) ==> b in visited || b in queue
  }

  /** Where the links of `a` go, in the order in which they are queued. */
  function Links(mem: map<nat, Node>, head: nat, a: nat): seq<nat> {
    if Real(head, a) && a in mem then [mem[a].prev, mem[a].next] else []
  }

  lemma LinksAre(mem: map<nat, Node>, head: nat, a: nat)
    ensures Links(mem, head, a) == if Real(head, a) && a in mem then [mem[a].prev, mem[a].next] else []
  {
  }

  lemma FrontierSkips(mem: map<nat, Node>, head: nat, root: nat, visited: seq<nat>, queue: seq<nat>)
    requires Frontier(mem, head, root, visited, queue) && queue != [] && queue[0] in visited
    ensures Frontier(mem, head, root, visited, queue[1..])
  {
    assert queue == [queue[0]] + queue[1..];
  }

  lemma FrontierVisits(mem: map<nat, Node>, head: nat, root: nat, visited: seq<nat>, queue: seq<nat>)
    requires Frontier(mem, head, root, visited, queue) && queue != []
    ensures Frontier(mem, head, root, visited + [queue[0]], queue[1..] + Links(mem, head, queue[0]))
  {
    hide Reachable;
    var a := queue[0];
    assert queue == [a] + queue[1..];
    if Real(head, a) && a in mem {
      ReachNext(mem, head, root, a, mem[a].prev);
      ReachNext(mem, head, root, a, mem[a].next);
      assert Links(mem, head, a)[0] == mem[a].prev && Links(mem, head, a)[1] == mem[a].next;
    }
  }

  /** With nothing waiting, exactly the reachable addresses have been visited. */
  lemma FrontierDone(mem: map<nat, Node>, head: nat, root: nat, visited: seq<nat>)
    requires Frontier(mem, head, root, visited, [])
    ensures forall a :: a in visited <==> Reachable(mem, head, root, a)
  {
    forall a | Reachable(mem, head, root, a)
      ensures a in visited
    {
      var p :| Path(mem, head, p) && p[0] == root && p[|p| - 1] == a;
      ClosedHoldsPath(mem, head, visited, p);
    }
  }

  // ---------- Nearer addresses first ----------

  /** The address can be reached over at most `d` links. */
  ghost predicate Within(mem: map<nat, Node>, head: nat, root: nat, a: nat, d: nat) {
    exists p :: Path(mem, head, p) && p[0] == root && p[|p| - 1] == a && |p| <= d + 1
  }

  /** No address is visited before one that can be reached over fewer links. */
  ghost predicate NearestFirst(mem: map<nat, Node>, head: nat, root: nat, visited: seq<nat>) {
    forall i, j, d :: 0 <= i < j < |visited| && Within(mem, head, root, visited[j], d) ==>
      Within(mem, head, root, visited[i], d)
  }

  lemma WithinMore(mem: map<nat, Node>, head: nat, root: nat, a: nat, d: nat, e: nat)
    requires Within(mem, head, root, a, d) && d <= e
    ensures Within(mem, head, root, a, e)
  {
  }

  lemma WithinNext(mem: map<nat, Node>, head: nat, root: nat, a: nat, b: nat, d: nat)
    requires Within(mem, head, root, a, d) && Linked(mem, head, a, b)
    ensures Within(mem, head, root, b, d + 1)
  {
    var p :| Path(mem, head, p) && p[0] == root && p[|p| - 1] == a && |p| <= d + 1;
    assert Path(mem, head, p + [b]);
  }

  /** One link less leads to an address that links here, unless this is the root. */
  lemma WithinLast(mem: map<nat, Node>, head: nat, root: nat, b: nat, d: nat) returns (a: nat)
    requires Within(mem, head, root, b, d + 1)
    ensures Within(mem, head, root, b, d) || (Within(mem, head, root, a, d) && Linked(mem, head, a, b))
  {
    var p :| Path(mem, head, p) && p[0] == root && p[|p| - 1] == b && |p| <= d + 2;
    a := root;
    if |p| > 1 {
      var q := p[..|p| - 1];
      a := q[|q| - 1];
      assert Path(mem, head, q);
      assert Linked(mem, head, p[|p| - 2], p[|p| - 1]);
    }
  }

  lemma WithinRoot(mem: map<nat, Node>, head: nat, root: nat)
    ensures Within(mem, head, root, root, 0)
    ensures forall a :: Within(mem, head, root, a, 0) ==> a == root
  {
    assert Path(mem, head, [root]);
  }

  /**
   The first `k` waiting addresses can be reached over `d` links and the others over one more; whatever is nearer has
   been visited, and whatever is that near has been visited or is among the first `k`.
   */
  ghost predicate Layers(mem: map<nat, Node>, head: nat, root: nat, visited: seq<nat>, queue: seq<nat>, d: nat, k: nat) {
    && k <= |queue|
    && (forall a :: a in visited ==> Within(mem, head, root, a, d))
    && (forall i :: 0 <= i < k ==> Within(mem, head, root, queue[i], d))
    && (forall i :: k <= i < |queue| ==> Within(mem, head, root, queue[i], d + 1))
    && (forall a, e: nat :: e < d && Within(mem, head, root, a, e) ==> a in visited)
    && (forall a :: Within(mem, head, root, a, d) ==> a in visited || a in queue[..k])
  }

  lemma LayersStart(mem: map<nat, Node>, head: nat, root: nat)
    ensures Layers(mem, head, root, [], [root], 0, 1)
  {
    hide Within;
    WithinRoot(mem, head, root);
    assert [root][..1] == [root];
  }

  /** When nothing at distance `d` waits any more, all that waits is at distance `d + 1`. */
  lemma LayersNext(mem: map<nat, Node>, head: nat, root: nat, visited: seq<nat>, queue: seq<nat>, d: nat)
    requires Frontier(mem, head, root, visited, queue) && Layers(mem, head, root, visited, queue, d, 0)
    ensures Layers(mem, head, root, visited, queue, d + 1, |queue|)
  {
    hide Within, Reachable;
    forall a, e: nat | e <= d + 1 && Within(mem, head, root, a, e)
      ensures a in visited || (e == d + 1 && a in queue)
    {
      if e == d + 1 {
        var b := WithinLast(mem, head, root, a, d);
      }
    }
    forall a | a in visited
      ensures Within(mem, head, root, a, d + 1)
    {
      WithinMore(mem, head, root, a, d, d + 1);
    }
    assert queue[..|queue|] == queue;
  }

  lemma LayersSkip(mem: map<nat, Node>, head: nat, root: nat, visited: seq<nat>, queue: seq<nat>, d: nat, k: nat)
    requires Layers(mem, head, root, visited, queue, d, k) && k > 0 && queue[0] in visited
    ensures Layers(mem, head, root, visited, queue[1..], d, k - 1)
  {
    hide Within;
    assert queue[..k] == [queue[0]] + queue[1..][..k - 1];
  }

  lemma LayersVisit(mem: map<nat, Node>, head: nat, root: nat, visited: seq<nat>, queue: seq<nat>, d: nat, k: nat)
    requires Layers(mem, head, root, visited, queue, d, k) && k > 0 && queue[0] !in visited
    requires NearestFirst(mem, head, root, visited)
    ensures Layers(mem, head, root, visited + [queue[0]], queue[1..] + Links(mem, head, queue[0]), d, k - 1)
    ensures NearestFirst(mem, head, root, visited + [queue[0]])
  {
    hide Within;
    var a := queue[0];
    var rest := queue[1..] + Links(mem, head, a);
    assert queue[..k] == [a] + rest[..k - 1];
    forall b | b in Links(mem, head, a)
      ensures Within(mem, head, root, b, d + 1)
    {
      WithinNext(mem, head, root, a, b, d);
    }
    forall i | k - 1 <= i < |rest|
      ensures Within(mem, head, root, rest[i], d + 1)
    {
      if i < |queue| - 1 {
        assert rest[i] == queue[i + 1];
      } else {
        assert rest[i] in Links(mem, head, a);
      }
    }
    forall i, e | 0 <= i < |visited| && Within(mem, head, root, a, e)
      ensures Within(mem, head, root, visited[i], e)
    {
      WithinMore(mem, head, root, visited[i], d, e);
    }
  }

  lemma FrontierStart(mem: map<nat, Node>, head: nat, root: nat)
    ensures Frontier(mem, head, root, [], [root]) && Entities(mem, head, []) == []
  {
    hide Reachable;
    ReachRoot(mem, head, root);
  }

  lemma FrontierReaches(mem: map<nat, Node>, head: nat, root: nat, visited: seq<nat>, queue: seq<nat>)
    requires Frontier(mem, head, root, visited, queue) && queue != []
    ensures Reachable(mem, head, root, queue[0])
  {
  }

  /**
   Visits every reachable address exactly once, nearer ones first, and caches the entities in the order of the visits.
   */
  method UpdateEntities(mem: map<nat, Node>, head: nat, root: nat) returns (visited: seq<nat>, cache: seq<nat>)
    requires Readable(mem, head, root)
    ensures NoDup(visited)
    ensures head != 0 ==> forall a :: a in visited <==> Reachable(mem, head, root, a)
    ensures NearestFirst(mem, head, root, visited)
    ensures head == 0 ==> visited == []
    ensures cache == Entities(mem, head, visited)
  {
    hide Reachable, Links, Within, NearestFirst, Layers, Frontier, Entities, Entity;
    visited, cache := [], [];
    NothingVisited(mem, head, root);
    FrontierStart(mem, head, root);
    if head == 0 {
      return;
    }
    var queue := [root];
    LayersStart(mem, head, root);
    ghost var unseen: set<nat>, d: nat, k: nat := mem.Keys + {head, 0}, 0, 1;
    while |queue| > 0
      invariant NoDup(visited) && Frontier(mem, head, root, visited, queue)
      invariant Layers(mem, head, root, visited, queue, d, k) && NearestFirst(mem, head, root, visited)
      invariant forall a :: a in unseen <==> (a in mem || a == head || a == 0) && a !in visited
      invariant cache == Entities(mem, head, visited)
      decreases unseen, |queue|
    {
      var a := queue[0];
      FrontierReaches(mem, head, root, visited, queue);
      if k == 0 {
        LayersNext(mem, head, root, visited, queue, d);
        d, k := d + 1, |queue|;
      }
      FrontierVisits(mem, head, root, visited, queue);
      if a in visited {
        FrontierSkips(mem, head, root, visited, queue);
        LayersSkip(mem, head, root, visited, queue, d, k);
        queue, k := queue[1..], k - 1;
        continue;
      }
      LayersVisit(mem, head, root, visited, queue, d, k);
      ghost var next := queue[1..] + Links(mem, head, a);
      k := k - 1;
      queue := queue[1..];
      cache := cache + Entity(mem, head, a);
      EntitiesAppend(mem, head, visited, a);
      visited := visited + [a];
      unseen := unseen - {a};
      if a != head && a != 0 {
        queue := queue + [mem[a].prev, mem[a].next];
      }
      LinksAre(mem, head, a);
      assert queue == next;
    }
    assert queue == [];
    FrontierDone(mem, head, root, visited);
  }

  lemma NothingVisited(mem: map<nat, Node>, head: nat, root: nat)
    ensures NearestFirst(mem, head, root, [])
  {
  }

  // ---------- The hash map, a search tree read with a budget ----------

  /** A node of the map's tree; `isEnd` is the flag of the end node. */
  datatype HashNode = HashNode(prev: nat, next: nat, isEnd: bool, key: string, value: nat)

  const BUDGET: nat := 100

  /** Every link of every node can be read. */
  ghost predicate Closed(mem: map<nat, HashNode>) {
    && (forall a {:trigger mem[a].prev} :: a in mem ==> mem[a].prev in mem)
    && (forall a {:trigger mem[a].next} :: a in mem ==> mem[a].next in mem)
  }

  ghost predicate InMemory(mem: map<nat, HashNode>, stack: seq<nat>) {
    forall a :: a in stack ==> a in mem
  }

  function Pushed(mem: map<nat, HashNode>, stack: seq<nat>, a: nat): (r: seq<nat>)
    requires a in mem && InMemory(mem, stack)
    ensures InMemory(mem, r)
  {
    if mem[a].isEnd then stack else stack + [a]
  }

  /** What the walk does with the top of the stack: the next link ends up above the previous one. */
  function Popped(mem: map<nat, HashNode>, stack: seq<nat>): (r: seq<nat>)
    requires Closed(mem) && stack != [] && InMemory(mem, stack)
    ensures InMemory(mem, r)
  {
    var a := stack[|stack| - 1];
    Pushed(mem, Pushed(mem, stack[..|stack| - 1], mem[a].prev), mem[a].next)
  }

  function Stored(mem: map<nat, HashNode>, a: nat, result: map<string, nat>): map<string, nat>
    requires a in mem
  {
    if mem[a].isEnd then result else result[mem[a].key := mem[a].value]
  }

  function Walk(mem: map<nat, HashNode>, stack: seq<nat>, budget: nat, result: map<string, nat>): map<string, nat>
    requires Closed(mem) && InMemory(mem, stack)
    decreases budget
  {
    if stack == [] || budget == 0 then result
    else Walk(mem, Popped(mem, stack), budget - 1, Stored(mem, stack[|stack| - 1], result))
  }

  method ReadHashMap(mem: map<nat, HashNode>, root: nat) returns (result: map<string, nat>)
    requires Closed(mem) && root in mem
    ensures result == Walk(mem, [root], BUDGET, map[])
  {
    hide Walk, Pushed;
    result := map[];
    var stack := [root];
    var counter := BUDGET;
    while |stack| != 0 && counter > 0
      invariant 0 <= counter && InMemory(mem, stack)
      invariant Walk(mem, stack, counter, result) == Walk(mem, [root], BUDGET, map[])
      decreases counter
    {
      WalkStep(mem, stack, counter, result);
      counter := counter - 1;
      var top := stack[|stack| - 1];
      var node := mem[top];
      stack := stack[..|stack| - 1];
      if !node.isEnd {
        result := result[node.key := node.value];
      }
      stack := Push(mem, stack, node.prev);
      stack := Push(mem, stack, node.next);
    }
    WalkEnds(mem, stack, counter, result);
  }

  /** End nodes are not pushed. */
  method Push(mem: map<nat, HashNode>, stack: seq<nat>, a: nat) returns (r: seq<nat>)
    requires a in mem && InMemory(mem, stack)
    ensures r == Pushed(mem, stack, a)
  {
    r := stack;
    if !mem[a].isEnd {
      r := stack + [a];
    }
  }

  lemma WalkStep(mem: map<nat, HashNode>, stack: seq<nat>, budget: nat, result: map<string, nat>)
    requires Closed(mem) && InMemory(mem, stack) && stack != [] && budget > 0
    ensures Walk(mem, stack, budget, result)
         == Walk(mem, Popped(mem, stack), budget - 1, Stored(mem, stack[|stack| - 1], result))
  {
  }

  lemma WalkEnds(mem: map<nat, HashNode>, stack: seq<nat>, budget: nat, result: map<string, nat>)
    requires Closed(mem) && InMemory(mem, stack) && (stack == [] || budget == 0)
    ensures Walk(mem, stack, budget, result) == result
  {
  }

  // ---------- What the walk collects from a tree ----------

  datatype Tree = End | Branch(prev: Tree, key: string, value: nat, next: Tree) {
    function Size(): nat {
      match this
      case End => 0
      case Branch(prev, _, _, next) => 1 + prev.Size() + next.Size()
    }

    function Keys(): set<string> {
      match this
      case End => {}
      case Branch(prev, key, _, next) => {key} + prev.Keys() + next.Keys()
    }

    /** No key occurs twice. */
    predicate Distinct() {
      match this
      case End => true
      case Branch(prev, key, _, next) =>
        prev.Distinct() && next.Distinct() && key !in prev.Keys() && key !in next.Keys() && prev.Keys() !! next.Keys()
    }
  }

  /** The memory holds the tree at this address. */
  ghost predicate Holds(mem: map<nat, HashNode>, a: nat, t: Tree)
    decreases t
  {
    a in mem && match t
      case End => mem[a].isEnd
      case Branch(prev, key, value, next) =>
        && !mem[a].isEnd && mem[a].key == key && mem[a].value == value
        && Holds(mem, mem[a].prev, prev) && Holds(mem, mem[a].next, next)
  }

  /** The order of the walk: a node, what is behind its next link, what is behind its previous link. */
  function Order(t: Tree): seq<(string, nat)> {
    match t
    case End => []
    case Branch(prev, key, value, next) => [(key, value)] + (Order(next) + Order(prev))
  }

  function Collect(items: seq<(string, nat)>, result: map<string, nat>): map<string, nat>
    decreases items
  {
    if items == [] then result else Collect(items[1..], result[items[0].0 := items[0].1])
  }

  /** The order of a stack of trees, the top of the stack first. */
  function OrderAll(ts: seq<Tree>): seq<(string, nat)> {
    if ts == [] then [] else Order(ts[|ts| - 1]) + OrderAll(ts[..|ts| - 1])
  }

  function Take<T>(s: seq<T>, n: nat): seq<T> {
    if |s| <= n then s else s[..n]
  }

  function PushedTree(ts: seq<Tree>, t: Tree): seq<Tree> {
    if t.End? then ts else ts + [t]
  }

  lemma OrderPushed(ts: seq<Tree>, t: Tree)
    ensures OrderAll(PushedTree(ts, t)) == Order(t) + OrderAll(ts)
  {
    assert t.Branch? ==> (ts + [t])[..|ts|] == ts;
  }

  ghost predicate AllHold(mem: map<nat, HashNode>, stack: seq<nat>, ts: seq<Tree>) {
    |stack| == |ts| && forall i :: 0 <= i < |ts| ==> ts[i].Branch? && Holds(mem, stack[i], ts[i])
  }

  lemma HoldPushed(mem: map<nat, HashNode>, stack: seq<nat>, ts: seq<Tree>, a: nat, t: Tree)
    requires InMemory(mem, stack) && AllHold(mem, stack, ts) && Holds(mem, a, t)
    ensures AllHold(mem, Pushed(mem, stack, a), PushedTree(ts, t))
  {
  }

  /** The walk over a stack of trees stores the first `budget` nodes of their order. */
  lemma {:induction false} WalkTakes(mem: map<nat, HashNode>, stack: seq<nat>, ts: seq<Tree>, budget: nat, result: map<string, nat>)
    requires Closed(mem) && InMemory(mem, stack) && AllHold(mem, stack, ts)
    ensures Walk(mem, stack, budget, result) == Collect(Take(OrderAll(ts), budget), result)
    decreases budget
  {
    hide Pushed, PushedTree, Order;
    if stack == [] || budget == 0 {
      assert Take(OrderAll(ts), budget) == [];
    } else {
      var n := |ts| - 1;
      var a, t := stack[n], ts[n];
      var low := PushedTree(ts[..n], t.prev);
      var rest := PushedTree(low, t.next);
      HoldPushed(mem, stack[..n], ts[..n], mem[a].prev, t.prev);
      HoldPushed(mem, Pushed(mem, stack[..n], mem[a].prev), low, mem[a].next, t.next);
      OrderPushed(ts[..n], t.prev);
      OrderPushed(low, t.next);
      OrderTop(ts);
      WalkTakes(mem, Popped(mem, stack), rest, budget - 1, Stored(mem, a, result));
      var all, tail := OrderAll(ts), OrderAll(rest);
      assert tail == Order(t.next) + Order(t.prev) + OrderAll(ts[..n]);
      assert Take(all, budget) == [(t.key, t.value)] + Take(tail, budget - 1);
      assert Take(all, budget)[1..] == Take(tail, budget - 1);
    }
  }

  lemma OrderTop(ts: seq<Tree>)
    requires ts != [] && ts[|ts| - 1].Branch?
    ensures var t := ts[|ts| - 1];
      OrderAll(ts) == [(t.key, t.value)] + (Order(t.next) + Order(t.prev) + OrderAll(ts[..|ts| - 1]))
  {
  }

  // ---------- A tree is read whole exactly when it fits the budget ----------

  function KeysIn(items: seq<(string, nat)>): set<string> {
    set i | 0 <= i < |items| :: items[i].0
  }

  ghost predicate DistinctItems(items: seq<(string, nat)>) {
    forall i, j :: 0 <= i < j < |items| ==> items[i].0 != items[j].0
  }

  lemma {:induction false} OrderFacts(t: Tree)
    ensures |Order(t)| == t.Size() && KeysIn(Order(t)) == t.Keys()
    ensures t.Distinct() ==> DistinctItems(Order(t))
  {
    match t
    case End =>
    case Branch(prev, key, value, next) =>
      OrderFacts(prev);
      OrderFacts(next);
      KeysAppend(Order(next), Order(prev));
      KeysAppend([(key, value)], Order(next) + Order(prev));
      assert KeysIn([(key, value)]) == {key} by {
        assert [(key, value)][0].0 == key;
      }
  }

  lemma KeysAppend(a: seq<(string, nat)>, b: seq<(string, nat)>)
    ensures KeysIn(a + b) == KeysIn(a) + KeysIn(b)
    ensures DistinctItems(a) && DistinctItems(b) && KeysIn(a) !! KeysIn(b) ==> DistinctItems(a + b)
  {
    forall k | k in KeysIn(a) + KeysIn(b)
      ensures k in KeysIn(a + b)
    {
      if k in KeysIn(a) {
        var i :| 0 <= i < |a| && a[i].0 == k;
        assert (a + b)[i].0 == k;
      } else {
        var i :| 0 <= i < |b| && b[i].0 == k;
        assert (a + b)[|a| + i].0 == k;
      }
    }
    forall i, j | 0 <= i < j < |a + b| && DistinctItems(a) && DistinctItems(b) && KeysIn(a) !! KeysIn(b)
      ensures (a + b)[i].0 != (a + b)[j].0
    {
      if i < |a| <= j {
        assert a[i].0 in KeysIn(a) && b[j - |a|].0 in KeysIn(b);
      }
    }
  }

  lemma {:induction false} CollectKeys(items: seq<(string, nat)>, result: map<string, nat>)
    ensures Collect(items, result).Keys == result.Keys + KeysIn(items)
    ensures DistinctItems(items) ==> forall i :: 0 <= i < |items| ==>
      items[i].0 in Collect(items, result) && Collect(items, result)[items[i].0] == items[i].1
    ensures forall k :: k in result && k !in KeysIn(items) ==>
      k in Collect(items, result) && Collect(items, result)[k] == result[k]
    decreases items
  {
    if items != [] {
      var head, tail := items[0], items[1..];
      CollectKeys(tail, result[head.0 := head.1]);
      KeysAppend([head], tail);
      assert items == [head] + tail;
      assert KeysIn([head]) == {head.0} by {
        assert [head][0].0 == head.0;
      }
    }
  }

  lemma {:induction false} KeyCount(items: seq<(string, nat)>)
    requires DistinctItems(items)
    ensures |KeysIn(items)| == |items|
  {
    if items != [] {
      var n := |items| - 1;
      KeyCount(items[..n]);
      KeysAppend(items[..n], [items[n]]);
      assert items == items[..n] + [items[n]];
      assert KeysIn([items[n]]) == {items[n].0} by {
        assert [items[n]][0].0 == items[n].0;
      }
      assert items[n].0 !in KeysIn(items[..n]);
    }
  }

  /** The memory holds the tree as a map's: the root of an empty map is an end node, whose links lead to end nodes. */
  ghost predicate HoldsMap(mem: map<nat, HashNode>, root: nat, t: Tree)
    requires Closed(mem)
  {
    && Holds(mem, root, t)
    && (t.End? ==> mem[mem[root].prev].isEnd && mem[mem[root].next].isEnd)
  }

  lemma EmptyMap(mem: map<nat, HashNode>, root: nat)
    requires Closed(mem) && HoldsMap(mem, root, End)
    ensures Walk(mem, [root], BUDGET, map[]) == map[]
  {
    WalkStep(mem, [root], BUDGET, map[]);
    WalkEnds(mem, [], BUDGET - 1, map[]);
  }

  /** The map of a tree without repeated keys is read whole exactly when the tree has at most 100 nodes. */
  lemma ReadsWholeTree(mem: map<nat, HashNode>, root: nat, t: Tree)
    requires Closed(mem) && HoldsMap(mem, root, t) && t.Distinct()
    ensures var result := Walk(mem, [root], BUDGET, map[]);
      && (result.Keys == t.Keys() <==> t.Size() <= 100)
      && (t.Size() <= 100 ==> forall i :: 0 <= i < |Order(t)| ==>
            Order(t)[i].0 in result && result[Order(t)[i].0] == Order(t)[i].1)
  {
    if t.End? {
      EmptyMap(mem, root);
    } else {
      WalkTakes(mem, [root], [t], BUDGET, map[]);
      assert OrderAll([t]) == Order(t) + OrderAll([]) == Order(t);
      OrderFacts(t);
      var read := Take(Order(t), BUDGET);
      CollectKeys(read, map[]);
      KeyCount(read);
      KeyCount(Order(t));
    }
  }

  /** A chain of `n` nodes at the addresses 1 to `n`; address 0 holds the end node. */
  function ChainAt(a: nat, n: nat): Tree
    requires 0 < a <= n + 1
    decreases n + 1 - a
  {
    if a > n then End else Branch(End, seq(a, _ => 'x'), a, ChainAt(a + 1, n))
  }

  function ChainNode(a: nat, n: nat): HashNode {
    HashNode(0, if a == 0 || a >= n then 0 else a + 1, a == 0, seq(a, _ => 'x'), a)
  }

  function Upto(n: nat): (s: set<nat>)
    ensures forall a: nat :: a in s <==> a <= n
  {
    if n == 0 then {0} else Upto(n - 1) + {n}
  }

  function ChainMem(n: nat): map<nat, HashNode> {
    map a: nat | a in Upto(n) :: ChainNode(a, n)
  }

  lemma {:induction false} ChainHolds(a: nat, n: nat)
    requires 0 < a <= n
    ensures Holds(ChainMem(n), a, ChainAt(a, n)) && ChainAt(a, n).Size() == n + 1 - a && ChainAt(a, n).Distinct()
    ensures forall key :: key in ChainAt(a, n).Keys() ==> |key| >= a
    decreases n - a
  {
    if a < n {
      ChainHolds(a + 1, n);
    }
  }

  /** A tree of 101 nodes of which not all keys are found. */
  lemma LongChainOccurs()
    ensures exists mem: map<nat, HashNode>, root: nat, t: Tree ::
      && Closed(mem) && HoldsMap(mem, root, t) && t.Distinct() && t.Size() == BUDGET + 1
      && Walk(mem, [root], BUDGET, map[]).Keys != t.Keys()
  {
    hide Walk, ChainMem, ChainAt, Closed, Holds;
    var n := BUDGET + 1;
    ChainHolds(1, n);
    ChainClosed(n);
    ReadsWholeTree(ChainMem(n), 1, ChainAt(1, n));
  }

  lemma ChainClosed(n: nat)
    requires n > 0
    ensures Closed(ChainMem(n)) && ChainAt(1, n).Branch?
  {
  }
}
