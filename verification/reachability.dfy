/** Control reachability with group inheritance.

    A topological order is computed by counting indegrees; two passes in reverse
    order close the control and containment relations, and one forward pass hands
    a compound command's outside successors to its members.  Bitsets are sets. */
module Reachability {
  import opened NodeLists
  import opened Relation
  import opened DepGraph

  // ---- Topological order ----

  // Control edges into v that do not leave a node already taken from the queue.
  ghost function Pending(g: Graph, v: nat, taken: set<nat>): set<nat>
    requires g.Valid()
  {
    set e | 0 <= e < |g.edges| && g.Control(e) && g.edges[e].to == v && g.edges[e].from !in taken
  }

  // The order lists every node once, and every control edge goes forward in it.
  ghost predicate Topological(g: Graph, order: seq<nat>)
    requires g.Valid()
  {
    && Distinct(order)
    && InRange(order, |g.nodes|)
    && (forall n: nat :: n in order <==> n < |g.nodes|)
    && Forward(g, order)
  }

  ghost predicate Forward(g: Graph, queue: seq<nat>)
    requires g.Valid()
  {
    forall e, j :: 0 <= e < |g.edges| && g.Control(e) && 0 <= j < |queue| && g.edges[e].to == queue[j] ==>
      g.edges[e].from in queue[..j]
  }

  // ---- Indegrees ----

  ghost function Incoming(g: Graph, v: nat, k: nat): set<nat>
    requires g.Valid()
  {
    set e | 0 <= e < |g.edges| && e < k && g.Control(e) && g.edges[e].to == v
  }

  method CountIndegrees(g: Graph) returns (indegree: array<nat>)
    requires g.Valid()
    ensures fresh(indegree) && indegree.Length == |g.nodes|
    ensures forall v :: 0 <= v < |g.nodes| ==> indegree[v] == |Pending(g, v, {})|
  {
    indegree := new nat[|g.nodes|](_ => 0);
    assert forall v :: 0 <= v < |g.nodes| ==> Incoming(g, v, 0) == {};
    for ei := 0 to |g.edges|
      invariant forall v :: 0 <= v < |g.nodes| ==> indegree[v] == |Incoming(g, v, ei)|
    {
      IncomingGrows(g, ei);
      if g.Control(ei) {
        indegree[g.edges[ei].to] := indegree[g.edges[ei].to] + 1;
      }
    }
    forall v | 0 <= v < |g.nodes| ensures Incoming(g, v, |g.edges|) == Pending(g, v, {}) {
    }
  }

  lemma IncomingGrows(g: Graph, ei: nat)
    requires g.Valid() && ei < |g.edges|
    ensures forall v :: 0 <= v < |g.nodes| ==>
      |Incoming(g, v, ei + 1)| == |Incoming(g, v, ei)| + if g.Control(ei) && g.edges[ei].to == v then 1 else 0
  {
    forall v | 0 <= v < |g.nodes|
      ensures |Incoming(g, v, ei + 1)| == |Incoming(g, v, ei)| + if g.Control(ei) && g.edges[ei].to == v then 1 else 0
    {
      if g.Control(ei) && g.edges[ei].to == v {
        assert Incoming(g, v, ei + 1) == Incoming(g, v, ei) + {ei};
      } else {
        assert Incoming(g, v, ei + 1) == Incoming(g, v, ei);
      }
    }
  }

  // ---- Kahn's loop ----

  // Control edges into v that are still counted while the out-list of `node` is
  // walked and the cursor stands at `cursor`.
  ghost function Counted(g: Graph, v: nat, taken: set<nat>, node: nat, cursor: nat): set<nat>
    requires g.Valid()
  {
    set e | 0 <= e < |g.edges| && g.Control(e) && g.edges[e].to == v && g.edges[e].from !in taken
      && !(g.edges[e].from == node && Passed(g, Out, node, cursor, e))
  }

  ghost predicate Degrees(g: Graph, indegree: seq<nat>, taken: set<nat>, node: nat, cursor: nat)
    requires g.Valid()
  {
    && |indegree| == |g.nodes|
    && forall v :: 0 <= v < |g.nodes| ==> indegree[v] == |Counted(g, v, taken, node, cursor)|
  }

  ghost predicate DegreesBetween(g: Graph, indegree: seq<nat>, taken: set<nat>)
    requires g.Valid()
  {
    |indegree| == |g.nodes| && forall v :: 0 <= v < |g.nodes| ==> indegree[v] == |Pending(g, v, taken)|
  }

  // The queue holds the nodes whose count is zero, each once, after their predecessors.
  ghost predicate Queued(g: Graph, indegree: seq<nat>, queue: seq<nat>)
    requires g.Valid()
  {
    && |indegree| == |g.nodes|
    && Distinct(queue) && InRange(queue, |g.nodes|)
    && (forall v :: 0 <= v < |g.nodes| ==> (v in queue <==> indegree[v] == 0))
    && Forward(g, queue)
  }

  lemma WalkStart(g: Graph, a: Lists, indegree: seq<nat>, taken: set<nat>, node: nat)
    requires g.Valid() && Threaded(g, Out, a, 0) && node < |g.nodes| && DegreesBetween(g, indegree, taken)
    ensures Degrees(g, indegree, taken, node, a.head[node])
  {
    ListStart(g, Out, a, node);
    forall v | 0 <= v < |g.nodes| ensures Counted(g, v, taken, node, a.head[node]) == Pending(g, v, taken) {
    }
  }

  lemma WalkEnd(g: Graph, indegree: seq<nat>, taken: set<nat>, node: nat)
    requires g.Valid() && Degrees(g, indegree, taken, node, NIL)
    ensures DegreesBetween(g, indegree, taken + {node})
  {
    forall v | 0 <= v < |g.nodes| ensures Counted(g, v, taken, node, NIL) == Pending(g, v, taken + {node}) {
    }
  }

  lemma WalkStep(g: Graph, a: Lists, v: nat, taken: set<nat>, node: nat, cursor: nat)
    requires g.Valid() && Threaded(g, Out, a, 0) && node < |g.nodes| && node !in taken
    requires cursor != NIL && OnList(g, Out, node, cursor)
    ensures var before, after := Counted(g, v, taken, node, cursor), Counted(g, v, taken, node, a.next[cursor]);
      if g.Control(cursor) && g.edges[cursor].to == v then cursor in before && |after| == |before| - 1 else after == before
  {
    hide Threaded;
    ListStep(g, Out, a, node, cursor);
    var before, after := Counted(g, v, taken, node, cursor), Counted(g, v, taken, node, a.next[cursor]);
    if g.Control(cursor) && g.edges[cursor].to == v {
      assert before == after + {cursor};
    } else {
      assert before == after;
    }
  }

  // A node whose last counted predecessor has been taken goes to the end of the queue.
  lemma Enqueue(g: Graph, indegree: seq<nat>, queue: seq<nat>, taken: set<nat>, node: nat, cursor: nat, v: nat)
    requires g.Valid() && Degrees(g, indegree, taken, node, cursor)
    requires v < |g.nodes| && indegree[v] == 0 && v !in queue
    requires taken <= Members(queue) && node in queue
    requires Distinct(queue) && InRange(queue, |g.nodes|) && Forward(g, queue)
    ensures Distinct(queue + [v]) && InRange(queue + [v], |g.nodes|) && Forward(g, queue + [v]) && |queue| < |g.nodes|
  {
    assert Counted(g, v, taken, node, cursor) == {};
    var longer := queue + [v];
    DistinctBounded(longer, |g.nodes|);
    forall e, j | 0 <= e < |g.edges| && g.Control(e) && 0 <= j < |longer| && g.edges[e].to == longer[j]
      ensures g.edges[e].from in longer[..j]
    {
      if j < |queue| {
        assert longer[..j] == queue[..j];
      } else {
        assert e !in Counted(g, v, taken, node, cursor);
        assert longer[..j] == queue;
      }
    }
  }

  /** Take one node from the queue: decrement the count of every control
      successor and queue those that reach zero. */
  method Relax(g: Graph, a: Lists, indegree: array<nat>, queue: array<nat>, head: nat, tail: nat) returns (tail': nat)
    requires g.Valid() && Threaded(g, Out, a, 0) && indegree != queue
    requires indegree.Length == queue.Length == |g.nodes| && head < tail <= queue.Length
    requires DegreesBetween(g, indegree[..], Members(queue[..head])) && Queued(g, indegree[..], queue[..tail])
    modifies indegree, queue
    ensures tail <= tail' <= queue.Length && queue[..tail] == old(queue[..tail])
    ensures DegreesBetween(g, indegree[..], Members(queue[..head + 1])) && Queued(g, indegree[..], queue[..tail'])
  {
    hide Threaded;
    hide Counted;
    hide Forward;
    hide Next;
    hide Distinct;
    ghost var wasQueue := queue[..tail];
    var node := queue[head];
    ghost var taken := Members(wasQueue[..head]);
    assert queue[..head] == wasQueue[..head] && node == wasQueue[head];
    NotTaken(wasQueue, head);
    WalkStart(g, a, indegree[..], taken, node);
    Prefixes(wasQueue, wasQueue, head);
    ListStart(g, Out, a, node);
    tail' := RelaxList(g, a, indegree, queue, node, tail, taken);
    WalkEnd(g, indegree[..], taken, node);
    MembersMore(wasQueue, head);
    assert queue[..head + 1] == wasQueue[..head + 1];
  }

  /** Walk the out-list of a node that has been taken. */
  method RelaxList(g: Graph, a: Lists, indegree: array<nat>, queue: array<nat>, node: nat, tail: nat, ghost taken: set<nat>)
    returns (tail': nat)
    requires g.Valid() && Threaded(g, Out, a, 0) && indegree != queue && node < |g.nodes|
    requires indegree.Length == queue.Length == |g.nodes| && tail <= queue.Length && |a.head| == |g.nodes|
    requires node !in taken && taken <= Members(queue[..tail]) && node in queue[..tail]
    requires Degrees(g, indegree[..], taken, node, a.head[node]) && Queued(g, indegree[..], queue[..tail])
    modifies indegree, queue
    ensures tail <= tail' <= queue.Length && queue[..tail] == old(queue[..tail])
    ensures Degrees(g, indegree[..], taken, node, NIL) && Queued(g, indegree[..], queue[..tail'])
  {
    hide Threaded;
    hide Counted;
    hide Forward;
    hide Next;
    hide Distinct;
    ghost var wasQueue := queue[..tail];
    ListStart(g, Out, a, node);
    tail' := tail;
    var ei := a.head[node];
    while ei != NIL
      invariant OnList(g, Out, node, ei)
      invariant tail <= tail' <= queue.Length && queue[..tail] == wasQueue
      invariant Degrees(g, indegree[..], taken, node, ei)
      invariant Queued(g, indegree[..], queue[..tail'])
      decreases Left(g, ei)
    {
      ListStep(g, Out, a, node, ei);
      if g.Control(ei) {
        Longer(wasQueue, queue[..tail'], taken, node);
        tail' := Decrement(g, a, indegree, queue, node, ei, tail', taken);
      } else {
        NotCounted(g, a, indegree[..], taken, node, ei);
      }
      ei := a.next[ei];
    }
  }

  lemma Longer(queue: seq<nat>, longer: seq<nat>, taken: set<nat>, node: nat)
    requires queue <= longer && taken <= Members(queue) && node in queue
    ensures taken <= Members(longer) && node in longer
  {
    assert forall x :: x in queue ==> x in longer;
  }

  // An edge that is not a control edge changes no count.
  lemma NotCounted(g: Graph, a: Lists, indegree: seq<nat>, taken: set<nat>, node: nat, ei: nat)
    requires g.Valid() && Threaded(g, Out, a, 0) && node < |g.nodes| && node !in taken
    requires ei != NIL && OnList(g, Out, node, ei) && !g.Control(ei) && Degrees(g, indegree, taken, node, ei)
    ensures |a.next| == |g.edges| && Degrees(g, indegree, taken, node, a.next[ei])
  {
    hide Threaded;
    hide Counted;
    ListStep(g, Out, a, node, ei);
    forall v | 0 <= v < |g.nodes|
      ensures Counted(g, v, taken, node, a.next[ei]) == Counted(g, v, taken, node, ei)
    {
      WalkStep(g, a, v, taken, node, ei);
    }
  }

  lemma NotTaken(queue: seq<nat>, head: nat)
    requires Distinct(queue) && head < |queue|
    ensures queue[head] !in Members(queue[..head])
  {
  }

  lemma Prefixes(longer: seq<nat>, queue: seq<nat>, head: nat)
    requires head < |queue| && queue <= longer
    ensures Members(queue[..head]) <= Members(longer) && queue[head] in longer
  {
    assert longer[head] == queue[head];
  }

  method Decrement(g: Graph, a: Lists, indegree: array<nat>, queue: array<nat>, node: nat, ei: nat, tail: nat,
                   ghost taken: set<nat>)
    returns (tail': nat)
    requires g.Valid() && Threaded(g, Out, a, 0) && indegree != queue
    requires indegree.Length == queue.Length == |g.nodes| && tail <= queue.Length && node < |g.nodes|
    requires ei != NIL && OnList(g, Out, node, ei) && g.Control(ei) && |a.next| == |g.edges|
    requires node !in taken && taken <= Members(queue[..tail]) && node in queue[..tail]
    requires Degrees(g, indegree[..], taken, node, ei) && Queued(g, indegree[..], queue[..tail])
    modifies indegree, queue
    ensures tail <= tail' <= queue.Length && queue[..tail] == old(queue[..tail])
    ensures Degrees(g, indegree[..], taken, node, a.next[ei]) && Queued(g, indegree[..], queue[..tail'])
  {
    hide Threaded;
    hide Counted;
    hide Forward;
    hide Distinct;
    var to := g.edges[ei].to;
    forall v | 0 <= v < |g.nodes|
      ensures |Counted(g, v, taken, node, a.next[ei])| == |Counted(g, v, taken, node, ei)| - if v == to then 1 else 0
    {
      WalkStep(g, a, v, taken, node, ei);
    }
    WalkStep(g, a, to, taken, node, ei);
    assert indegree[to] != 0;
    indegree[to] := indegree[to] - 1;
    tail' := tail;
    if indegree[to] == 0 {
      Enqueue(g, indegree[..], queue[..tail], taken, node, a.next[ei], to);
      queue[tail] := to;
      tail' := tail + 1;
      assert queue[..tail'] == queue[..tail] + [to];
    }
  }

  /** Kahn's algorithm: every node enters the queue exactly once. */
  method Order(g: Graph, a: Lists) returns (order: seq<nat>)
    requires g.Valid() && Threaded(g, Out, a, 0) && Acyclic(g.ControlPairs())
    ensures Topological(g, order) && |order| == |g.nodes|
  {
    hide Threaded;
    hide Forward;
    hide Pending;
    var indegree := CountIndegrees(g);
    var queue := new nat[|g.nodes|](_ => 0);
    var head, tail := 0, 0;
    for node := 0 to |g.nodes|
      invariant tail <= node
      invariant Distinct(queue[..tail]) && forall v: nat :: v in queue[..tail] <==> v < node && indegree[v] == 0
      invariant forall v :: 0 <= v < |g.nodes| ==> indegree[v] == |Pending(g, v, {})|
    {
      if indegree[node] == 0 {
        queue[tail] := node;
        tail := tail + 1;
        assert queue[..tail] == queue[..tail - 1] + [node];
      }
    }
    assert Members(queue[..0]) == {};
    forall i | 0 <= i < tail ensures queue[..tail][i] < |g.nodes| {
      assert queue[..tail][i] in queue[..tail];
    }
    SourcesForward(g, indegree[..], queue[..tail]);
    while head < tail
      invariant head <= tail <= queue.Length
      invariant DegreesBetween(g, indegree[..], Members(queue[..head])) && Queued(g, indegree[..], queue[..tail])
      decreases queue.Length - head
    {
      tail := Relax(g, a, indegree, queue, head, tail);
      head := head + 1;
    }
    order := queue[..tail];
    NoneLeft(g, indegree[..], order);
  }

  lemma SourcesForward(g: Graph, indegree: seq<nat>, queue: seq<nat>)
    requires g.Valid() && |indegree| == |g.nodes|
    requires forall v :: v in queue ==> v < |g.nodes| && indegree[v] == 0
    requires forall v :: 0 <= v < |g.nodes| ==> indegree[v] == |Pending(g, v, {})|
    ensures Forward(g, queue)
  {
    forall j | 0 <= j < |queue| ensures Pending(g, queue[j], {}) == {} {
      assert queue[j] in queue;
    }
    assert forall e, j :: 0 <= e < |g.edges| && g.Control(e) && 0 <= j < |queue| && g.edges[e].to == queue[j] ==>
      e in Pending(g, queue[j], {});
  }

  lemma NoneMissing(g: Graph, indegree: seq<nat>, order: seq<nat>, m: nat)
    requires g.Valid() && DegreesBetween(g, indegree, Members(order)) && Queued(g, indegree, order)
    requires m < |g.nodes|
    requires forall e :: 0 <= e < |g.edges| && g.Control(e) && g.edges[e].to == m ==> g.edges[e].from in order
    ensures m in order
  {
    hide Forward;
    hide Distinct;
    assert Pending(g, m, Members(order)) == {};
    assert indegree[m] == |Pending(g, m, Members(order))|;
  }

  // On an acyclic graph a node that never reached count zero would need a
  // predecessor of the same kind.
  lemma NoneLeft(g: Graph, indegree: seq<nat>, order: seq<nat>)
    requires g.Valid() && Acyclic(g.ControlPairs())
    requires DegreesBetween(g, indegree, Members(order)) && Queued(g, indegree, order)
    ensures Topological(g, order) && |order| == |g.nodes|
  {
    hide DegreesBetween;
    var missing := set v: nat | v < |g.nodes| && v !in order;
    if missing != {} {
      var m := MinimalMember(g.ControlPairs(), missing);
      forall e | 0 <= e < |g.edges| && g.Control(e) && g.edges[e].to == m ensures g.edges[e].from in order {
        assert (g.edges[e].from, m) in g.ControlPairs();
        assert g.edges[e].from !in missing;
      }
      NoneMissing(g, indegree, order, m);
    }
    forall n: nat ensures n in order <==> n < |g.nodes| {
      assert n !in missing;
      if n in order {
        var i :| 0 <= i < |order| && order[i] == n;
      }
    }
    SizeOfDistinct(order);
    AllNodes(Members(order), |g.nodes|);
  }

  // ---- The two reverse passes ----

  datatype Selection = ControlFlow | Containment

  predicate Follows(g: Graph, selection: Selection, e: nat)
    requires e < |g.edges| && g.edges[e].from < |g.nodes|
  {
    if selection == ControlFlow then g.Control(e) else g.Containment(e)
  }

  ghost function PairsOf(g: Graph, selection: Selection): Pairs
    requires g.Valid()
  {
    if selection == ControlFlow then g.ControlPairs() else g.ContainmentPairs()
  }

  ghost function Closure(g: Graph, r: Pairs, n: nat): set<nat> {
    set x: nat | x < |g.nodes| && Reaches(r, n, x)
  }

  lemma FollowsIsPair(g: Graph, selection: Selection, e: nat)
    requires g.Valid() && e < |g.edges| && Follows(g, selection, e)
    ensures (g.edges[e].from, g.edges[e].to) in PairsOf(g, selection) && g.Control(e)
  {
  }

  lemma PairIsFollowed(g: Graph, selection: Selection, a: nat, b: nat) returns (e: nat)
    requires g.Valid() && (a, b) in PairsOf(g, selection)
    ensures e < |g.edges| && Follows(g, selection, e) && g.edges[e].from == a && g.edges[e].to == b
  {
    if selection == ControlFlow {
      e :| 0 <= e < |g.edges| && g.Control(e) && (g.edges[e].from, g.edges[e].to) == (a, b);
    } else {
      e :| 0 <= e < |g.edges| && g.Containment(e) && (g.edges[e].from, g.edges[e].to) == (a, b);
    }
  }

  // A successor comes later in the order.
  lemma SuccessorLater(g: Graph, order: seq<nat>, position: nat, e: nat) returns (j: nat)
    requires g.Valid() && Topological(g, order) && position < |order|
    requires e < |g.edges| && g.Control(e) && g.edges[e].from == order[position]
    ensures position < j < |order| && order[j] == g.edges[e].to
  {
    assert g.edges[e].to in order;
    j :| 0 <= j < |order| && order[j] == g.edges[e].to;
    assert g.edges[e].from in order[..j];
  }

  lemma ClosureStep(g: Graph, selection: Selection, e: nat)
    requires g.Valid() && e < |g.edges| && Follows(g, selection, e)
    ensures Closure(g, PairsOf(g, selection), g.edges[e].to) <= Closure(g, PairsOf(g, selection), g.edges[e].from)
  {
    var r, a, b := PairsOf(g, selection), g.edges[e].from, g.edges[e].to;
    FollowsIsPair(g, selection, e);
    Relation.Step(r, a, b);
    forall x: nat | x in Closure(g, r, b) ensures x in Closure(g, r, a) {
      Trans(r, a, b, x);
    }
  }

  // The closures of the successors met so far are in the set.
  ghost predicate Absorbed(g: Graph, selection: Selection, node: nat, cursor: nat, s: set<nat>)
    requires g.Valid()
  {
    forall e: nat :: Passed(g, Out, node, cursor, e) && Follows(g, selection, e) ==>
      Closure(g, PairsOf(g, selection), g.edges[e].to) <= s
  }

  lemma AbsorbedNone(g: Graph, a: Lists, selection: Selection, node: nat, s: set<nat>)
    requires g.Valid() && Threaded(g, Out, a, 0) && node < |g.nodes|
    ensures |a.head| == |g.nodes| && Absorbed(g, selection, node, a.head[node], s)
  {
    ListStart(g, Out, a, node);
  }

  lemma AbsorbedAll(g: Graph, selection: Selection, node: nat, s: set<nat>)
    requires g.Valid() && node < |g.nodes| && node in s
    requires s <= Closure(g, PairsOf(g, selection), node) && Absorbed(g, selection, node, NIL, s)
    ensures s == Closure(g, PairsOf(g, selection), node)
  {
    var r := PairsOf(g, selection);
    forall x: nat | x in Closure(g, r, node) ensures x in s {
      if x != node {
        var c := FirstStep(r, node, x);
        var e := PairIsFollowed(g, selection, node, c);
        assert Passed(g, Out, node, NIL, e);
      }
    }
  }

  /** Collect the closures of the successors of one node. */
  method Collect(g: Graph, a: Lists, selection: Selection, order: seq<nat>, position: nat, sets: array<set<nat>>)
    requires g.Valid() && Threaded(g, Out, a, 0) && Topological(g, order) && position < |order| == |g.nodes| == sets.Length
    requires forall j :: position < j < |order| ==> sets[order[j]] == Closure(g, PairsOf(g, selection), order[j])
    requires order[position] in sets[order[position]] && sets[order[position]] <= Closure(g, PairsOf(g, selection), order[position])
    modifies sets
    ensures forall n :: 0 <= n < sets.Length && n != order[position] ==> sets[n] == old(sets[n])
    ensures sets[order[position]] == Closure(g, PairsOf(g, selection), order[position])
  {
    hide Threaded;
    hide Topological;
    hide Closure;
    hide PairsOf;
    hide Follows;
    var node := order[position];
    assert node < |g.nodes| by { InOrder(g, order, position); }
    ListStart(g, Out, a, node);
    AbsorbedNone(g, a, selection, node, sets[node]);
    var ei := a.head[node];
    while ei != NIL
      invariant OnList(g, Out, node, ei)
      invariant forall n :: 0 <= n < sets.Length && n != node ==> sets[n] == old(sets[n])
      invariant node in sets[node] && sets[node] <= Closure(g, PairsOf(g, selection), node)
      invariant Absorbed(g, selection, node, ei, sets[node])
      decreases Left(g, ei)
    {
      ListStep(g, Out, a, node, ei);
      if Follows(g, selection, ei) {
        FollowsIsPair(g, selection, ei);
        var j := SuccessorLater(g, order, position, ei);
        OrderDistinct(g, order, position, j);
        ClosureStep(g, selection, ei);
        sets[node] := sets[node] + sets[g.edges[ei].to];
      }
      ei := a.next[ei];
    }
    AbsorbedAll(g, selection, node, sets[node]);
  }

  lemma InOrder(g: Graph, order: seq<nat>, position: nat)
    requires g.Valid() && Topological(g, order) && position < |order|
    ensures order[position] < |g.nodes|
  {
    assert order[position] in order;
  }

  lemma OrderDistinct(g: Graph, order: seq<nat>, i: nat, j: nat)
    requires g.Valid() && Topological(g, order) && i < j < |order|
    ensures order[i] != order[j]
  {
  }

  /** Close one relation, successors first. */
  method Propagate(g: Graph, a: Lists, selection: Selection, order: seq<nat>, sets: array<set<nat>>)
    requires g.Valid() && Threaded(g, Out, a, 0) && Topological(g, order) && |order| == |g.nodes| == sets.Length
    requires forall n :: 0 <= n < sets.Length ==> n in sets[n] && sets[n] <= Closure(g, PairsOf(g, selection), n)
    modifies sets
    ensures forall n :: 0 <= n < sets.Length ==> sets[n] == Closure(g, PairsOf(g, selection), n)
  {
    hide Threaded;
    hide Forward;
    hide Closure;
    hide PairsOf;
    var position := |order|;
    while position > 0
      invariant 0 <= position <= |order|
      invariant forall j :: position <= j < |order| ==> sets[order[j]] == Closure(g, PairsOf(g, selection), order[j])
      invariant forall n :: 0 <= n < sets.Length ==> n in sets[n] && sets[n] <= Closure(g, PairsOf(g, selection), n)
    {
      position := position - 1;
      InOrder(g, order, position);
      Collect(g, a, selection, order, position, sets);
    }
    forall n | 0 <= n < sets.Length ensures sets[n] == Closure(g, PairsOf(g, selection), n) {
      assert n in order;
      var j :| 0 <= j < |order| && order[j] == n;
    }
  }

  // ---- Inheritance ----

  // Node h is a proper enclosing group of n.
  ghost predicate Encloses(g: Graph, h: nat, n: nat)
    requires g.Valid()
  {
    h != n && Reaches(g.ContainmentPairs(), h, n)
  }

  /** The final reachable set of n: what n reaches itself, and what an enclosing
      group reaches outside its own members. */
  ghost predicate Final(g: Graph, n: nat, x: nat)
    requires g.Valid()
  {
    Reaches(g.ControlPairs(), n, x) || exists h :: Outside(g, h, n, x)
  }

  ghost predicate Outside(g: Graph, h: nat, n: nat, x: nat)
    requires g.Valid()
  {
    Encloses(g, h, n) && Reaches(g.ControlPairs(), h, x) && !Reaches(g.ContainmentPairs(), h, x)
  }

  // What n takes over from its direct container h.
  ghost predicate Inherits(g: Graph, h: nat, n: nat, x: nat)
    requires g.Valid()
  {
    (h, n) in g.ContainmentPairs() && Final(g, h, x) && !Reaches(g.ContainmentPairs(), h, x)
  }

  /** The closed form satisfies the recursion that the forward pass computes. */
  lemma FinalUnfolds(g: Graph, n: nat, x: nat)
    requires g.Valid() && Acyclic(g.ControlPairs())
    ensures Final(g, n, x) <==> Reaches(g.ControlPairs(), n, x) || exists h :: Inherits(g, h, n, x)
  {
    if exists h :: Outside(g, h, n, x) {
      var h :| Outside(g, h, n, x);
      OutsideIsInherited(g, h, n, x);
    }
    if exists h :: Inherits(g, h, n, x) {
      var h :| Inherits(g, h, n, x);
      InheritedIsFinal(g, h, n, x);
    }
  }

  lemma OutsideIsInherited(g: Graph, h: nat, n: nat, x: nat)
    requires g.Valid() && Outside(g, h, n, x)
    ensures exists p :: Inherits(g, p, n, x)
  {
    var d := g.ContainmentPairs();
    var p := LastStep(d, h, n);
    if Reaches(d, p, x) {
      Trans(d, h, p, x);
    }
    if h != p {
      assert Outside(g, h, p, x);
    }
    assert Inherits(g, p, n, x);
  }

  lemma InheritedIsFinal(g: Graph, p: nat, n: nat, x: nat)
    requires g.Valid() && Acyclic(g.ControlPairs()) && Inherits(g, p, n, x)
    ensures Final(g, n, x)
  {
    var d := g.ContainmentPairs();
    g.ContainmentIsControl();
    AcyclicSubset(d, g.ControlPairs());
    Relation.Step(d, p, n);
    if Reaches(g.ControlPairs(), p, x) {
      Refl(d, n);
      assert Outside(g, p, n, x);
    } else {
      var h :| Outside(g, h, p, x);
      Trans(d, h, p, n);
      assert h != n;
      assert Outside(g, h, n, x);
    }
  }

  /** A member never gains a fellow member of its own group: what is inside the
      group and in the final set, the member reaches itself. */
  lemma NoSiblingsInvented(g: Graph, group: nat, member: nat, x: nat)
    requires g.Valid() && Acyclic(g.ControlPairs())
    requires (group, member) in g.ContainmentPairs()
    requires forall p :: (p, member) in g.ContainmentPairs() ==> p == group
    requires Reaches(g.ContainmentPairs(), group, x)
    ensures Final(g, member, x) <==> Reaches(g.ControlPairs(), member, x)
  {
    FinalUnfolds(g, member, x);
  }

  // The final set, restricted to containers that the forward pass has handled.
  ghost predicate HandedSoFar(g: Graph, done: seq<nat>, n: nat, x: nat)
    requires g.Valid()
  {
    Reaches(g.ControlPairs(), n, x) || exists h :: h in done && Inherits(g, h, n, x)
  }

  ghost predicate HandedDown(g: Graph, done: seq<nat>, n: nat, s: set<nat>)
    requires g.Valid()
  {
    forall x: nat :: x in s <==> (x < |g.nodes| && HandedSoFar(g, done, n, x))
  }

  ghost predicate FinalSet(g: Graph, n: nat, s: set<nat>)
    requires g.Valid()
  {
    forall x: nat :: x in s <==> (x < |g.nodes| && Final(g, n, x))
  }

  // A containment edge from node to n has been met.
  ghost predicate Given(g: Graph, node: nat, cursor: nat, n: nat)
    requires g.Valid()
  {
    exists e: nat :: Passed(g, Out, node, cursor, e) && g.Containment(e) && g.edges[e].to == n
  }

  // While the members of `node` are visited.
  ghost predicate Handing(g: Graph, done: seq<nat>, node: nat, cursor: nat, n: nat, s: set<nat>)
    requires g.Valid()
  {
    forall x: nat :: x in s <==> (x < |g.nodes| &&
      (HandedSoFar(g, done, n, x) || (Given(g, node, cursor, n) && Inherits(g, node, n, x))))
  }

  // Every container of the node at `position` comes before it, so its set is final.
  lemma FinalWhenReached(g: Graph, order: seq<nat>, position: nat, s: set<nat>)
    requires g.Valid() && Topological(g, order) && Acyclic(g.ControlPairs()) && position < |order|
    requires HandedDown(g, order[..position], order[position], s)
    ensures FinalSet(g, order[position], s)
  {
    var node := order[position];
    forall x: nat | x < |g.nodes| ensures HandedSoFar(g, order[..position], node, x) <==> Final(g, node, x) {
      FinalUnfolds(g, node, x);
      forall h | Inherits(g, h, node, x) ensures h in order[..position] {
        var e := PairIsFollowed(g, Containment, h, node);
        FollowsIsPair(g, Containment, e);
      }
    }
  }

  lemma HandingStarts(g: Graph, a: Lists, done: seq<nat>, node: nat, n: nat, s: set<nat>)
    requires g.Valid() && Threaded(g, Out, a, 0) && node < |g.nodes| && HandedDown(g, done, n, s)
    ensures |a.head| == |g.nodes| && Handing(g, done, node, a.head[node], n, s)
  {
    ListStart(g, Out, a, node);
    hide HandedSoFar;
    hide Inherits;
  }

  lemma HandingEnds(g: Graph, done: seq<nat>, node: nat, n: nat, s: set<nat>)
    requires g.Valid() && Handing(g, done, node, NIL, n, s)
    ensures HandedDown(g, done + [node], n, s)
  {
    forall x: nat ensures HandedSoFar(g, done + [node], n, x) <==>
      (HandedSoFar(g, done, n, x) || (Given(g, node, NIL, n) && Inherits(g, node, n, x)))
    {
      if Inherits(g, node, n, x) {
        var e := PairIsFollowed(g, Containment, node, n);
        assert Passed(g, Out, node, NIL, e);
      }
    }
  }

  lemma HandingSteps(g: Graph, a: Lists, done: seq<nat>, node: nat, cursor: nat, n: nat, s: set<nat>, given: set<nat>)
    requires g.Valid() && Threaded(g, Out, a, 0) && node < |g.nodes| && cursor != NIL && OnList(g, Out, node, cursor)
    requires Handing(g, done, node, cursor, n, s)
    requires forall x: nat :: x in given <==> (x < |g.nodes| && Final(g, node, x) && !Reaches(g.ContainmentPairs(), node, x))
    ensures |a.next| == |g.edges|
    ensures var met := g.Containment(cursor) && g.edges[cursor].to == n;
      Handing(g, done, node, a.next[cursor], n, if met then s + given else s)
  {
    hide HandedSoFar;
    hide Final;
    ListStep(g, Out, a, node, cursor);
    var met := g.Containment(cursor) && g.edges[cursor].to == n;
    assert Given(g, node, a.next[cursor], n) <==> Given(g, node, cursor, n) || met by {
      if met {
        assert Passed(g, Out, node, a.next[cursor], cursor);
      }
    }
    if met {
      FollowsIsPair(g, Containment, cursor);
    }
  }

  /** Hand the outside successors of one group to its direct members. */
  method HandDown(g: Graph, a: Lists, done: seq<nat>, node: nat, reach: array<set<nat>>, descendants: seq<set<nat>>)
    requires g.Valid() && Threaded(g, Out, a, 0) && Acyclic(g.ControlPairs())
    requires reach.Length == |descendants| == |g.nodes| && node < |g.nodes|
    requires descendants[node] == Closure(g, g.ContainmentPairs(), node)
    requires forall n :: 0 <= n < |g.nodes| ==> HandedDown(g, done, n, reach[n])
    requires FinalSet(g, node, reach[node])
    modifies reach
    ensures forall n :: 0 <= n < |g.nodes| ==> HandedDown(g, done + [node], n, reach[n])
  {
    hide Threaded;
    hide HandedDown;
    hide Handing;
    hide Final;
    ghost var given := reach[node] - descendants[node];
    forall n | 0 <= n < |g.nodes| ensures |a.head| == |g.nodes| && Handing(g, done, node, a.head[node], n, reach[n]) {
      HandingStarts(g, a, done, node, n, reach[n]);
    }
    ListStart(g, Out, a, node);
    if g.nodes[node] == Group {
      var ei := a.head[node];
      while ei != NIL
        invariant OnList(g, Out, node, ei)
        invariant reach[node] - descendants[node] == given
        invariant forall n :: 0 <= n < |g.nodes| ==> Handing(g, done, node, ei, n, reach[n])
        decreases Left(g, ei)
      {
        ListStep(g, Out, a, node, ei);
        var to := g.edges[ei].to;
        forall n | 0 <= n < |g.nodes|
          ensures Handing(g, done, node, a.next[ei], n, if g.Containment(ei) && to == n then reach[n] + given else reach[n])
        {
          HandingSteps(g, a, done, node, ei, n, reach[n], given);
        }
        if g.edges[ei].kind == Contains {
          NotItsOwnMember(g, ei);
          reach[to] := reach[to] + (reach[node] - descendants[node]);
        }
        ei := a.next[ei];
      }
    } else {
      forall n | 0 <= n < |g.nodes| ensures Handing(g, done, node, NIL, n, reach[n]) {
        NothingGiven(g, done, node, n, reach[n]);
      }
    }
    forall n | 0 <= n < |g.nodes| ensures HandedDown(g, done + [node], n, reach[n]) {
      HandingEnds(g, done, node, n, reach[n]);
    }
  }

  lemma NothingGiven(g: Graph, done: seq<nat>, node: nat, n: nat, s: set<nat>)
    requires g.Valid() && node < |g.nodes| && g.nodes[node] != Group && HandedDown(g, done, n, s)
    ensures Handing(g, done, node, NIL, n, s)
  {
    hide HandedSoFar;
    hide Inherits;
  }

  lemma NotItsOwnMember(g: Graph, e: nat)
    requires g.Valid() && Acyclic(g.ControlPairs()) && e < |g.edges| && g.Control(e)
    ensures g.edges[e].from != g.edges[e].to
  {
    Refl(g.ControlPairs(), g.edges[e].to);
    FollowsIsPair(g, ControlFlow, e);
  }

  /** The whole preparation: for every node, its final reachable set. */
  method Prepare(g: Graph, a: Lists) returns (reachable: seq<set<nat>>)
    requires g.Valid() && Threaded(g, Out, a, 0) && Acyclic(g.ControlPairs())
    ensures |reachable| == |g.nodes|
    ensures forall n :: 0 <= n < |g.nodes| ==> FinalSet(g, n, reachable[n])
    // Written out: every node reaches itself and the targets of its control edges, ...
    ensures forall n :: 0 <= n < |g.nodes| ==> n in reachable[n]
    ensures forall e :: 0 <= e < |g.edges| && g.edges[e].kind in {Seq, And, Or, Pipe, Background, Contains} ==>
      g.edges[e].to in reachable[g.edges[e].from]
    // ... a member reaches what its group precedes, unless that is itself a member of something, ...
    ensures forall e, f :: (0 <= e < |g.edges| && 0 <= f < |g.edges|
        && g.edges[e].kind in {Seq, And, Or, Pipe, Background} && g.edges[f].kind == Contains
        && g.edges[e].from == g.edges[f].from && g.nodes[g.edges[f].from] == Group
        && !ContainedSomewhere(g, g.edges[e].to)) ==>
      g.edges[e].to in reachable[g.edges[f].to]
    // ... and anything else in a set is the target of such an edge.
    ensures forall n, x: nat :: 0 <= n < |g.nodes| && x in reachable[n] && x != n ==>
      exists e :: 0 <= e < |g.edges| && g.edges[e].kind in {Seq, And, Or, Pipe, Background, Contains} && g.edges[e].to == x
    // Nothing but n itself is reached if no such edge leaves n or a group around n.
    ensures forall n, x: nat :: 0 <= n < |g.nodes| && x in reachable[n] && x != n ==> LeavesAround(g, n)
  {
    hide Threaded;
    hide ContainedSomewhere;
    hide Closure;
    hide HandedDown;
    hide FinalSet;
    hide Forward;
    hide LeavesAround;
    var order := Order(g, a);
    var reach := SeedReach(g);
    Propagate(g, a, ControlFlow, order, reach);
    var descendants := new set<nat>[|g.nodes|](n => {n});
    forall n | 0 <= n < |g.nodes| ensures n in descendants[n] && descendants[n] <= Closure(g, g.ContainmentPairs(), n) {
      SelfInClosure(g, g.ContainmentPairs(), n);
    }
    Propagate(g, a, Containment, order, descendants);
    var members := descendants[..];
    forall n | 0 <= n < |g.nodes| ensures HandedDown(g, order[..0], n, reach[n]) {
      NothingHanded(g, n);
    }
    for position := 0 to |order|
      invariant forall n :: 0 <= n < |g.nodes| ==> HandedDown(g, order[..position], n, reach[n])
    {
      FinalWhenReached(g, order, position, reach[order[position]]);
      assert order[..position + 1] == order[..position] + [order[position]];
      HandDown(g, a, order[..position], order[position], reach, members);
    }
    assert order[..|order|] == order;
    forall n | 0 <= n < |g.nodes| ensures FinalSet(g, n, reach[n]) {
      FinalAtEnd(g, order, n, reach[n]);
    }
    reachable := reach[..];
    forall n | 0 <= n < |g.nodes| ensures FinalSet(g, n, reachable[n]) {
      assert FinalSet(g, n, reach[n]);
    }
    EdgesReached(g, reachable);
    MembersReach(g, reachable);
    OnlyTargets(g, reachable);
    forall n, x: nat | 0 <= n < |g.nodes| && x in reachable[n] && x != n ensures LeavesAround(g, n) {
      assert FinalSet(g, n, reachable[n]);
      SomethingLeaves(g, n, reachable[n], x);
    }
  }

  // A control edge leaves the node or a group around it.
  ghost predicate LeavesAround(g: Graph, n: nat)
    requires g.Valid()
  {
    exists e: nat :: e < |g.edges| && g.edges[e].kind in {Seq, And, Or, Pipe, Background, Contains} &&
      Reaches(g.ContainmentPairs(), g.edges[e].from, n)
  }

  lemma SomethingLeaves(g: Graph, n: nat, reach: set<nat>, x: nat)
    requires g.Valid() && FinalSet(g, n, reach) && x in reach && x != n
    ensures LeavesAround(g, n)
  {
    var h: nat := n;
    Refl(g.ContainmentPairs(), n);
    if !Reaches(g.ControlPairs(), n, x) {
      h :| Outside(g, h, n, x);
      Refl(g.ContainmentPairs(), h);
    }
    var c := FirstStep(g.ControlPairs(), h, x);
    assert (h, c) in g.ControlPairs();
  }

  // Some containment edge enters the node.
  ghost predicate ContainedSomewhere(g: Graph, n: nat) {
    exists e :: 0 <= e < |g.edges| && g.edges[e].kind == Contains && g.edges[e].to == n
  }

  lemma EdgesReached(g: Graph, reachable: seq<set<nat>>)
    requires g.Valid() && |reachable| == |g.nodes| && forall n :: 0 <= n < |g.nodes| ==> FinalSet(g, n, reachable[n])
    ensures forall n :: 0 <= n < |g.nodes| ==> n in reachable[n]
    ensures forall e :: 0 <= e < |g.edges| && g.edges[e].kind in {Seq, And, Or, Pipe, Background, Contains} ==>
      g.edges[e].to in reachable[g.edges[e].from]
  {
    hide Outside;
    forall n | 0 <= n < |g.nodes| ensures n in reachable[n] {
      Refl(g.ControlPairs(), n);
      assert FinalSet(g, n, reachable[n]);
    }
    forall e | 0 <= e < |g.edges| && g.edges[e].kind in {Seq, And, Or, Pipe, Background, Contains}
      ensures g.edges[e].to in reachable[g.edges[e].from]
    {
      var from, to := g.edges[e].from, g.edges[e].to;
      assert (from, to) in g.ControlPairs();
      Step(g.ControlPairs(), from, to);
      assert FinalSet(g, from, reachable[from]);
    }
  }

  lemma MembersReach(g: Graph, reachable: seq<set<nat>>)
    requires g.Valid() && Acyclic(g.ControlPairs())
    requires |reachable| == |g.nodes| && forall n :: 0 <= n < |g.nodes| ==> FinalSet(g, n, reachable[n])
    ensures forall e, f :: (0 <= e < |g.edges| && 0 <= f < |g.edges|
        && g.edges[e].kind in {Seq, And, Or, Pipe, Background} && g.edges[f].kind == Contains
        && g.edges[e].from == g.edges[f].from && g.nodes[g.edges[f].from] == Group
        && !ContainedSomewhere(g, g.edges[e].to)) ==>
      g.edges[e].to in reachable[g.edges[f].to]
  {
    forall e, f | (0 <= e < |g.edges| && 0 <= f < |g.edges|
        && g.edges[e].kind in {Seq, And, Or, Pipe, Background} && g.edges[f].kind == Contains
        && g.edges[e].from == g.edges[f].from && g.nodes[g.edges[f].from] == Group
        && !ContainedSomewhere(g, g.edges[e].to))
      ensures g.edges[e].to in reachable[g.edges[f].to]
    {
      var group, member, x := g.edges[e].from, g.edges[f].to, g.edges[e].to;
      assert (group, x) in g.ControlPairs() && (group, member) in g.ContainmentPairs();
      Step(g.ControlPairs(), group, x);
      Step(g.ContainmentPairs(), group, member);
      assert group != member by { NoSelfContainment(g, group); }
      NotBelow(g, group, x);
      assert Outside(g, group, member, x);
      assert FinalSet(g, member, reachable[member]);
    }
  }

  lemma NoSelfContainment(g: Graph, n: nat)
    requires g.Valid() && Acyclic(g.ControlPairs())
    ensures (n, n) !in g.ContainmentPairs()
  {
    g.ContainmentIsControl();
    Refl(g.ControlPairs(), n);
  }

  lemma NotBelow(g: Graph, group: nat, x: nat)
    requires g.Valid() && Acyclic(g.ControlPairs()) && (group, x) in g.ControlPairs() && !ContainedSomewhere(g, x)
    ensures !Reaches(g.ContainmentPairs(), group, x) && group != x
  {
    Refl(g.ControlPairs(), x);
    if Reaches(g.ContainmentPairs(), group, x) && group != x {
      var p := LastStep(g.ContainmentPairs(), group, x);
    }
  }

  lemma OnlyTargets(g: Graph, reachable: seq<set<nat>>)
    requires g.Valid() && Acyclic(g.ControlPairs())
    requires |reachable| == |g.nodes| && forall n :: 0 <= n < |g.nodes| ==> FinalSet(g, n, reachable[n])
    ensures forall n, x: nat :: 0 <= n < |g.nodes| && x in reachable[n] && x != n ==>
      exists e :: 0 <= e < |g.edges| && g.edges[e].kind in {Seq, And, Or, Pipe, Background, Contains} && g.edges[e].to == x
  {
    forall n: nat, x: nat | n < |g.nodes| && x in reachable[n] && x != n
      ensures exists e :: 0 <= e < |g.edges| && g.edges[e].kind in {Seq, And, Or, Pipe, Background, Contains} && g.edges[e].to == x
    {
      assert FinalSet(g, n, reachable[n]);
      var from: nat := n;
      if !Reaches(g.ControlPairs(), n, x) {
        from :| Outside(g, from, n, x);
        Refl(g.ContainmentPairs(), from);
      }
      var p := LastStep(g.ControlPairs(), from, x);
      assert (p, x) in g.ControlPairs();
    }
  }

  /** A final set stays within every set that holds its node, all control successors
      of its members, and the containers of its members. */
  lemma StaysInside(g: Graph, n: nat, reach: set<nat>, s: set<nat>)
    requires g.Valid() && FinalSet(g, n, reach) && n in s
    requires forall e :: 0 <= e < |g.edges| && g.edges[e].kind in {Seq, And, Or, Pipe, Background, Contains} && g.edges[e].from in s ==>
      g.edges[e].to in s
    requires forall e :: 0 <= e < |g.edges| && g.edges[e].kind == Contains && g.edges[e].to in s ==> g.edges[e].from in s
    ensures reach <= s
  {
    forall x | x in reach ensures x in s {
      if Reaches(g.ControlPairs(), n, x) {
        var p :| PathBetween(g.ControlPairs(), p, n, x);
        AlongControl(g, p, s);
      } else {
        var h :| Outside(g, h, n, x);
        var p :| PathBetween(g.ContainmentPairs(), p, h, n);
        UpContainment(g, p, s);
        var q :| PathBetween(g.ControlPairs(), q, h, x);
        AlongControl(g, q, s);
      }
    }
  }

  lemma {:induction false} AlongControl(g: Graph, p: seq<nat>, s: set<nat>)
    requires g.Valid() && IsPath(g.ControlPairs(), p) && p[0] in s
    requires forall e :: 0 <= e < |g.edges| && g.edges[e].kind in {Seq, And, Or, Pipe, Background, Contains} && g.edges[e].from in s ==>
      g.edges[e].to in s
    ensures p[|p| - 1] in s
  {
    if |p| > 1 {
      assert (p[0], p[1]) in g.ControlPairs();
      assert IsPath(g.ControlPairs(), p[1..]);
      AlongControl(g, p[1..], s);
    }
  }

  lemma {:induction false} UpContainment(g: Graph, p: seq<nat>, s: set<nat>)
    requires g.Valid() && IsPath(g.ContainmentPairs(), p) && p[|p| - 1] in s
    requires forall e :: 0 <= e < |g.edges| && g.edges[e].kind == Contains && g.edges[e].to in s ==> g.edges[e].from in s
    ensures p[0] in s
  {
    if |p| > 1 {
      var front := p[..|p| - 1];
      assert (front[|front| - 1], p[|p| - 1]) in g.ContainmentPairs();
      assert IsPath(g.ContainmentPairs(), front);
      UpContainment(g, front, s);
    }
  }

  lemma SelfInClosure(g: Graph, r: Pairs, n: nat)
    requires n < |g.nodes|
    ensures n in Closure(g, r, n) && {n} <= Closure(g, r, n)
  {
    Refl(r, n);
  }

  lemma NothingHanded(g: Graph, n: nat)
    requires g.Valid()
    ensures HandedDown(g, [], n, Closure(g, g.ControlPairs(), n))
  {
  }

  lemma FinalAtEnd(g: Graph, order: seq<nat>, n: nat, s: set<nat>)
    requires g.Valid() && Topological(g, order) && Acyclic(g.ControlPairs()) && HandedDown(g, order, n, s)
    ensures FinalSet(g, n, s)
  {
    forall x: nat | x < |g.nodes| ensures HandedSoFar(g, order, n, x) <==> Final(g, n, x) {
      FinalUnfolds(g, n, x);
      forall h | Inherits(g, h, n, x) ensures h in order {
        var e := PairIsFollowed(g, Containment, h, n);
      }
    }
  }

  /** Each node starts with itself and its direct control successors. */
  method SeedReach(g: Graph) returns (reach: array<set<nat>>)
    requires g.Valid()
    ensures fresh(reach) && reach.Length == |g.nodes|
    ensures forall n :: 0 <= n < |g.nodes| ==> n in reach[n] && reach[n] <= Closure(g, PairsOf(g, ControlFlow), n)
  {
    hide Closure;
    reach := new set<nat>[|g.nodes|](n => {n});
    forall n | 0 <= n < |g.nodes| ensures n in reach[n] && reach[n] <= Closure(g, g.ControlPairs(), n) {
      SelfInClosure(g, g.ControlPairs(), n);
    }
    for ei := 0 to |g.edges|
      invariant forall n :: 0 <= n < |g.nodes| ==> n in reach[n] && reach[n] <= Closure(g, g.ControlPairs(), n)
    {
      if g.Control(ei) {
        var edge := g.edges[ei];
        ClosureStep(g, ControlFlow, ei);
        SelfInClosure(g, g.ControlPairs(), edge.to);
        reach[edge.from] := reach[edge.from] + {edge.to};
      }
    }
  }
}
