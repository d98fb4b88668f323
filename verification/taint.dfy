/** Propagation of sensitive sources along data flow.

    One breadth-first pass marks every node that a sensitive document flows to
    and records one such document, its mark.  The relation may be cyclic. */
module Taint {
  import opened NodeLists
  import opened Relation
  import opened DepGraph

  predicate Flows(g: Graph, e: nat)
    requires g.Valid() && e < |g.edges|
  {
    FlowsForward(g, e) || FlowsBackward(g, e)
  }

  function Target(g: Graph, e: nat): nat
    requires g.Valid() && e < |g.edges|
  {
    if FlowsForward(g, e) then g.edges[e].to else g.edges[e].from
  }

  ghost function FlowPairs(g: Graph): Pairs
    requires g.Valid()
  {
    set e | 0 <= e < |g.edges| && Flows(g, e) :: (Owner(g, Flow, e), Target(g, e))
  }

  // A mark is a sensitive document that flows to the node.
  ghost predicate Justified(g: Graph, sensitive: seq<bool>, n: nat, mark: nat)
    requires g.Valid()
  {
    mark < |sensitive| && sensitive[mark] && Reaches(FlowPairs(g), mark, n)
  }

  // The queue lists the marked nodes, each once, and every mark is justified.
  ghost predicate Marked(g: Graph, sensitive: seq<bool>, mark: seq<nat>, queue: seq<nat>)
    requires g.Valid()
  {
    && |mark| == |g.nodes| && Distinct(queue) && InRange(queue, |g.nodes|)
    && (forall n :: 0 <= n < |g.nodes| ==> (n in queue <==> mark[n] != NIL))
    && (forall n :: 0 <= n < |g.nodes| && mark[n] != NIL ==> Justified(g, sensitive, n, mark[n]))
  }

  // The flow successors met so far are marked.
  ghost predicate Spread(g: Graph, n: nat, cursor: nat, mark: seq<nat>)
    requires g.Valid() && |mark| == |g.nodes|
  {
    forall e: nat :: Passed(g, Flow, n, cursor, e) && Flows(g, e) ==> mark[Target(g, e)] != NIL
  }

  ghost predicate MoreMarks(before: seq<nat>, after: seq<nat>) {
    |before| == |after| && forall n :: 0 <= n < |before| && before[n] != NIL ==> after[n] == before[n]
  }

  lemma SpreadKept(g: Graph, n: nat, cursor: nat, before: seq<nat>, after: seq<nat>)
    requires g.Valid() && |before| == |g.nodes| && MoreMarks(before, after) && Spread(g, n, cursor, before)
    ensures Spread(g, n, cursor, after)
  {
    forall e: nat | Passed(g, Flow, n, cursor, e) && Flows(g, e) ensures after[Target(g, e)] != NIL {
      assert before[Target(g, e)] != NIL;
    }
  }

  lemma FlowIsPair(g: Graph, e: nat)
    requires g.Valid() && e < |g.edges| && Flows(g, e)
    ensures (Owner(g, Flow, e), Target(g, e)) in FlowPairs(g)
  {
  }

  lemma PairIsFlow(g: Graph, a: nat, b: nat) returns (e: nat)
    requires g.Valid() && (a, b) in FlowPairs(g)
    ensures e < |g.edges| && Flows(g, e) && Owner(g, Flow, e) == a && Target(g, e) == b
  {
    e :| 0 <= e < |g.edges| && Flows(g, e) && (Owner(g, Flow, e), Target(g, e)) == (a, b);
  }

  lemma OnFlowList(g: Graph, n: nat, e: nat)
    requires g.Valid() && n < |g.nodes| && e != NIL && OnList(g, Flow, n, e)
    ensures e < |g.edges| && Flows(g, e) && Owner(g, Flow, e) == n
  {
  }

  /** Mark the flow successors of one node. */
  method Visit(g: Graph, flow: Lists, sensitive: seq<bool>, mark: array<nat>, queue: array<nat>, head: nat, tail: nat)
    returns (tail': nat)
    requires g.Valid() && Threaded(g, Flow, flow, 0) && mark != queue && |sensitive| == |g.nodes|
    requires mark.Length == queue.Length == |g.nodes| && head < tail <= queue.Length
    requires Marked(g, sensitive, mark[..], queue[..tail])
    modifies mark, queue
    ensures tail <= tail' <= queue.Length && queue[..tail] == old(queue[..tail])
    ensures Marked(g, sensitive, mark[..], queue[..tail']) && MoreMarks(old(mark[..]), mark[..])
    ensures Spread(g, queue[head], NIL, mark[..])
  {
    hide Threaded;
    hide Justified;
    hide FlowsForward;
    hide FlowsBackward;
    hide Flows;
    hide Owner;
    hide Target;
    var source := queue[head];
    assert queue[..tail][head] == source && source in queue[..tail];
    ListStart(g, Flow, flow, source);
    tail' := tail;
    var ei := flow.head[source];
    while ei != NIL
      invariant OnList(g, Flow, source, ei)
      invariant tail <= tail' <= queue.Length && queue[..tail] == old(queue[..tail])
      invariant Marked(g, sensitive, mark[..], queue[..tail']) && MoreMarks(old(mark[..]), mark[..])
      invariant Spread(g, source, ei, mark[..])
      decreases Left(g, ei)
    {
      OnFlowList(g, source, ei);
      ListStep(g, Flow, flow, source, ei);
      var target := Target(g, ei);
      InRangeTarget(g, ei);
      ghost var before := mark[..];
      if mark[target] == NIL {
        Justify(g, sensitive, source, mark[source], ei);
        RoomFor(queue[..tail'], target, |g.nodes|);
        mark[target] := mark[source];
        queue[tail'] := target;
        tail' := tail' + 1;
        assert queue[..tail'] == queue[..tail' - 1] + [target];
        SpreadKept(g, source, ei, before, mark[..]);
      }
      ei := flow.next[ei];
    }
  }

  lemma InRangeTarget(g: Graph, e: nat)
    requires g.Valid() && e < |g.edges|
    ensures Target(g, e) < |g.nodes|
  {
  }

  lemma Justify(g: Graph, sensitive: seq<bool>, source: nat, mark: nat, e: nat)
    requires g.Valid() && Justified(g, sensitive, source, mark) && |sensitive| == |g.nodes|
    requires e < |g.edges| && Flows(g, e) && Owner(g, Flow, e) == source
    ensures Justified(g, sensitive, Target(g, e), mark) && mark != NIL
  {
    FlowIsPair(g, e);
    Step(FlowPairs(g), source, Target(g, e));
    Trans(FlowPairs(g), mark, source, Target(g, e));
  }

  /** Queue the sensitive documents, each as its own mark. */
  method Seed(g: Graph, sensitive: seq<bool>, marks: array<nat>, queue: array<nat>) returns (tail: nat)
    requires g.Valid() && |sensitive| == |g.nodes| == marks.Length == queue.Length && marks != queue
    requires forall n :: 0 <= n < |g.nodes| ==> marks[n] == NIL
    modifies marks, queue
    ensures tail <= queue.Length && Marked(g, sensitive, marks[..], queue[..tail])
    ensures forall n :: 0 <= n < |g.nodes| && sensitive[n] ==> marks[n] != NIL
  {
    hide FlowPairs;
    hide Reaches;
    tail := 0;
    for node := 0 to |g.nodes|
      invariant tail <= node
      invariant forall n :: 0 <= n < node && sensitive[n] ==> marks[n] != NIL
      invariant forall n :: node <= n < |g.nodes| ==> marks[n] == NIL
      invariant Marked(g, sensitive, marks[..], queue[..tail])
    {
      if sensitive[node] {
        Refl(FlowPairs(g), node);
        RoomFor(queue[..tail], node, |g.nodes|);
        marks[node] := node;
        queue[tail] := node;
        tail := tail + 1;
        assert queue[..tail] == queue[..tail - 1] + [node];
      }
    }
  }

  /** Mark every node that some sensitive document flows to, with a mark that
      really is such a document. */
  method Propagate(g: Graph, flow: Lists, sensitive: seq<bool>) returns (mark: seq<nat>)
    requires g.Valid() && Threaded(g, Flow, flow, 0) && |sensitive| == |g.nodes|
    ensures |mark| == |g.nodes|
    ensures forall n :: 0 <= n < |g.nodes| ==>
      (mark[n] != NIL <==> exists d :: 0 <= d < |g.nodes| && sensitive[d] && Reaches(FlowPairs(g), d, n))
    ensures forall n :: 0 <= n < |g.nodes| && mark[n] != NIL ==> Justified(g, sensitive, n, mark[n])
  {
    hide Threaded;
    hide Marked;
    hide Spread;
    hide Reaches;
    var marks := new nat[|g.nodes|](_ => NIL);
    var queue := new nat[|g.nodes|](_ => 0);
    var head := 0;
    var tail := Seed(g, sensitive, marks, queue);
    while head < tail
      invariant head <= tail <= queue.Length
      invariant Marked(g, sensitive, marks[..], queue[..tail])
      invariant forall n :: 0 <= n < |g.nodes| && sensitive[n] ==> marks[n] != NIL
      invariant forall i :: 0 <= i < head ==> Spread(g, queue[..tail][i], NIL, marks[..])
      decreases queue.Length - head
    {
      ghost var before, wasQueue := marks[..], queue[..tail];
      var next := Visit(g, flow, sensitive, marks, queue, head, tail);
      forall i | 0 <= i < head ensures Spread(g, queue[..next][i], NIL, marks[..]) {
        assert queue[..tail][i] == wasQueue[i];
        SpreadKept(g, wasQueue[i], NIL, before, marks[..]);
      }
      head, tail := head + 1, next;
    }
    mark := marks[..];
    MarksAreExact(g, sensitive, mark, queue[..tail]);
  }

  // The marked nodes are those that a sensitive document flows to.
  ghost predicate Exact(g: Graph, sensitive: seq<bool>, mark: seq<nat>)
    requires g.Valid() && |sensitive| == |mark| == |g.nodes|
  {
    forall n :: 0 <= n < |g.nodes| ==>
      (mark[n] != NIL <==> exists d :: 0 <= d < |g.nodes| && sensitive[d] && Reaches(FlowPairs(g), d, n))
  }

  /** Marks follow the data: along reads, pipes, substitutions and writes to an endpoint,
      and from an argument or a member back to its command or group. */
  lemma MarkFollowsData(g: Graph, sensitive: seq<bool>, mark: seq<nat>, e: nat)
    requires g.Valid() && |sensitive| == |mark| == |g.nodes| && Exact(g, sensitive, mark) && e < |g.edges|
    ensures var edge := g.edges[e];
      && (sensitive[edge.from] ==> mark[edge.from] != NIL)
      && (edge.kind == EdgeKind.Read && mark[edge.from] != NIL ==> mark[edge.to] != NIL)
      && (edge.kind == Pipe && mark[edge.from] != NIL ==> mark[edge.to] != NIL)
      && (edge.kind == Subst && mark[edge.from] != NIL ==> mark[edge.to] != NIL)
      && (edge.kind == EdgeKind.Write && g.nodes[edge.to] == Endpoint && mark[edge.from] != NIL ==> mark[edge.to] != NIL)
      && (edge.kind == Arg && mark[edge.to] != NIL ==> mark[edge.from] != NIL)
      && (edge.kind == Contains && g.nodes[edge.from] == Group && mark[edge.to] != NIL ==> mark[edge.from] != NIL)
  {
    hide Reaches;
    hide FlowPairs;
    if sensitive[g.edges[e].from] {
      Refl(FlowPairs(g), g.edges[e].from);
    }
    if Flows(g, e) && mark[Owner(g, Flow, e)] != NIL {
      var from, to := Owner(g, Flow, e), Target(g, e);
      var d :| 0 <= d < |g.nodes| && sensitive[d] && Reaches(FlowPairs(g), d, from);
      FlowIsPair(g, e);
      Step(FlowPairs(g), from, to);
      Trans(FlowPairs(g), d, from, to);
    }
  }

  /** Every mark comes from the node itself or along such an edge from a marked node. */
  lemma MarkComesFromData(g: Graph, sensitive: seq<bool>, mark: seq<nat>, n: nat) returns (e: nat)
    requires g.Valid() && |sensitive| == |mark| == |g.nodes| && Exact(g, sensitive, mark)
    requires n < |g.nodes| && mark[n] != NIL && !sensitive[n]
    ensures e < |g.edges|
    ensures var edge := g.edges[e];
      || (edge.to == n && edge.kind in {Read, Pipe, Subst} && mark[edge.from] != NIL)
      || (edge.to == n && edge.kind == EdgeKind.Write && g.nodes[n] == Endpoint && mark[edge.from] != NIL)
      || (edge.from == n && edge.kind == Arg && mark[edge.to] != NIL)
      || (edge.from == n && edge.kind == Contains && g.nodes[n] == Group && mark[edge.to] != NIL)
  {
    hide Reaches;
    var d :| 0 <= d < |g.nodes| && sensitive[d] && Reaches(FlowPairs(g), d, n);
    var p := LastStep(FlowPairs(g), d, n);
    e := PairIsFlow(g, p, n);
    assert mark[p] != NIL;
  }

  lemma MarksAreExact(g: Graph, sensitive: seq<bool>, mark: seq<nat>, queue: seq<nat>)
    requires g.Valid() && Marked(g, sensitive, mark, queue) && |sensitive| == |g.nodes|
    requires forall n :: 0 <= n < |g.nodes| && sensitive[n] ==> mark[n] != NIL
    requires forall i :: 0 <= i < |queue| ==> Spread(g, queue[i], NIL, mark)
    ensures forall n :: 0 <= n < |g.nodes| ==>
      (mark[n] != NIL <==> exists d :: 0 <= d < |g.nodes| && sensitive[d] && Reaches(FlowPairs(g), d, n))
    ensures forall n :: 0 <= n < |g.nodes| && mark[n] != NIL ==> Justified(g, sensitive, n, mark[n])
  {
    hide Reaches;
    hide Spread;
    hide FlowPairs;
    forall n, d | 0 <= n < |g.nodes| && 0 <= d < |g.nodes| && sensitive[d] && Reaches(FlowPairs(g), d, n)
      ensures mark[n] != NIL
    {
      Saturated(g, sensitive, mark, queue, d, n);
    }
    forall n | 0 <= n < |g.nodes| && mark[n] != NIL
      ensures exists d :: 0 <= d < |g.nodes| && sensitive[d] && Reaches(FlowPairs(g), d, n)
    {
      assert Justified(g, sensitive, n, mark[n]);
    }
  }

  // A marked set that is closed under flow contains everything it flows to.
  lemma Saturated(g: Graph, sensitive: seq<bool>, mark: seq<nat>, queue: seq<nat>, d: nat, n: nat)
    requires g.Valid() && Marked(g, sensitive, mark, queue)
    requires forall i :: 0 <= i < |queue| ==> Spread(g, queue[i], NIL, mark)
    requires d < |g.nodes| && mark[d] != NIL && Reaches(FlowPairs(g), d, n) && n < |g.nodes|
    ensures mark[n] != NIL
  {
    var p :| PathBetween(FlowPairs(g), p, d, n);
    AlongPath(g, sensitive, mark, queue, p, |p| - 1);
  }

  lemma {:induction false} AlongPath(g: Graph, sensitive: seq<bool>, mark: seq<nat>, queue: seq<nat>, p: seq<nat>, k: nat)
    requires g.Valid() && Marked(g, sensitive, mark, queue)
    requires forall i :: 0 <= i < |queue| ==> Spread(g, queue[i], NIL, mark)
    requires IsPath(FlowPairs(g), p) && p[0] < |g.nodes| && mark[p[0]] != NIL && k < |p|
    ensures p[k] < |g.nodes| && mark[p[k]] != NIL
  {
    if k > 0 {
      AlongPath(g, sensitive, mark, queue, p, k - 1);
      var e := PairIsFlow(g, p[k - 1], p[k]);
      assert p[k - 1] in queue;
      var i :| 0 <= i < |queue| && queue[i] == p[k - 1];
      assert Passed(g, Flow, p[k - 1], NIL, e);
    }
  }
}
