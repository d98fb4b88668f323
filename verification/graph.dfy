/** The dependency graph as the gate receives it, and its adjacency lists. */
module DepGraph {
  import opened Relation

  // The end of an adjacency list, and "no node".
  const NIL := 0xFFFF_FFFF

  datatype CommandKind = Simple | Arithmetic | Conditional

  datatype DocKind = FileDoc | HereDoc | HereString | EnvDoc

  datatype Node =
    | Command(tokenCount: nat, kind: CommandKind, hasRedirections: bool, timed: bool)
    | Doc(docKind: DocKind, implicit: bool)
    | Group
    | Endpoint
    | Time
    | Descriptor
    | Comparison

  datatype EdgeKind =
    | Read | Write | Append | Pipe | Arg | Env | Subst | Seq | And | Or | Cwd
    | Background | Contains | FdOpen | FdClose | Times | FileTest | FileCompare | FileLeft | FileRight

  /** The descriptor fields and flags that the gate looks at. */
  datatype Edge = Edge(
    kind: EdgeKind, from: nat, to: nat, hasSourceFd: bool, hasTargetFd: bool,
    duplicates: bool, envReadOnly: bool, shellWord: bool, dynamicName: bool)

  datatype Graph = Graph(nodes: seq<Node>, edges: seq<Edge>) {
    ghost predicate Valid() {
      && |nodes| < NIL && |edges| < NIL
      && forall e :: 0 <= e < |edges| ==> edges[e].from < |nodes| && edges[e].to < |nodes|
    }

    predicate Control(e: nat)
      requires e < |edges|
    {
      edges[e].kind in {Seq, And, Or, Pipe, Background, Contains}
    }

    // A containment edge out of a compound command.
    predicate Containment(e: nat)
      requires e < |edges| && edges[e].from < |nodes|
    {
      edges[e].kind == Contains && nodes[edges[e].from] == Group
    }

    ghost function ControlPairs(): Pairs {
      set e | 0 <= e < |edges| && Control(e) :: (edges[e].from, edges[e].to)
    }

    ghost function ContainmentPairs(): Pairs
      requires Valid()
    {
      set e | 0 <= e < |edges| && Containment(e) :: (edges[e].from, edges[e].to)
    }

    // The containment relation, written out.
    lemma ContainmentIs(a: nat, b: nat)
      requires Valid()
      ensures (a, b) in ContainmentPairs() <==>
        exists e :: 0 <= e < |edges| && edges[e].kind == EdgeKind.Contains && edges[e].from == a && edges[e].to == b && nodes[a] == Group
    {
    }

    lemma ContainmentIsControl()
      requires Valid()
      ensures ContainmentPairs() <= ControlPairs()
    {
      forall pair | pair in ContainmentPairs() ensures pair in ControlPairs() {
        var e :| 0 <= e < |edges| && Containment(e) && pair == (edges[e].from, edges[e].to);
        assert Control(e);
      }
    }
  }

  /** Three families of lists: by source node, by target node, and by the node
      that data flows out of. */
  datatype Side = Out | In | Flow

  // Data flows along the edge, from source to target.
  predicate FlowsForward(g: Graph, e: nat)
    requires g.Valid() && e < |g.edges|
  {
    || g.edges[e].kind in {Read, Pipe, Subst}
    || (g.edges[e].kind == Write && g.nodes[g.edges[e].to] == Endpoint)
  }

  // Data flows from the target of the edge to its source.
  predicate FlowsBackward(g: Graph, e: nat)
    requires g.Valid() && e < |g.edges|
  {
    g.edges[e].kind == Arg || g.Containment(e)
  }

  // The node whose list an edge is on, or NIL.
  function Owner(g: Graph, side: Side, e: nat): nat
    requires g.Valid() && e < |g.edges|
  {
    match side
    case Out => g.edges[e].from
    case In => g.edges[e].to
    case Flow =>
      if FlowsForward(g, e) then g.edges[e].from
      else if FlowsBackward(g, e) then g.edges[e].to
      else NIL
  }

  // The first edge at or after e on the list of node n.
  ghost function Next(g: Graph, side: Side, n: nat, e: nat): nat
    requires g.Valid()
    decreases |g.edges| - e
  {
    if e >= |g.edges| then NIL else if Owner(g, side, e) == n then e else Next(g, side, n, e + 1)
  }

  /** Linked lists of edges: one head per node, one link per edge. */
  datatype Lists = Lists(head: seq<nat>, next: seq<nat>)

  datatype Adjacency = Adjacency(out: Lists, in_: Lists)

  // The lists of the edges from ei on are threaded through head and next.
  ghost predicate Threaded(g: Graph, side: Side, lists: Lists, ei: nat)
    requires g.Valid()
  {
    && |lists.head| == |g.nodes| && |lists.next| == |g.edges|
    && (forall n :: 0 <= n < |g.nodes| ==> lists.head[n] == Next(g, side, n, ei))
    && (forall e :: ei <= e < |g.edges| && Owner(g, side, e) != NIL ==>
         lists.next[e] == Next(g, side, Owner(g, side, e), e + 1))
  }

  ghost predicate Adjacent(g: Graph, a: Adjacency)
    requires g.Valid()
  {
    Threaded(g, Out, a.out, 0) && Threaded(g, In, a.in_, 0)
  }

  method Push(g: Graph, side: Side, head: array<nat>, next: array<nat>, ei: nat)
    requires g.Valid() && head != next && ei < |g.edges|
    requires Threaded(g, side, Lists(head[..], next[..]), ei + 1)
    modifies head, next
    ensures Threaded(g, side, Lists(head[..], next[..]), ei)
  {
    hide Owner;
    hide Threaded;
    ghost var before := Lists(head[..], next[..]);
    PushThreads(g, side, before, ei);
    var node := Owner(g, side, ei);
    if node != NIL {
      next[ei] := head[node];
      head[node] := ei;
      assert head[..] == before.head[node := ei] && next[..] == before.next[ei := before.head[node]];
    }
  }

  lemma PushThreads(g: Graph, side: Side, lists: Lists, ei: nat)
    requires g.Valid() && ei < |g.edges| && Threaded(g, side, lists, ei + 1)
    ensures |lists.head| == |g.nodes| && |lists.next| == |g.edges|
    ensures var node := Owner(g, side, ei);
      if node == NIL then Threaded(g, side, lists, ei)
      else node < |g.nodes| && Threaded(g, side, Lists(lists.head[node := ei], lists.next[ei := lists.head[node]]), ei)
  {
    hide FlowsForward;
    hide FlowsBackward;
  }

  /** Push every edge, last one first, so that each list runs in edge order. */
  method BuildAdjacency(g: Graph) returns (a: Adjacency)
    requires g.Valid()
    ensures Adjacent(g, a)
  {
    var outHead := new nat[|g.nodes|](_ => NIL);
    var inHead := new nat[|g.nodes|](_ => NIL);
    var outNext := new nat[|g.edges|](_ => 0);
    var inNext := new nat[|g.edges|](_ => 0);
    var ei: nat := |g.edges|;
    while ei > 0
      invariant ei <= |g.edges|
      invariant Threaded(g, Out, Lists(outHead[..], outNext[..]), ei)
      invariant Threaded(g, In, Lists(inHead[..], inNext[..]), ei)
    {
      ei := ei - 1;
      Push(g, Out, outHead, outNext, ei);
      Push(g, In, inHead, inNext, ei);
    }
    a := Adjacency(Lists(outHead[..], outNext[..]), Lists(inHead[..], inNext[..]));
  }

  /** The data-flow lists, which skip the edges that carry no data. */
  method BuildFlow(g: Graph) returns (flow: Lists)
    requires g.Valid()
    ensures Threaded(g, Flow, flow, 0)
  {
    var head := new nat[|g.nodes|](_ => NIL);
    var next := new nat[|g.edges|](_ => 0);
    var ei: nat := |g.edges|;
    while ei > 0
      invariant ei <= |g.edges|
      invariant Threaded(g, Flow, Lists(head[..], next[..]), ei)
    {
      ei := ei - 1;
      Push(g, Flow, head, next, ei);
    }
    flow := Lists(head[..], next[..]);
  }

  // Edge e is on the list of node n and lies before the cursor.
  ghost predicate Passed(g: Graph, side: Side, n: nat, cursor: nat, e: nat)
    requires g.Valid()
  {
    e < |g.edges| && Owner(g, side, e) == n && (cursor == NIL || e < cursor)
  }

  // A cursor position on the list of n.
  ghost predicate OnList(g: Graph, side: Side, n: nat, cursor: nat)
    requires g.Valid()
  {
    cursor == NIL || (cursor < |g.edges| && Owner(g, side, cursor) == n)
  }

  lemma NextSpec(g: Graph, side: Side, n: nat, e: nat)
    requires g.Valid() && e <= |g.edges|
    ensures var next := Next(g, side, n, e);
      OnList(g, side, n, next) && (next != NIL ==> e <= next) &&
      forall k :: e <= k < |g.edges| && Owner(g, side, k) == n ==> next != NIL && next <= k
    decreases |g.edges| - e
  {
    hide FlowsForward;
    hide FlowsBackward;
    if e < |g.edges| && Owner(g, side, e) != n {
      NextSpec(g, side, n, e + 1);
    }
  }

  /** Walking a list meets every edge of the node, once, in order. */
  lemma ListStart(g: Graph, side: Side, lists: Lists, n: nat)
    requires g.Valid() && Threaded(g, side, lists, 0) && n < |g.nodes|
    ensures |lists.head| == |g.nodes| && |lists.next| == |g.edges|
    ensures OnList(g, side, n, lists.head[n])
    ensures forall e: nat :: !Passed(g, side, n, lists.head[n], e)
  {
    hide Next;
    hide Owner;
    NextSpec(g, side, n, 0);
  }

  lemma ListStep(g: Graph, side: Side, lists: Lists, n: nat, cursor: nat)
    requires g.Valid() && Threaded(g, side, lists, 0) && n < |g.nodes|
    requires cursor != NIL && OnList(g, side, n, cursor)
    ensures |lists.next| == |g.edges| && OnList(g, side, n, lists.next[cursor])
    ensures lists.next[cursor] == NIL || lists.next[cursor] > cursor
    ensures forall e: nat :: Passed(g, side, n, lists.next[cursor], e) <==> Passed(g, side, n, cursor, e) || e == cursor
  {
    hide Next;
    hide Owner;
    NextSpec(g, side, n, cursor + 1);
  }

  // The number of steps left on a list.
  ghost function Left(g: Graph, cursor: nat): nat {
    if cursor < |g.edges| then |g.edges| - cursor else 0
  }
}
