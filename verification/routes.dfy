/** Dynamic substitution routes and the commands they reach.

    A route delivers runtime bytes to an execution endpoint, directly or through a
    document.  A group hands what reaches it to everything it contains. */
module Routes {
  import opened NodeLists
  import opened Relation
  import opened DepGraph
  import opened GroupSummary
  import C = GroupContext

  predicate Executes(g: Graph, n: nat) {
    n < |g.nodes| && (g.nodes[n].Command? || g.nodes[n] == Group)
  }

  // ---- Routes and their consumers ----

  predicate Route(g: Graph, e: nat)
    requires g.Valid() && e < |g.edges|
  {
    var edge := g.edges[e];
    || edge.kind == Subst
    || (edge.kind == FdOpen && !edge.duplicates
        && if edge.hasTargetFd then (Executes(g, edge.from) || g.nodes[edge.from] == Endpoint) && Executes(g, edge.to)
           else edge.hasSourceFd && Executes(g, edge.from) && g.nodes[edge.to] == Endpoint)
  }

  // The endpoint that edge f sets up a file for, or NIL.
  function SetupOf(g: Graph, f: nat, document: nat): nat
    requires g.Valid() && f < |g.edges|
  {
    var edge := g.edges[f];
    if edge.kind == FdOpen && edge.duplicates then NIL
    else if edge.kind in {Read, FdOpen} && edge.from == document then edge.to
    else if edge.kind in {Write, Append, FdOpen} && edge.to == document then edge.from
    else NIL
  }

  // The endpoint that edge f hands the content or the name of a document to, or NIL.
  function Supplied(g: Graph, f: nat, document: nat, dynamicName: bool): (consumer: nat)
    requires g.Valid() && f < |g.edges| && document < |g.nodes| && g.nodes[document].Doc?
    ensures consumer != NIL ==> Executes(g, consumer) && Touches(g, f, document)
  {
    var edge, docKind := g.edges[f], g.nodes[document].docKind;
    var consumer :=
      if docKind in {HereDoc, HereString} && edge.kind == Read && edge.from == document then edge.to
      else if docKind == FileDoc && dynamicName then SetupOf(g, f, document)
      else NIL;
    if consumer != NIL && Executes(g, consumer) then consumer else NIL
  }

  /** Route e delivers to c: as its target, or through the document that is its target. */
  ghost predicate Consumer(g: Graph, e: nat, c: nat)
    requires g.Valid() && e < |g.edges|
  {
    var edge := g.edges[e];
    if (edge.kind == FdOpen && edge.hasTargetFd) || Executes(g, edge.to) then c == edge.to
    else
      && g.nodes[edge.to].Doc? && c != NIL
      && (exists f :: 0 <= f < |g.edges| && Supplied(g, f, edge.to, edge.dynamicName) == c)
  }

  // One of the edges on this list before the cursor hands the document to c.
  ghost predicate Handed(g: Graph, side: Side, document: nat, dynamicName: bool, cursor: nat, c: nat)
    requires g.Valid() && document < |g.nodes| && g.nodes[document].Doc?
  {
    exists f: nat :: Passed(g, side, document, cursor, f) && Supplied(g, f, document, dynamicName) == c
  }

  ghost predicate Noted(g: Graph, seen: seq<bool>, consumers: seq<nat>) {
    && |seen| == |g.nodes| && Distinct(consumers) && InRange(consumers, |g.nodes|)
    && forall c :: 0 <= c < |g.nodes| ==> (seen[c] <==> c in consumers)
  }

  lemma HandedMore(g: Graph, side: Side, lists: Lists, document: nat, dynamicName: bool, cursor: nat, c: nat)
    requires g.Valid() && Threaded(g, side, lists, 0) && document < |g.nodes| && g.nodes[document].Doc?
    requires cursor != NIL && OnList(g, side, document, cursor)
    ensures |lists.next| == |g.edges|
    ensures Handed(g, side, document, dynamicName, lists.next[cursor], c) <==>
      (Handed(g, side, document, dynamicName, cursor, c) || Supplied(g, cursor, document, dynamicName) == c)
  {
    hide Supplied;
    ListStep(g, side, lists, document, cursor);
    if Supplied(g, cursor, document, dynamicName) == c {
      assert Passed(g, side, document, lists.next[cursor], cursor);
    }
  }

  /** Add the endpoints that the edges of one list hand a document to, each once. */
  method WalkDocument(g: Graph, side: Side, lists: Lists, document: nat, dynamicName: bool, seen: array<bool>, before: seq<nat>)
    returns (consumers: seq<nat>)
    requires g.Valid() && Threaded(g, side, lists, 0) && document < |g.nodes| && g.nodes[document].Doc?
    requires Noted(g, seen[..], before)
    modifies seen
    ensures Noted(g, seen[..], consumers)
    ensures forall c: nat :: c in consumers <==> c in before || (c != NIL && Handed(g, side, document, dynamicName, NIL, c))
  {
    hide Threaded;
    hide Supplied;
    hide Handed;
    consumers := before;
    ListStart(g, side, lists, document);
    NothingHanded(g, side, lists, document, dynamicName);
    var ei := lists.head[document];
    while ei != NIL
      invariant OnList(g, side, document, ei) && Noted(g, seen[..], consumers)
      invariant forall c: nat :: c in consumers <==> c in before || (c != NIL && Handed(g, side, document, dynamicName, ei, c))
      decreases Left(g, ei)
    {
      ListStep(g, side, lists, document, ei);
      var consumer := Supplied(g, ei, document, dynamicName);
      forall c: nat
        ensures Handed(g, side, document, dynamicName, lists.next[ei], c) <==>
          (Handed(g, side, document, dynamicName, ei, c) || consumer == c)
      {
        HandedMore(g, side, lists, document, dynamicName, ei, c);
      }
      if consumer != NIL && !seen[consumer] {
        seen[consumer] := true;
        consumers := consumers + [consumer];
      }
      ei := lists.next[ei];
    }
  }

  lemma NothingHanded(g: Graph, side: Side, lists: Lists, document: nat, dynamicName: bool)
    requires g.Valid() && Threaded(g, side, lists, 0) && document < |g.nodes| && g.nodes[document].Doc?
    ensures |lists.head| == |g.nodes|
    ensures forall c: nat :: !Handed(g, side, document, dynamicName, lists.head[document], c)
  {
    hide Supplied;
    ListStart(g, side, lists, document);
  }

  /** The endpoints that a route delivers to, each once. */
  method RouteConsumers(g: Graph, a: Adjacency, e: nat) returns (consumers: seq<nat>)
    requires g.Valid() && Adjacent(g, a) && e < |g.edges| && Route(g, e)
    ensures Distinct(consumers) && InRange(consumers, |g.nodes|)
    ensures forall c: nat :: c in consumers <==> Consumer(g, e, c)
  {
    hide Threaded;
    hide Supplied;
    hide Handed;
    var edge := g.edges[e];
    if (edge.kind == FdOpen && edge.hasTargetFd) || Executes(g, edge.to) {
      return [edge.to];
    }
    if !g.nodes[edge.to].Doc? {
      return [];
    }
    var seen := new bool[|g.nodes|](_ => false);
    consumers := WalkDocument(g, Out, a.out, edge.to, edge.dynamicName, seen, []);
    consumers := WalkDocument(g, In, a.in_, edge.to, edge.dynamicName, seen, consumers);
    forall c: nat | c != NIL
      ensures (Handed(g, Out, edge.to, edge.dynamicName, NIL, c) || Handed(g, In, edge.to, edge.dynamicName, NIL, c))
        <==> Consumer(g, e, c)
    {
      HandedEither(g, edge.to, edge.dynamicName, c);
    }
  }

  // A supplying edge is on one of the two lists of its document.
  lemma HandedEither(g: Graph, document: nat, dynamicName: bool, c: nat)
    requires g.Valid() && document < |g.nodes| && g.nodes[document].Doc? && c != NIL
    ensures (Handed(g, Out, document, dynamicName, NIL, c) || Handed(g, In, document, dynamicName, NIL, c)) <==>
      exists f :: 0 <= f < |g.edges| && Supplied(g, f, document, dynamicName) == c
  {
    if exists f :: 0 <= f < |g.edges| && Supplied(g, f, document, dynamicName) == c {
      var f: nat :| f < |g.edges| && Supplied(g, f, document, dynamicName) == c;
      assert Passed(g, Out, document, NIL, f) || Passed(g, In, document, NIL, f);
    }
  }

  // ---- Marks ----

  /** What reaches a node: any dynamic route, and one whose bytes become part of a shell word. */
  datatype Mark = Mark(dynamic: bool, word: bool)

  const UNMARKED := Mark(false, false)

  function Join(a: Mark, b: Mark): Mark {
    Mark(a.dynamic || b.dynamic, a.word || b.word)
  }

  // One of the first k edges is a route, if asked one into a shell word.
  ghost predicate AnyRoute(g: Graph, k: nat, word: bool)
    requires g.Valid() && k <= |g.edges|
  {
    exists e :: 0 <= e < k && Route(g, e) && (word ==> g.edges[e].shellWord)
  }

  // One of the first k edges is such a route that delivers to n itself.
  ghost predicate Delivers(g: Graph, k: nat, n: nat, word: bool)
    requires g.Valid() && k <= |g.edges|
  {
    exists e :: 0 <= e < k && Route(g, e) && (word ==> g.edges[e].shellWord) && Consumer(g, e, n)
  }

  /** A route delivers to the node or to a group around it. */
  ghost predicate RouteReaches(g: Graph, n: nat, word: bool)
    requires g.Valid()
  {
    Delivers(g, |g.edges|, n, word) || exists h :: h in C.Around(g, n) && Delivers(g, |g.edges|, h, word)
  }

  ghost predicate Marked(m: Mark, dynamic: bool, word: bool) {
    m == Mark(dynamic, word)
  }

  ghost predicate DirectMarks(g: Graph, k: nat, marks: seq<Mark>)
    requires g.Valid() && k <= |g.edges|
  {
    |marks| == |g.nodes| && forall n :: 0 <= n < |g.nodes| ==> Marked(marks[n], Delivers(g, k, n, false), Delivers(g, k, n, true))
  }

  lemma DeliversMore(g: Graph, k: nat, n: nat, word: bool)
    requires g.Valid() && k < |g.edges|
    ensures Delivers(g, k + 1, n, word) <==>
      (Delivers(g, k, n, word) || (Route(g, k) && (word ==> g.edges[k].shellWord) && Consumer(g, k, n)))
    ensures AnyRoute(g, k + 1, word) <==> (AnyRoute(g, k, word) || (Route(g, k) && (word ==> g.edges[k].shellWord)))
  {
    hide Consumer;
    hide Route;
  }

  /** Which kinds of routes exist at all. */
  method FindRoutes(g: Graph) returns (found: Mark)
    requires g.Valid()
    ensures Marked(found, AnyRoute(g, |g.edges|, false), AnyRoute(g, |g.edges|, true))
  {
    hide Route;
    hide Delivers;
    hide AnyRoute;
    found := UNMARKED;
    NoRoutesYet(g);
    for ei := 0 to |g.edges|
      invariant Marked(found, AnyRoute(g, ei, false), AnyRoute(g, ei, true))
    {
      DeliversMore(g, ei, 0, false);
      DeliversMore(g, ei, 0, true);
      if Route(g, ei) {
        found := Join(found, Mark(true, g.edges[ei].shellWord));
      }
    }
  }

  /** Mark the endpoints of every route. */
  method MarkRoutes(g: Graph, a: Adjacency, marks: array<Mark>)
    requires g.Valid() && Adjacent(g, a) && marks.Length == |g.nodes| && forall n :: 0 <= n < marks.Length ==> marks[n] == UNMARKED
    modifies marks
    ensures DirectMarks(g, |g.edges|, marks[..])
  {
    hide Threaded;
    hide Route;
    hide Consumer;
    hide Delivers;
    hide AnyRoute;
    NoRoutesYet(g);
    for ei := 0 to |g.edges|
      invariant DirectMarks(g, ei, marks[..])
    {
      ghost var before := marks[..];
      var given := Mark(true, g.edges[ei].shellWord);
      forall n | 0 <= n < |g.nodes| ensures marks[n] == before[n] {
      }
      if Route(g, ei) {
        var consumers := RouteConsumers(g, a, ei);
        MarkEach(consumers, given, marks);
      }
      forall n | 0 <= n < |g.nodes| ensures Marked(marks[n], Delivers(g, ei + 1, n, false), Delivers(g, ei + 1, n, true)) {
        assert Marked(before[n], Delivers(g, ei, n, false), Delivers(g, ei, n, true));
        DeliversMore(g, ei, n, false);
        DeliversMore(g, ei, n, true);
      }
    }
  }

  lemma NoRoutesYet(g: Graph)
    requires g.Valid()
    ensures forall word :: !AnyRoute(g, 0, word)
    ensures forall n, word :: !Delivers(g, 0, n, word)
  {
  }

  method MarkEach(consumers: seq<nat>, given: Mark, marks: array<Mark>)
    requires Distinct(consumers) && InRange(consumers, marks.Length)
    modifies marks
    ensures forall n :: 0 <= n < marks.Length ==>
      marks[n] == if n in consumers then Join(old(marks[n]), given) else old(marks[n])
  {
    for i := 0 to |consumers|
      invariant forall n :: 0 <= n < marks.Length ==>
        marks[n] == if n in consumers[..i] then Join(old(marks[n]), given) else old(marks[n])
    {
      var c := consumers[i];
      assert consumers[..i + 1] == consumers[..i] + [c];
      marks[c] := Join(marks[c], given);
    }
    assert consumers[..|consumers|] == consumers;
  }

  // ---- Down the containment forest ----

  /** A member is reached directly or as its container is. */
  lemma MemberReached(g: Graph, group: nat, n: nat, word: bool)
    requires Forest(g) && (group, n) in g.ContainmentPairs()
    ensures RouteReaches(g, n, word) <==> Delivers(g, |g.edges|, n, word) || RouteReaches(g, group, word)
  {
    hide Delivers;
    hide Acyclic;
    hide Containers;
    hide C.Around;
    C.AroundMember(g, group, n);
  }

  lemma RootReached(g: Graph, n: nat, word: bool)
    requires g.Valid() && ParentOf(g, n, NIL)
    ensures RouteReaches(g, n, word) <==> Delivers(g, |g.edges|, n, word)
  {
    hide Delivers;
    C.AroundRoot(g, n);
  }

  // Roots and members of the groups taken so far have all their marks, the others their own.
  ghost predicate Inherited(g: Graph, parent: seq<nat>, marks: seq<Mark>, done: set<nat>)
    requires g.Valid()
  {
    && |parent| == |marks| == |g.nodes|
    && forall n :: 0 <= n < |g.nodes| ==>
      if parent[n] == NIL || parent[n] in done then Marked(marks[n], RouteReaches(g, n, false), RouteReaches(g, n, true))
      else Marked(marks[n], Delivers(g, |g.edges|, n, false), Delivers(g, |g.edges|, n, true))
  }

  // While the members of `group` are visited: those met so far have been given its marks.
  ghost predicate Sharing(g: Graph, group: nat, cursor: nat, before: seq<Mark>, marks: seq<Mark>, queueBefore: seq<nat>, queue: seq<nat>)
    requires g.Valid()
  {
    && |before| == |marks| == |g.nodes| && group < |g.nodes| && Distinct(queue) && InRange(queue, |g.nodes|) && queueBefore <= queue
    && (forall n :: 0 <= n < |g.nodes| ==>
         marks[n] == if C.Met(g, group, cursor, n) then Join(before[n], before[group]) else before[n])
    && (forall n :: 0 <= n < |g.nodes| ==>
         (n in queue <==> n in queueBefore || (IsGroup(g, n) && C.Met(g, group, cursor, n))))
  }

  /** Hand the marks of one group to its members. */
  method ShareMarks(g: Graph, out: Lists, marks: array<Mark>, queue: array<nat>, group: nat, tail: nat) returns (tail': nat)
    requires Forest(g) && Threaded(g, Out, out, 0)
    requires marks.Length == queue.Length == |g.nodes| && group < |g.nodes| && tail <= queue.Length
    requires Distinct(queue[..tail]) && InRange(queue[..tail], |g.nodes|)
    requires forall n :: 0 <= n < |g.nodes| && (group, n) in g.ContainmentPairs() ==> n !in queue[..tail] && n != group
    modifies marks, queue
    ensures tail <= tail' <= queue.Length
    ensures Sharing(g, group, NIL, old(marks[..]), marks[..], old(queue[..tail]), queue[..tail'])
  {
    hide Containers;
    hide Acyclic;
    hide Threaded;
    hide C.Met;
    ghost var before, wasQueue := marks[..], queue[..tail];
    tail' := tail;
    ListStart(g, Out, out, group);
    NobodyMet(g, out, group);
    var ei := out.head[group];
    while ei != NIL
      invariant OnList(g, Out, group, ei)
      invariant tail <= tail' <= queue.Length && marks[group] == before[group]
      invariant Sharing(g, group, ei, before, marks[..], wasQueue, queue[..tail'])
      decreases Left(g, ei)
    {
      ListStep(g, Out, out, group, ei);
      var next := out.next[ei];
      forall n | 0 <= n < |g.nodes|
        ensures C.Met(g, group, next, n) <==> (C.Met(g, group, ei, n) || (g.edges[ei].kind == Contains && g.edges[ei].to == n))
      {
        C.MetMore(g, out, group, ei, n);
      }
      if g.edges[ei].kind == Contains {
        C.MemberOf(g, group, ei);
        tail' := ShareWith(g, marks, queue, group, ei, next, tail', before, wasQueue);
      }
      ei := next;
    }
  }

  lemma NobodyMet(g: Graph, out: Lists, group: nat)
    requires g.Valid() && Threaded(g, Out, out, 0) && group < |g.nodes|
    ensures |out.head| == |g.nodes| && forall n :: !C.Met(g, group, out.head[group], n)
  {
    ListStart(g, Out, out, group);
  }

  method ShareWith(g: Graph, marks: array<Mark>, queue: array<nat>, group: nat, ei: nat, ghost next: nat, tail: nat,
                   ghost before: seq<Mark>, ghost wasQueue: seq<nat>)
    returns (tail': nat)
    requires g.Valid() && Containers(g) && marks.Length == queue.Length == |g.nodes| && group < |g.nodes|
    requires ei != NIL && OnList(g, Out, group, ei) && g.edges[ei].kind == Contains && tail <= queue.Length
    requires g.edges[ei].to !in wasQueue && g.edges[ei].to != group && |before| == |g.nodes| && marks[group] == before[group]
    requires Sharing(g, group, ei, before, marks[..], wasQueue, queue[..tail])
    requires forall n :: 0 <= n < |g.nodes| ==>
      (C.Met(g, group, next, n) <==> (C.Met(g, group, ei, n) || g.edges[ei].to == n))
    modifies marks, queue
    ensures tail <= tail' <= queue.Length && marks[group] == before[group]
    ensures Sharing(g, group, next, before, marks[..], wasQueue, queue[..tail'])
  {
    hide Containers;
    hide C.Met;
    var child := g.edges[ei].to;
    C.MetOnce(g, group, ei);
    marks[child] := Join(marks[child], marks[group]);
    tail' := tail;
    if g.nodes[child] == Group {
      RoomFor(queue[..tail], child, |g.nodes|);
      queue[tail] := child;
      tail' := tail + 1;
      assert queue[..tail'] == queue[..tail' - 1] + [child];
    }
  }

  lemma Shared(g: Graph, parent: seq<nat>, before: seq<Mark>, after: seq<Mark>, queue: seq<nat>, longer: seq<nat>, head: nat)
    requires Forest(g) && AllParents(g, parent) && head < |queue|
    requires C.Frontier(g, parent, queue, Members(queue[..head])) && Inherited(g, parent, before, Members(queue[..head]))
    requires Sharing(g, queue[head], NIL, before, after, queue, longer)
    ensures C.Frontier(g, parent, longer, Members(longer[..head + 1]))
    ensures Inherited(g, parent, after, Members(longer[..head + 1]))
  {
    hide Containers;
    hide Acyclic;
    hide Delivers;
    hide RouteReaches;
    hide C.Met;
    var group := queue[head];
    TakenNext(queue, head);
    assert longer[..head + 1] == queue[..head + 1];
    forall n | 0 <= n < |g.nodes| ensures C.Met(g, group, NIL, n) <==> (parent[n] == group && parent[n] != NIL) {
      assert ParentOf(g, n, parent[n]);
      C.MetAll(g, group, n);
      if parent[n] != NIL && C.Met(g, group, NIL, n) {
        OneContainer(g, parent[n], group, n);
      }
    }
    forall n | 0 <= n < |g.nodes| && C.Met(g, group, NIL, n)
      ensures Marked(after[n], RouteReaches(g, n, false), RouteReaches(g, n, true))
    {
      C.MetAll(g, group, n);
      MemberReached(g, group, n, false);
      MemberReached(g, group, n, true);
    }
  }

  /** Every node gets the marks of all groups around it. */
  method InheritMarks(g: Graph, out: Lists, parent: seq<nat>, marks: array<Mark>)
    requires Forest(g) && Threaded(g, Out, out, 0) && AllParents(g, parent)
    requires marks.Length == |g.nodes| && DirectMarks(g, |g.edges|, marks[..])
    modifies marks
    ensures forall n :: 0 <= n < |g.nodes| ==> Marked(marks[n], RouteReaches(g, n, false), RouteReaches(g, n, true))
  {
    hide Containers;
    hide Acyclic;
    hide Threaded;
    hide Sharing;
    hide Delivers;
    hide RouteReaches;
    hide ParentOf;
    var queue := new nat[|g.nodes|](_ => 0);
    var tail := QueueRoots(g, parent, queue);
    var head := 0;
    NothingInherited(g, parent, marks[..]);
    assert Members(queue[..0]) == {};
    while head < tail
      invariant head <= tail <= queue.Length
      invariant C.Frontier(g, parent, queue[..tail], Members(queue[..head]))
      invariant Inherited(g, parent, marks[..], Members(queue[..head]))
      decreases queue.Length - head
    {
      ghost var before, wasQueue := marks[..], queue[..tail];
      assert wasQueue[head] == queue[head] && wasQueue[..head] == queue[..head];
      C.NotYetQueued(g, parent, wasQueue, head);
      tail := ShareMarks(g, out, marks, queue, queue[head], tail);
      Shared(g, parent, before, marks[..], wasQueue, queue[..tail], head);
      assert queue[..tail][..head + 1] == queue[..head + 1];
      head := head + 1;
    }
    C.EveryGroupTaken(g, parent, queue[..tail]);
  }

  lemma NothingInherited(g: Graph, parent: seq<nat>, marks: seq<Mark>)
    requires g.Valid() && AllParents(g, parent) && DirectMarks(g, |g.edges|, marks)
    ensures Inherited(g, parent, marks, {})
  {
    hide Delivers;
    hide RouteReaches;
    forall n | 0 <= n < |g.nodes| && parent[n] == NIL
      ensures Marked(marks[n], RouteReaches(g, n, false), RouteReaches(g, n, true))
    {
      assert ParentOf(g, n, parent[n]);
      RootReached(g, n, false);
      RootReached(g, n, true);
    }
  }

  // ---- Routes, written out ----

  // A command or a compound command.
  ghost predicate Runs(g: Graph, n: nat) {
    n < |g.nodes| && (g.nodes[n].Command? || g.nodes[n].Group?)
  }

  /** Every substitution is a route, and so is the set-up of a process substitution: a descriptor of a command or
      group taken from another one or from a retained endpoint, or given to an endpoint; duplicates are not. */
  lemma RouteIs(g: Graph, e: nat)
    requires g.Valid() && e < |g.edges|
    ensures Route(g, e) <==>
      match g.edges[e].kind
      case Subst => true
      case FdOpen =>
        && !g.edges[e].duplicates
        && (|| (g.edges[e].hasTargetFd && Runs(g, g.edges[e].to) && (Runs(g, g.edges[e].from) || g.nodes[g.edges[e].from].Endpoint?))
            || (!g.edges[e].hasTargetFd && g.edges[e].hasSourceFd && Runs(g, g.edges[e].from) && g.nodes[g.edges[e].to].Endpoint?))
      case _ => false
  {
  }

  // Node c reads the document by edge f.
  ghost predicate ReadsHere(g: Graph, f: nat, document: nat, c: nat)
    requires g.Valid() && f < |g.edges|
  {
    g.edges[f].kind == EdgeKind.Read && g.edges[f].from == document && g.edges[f].to == c
  }

  // Node c opens the file by edge f, for input or output.
  ghost predicate Opens(g: Graph, f: nat, document: nat, c: nat)
    requires g.Valid() && f < |g.edges|
  {
    || ReadsHere(g, f, document, c)
    || (g.edges[f].kind in {EdgeKind.Write, EdgeKind.Append} && g.edges[f].from == c && g.edges[f].to == document)
    || (g.edges[f].kind == FdOpen && !g.edges[f].duplicates && g.edges[f].from == document && g.edges[f].to == c)
    || (g.edges[f].kind == FdOpen && !g.edges[f].duplicates && g.edges[f].from == c && g.edges[f].to == document)
  }

  /** Who consumes a route: the command or group it ends at; the readers of the here-document or here-string it ends
      at; and if its bytes became part of a file name, whoever opens that file. */
  lemma ConsumersAre(g: Graph, e: nat, c: nat)
    requires g.Valid() && e < |g.edges| && Route(g, e)
    ensures Runs(g, g.edges[e].to) ==> (Consumer(g, e, c) <==> c == g.edges[e].to)
    ensures g.nodes[g.edges[e].to].Doc? ==>
      var doc := g.nodes[g.edges[e].to].docKind;
      && (Consumer(g, e, c) ==> Runs(g, c))
      && (Runs(g, c) && doc in {HereDoc, HereString} ==>
           (Consumer(g, e, c) <==> exists f: nat :: f < |g.edges| && ReadsHere(g, f, g.edges[e].to, c)))
      && (Runs(g, c) && doc == FileDoc && g.edges[e].dynamicName ==>
           (Consumer(g, e, c) <==> exists f: nat :: f < |g.edges| && Opens(g, f, g.edges[e].to, c)))
      && (doc == FileDoc && !g.edges[e].dynamicName ==> !Consumer(g, e, c))
      && (doc == EnvDoc ==> !Consumer(g, e, c))
    ensures !Runs(g, g.edges[e].to) && !g.nodes[g.edges[e].to].Doc? ==> !Consumer(g, e, c)
  {
    hide Supplied;
    var document := g.edges[e].to;
    if g.nodes[document].Doc? {
      forall f: nat | f < |g.edges|
        ensures c != NIL && Supplied(g, f, document, g.edges[e].dynamicName) == c <==> SuppliedTo(g, f, document, g.edges[e].dynamicName, c)
      {
        SuppliedIs(g, f, document, g.edges[e].dynamicName, c);
      }
      if f: nat :| f < |g.edges| && SuppliedTo(g, f, document, g.edges[e].dynamicName, c) {
        assert Supplied(g, f, document, g.edges[e].dynamicName) == c;
      }
      if f: nat :| f < |g.edges| && ReadsHere(g, f, document, c) && Runs(g, c) && g.nodes[document].docKind in {HereDoc, HereString} {
        assert SuppliedTo(g, f, document, g.edges[e].dynamicName, c);
      }
      if f: nat :| f < |g.edges| && Opens(g, f, document, c) && Runs(g, c) && g.nodes[document].docKind == FileDoc && g.edges[e].dynamicName {
        assert SuppliedTo(g, f, document, g.edges[e].dynamicName, c);
      }
      if Consumer(g, e, c) {
        var f: nat :| f < |g.edges| && Supplied(g, f, document, g.edges[e].dynamicName) == c;
        assert SuppliedTo(g, f, document, g.edges[e].dynamicName, c);
      }
    }
  }

  ghost predicate SuppliedTo(g: Graph, f: nat, document: nat, dynamicName: bool, c: nat)
    requires g.Valid() && f < |g.edges| && document < |g.nodes| && g.nodes[document].Doc?
  {
    var doc := g.nodes[document].docKind;
    Runs(g, c) &&
    if doc in {HereDoc, HereString} then ReadsHere(g, f, document, c) else doc == FileDoc && dynamicName && Opens(g, f, document, c)
  }

  lemma SuppliedIs(g: Graph, f: nat, document: nat, dynamicName: bool, c: nat)
    requires g.Valid() && f < |g.edges| && document < |g.nodes| && g.nodes[document].Doc?
    ensures c != NIL && Supplied(g, f, document, dynamicName) == c <==> SuppliedTo(g, f, document, dynamicName, c)
  {
  }
}
