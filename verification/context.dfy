/** Result context inherited from enclosing groups.

    One pass down the containment forest gives every node the union of the flags
    and the sum of the counters of all groups around it. */
module GroupContext {
  import opened NodeLists
  import opened Relation
  import opened DepGraph
  import opened GroupSummary

  // Counters are 32 bits wide.
  const WIDTH: nat := 0x1_0000_0000

  datatype Facts = Facts(violations: set<nat>, writeCount: nat, readCount: nat, expansions: set<nat>)

  const NOTHING := Facts({}, 0, 0, {})

  function Plus(a: Facts, b: Facts): Facts {
    Facts(a.violations + b.violations, (a.writeCount + b.writeCount) % WIDTH, (a.readCount + b.readCount) % WIDTH, a.expansions + b.expansions)
  }

  // The groups around a node.
  ghost function Around(g: Graph, n: nat): set<nat>
    requires g.Valid()
  {
    set h: nat | h < |g.nodes| && h != n && Reaches(g.ContainmentPairs(), h, n)
  }

  // The sum of w over the members of s below n.
  ghost function SumBelow(n: nat, s: set<nat>, w: nat -> nat): nat {
    if n == 0 then 0 else SumBelow(n - 1, s, w) + if n - 1 in s then w(n - 1) else 0
  }

  lemma {:induction false} SumAdds(n: nat, s: set<nat>, x: nat, w: nat -> nat)
    requires x !in s
    ensures SumBelow(n, s + {x}, w) == SumBelow(n, s, w) + if x < n then w(x) else 0
  {
    if n > 0 {
      SumAdds(n - 1, s, x, w);
    }
  }

  lemma {:induction false} SumOfNone(n: nat, s: set<nat>, w: nat -> nat)
    requires s == {}
    ensures SumBelow(n, s, w) == 0
  {
    if n > 0 {
      SumOfNone(n - 1, s, w);
    }
  }

  ghost function Writes(own: seq<Facts>): nat -> nat {
    (i: nat) => if i < |own| then own[i].writeCount else 0
  }

  ghost function Reads(own: seq<Facts>): nat -> nat {
    (i: nat) => if i < |own| then own[i].readCount else 0
  }

  /** c is the union and the sum of what the groups in s own. */
  ghost predicate Totals(s: set<nat>, own: seq<Facts>, c: Facts) {
    && (forall v :: v in c.violations <==> exists h :: h in s && h < |own| && v in own[h].violations)
    && (forall v :: v in c.expansions <==> exists h :: h in s && h < |own| && v in own[h].expansions)
    && c.writeCount == SumBelow(|own|, s, Writes(own)) % WIDTH
    && c.readCount == SumBelow(|own|, s, Reads(own)) % WIDTH
  }

  lemma TotalsAdd(s: set<nat>, own: seq<Facts>, c: Facts, x: nat)
    requires Totals(s, own, c) && x !in s && x < |own|
    ensures Totals(s + {x}, own, Plus(c, own[x]))
  {
    hide SumBelow;
    SumAdds(|own|, s, x, Writes(own));
    SumAdds(|own|, s, x, Reads(own));
    WrapAdd(SumBelow(|own|, s, Writes(own)), own[x].writeCount);
    WrapAdd(SumBelow(|own|, s, Reads(own)), own[x].readCount);
    assert x in s + {x};
  }

  lemma WrapAdd(a: nat, b: nat)
    ensures (a % WIDTH + b) % WIDTH == (a + b) % WIDTH
  {
  }

  lemma TotalsOfNone(s: set<nat>, own: seq<Facts>)
    requires s == {}
    ensures Totals(s, own, NOTHING)
  {
    SumOfNone(|own|, s, Writes(own));
    SumOfNone(|own|, s, Reads(own));
  }

  /** Totals, written out: nothing around gives nothing, and one more group adds its flags to the sets
      and its counts to the counters, modulo 2 to the 32. */
  lemma TotalsAre(s: set<nat>, own: seq<Facts>, c: Facts, x: nat, d: Facts)
    requires Totals(s, own, c) && Totals(s + {x}, own, d) && x !in s && x < |own|
    ensures s == {} ==> c == Facts({}, 0, 0, {})
    ensures d.violations == c.violations + own[x].violations && d.expansions == c.expansions + own[x].expansions
    ensures d.writeCount == (c.writeCount + own[x].writeCount) % 0x1_0000_0000
    ensures d.readCount == (c.readCount + own[x].readCount) % 0x1_0000_0000
  {
    hide SumBelow;
    if s == {} {
      TotalsOfNone(s, own);
      OneTotal(s, own, c, NOTHING);
    }
    TotalsAdd(s, own, c, x);
    OneTotal(s + {x}, own, d, Plus(c, own[x]));
  }

  lemma OneTotal(s: set<nat>, own: seq<Facts>, c: Facts, d: Facts)
    requires Totals(s, own, c) && Totals(s, own, d)
    ensures c == d
  {
    hide SumBelow;
    assert c.violations == d.violations;
    assert c.expansions == d.expansions;
  }

  lemma AroundMember(g: Graph, group: nat, n: nat)
    requires Forest(g) && (group, n) in g.ContainmentPairs()
    ensures Around(g, n) == Around(g, group) + {group} && group !in Around(g, group) && group < |g.nodes|
  {
    var d := g.ContainmentPairs();
    ContainerIsGroup(g, group, n);
    Step(d, group, n);
    Refl(d, n);
    forall h: nat ensures h in Around(g, n) <==> h in Around(g, group) || h == group {
      if h in Around(g, n) {
        var p := LastStep(d, h, n);
        OneContainer(g, p, group, n);
      }
      if h in Around(g, group) {
        Trans(d, h, group, n);
        assert h == n ==> Reaches(d, n, group);
      }
    }
  }

  lemma AroundRoot(g: Graph, n: nat)
    requires g.Valid() && forall h :: (h, n) !in g.ContainmentPairs()
    ensures Around(g, n) == {}
  {
    forall h: nat ensures h !in Around(g, n) {
      if h in Around(g, n) {
        var p := LastStep(g.ContainmentPairs(), h, n);
      }
    }
  }

  // ---- The pass ----

  // The queue of the pass: roots, and the subgroups of the groups taken so far.
  ghost predicate Frontier(g: Graph, parent: seq<nat>, queue: seq<nat>, done: set<nat>) {
    && |parent| == |g.nodes| && Distinct(queue) && InRange(queue, |g.nodes|)
    && (forall h :: 0 <= h < |g.nodes| ==>
         (h in queue <==> IsGroup(g, h) && (parent[h] == NIL || parent[h] in done)))
  }

  // Roots and the members of the groups taken so far know their context.
  ghost predicate Informed(g: Graph, parent: seq<nat>, own: seq<Facts>, context: seq<Facts>, done: set<nat>)
    requires g.Valid()
  {
    && |parent| == |own| == |context| == |g.nodes|
    && forall n :: 0 <= n < |g.nodes| && (parent[n] == NIL || parent[n] in done) ==>
      Totals(Around(g, n), own, context[n])
  }

  // While the members of `group` are visited: those met so far.
  ghost predicate Met(g: Graph, group: nat, cursor: nat, n: nat)
    requires g.Valid()
  {
    exists e: nat :: Passed(g, Out, group, cursor, e) && g.edges[e].kind == Contains && g.edges[e].to == n
  }

  ghost predicate Halfway(g: Graph, group: nat, cursor: nat, given: Facts, before: seq<Facts>, context: seq<Facts>,
                          queueBefore: seq<nat>, queue: seq<nat>)
    requires g.Valid()
  {
    && |before| == |context| == |g.nodes| && Distinct(queue) && InRange(queue, |g.nodes|) && queueBefore <= queue
    && (forall n :: 0 <= n < |g.nodes| ==> context[n] == if Met(g, group, cursor, n) then given else before[n])
    && (forall n :: 0 <= n < |g.nodes| ==>
         (n in queue <==> n in queueBefore || (IsGroup(g, n) && Met(g, group, cursor, n))))
  }

  lemma MetMore(g: Graph, out: Lists, group: nat, cursor: nat, n: nat)
    requires g.Valid() && Threaded(g, Out, out, 0) && group < |g.nodes| && cursor != NIL && OnList(g, Out, group, cursor)
    ensures |out.next| == |g.edges|
    ensures Met(g, group, out.next[cursor], n) <==>
      (Met(g, group, cursor, n) || (g.edges[cursor].kind == Contains && g.edges[cursor].to == n))
  {
    ListStep(g, Out, out, group, cursor);
    if g.edges[cursor].kind == Contains && g.edges[cursor].to == n {
      assert Passed(g, Out, group, out.next[cursor], cursor);
    }
  }

  lemma MetOnce(g: Graph, group: nat, cursor: nat)
    requires g.Valid() && Containers(g) && cursor != NIL && OnList(g, Out, group, cursor) && g.edges[cursor].kind == Contains
    ensures !Met(g, group, cursor, g.edges[cursor].to)
  {
  }

  lemma MetAll(g: Graph, group: nat, n: nat)
    requires g.Valid() && Containers(g)
    ensures Met(g, group, NIL, n) <==> (group, n) in g.ContainmentPairs()
  {
    if Met(g, group, NIL, n) {
      var e: nat :| Passed(g, Out, group, NIL, e) && g.edges[e].kind == Contains && g.edges[e].to == n;
      assert g.Containment(e);
    }
    if (group, n) in g.ContainmentPairs() {
      var e :| 0 <= e < |g.edges| && g.Containment(e) && (g.edges[e].from, g.edges[e].to) == (group, n);
      assert Passed(g, Out, group, NIL, e);
    }
  }

  /** Hand the context of one group, and what it owns itself, to its members. */
  method HandToMembers(g: Graph, out: Lists, parent: seq<nat>, own: seq<Facts>, context: array<Facts>, queue: array<nat>,
                  group: nat, tail: nat)
    returns (tail': nat)
    requires Forest(g) && Threaded(g, Out, out, 0) && AllParents(g, parent)
    requires context.Length == queue.Length == |own| == |g.nodes| && group < |g.nodes| && tail <= queue.Length
    requires Distinct(queue[..tail]) && InRange(queue[..tail], |g.nodes|)
    requires forall n :: 0 <= n < |g.nodes| && (group, n) in g.ContainmentPairs() ==> n !in queue[..tail] && n != group
    modifies context, queue
    ensures tail <= tail' <= queue.Length
    ensures Halfway(g, group, NIL, Plus(old(context[group]), own[group]), old(context[..]), context[..],
                    old(queue[..tail]), queue[..tail'])
  {
    hide Containers;
    hide Acyclic;
    hide Threaded;
    hide AllParents;
    ghost var given, before, wasQueue := Plus(context[group], own[group]), context[..], queue[..tail];
    tail' := tail;
    ListStart(g, Out, out, group);
    var ei := out.head[group];
    while ei != NIL
      invariant OnList(g, Out, group, ei)
      invariant tail <= tail' <= queue.Length && context[group] == before[group]
      invariant Halfway(g, group, ei, given, before, context[..], wasQueue, queue[..tail'])
      decreases Left(g, ei)
    {
      ListStep(g, Out, out, group, ei);
      var next := out.next[ei];
      forall n | 0 <= n < |g.nodes|
        ensures Met(g, group, next, n) <==> (Met(g, group, ei, n) || (g.edges[ei].kind == Contains && g.edges[ei].to == n))
      {
        MetMore(g, out, group, ei, n);
      }
      if g.edges[ei].kind == Contains {
        MemberOf(g, group, ei);
        tail' := OneMember(g, own, context, queue, group, ei, next, tail', given, before, wasQueue);
      }
      ei := next;
    }
  }

  lemma MemberOf(g: Graph, group: nat, e: nat)
    requires g.Valid() && Containers(g) && e != NIL && OnList(g, Out, group, e) && g.edges[e].kind == Contains
    ensures (group, g.edges[e].to) in g.ContainmentPairs()
  {
    assert g.Containment(e);
  }

  method OneMember(g: Graph, own: seq<Facts>, context: array<Facts>, queue: array<nat>, group: nat, ei: nat, ghost next: nat,
                   tail: nat, ghost given: Facts, ghost before: seq<Facts>, ghost wasQueue: seq<nat>)
    returns (tail': nat)
    requires g.Valid() && Containers(g) && context.Length == queue.Length == |own| == |g.nodes| && group < |g.nodes|
    requires ei != NIL && OnList(g, Out, group, ei) && g.edges[ei].kind == Contains && tail <= queue.Length
    requires g.edges[ei].to !in wasQueue && g.edges[ei].to != group
    requires |before| == |g.nodes| && given == Plus(context[group], own[group]) && context[group] == before[group]
    requires Halfway(g, group, ei, given, before, context[..], wasQueue, queue[..tail])
    requires forall n :: 0 <= n < |g.nodes| ==>
      (Met(g, group, next, n) <==> (Met(g, group, ei, n) || g.edges[ei].to == n))
    modifies context, queue
    ensures tail <= tail' <= queue.Length && context[group] == before[group]
    ensures Halfway(g, group, next, given, before, context[..], wasQueue, queue[..tail'])
  {
    hide Containers;
    hide Met;
    var child := g.edges[ei].to;
    MetOnce(g, group, ei);
    context[child] := Plus(context[group], own[group]);
    tail' := tail;
    if g.nodes[child] == Group {
      RoomFor(queue[..tail], child, |g.nodes|);
      queue[tail] := child;
      tail' := tail + 1;
      assert queue[..tail'] == queue[..tail' - 1] + [child];
    }
  }

  lemma Taken(g: Graph, parent: seq<nat>, own: seq<Facts>, before: seq<Facts>, after: seq<Facts>,
              queue: seq<nat>, longer: seq<nat>, head: nat)
    requires Forest(g) && AllParents(g, parent) && head < |queue| && |own| == |g.nodes|
    requires Frontier(g, parent, queue, Members(queue[..head])) && Informed(g, parent, own, before, Members(queue[..head]))
    requires Halfway(g, queue[head], NIL, Plus(before[queue[head]], own[queue[head]]), before, after, queue, longer)
    ensures Frontier(g, parent, longer, Members(longer[..head + 1]))
    ensures Informed(g, parent, own, after, Members(longer[..head + 1]))
  {
    hide Containers;
    hide Acyclic;
    hide Totals;
    hide Around;
    hide Met;
    var group := queue[head];
    TakenNext(queue, head);
    assert longer[..head + 1] == queue[..head + 1];
    var done, done' := Members(queue[..head]), Members(longer[..head + 1]);
    forall n | 0 <= n < |g.nodes| ensures Met(g, group, NIL, n) <==> (parent[n] == group && parent[n] != NIL) {
      assert ParentOf(g, n, parent[n]);
      MetAll(g, group, n);
      if parent[n] != NIL && Met(g, group, NIL, n) {
        OneContainer(g, parent[n], group, n);
      }
    }
    forall n | 0 <= n < |g.nodes| && (parent[n] == NIL || parent[n] in done') ensures Totals(Around(g, n), own, after[n]) {
      if Met(g, group, NIL, n) {
        MetAll(g, group, n);
        AroundMember(g, group, n);
        TotalsAdd(Around(g, group), own, before[group], group);
      }
    }
  }

  /** Every node gets the totals of all groups around it. */
  method Prepare(g: Graph, out: Lists, parent: seq<nat>, own: seq<Facts>) returns (context: seq<Facts>)
    requires Forest(g) && Threaded(g, Out, out, 0) && AllParents(g, parent) && |own| == |g.nodes|
    ensures |context| == |g.nodes|
    ensures forall n :: 0 <= n < |g.nodes| ==> Totals(Around(g, n), own, context[n])
  {
    hide Containers;
    hide Acyclic;
    hide Threaded;
    hide Totals;
    hide Halfway;
    hide Around;
    hide ParentOf;
    var cells := new Facts[|g.nodes|](_ => NOTHING);
    var queue := new nat[|g.nodes|](_ => 0);
    var tail := QueueRoots(g, parent, queue);
    var head := 0;
    forall n | 0 <= n < |g.nodes| && parent[n] == NIL ensures Totals(Around(g, n), own, NOTHING) {
      assert ParentOf(g, n, parent[n]);
      NoContainer(g, n);
      TotalsOfNone(Around(g, n), own);
    }
    assert Members(queue[..0]) == {};
    while head < tail
      invariant head <= tail <= queue.Length
      invariant Frontier(g, parent, queue[..tail], Members(queue[..head]))
      invariant Informed(g, parent, own, cells[..], Members(queue[..head]))
      decreases queue.Length - head
    {
      ghost var before, wasQueue := cells[..], queue[..tail];
      assert wasQueue[head] == queue[head] && wasQueue[..head] == queue[..head];
      NotYetQueued(g, parent, wasQueue, head);
      tail := HandToMembers(g, out, parent, own, cells, queue, queue[head], tail);
      LongerQueue(g, wasQueue[head], Plus(before[wasQueue[head]], own[wasQueue[head]]), before, cells[..], wasQueue, queue[..tail]);
      Taken(g, parent, own, before, cells[..], wasQueue, queue[..tail], head);
      assert queue[..tail][..head + 1] == queue[..head + 1];
      head := head + 1;
    }
    EveryGroupTaken(g, parent, queue[..tail]);
    context := cells[..];
  }

  lemma NoContainer(g: Graph, n: nat)
    requires g.Valid() && ParentOf(g, n, NIL)
    ensures Around(g, n) == {}
  {
    AroundRoot(g, n);
  }

  lemma LongerQueue(g: Graph, group: nat, given: Facts, before: seq<Facts>, context: seq<Facts>, queue: seq<nat>, longer: seq<nat>)
    requires g.Valid() && Halfway(g, group, NIL, given, before, context, queue, longer)
    ensures queue <= longer
  {
  }

  lemma NotYetQueued(g: Graph, parent: seq<nat>, queue: seq<nat>, head: nat)
    requires Forest(g) && AllParents(g, parent) && head < |queue|
    requires Frontier(g, parent, queue, Members(queue[..head]))
    ensures queue[head] < |g.nodes|
    ensures forall n :: 0 <= n < |g.nodes| && (queue[head], n) in g.ContainmentPairs() ==> n !in queue && n != queue[head]
  {
    hide Containers;
    TakenNext(queue, head);
    forall n | 0 <= n < |g.nodes| && (queue[head], n) in g.ContainmentPairs() ensures parent[n] == queue[head] && n != queue[head] {
      assert ParentOf(g, n, parent[n]);
      if parent[n] != NIL {
        OneContainer(g, queue[head], parent[n], n);
      }
      Refl(g.ContainmentPairs(), n);
    }
  }

  lemma EveryGroupTaken(g: Graph, parent: seq<nat>, queue: seq<nat>)
    requires Forest(g) && AllParents(g, parent) && Frontier(g, parent, queue, Members(queue))
    ensures forall n :: 0 <= n < |g.nodes| ==> parent[n] == NIL || parent[n] in Members(queue)
  {
    hide Containers;
    var missing := set h: nat | h < |g.nodes| && IsGroup(g, h) && h !in queue;
    if missing != {} {
      var m := MinimalMember(g.ContainmentPairs(), missing);
      ContainerTaken(g, parent, queue, missing, m);
    }
    forall n | 0 <= n < |g.nodes| ensures parent[n] == NIL || parent[n] in queue {
      assert ParentOf(g, n, parent[n]);
      ParentInRange(g, n, parent[n]);
      assert parent[n] !in missing;
    }
  }

  lemma ContainerTaken(g: Graph, parent: seq<nat>, queue: seq<nat>, missing: set<nat>, m: nat)
    requires g.Valid() && Containers(g) && AllParents(g, parent) && Frontier(g, parent, queue, Members(queue)) && IsGroup(g, m)
    requires forall h: nat :: h in missing <==> (h < |g.nodes| && IsGroup(g, h) && h !in queue)
    requires forall p :: p in missing ==> (p, m) !in g.ContainmentPairs()
    ensures m in queue
  {
    hide Containers;
    assert ParentOf(g, m, parent[m]);
    ParentInRange(g, m, parent[m]);
  }

  // ---- Written out ----

  /** Along a containment edge the member's context is that of its group plus what the group owns, counters
      modulo 2 to the 32; a node that no containment edge enters has nothing. */
  lemma ContextIs(g: Graph, own: seq<Facts>, context: seq<Facts>, n: nat)
    requires Forest(g) && |own| == |context| == |g.nodes| && n < |g.nodes|
    requires forall m :: 0 <= m < |g.nodes| ==> Totals(Around(g, m), own, context[m])
    ensures (forall e :: 0 <= e < |g.edges| && g.edges[e].kind == Contains ==> g.edges[e].to != n) ==>
      context[n] == Facts({}, 0, 0, {})
    ensures forall e :: 0 <= e < |g.edges| && g.edges[e].kind == Contains && g.edges[e].to == n ==>
      var h := g.edges[e].from;
      && context[n].violations == context[h].violations + own[h].violations
      && context[n].expansions == context[h].expansions + own[h].expansions
      && context[n].writeCount == (context[h].writeCount + own[h].writeCount) % 0x1_0000_0000
      && context[n].readCount == (context[h].readCount + own[h].readCount) % 0x1_0000_0000
  {
    hide Totals;
    hide Around;
    hide Acyclic;
    if forall e :: 0 <= e < |g.edges| && g.edges[e].kind == Contains ==> g.edges[e].to != n {
      forall h: nat ensures (h, n) !in g.ContainmentPairs() {
        g.ContainmentIs(h, n);
      }
      AroundRoot(g, n);
      TotalsOfNone(Around(g, n), own);
      OneTotal(Around(g, n), own, context[n], NOTHING);
    }
    forall e | 0 <= e < |g.edges| && g.edges[e].kind == Contains && g.edges[e].to == n
      ensures var h := g.edges[e].from;
        && context[n].violations == context[h].violations + own[h].violations
        && context[n].expansions == context[h].expansions + own[h].expansions
        && context[n].writeCount == (context[h].writeCount + own[h].writeCount) % 0x1_0000_0000
        && context[n].readCount == (context[h].readCount + own[h].readCount) % 0x1_0000_0000
    {
      var h: nat := g.edges[e].from;
      assert g.Containment(e);
      assert (h, n) in g.ContainmentPairs();
      AroundMember(g, h, n);
      TotalsAre(Around(g, h), own, context[h], h, context[n]);
    }
  }
}
