/** Passes over the containment forest of compound commands.

    One scan of the edges collects, for every group, its direct facts and its
    subgroups; a pass from the leaves up and a pass from the roots down then
    decide which groups hide observable I/O from the argv policy. */
module GroupSummary {
  import opened NodeLists
  import opened Relation
  import opened DepGraph

  // What graph validation promises about containment.
  ghost predicate Forest(g: Graph) {
    g.Valid() && Containers(g) && Acyclic(g.ContainmentPairs())
  }

  // Only groups contain, and a node has at most one container.
  ghost predicate Containers(g: Graph)
    requires g.Valid()
  {
    && (forall e :: 0 <= e < |g.edges| && g.edges[e].kind == Contains ==> g.Containment(e))
    && (forall e, f :: (0 <= e < |g.edges| && 0 <= f < |g.edges| && g.edges[e].kind == Contains && g.edges[f].kind == Contains
         && g.edges[e].to == g.edges[f].to) ==> e == f)
  }

  // ---- What the passes decide ----

  predicate Observable(g: Graph, e: nat)
    requires g.Valid() && e < |g.edges|
  {
    var from, to := g.nodes[g.edges[e].from], g.nodes[g.edges[e].to];
    && from != Descriptor && to != Descriptor
    && !(from.Doc? && from.implicit)
    && g.edges[e].kind in {Read, Write, Append, FdOpen, FdClose}
  }

  ghost predicate HasObservableIo(g: Graph, n: nat)
    requires g.Valid()
  {
    Touched(g, |g.edges|, n)
  }

  predicate TokenBearing(g: Graph, n: nat) {
    n < |g.nodes| && g.nodes[n].Command? && g.nodes[n].tokenCount > 0
  }

  // A token-bearing command anywhere below the group.
  ghost predicate HasSubject(g: Graph, h: nat)
    requires g.Valid()
  {
    exists c: nat :: TokenBearing(g, c) && Reaches(g.ContainmentPairs(), h, c)
  }

  // Observable I/O that no contained command can authorize.
  ghost predicate Hidden(g: Graph, h: nat)
    requires g.Valid()
  {
    HasObservableIo(g, h) && !HasSubject(g, h)
  }

  /** Some group around the node, or the node itself, hides I/O. */
  ghost predicate Unsafe(g: Graph, n: nat)
    requires g.Valid()
  {
    exists h :: Reaches(g.ContainmentPairs(), h, n) && Hidden(g, h)
  }

  // A command without an argument vector.
  predicate ArgvLess(g: Graph, n: nat) {
    n < |g.nodes| && g.nodes[n].Command? && g.nodes[n].tokenCount == 0
  }

  predicate IsConditional(g: Graph, n: nat) {
    n < |g.nodes| && g.nodes[n].Command? && g.nodes[n].kind == Conditional
  }

  /** At this endpoint the edge does nothing that a policy would have to judge. */
  predicate Compatible(g: Graph, e: nat, n: nat)
    requires g.Valid() && e < |g.edges|
  {
    var edge := g.edges[e];
    || (!Observable(g, e) && edge.kind in {Read, Write, Append})
    || (edge.kind == Times && edge.to == n)
    || (edge.kind == Contains && edge.to == n && g.nodes[edge.from] == Group)
    || edge.kind in {Seq, And, Or, Background}
    || (IsConditional(g, n) && edge.kind in {FileTest, FileCompare} && edge.from == n)
    || (IsConditional(g, n) && edge.kind == Env && edge.envReadOnly && edge.to == n)
    || (IsConditional(g, n) && edge.kind == Subst && edge.to == n)
  }

  predicate Touches(g: Graph, e: nat, n: nat)
    requires e < |g.edges|
  {
    g.edges[e].from == n || g.edges[e].to == n
  }

  // The first k edges at n are compatible.
  ghost predicate AllCompatible(g: Graph, k: nat, n: nat)
    requires g.Valid() && k <= |g.edges|
  {
    forall e :: 0 <= e < k && Touches(g, e, n) ==> Compatible(g, e, n)
  }

  // One of the first k edges times n.
  ghost predicate TimedBy(g: Graph, k: nat, n: nat)
    requires g.Valid() && k <= |g.edges|
  {
    exists e :: 0 <= e < k && g.edges[e].kind == Times && g.edges[e].to == n
  }

  predicate IsGroup(g: Graph, n: nat) {
    n < |g.nodes| && g.nodes[n] == Group
  }

  // ---- The scan ----

  // One of the first k edges makes h the container of n.
  ghost predicate Has(g: Graph, k: nat, h: nat, n: nat)
    requires g.Valid() && k <= |g.edges|
  {
    exists e :: 0 <= e < k && g.Containment(e) && g.edges[e].from == h && g.edges[e].to == n
  }

  lemma HasAll(g: Graph, h: nat, n: nat)
    requires g.Valid()
    ensures Has(g, |g.edges|, h, n) <==> (h, n) in g.ContainmentPairs()
  {
  }

  lemma HasMore(g: Graph, k: nat, h: nat, n: nat)
    requires g.Valid() && k < |g.edges|
    ensures Has(g, k + 1, h, n) <==> Has(g, k, h, n) || (g.Containment(k) && g.edges[k].from == h && g.edges[k].to == n)
  {
  }

  // Before its containment edge is met, a node has no container.
  lemma FreshMember(g: Graph, k: nat, h: nat)
    requires g.Valid() && Containers(g) && k < |g.edges| && g.edges[k].kind == Contains
    ensures g.Containment(k) && !Has(g, k, h, g.edges[k].to)
  {
  }

  ghost predicate Parents(g: Graph, k: nat, parent: seq<nat>)
    requires g.Valid() && k <= |g.edges|
  {
    && |parent| == |g.nodes|
    && forall n :: 0 <= n < |g.nodes| ==> ParentIs(g, k, n, parent[n])
  }

  ghost predicate ParentIs(g: Graph, k: nat, n: nat, parent: nat)
    requires g.Valid() && k <= |g.edges|
  {
    if parent == NIL then forall h :: !Has(g, k, h, n) else parent < |g.nodes| && Has(g, k, parent, n)
  }

  ghost predicate ObservableSoFar(g: Graph, k: nat, observable: seq<bool>)
    requires g.Valid() && k <= |g.edges|
  {
    && |observable| == |g.nodes|
    && forall n :: 0 <= n < |g.nodes| ==> (observable[n] <==> Touched(g, k, n))
  }

  // One of the first k edges is observable I/O of n.
  ghost predicate Touched(g: Graph, k: nat, n: nat)
    requires g.Valid() && k <= |g.edges|
  {
    exists e :: 0 <= e < k && Observable(g, e) && (g.edges[e].from == n || g.edges[e].to == n)
  }

  lemma TouchedMore(g: Graph, k: nat, n: nat)
    requires g.Valid() && k < |g.edges|
    ensures Touched(g, k + 1, n) <==> Touched(g, k, n) || (Observable(g, k) && (g.edges[k].from == n || g.edges[k].to == n))
  {
  }

  ghost predicate SubjectsSoFar(g: Graph, k: nat, subject: seq<bool>)
    requires g.Valid() && k <= |g.edges|
  {
    && |subject| == |g.nodes|
    && forall n :: 0 <= n < |g.nodes| ==> (subject[n] <==> exists c: nat :: TokenBearing(g, c) && Has(g, k, n, c))
  }

  /** The subgroups of every group: their number, and a list of them. */
  datatype Children = Children(count: seq<nat>, first: seq<nat>, next: seq<nat>)

  function KidAfter(kids: seq<nat>, i: nat): nat {
    if i + 1 < |kids| then kids[i + 1] else NIL
  }

  ghost predicate Listed(g: Graph, k: nat, c: Children, h: nat, kids: seq<nat>)
    requires g.Valid() && k <= |g.edges| && |c.count| == |c.first| == |c.next| == |g.nodes| && h < |g.nodes|
  {
    && Distinct(kids) && InRange(kids, |g.nodes|) && |kids| == c.count[h]
    && (forall n: nat :: n in kids <==> (IsGroup(g, n) && Has(g, k, h, n)))
    && c.first[h] == (if kids == [] then NIL else kids[0])
    && (forall i :: 0 <= i < |kids| ==> c.next[kids[i]] == KidAfter(kids, i))
  }

  ghost predicate ChildrenSoFar(g: Graph, k: nat, c: Children, kids: seq<seq<nat>>)
    requires g.Valid() && k <= |g.edges|
  {
    && |c.count| == |c.first| == |c.next| == |kids| == |g.nodes|
    && forall h :: 0 <= h < |g.nodes| ==> Listed(g, k, c, h, kids[h])
  }

  // What the first k edges say about argv-less commands and about timing.
  ghost predicate EndpointsSoFar(g: Graph, k: nat, compatible: seq<bool>, timing: seq<bool>)
    requires g.Valid() && k <= |g.edges|
  {
    && |compatible| == |timing| == |g.nodes|
    && (forall n :: 0 <= n < |g.nodes| && ArgvLess(g, n) ==> (compatible[n] <==> AllCompatible(g, k, n)))
    && (forall n :: 0 <= n < |g.nodes| ==> (timing[n] <==> TimedBy(g, k, n)))
  }

  lemma CompatibleMore(g: Graph, k: nat, n: nat)
    requires g.Valid() && k < |g.edges|
    ensures AllCompatible(g, k + 1, n) <==> (AllCompatible(g, k, n) && (Touches(g, k, n) ==> Compatible(g, k, n)))
    ensures TimedBy(g, k + 1, n) <==> (TimedBy(g, k, n) || (g.edges[k].kind == Times && g.edges[k].to == n))
  {
    hide Compatible;
  }

  // The children after edge k has pushed its target on the list of its source.
  ghost predicate Pushes(g: Graph, k: nat, c: Children, d: Children)
    requires g.Valid() && k < |g.edges| && |c.count| == |c.first| == |c.next| == |g.nodes|
  {
    var edge := g.edges[k];
    d == Children(c.count[edge.from := c.count[edge.from] + 1], c.first[edge.from := edge.to], c.next[edge.to := c.first[edge.from]])
  }

  lemma ChildAdded(g: Graph, k: nat, c: Children, d: Children, h: nat, kids: seq<nat>)
    requires g.Valid() && Containers(g) && k < |g.edges| && g.edges[k].kind == Contains && IsGroup(g, g.edges[k].to)
    requires |c.count| == |c.first| == |c.next| == |g.nodes| && h < |g.nodes| && Pushes(g, k, c, d)
    requires Listed(g, k, c, h, kids)
    ensures Listed(g, k + 1, d, h, if h == g.edges[k].from then [g.edges[k].to] + kids else kids)
  {
    hide Has;
    var edge, after := g.edges[k], k + 1;
    FreshMember(g, k, h);
    forall n: nat ensures Has(g, after, h, n) <==> Has(g, k, h, n) || (edge.from == h && edge.to == n) {
      HasMore(g, k, h, n);
    }
    assert edge.to !in kids;
    if h == edge.from {
      FrontAdded(kids, edge.to, c.next, d.next, |g.nodes|);
    } else {
      assert forall i :: 0 <= i < |kids| ==> kids[i] in kids;
    }
  }

  lemma FrontAdded(kids: seq<nat>, k: nat, next: seq<nat>, next': seq<nat>, n: nat)
    requires Distinct(kids) && InRange(kids, n) && k < n && k !in kids && |next| == n
    requires forall i :: 0 <= i < |kids| ==> next[kids[i]] == KidAfter(kids, i)
    requires next' == next[k := if kids == [] then NIL else kids[0]]
    ensures var kids' := [k] + kids;
      Distinct(kids') && InRange(kids', n) && (forall x :: x in kids' <==> x == k || x in kids)
      && forall i :: 0 <= i < |kids'| ==> next'[kids'[i]] == KidAfter(kids', i)
  {
    var kids' := [k] + kids;
    forall i | 0 <= i < |kids'| ensures next'[kids'[i]] == KidAfter(kids', i) {
      if i > 0 {
        assert kids'[i] == kids[i - 1] && kids[i - 1] in kids;
        AfterFront(kids, k, i);
      }
    }
    assert forall i, j :: 0 <= i < j < |kids'| ==> kids'[i] != kids'[j];
  }

  lemma AfterFront(kids: seq<nat>, k: nat, i: nat)
    requires 0 < i <= |kids|
    ensures KidAfter([k] + kids, i) == KidAfter(kids, i - 1)
  {
  }

  lemma NoChildAdded(g: Graph, k: nat, c: Children, h: nat, kids: seq<nat>)
    requires g.Valid() && k < |g.edges| && !(g.edges[k].kind == Contains && g.nodes[g.edges[k].to] == Group)
    requires |c.count| == |c.first| == |c.next| == |g.nodes| && h < |g.nodes| && Listed(g, k, c, h, kids)
    ensures Listed(g, k + 1, c, h, kids)
  {
    hide Has;
    var after := k + 1;
    forall n: nat | IsGroup(g, n) ensures Has(g, after, h, n) <==> Has(g, k, h, n) {
      HasMore(g, k, h, n);
    }
  }

  /** What the scan leaves behind, stated on the whole graph. */
  datatype Scan = Scan(
    parent: seq<nat>, observable: seq<bool>, subject: seq<bool>, children: Children, compatible: seq<bool>, timing: seq<bool>)

  ghost predicate Scanned(g: Graph, s: Scan, kids: seq<seq<nat>>)
    requires g.Valid()
  {
    && Parents(g, |g.edges|, s.parent) && ObservableSoFar(g, |g.edges|, s.observable)
    && SubjectsSoFar(g, |g.edges|, s.subject) && ChildrenSoFar(g, |g.edges|, s.children, kids)
    && EndpointsSoFar(g, |g.edges|, s.compatible, s.timing)
  }

  /** The tables of the scan, one entry per node. */
  class Scanner {
    const g: Graph
    var parent: seq<nat>
    var observable: seq<bool>
    var subject: seq<bool>
    var compatible: seq<bool>
    var timing: seq<bool>
    var children: Children
    ghost var kids: seq<seq<nat>>

    // The first k edges have been seen.
    ghost predicate Seen(k: nat)
      requires g.Valid() && k <= |g.edges|
      reads this
    {
      && Parents(g, k, parent) && ObservableSoFar(g, k, observable) && SubjectsSoFar(g, k, subject)
      && ChildrenSoFar(g, k, children, kids) && EndpointsSoFar(g, k, compatible, timing)
    }

    constructor (g: Graph)
      requires g.Valid()
      ensures this.g == g && Seen(0)
    {
      this.g := g;
      parent, observable, subject := seq(|g.nodes|, _ => NIL), seq(|g.nodes|, _ => false), seq(|g.nodes|, _ => false);
      compatible, timing := seq(|g.nodes|, _ => true), seq(|g.nodes|, _ => false);
      children := Children(seq(|g.nodes|, _ => 0), seq(|g.nodes|, _ => NIL), seq(|g.nodes|, _ => NIL));
      kids := seq(|g.nodes|, _ => []);
      new;
      NothingScanned(g, Scan(parent, observable, subject, children, compatible, timing), kids);
    }

    method NoteObservable(k: nat)
      requires g.Valid() && k < |g.edges| && ObservableSoFar(g, k, observable)
      modifies `observable
      ensures ObservableSoFar(g, k + 1, observable)
    {
      hide Observable;
      hide Touched;
      ghost var before := observable;
      if Observable(g, k) {
        observable := observable[g.edges[k].from := true];
        observable := observable[g.edges[k].to := true];
      }
      forall n | 0 <= n < |g.nodes|
        ensures observable[n] <==> Touched(g, k + 1, n)
      {
        assert before[n] <==> Touched(g, k, n);
        TouchedMore(g, k, n);
      }
    }

    method NoteOwner(k: nat)
      requires g.Valid() && Containers(g) && k < |g.edges| && Parents(g, k, parent) && SubjectsSoFar(g, k, subject)
      modifies `parent, `subject
      ensures Parents(g, k + 1, parent) && SubjectsSoFar(g, k + 1, subject)
    {
      hide Has;
      var edge, after := g.edges[k], k + 1;
      forall h: nat, n: nat
        ensures Has(g, after, h, n) <==> Has(g, k, h, n) || (g.Containment(k) && edge.from == h && edge.to == n)
      {
        HasMore(g, k, h, n);
      }
      if edge.kind == Contains {
        assert g.Containment(k);
        parent := parent[edge.to := edge.from];
        if TokenBearing(g, edge.to) {
          subject := subject[edge.from := true];
        }
      }
    }

    method NoteChild(k: nat)
      requires g.Valid() && Containers(g) && k < |g.edges| && ChildrenSoFar(g, k, children, kids)
      modifies `children, `kids
      ensures ChildrenSoFar(g, k + 1, children, kids)
    {
      hide Has;
      hide Containers;
      hide Listed;
      ghost var before, wasKids := children, kids;
      var edge := g.edges[k];
      if edge.kind == Contains && g.nodes[edge.to] == Group {
        kids := kids[edge.from := [edge.to] + kids[edge.from]];
        children := Children(
          children.count[edge.from := children.count[edge.from] + 1],
          children.first[edge.from := edge.to],
          children.next[edge.to := children.first[edge.from]]);
        forall h | 0 <= h < |g.nodes| ensures Listed(g, k + 1, children, h, kids[h]) {
          ChildAdded(g, k, before, children, h, wasKids[h]);
        }
      } else {
        forall h | 0 <= h < |g.nodes| ensures Listed(g, k + 1, before, h, kids[h]) {
          NoChildAdded(g, k, before, h, kids[h]);
        }
      }
    }

    method NoteEndpoints(k: nat)
      requires g.Valid() && k < |g.edges| && EndpointsSoFar(g, k, compatible, timing)
      modifies `compatible, `timing
      ensures EndpointsSoFar(g, k + 1, compatible, timing)
    {
      hide Compatible;
      hide AllCompatible;
      hide TimedBy;
      ghost var before := compatible;
      var edge := g.edges[k];
      var endpoints := [edge.from, edge.to];
      for i := 0 to 2
        invariant |compatible| == |g.nodes| && timing == old(timing)
        invariant forall n :: 0 <= n < |g.nodes| && ArgvLess(g, n) ==>
          (compatible[n] <==> before[n] && (n in endpoints[..i] ==> Compatible(g, k, n)))
      {
        var endpoint := endpoints[i];
        assert endpoints[..i + 1] == endpoints[..i] + [endpoint];
        if ArgvLess(g, endpoint) && !Compatible(g, k, endpoint) {
          compatible := compatible[endpoint := false];
        }
      }
      assert endpoints[..2] == endpoints;
      if edge.kind == Times {
        timing := timing[edge.to := true];
      }
      forall n | 0 <= n < |g.nodes|
        ensures ArgvLess(g, n) ==> (compatible[n] <==> AllCompatible(g, k + 1, n))
        ensures timing[n] <==> TimedBy(g, k + 1, n)
      {
        assert n in endpoints <==> Touches(g, k, n);
        CompatibleMore(g, k, n);
      }
    }
  }

  method ScanEdges(g: Graph) returns (s: Scan, ghost kids: seq<seq<nat>>)
    requires g.Valid() && Containers(g)
    ensures Scanned(g, s, kids)
  {
    hide Containers;
    hide Parents;
    hide ObservableSoFar;
    hide SubjectsSoFar;
    hide ChildrenSoFar;
    hide EndpointsSoFar;
    var tables := new Scanner(g);
    for k := 0 to |g.edges|
      invariant tables.g == g && tables.Seen(k)
    {
      tables.NoteObservable(k);
      tables.NoteOwner(k);
      tables.NoteChild(k);
      tables.NoteEndpoints(k);
    }
    kids := tables.kids;
    s := Scan(tables.parent, tables.observable, tables.subject, tables.children, tables.compatible, tables.timing);
  }

  lemma NothingScanned(g: Graph, s: Scan, kids: seq<seq<nat>>)
    requires g.Valid()
    requires |s.parent| == |s.observable| == |s.subject| == |s.compatible| == |s.timing| == |kids| == |g.nodes|
    requires |s.children.count| == |s.children.first| == |s.children.next| == |g.nodes|
    requires forall n :: 0 <= n < |g.nodes| ==> s.parent[n] == NIL && !s.observable[n] && !s.subject[n]
    requires forall n :: 0 <= n < |g.nodes| ==> s.compatible[n] && !s.timing[n]
    requires forall n :: 0 <= n < |g.nodes| ==> s.children.count[n] == 0 && s.children.first[n] == NIL && kids[n] == []
    ensures Parents(g, 0, s.parent) && ObservableSoFar(g, 0, s.observable) && SubjectsSoFar(g, 0, s.subject)
    ensures ChildrenSoFar(g, 0, s.children, kids) && EndpointsSoFar(g, 0, s.compatible, s.timing)
  {
  }

  // ---- The scan in terms of the containment relation ----

  lemma ScannedFacts(g: Graph, s: Scan, kids: seq<seq<nat>>)
    requires g.Valid() && Scanned(g, s, kids)
    ensures |s.parent| == |s.observable| == |s.subject| == |kids| == |g.nodes|
    ensures |s.children.count| == |s.children.first| == |s.children.next| == |g.nodes|
    ensures forall n :: 0 <= n < |g.nodes| ==> KidsOf(g, n, kids[n])
    ensures forall n :: 0 <= n < |g.nodes| ==> ParentOf(g, n, s.parent[n])
    ensures forall n :: 0 <= n < |g.nodes| ==> (s.observable[n] <==> HasObservableIo(g, n))
    ensures forall n :: 0 <= n < |g.nodes| ==> (s.subject[n] <==> DirectSubject(g, n))
    ensures forall n :: 0 <= n < |g.nodes| ==> s.children.count[n] == |kids[n]|
  {
    hide Has;
    forall h: nat, n: nat ensures Has(g, |g.edges|, h, n) <==> (h, n) in g.ContainmentPairs() {
      HasAll(g, h, n);
    }
    forall n | 0 <= n < |g.nodes| ensures KidsOf(g, n, kids[n]) && s.children.count[n] == |kids[n]| {
      assert Listed(g, |g.edges|, s.children, n, kids[n]);
    }
    forall n | 0 <= n < |g.nodes| ensures ParentOf(g, n, s.parent[n]) {
      assert ParentIs(g, |g.edges|, n, s.parent[n]);
    }
  }

  ghost predicate KidsOf(g: Graph, h: nat, kids: seq<nat>)
    requires g.Valid()
  {
    && Distinct(kids) && InRange(kids, |g.nodes|)
    && forall k: nat :: k in kids <==> (IsGroup(g, k) && (h, k) in g.ContainmentPairs())
  }

  ghost predicate ParentOf(g: Graph, n: nat, parent: nat)
    requires g.Valid()
  {
    if parent == NIL then forall h :: (h, n) !in g.ContainmentPairs()
    else parent < |g.nodes| && (parent, n) in g.ContainmentPairs()
  }

  ghost predicate DirectSubject(g: Graph, h: nat)
    requires g.Valid()
  {
    exists c: nat :: TokenBearing(g, c) && (h, c) in g.ContainmentPairs()
  }

  lemma OneContainer(g: Graph, a: nat, b: nat, n: nat)
    requires g.Valid() && Containers(g)
    requires (a, n) in g.ContainmentPairs() && (b, n) in g.ContainmentPairs()
    ensures a == b && IsGroup(g, a)
  {
    var e :| 0 <= e < |g.edges| && g.Containment(e) && (g.edges[e].from, g.edges[e].to) == (a, n);
    var f :| 0 <= f < |g.edges| && g.Containment(f) && (g.edges[f].from, g.edges[f].to) == (b, n);
  }

  lemma ContainerIsGroup(g: Graph, a: nat, n: nat)
    requires g.Valid() && Containers(g) && (a, n) in g.ContainmentPairs()
    ensures IsGroup(g, a) && n < |g.nodes|
  {
    OneContainer(g, a, a, n);
  }

  // ---- From the leaves up ----

  /** A group has a subject if one of its members is one, or one of its
      subgroups has one. */
  lemma SubjectUnfolds(g: Graph, h: nat)
    requires g.Valid() && Containers(g) && IsGroup(g, h)
    ensures HasSubject(g, h) <==>
      (DirectSubject(g, h) || exists k: nat :: IsGroup(g, k) && (h, k) in g.ContainmentPairs() && HasSubject(g, k))
  {
    var d := g.ContainmentPairs();
    if HasSubject(g, h) {
      var c: nat :| TokenBearing(g, c) && Reaches(d, h, c);
      var x := FirstStep(d, h, c);
      if x != c {
        var y := FirstStep(d, x, c);
        ContainerIsGroup(g, x, y);
        assert HasSubject(g, x);
      }
    }
    if DirectSubject(g, h) {
      var c: nat :| TokenBearing(g, c) && (h, c) in d;
      Relation.Step(d, h, c);
    }
    if exists k: nat :: IsGroup(g, k) && (h, k) in d && HasSubject(g, k) {
      var k: nat :| IsGroup(g, k) && (h, k) in d && HasSubject(g, k);
      var c: nat :| TokenBearing(g, c) && Reaches(d, k, c);
      Relation.Step(d, h, k);
      Trans(d, h, k, c);
    }
  }

  // The subgroups that have not been taken from the queue.
  ghost function Waiting(kids: seq<nat>, done: set<nat>): set<nat> {
    set k | k in kids && k !in done
  }

  ghost predicate CountsLeft(g: Graph, kids: seq<seq<nat>>, count: seq<nat>, done: set<nat>) {
    && |kids| == |count| == |g.nodes|
    && forall h :: 0 <= h < |g.nodes| ==> count[h] == |Waiting(kids[h], done)|
  }

  ghost predicate SubjectsKnown(g: Graph, kids: seq<seq<nat>>, subject: seq<bool>, done: set<nat>)
    requires g.Valid()
  {
    && |kids| == |subject| == |g.nodes|
    && forall h :: 0 <= h < |g.nodes| ==>
      (subject[h] <==> DirectSubject(g, h) || exists k :: k in kids[h] && k in done && HasSubject(g, k))
  }

  // The queue lists the groups with no subgroup waiting, each once.
  ghost predicate LeavesQueued(g: Graph, count: seq<nat>, queue: seq<nat>) {
    && |count| == |g.nodes| && Distinct(queue) && InRange(queue, |g.nodes|)
    && forall h :: 0 <= h < |g.nodes| ==> (h in queue <==> IsGroup(g, h) && count[h] == 0)
  }

  ghost predicate AllKids(g: Graph, kids: seq<seq<nat>>)
    requires g.Valid()
  {
    |kids| == |g.nodes| && forall n :: 0 <= n < |g.nodes| ==> KidsOf(g, n, kids[n])
  }

  ghost predicate AllParents(g: Graph, parent: seq<nat>)
    requires g.Valid()
  {
    |parent| == |g.nodes| && forall n :: 0 <= n < |g.nodes| ==> ParentOf(g, n, parent[n])
  }

  // Taking a group from the queue concerns its container only.
  lemma InOneList(g: Graph, kids: seq<seq<nat>>, parent: nat, group: nat)
    requires g.Valid() && Containers(g) && AllKids(g, kids) && IsGroup(g, group) && ParentOf(g, group, parent)
    ensures forall h :: 0 <= h < |g.nodes| ==> (group in kids[h] <==> parent != NIL && h == parent)
  {
    hide Containers;
    forall h | 0 <= h < |g.nodes| ensures group in kids[h] <==> parent != NIL && h == parent {
      assert KidsOf(g, h, kids[h]);
      if group in kids[h] && parent != NIL {
        OneContainer(g, h, parent, group);
      }
    }
  }

  lemma TakeCounts(g: Graph, kids: seq<seq<nat>>, parent: nat, count: seq<nat>, done: set<nat>, group: nat)
    requires g.Valid() && |kids| == |g.nodes| && group !in done && (parent != NIL ==> parent < |g.nodes|)
    requires forall h :: 0 <= h < |g.nodes| ==> (group in kids[h] <==> parent != NIL && h == parent)
    requires CountsLeft(g, kids, count, done)
    ensures parent == NIL ==> CountsLeft(g, kids, count, done + {group})
    ensures parent != NIL ==> count[parent] > 0
    ensures parent != NIL ==> CountsLeft(g, kids, count[parent := count[parent] - 1], done + {group})
  {
    forall h | 0 <= h < |g.nodes|
      ensures |Waiting(kids[h], done + {group})| == |Waiting(kids[h], done)| - if group in kids[h] then 1 else 0
    {
      if group in kids[h] {
        assert Waiting(kids[h], done) == Waiting(kids[h], done + {group}) + {group};
      } else {
        assert Waiting(kids[h], done) == Waiting(kids[h], done + {group});
      }
    }
  }

  lemma TakeSubjects(g: Graph, kids: seq<seq<nat>>, parent: nat, subject: seq<bool>, done: set<nat>, group: nat)
    requires g.Valid() && |kids| == |g.nodes| && group < |g.nodes| && (parent != NIL ==> parent < |g.nodes|)
    requires forall h :: 0 <= h < |g.nodes| ==> (group in kids[h] <==> parent != NIL && h == parent)
    requires SubjectsKnown(g, kids, subject, done) && (subject[group] <==> HasSubject(g, group))
    ensures parent == NIL ==> SubjectsKnown(g, kids, subject, done + {group})
    ensures parent != NIL ==> SubjectsKnown(g, kids, subject[parent := subject[parent] || subject[group]], done + {group})
  {
    hide HasSubject;
    hide DirectSubject;
  }

  // When no subgroup is waiting, the accumulated answer is the answer.
  lemma SubjectFinal(g: Graph, kids: seq<seq<nat>>, subject: seq<bool>, count: seq<nat>, done: set<nat>, group: nat)
    requires g.Valid() && Containers(g) && AllKids(g, kids) && IsGroup(g, group)
    requires CountsLeft(g, kids, count, done) && SubjectsKnown(g, kids, subject, done) && count[group] == 0
    ensures subject[group] <==> HasSubject(g, group)
  {
    hide HasSubject;
    hide DirectSubject;
    hide Containers;
    assert KidsOf(g, group, kids[group]);
    assert Waiting(kids[group], done) == {};
    SubjectUnfolds(g, group);
    forall k: nat | IsGroup(g, k) && (group, k) in g.ContainmentPairs() ensures k in kids[group] && k in done {
      assert k !in Waiting(kids[group], done);
    }
  }

  method Ascend(g: Graph, s: Scan, ghost kids: seq<seq<nat>>) returns (subject: seq<bool>)
    requires Forest(g) && Scanned(g, s, kids)
    ensures |subject| == |g.nodes|
    ensures forall h :: 0 <= h < |g.nodes| && IsGroup(g, h) ==> (subject[h] <==> HasSubject(g, h))
  {
    hide Scanned;
    hide Containers;
    hide Acyclic;
    hide DirectSubject;
    hide HasSubject;
    hide KidsOf;
    hide ParentOf;
    hide CountsLeft;
    hide SubjectsKnown;
    ScannedFacts(g, s, kids);
    var flags := new bool[|g.nodes|](i requires 0 <= i < |g.nodes| => s.subject[i]);
    var count := new nat[|g.nodes|](i requires 0 <= i < |g.nodes| => s.children.count[i]);
    assert flags[..] == s.subject && count[..] == s.children.count;
    NothingTaken(g, s, kids);
    var queue := new nat[|g.nodes|](_ => 0);
    var tail := QueueLeaves(g, count[..], queue);
    var head := 0;
    assert Members(queue[..0]) == {};
    while head < tail
      invariant head <= tail <= queue.Length
      invariant CountsLeft(g, kids, count[..], Members(queue[..head])) && SubjectsKnown(g, kids, flags[..], Members(queue[..head]))
      invariant LeavesQueued(g, count[..], queue[..tail])
      decreases queue.Length - head
    {
      tail := Fold(g, s.parent[queue[head]], kids, flags, count, queue, head, tail);
      head := head + 1;
    }
    NoGroupLeft(g, kids, count[..], queue[..tail]);
    AllSubjectsKnown(g, kids, flags[..], queue[..tail]);
    subject := flags[..];
  }

  /** Fold one finished group into its container. */
  method Fold(g: Graph, parent: nat, ghost kids: seq<seq<nat>>, flags: array<bool>, count: array<nat>, queue: array<nat>,
              head: nat, tail: nat)
    returns (tail': nat)
    requires g.Valid() && Containers(g) && AllKids(g, kids) && |kids| == |g.nodes| && count != queue
    requires flags.Length == count.Length == queue.Length == |g.nodes| && head < tail <= queue.Length
    requires queue[head] < |g.nodes| && ParentOf(g, queue[head], parent)
    requires CountsLeft(g, kids, count[..], Members(queue[..head])) && SubjectsKnown(g, kids, flags[..], Members(queue[..head]))
    requires LeavesQueued(g, count[..], queue[..tail])
    modifies flags, count, queue
    ensures tail <= tail' <= queue.Length && queue[..tail] == old(queue[..tail])
    ensures CountsLeft(g, kids, count[..], Members(queue[..head + 1])) && SubjectsKnown(g, kids, flags[..], Members(queue[..head + 1]))
    ensures LeavesQueued(g, count[..], queue[..tail'])
  {
    hide Containers;
    hide AllKids;
    hide ParentOf;
    hide CountsLeft;
    hide SubjectsKnown;
    hide HasSubject;
    hide KidsOf;
    var group := queue[head];
    TakenNext(queue[..tail], head);
    assert queue[..tail][..head] == queue[..head] && queue[..tail][..head + 1] == queue[..head + 1];
    assert |flags[..]| == |count[..]| == |g.nodes|;
    SubjectFinal(g, kids, flags[..], count[..], Members(queue[..head]), group);
    ParentInRange(g, group, parent);
    InOneList(g, kids, parent, group);
    TakeCounts(g, kids, parent, count[..], Members(queue[..head]), group);
    TakeSubjects(g, kids, parent, flags[..], Members(queue[..head]), group);
    tail' := tail;
    if parent != NIL {
      ghost var flagsBefore, countBefore, wasQueue := flags[..], count[..], queue[..tail];
      flags[parent] := flags[parent] || flags[group];
      count[parent] := count[parent] - 1;
      assert flags[..] == flagsBefore[parent := flagsBefore[parent] || flagsBefore[group]];
      assert count[..] == countBefore[parent := countBefore[parent] - 1];
      LeavesAfter(g, countBefore, wasQueue, parent);
      if count[parent] == 0 {
        queue[tail] := parent;
        tail' := tail + 1;
        assert queue[..tail'] == wasQueue + [parent];
        assert queue[..head + 1] == wasQueue[..head + 1];
      }
    }
  }

  lemma LeavesAfter(g: Graph, count: seq<nat>, queue: seq<nat>, parent: nat)
    requires LeavesQueued(g, count, queue) && IsGroup(g, parent) && count[parent] > 0
    ensures var less := count[parent := count[parent] - 1];
      if less[parent] == 0 then LeavesQueued(g, less, queue + [parent]) && |queue| < |g.nodes| else LeavesQueued(g, less, queue)
  {
    if count[parent] == 1 {
      RoomFor(queue, parent, |g.nodes|);
    }
  }

  lemma TakenNext(queue: seq<nat>, head: nat)
    requires Distinct(queue) && head < |queue|
    ensures queue[head] in queue && queue[head] !in Members(queue[..head])
    ensures Members(queue[..head + 1]) == Members(queue[..head]) + {queue[head]}
  {
    assert queue[..head + 1] == queue[..head] + [queue[head]];
  }

  lemma ParentInRange(g: Graph, n: nat, parent: nat)
    requires g.Valid() && Containers(g) && ParentOf(g, n, parent)
    ensures parent != NIL ==> parent < |g.nodes| && IsGroup(g, parent)
  {
    if parent != NIL {
      ContainerIsGroup(g, parent, n);
    }
  }

  lemma NothingTaken(g: Graph, s: Scan, kids: seq<seq<nat>>)
    requires g.Valid() && Scanned(g, s, kids)
    ensures CountsLeft(g, kids, s.children.count, {}) && SubjectsKnown(g, kids, s.subject, {}) && AllKids(g, kids)
    ensures AllParents(g, s.parent)
  {
    hide Scanned;
    hide DirectSubject;
    ScannedFacts(g, s, kids);
    forall h | 0 <= h < |g.nodes| ensures |Waiting(kids[h], {})| == |kids[h]| {
      assert KidsOf(g, h, kids[h]);
      SizeOfDistinct(kids[h]);
      assert Waiting(kids[h], {}) == Members(kids[h]);
    }
  }

  method QueueLeaves(g: Graph, count: seq<nat>, queue: array<nat>) returns (tail: nat)
    requires |count| == |g.nodes| == queue.Length
    modifies queue
    ensures tail <= queue.Length && LeavesQueued(g, count, queue[..tail])
  {
    tail := 0;
    for node := 0 to |g.nodes|
      invariant tail <= node && Distinct(queue[..tail]) && InRange(queue[..tail], node)
      invariant forall h :: 0 <= h < node ==> (h in queue[..tail] <==> IsGroup(g, h) && count[h] == 0)
    {
      if g.nodes[node] == Group && count[node] == 0 {
        queue[tail] := node;
        tail := tail + 1;
        assert queue[..tail] == queue[..tail - 1] + [node];
      }
    }
  }

  lemma NoneWaiting(g: Graph, kids: seq<seq<nat>>, count: seq<nat>, queue: seq<nat>, m: nat)
    requires CountsLeft(g, kids, count, Members(queue)) && LeavesQueued(g, count, queue)
    requires IsGroup(g, m) && forall k :: k in kids[m] ==> k in queue
    ensures m in queue
  {
    assert Waiting(kids[m], Members(queue)) == {};
    assert count[m] == |Waiting(kids[m], Members(queue))|;
  }

  // In a forest a group that is never queued would need a subgroup of the same kind.
  lemma NoGroupLeft(g: Graph, kids: seq<seq<nat>>, count: seq<nat>, queue: seq<nat>)
    requires Forest(g) && AllKids(g, kids)
    requires CountsLeft(g, kids, count, Members(queue)) && LeavesQueued(g, count, queue)
    ensures forall h :: 0 <= h < |g.nodes| && IsGroup(g, h) ==> h in queue
  {
    hide CountsLeft;
    var missing := set h: nat | h < |g.nodes| && IsGroup(g, h) && h !in queue;
    if missing != {} {
      var m := MaximalMember(g.ContainmentPairs(), missing);
      assert KidsOf(g, m, kids[m]);
      forall k | k in kids[m] ensures k in queue {
        assert k !in missing;
      }
      NoneWaiting(g, kids, count, queue, m);
    }
    forall h | 0 <= h < |g.nodes| && IsGroup(g, h) ensures h in queue {
      assert h !in missing;
    }
  }

  lemma AllSubjectsKnown(g: Graph, kids: seq<seq<nat>>, subject: seq<bool>, queue: seq<nat>)
    requires g.Valid() && Containers(g) && AllKids(g, kids) && SubjectsKnown(g, kids, subject, Members(queue))
    requires forall h :: 0 <= h < |g.nodes| && IsGroup(g, h) ==> h in queue
    ensures forall h :: 0 <= h < |g.nodes| && IsGroup(g, h) ==> (subject[h] <==> HasSubject(g, h))
  {
    hide HasSubject;
    hide DirectSubject;
    forall h | 0 <= h < |g.nodes| && IsGroup(g, h) ensures subject[h] <==> HasSubject(g, h) {
      SubjectUnfolds(g, h);
      assert KidsOf(g, h, kids[h]);
    }
  }

  // ---- From the roots down ----

  lemma UnsafeUnfolds(g: Graph, h: nat)
    requires g.Valid()
    ensures Unsafe(g, h) <==> (Hidden(g, h) || exists p :: (p, h) in g.ContainmentPairs() && Unsafe(g, p))
  {
    hide Hidden;
    var d := g.ContainmentPairs();
    Refl(d, h);
    if Unsafe(g, h) && !Hidden(g, h) {
      var top :| Reaches(d, top, h) && Hidden(g, top);
      var p := LastStep(d, top, h);
      assert Unsafe(g, p);
    }
    if exists p :: (p, h) in d && Unsafe(g, p) {
      var p :| (p, h) in d && Unsafe(g, p);
      var top :| Reaches(d, top, p) && Hidden(g, top);
      Relation.Step(d, p, h);
      Trans(d, top, p, h);
    }
  }

  // Roots and the subgroups of the groups taken so far are queued, each once.
  ghost predicate DownQueue(g: Graph, parent: seq<nat>, kids: seq<seq<nat>>, queue: seq<nat>, head: nat) {
    && |parent| == |kids| == |g.nodes| && head <= |queue| && Distinct(queue) && InRange(queue, |g.nodes|)
    && (forall h :: h in queue ==> IsGroup(g, h) && (parent[h] == NIL || parent[h] in queue[..head]))
    && (forall h :: 0 <= h < |g.nodes| && IsGroup(g, h) && parent[h] == NIL ==> h in queue)
    && (forall i, k :: 0 <= i < head && k in kids[queue[i]] ==> k in queue)
  }

  ghost predicate UnsafeKnown(g: Graph, unsafe: seq<bool>, queue: seq<nat>, head: nat)
    requires g.Valid()
  {
    && |unsafe| == |g.nodes| && head <= |queue| && InRange(queue, |g.nodes|)
    && forall i :: 0 <= i < head ==> (unsafe[queue[i]] <==> Unsafe(g, queue[i]))
  }

  lemma DownStep(g: Graph, parent: seq<nat>, kids: seq<seq<nat>>, queue: seq<nat>, head: nat)
    requires Forest(g) && AllKids(g, kids) && AllParents(g, parent)
    requires head < |queue| && DownQueue(g, parent, kids, queue, head)
    ensures DownQueue(g, parent, kids, queue + kids[queue[head]], head + 1)
    ensures |queue| + |kids[queue[head]]| <= |g.nodes|
  {
    hide Containers;
    hide Acyclic;
    var group := queue[head];
    var more := kids[group];
    var longer := queue + more;
    assert group in queue && KidsOf(g, group, more);
    assert longer[..head + 1] == queue[..head] + [group];
    TakenNext(queue, head);
    assert forall k :: k in queue && parent[k] != NIL ==> parent[k] in Members(queue[..head]);
    forall k | k in more ensures parent[k] == group && k !in queue {
      assert ParentOf(g, k, parent[k]);
      OneContainer(g, group, if parent[k] == NIL then group else parent[k], k);
    }
    DistinctConcat(queue, more);
    DistinctBounded(longer, |g.nodes|);
    forall i, k | 0 <= i < head + 1 && k in kids[longer[i]] ensures k in longer {
      if i < head {
        assert longer[i] == queue[i];
      }
    }
    forall h | h in longer ensures IsGroup(g, h) && (parent[h] == NIL || parent[h] in longer[..head + 1]) {
      if h in queue {
        assert parent[h] == NIL || parent[h] in queue[..head];
      }
    }
  }

  lemma UnsafeStep(g: Graph, parent: seq<nat>, kids: seq<seq<nat>>, observable: seq<bool>, subject: seq<bool>,
                   unsafe: seq<bool>, queue: seq<nat>, head: nat)
    requires Forest(g) && AllParents(g, parent) && DownQueue(g, parent, kids, queue, head) && head < |queue|
    requires UnsafeKnown(g, unsafe, queue, head) && |observable| == |subject| == |g.nodes|
    requires observable[queue[head]] <==> HasObservableIo(g, queue[head])
    requires subject[queue[head]] <==> HasSubject(g, queue[head])
    ensures var group := queue[head]; var p := parent[group];
      p == NIL || (p < |g.nodes| &&
        (Unsafe(g, group) <==> (observable[group] && !subject[group]) || unsafe[p]))
    ensures var group := queue[head];
      parent[group] == NIL ==> (Unsafe(g, group) <==> observable[group] && !subject[group])
  {
    hide Containers;
    hide Acyclic;
    hide HasObservableIo;
    hide HasSubject;
    hide Unsafe;
    var group := queue[head];
    var p := parent[group];
    assert group in queue && ParentOf(g, group, p);
    UnsafeUnfolds(g, group);
    if p != NIL {
      var i :| 0 <= i < head && queue[i] == p;
      forall q | (q, group) in g.ContainmentPairs() ensures q == p {
        OneContainer(g, p, q, group);
      }
    }
  }

  /** Decide the groups from the roots down, through the sibling lists. */
  method Descend(g: Graph, s: Scan, ghost kids: seq<seq<nat>>, subject: seq<bool>) returns (unsafe: seq<bool>)
    requires Forest(g) && Scanned(g, s, kids) && |subject| == |g.nodes|
    requires forall h :: 0 <= h < |g.nodes| && IsGroup(g, h) ==> (subject[h] <==> HasSubject(g, h))
    ensures |unsafe| == |g.nodes|
    ensures forall h :: 0 <= h < |g.nodes| && IsGroup(g, h) ==> (unsafe[h] <==> Unsafe(g, h))
  {
    hide Containers;
    hide Acyclic;
    hide HasSubject;
    hide HasObservableIo;
    hide Unsafe;
    hide Scanned;
    hide DirectSubject;
    hide AllKids;
    hide AllParents;
    hide KidsOf;
    hide ParentOf;
    ScannedFacts(g, s, kids);
    NothingTaken(g, s, kids);
    var flags := new bool[|g.nodes|](_ => false);
    var queue := new nat[|g.nodes|](_ => 0);
    var tail := QueueRoots(g, s.parent, queue);
    var head := 0;
    while head < tail
      invariant head <= tail <= queue.Length
      invariant DownQueue(g, s.parent, kids, queue[..tail], head)
      invariant UnsafeKnown(g, flags[..], queue[..tail], head)
      decreases queue.Length - head
    {
      tail := DecideNext(g, s, kids, subject, flags, queue, head, tail);
      head := head + 1;
    }
    NoRootLeft(g, s.parent, kids, queue[..tail]);
    unsafe := flags[..];
    forall h | 0 <= h < |g.nodes| && IsGroup(g, h) ensures unsafe[h] <==> Unsafe(g, h) {
      var i :| 0 <= i < tail && queue[..tail][i] == h;
    }
  }

  /** Decide one group and queue its subgroups. */
  method DecideNext(g: Graph, s: Scan, ghost kids: seq<seq<nat>>, subject: seq<bool>, flags: array<bool>, queue: array<nat>,
                    head: nat, tail: nat)
    returns (tail': nat)
    requires Forest(g) && Scanned(g, s, kids) && |subject| == |g.nodes| && AllKids(g, kids) && AllParents(g, s.parent)
    requires forall h :: 0 <= h < |g.nodes| && IsGroup(g, h) ==> (subject[h] <==> HasSubject(g, h))
    requires flags.Length == queue.Length == |g.nodes| && head < tail <= queue.Length
    requires DownQueue(g, s.parent, kids, queue[..tail], head) && UnsafeKnown(g, flags[..], queue[..tail], head)
    modifies flags, queue
    ensures tail <= tail' <= queue.Length
    ensures DownQueue(g, s.parent, kids, queue[..tail'], head + 1) && UnsafeKnown(g, flags[..], queue[..tail'], head + 1)
  {
    hide Containers;
    hide Acyclic;
    hide HasSubject;
    hide HasObservableIo;
    hide Unsafe;
    hide Scanned;
    hide AllKids;
    hide AllParents;
    hide KidsOf;
    hide ParentOf;
    hide DirectSubject;
    ghost var wasQueue, wasFlags := queue[..tail], flags[..];
    var group := queue[head];
    ScannedFacts(g, s, kids);
    assert wasQueue[head] == group && group in wasQueue;
    var parent := s.parent[group];
    UnsafeStep(g, s.parent, kids, s.observable, subject, flags[..], wasQueue, head);
    flags[group] := (s.observable[group] && !subject[group]) || (parent != NIL && flags[parent]);
    DownStep(g, s.parent, kids, wasQueue, head);
    ScannedSpells(g, s, kids, group);
    tail' := PushKids(s.children, group, kids[group], queue, tail);
    UnsafeMore(g, wasFlags, flags[..], wasQueue, queue[..tail'], head);
  }

  lemma UnsafeMore(g: Graph, before: seq<bool>, after: seq<bool>, queue: seq<nat>, longer: seq<nat>, head: nat)
    requires g.Valid() && UnsafeKnown(g, before, queue, head) && head < |queue| && queue <= longer
    requires Distinct(longer) && InRange(longer, |g.nodes|)
    requires after == before[queue[head] := Unsafe(g, queue[head])]
    ensures UnsafeKnown(g, after, longer, head + 1)
  {
    hide Unsafe;
    forall i | 0 <= i < head + 1 ensures after[longer[i]] <==> Unsafe(g, longer[i]) {
      assert longer[i] == queue[i];
    }
  }

  // The sibling list of h spells out `kids`.
  ghost predicate Spells(c: Children, h: nat, kids: seq<nat>) {
    && h < |c.first| && InRange(kids, |c.next|)
    && c.first[h] == (if kids == [] then NIL else kids[0])
    && (forall i :: 0 <= i < |kids| ==> c.next[kids[i]] == KidAfter(kids, i))
  }

  lemma ScannedSpells(g: Graph, s: Scan, kids: seq<seq<nat>>, h: nat)
    requires g.Valid() && |g.nodes| < NIL && Scanned(g, s, kids) && h < |g.nodes| == |kids|
    ensures Spells(s.children, h, kids[h]) && InRange(kids[h], NIL)
  {
    hide Has;
    assert Listed(g, |g.edges|, s.children, h, kids[h]);
  }

  /** Append the subgroups of a group, following the sibling list. */
  method PushKids(c: Children, group: nat, ghost kids: seq<nat>, queue: array<nat>, tail: nat) returns (tail': nat)
    requires Spells(c, group, kids) && InRange(kids, NIL) && tail + |kids| <= queue.Length
    modifies queue
    ensures tail' == tail + |kids| && queue[..tail'] == old(queue[..tail]) + kids
  {
    tail' := tail;
    var child := c.first[group];
    ghost var i := 0;
    while child != NIL
      invariant 0 <= i <= |kids| && child == (if i < |kids| then kids[i] else NIL)
      invariant tail' == tail + i && queue[..tail'] == old(queue[..tail]) + kids[..i]
      decreases |kids| - i
    {
      assert child == kids[i] && c.next[child] == KidAfter(kids, i);
      OneMore(kids, i);
      PutLast(queue, tail', child);
      tail' := tail' + 1;
      child := c.next[child];
      i := i + 1;
    }
    assert kids[..i] == kids;
  }

  method QueueRoots(g: Graph, parent: seq<nat>, queue: array<nat>) returns (tail: nat)
    requires |parent| == |g.nodes| == queue.Length
    modifies queue
    ensures tail <= queue.Length && Distinct(queue[..tail]) && InRange(queue[..tail], |g.nodes|)
    ensures forall h: nat :: h in queue[..tail] <==> (h < |g.nodes| && IsGroup(g, h) && parent[h] == NIL)
  {
    tail := 0;
    for node := 0 to |g.nodes|
      invariant tail <= node && Distinct(queue[..tail]) && InRange(queue[..tail], node)
      invariant forall h: nat :: h in queue[..tail] <==> (h < node && IsGroup(g, h) && parent[h] == NIL)
    {
      if g.nodes[node] == Group && parent[node] == NIL {
        queue[tail] := node;
        tail := tail + 1;
        assert queue[..tail] == queue[..tail - 1] + [node];
      }
    }
  }

  // In a forest every group is reached from a root.
  lemma NoRootLeft(g: Graph, parent: seq<nat>, kids: seq<seq<nat>>, queue: seq<nat>)
    requires Forest(g) && AllKids(g, kids) && AllParents(g, parent) && DownQueue(g, parent, kids, queue, |queue|)
    ensures forall h :: 0 <= h < |g.nodes| && IsGroup(g, h) ==> h in queue
  {
    var missing := set h: nat | h < |g.nodes| && IsGroup(g, h) && h !in queue;
    if missing != {} {
      var m := MinimalMember(g.ContainmentPairs(), missing);
      RootOrKidQueued(g, parent, kids, queue, missing, m);
    }
    forall h | 0 <= h < |g.nodes| && IsGroup(g, h) ensures h in queue {
      assert h !in missing;
    }
  }

  lemma RootOrKidQueued(g: Graph, parent: seq<nat>, kids: seq<seq<nat>>, queue: seq<nat>, missing: set<nat>, m: nat)
    requires g.Valid() && Containers(g) && AllKids(g, kids) && AllParents(g, parent)
    requires DownQueue(g, parent, kids, queue, |queue|) && IsGroup(g, m)
    requires forall h: nat :: h in missing <==> (h < |g.nodes| && IsGroup(g, h) && h !in queue)
    requires forall p :: p in missing ==> (p, m) !in g.ContainmentPairs()
    ensures m in queue
  {
    var p := parent[m];
    assert ParentOf(g, m, p);
    if p != NIL {
      ContainerIsGroup(g, p, m);
      assert p in queue;
      var i :| 0 <= i < |queue| && queue[i] == p;
      assert KidsOf(g, p, kids[p]);
    }
  }

  /** What later passes read of the summary. */
  datatype Summary = Summary(parent: seq<nat>, unsafe: seq<bool>, compatible: seq<bool>, timing: seq<bool>) {
    ghost predicate Of(g: Graph)
      requires g.Valid()
    {
      && AllParents(g, parent) && |unsafe| == |g.nodes|
      && (forall h :: 0 <= h < |g.nodes| && IsGroup(g, h) ==> (unsafe[h] <==> Unsafe(g, h)))
      && EndpointsSoFar(g, |g.edges|, compatible, timing)
    }
  }

  /** The whole summary: containers, groups that hide I/O, and what the edges say about argv-less commands. */
  method Summarize(g: Graph) returns (summary: Summary)
    requires Forest(g)
    ensures summary.Of(g)
    ensures forall n: nat :: n < |g.nodes| && g.nodes[n].Group? ==> (summary.unsafe[n] <==> IoAround(g, n))
  {
    hide IoAround;
    hide Scanned;
    hide HasSubject;
    hide Unsafe;
    hide EndpointsSoFar;
    var s;
    ghost var kids;
    s, kids := ScanEdges(g);
    NothingTaken(g, s, kids);
    var subject := Ascend(g, s, kids);
    var unsafe := Descend(g, s, kids, subject);
    assert EndpointsSoFar(g, |g.edges|, s.compatible, s.timing) by { ScannedEndpoints(g, s, kids); }
    summary := Summary(s.parent, unsafe, s.compatible, s.timing);
    forall n: nat | n < |g.nodes| && g.nodes[n].Group? ensures summary.unsafe[n] <==> IoAround(g, n) {
      UnsafeIs(g, n);
    }
  }

  lemma ScannedEndpoints(g: Graph, s: Scan, kids: seq<seq<nat>>)
    requires g.Valid() && Scanned(g, s, kids)
    ensures EndpointsSoFar(g, |g.edges|, s.compatible, s.timing)
  {
  }

  // ---- Commands that need no policy ----

  /** An argv-less command that the argv policies need not judge: an expression without redirections,
      or empty timing, that has compatible edges only, in a container that hides no I/O. */
  ghost predicate Neutral(g: Graph, n: nat)
    requires g.Valid() && ArgvLess(g, n)
  {
    var command := g.nodes[n];
    && (if command.kind == Arithmetic || command.kind == Conditional then !command.hasRedirections
        else command.timed && TimedBy(g, |g.edges|, n))
    && AllCompatible(g, |g.edges|, n)
    && forall h :: (h, n) in g.ContainmentPairs() ==> !Unsafe(g, h)
  }

  method IsNeutral(g: Graph, summary: Summary, n: nat) returns (neutral: bool)
    requires Forest(g) && summary.Of(g) && ArgvLess(g, n)
    ensures neutral <==> Neutral(g, n)
  {
    hide Acyclic;
    hide Unsafe;
    hide AllCompatible;
    hide TimedBy;
    var group := summary.parent[n];
    assert ParentOf(g, n, group);
    ParentInRange(g, n, group);
    forall h | (h, n) in g.ContainmentPairs() && group != NIL ensures h == group {
      OneContainer(g, h, group, n);
    }
    var command := g.nodes[n];
    var open := group == NIL || !summary.unsafe[group];
    if command.kind == Arithmetic || command.kind == Conditional {
      return !command.hasRedirections && summary.compatible[n] && open;
    }
    if !command.timed {
      return false;
    }
    neutral := summary.timing[n] && summary.compatible[n] && open;
  }

  /** A command is not neutral if any group anywhere around it hides I/O. */
  lemma HiddenIsNotNeutral(g: Graph, n: nat, h: nat)
    requires Forest(g) && ArgvLess(g, n) && h != n && Reaches(g.ContainmentPairs(), h, n) && Hidden(g, h)
    ensures !Neutral(g, n)
  {
    hide Hidden;
    hide Acyclic;
    hide AllCompatible;
    var p := LastStep(g.ContainmentPairs(), h, n);
    assert Unsafe(g, p);
  }

  // ---- The summary, written out ----

  // Edge e is input or output of node h that a policy would have to judge: not of a descriptor, and not read
  // from a document that the shell supplies by itself.
  ghost predicate TouchesIo(g: Graph, e: nat, h: nat)
    requires g.Valid() && e < |g.edges|
  {
    && g.edges[e].kind in {EdgeKind.Read, EdgeKind.Write, EdgeKind.Append, FdOpen, FdClose}
    && !g.nodes[g.edges[e].from].Descriptor? && !g.nodes[g.edges[e].to].Descriptor?
    && !(g.nodes[g.edges[e].from].Doc? && g.nodes[g.edges[e].from].implicit)
    && (g.edges[e].from == h || g.edges[e].to == h)
  }

  // No command with an argument vector lies below h.
  ghost predicate NothingToJudge(g: Graph, h: nat)
    requires g.Valid()
  {
    forall c: nat :: c < |g.nodes| && g.nodes[c].Command? && g.nodes[c].tokenCount > 0 ==> !Reaches(g.ContainmentPairs(), h, c)
  }

  /** A group hides I/O exactly if such an edge touches it and no command below it could authorize that. */
  lemma HiddenIs(g: Graph, h: nat)
    requires g.Valid()
    ensures Hidden(g, h) <==> (exists e: nat :: e < |g.edges| && TouchesIo(g, e, h)) && NothingToJudge(g, h)
  {
    forall e: nat | e < |g.edges| ensures TouchesIo(g, e, h) <==> Observable(g, e) && Touches(g, e, h) {
    }
    if Touched(g, |g.edges|, h) {
      var e :| 0 <= e < |g.edges| && Observable(g, e) && Touches(g, e, h);
      assert TouchesIo(g, e, h);
    }
    if e: nat :| e < |g.edges| && TouchesIo(g, e, h) {
      assert Observable(g, e);
    }
    if HasSubject(g, h) {
      var c: nat :| TokenBearing(g, c) && Reaches(g.ContainmentPairs(), h, c);
      assert c < |g.nodes| && g.nodes[c].Command? && g.nodes[c].tokenCount > 0;
    }
    if !HasSubject(g, h) {
      forall c: nat | c < |g.nodes| && g.nodes[c].Command? && g.nodes[c].tokenCount > 0
        ensures !Reaches(g.ContainmentPairs(), h, c)
      {
        assert TokenBearing(g, c);
      }
    }
  }

  /** Around node n, or at n itself, a group is touched by I/O that no command below it could authorize. */
  ghost predicate IoAround(g: Graph, n: nat)
    requires g.Valid()
  {
    exists h: nat, e: nat :: e < |g.edges| && TouchesIo(g, e, h) && NothingToJudge(g, h) && Reaches(g.ContainmentPairs(), h, n)
  }

  lemma UnsafeIs(g: Graph, n: nat)
    requires g.Valid()
    ensures Unsafe(g, n) <==> IoAround(g, n)
  {
    hide Hidden;
    hide NothingToJudge;
    hide TouchesIo;
    if Unsafe(g, n) {
      var h :| Reaches(g.ContainmentPairs(), h, n) && Hidden(g, h);
      HiddenIs(g, h);
    }
    if IoAround(g, n) {
      var h: nat, e: nat :| e < |g.edges| && TouchesIo(g, e, h) && NothingToJudge(g, h) && Reaches(g.ContainmentPairs(), h, n);
      HiddenIs(g, h);
    }
  }

  // At argv-less command n, an edge of this kind leaves a policy nothing to judge.
  ghost predicate LeavesNothing(g: Graph, e: nat, n: nat)
    requires g.Valid() && e < |g.edges| && n < |g.nodes| && g.nodes[n].Command?
  {
    var edge := g.edges[e];
    match edge.kind
    case Seq => true
    case And => true
    case Or => true
    case Background => true
    case Read => FromShell(g, e)
    case Write => FromShell(g, e)
    case Append => FromShell(g, e)
    case Times => edge.to == n
    case Contains => edge.to == n && g.nodes[edge.from].Group?
    case FileTest => g.nodes[n].kind == Conditional && edge.from == n
    case FileCompare => g.nodes[n].kind == Conditional && edge.from == n
    case Env => g.nodes[n].kind == Conditional && edge.to == n && edge.envReadOnly
    case Subst => g.nodes[n].kind == Conditional && edge.to == n
    case _ => false
  }

  // Input or output of a descriptor, or of a document that the shell supplies by itself.
  ghost predicate FromShell(g: Graph, e: nat)
    requires g.Valid() && e < |g.edges|
  {
    || g.nodes[g.edges[e].from].Descriptor? || g.nodes[g.edges[e].to].Descriptor?
    || (g.nodes[g.edges[e].from].Doc? && g.nodes[g.edges[e].from].implicit)
  }

  lemma CompatibleIs(g: Graph, e: nat, n: nat)
    requires g.Valid() && e < |g.edges| && n < |g.nodes| && g.nodes[n].Command?
    ensures Compatible(g, e, n) <==> LeavesNothing(g, e, n)
  {
  }

  /** Which argv-less commands need no policy. */
  lemma NeutralIs(g: Graph, n: nat)
    requires Forest(g) && n < |g.nodes| && g.nodes[n].Command? && g.nodes[n].tokenCount == 0
    ensures Neutral(g, n) <==>
      && (if g.nodes[n].kind in {Arithmetic, Conditional} then !g.nodes[n].hasRedirections
          else g.nodes[n].timed && exists e: nat :: e < |g.edges| && g.edges[e].kind == Times && g.edges[e].to == n)
      && (forall e: nat :: e < |g.edges| && (g.edges[e].from == n || g.edges[e].to == n) ==> LeavesNothing(g, e, n))
      && (forall h: nat :: (h, n) in g.ContainmentPairs() ==> !IoAround(g, h))
  {
    hide Compatible;
    hide LeavesNothing;
    hide Unsafe;
    hide IoAround;
    hide Acyclic;
    hide Containers;
    forall e: nat | e < |g.edges| ensures Compatible(g, e, n) <==> LeavesNothing(g, e, n) {
      CompatibleIs(g, e, n);
    }
    forall h: nat ensures Unsafe(g, h) <==> IoAround(g, h) {
      UnsafeIs(g, h);
    }
    if forall e: nat :: e < |g.edges| && (g.edges[e].from == n || g.edges[e].to == n) ==> LeavesNothing(g, e, n) {
      forall e | 0 <= e < |g.edges| && Touches(g, e, n) ensures Compatible(g, e, n) {
      }
    }
    if AllCompatible(g, |g.edges|, n) {
      forall e: nat | e < |g.edges| && (g.edges[e].from == n || g.edges[e].to == n) ensures LeavesNothing(g, e, n) {
        assert Touches(g, e, n);
      }
    }
  }

  /** An argv-less command anywhere below a group that hides I/O is not neutral. */
  lemma BelowIo(g: Graph, n: nat, h: nat, e: nat)
    requires Forest(g) && ArgvLess(g, n) && h != n && e < |g.edges|
    requires TouchesIo(g, e, h) && NothingToJudge(g, h) && Reaches(g.ContainmentPairs(), h, n)
    ensures !Neutral(g, n)
  {
    hide TouchesIo;
    hide NothingToJudge;
    hide Neutral;
    HiddenIs(g, h);
    HiddenIsNotNeutral(g, n, h);
  }
}
