/** Detection of a write that a later command reads back.

    Every output edge to an identified file is matched with the readers of the
    same file that the writer's final reachable set contains; the first such
    command, in node order, is blamed. */
module WriteThenRead {
  import opened IdentityTrie
  import opened FileDocuments
  import opened Relation
  import opened DepGraph
  import opened Reachability

  const WORD_BITS := 64

  // Edge e reads document d (or names it as an argument) on behalf of node r.
  predicate Reader(g: Graph, e: nat, d: nat, r: nat)
    requires g.Valid() && e < |g.edges|
  {
    var edge := g.edges[e];
    || (edge.kind == EdgeKind.Read && g.nodes[edge.from].Doc? && d == edge.from && r == edge.to)
    || (edge.kind == Arg && g.nodes[edge.to].Doc? && d == edge.to && r == edge.from)
  }

  // An edge that leaves output in a file.
  predicate OutputEffect(g: Graph, e: nat)
    requires g.Valid() && e < |g.edges|
  {
    var edge := g.edges[e];
    && (g.nodes[edge.from].Command? || g.nodes[edge.from].Group?)
    && g.nodes[edge.to].Doc? && g.nodes[edge.to].docKind == FileDoc
    && (edge.kind == EdgeKind.Write || edge.kind == EdgeKind.Append
        || (edge.kind == FdOpen && edge.hasSourceFd && !edge.duplicates))
  }

  // One of the edges from k on reads a document of this identity group on behalf of r.
  ghost predicate GroupReader(g: Graph, group: seq<nat>, k: nat, q: nat, r: nat)
    requires g.Valid() && |group| == |g.nodes|
  {
    exists e: nat, d: nat :: k <= e < |g.edges| && Reader(g, e, d, r) && d < |group| && group[d] == q
  }

  ghost predicate Groups(g: Graph, group: seq<nat>) {
    |group| == |g.nodes| && forall d :: 0 <= d < |group| ==> group[d] == NIL || group[d] < |g.nodes|
  }

  /** For every identity group, the nodes that read one of its documents. */
  method ReadTargets(g: Graph, group: seq<nat>) returns (targets: seq<set<nat>>)
    requires g.Valid() && Groups(g, group)
    ensures |targets| == |g.nodes|
    ensures forall q :: 0 <= q < |g.nodes| ==> forall r: nat :: r in targets[q] <==> GroupReader(g, group, 0, q, r)
  {
    var cells := new set<nat>[|g.nodes|](_ => {});
    var ei: nat := |g.edges|;
    while ei > 0
      invariant ei <= |g.edges|
      invariant forall q :: 0 <= q < |g.nodes| ==> forall r: nat :: r in cells[q] <==> GroupReader(g, group, ei, q, r)
    {
      ghost var after := ei;
      ei := ei - 1;
      var edge := g.edges[ei];
      var document, target := NIL, edge.from;
      if edge.kind == EdgeKind.Read && g.nodes[edge.from].Doc? {
        document, target := edge.from, edge.to;
      } else if edge.kind == Arg && g.nodes[edge.to].Doc? {
        document := edge.to;
      }
      forall q, r: nat | 0 <= q < |g.nodes|
        ensures GroupReader(g, group, ei, q, r) <==>
          (GroupReader(g, group, after, q, r) || (document != NIL && r == target && group[document] == q))
      {
        OneMoreEdge(g, group, ei, q, r);
      }
      if document != NIL && group[document] != NIL {
        cells[group[document]] := cells[group[document]] + {target};
      }
    }
    targets := cells[..];
  }

  lemma OneMoreEdge(g: Graph, group: seq<nat>, k: nat, q: nat, r: nat)
    requires g.Valid() && |group| == |g.nodes| && k < |g.edges|
    ensures GroupReader(g, group, k, q, r) <==>
      (GroupReader(g, group, k + 1, q, r) || exists d: nat :: Reader(g, k, d, r) && d < |group| && group[d] == q)
  {
  }

  /** The lowest number in both sets, found word by word and then bit by bit. */
  method LowestCommon(a: set<nat>, b: set<nat>, nodes: nat) returns (lowest: nat)
    requires nodes < NIL && forall x :: x in a ==> x < nodes
    ensures lowest == NIL <==> a * b == {}
    ensures lowest != NIL ==> lowest in a && lowest in b && forall x :: x in a && x in b ==> lowest <= x
  {
    var words := (nodes + WORD_BITS - 1) / WORD_BITS;
    for word := 0 to words
      invariant forall x :: x in a && x in b ==> x >= word * WORD_BITS
    {
      var candidates := set x | x in a && x in b && x / WORD_BITS == word;
      if candidates != {} {
        var bit := word * WORD_BITS;
        ghost var first :| first in candidates;
        while bit !in candidates
          invariant word * WORD_BITS <= bit <= first && forall x :: x in candidates ==> bit <= x
          decreases first - bit
        {
          bit := bit + 1;
        }
        assert bit in a * b && forall x :: x in a && x in b && x !in candidates ==> x / WORD_BITS > word;
        return bit;
      }
      assert forall x :: x in a && x in b ==> x !in candidates;
    }
    assert forall x :: x !in a * b;
    lowest := NIL;
  }

  // Node r reads, after the writer of edge e, a document of the group that e writes.
  ghost predicate ReadsBack(g: Graph, group: seq<nat>, e: nat, r: nat)
    requires g.Valid() && |group| == |g.nodes| && e < |g.edges|
  {
    Final(g, g.edges[e].from, r) && GroupReader(g, group, 0, group[g.edges[e].to], r)
  }

  // What the detector says about output edge e.
  ghost predicate Verdict(g: Graph, group: seq<nat>, e: nat, blamed: nat)
    requires g.Valid() && |group| == |g.nodes| && e < |g.edges|
  {
    && (blamed != NIL <==> OutputEffect(g, e) && group[g.edges[e].to] != NIL && exists r: nat :: ReadsBack(g, group, e, r))
    && (blamed != NIL ==> ReadsBack(g, group, e, blamed) && forall r: nat :: ReadsBack(g, group, e, r) ==> blamed <= r)
  }

  /** Judge every edge, given room for the results. */
  method Detect(g: Graph, reachable: seq<set<nat>>, group: seq<nat>) returns (blamed: seq<nat>)
    requires g.Valid() && Groups(g, group) && |reachable| == |g.nodes|
    requires forall n :: 0 <= n < |g.nodes| ==> FinalSet(g, n, reachable[n])
    ensures |blamed| == |g.edges|
    ensures forall e :: 0 <= e < |g.edges| ==> Verdict(g, group, e, blamed[e])
  {
    hide Final;
    var targets := ReadTargets(g, group);
    blamed := [];
    for ei := 0 to |g.edges|
      invariant |blamed| == ei
      invariant forall e :: 0 <= e < ei ==> Verdict(g, group, e, blamed[e])
    {
      var edge := g.edges[ei];
      var reader := NIL;
      if OutputEffect(g, ei) && group[edge.to] != NIL {
        assert FinalSet(g, edge.from, reachable[edge.from]);
        reader := LowestCommon(reachable[edge.from], targets[group[edge.to]], |g.nodes|);
        CommonIsReadBack(g, group, ei, reachable[edge.from], targets[group[edge.to]]);
      }
      blamed := blamed + [reader];
    }
  }

  lemma CommonIsReadBack(g: Graph, group: seq<nat>, e: nat, reach: set<nat>, targets: set<nat>)
    requires g.Valid() && |group| == |g.nodes| && e < |g.edges| && FinalSet(g, g.edges[e].from, reach)
    requires forall r: nat :: r in targets <==> GroupReader(g, group, 0, group[g.edges[e].to], r)
    ensures forall r: nat :: r in reach * targets <==> ReadsBack(g, group, e, r)
  {
    hide Final;
    forall r: nat ensures r in reach * targets <==> ReadsBack(g, group, e, r) {
      if ReadsBack(g, group, e, r) {
        var f: nat, d: nat :| 0 <= f < |g.edges| && Reader(g, f, d, r) && d < |group| && group[d] == group[g.edges[e].to];
        assert r < |g.nodes|;
      }
    }
  }

  // Two nodes hold documents that name the same file.
  ghost predicate SameFile(index: DocumentIndex, docs: seq<Document>, a: nat, b: nat)
    requires NormalizeKeeps(index.normalize) && a < |docs| && b < |docs|
    requires docs[a].Valid(index.cwds) && docs[b].Valid(index.cwds)
    reads index
  {
    docs[a].Identified() && docs[b].Identified()
    && Identity(docs[a], index.cwds, index.normalize) == Identity(docs[b], index.cwds, index.normalize)
  }

  // Node r reads the file that edge e writes, after the writer of e.
  ghost predicate ReadsFileBack(g: Graph, index: DocumentIndex, docs: seq<Document>, e: nat, r: nat)
    requires g.Valid() && |docs| == |g.nodes| && e < |g.edges| && NormalizeKeeps(index.normalize)
    requires forall d :: 0 <= d < |docs| ==> docs[d].Valid(index.cwds)
    reads index
  {
    Final(g, g.edges[e].from, r) &&
    exists f: nat, d: nat :: f < |g.edges| && Reader(g, f, d, r) && d < |docs| && SameFile(index, docs, d, g.edges[e].to)
  }

  ghost predicate FileVerdict(g: Graph, index: DocumentIndex, docs: seq<Document>, e: nat, blamed: nat)
    requires g.Valid() && |docs| == |g.nodes| && e < |g.edges| && NormalizeKeeps(index.normalize)
    requires forall d :: 0 <= d < |docs| ==> docs[d].Valid(index.cwds)
    reads index
  {
    && (blamed != NIL <==> OutputEffect(g, e) && exists r: nat :: ReadsFileBack(g, index, docs, e, r))
    && (blamed != NIL ==> ReadsFileBack(g, index, docs, e, blamed))
    && (blamed != NIL ==> forall r: nat :: ReadsFileBack(g, index, docs, e, r) ==> blamed <= r)
  }

  // The document index of a graph: one entry per node.
  ghost predicate Indexes(g: Graph, index: DocumentIndex, docs: seq<Document>)
    reads index, index.index, index.index.pool
  {
    && |docs| == |g.nodes| && index.Valid()
    && |index.group| == |index.flags| == |index.terminals| == |docs|
    && (forall d :: 0 <= d < |docs| ==> docs[d].Valid(index.cwds))
    && (forall d :: 0 <= d < |docs| ==>
         index.Placed(index.index.trie, index.index.nodes, docs[d], index.group[d], index.flags[d], index.terminals[d]))
    && (forall d :: 0 <= d < |docs| && docs[d].Identified() ==> index.group[d] < |docs|)
  }

  lemma GroupsInRange(g: Graph, index: DocumentIndex, docs: seq<Document>)
    requires g.Valid() && Indexes(g, index, docs)
    ensures Groups(g, index.group)
  {
    hide FlagsOf;
    hide Identity;
    forall d | 0 <= d < |docs| ensures index.group[d] == NIL || index.group[d] < |docs| {
      assert index.Placed(index.index.trie, index.index.nodes, docs[d], index.group[d], index.flags[d], index.terminals[d]);
    }
  }

  // Sharing a group is naming the same file.
  lemma GroupIsFile(g: Graph, index: DocumentIndex, docs: seq<Document>, a: nat, b: nat)
    requires g.Valid() && Indexes(g, index, docs) && a < |docs| && b < |docs| && index.group[b] != NIL
    ensures index.group[a] == index.group[b] <==> SameFile(index, docs, a, b)
  {
    hide FlagsOf;
    hide Identity;
    hide IdentityIndex.Valid;
    forall d | 0 <= d < |docs| ensures docs[d].Identified() <==> index.group[d] != NIL {
      assert index.Placed(index.index.trie, index.index.nodes, docs[d], index.group[d], index.flags[d], index.terminals[d]);
    }
    if docs[a].Identified() && docs[b].Identified() {
      index.SameGroupSameFile(docs, a, b);
    }
  }

  lemma GroupsAreFiles(g: Graph, index: DocumentIndex, docs: seq<Document>, e: nat, blamed: nat)
    requires g.Valid() && Indexes(g, index, docs) && e < |g.edges| && Verdict(g, index.group, e, blamed)
    ensures FileVerdict(g, index, docs, e, blamed)
  {
    hide Final;
    hide SameFile;
    hide IdentityIndex.Valid;
    hide DocumentIndex.Placed;
    var to := g.edges[e].to;
    if index.group[to] == NIL {
      NoFile(g, index, docs, to);
    } else {
      forall r: nat ensures ReadsBack(g, index.group, e, r) <==> ReadsFileBack(g, index, docs, e, r) {
        ReadersAgree(g, index, docs, e, r);
      }
    }
  }

  lemma NoFile(g: Graph, index: DocumentIndex, docs: seq<Document>, to: nat)
    requires g.Valid() && Indexes(g, index, docs) && to < |docs| && index.group[to] == NIL
    ensures forall d :: 0 <= d < |docs| ==> !SameFile(index, docs, d, to)
  {
    hide FlagsOf;
    hide Identity;
    hide IdentityIndex.Valid;
    assert index.Placed(index.index.trie, index.index.nodes, docs[to], index.group[to], index.flags[to], index.terminals[to]);
  }

  lemma ReadersAgree(g: Graph, index: DocumentIndex, docs: seq<Document>, e: nat, r: nat)
    requires g.Valid() && Indexes(g, index, docs) && e < |g.edges| && index.group[g.edges[e].to] != NIL
    ensures ReadsBack(g, index.group, e, r) <==> ReadsFileBack(g, index, docs, e, r)
  {
    hide Final;
    hide SameFile;
    hide IdentityIndex.Valid;
    hide DocumentIndex.Placed;
    hide Reader;
    var to := g.edges[e].to;
    if ReadsBack(g, index.group, e, r) {
      var f: nat, d: nat :| f < |g.edges| && Reader(g, f, d, r) && d < |docs| && index.group[d] == index.group[to];
      GroupIsFile(g, index, docs, d, to);
    }
    if ReadsFileBack(g, index, docs, e, r) {
      var f: nat, d: nat :| f < |g.edges| && Reader(g, f, d, r) && d < |docs| && SameFile(index, docs, d, to);
      GroupIsFile(g, index, docs, d, to);
    }
  }

  /** From documents to blame: an output edge is flagged exactly when some reader
      of the same file is in the writer's final reachable set. */
  method DetectFiles(g: Graph, index: DocumentIndex, docs: seq<Document>) returns (blamed: seq<nat>)
    requires g.Valid() && Acyclic(g.ControlPairs()) && Indexes(g, index, docs)
    ensures |blamed| == |g.edges|
    ensures forall e :: 0 <= e < |g.edges| ==> FileVerdict(g, index, docs, e, blamed[e])
  {
    hide Final;
    hide FinalSet;
    hide Acyclic;
    hide IdentityIndex.Valid;
    hide NormalizeKeeps;
    GroupsInRange(g, index, docs);
    var a := BuildAdjacency(g);
    var reachable := Prepare(g, a.out);
    blamed := Detect(g, reachable, index.group);
    forall e | 0 <= e < |g.edges| ensures FileVerdict(g, index, docs, e, blamed[e]) {
      GroupsAreFiles(g, index, docs, e, blamed[e]);
    }
  }

  /** Written out for one pair of edges: output into a file, and a node right after the writer
      that reads the same file or names it as an argument, are always flagged. */
  lemma WrittenThenRead(g: Graph, index: DocumentIndex, docs: seq<Document>, w: nat, c: nat, f: nat, d: nat, blamed: nat)
    requires g.Valid() && Indexes(g, index, docs) && w < |g.edges| && c < |g.edges| && f < |g.edges| && d < |docs|
    requires FileVerdict(g, index, docs, w, blamed)
    requires g.edges[w].kind in {EdgeKind.Write, EdgeKind.Append}
      || (g.edges[w].kind == FdOpen && g.edges[w].hasSourceFd && !g.edges[w].duplicates)
    requires g.nodes[g.edges[w].from].Command? || g.nodes[g.edges[w].from].Group?
    requires g.nodes[g.edges[w].to].Doc? && g.nodes[g.edges[w].to].docKind == FileDoc
    requires g.edges[c].kind in {Seq, And, Or, Pipe, Background, Contains} && g.edges[c].from == g.edges[w].from
    requires g.nodes[d].Doc?
    requires (g.edges[f].kind == EdgeKind.Read && g.edges[f].from == d && g.edges[f].to == g.edges[c].to)
      || (g.edges[f].kind == Arg && g.edges[f].to == d && g.edges[f].from == g.edges[c].to)
    requires docs[d].File? && docs[d].known && docs[g.edges[w].to].File? && docs[g.edges[w].to].known
    requires Identity(docs[d], index.cwds, index.normalize) == Identity(docs[g.edges[w].to], index.cwds, index.normalize)
    ensures blamed != NIL && blamed <= g.edges[c].to
  {
    hide Outside;
    hide Identity;
    hide IdentityIndex.Valid;
    hide DocumentIndex.Placed;
    var writer, r := g.edges[w].from, g.edges[c].to;
    assert (writer, r) in g.ControlPairs();
    Step(g.ControlPairs(), writer, r);
    assert Reader(g, f, d, r) && SameFile(index, docs, d, g.edges[w].to);
    assert ReadsFileBack(g, index, docs, w, r);
  }

  /** And nothing else is: a flagged edge outputs into a file, and the blamed node has an edge that
      reads the same file or names it as an argument. */
  lemma BlameIsExplained(g: Graph, index: DocumentIndex, docs: seq<Document>, w: nat, blamed: nat) returns (f: nat, d: nat)
    requires g.Valid() && Indexes(g, index, docs) && w < |g.edges| && FileVerdict(g, index, docs, w, blamed) && blamed != NIL
    ensures g.edges[w].kind in {EdgeKind.Write, EdgeKind.Append}
      || (g.edges[w].kind == FdOpen && g.edges[w].hasSourceFd && !g.edges[w].duplicates)
    ensures g.nodes[g.edges[w].from].Command? || g.nodes[g.edges[w].from].Group?
    ensures g.nodes[g.edges[w].to].Doc? && g.nodes[g.edges[w].to].docKind == FileDoc
    ensures f < |g.edges| && d < |docs| && g.nodes[d].Doc?
    ensures (g.edges[f].kind == EdgeKind.Read && g.edges[f].from == d && g.edges[f].to == blamed)
      || (g.edges[f].kind == Arg && g.edges[f].to == d && g.edges[f].from == blamed)
    ensures docs[d].File? && docs[d].known && docs[g.edges[w].to].File? && docs[g.edges[w].to].known
    ensures Identity(docs[d], index.cwds, index.normalize) == Identity(docs[g.edges[w].to], index.cwds, index.normalize)
  {
    hide Final;
    hide Identity;
    hide IdentityIndex.Valid;
    hide DocumentIndex.Placed;
    f, d :| f < |g.edges| && Reader(g, f, d, blamed) && d < |docs| && SameFile(index, docs, d, g.edges[w].to);
  }
}
