/** The compressed byte trie of file identities.

    Edge labels are spans of one shared pool; inserting a string may split the
    incoming edge of an existing node in place.  Ghost fields record the string,
    the root and the parent of every node, so that the contracts can say what an
    insertion does and does not change. */
module IdentityTrie {
  import opened Bytes
  import opened FileMatch

  const ROOTS := 2

  function NoChildren(): (row: seq<nat>)
    ensures |row| == 256 && forall b :: 0 <= b < 256 ==> row[b] == 0
  {
    seq(256, (_: int) => 0)
  }

  /** A node: its incoming edge span, its biased document group, and the cached
      classifier value of its string. */
  datatype Node = Node(offset: nat, length: nat, groupPlusOne: nat, match_: Match)

  // Identities below root 0 start at a relative directory, those below root 1 at an absolute one.
  function RootMode(root: nat): Mode {
    if root == 0 then Mode(false, false, false) else Mode(true, false, true)
  }

  /** The linked structure as one value: child rows, edge labels, and for every
      node its string, root and parent. */
  datatype Trie = Trie(children: seq<seq<nat>>, span: seq<Bytes>, text: seq<Bytes>, root: seq<nat>, parent: seq<nat>)
  {
    ghost predicate Shape() {
      && |children| == |span| == |text| == |root| == |parent| >= ROOTS
      && (forall k :: 0 <= k < |children| ==> |children[k]| == 256)
      && (forall k :: 0 <= k < |root| ==> root[k] < ROOTS)
      && (forall k :: 0 <= k < |parent| ==> parent[k] < |children|)
    }

    ghost predicate RootOk(k: nat)
      requires Shape() && k < ROOTS
    {
      text[k] == [] && root[k] == k
    }

    ghost predicate EdgeOk(k: nat)
      requires Shape() && k < |span|
    {
      && span[k] != []
      && text[k] == text[parent[k]] + span[k]
      && root[k] == root[parent[k]]
      && children[parent[k]][span[k][0]] == k
    }

    ghost predicate ChildrenOk(k: nat)
      requires Shape() && k < |children|
    {
      forall b: Byte :: ChildOk(k, b, children[k][b])
    }

    ghost predicate ChildOk(k: nat, b: Byte, child: nat)
      requires Shape()
    {
      child == 0 || (ROOTS <= child < |span| && parent[child] == k && span[child] != [] && span[child][0] == b)
    }

    ghost predicate Linked() {
      && Shape()
      && (forall k :: 0 <= k < ROOTS ==> RootOk(k))
      && (forall k :: ROOTS <= k < |span| ==> EdgeOk(k))
      && (forall k :: 0 <= k < |children| ==> ChildrenOk(k))
    }
  }

  // The labels are spans of the pool.
  ghost predicate Stored(nodes: seq<Node>, pool: Bytes, span: seq<Bytes>) {
    && |nodes| == |span|
    && forall k :: 0 <= k < |span| ==> StoredAt(nodes[k], pool, span[k])
  }

  ghost predicate StoredAt(node: Node, pool: Bytes, span: Bytes) {
    && node.offset + node.length <= |pool|
    && pool[node.offset..node.offset + node.length] == span
  }

  // The nodes of a keep their cached value and document group in b; the new ones have no group.
  ghost predicate KeepNodes(a: seq<Node>, b: seq<Node>) {
    && |a| <= |b|
    && (forall k :: 0 <= k < |a| ==> b[k].match_ == a[k].match_ && b[k].groupPlusOne == a[k].groupPlusOne)
    && (forall k :: |a| <= k < |b| ==> b[k].groupPlusOne == 0)
  }

  // Every cached value describes the whole string of its node.
  ghost predicate Cached(config: Config, nodes: seq<Node>, text: seq<Bytes>, root: seq<nat>)
    requires config.Valid()
  {
    && |nodes| == |text| == |root|
    && forall k :: 0 <= k < |nodes| ==> Describes(config, RootMode(root[k]), text[k], nodes[k].match_)
  }

  // ---- A string denotes at most one node of a root ----

  lemma {:induction false} Comparable(s: Trie, a: nat, b: nat)
    requires s.Linked() && a < |s.span| && b < |s.span|
    requires s.root[a] == s.root[b] && s.text[a] <= s.text[b]
    ensures a == b || (ROOTS <= b && |s.text[a]| <= |s.text[s.parent[b]]|)
    decreases |s.text[a]| + |s.text[b]|
  {
    assert ROOTS <= a ==> s.EdgeOk(a);
    assert a < ROOTS ==> s.RootOk(a);
    assert b < ROOTS ==> s.RootOk(b);
    if ROOTS <= a && ROOTS <= b {
      assert s.EdgeOk(b);
      var p, q := s.parent[a], s.parent[b];
      if |s.text[q]| < |s.text[a]| {
        ParentsCoincide(s, a, b);
        assert s.text[a][|s.text[p]|] == s.text[b][|s.text[q]|];
      }
    }
  }

  lemma {:induction false} ParentsCoincide(s: Trie, a: nat, b: nat)
    requires s.Linked() && ROOTS <= a < |s.span| && ROOTS <= b < |s.span|
    requires s.root[a] == s.root[b] && s.text[a] <= s.text[b]
    requires |s.text[s.parent[b]]| < |s.text[a]|
    ensures s.parent[a] == s.parent[b]
    decreases |s.text[a]| + |s.text[b]|, 0
  {
    assert s.EdgeOk(a) && s.EdgeOk(b);
    var p, q := s.parent[a], s.parent[b];
    var ta, tb, tp, tq := s.text[a], s.text[b], s.text[p], s.text[q];
    assert tp == ta[..|tp|] == tb[..|tp|];
    assert tq == tb[..|tq|] == ta[..|tq|];
    if |tp| < |tq| {
      Comparable(s, q, a);
    } else if |tq| < |tp| {
      Comparable(s, p, b);
    } else {
      Comparable(s, p, q);
      assert ROOTS <= q ==> s.EdgeOk(q);
    }
  }

  /** Interning is injective: within one root, two nodes with the same string are the same node. */
  lemma SameTextSameNode(s: Trie, a: nat, b: nat)
    requires s.Linked() && a < |s.span| && b < |s.span|
    requires s.root[a] == s.root[b] && s.text[a] == s.text[b]
    ensures a == b
  {
    Comparable(s, a, b);
    if ROOTS <= b {
      assert s.EdgeOk(b);
    }
  }

  // ---- The two in-place changes, on values ----

  ghost function WithLeaf(s: Trie, parent: nat, suffix: Bytes): Trie
    requires s.Shape() && parent < |s.span| && suffix != []
  {
    var leaf: nat := |s.span|;
    var row: seq<nat> := s.children[parent][suffix[0] := leaf];
    Trie(s.children[parent := row] + [NoChildren()],
         s.span + [suffix],
         s.text + [s.text[parent] + suffix],
         s.root + [s.root[parent]],
         s.parent + [parent])
  }

  lemma WithLeafLinked(s: Trie, parent: nat, suffix: Bytes)
    requires s.Linked() && parent < |s.span| && suffix != [] && s.children[parent][suffix[0]] == 0
    ensures WithLeaf(s, parent, suffix).Linked()
  {
    var leaf: nat := |s.span|;
    var t := WithLeaf(s, parent, suffix);
    forall k | 0 <= k < ROOTS ensures t.RootOk(k) {
      assert s.RootOk(k);
    }
    forall k | ROOTS <= k < |t.span| ensures t.EdgeOk(k) {
      if k < leaf {
        assert s.EdgeOk(k);
      }
    }
    forall k | 0 <= k < |t.span| ensures t.ChildrenOk(k) {
      if k < leaf {
        assert s.ChildrenOk(k);
        forall b: Byte ensures t.ChildOk(k, b, t.children[k][b]) {
          assert s.ChildOk(k, b, s.children[k][b]);
        }
      }
    }
  }

  ghost function Split(s: Trie, child: nat, common: nat): Trie
    requires s.Shape() && ROOTS <= child < |s.span| && 0 < common < |s.span[child]|
  {
    var middle: nat := |s.span|;
    var up := s.parent[child];
    var edge := s.span[child];
    var upRow: seq<nat> := s.children[up][edge[0] := middle];
    var row: seq<nat> := NoChildren()[edge[common] := child];
    Trie(s.children[up := upRow] + [row],
         s.span[child := edge[common..]] + [edge[..common]],
         s.text + [s.text[up] + edge[..common]],
         s.root + [s.root[up]],
         s.parent[child := middle] + [up])
  }

  lemma SplitLinked(s: Trie, child: nat, common: nat)
    requires s.Linked() && ROOTS <= child < |s.span| && 0 < common < |s.span[child]|
    ensures Split(s, child, common).Linked()
  {
    var t := Split(s, child, common);
    forall k | 0 <= k < ROOTS ensures t.RootOk(k) {
      assert s.RootOk(k);
    }
    forall k | ROOTS <= k < |t.span| ensures t.EdgeOk(k) {
      SplitEdges(s, child, common, k);
    }
    forall k | 0 <= k < |t.span| ensures t.ChildrenOk(k) {
      SplitChildren(s, child, common, k);
    }
  }

  lemma SplitEdges(s: Trie, child: nat, common: nat, k: nat)
    requires s.Linked() && ROOTS <= child < |s.span| && 0 < common < |s.span[child]|
    requires ROOTS <= k <= |s.span| && Split(s, child, common).Shape()
    ensures Split(s, child, common).EdgeOk(k)
  {
    hide Trie.ChildrenOk;
    var t := Split(s, child, common);
    var edge := s.span[child];
    assert s.EdgeOk(child) && edge == edge[..common] + edge[common..];
    if k < |s.span| {
      assert s.EdgeOk(k);
    }
  }

  lemma SplitChildren(s: Trie, child: nat, common: nat, k: nat)
    requires s.Linked() && ROOTS <= child < |s.span| && 0 < common < |s.span[child]|
    requires k <= |s.span| && Split(s, child, common).Shape()
    ensures Split(s, child, common).ChildrenOk(k)
  {
    var t := Split(s, child, common);
    assert s.EdgeOk(child);
    forall b: Byte ensures t.ChildOk(k, b, t.children[k][b]) {
      if k < |s.span| {
        assert s.ChildrenOk(k) && s.ChildOk(k, b, s.children[k][b]);
      }
    }
  }

  lemma StoredLeaf(nodes: seq<Node>, pool: Bytes, span: seq<Bytes>, suffix: Bytes, leaf: Node)
    requires Stored(nodes, pool, span) && leaf.offset == |pool| && leaf.length == |suffix|
    ensures Stored(nodes + [leaf], pool + suffix, span + [suffix])
  {
    forall k | 0 <= k < |span| ensures StoredAt(nodes[k], pool + suffix, span[k]) {
      var node := nodes[k];
      assert StoredAt(node, pool, span[k]);
      assert (pool + suffix)[node.offset..node.offset + node.length] == pool[node.offset..node.offset + node.length];
    }
  }

  lemma StoredSplit(node: Node, pool: Bytes, span: Bytes, common: nat, m: Match)
    requires StoredAt(node, pool, span) && common <= node.length
    ensures |span| == node.length
    ensures StoredAt(Node(node.offset, common, 0, m), pool, span[..common])
    ensures StoredAt(node.(offset := node.offset + common, length := node.length - common), pool, span[common..])
  {
  }

  // ---- The index ----

  // A part of a span of a prefix is a part of the whole.
  lemma Inner(p: Bytes, used: nat, offset: nat, length: nat, common: nat)
    requires offset + length <= used <= |p| && common < length
    ensures p[..used][offset..offset + length][..common] == p[offset..offset + common]
    ensures p[..used][offset..offset + length][common] == p[offset + common]
  {
    var part := p[..used][offset..offset + length];
    assert forall k :: 0 <= k < length ==> part[k] == p[offset + k];
    assert forall k :: 0 <= k < common ==> part[..common][k] == p[offset..offset + common][k];
  }

  class IdentityIndex {
    const config: Config
    const nodeCapacity: nat
    const pool: array<Byte>
    var nodes: seq<Node>
    var children: seq<seq<nat>>
    var poolUsed: nat
    var groupCount: nat
    ghost var trie: Trie

    ghost predicate InBounds()
      reads this
    {
      && config.Valid()
      && ROOTS <= |nodes| == |trie.span| <= nodeCapacity && poolUsed <= pool.Length
    }

    ghost predicate Valid()
      reads this, pool
      ensures Valid() ==> InBounds() && trie.Shape()
    {
      && InBounds()
      && trie.Shape() && trie.Linked()
      && children == trie.children
      && Stored(nodes, pool[..poolUsed], trie.span)
      && Cached(config, nodes, trie.text, trie.root)
    }

    // Existing nodes keep their string, root, cached value and document group,
    // and existing pool bytes stay.
    twostate predicate Stable()
      requires old(InBounds()) && InBounds()
      reads this, pool
    {
      && |old(nodes)| <= |nodes| && old(poolUsed) <= poolUsed
      && old(trie).text <= trie.text && old(trie).root <= trie.root
      && old(pool[..poolUsed]) == pool[..old(poolUsed)]
      && KeepNodes(old(nodes), nodes)
    }

    twostate predicate Unchanged()
      reads this, pool
    {
      && nodes == old(nodes) && children == old(children) && trie == old(trie)
      && poolUsed == old(poolUsed) && pool[..] == old(pool[..])
    }

    constructor (config: Config, nodeCapacity: nat, poolCapacity: nat)
      requires config.Valid() && nodeCapacity >= ROOTS
      ensures Valid() && |nodes| == ROOTS && poolUsed == 0 && groupCount == 0
      ensures this.config == config && this.nodeCapacity == nodeCapacity && pool.Length == poolCapacity && fresh(pool)
      ensures trie.text == [[], []] && trie.root == [0, 1]
      ensures nodes[0].groupPlusOne == nodes[1].groupPlusOne == 0
    {
      hide Describes;
      var relative := Init(config, RootMode(0));
      var absolute := Init(config, RootMode(1));
      this.config, this.nodeCapacity := config, nodeCapacity;
      nodes := [Node(0, 0, 0, relative), Node(0, 0, 0, absolute)];
      children := [NoChildren(), NoChildren()];
      pool := new Byte[poolCapacity](_ => 0);
      poolUsed, groupCount := 0, 0;
      trie := Trie([NoChildren(), NoChildren()], [[], []], [[], []], [0, 1], [0, 0]);
    }

    /** Copy bytes to the end of the pool. */
    method StoreBytes(suffix: Bytes) returns (offset: nat)
      requires poolUsed <= pool.Length && |suffix| <= pool.Length - poolUsed
      modifies this`poolUsed, pool
      ensures offset == old(poolUsed) && poolUsed == offset + |suffix| <= pool.Length
      ensures pool[..poolUsed] == old(pool[..poolUsed]) + suffix
    {
      offset := poolUsed;
      forall k | 0 <= k < |suffix| {
        pool[offset + k] := suffix[k];
      }
      poolUsed := poolUsed + |suffix|;
    }

    /** Append a leaf for a nonempty suffix that leaves `up` by an unused byte. */
    method AddLeaf(up: nat, suffix: Bytes) returns (leaf: nat)
      requires Valid() && up < |nodes| < nodeCapacity
      requires suffix != [] && |suffix| <= pool.Length - poolUsed
      requires children[up][suffix[0]] == 0
      modifies this`nodes, this`children, this`poolUsed, this`trie, pool
      ensures Valid() && Stable()
      ensures leaf == |old(nodes)| && |nodes| == leaf + 1
      ensures poolUsed == old(poolUsed) + |suffix|
      ensures trie == WithLeaf(old(trie), up, suffix)
    {
      hide Describes;
      hide Trie.Linked;
      hide StoredAt;
      ghost var oldPool := pool[..poolUsed];
      WithLeafLinked(trie, up, suffix);
      leaf := |nodes|;
      var m := Extend(config, RootMode(trie.root[up]), suffix, nodes[up].match_, trie.text[up]);
      var offset := StoreBytes(suffix);
      StoredLeaf(nodes, oldPool, trie.span, suffix, Node(offset, |suffix|, 0, m));
      var row: seq<nat> := children[up][suffix[0] := leaf];
      nodes := nodes + [Node(offset, |suffix|, 0, m)];
      children := children[up := row] + [NoChildren()];
      trie := WithLeaf(trie, up, suffix);
    }

    /** Split the incoming edge of `child`, a child of `up`, after `common` bytes. */
    method SplitEdge(up: nat, child: nat, common: nat) returns (middle: nat)
      requires Valid() && ROOTS <= child < |nodes| < nodeCapacity && 0 < common < |trie.span[child]|
      requires trie.parent[child] == up
      modifies this`nodes, this`children, this`trie
      ensures Valid() && Stable()
      ensures middle == |old(nodes)| && |nodes| == middle + 1
      ensures trie == Split(old(trie), child, common)
    {
      hide Describes;
      hide Trie.Linked;
      var edge := nodes[child];
      ghost var span := trie.span[child];
      EdgeBytes(child, common);
      SplitLinked(trie, child, common);
      middle := |nodes|;
      var shared := pool[edge.offset..edge.offset + common];
      var next := pool[edge.offset + common];
      var m := Extend(config, RootMode(trie.root[up]), shared, nodes[up].match_, trie.text[up]);
      StoredSplit(edge, pool[..poolUsed], span, common, m);
      var upRow: seq<nat> := children[up][shared[0] := middle];
      var row: seq<nat> := NoChildren()[next := child];
      nodes := nodes[child := edge.(offset := edge.offset + common, length := edge.length - common)]
        + [Node(edge.offset, common, 0, m)];
      children := children[up := upRow] + [row];
      trie := Split(trie, child, common);
    }

    lemma EdgeBytes(child: nat, common: nat)
      requires Valid() && child < |nodes| && common < |trie.span[child]|
      ensures nodes[child].length == |trie.span[child]|
      ensures nodes[child].offset + nodes[child].length <= poolUsed
      ensures pool[nodes[child].offset..nodes[child].offset + common] == trie.span[child][..common]
      ensures pool[nodes[child].offset + common] == trie.span[child][common]
    {
      hide Describes;
      hide Trie.Linked;
      var edge := nodes[child];
      assert StoredAt(edge, pool[..poolUsed], trie.span[child]);
      Inner(pool[..], poolUsed, edge.offset, edge.length, common);
      assert pool[..][..poolUsed] == pool[..poolUsed];
    }

    /** How many bytes of the edge into `child` agree with the input. */
    method CommonPrefix(child: nat, input: Bytes, position: nat) returns (common: nat)
      requires Valid() && child < |nodes| && position <= |input|
      ensures nodes[child].length == |trie.span[child]|
      ensures common <= |trie.span[child]| && common <= |input| - position
      ensures trie.span[child][..common] == input[position..position + common]
      ensures common < |trie.span[child]| && common < |input| - position ==>
        trie.span[child][common] != input[position + common]
    {
      hide Describes;
      hide Trie.Linked;
      var edge := nodes[child];
      assert StoredAt(edge, pool[..poolUsed], trie.span[child]);
      var shared := if edge.length < |input| - position then edge.length else |input| - position;
      common := 0;
      while common < shared && pool[edge.offset + common] == input[position + common]
        invariant common <= shared
        invariant trie.span[child][..common] == input[position..position + common]
      {
        EdgeBytes(child, common);
        assert trie.span[child][..common + 1] == trie.span[child][..common] + [trie.span[child][common]];
        assert input[position..position + common + 1] == input[position..position + common] + [input[position + common]];
        common := common + 1;
      }
      if common < shared {
        EdgeBytes(child, common);
      }
    }

    /** Move from node `start` along the bytes of the input, adding what is
        missing.  The node capacity is established by the caller; only the pool
        can run out, and then nothing has changed. */
    method Intern(start: nat, input: Bytes) returns (ok: bool, terminal: nat)
      requires Valid() && start < |nodes| && |nodes| + 2 <= nodeCapacity
      modifies this`nodes, this`children, this`poolUsed, this`trie, pool
      ensures Valid()
      ensures ok ==> Stable() && terminal < |nodes|
      ensures ok ==> trie.text[terminal] == old(trie).text[start] + input && trie.root[terminal] == old(trie).root[start]
      ensures !ok ==> Unchanged() && |input| > pool.Length - poolUsed
      ensures |nodes| <= |old(nodes)| + 2 && |nodes| <= |old(nodes)| + |input|
      ensures poolUsed <= old(poolUsed) + |input|
    {
      hide Describes;
      hide Trie.Linked;
      hide Stored;
      var position: nat, up: nat := 0, start;
      assert trie.text[start] + input[..0] == trie.text[start];
      while position < |input|
        invariant Valid() && Unchanged()
        invariant position <= |input| && up < |nodes|
        invariant trie.text[up] == trie.text[start] + input[..position] && trie.root[up] == trie.root[start]
      {
        ChildOf(trie, up, input[position]);
        var child := children[up][input[position]];
        if child == 0 {
          if |input| - position > pool.Length - poolUsed {
            return false, 0;
          }
          terminal := AddLeaf(up, input[position..]);
          TakeMore(input, position, 0);
          return true, terminal;
        }
        var common := CommonPrefix(child, input, position);
        FirstByteShared(trie.span[child], input, position, common);
        TakeMore(input, position, common);
        if common == nodes[child].length {
          assert trie.span[child][..common] == trie.span[child];
          position, up := position + common, child;
        } else {
          ok, terminal := SplitAt(up, child, common, input[position..]);
          return;
        }
      }
      assert input[..position] == input;
      return true, up;
    }

    /** Give a node a document group of its own unless it has one already. */
    method AssignGroup(terminal: nat) returns (group: nat)
      requires Valid() && terminal < |nodes| && GroupsDistinct()
      modifies this`nodes, this`groupCount
      ensures Valid() && GroupsDistinct() && |nodes| == |old(nodes)|
      ensures nodes[terminal].groupPlusOne == group + 1 <= groupCount
      ensures old(groupCount) <= groupCount <= old(groupCount) + 1
      ensures forall k :: 0 <= k < |nodes| && old(nodes[k].groupPlusOne) != 0 ==>
        nodes[k].groupPlusOne == old(nodes[k].groupPlusOne)
    {
      hide Describes;
      hide Trie.Linked;
      hide Trie.Shape;
      if nodes[terminal].groupPlusOne == 0 {
        groupCount := groupCount + 1;
        assert forall k :: 0 <= k < |nodes| ==> StoredAt(nodes[k], pool[..poolUsed], trie.span[k]);
        nodes := nodes[terminal := nodes[terminal].(groupPlusOne := groupCount)];
      }
      group := nodes[terminal].groupPlusOne - 1;
    }

    // No two nodes share a document group.
    ghost predicate GroupsDistinct()
      reads this
    {
      && (forall k :: 0 <= k < |nodes| ==> nodes[k].groupPlusOne <= groupCount)
      && (forall a, b :: 0 <= a < |nodes| && 0 <= b < |nodes| && nodes[a].groupPlusOne == nodes[b].groupPlusOne != 0 ==> a == b)
    }

    method SplitAt(up: nat, child: nat, common: nat, input: Bytes) returns (ok: bool, terminal: nat)
      requires Valid() && ROOTS <= child < |nodes| && |nodes| + 2 <= nodeCapacity
      requires trie.parent[child] == up < |nodes|
      requires 0 < common < nodes[child].length == |trie.span[child]| && common <= |input|
      requires trie.span[child][..common] == input[..common]
      requires common < |input| ==> trie.span[child][common] != input[common]
      modifies this`nodes, this`children, this`poolUsed, this`trie, pool
      ensures Valid()
      ensures ok ==> Stable() && terminal < |nodes|
      ensures ok ==> trie.text[terminal] == old(trie).text[up] + input && trie.root[terminal] == old(trie).root[up]
      ensures !ok ==> Unchanged() && |input| > pool.Length - poolUsed
      ensures |nodes| <= |old(nodes)| + 2 && |nodes| <= |old(nodes)| + |input|
      ensures poolUsed <= old(poolUsed) + |input|
    {
      hide Describes;
      hide Trie.Linked;
      hide Stored;
      var suffixLength := |input| - common;
      if suffixLength > pool.Length - poolUsed {
        return false, 0;
      }
      var middle := SplitEdge(up, child, common);
      if suffixLength == 0 {
        assert input[..common] == input;
        return true, middle;
      }
      assert input[..common] + input[common..] == input;
      terminal := AddLeaf(middle, input[common..]);
      ok := true;
    }
  }

  lemma ChildOf(s: Trie, k: nat, b: Byte)
    requires s.Linked() && k < |s.span|
    ensures s.Shape()
    ensures var child := s.children[k][b];
      child == 0 || (ROOTS <= child < |s.span| && s.parent[child] == k && s.span[child] != [] && s.span[child][0] == b
        && s.text[child] == s.text[k] + s.span[child] && s.root[child] == s.root[k])
  {
    assert s.ChildrenOk(k) && s.ChildOk(k, b, s.children[k][b]);
    var child := s.children[k][b];
    if child != 0 {
      assert s.EdgeOk(child);
    }
  }

  lemma FirstByteShared(span: Bytes, input: Bytes, position: nat, common: nat)
    requires position < |input| && span != [] && span[0] == input[position]
    requires common <= |span| && common <= |input| - position
    requires common < |span| && common < |input| - position ==> span[common] != input[position + common]
    ensures common > 0
  {
  }
}
