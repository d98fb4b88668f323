/** Identity groups and path flags of the FILE documents of a graph.

    Two documents belong to one group exactly when they name the same file: the
    same kind of starting directory and the same normalized bytes.  The module
    also accounts for the fixed node table: three nodes for a directory and two
    for an operand are always enough. */
module FileDocuments {
  import opened Bytes
  import opened PathFragment
  import opened FileMatch
  import opened IdentityTrie

  const NO_GROUP := 0xFFFF_FFFF
  const DOT: Byte := 46

  /** A document as the index sees it.  `decoded` is the spelling of the operand;
      `identity` is its normalized form, present when the identity is known. */
  datatype Document =
    | Skipped
    | File(cwdKnown: bool, cwdAbsolute: bool, cwdOffset: nat,
           known: bool, absolute: bool, identity: Bytes, decoded: Bytes)
  {
    // A relative identity is known only below a known directory.
    ghost predicate Valid(cwds: seq<Bytes>) {
      File? ==> (cwdKnown ==> cwdOffset < |cwds|) && (known ==> absolute || cwdKnown)
    }

    predicate Identified() {
      File? && known
    }
  }

  // An empty retained directory still joins with a separator.
  function CwdText(raw: Bytes, normalize: Bytes -> Bytes): Bytes {
    if raw == [] then [SLASH] else normalize(raw)
  }

  lemma CwdNonempty(raw: Bytes, normalize: Bytes -> Bytes)
    requires NormalizeKeeps(normalize)
    ensures CwdText(raw, normalize) != []
  {
  }

  // What precedes a relative operand.
  function DirectoryText(cwd: Bytes): Bytes
    requires cwd != []
  {
    if cwd == [DOT] then [] else if cwd[|cwd| - 1] == SLASH then cwd else cwd + [SLASH]
  }

  ghost predicate NormalizeKeeps(normalize: Bytes -> Bytes) {
    forall raw :: raw != [] ==> normalize(raw) != []
  }

  function RootOf(absolute: bool): nat {
    if absolute then 1 else 0
  }

  // The root and the bytes that identify a document.
  ghost function Identity(doc: Document, cwds: seq<Bytes>, normalize: Bytes -> Bytes): (nat, Bytes)
    requires doc.Valid(cwds) && doc.Identified() && NormalizeKeeps(normalize)
  {
    if doc.absolute then (1, doc.identity)
    else
      var cwd := CwdText(cwds[doc.cwdOffset], normalize);
      (RootOf(doc.cwdAbsolute), if doc.identity == [DOT] then cwd else DirectoryText(cwd) + doc.identity)
  }

  function SpellingMode(known: bool): Mode {
    Mode(!known, true, !known)
  }

  datatype PathFlags = PathFlags(prefixes: seq<bool>, fragments: seq<bool>)

  // The flags of a document: those of its identity and those of its spelling.
  ghost predicate FlagsOf(config: Config, doc: Document, cwds: seq<Bytes>, normalize: Bytes -> Bytes, flags: PathFlags)
    requires config.Valid() && doc.Valid(cwds) && NormalizeKeeps(normalize) && doc.File?
  {
    && |flags.prefixes| == PREFIX_LISTS && |flags.fragments| == FRAGMENT_LISTS
    && (forall l :: 0 <= l < PREFIX_LISTS ==> (flags.prefixes[l] <==>
         (doc.known && var id := Identity(doc, cwds, normalize); PrefixFlag(config.prefixes[l], RootMode(id.0), id.1))
         || PrefixFlag(config.prefixes[l], SpellingMode(doc.known), doc.decoded)))
    && (forall l :: 0 <= l < FRAGMENT_LISTS ==> (flags.fragments[l] <==>
         (doc.known && var id := Identity(doc, cwds, normalize); FragmentFlag(config.fragments[l], RootMode(id.0), id.1))
         || FragmentFlag(config.fragments[l], SpellingMode(doc.known), doc.decoded)))
  }

  // ---- Flags, written out ----

  /** The path that a known identity stands for: a relative operand is joined to its directory with one slash,
      the directory "." adds nothing, the operand "." is the directory itself, and an empty directory is "/". */
  ghost function FullPath(doc: Document, cwds: seq<Bytes>, normalize: Bytes -> Bytes): Bytes
    requires doc.Valid(cwds) && doc.Identified()
  {
    if doc.absolute then doc.identity
    else
      var cwd := if cwds[doc.cwdOffset] == [] then [47] else normalize(cwds[doc.cwdOffset]);
      if doc.identity == [46] then cwd
      else if cwd == [46] then doc.identity
      else if cwd != [] && cwd[|cwd| - 1] == 47 then cwd + doc.identity
      else cwd + [47] + doc.identity
  }

  // The text is p or lies under it.
  ghost predicate LiesUnder(t: Bytes, p: Bytes) {
    t == p || (p != [] && p < t && (p[|p| - 1] == 47 || t[|p|] == 47))
  }

  ghost predicate Includes(t: Bytes, a: Bytes) {
    exists k :: 0 <= k <= |t| && a <= t[k..]
  }

  /** What raises a flag of a document: an absolute prefix, and any fragment, is looked for in the path of a
      known identity of absolute origin; a relative identity is searched for relative fragments only.  The
      spelling is always looked at, but for absolute prefixes and fragments only if no identity is known. */
  ghost predicate PrefixRaises(p: Bytes, doc: Document, cwds: seq<Bytes>, normalize: Bytes -> Bytes)
    requires doc.Valid(cwds) && doc.File?
  {
    p != [] &&
    if p[0] == 47
    then if doc.known then (doc.absolute || doc.cwdAbsolute) && LiesUnder(FullPath(doc, cwds, normalize), p)
         else LiesUnder(doc.decoded, p)
    else LiesUnder(doc.decoded, p)
  }

  ghost predicate FragmentRaises(a: Bytes, doc: Document, cwds: seq<Bytes>, normalize: Bytes -> Bytes)
    requires doc.Valid(cwds) && doc.File?
  {
    a != [] &&
    if a[0] == 47
    then if doc.known then (doc.absolute || doc.cwdAbsolute) && Includes(FullPath(doc, cwds, normalize), a)
         else Includes(doc.decoded, a)
    else (doc.known && Includes(FullPath(doc, cwds, normalize), a)) || Includes(doc.decoded, a)
  }

  ghost predicate FlagsMean(config: Config, doc: Document, cwds: seq<Bytes>, normalize: Bytes -> Bytes, flags: PathFlags)
    requires config.Valid() && doc.Valid(cwds) && doc.File?
  {
    && |flags.prefixes| == 3 && |flags.fragments| == 2
    && (forall l :: 0 <= l < 3 ==> (flags.prefixes[l] <==>
         exists i :: 0 <= i < |config.prefixes[l]| && PrefixRaises(config.prefixes[l][i], doc, cwds, normalize)))
    && (forall l :: 0 <= l < 2 ==> (flags.fragments[l] <==>
         exists i :: 0 <= i < |config.fragments[l]| && FragmentRaises(config.fragments[l][i].text, doc, cwds, normalize)))
  }

  lemma IdentityIs(doc: Document, cwds: seq<Bytes>, normalize: Bytes -> Bytes)
    requires doc.Valid(cwds) && doc.Identified() && NormalizeKeeps(normalize)
    ensures Identity(doc, cwds, normalize) ==
      (if doc.absolute || doc.cwdAbsolute then 1 else 0, FullPath(doc, cwds, normalize))
  {
    if !doc.absolute {
      CwdNonempty(cwds[doc.cwdOffset], normalize);
      assert [] + doc.identity == doc.identity;
    }
  }

  lemma IncludesIs(t: Bytes, a: Bytes)
    ensures Includes(t, a) <==> Occurs(a, t)
  {
    if Includes(t, a) {
      var k :| 0 <= k <= |t| && a <= t[k..];
      assert OccursAt(a, t, k) by {
        assert t[k..][..|a|] == t[k..k + |a|];
      }
    }
    if Occurs(a, t) {
      var k :| OccursAt(a, t, k);
      assert t[k..][..|a|] == t[k..k + |a|];
      assert a <= t[k..];
    }
  }

  /** The flags say exactly that. */
  lemma FlagsAre(config: Config, doc: Document, cwds: seq<Bytes>, normalize: Bytes -> Bytes, flags: PathFlags)
    requires config.Valid() && doc.Valid(cwds) && NormalizeKeeps(normalize) && doc.File?
    requires FlagsOf(config, doc, cwds, normalize, flags)
    ensures FlagsMean(config, doc, cwds, normalize, flags)
  {
    hide Identity;
    hide FullPath;
    if doc.known {
      IdentityIs(doc, cwds, normalize);
    }
    forall l | 0 <= l < 3
      ensures flags.prefixes[l] <==>
        exists i :: 0 <= i < |config.prefixes[l]| && PrefixRaises(config.prefixes[l][i], doc, cwds, normalize)
    {
      PrefixesAre(config.prefixes[l], doc, cwds, normalize);
    }
    forall l | 0 <= l < 2
      ensures flags.fragments[l] <==>
        exists i :: 0 <= i < |config.fragments[l]| && FragmentRaises(config.fragments[l][i].text, doc, cwds, normalize)
    {
      FragmentsAre(config.fragments[l], doc, cwds, normalize);
    }
  }

  lemma PrefixesAre(list: seq<Bytes>, doc: Document, cwds: seq<Bytes>, normalize: Bytes -> Bytes)
    requires doc.Valid(cwds) && NormalizeKeeps(normalize) && doc.File?
    ensures
      ((doc.known && PrefixFlag(list, RootMode(if doc.absolute || doc.cwdAbsolute then 1 else 0), FullPath(doc, cwds, normalize)))
       || PrefixFlag(list, SpellingMode(doc.known), doc.decoded))
      <==> exists i :: 0 <= i < |list| && PrefixRaises(list[i], doc, cwds, normalize)
  {
    hide FullPath;
  }

  lemma FragmentsAre(list: seq<Fragment>, doc: Document, cwds: seq<Bytes>, normalize: Bytes -> Bytes)
    requires doc.Valid(cwds) && NormalizeKeeps(normalize) && doc.File?
    ensures
      ((doc.known && FragmentFlag(list, RootMode(if doc.absolute || doc.cwdAbsolute then 1 else 0), FullPath(doc, cwds, normalize)))
       || FragmentFlag(list, SpellingMode(doc.known), doc.decoded))
      <==> exists i :: 0 <= i < |list| && FragmentRaises(list[i].text, doc, cwds, normalize)
  {
    hide FullPath;
    hide Occurs;
    hide Includes;
    forall i | 0 <= i < |list|
      ensures Includes(doc.decoded, list[i].text) <==> Occurs(list[i].text, doc.decoded)
      ensures doc.known ==> (Includes(FullPath(doc, cwds, normalize), list[i].text) <==> Occurs(list[i].text, FullPath(doc, cwds, normalize)))
    {
      IncludesIs(doc.decoded, list[i].text);
      if doc.known {
        IncludesIs(FullPath(doc, cwds, normalize), list[i].text);
      }
    }
  }

  // Pool bytes that one document can take.
  ghost function PoolNeed(doc: Document, cwds: seq<Bytes>, normalize: Bytes -> Bytes): nat
    requires doc.Valid(cwds)
  {
    if doc.Skipped? then 0
    else (if doc.cwdKnown then |CwdText(cwds[doc.cwdOffset], normalize)| + 1 else 0) + (if doc.known then |doc.identity| else 0)
  }

  ghost function PoolNeeds(docs: seq<Document>, cwds: seq<Bytes>, normalize: Bytes -> Bytes): nat
    requires forall d :: 0 <= d < |docs| ==> docs[d].Valid(cwds)
  {
    if docs == [] then 0
    else PoolNeeds(docs[..|docs| - 1], cwds, normalize) + PoolNeed(docs[|docs| - 1], cwds, normalize)
  }

  // Node `node` denotes the bytes `text` below root `root`.
  ghost predicate Names(trie: Trie, node: nat, root: nat, text: Bytes) {
    node < |trie.text| && node < |trie.root| && trie.text[node] == text && trie.root[node] == root
  }

  class DocumentIndex {
    const index: IdentityIndex
    const cwds: seq<Bytes>
    const normalize: Bytes -> Bytes
    var cwdIdentity: map<(bool, nat), nat>
    var cwdDirectory: map<(bool, nat), nat>
    var group: seq<nat>
    var flags: seq<PathFlags>
    ghost var terminals: seq<nat>

    ghost predicate Valid()
      reads this, index, index.pool
    {
      && NormalizeKeeps(normalize)
      && index.Valid() && index.GroupsDistinct()
      && AllCwdsCached(index.trie, cwdIdentity, cwdDirectory)
    }

    ghost predicate AllCwdsCached(trie: Trie, identity: map<(bool, nat), nat>, directory: map<(bool, nat), nat>)
      requires NormalizeKeeps(normalize)
    {
      && identity.Keys == directory.Keys
      && forall key :: key in identity ==> CwdCached(trie, key, identity[key], directory[key])
    }

    ghost predicate CwdCached(trie: Trie, key: (bool, nat), identity: nat, directory: nat)
      requires NormalizeKeeps(normalize)
    {
      && key.1 < |cwds|
      && var cwd := CwdText(cwds[key.1], normalize);
         Names(trie, identity, RootOf(key.0), cwd) && Names(trie, directory, RootOf(key.0), DirectoryText(cwd))
    }

    // What the index knows about a document that has been placed.
    ghost predicate Placed(trie: Trie, nodes: seq<Node>, doc: Document, group: nat, flags: PathFlags, terminal: nat)
      requires doc.Valid(cwds) && NormalizeKeeps(normalize) && index.config.Valid()
    {
      && (doc.File? ==> FlagsOf(index.config, doc, cwds, normalize, flags))
      && (!doc.Identified() ==> group == NO_GROUP)
      && (doc.Identified() ==>
        var id := Identity(doc, cwds, normalize);
        Names(trie, terminal, id.0, id.1) && terminal < |nodes| && nodes[terminal].groupPlusOne == group + 1)
    }

    lemma CacheStays(before: Trie, after: Trie, identity: map<(bool, nat), nat>, directory: map<(bool, nat), nat>)
      requires NormalizeKeeps(normalize) && before.text <= after.text && before.root <= after.root
      requires AllCwdsCached(before, identity, directory)
      ensures AllCwdsCached(after, identity, directory)
    {
      forall key | key in identity ensures CwdCached(after, key, identity[key], directory[key]) {
        assert CwdCached(before, key, identity[key], directory[key]);
      }
    }

    // Interning keeps everything this index knows.
    twostate lemma AfterIntern()
      requires old(Valid()) && index.Valid()
      requires index.Stable() && index.groupCount == old(index.groupCount)
      requires cwdIdentity == old(cwdIdentity) && cwdDirectory == old(cwdDirectory)
      ensures Valid() && Extends(old(index.trie), old(index.nodes), index.trie, index.nodes)
    {
      hide IdentityIndex.Valid;
      CacheStays(old(index.trie), index.trie, cwdIdentity, cwdDirectory);
      DistinctAfter(index, old(index.nodes));
    }

    constructor (config: Config, cwds: seq<Bytes>, normalize: Bytes -> Bytes, nodeCapacity: nat, poolCapacity: nat)
      requires config.Valid() && NormalizeKeeps(normalize) && nodeCapacity >= ROOTS
      ensures Valid() && fresh(index) && fresh(index.pool)
      ensures |index.nodes| == ROOTS && index.poolUsed == 0 && index.groupCount == 0 && group == [] && flags == [] && terminals == []
      ensures index.nodeCapacity == nodeCapacity && index.pool.Length == poolCapacity
      ensures index.config == config && this.cwds == cwds && this.normalize == normalize
    {
      hide IdentityIndex.Valid;
      hide NormalizeKeeps;
      index := new IdentityIndex(config, nodeCapacity, poolCapacity);
      this.cwds, this.normalize := cwds, normalize;
      cwdIdentity, cwdDirectory := map[], map[];
      group, flags, terminals := [], [], [];
    }

    /** Intern a directory and the position where its relative operands continue. */
    method InternDirectory(absolute: bool, cwd: Bytes) returns (ok: bool, identity: nat, directory: nat)
      requires Valid() && cwd != [] && |index.nodes| + 4 <= index.nodeCapacity
      modifies index`nodes, index`children, index`poolUsed, index`trie, index.pool
      ensures ok ==> Valid() && Names(index.trie, identity, RootOf(absolute), cwd)
      ensures ok ==> Names(index.trie, directory, RootOf(absolute), DirectoryText(cwd))
      ensures ok ==> Extends(old(index.trie), old(index.nodes), index.trie, index.nodes)
      ensures |index.nodes| <= |old(index.nodes)| + 3
      ensures index.poolUsed <= old(index.poolUsed) + |cwd| + 1
      ensures !ok ==> old(index.poolUsed) + |cwd| + 1 > index.pool.Length
    {
      hide IdentityIndex.Valid;
      hide IdentityIndex.GroupsDistinct;
      hide Extends;
      hide AllCwdsCached;
      hide NormalizeKeeps;
      hide KeepNodes;
      var root := RootOf(absolute);
      RootText(index, root);
      directory := root;
      ok, identity := index.Intern(root, cwd);
      if !ok {
        return;
      }
      AfterIntern();
      ghost var between, nodesBetween := index.trie, index.nodes;
      assert [] + cwd == cwd;
      if cwd == [DOT] {
        RootText(index, root);
      } else if cwd[|cwd| - 1] == SLASH {
        directory := identity;
      } else {
        label Between:
        ok, directory := index.Intern(identity, [SLASH]);
        if !ok {
          return;
        }
        AfterIntern@Between();
        ExtendsTransitive(old(index.trie), old(index.nodes), between, nodesBetween, index.trie, index.nodes);
        NamesStay(between, nodesBetween, index.trie, index.nodes, identity);
      }
    }

    /** Prepare a directory once.  At most three nodes. */
    method PrepareCwd(absolute: bool, offset: nat) returns (ok: bool)
      requires Valid() && offset < |cwds| && |index.nodes| + 4 <= index.nodeCapacity
      modifies this`cwdIdentity, this`cwdDirectory
      modifies index`nodes, index`children, index`poolUsed, index`trie, index.pool
      ensures ok ==> Valid() && (absolute, offset) in cwdIdentity
      ensures ok ==> Extends(old(index.trie), old(index.nodes), index.trie, index.nodes)
      ensures |index.nodes| <= |old(index.nodes)| + 3
      ensures index.poolUsed <= old(index.poolUsed) + |CwdText(cwds[offset], normalize)| + 1
      ensures !ok ==> old(index.poolUsed) + |CwdText(cwds[offset], normalize)| + 1 > index.pool.Length
    {
      hide IdentityIndex.Valid;
      hide IdentityIndex.GroupsDistinct;
      hide Extends;
      hide AllCwdsCached;
      hide NormalizeKeeps;
      hide Names;
      hide DirectoryText;
      CwdNonempty(cwds[offset], normalize);
      var key := (absolute, offset);
      Reflexive(index.trie, index.nodes);
      if key in cwdIdentity {
        return true;
      }
      var identity, directory;
      ok, identity, directory := InternDirectory(absolute, CwdText(cwds[offset], normalize));
      if ok {
        CacheAdds(index.trie, key, identity, directory);
        cwdIdentity := cwdIdentity[key := identity];
        cwdDirectory := cwdDirectory[key := directory];
      }
    }

    lemma CacheAdds(trie: Trie, key: (bool, nat), identity: nat, directory: nat)
      requires NormalizeKeeps(normalize) && AllCwdsCached(trie, cwdIdentity, cwdDirectory)
      requires CwdCached(trie, key, identity, directory)
      ensures AllCwdsCached(trie, cwdIdentity[key := identity], cwdDirectory[key := directory])
    {
    }

    ghost predicate NamesDocument(doc: Document, terminal: nat)
      requires NormalizeKeeps(normalize) && doc.Valid(cwds) && doc.Identified()
      reads index
    {
      var id := Identity(doc, cwds, normalize);
      terminal < |index.nodes| && Names(index.trie, terminal, id.0, id.1)
    }

    /** The flags of a document: of its identity, if known, and of its spelling. */
    method DocumentFlags(doc: Document, terminal: nat) returns (result: PathFlags)
      requires index.Valid() && NormalizeKeeps(normalize) && doc.Valid(cwds) && doc.File?
      requires doc.known ==> NamesDocument(doc, terminal)
      ensures FlagsOf(index.config, doc, cwds, normalize, result)
      ensures FlagsMean(index.config, doc, cwds, normalize, result)
    {
      hide FlagsMean;
      hide Describes;
      hide Trie.Linked;
      hide Stored;
      hide PrefixFlag;
      hide FragmentFlag;
      hide Identity;
      var config := index.config;
      var prefixFlags, fragmentFlags := [false, false, false], [false, false];
      if doc.known {
        ghost var id := Identity(doc, cwds, normalize);
        prefixFlags, fragmentFlags := FileMatch.Flags(config, RootMode(id.0), index.nodes[terminal].match_, id.1);
      }
      var decoded := Init(config, SpellingMode(doc.known));
      decoded := Extend(config, SpellingMode(doc.known), doc.decoded, decoded, []);
      assert [] + doc.decoded == doc.decoded;
      var spelledPrefixes, spelledFragments := FileMatch.Flags(config, SpellingMode(doc.known), decoded, doc.decoded);
      result := PathFlags(
        [prefixFlags[0] || spelledPrefixes[0], prefixFlags[1] || spelledPrefixes[1], prefixFlags[2] || spelledPrefixes[2]],
        [fragmentFlags[0] || spelledFragments[0], fragmentFlags[1] || spelledFragments[1]]);
      FlagsAre(config, doc, cwds, normalize, result);
    }

    /** Intern one identified document and give it its group. */
    method PlaceIdentified(doc: Document) returns (ok: bool, terminal: nat, docGroup: nat)
      requires Valid() && doc.Valid(cwds) && doc.Identified()
      requires !doc.absolute ==> (doc.cwdAbsolute, doc.cwdOffset) in cwdIdentity
      requires |index.nodes| + 2 <= index.nodeCapacity
      modifies index`nodes, index`children, index`poolUsed, index`trie, index`groupCount, index.pool
      ensures ok ==> Valid() && terminal < |index.nodes| && index.nodes[terminal].groupPlusOne == docGroup + 1
      ensures ok ==> docGroup < index.groupCount
      ensures old(index.groupCount) <= index.groupCount <= old(index.groupCount) + 1
      ensures ok ==> NamesDocument(doc, terminal)
      ensures ok ==> Extends(old(index.trie), old(index.nodes), index.trie, index.nodes)
      ensures |index.nodes| <= |old(index.nodes)| + 2
      ensures index.poolUsed <= old(index.poolUsed) + |doc.identity|
      ensures !ok ==> old(index.poolUsed) + |doc.identity| > index.pool.Length
    {
      hide IdentityIndex.Valid;
      hide IdentityIndex.GroupsDistinct;
      hide KeepNodes;
      hide NormalizeKeeps;
      hide AllCwdsCached;
      hide Extends;
      docGroup := NO_GROUP;
      var start: nat, input := 1, doc.identity;
      RootText(index, 1);
      if !doc.absolute {
        var key := (doc.cwdAbsolute, doc.cwdOffset);
        CachedKey(index.trie, key);
        if doc.identity == [DOT] {
          start, input := cwdIdentity[key], [];
        } else {
          start := cwdDirectory[key];
        }
      }
      ok, terminal := index.Intern(start, input);
      if ok {
        AfterIntern();
        assert [] + doc.identity == doc.identity;
        ghost var between := index.nodes;
        docGroup := index.AssignGroup(terminal);
        ExtendsGroup(old(index.trie), old(index.nodes), index.trie, between, index.nodes);
      }
    }

    lemma CachedKey(trie: Trie, key: (bool, nat))
      requires NormalizeKeeps(normalize) && AllCwdsCached(trie, cwdIdentity, cwdDirectory) && key in cwdIdentity
      ensures key in cwdDirectory && CwdCached(trie, key, cwdIdentity[key], cwdDirectory[key])
    {
    }

    method Place(doc: Document) returns (ok: bool, docGroup: nat, docFlags: PathFlags, ghost terminal: nat)
      requires Valid() && doc.Valid(cwds) && |index.nodes| + 5 <= index.nodeCapacity
      modifies this`cwdIdentity, this`cwdDirectory
      modifies index`nodes, index`children, index`poolUsed, index`trie, index`groupCount, index.pool
      ensures ok ==> Valid() && Placed(index.trie, index.nodes, doc, docGroup, docFlags, terminal)
      ensures ok && doc.Identified() ==> docGroup < index.groupCount
      ensures old(index.groupCount) <= index.groupCount <= old(index.groupCount) + 1
      ensures ok ==> Extends(old(index.trie), old(index.nodes), index.trie, index.nodes)
      ensures |index.nodes| <= |old(index.nodes)| + 5
      ensures index.poolUsed <= old(index.poolUsed) + PoolNeed(doc, cwds, normalize)
      ensures !ok ==> old(index.poolUsed) + PoolNeed(doc, cwds, normalize) > index.pool.Length
    {
      hide IdentityIndex.Valid;
      hide IdentityIndex.GroupsDistinct;
      hide AllCwdsCached;
      hide Extends;
      hide FlagsOf;
      hide Identity;
      hide NormalizeKeeps;
      hide Trie.Shape;
      hide Names;
      Reflexive(index.trie, index.nodes);
      docGroup, docFlags, terminal := NO_GROUP, PathFlags([false, false, false], [false, false]), 0;
      if doc.Skipped? {
        return true, docGroup, docFlags, terminal;
      }
      if doc.cwdKnown {
        ok := PrepareCwd(doc.cwdAbsolute, doc.cwdOffset);
        if !ok {
          return;
        }
      }
      var node: nat := 0;
      ghost var between, nodesBetween := index.trie, index.nodes;
      if doc.known {
        ok, node, docGroup := PlaceIdentified(doc);
        if !ok {
          return;
        }
        ExtendsTransitive(old(index.trie), old(index.nodes), between, nodesBetween, index.trie, index.nodes);
      }
      terminal := node;
      docFlags := DocumentFlags(doc, node);
      ok := true;
    }

    // The first i documents have been placed.
    ghost predicate PlacedUpTo(docs: seq<Document>, i: nat)
      requires i <= |docs| && forall d :: 0 <= d < |docs| ==> docs[d].Valid(cwds)
      reads this, index, index.pool
    {
      && Valid() && |group| == |flags| == |terminals| == i
      && |index.nodes| <= ROOTS + 5 * i && index.groupCount <= i
      && (forall d :: 0 <= d < i && docs[d].Identified() ==> group[d] < index.groupCount)
      && index.poolUsed <= PoolNeeds(docs[..i], cwds, normalize)
      && forall d :: 0 <= d < i ==> Placed(index.trie, index.nodes, docs[d], group[d], flags[d], terminals[d])
    }

    /** Place the next document. */
    method PlaceNext(docs: seq<Document>, i: nat) returns (ok: bool)
      requires i < |docs| && forall d :: 0 <= d < |docs| ==> docs[d].Valid(cwds)
      requires PlacedUpTo(docs, i) && ROOTS + 5 * |docs| <= index.nodeCapacity
      modifies this`cwdIdentity, this`cwdDirectory, this`group, this`flags, this`terminals
      modifies index`nodes, index`children, index`poolUsed, index`trie, index`groupCount, index.pool
      ensures ok ==> PlacedUpTo(docs, i + 1)
      ensures !ok ==> PoolNeeds(docs, cwds, normalize) > index.pool.Length
    {
      hide IdentityIndex.Valid;
      hide IdentityIndex.GroupsDistinct;
      hide AllCwdsCached;
      hide Extends;
      hide Placed;
      hide PoolNeeds;
      hide PoolNeed;
      hide NormalizeKeeps;
      ghost var before, nodesBefore := index.trie, index.nodes;
      NeedsGrow(docs, i, cwds, normalize);
      var docGroup, docFlags;
      ghost var terminal;
      ok, docGroup, docFlags, terminal := Place(docs[i]);
      if !ok {
        return;
      }
      forall d | 0 <= d < i ensures Placed(index.trie, index.nodes, docs[d], group[d], flags[d], terminals[d]) {
        PlacedStays(before, nodesBefore, index.trie, index.nodes, docs[d], group[d], flags[d], terminals[d]);
      }
      group, flags, terminals := group + [docGroup], flags + [docFlags], terminals + [terminal];
    }

    /** Place every document, in order.  `group` and `flags` are indexed by document. */
    method Build(docs: seq<Document>) returns (ok: bool)
      requires Valid() && group == [] && flags == [] && terminals == []
      requires forall d :: 0 <= d < |docs| ==> docs[d].Valid(cwds)
      requires index.poolUsed == 0 && index.groupCount == 0 && |index.nodes| == ROOTS && ROOTS + 5 * |docs| <= index.nodeCapacity
      modifies this`cwdIdentity, this`cwdDirectory, this`group, this`flags, this`terminals
      modifies index`nodes, index`children, index`poolUsed, index`trie, index`groupCount, index.pool
      ensures ok ==> Valid() && |group| == |flags| == |terminals| == |docs|
      ensures ok ==> forall d :: 0 <= d < |docs| ==>
        Placed(index.trie, index.nodes, docs[d], group[d], flags[d], terminals[d])
      ensures ok ==> forall d :: 0 <= d < |docs| && docs[d].Identified() ==> group[d] < |docs|
      ensures ok ==> forall d :: 0 <= d < |docs| && docs[d].File? ==> FlagsMean(index.config, docs[d], cwds, normalize, flags[d])
      ensures PoolNeeds(docs, cwds, normalize) <= index.pool.Length ==> ok
    {
      hide IdentityIndex.Valid;
      hide IdentityIndex.GroupsDistinct;
      hide AllCwdsCached;
      hide NormalizeKeeps;
      hide Placed;
      hide PoolNeed;
      hide FlagsMean;
      for i := 0 to |docs|
        invariant PlacedUpTo(docs, i)
      {
        ok := PlaceNext(docs, i);
        if !ok {
          return;
        }
      }
      forall d | 0 <= d < |docs| && docs[d].File? ensures FlagsMean(index.config, docs[d], cwds, normalize, flags[d]) {
        PlacedFlags(docs[d], group[d], flags[d], terminals[d]);
      }
      ok := true;
    }

    lemma PlacedFlags(doc: Document, group: nat, flags: PathFlags, terminal: nat)
      requires doc.Valid(cwds) && NormalizeKeeps(normalize) && index.config.Valid() && doc.File?
      requires Placed(index.trie, index.nodes, doc, group, flags, terminal)
      ensures FlagsMean(index.config, doc, cwds, normalize, flags)
    {
      hide FlagsOf;
      hide FlagsMean;
      hide Identity;
      FlagsAre(index.config, doc, cwds, normalize, flags);
    }

    lemma PlacedStays(before: Trie, nodesBefore: seq<Node>, after: Trie, nodesAfter: seq<Node>,
                      doc: Document, group: nat, flags: PathFlags, terminal: nat)
      requires doc.Valid(cwds) && NormalizeKeeps(normalize) && index.config.Valid()
      requires Extends(before, nodesBefore, after, nodesAfter)
      requires Placed(before, nodesBefore, doc, group, flags, terminal)
      ensures Placed(after, nodesAfter, doc, group, flags, terminal)
    {
      hide FlagsOf;
      hide Identity;
    }

    /** Two placed documents share a group exactly when they name the same file. */
    lemma SameGroupSameFile(docs: seq<Document>, a: nat, b: nat)
      requires Valid() && a < |docs| && b < |docs| && |group| == |flags| == |terminals| == |docs|
      requires docs[a].Valid(cwds) && docs[b].Valid(cwds) && docs[a].Identified() && docs[b].Identified()
      requires Placed(index.trie, index.nodes, docs[a], group[a], flags[a], terminals[a])
      requires Placed(index.trie, index.nodes, docs[b], group[b], flags[b], terminals[b])
      ensures group[a] == group[b] <==> Identity(docs[a], cwds, normalize) == Identity(docs[b], cwds, normalize)
    {
      hide FlagsOf;
      hide Identity;
      hide Describes;
      hide Trie.Linked;
      if Identity(docs[a], cwds, normalize) == Identity(docs[b], cwds, normalize) {
        SameTextSameNode(index.trie, terminals[a], terminals[b]);
      } else {
        assert index.nodes[terminals[a]].groupPlusOne == group[a] + 1;
        assert index.nodes[terminals[b]].groupPlusOne == group[b] + 1;
        assert terminals[a] != terminals[b];
      }
    }
  }

  // Names and groups of the first trie hold in the second.
  ghost predicate Extends(before: Trie, nodesBefore: seq<Node>, after: Trie, nodesAfter: seq<Node>) {
    before.text <= after.text && before.root <= after.root && GroupsKept(nodesBefore, nodesAfter)
  }

  lemma ExtendsTransitive(t0: Trie, n0: seq<Node>, t1: Trie, n1: seq<Node>, t2: Trie, n2: seq<Node>)
    requires Extends(t0, n0, t1, n1) && Extends(t1, n1, t2, n2)
    ensures Extends(t0, n0, t2, n2)
  {
    assert t0.text == t1.text[..|t0.text|] == t2.text[..|t0.text|];
    assert t0.root == t1.root[..|t0.root|] == t2.root[..|t0.root|];
  }

  lemma ExtendsGroup(before: Trie, nodesBefore: seq<Node>, after: Trie, between: seq<Node>, nodesAfter: seq<Node>)
    requires Extends(before, nodesBefore, after, between) && GroupsKept(between, nodesAfter)
    ensures Extends(before, nodesBefore, after, nodesAfter)
  {
  }

  // Nodes that have a group keep it.
  ghost predicate GroupsKept(a: seq<Node>, b: seq<Node>) {
    |a| <= |b| && forall k :: 0 <= k < |a| && a[k].groupPlusOne != 0 ==> b[k].groupPlusOne == a[k].groupPlusOne
  }

  lemma DistinctAfter(index: IdentityIndex, before: seq<Node>)
    requires KeepNodes(before, index.nodes)
    requires forall k :: 0 <= k < |before| ==> before[k].groupPlusOne <= index.groupCount
    requires forall a, b :: (0 <= a < |before| && 0 <= b < |before| && before[a].groupPlusOne == before[b].groupPlusOne != 0) ==> a == b
    ensures index.GroupsDistinct()
  {
  }

  lemma NeedsGrow(docs: seq<Document>, i: nat, cwds: seq<Bytes>, normalize: Bytes -> Bytes)
    requires forall d :: 0 <= d < |docs| ==> docs[d].Valid(cwds)
    requires i < |docs|
    ensures PoolNeeds(docs[..i + 1], cwds, normalize) == PoolNeeds(docs[..i], cwds, normalize) + PoolNeed(docs[i], cwds, normalize)
    ensures PoolNeeds(docs[..i + 1], cwds, normalize) <= PoolNeeds(docs, cwds, normalize)
    decreases |docs| - i
  {
    assert docs[..i + 1][..i] == docs[..i];
    if i + 1 == |docs| {
      assert docs[..i + 1] == docs;
    } else {
      NeedsGrow(docs, i + 1, cwds, normalize);
    }
  }

  lemma Reflexive(trie: Trie, nodes: seq<Node>)
    ensures Extends(trie, nodes, trie, nodes)
  {
  }

  lemma NamesStay(before: Trie, nodesBefore: seq<Node>, after: Trie, nodesAfter: seq<Node>, node: nat)
    requires Extends(before, nodesBefore, after, nodesAfter) && node < |before.text| && node < |before.root|
    ensures node < |after.text| && after.text[node] == before.text[node]
    ensures node < |after.root| && after.root[node] == before.root[node]
  {
  }

  lemma RootText(index: IdentityIndex, root: nat)
    requires index.Valid() && root < ROOTS
    ensures Names(index.trie, root, root, [])
  {
    hide Describes;
    assert index.trie.RootOk(root);
  }
}
