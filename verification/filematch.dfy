/** The streaming classifier of file identities.

    A match value records what one pass over the text seen so far has decided:
    three lists of path prefixes and two lists of fragments, each with a flag
    that latches.  Once a list has latched, its remaining candidates are no
    longer advanced, so two values that describe the same text need not be equal
    (see `SameObservations` for what they do agree on). */
module FileMatch {
  import opened Bytes
  import opened PathFragment

  const PREFIX_LISTS := 3
  const FRAGMENT_LISTS := 2

  /** The configured lists: write paths, directories and read paths, then
      profile and secret fragments. */
  datatype Config = Config(prefixes: seq<seq<Bytes>>, fragments: seq<seq<Fragment>>) {
    ghost predicate Valid() {
      && |prefixes| == PREFIX_LISTS && |fragments| == FRAGMENT_LISTS
      && forall list :: 0 <= list < FRAGMENT_LISTS ==>
        forall i :: 0 <= i < |fragments[list]| ==> Compiled(fragments[list][i])
    }
  }

  // Which candidates take part in one scan.
  datatype Mode = Mode(absolutePrefixes: bool, relativePrefixes: bool, absoluteFragments: bool) {
    predicate Prefix(p: Bytes) {
      p != [] && (if p[0] == SLASH then absolutePrefixes else relativePrefixes)
    }

    predicate Fragment(text: Bytes) {
      absoluteFragments || text == [] || text[0] != SLASH
    }
  }

  datatype FragmentState = Off | At(matched: nat)

  /** The value cached for a position: flags of the five lists, live prefix
      candidates, automaton states. */
  datatype Match = Match(length: nat, prefixFlags: seq<bool>, prefixes: seq<set<nat>>,
                         fragmentFlags: seq<bool>, fragments: seq<seq<FragmentState>>)

  // ---- What the whole text says ----

  // Whatever follows, the text lies under p.
  ghost predicate Latched(p: Bytes, t: Bytes) {
    p != [] && p <= t && (p[|p| - 1] == SLASH || (|t| > |p| && t[|p|] == SLASH))
  }

  // The text may still turn out to be p or to lie under it.
  ghost predicate Open(p: Bytes, t: Bytes) {
    t <= p && !Latched(p, t)
  }

  // The text is p or lies under it.
  ghost predicate Accepts(p: Bytes, t: Bytes) {
    p != [] && (t == p || (p <= t && (p[|p| - 1] == SLASH || t[|p|] == SLASH)))
  }

  ghost predicate PrefixFlag(list: seq<Bytes>, mode: Mode, t: Bytes) {
    exists i :: 0 <= i < |list| && mode.Prefix(list[i]) && Accepts(list[i], t)
  }

  ghost predicate FragmentFlag(list: seq<Fragment>, mode: Mode, t: Bytes) {
    exists i :: 0 <= i < |list| && mode.Fragment(list[i].text) && list[i].text != [] && Occurs(list[i].text, t)
  }

  // ---- What a match value says ----

  ghost predicate PrefixListState(list: seq<Bytes>, mode: Mode, t: Bytes, flag: bool, live: set<nat>) {
    && (forall i :: i in live ==> i < |list|)
    && (flag <==> exists i :: 0 <= i < |list| && mode.Prefix(list[i]) && Latched(list[i], t))
    && (!flag ==> forall i :: 0 <= i < |list| ==> (i in live <==> mode.Prefix(list[i]) && Open(list[i], t)))
  }

  ghost predicate FragmentListState(list: seq<Fragment>, mode: Mode, t: Bytes, flag: bool, states: seq<FragmentState>) {
    && |states| == |list|
    && (flag <==> FragmentFlag(list, mode, t))
    && (forall i :: 0 <= i < |list| ==> (states[i] == Off <==> !mode.Fragment(list[i].text)))
    && (!flag ==> forall i :: 0 <= i < |list| && states[i] != Off ==>
         Unmatched(list[i].text, t, states[i].matched))
  }

  ghost predicate Describes(config: Config, mode: Mode, t: Bytes, m: Match)
    requires config.Valid()
  {
    && m.length == |t|
    && |m.prefixFlags| == |m.prefixes| == PREFIX_LISTS
    && |m.fragmentFlags| == |m.fragments| == FRAGMENT_LISTS
    && (forall list :: 0 <= list < PREFIX_LISTS ==>
         PrefixListState(config.prefixes[list], mode, t, m.prefixFlags[list], m.prefixes[list]))
    && (forall list :: 0 <= list < FRAGMENT_LISTS ==>
         FragmentListState(config.fragments[list], mode, t, m.fragmentFlags[list], m.fragments[list]))
  }

  // ---- Prefix candidates ----

  datatype Outcome = Keep | Drop | Latch

  lemma LatchedExtends(p: Bytes, t: Bytes, more: Bytes)
    requires Latched(p, t)
    ensures Latched(p, t + more)
  {
  }

  lemma DroppedExtends(p: Bytes, t: Bytes, more: Bytes)
    requires !(t <= p) && !Latched(p, t)
    ensures !(t + more <= p) && !Latched(p, t + more)
  {
    assert (t + more)[..|t|] == t;
    assert t + more <= p ==> t <= p;
    assert p <= t + more ==> if |p| <= |t| then p <= t else t <= p;
  }

  /** Compare one live candidate with the next piece of text. */
  method ExtendCandidate(p: Bytes, length: nat, text: Bytes, ghost prior: Bytes) returns (outcome: Outcome)
    requires p != [] && Open(p, prior) && length == |prior|
    ensures outcome == Latch <==> Latched(p, prior + text)
    ensures outcome == Keep <==> Open(p, prior + text)
  {
    TakeAll(prior, text, 0);
    for j := 0 to |text|
      invariant Open(p, prior + text[..j])
    {
      ghost var read := prior + text[..j];
      TakeSnoc(prior, text, j);
      TakeAll(prior, text, j + 1);
      var position := length + j;
      if position == |p| {
        if text[j] == SLASH {
          LatchedExtends(p, read + [text[j]], text[j + 1..]);
          return Latch;
        }
        DroppedExtends(p, read + [text[j]], text[j + 1..]);
        return Drop;
      }
      if text[j] != p[position] {
        DroppedExtends(p, read + [text[j]], text[j + 1..]);
        return Drop;
      }
      if position + 1 == |p| && p[position] == SLASH {
        LatchedExtends(p, read + [text[j]], text[j + 1..]);
        return Latch;
      }
    }
    TakeAll(prior, text, 0);
    outcome := Keep;
  }

  /** Advance the live candidates of one list until one of them latches. */
  method ExtendPrefixList(list: seq<Bytes>, ghost mode: Mode, length: nat, text: Bytes,
                          flag: bool, live: set<nat>, ghost prior: Bytes)
    returns (flag': bool, live': set<nat>)
    requires length == |prior| && PrefixListState(list, mode, prior, flag, live)
    ensures PrefixListState(list, mode, prior + text, flag', live')
  {
    flag', live' := flag, live;
    if flag {
      LatchedListExtends(list, mode, prior, text);
      return;
    }
    for i := 0 to |list|
      invariant live' <= live
      invariant forall k :: 0 <= k < i ==> mode.Prefix(list[k]) ==> !Latched(list[k], prior + text)
      invariant forall k :: 0 <= k < i ==> (k in live' <==> mode.Prefix(list[k]) && Open(list[k], prior + text))
      invariant forall k :: i <= k < |list| ==> (k in live' <==> k in live)
    {
      if i in live' {
        var outcome := ExtendCandidate(list[i], length, text, prior);
        match outcome {
          case Latch =>
            return true, live';
          case Drop =>
            live' := live' - {i};
          case Keep =>
        }
      } else if mode.Prefix(list[i]) {
        DroppedExtends(list[i], prior, text);
      }
    }
    flag' := false;
  }

  lemma LatchedListExtends(list: seq<Bytes>, mode: Mode, prior: Bytes, text: Bytes)
    requires exists i :: 0 <= i < |list| && mode.Prefix(list[i]) && Latched(list[i], prior)
    ensures exists i :: 0 <= i < |list| && mode.Prefix(list[i]) && Latched(list[i], prior + text)
  {
    var i :| 0 <= i < |list| && mode.Prefix(list[i]) && Latched(list[i], prior);
    LatchedExtends(list[i], prior, text);
  }

  // ---- Fragment automata ----

  method ExtendFragmentList(list: seq<Fragment>, ghost mode: Mode, text: Bytes,
                            flag: bool, states: seq<FragmentState>, ghost prior: Bytes)
    returns (flag': bool, states': seq<FragmentState>)
    requires forall i :: 0 <= i < |list| ==> Compiled(list[i])
    requires FragmentListState(list, mode, prior, flag, states)
    ensures FragmentListState(list, mode, prior + text, flag', states')
  {
    hide Compiled;
    hide Occurs;
    hide Unmatched;
    flag', states' := flag, states;
    if flag {
      FlaggedListExtends(list, mode, prior, text);
      return;
    }
    for i := 0 to |list|
      invariant |states'| == |list|
      invariant forall k :: 0 <= k < |list| ==> (states'[k] == Off <==> states[k] == Off)
      invariant forall k :: 0 <= k < i ==> mode.Fragment(list[k].text) ==> list[k].text == [] || !Occurs(list[k].text, prior + text)
      invariant forall k :: 0 <= k < i ==> states'[k] != Off ==> Unmatched(list[k].text, prior + text, states'[k].matched)
      invariant forall k :: i <= k < |list| ==> states'[k] == states[k]
    {
      if states'[i] != Off {
        var hit, matched := Advance(list[i], text, states'[i].matched, prior);
        states' := states'[i := At(matched)];
        if hit {
          return true, states';
        }
      }
    }
    flag' := false;
  }

  lemma FlaggedListExtends(list: seq<Fragment>, mode: Mode, prior: Bytes, text: Bytes)
    requires FragmentFlag(list, mode, prior)
    ensures FragmentFlag(list, mode, prior + text)
  {
    var i :| 0 <= i < |list| && mode.Fragment(list[i].text) && list[i].text != [] && Occurs(list[i].text, prior);
    OccursPrefix(list[i].text, prior, text);
  }

  // ---- The value of a position ----

  /** The value at the empty text. */
  method Init(config: Config, mode: Mode) returns (m: Match)
    requires config.Valid()
    ensures Describes(config, mode, [], m)
  {
    var prefixes: seq<set<nat>> := [];
    for list := 0 to PREFIX_LISTS
      invariant |prefixes| == list
      invariant forall l :: 0 <= l < list ==> PrefixListState(config.prefixes[l], mode, [], false, prefixes[l])
    {
      var live: set<nat> := {};
      for i := 0 to |config.prefixes[list]|
        invariant forall k: nat :: k in live <==> k < i && mode.Prefix(config.prefixes[list][k])
      {
        if mode.Prefix(config.prefixes[list][i]) {
          live := live + {i};
        }
      }
      prefixes := prefixes + [live];
    }
    var fragments: seq<seq<FragmentState>> := [];
    for list := 0 to FRAGMENT_LISTS
      invariant |fragments| == list
      invariant forall l :: 0 <= l < list ==> FragmentListState(config.fragments[l], mode, [], false, fragments[l])
    {
      var states := InitFragments(config.fragments[list], mode);
      fragments := fragments + [states];
    }
    m := Match(0, [false, false, false], prefixes, [false, false], fragments);
  }

  method InitFragments(list: seq<Fragment>, mode: Mode) returns (states: seq<FragmentState>)
    ensures FragmentListState(list, mode, [], false, states)
  {
    states := [];
    for i := 0 to |list|
      invariant |states| == i
      invariant forall k :: 0 <= k < i ==> (states[k] == Off <==> !mode.Fragment(list[k].text))
      invariant forall k :: 0 <= k < i ==> states[k] == Off || states[k].matched == 0
    {
      states := states + [if mode.Fragment(list[i].text) then At(0) else Off];
    }
    forall i | 0 <= i < |list| ensures Unmatched(list[i].text, [], 0) {
      EmptyText(list[i].text);
    }
  }

  /** Read one more piece of text. */
  method Extend(config: Config, ghost mode: Mode, text: Bytes, m: Match, ghost prior: Bytes) returns (m': Match)
    requires config.Valid() && Describes(config, mode, prior, m)
    ensures Describes(config, mode, prior + text, m')
  {
    hide PrefixListState;
    hide FragmentListState;
    var prefixFlags, prefixes := m.prefixFlags, m.prefixes;
    for list := 0 to PREFIX_LISTS
      invariant |prefixFlags| == |prefixes| == PREFIX_LISTS
      invariant forall l :: 0 <= l < list ==>
        PrefixListState(config.prefixes[l], mode, prior + text, prefixFlags[l], prefixes[l])
      invariant forall l :: list <= l < PREFIX_LISTS ==>
        prefixFlags[l] == m.prefixFlags[l] && prefixes[l] == m.prefixes[l]
    {
      var flag, live := ExtendPrefixList(config.prefixes[list], mode, m.length, text,
                                         prefixFlags[list], prefixes[list], prior);
      prefixFlags, prefixes := prefixFlags[list := flag], prefixes[list := live];
    }
    var fragmentFlags, fragments := m.fragmentFlags, m.fragments;
    for list := 0 to FRAGMENT_LISTS
      invariant |fragmentFlags| == |fragments| == FRAGMENT_LISTS
      invariant forall l :: 0 <= l < list ==>
        FragmentListState(config.fragments[l], mode, prior + text, fragmentFlags[l], fragments[l])
      invariant forall l :: list <= l < FRAGMENT_LISTS ==>
        fragmentFlags[l] == m.fragmentFlags[l] && fragments[l] == m.fragments[l]
    {
      var flag, states := ExtendFragmentList(config.fragments[list], mode, text,
                                             fragmentFlags[list], fragments[list], prior);
      fragmentFlags, fragments := fragmentFlags[list := flag], fragments[list := states];
    }
    m' := Match(m.length + |text|, prefixFlags, prefixes, fragmentFlags, fragments);
  }

  // The five flags of a text, from the text alone.
  ghost predicate FlagsAgree(config: Config, mode: Mode, t: Bytes, prefixFlags: seq<bool>, fragmentFlags: seq<bool>)
    requires config.Valid()
  {
    && |prefixFlags| == PREFIX_LISTS && |fragmentFlags| == FRAGMENT_LISTS
    && (forall l :: 0 <= l < PREFIX_LISTS ==> (prefixFlags[l] <==> PrefixFlag(config.prefixes[l], mode, t)))
    && (forall l :: 0 <= l < FRAGMENT_LISTS ==> (fragmentFlags[l] <==> FragmentFlag(config.fragments[l], mode, t)))
  }

  /** The flags to report if the text ends here: the latched ones, and those of
      lists with a live candidate that is exactly as long as the text. */
  method Flags(config: Config, ghost mode: Mode, m: Match, ghost t: Bytes)
    returns (prefixFlags: seq<bool>, fragmentFlags: seq<bool>)
    requires config.Valid() && Describes(config, mode, t, m)
    ensures FlagsAgree(config, mode, t, prefixFlags, fragmentFlags)
  {
    prefixFlags, fragmentFlags := m.prefixFlags, m.fragmentFlags;
    for list := 0 to PREFIX_LISTS
      invariant |prefixFlags| == PREFIX_LISTS
      invariant forall l :: 0 <= l < list ==> (prefixFlags[l] <==> PrefixFlag(config.prefixes[l], mode, t))
      invariant forall l :: list <= l < PREFIX_LISTS ==> prefixFlags[l] == m.prefixFlags[l]
    {
      var exact := false;
      for i := 0 to |config.prefixes[list]|
        invariant exact <==> exists k :: 0 <= k < i && k in m.prefixes[list] && |config.prefixes[list][k]| == m.length
      {
        if i in m.prefixes[list] && |config.prefixes[list][i]| == m.length {
          exact := true;
        }
      }
      EndOfText(config.prefixes[list], mode, t, m.prefixFlags[list], m.prefixes[list], exact);
      prefixFlags := prefixFlags[list := m.prefixFlags[list] || exact];
    }
  }

  lemma EndOfText(list: seq<Bytes>, mode: Mode, t: Bytes, flag: bool, live: set<nat>, exact: bool)
    requires PrefixListState(list, mode, t, flag, live)
    requires exact <==> exists k :: 0 <= k < |list| && k in live && |list[k]| == |t|
    ensures flag || exact <==> PrefixFlag(list, mode, t)
  {
    if flag {
      var i :| 0 <= i < |list| && mode.Prefix(list[i]) && Latched(list[i], t);
      assert Accepts(list[i], t);
    } else if exact {
      var k :| 0 <= k < |list| && k in live && |list[k]| == |t|;
      assert t == list[k];
      assert Accepts(list[k], t);
    } else {
      forall i | 0 <= i < |list| && mode.Prefix(list[i]) ensures !Accepts(list[i], t) {
        assert i in live <==> Open(list[i], t);
      }
    }
  }

  /** Where the text is cut does not change the reported flags. */
  method ScanChunks(config: Config, mode: Mode, chunks: seq<Bytes>)
    returns (prefixFlags: seq<bool>, fragmentFlags: seq<bool>)
    requires config.Valid()
    ensures FlagsAgree(config, mode, Concat(chunks), prefixFlags, fragmentFlags)
  {
    hide PrefixListState;
    hide FragmentListState;
    var m := Init(config, mode);
    for i := 0 to |chunks|
      invariant Describes(config, mode, Concat(chunks[..i]), m)
    {
      ConcatSnoc(chunks, i);
      m := Extend(config, mode, chunks[i], m, Concat(chunks[..i]));
    }
    assert chunks[..|chunks|] == chunks;
    prefixFlags, fragmentFlags := Flags(config, mode, m, Concat(chunks));
  }

  lemma SameStates(list: seq<Fragment>, mode: Mode, t: Bytes, flag: bool, a: seq<FragmentState>, b: seq<FragmentState>)
    requires !flag && FragmentListState(list, mode, t, flag, a) && FragmentListState(list, mode, t, flag, b)
    ensures a == b
  {
    hide Longest;
    hide Occurs;
    forall i | 0 <= i < |list| ensures a[i] == b[i] {
      assert a[i] == Off <==> b[i] == Off;
      assert a[i] != Off ==> Unmatched(list[i].text, t, a[i].matched) && Unmatched(list[i].text, t, b[i].matched);
    }
  }

  /** Two values that describe the same text, however it was cut, report the
      same latched flags and carry the same live state for every list that has
      not latched. */
  lemma SameObservations(config: Config, mode: Mode, t: Bytes, a: Match, b: Match)
    requires config.Valid() && Describes(config, mode, t, a) && Describes(config, mode, t, b)
    ensures a.length == b.length && a.prefixFlags == b.prefixFlags && a.fragmentFlags == b.fragmentFlags
    ensures forall l :: 0 <= l < PREFIX_LISTS && !a.prefixFlags[l] ==> a.prefixes[l] == b.prefixes[l]
    ensures forall l :: 0 <= l < FRAGMENT_LISTS && !a.fragmentFlags[l] ==> a.fragments[l] == b.fragments[l]
  {
    forall l | 0 <= l < PREFIX_LISTS
      ensures a.prefixFlags[l] == b.prefixFlags[l]
      ensures !a.prefixFlags[l] ==> a.prefixes[l] == b.prefixes[l]
    {
      assert PrefixListState(config.prefixes[l], mode, t, a.prefixFlags[l], a.prefixes[l]);
      assert PrefixListState(config.prefixes[l], mode, t, b.prefixFlags[l], b.prefixes[l]);
    }
    forall l | 0 <= l < FRAGMENT_LISTS
      ensures a.fragmentFlags[l] == b.fragmentFlags[l]
      ensures !a.fragmentFlags[l] ==> a.fragments[l] == b.fragments[l]
    {
      assert FragmentListState(config.fragments[l], mode, t, a.fragmentFlags[l], a.fragments[l]);
      assert FragmentListState(config.fragments[l], mode, t, b.fragmentFlags[l], b.fragments[l]);
      if !a.fragmentFlags[l] {
        SameStates(config.fragments[l], mode, t, a.fragmentFlags[l], a.fragments[l], b.fragments[l]);
      }
    }
  }
}
