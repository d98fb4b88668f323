/** What a successful evaluation says about its input, in terms of the policies' own answers. */
module VerdictMeaning {
  import opened Relation
  import opened DepGraph
  import opened GroupSummary
  import opened Routes
  import opened GateVerdict
  import GroupContext

  // The deny policy matches the command of node n.
  ghost predicate Refused(i: Input, n: nat) {
    n < |i.judged| && i.judged[n].deny.Answer? && i.judged[n].deny.matches
  }

  // The allow policy matches it, and the deny policy does not.
  ghost predicate Granted(i: Input, n: nat) {
    n < |i.judged| && i.judged[n].deny.Answer? && !i.judged[n].deny.matches && i.judged[n].allow.Answer? && i.judged[n].allow.matches
  }

  // ---- The commands that were evaluated ----

  lemma {:induction false} CommandsOrdered(g: Graph, n: nat)
    requires n <= |g.nodes|
    ensures forall j, k :: 0 <= j < k < |CommandsUpTo(g, n)| ==> CommandsUpTo(g, n)[j] < CommandsUpTo(g, n)[k]
  {
    if n > 0 {
      CommandsOrdered(g, n - 1);
      CommandsAre(g, n - 1);
    }
  }

  /** At most 64 results: the token-bearing commands in node order, without gaps, and all of them
      unless the evaluation stopped early. */
  lemma ResultsAre(i: Input, overflow: bool, out: Result)
    requires i.Valid() && Outcome(i, overflow, Success, out)
    ensures |out.subs| <= 64
    ensures forall k :: 0 <= k < |out.subs| ==>
      var n := out.subs[k].node;
      n < |i.graph.nodes| && i.graph.nodes[n].Command? && i.graph.nodes[n].tokenCount > 0
    ensures forall j, k :: 0 <= j < k < |out.subs| ==> out.subs[j].node < out.subs[k].node
    ensures forall m: nat :: m < |i.graph.nodes| && i.graph.nodes[m].Command? && i.graph.nodes[m].tokenCount > 0 ==>
      || (exists k :: 0 <= k < |out.subs| && out.subs[k].node == m)
      || (out.shortCircuited && out.subs != [] && out.subs[|out.subs| - 1].node < m)
  {
    hide Stops;
    hide FirstDenied;
    hide AnyRoute;
    hide RouteReaches;
    hide HasIoOnly;
    hide Containers;
    hide Acyclic;
    var subs: seq<Sub>, stopped: bool :| ComposedOf(i, out, subs, stopped);
    var commands := Commands(i);
    CommandsAre(i.graph, |i.graph.nodes|);
    CommandsOrdered(i.graph, |i.graph.nodes|);
    forall k | 0 <= k < |out.subs| ensures out.subs[k].node == commands[k] {
      assert subs[k] == SubOf(commands[k], i.judged[commands[k]], i.suggestions);
    }
    forall m: nat | m < |i.graph.nodes| && i.graph.nodes[m].Command? && i.graph.nodes[m].tokenCount > 0
      ensures (exists k :: 0 <= k < |out.subs| && out.subs[k].node == m)
        || (out.shortCircuited && out.subs != [] && out.subs[|out.subs| - 1].node < m)
    {
      assert TokenBearing(i.graph, m);
      var k :| 0 <= k < |commands| && commands[k] == m;
      if k < |out.subs| {
        assert out.subs[k].node == m;
      } else {
        assert stopped;
      }
    }
  }

  /** Every policy that was asked has answered: allow is asked where deny does not match, and a policy
      that ran out of memory for requested suggestions has not answered.  The results repeat the answers. */
  lemma AnswersAre(i: Input, overflow: bool, out: Result, k: nat)
    requires i.Valid() && Outcome(i, overflow, Success, out) && k < |out.subs|
    ensures out.subs[k].node < |i.judged|
    ensures var c := i.judged[out.subs[k].node];
      && c.deny.Answer? && (i.suggestions ==> !c.deny.suggestionMemory)
      && (!c.deny.matches ==> c.allow.Answer? && (i.suggestions ==> !c.allow.suggestionMemory))
    ensures out.subs[k].verdict == Deny <==> Refused(i, out.subs[k].node)
    ensures out.subs[k].verdict in {Allow, AllowConditional} <==> Granted(i, out.subs[k].node)
    ensures out.subs[k].verdict in {Deny, Allow, AllowConditional, Undetermined}
    ensures out.subs[k].matches <==> Refused(i, out.subs[k].node) || Granted(i, out.subs[k].node)
    ensures out.subs[k].verdict == AllowConditional ==> AnyRoute(i.graph, |i.graph.edges|, true)
  {
    hide Stops;
    hide FirstDenied;
    hide AnyRoute;
    hide RouteReaches;
    hide HasIoOnly;
    hide Containers;
    hide Acyclic;
    hide Commands;
    var subs: seq<Sub>, stopped: bool :| ComposedOf(i, out, subs, stopped);
    var n := Commands(i)[k];
    assert subs[k] == SubOf(n, i.judged[n], i.suggestions);
    assert Commands(i)[..|subs|][k] == n;
    assert !Broken(i.judged[n], i.suggestions);
    ReachedByRoute(i.graph, n, true);
  }

  // ---- The verdict ----

  // Some evaluated command is refused.
  ghost predicate AnyRefused(i: Input, out: Result) {
    exists k :: 0 <= k < |out.subs| && Refused(i, out.subs[k].node)
  }

  // Something leaves the input undecided: an evaluated command that is not granted, an argv-less command
  // that is not neutral, or arithmetic that was not resolved.
  ghost predicate Undecided(i: Input, out: Result)
    requires i.Valid()
  {
    || (exists k :: 0 <= k < |out.subs| && !Granted(i, out.subs[k].node))
    || (exists n: nat :: IoOnly(i.graph, n))
    || i.unresolvedArithmetic
  }

  /** The verdict of a successful evaluation, from the answers of the policies: DENY if some evaluated command
      is refused, else UNDETERMINED if something is undecided, else a conditional ALLOW if there are results and
      some route becomes part of a shell word, else ALLOW.  It is never REJECT. */
  lemma VerdictIs(i: Input, overflow: bool, out: Result)
    requires i.Valid() && Outcome(i, overflow, Success, out)
    ensures out.verdict != Reject
    ensures out.verdict == Deny <==> AnyRefused(i, out)
    ensures out.verdict == Undetermined <==> !AnyRefused(i, out) && Undecided(i, out)
    ensures out.verdict == AllowConditional <==>
      !AnyRefused(i, out) && !Undecided(i, out) && out.subs != [] && AnyRoute(i.graph, |i.graph.edges|, true)
    ensures out.verdict == Allow <==>
      !AnyRefused(i, out) && !Undecided(i, out) && (out.subs == [] || !AnyRoute(i.graph, |i.graph.edges|, true))
  {
    hide Walked;
    hide WalkEnded;
    hide FirstDenied;
    hide Reached;
    hide AnyRoute;
    hide Neutral;
    hide Containers;
    hide Acyclic;
    hide Commands;
    hide Refused;
    hide Granted;
    var subs: seq<Sub>, stopped: bool :| ComposedOf(i, out, subs, stopped);
    forall k | 0 <= k < |out.subs|
      ensures out.subs[k].verdict == Deny <==> Refused(i, out.subs[k].node)
      ensures out.subs[k].verdict in {Allow, AllowConditional} <==> Granted(i, out.subs[k].node)
      ensures out.subs[k].verdict in {Deny, Allow, AllowConditional, Undetermined}
      ensures out.subs[k].verdict == AllowConditional ==> AnyRoute(i.graph, |i.graph.edges|, true)
    {
      AnswersAre(i, overflow, out, k);
    }
    RefusedAndUndecided(i, out);
  }

  lemma RefusedAndUndecided(i: Input, out: Result)
    requires i.Valid()
    requires forall k :: 0 <= k < |out.subs| ==> (out.subs[k].verdict == Deny <==> Refused(i, out.subs[k].node))
    requires forall k :: 0 <= k < |out.subs| ==>
      (out.subs[k].verdict in {Allow, AllowConditional} <==> Granted(i, out.subs[k].node))
    ensures HasVerdict(out.subs, Deny) <==> AnyRefused(i, out)
    ensures Undecided(i, out) <==> !AllAllowed(out.subs) || HasIoOnly(i) || i.unresolvedArithmetic
  {
    hide Neutral;
    hide Containers;
    hide Acyclic;
    hide Refused;
    hide Granted;
    if HasVerdict(out.subs, Deny) {
      var k :| 0 <= k < |out.subs| && out.subs[k].verdict == Deny;
      assert Refused(i, out.subs[k].node);
    }
    if AnyRefused(i, out) {
      var k :| 0 <= k < |out.subs| && Refused(i, out.subs[k].node);
      assert out.subs[k].verdict == Deny;
    }
    if !AllAllowed(out.subs) {
      var k :| 0 <= k < |out.subs| && !(out.subs[k].verdict == Allow || out.subs[k].verdict == AllowConditional);
      assert !Granted(i, out.subs[k].node);
    }
    if k :| 0 <= k < |out.subs| && !Granted(i, out.subs[k].node) {
      assert !AllAllowed(out.subs);
    }
    if n :| IoOnly(i.graph, n) {
      assert HasIoOnly(i);
    }
  }

  // ---- Where the evaluation stops ----

  /** Each stop mode, in terms of the answers: only the last evaluated command can be of the kind that stops the
      evaluation, and it is if the evaluation ended early. */
  lemma StopsWhere(i: Input, overflow: bool, out: Result)
    requires i.Valid() && Outcome(i, overflow, Success, out)
    ensures out.shortCircuited ==> out.subs != [] && i.stop != EvaluateAll
    ensures forall k :: 0 <= k < |out.subs| && (k < |out.subs| - 1 || out.shortCircuited) ==>
      var n, last := out.subs[k].node, k == |out.subs| - 1;
      && (i.stop == FirstFail ==> (last <==> !Refused(i, n) && !Granted(i, n)))
      && (i.stop == FirstPass ==> (last <==> Refused(i, n) || Granted(i, n)))
      && (i.stop == FirstAllow ==> (last <==> Granted(i, n)))
      && (i.stop == FirstDeny ==> (last <==> Refused(i, n)))
  {
    hide FirstDenied;
    hide AnyRoute;
    hide RouteReaches;
    hide HasIoOnly;
    hide Containers;
    hide Acyclic;
    hide Commands;
    hide Walked;
    hide SubOf;
    var subs: seq<Sub>, stopped: bool :| ComposedOf(i, out, subs, stopped);
    forall k | 0 <= k < |out.subs|
      ensures subs[k].matches <==> Refused(i, out.subs[k].node) || Granted(i, out.subs[k].node)
      ensures subs[k].verdict == Deny <==> Refused(i, out.subs[k].node)
      ensures subs[k].verdict == Allow <==> Granted(i, out.subs[k].node)
    {
      AnswersAre(i, overflow, out, k);
      NotConditional(i, Commands(i)[..|subs|], subs, k);
    }
  }

  lemma NotConditional(i: Input, commands: seq<nat>, subs: seq<Sub>, k: nat)
    requires Walked(i, commands, subs, true) && k < |subs|
    ensures subs[k].verdict != AllowConditional
  {
  }

  // ---- Hidden I/O ----

  /** An evaluation never answers ALLOW, conditional or not, while a command without an argument vector lies below
      a group that is touched by I/O and has no command below it that could authorize that. */
  lemma AllowHidesNothing(i: Input, overflow: bool, code: Code, out: Result, e: nat, h: nat, n: nat)
    requires i.Valid() && Outcome(i, overflow, code, out) && e < |i.graph.edges| && h < |i.graph.nodes| && n < |i.graph.nodes|
    requires i.graph.edges[e].kind in {EdgeKind.Read, EdgeKind.Write, EdgeKind.Append, FdOpen, FdClose}
    requires i.graph.edges[e].from == h || i.graph.edges[e].to == h
    requires !i.graph.nodes[i.graph.edges[e].from].Descriptor? && !i.graph.nodes[i.graph.edges[e].to].Descriptor?
    requires !(i.graph.nodes[i.graph.edges[e].from].Doc? && i.graph.nodes[i.graph.edges[e].from].implicit)
    requires forall c: nat :: c < |i.graph.nodes| && i.graph.nodes[c].Command? && i.graph.nodes[c].tokenCount > 0 ==>
      !Reaches(i.graph.ContainmentPairs(), h, c)
    requires i.graph.nodes[n].Command? && i.graph.nodes[n].tokenCount == 0
    requires h != n && Reaches(i.graph.ContainmentPairs(), h, n)
    ensures out.verdict != Allow && out.verdict != AllowConditional
  {
    hide Composed;
    hide Neutral;
    hide Acyclic;
    hide Containers;
    BelowIo(i.graph, n, h, e);
    if code == Success {
      assert IoOnly(i.graph, n);
      VerdictIs(i, overflow, out);
    }
  }

  /** The first refused command is pointed at, and nothing else. */
  lemma AttentionIs(i: Input, overflow: bool, out: Result)
    requires i.Valid() && Outcome(i, overflow, Success, out)
    ensures !AnyRefused(i, out) ==> out.attention == []
    ensures AnyRefused(i, out) ==> |out.attention| == 1 && out.attention[0] < |out.subs|
    ensures AnyRefused(i, out) ==> Refused(i, out.subs[out.attention[0]].node)
    ensures AnyRefused(i, out) ==> forall j :: 0 <= j < out.attention[0] ==> !Refused(i, out.subs[j].node)
  {
    hide AnyRoute;
    hide RouteReaches;
    hide HasIoOnly;
    hide Containers;
    hide Acyclic;
    hide Commands;
    hide Walked;
    hide SubOf;
    hide WalkEnded;
    hide Refused;
    var subs: seq<Sub>, stopped: bool :| ComposedOf(i, out, subs, stopped);
    forall k | 0 <= k < |out.subs| ensures subs[k].verdict == Deny <==> Refused(i, out.subs[k].node) {
      AnswersAre(i, overflow, out, k);
    }
  }

  // Route e delivers to h, which is n or a group around n.
  ghost predicate DeliveredAround(g: Graph, e: nat, h: nat, n: nat)
    requires g.Valid() && e < |g.edges|
  {
    Route(g, e) && Consumer(g, e, h) && (h == n || (h < |g.nodes| && Reaches(g.ContainmentPairs(), h, n)))
  }

  /** A result is marked exactly if some route is consumed by its command or by a group around it, and for inspection
      exactly if the bytes of such a route become part of a shell word; that alone makes its allowance conditional. */
  lemma ReachedMeans(i: Input, overflow: bool, out: Result, k: nat)
    requires i.Valid() && Outcome(i, overflow, Success, out) && k < |out.subs|
    ensures var n, g := out.subs[k].node, i.graph;
      && (out.subs[k].reached.dynamic <==> exists e: nat, h: nat :: e < |g.edges| && DeliveredAround(g, e, h, n))
      && (out.subs[k].reached.word <==> exists e: nat, h: nat :: e < |g.edges| && DeliveredAround(g, e, h, n) && g.edges[e].shellWord)
    ensures out.subs[k].verdict == AllowConditional <==> Granted(i, out.subs[k].node) && out.subs[k].reached.word
  {
    hide Stops;
    hide FirstDenied;
    hide AnyRoute;
    hide RouteReaches;
    hide HasIoOnly;
    hide Containers;
    hide Acyclic;
    hide Commands;
    hide WalkEnded;
    hide Granted;
    AnswersAre(i, overflow, out, k);
    var subs: seq<Sub>, stopped: bool :| ComposedOf(i, out, subs, stopped);
    assert subs[k] == SubOf(Commands(i)[k], i.judged[Commands(i)[k]], i.suggestions);
    var n := out.subs[k].node;
    ReachesMeans(i.graph, n, false);
    ReachesMeans(i.graph, n, true);
  }

  lemma ReachesMeans(g: Graph, n: nat, word: bool)
    requires g.Valid()
    ensures RouteReaches(g, n, word) <==>
      exists e: nat, h: nat :: e < |g.edges| && DeliveredAround(g, e, h, n) && (word ==> g.edges[e].shellWord)
  {
    hide Route;
    hide Consumer;
    if Delivers(g, |g.edges|, n, word) {
      var e :| 0 <= e < |g.edges| && Route(g, e) && (word ==> g.edges[e].shellWord) && Consumer(g, e, n);
      assert DeliveredAround(g, e, n, n);
    }
    if h: nat :| h in GroupContext.Around(g, n) && Delivers(g, |g.edges|, h, word) {
      var e :| 0 <= e < |g.edges| && Route(g, e) && (word ==> g.edges[e].shellWord) && Consumer(g, e, h);
      assert DeliveredAround(g, e, h, n);
    }
    if e: nat, h: nat :| e < |g.edges| && DeliveredAround(g, e, h, n) && (word ==> g.edges[e].shellWord) {
      assert Delivers(g, |g.edges|, h, word);
      assert h == n || h in GroupContext.Around(g, n);
    }
  }
}
