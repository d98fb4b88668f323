/** The per-command policy loop of an evaluation and the final verdict.

    The commands, the argv-less ones that need no policy, and the routes of dynamic
    substitution are those of the dependency graph. */
module GateVerdict {
  import opened Relation
  import opened DepGraph
  import opened GroupSummary
  import opened Routes
  import GroupContext

  datatype Code = Success | OutOfMemory | BadParse | Truncated

  datatype Verdict = Allow | Deny | Reject | Undetermined | AllowConditional

  datatype StopMode = FirstFail | FirstPass | FirstAllow | FirstDeny | EvaluateAll

  const MAX_RESULTS := 64
  const MAX_SUGGESTIONS := 2

  // Lengths of the fixed diagnostics.
  const DENY_ERROR_LENGTH := 29
  const DENY_MATCH_LENGTH := 17
  const IO_ONLY_LENGTH := 58

  /** What a policy says of an argument vector, and its attempt at suggestions. */
  datatype Policy = Answer(matches: bool, suggestionMemory: bool, suggestions: seq<Pattern>) | PolicyError(outOfMemory: bool)

  /** A suggestion: too long to render, impossible to render, or of this length. */
  datatype Pattern = Unrenderable | RenderError(outOfMemory: bool) | Text(length: nat)

  datatype Rendering = Failed(code: Code) | Rendered(length: nat)

  /** Rendering a command, and what the two policies say of it. */
  datatype Judged = Judged(rendering: Rendering, deny: Policy, allow: Policy)

  /** The result of one command, and what dynamic substitution reaches it. */
  datatype Sub = Sub(node: nat, matches: bool, verdict: Verdict, reached: Mark)

  datatype Result = Result(
    verdict: Verdict, truncated: bool, subs: seq<Sub>, shortCircuited: bool, routes: Mark, attention: seq<nat>)

  function PatternCode(s: Pattern): Code
    requires s.RenderError?
  {
    if s.outOfMemory then OutOfMemory else BadParse
  }

  // ---- The diagnostics buffer ----

  class Writer {
    const size: nat
    var used: nat
    var overflow: bool

    constructor (size: nat)
      ensures this.size == size && used == 0 && !overflow
    {
      this.size, used, overflow := size, 0, false;
    }

    /** Copy a text of this length with its terminator, or what fits of it. */
    method Copy(length: nat) returns (copied: bool)
      requires used <= size
      modifies `used, `overflow
      ensures used <= size
      ensures old(used) + length < size ==> copied && used == old(used) + length + 1 && overflow == old(overflow)
      ensures old(used) + length >= size ==> overflow
      ensures !copied ==> overflow && used == old(used)
    {
      if used >= size {
        overflow := true;
        return false;
      }
      var available := size - used;
      var copy := if length < available then length else available - 1;
      if length != 0 && copy == 0 {
        overflow := true;
        return false;
      }
      used := used + copy + 1;
      if length > copy {
        overflow := true;
      }
      return true;
    }

    /** Add suggestions until two are shown; one that cannot be rendered ends the list. */
    method AddSuggestions(found: seq<Pattern>, count: nat) returns (code: Code, shown: nat)
      requires used <= size && count <= MAX_SUGGESTIONS
      modifies `used, `overflow
      ensures used <= size && count <= shown <= 2
      ensures old(overflow) ==> overflow
      ensures code == Truncated ==> overflow
      ensures code == OutOfMemory || code == BadParse ==> exists s :: s in found && s.RenderError? && PatternCode(s) == code
      ensures code == Success ==> forall i :: count <= i < shown && i < |found| ==> found[i].Text?
      ensures code == Success && shown < 2 && shown < |found| ==> found[shown].Unrenderable?
    {
      shown := count;
      while shown < MAX_SUGGESTIONS && shown < |found|
        invariant used <= size && count <= shown <= MAX_SUGGESTIONS
        invariant old(overflow) ==> overflow
        invariant forall i :: count <= i < shown && i < |found| ==> found[i].Text?
      {
        match found[shown] {
          case Unrenderable => return Success, shown;
          case RenderError(_) =>
            assert found[shown] in found;
            return PatternCode(found[shown]), shown;
          case Text(length) =>
            var copied := Copy(length);
            if !copied {
              return Truncated, shown;
            }
            shown := shown + 1;
        }
      }
      code := Success;
    }
  }

  // ---- One command ----

  // The answer of a policy, with a memory failure of requested suggestions counted as an error.
  function AnswerOf(p: Policy, suggestions: bool): Policy {
    if p.Answer? && suggestions && p.suggestionMemory then PolicyError(true) else p
  }

  function ErrorCode(p: Policy): Code
    requires p.PolicyError?
  {
    if p.outOfMemory then OutOfMemory else BadParse
  }

  // This policy could not answer, with this error.
  predicate FailsWith(p: Policy, suggestions: bool, code: Code) {
    AnswerOf(p, suggestions).PolicyError? && ErrorCode(AnswerOf(p, suggestions)) == code
  }

  // The command matched allow, and not deny.
  predicate Allowed(c: Judged, suggestions: bool) {
    && AnswerOf(c.deny, suggestions).Answer? && !c.deny.matches
    && AnswerOf(c.allow, suggestions).Answer? && c.allow.matches
  }

  predicate Denied(c: Judged, suggestions: bool) {
    AnswerOf(c.deny, suggestions).Answer? && c.deny.matches
  }

  // A policy that was asked could not answer.
  predicate Broken(c: Judged, suggestions: bool) {
    AnswerOf(c.deny, suggestions).PolicyError? || (!c.deny.matches && AnswerOf(c.allow, suggestions).PolicyError?)
  }

  function SubOf(node: nat, c: Judged, suggestions: bool): Sub {
    if Denied(c, suggestions) then Sub(node, true, Deny, UNMARKED)
    else if Allowed(c, suggestions) then Sub(node, true, Allow, UNMARKED)
    else Sub(node, false, Undetermined, UNMARKED)
  }

  predicate Stops(mode: StopMode, s: Sub) {
    || (mode == FirstFail && !s.matches)
    || (mode == FirstPass && s.matches)
    || (mode == FirstAllow && s.verdict == Allow)
    || (mode == FirstDeny && s.verdict == Deny)
  }

  // ---- The input ----

  /** A graph, and for every node what rendering and policies would say of its command. */
  datatype Input = Input(
    graph: Graph, judged: seq<Judged>, incomplete: bool, stop: StopMode, suggestions: bool, unresolvedArithmetic: bool)
  {
    // Containment is a forest, and a rendering that failed has an error code.
    ghost predicate Valid() {
      && Forest(graph) && |judged| == |graph.nodes|
      && forall n :: 0 <= n < |judged| && judged[n].rendering.Failed? ==> judged[n].rendering.code != Success
    }
  }

  function CommandsUpTo(g: Graph, n: nat): seq<nat>
    requires n <= |g.nodes|
  {
    if n == 0 then []
    else if TokenBearing(g, n - 1) then CommandsUpTo(g, n - 1) + [n - 1]
    else CommandsUpTo(g, n - 1)
  }

  // The token-bearing commands, in node order.
  function Commands(i: Input): seq<nat> {
    CommandsUpTo(i.graph, |i.graph.nodes|)
  }

  // A command without argv that the policies cannot judge.
  ghost predicate IoOnly(g: Graph, n: nat)
    requires g.Valid()
  {
    ArgvLess(g, n) && !Neutral(g, n)
  }

  ghost predicate HasIoOnly(i: Input)
    requires i.Valid()
  {
    exists n :: IoOnly(i.graph, n)
  }

  lemma {:induction false} CommandsAre(g: Graph, n: nat)
    requires n <= |g.nodes|
    ensures |CommandsUpTo(g, n)| <= n
    ensures forall k :: 0 <= k < |CommandsUpTo(g, n)| ==> CommandsUpTo(g, n)[k] < n && TokenBearing(g, CommandsUpTo(g, n)[k])
    ensures forall j: nat :: j < n && TokenBearing(g, j) ==> j in CommandsUpTo(g, n)
  {
    if n > 0 {
      CommandsAre(g, n - 1);
    }
  }

  lemma {:induction false} CommandsExtend(g: Graph, n: nat, m: nat)
    requires n <= m <= |g.nodes|
    ensures CommandsUpTo(g, n) <= CommandsUpTo(g, m)
  {
    if n < m {
      CommandsExtend(g, n, m - 1);
    }
  }

  // ---- What the loop leaves ----

  // The commands evaluated so far have these results, and none of them stopped the loop.
  ghost predicate Walked(i: Input, commands: seq<nat>, subs: seq<Sub>, clean: bool) {
    && |subs| == |commands|
    && (forall k :: 0 <= k < |subs| ==> commands[k] < |i.judged| && subs[k] == SubOf(commands[k], i.judged[commands[k]], i.suggestions))
    && (clean ==> forall k :: 0 <= k < |subs| ==> !Broken(i.judged[commands[k]], i.suggestions))
  }

  ghost predicate NoneStops(mode: StopMode, subs: seq<Sub>, n: nat)
    requires n <= |subs|
  {
    forall k :: 0 <= k < n ==> !Stops(mode, subs[k])
  }

  // Something other than the size of the buffer can go wrong with this command, with this error.
  predicate CanFail(c: Judged, suggestions: bool, code: Code) {
    || (c.rendering.Failed? && c.rendering.code == code)
    || FailsWith(c.deny, suggestions, code)
    || (!Denied(c, suggestions) && FailsWith(c.allow, suggestions, code))
    || (suggestions && (BadSuggestion(c.deny, code) || BadSuggestion(c.allow, code)))
  }

  predicate BadSuggestion(p: Policy, code: Code) {
    p.Answer? && exists s :: s in p.suggestions && s.RenderError? && PatternCode(s) == code
  }

  /** Render one command and ask the policies about it. */
  method EvaluateOne(node: nat, c: Judged, suggestions: bool, w: Writer, error: Code, allowShown: nat, denyShown: nat)
    returns (failed: Code, sub: Sub, error': Code, allowShown': nat, denyShown': nat)
    requires w.used <= w.size && allowShown <= MAX_SUGGESTIONS && denyShown <= MAX_SUGGESTIONS
    requires c.rendering.Failed? ==> c.rendering.code != Success
    modifies w`used, w`overflow
    ensures w.used <= w.size && (old(w.overflow) ==> w.overflow)
    ensures allowShown' <= MAX_SUGGESTIONS && denyShown' <= MAX_SUGGESTIONS
    ensures failed == Success ==> sub == SubOf(node, c, suggestions)
    ensures failed == Success ==> (error' == Success ==> error == Success && !Broken(c, suggestions))
    ensures failed != Success ==> (failed == Truncated && w.overflow) || CanFail(c, suggestions, failed)
    ensures error' != Success ==> error' == error || CanFail(c, suggestions, error')
  {
    failed, error', allowShown', denyShown' := Success, error, allowShown, denyShown;
    sub := Sub(node, false, Allow, UNMARKED);
    if c.rendering.Failed? {
      return c.rendering.code, sub, error', allowShown', denyShown';
    }
    var _ := w.Copy(c.rendering.length);
    if w.overflow {
      return Truncated, sub, error', allowShown', denyShown';
    }
    var deny := AnswerOf(c.deny, suggestions);
    if deny.PolicyError? {
      sub := Sub(node, false, Undetermined, UNMARKED);
      var _ := w.Copy(DENY_ERROR_LENGTH);
      error' := ErrorCode(deny);
      return;
    }
    if deny.matches {
      sub := Sub(node, true, Deny, UNMARKED);
      var _ := w.Copy(DENY_MATCH_LENGTH);
      return;
    }
    var allow := AnswerOf(c.allow, suggestions);
    if allow.PolicyError? {
      sub := Sub(node, false, Undetermined, UNMARKED);
      error' := ErrorCode(allow);
    } else if allow.matches {
      sub := Sub(node, true, Allow, UNMARKED);
    } else {
      sub := Sub(node, false, Undetermined, UNMARKED);
      if suggestions {
        var code;
        code, allowShown' := w.AddSuggestions(allow.suggestions, allowShown);
        if code == Truncated {
          return Truncated, sub, error', allowShown', denyShown';
        }
        if code != Success && error' == Success {
          error' := code;
        }
      }
    }
    if suggestions && denyShown == 0 {
      var code;
      code, denyShown' := w.AddSuggestions(deny.suggestions, denyShown);
      if code == Truncated {
        return Truncated, sub, error', allowShown', denyShown';
      }
      if code != Success && error' == Success {
        error' := code;
      }
    }
  }

  // Some command can fail with this error.
  predicate AnyFailure(i: Input, code: Code) {
    exists n :: 0 <= n < |i.judged| && TokenBearing(i.graph, n) && CanFail(i.judged[n], i.suggestions, code)
  }

  // The position of the first denied command.
  ghost predicate FirstDenied(attention: seq<nat>, subs: seq<Sub>) {
    if attention == [] then forall k :: 0 <= k < |subs| ==> subs[k].verdict != Deny
    else
      && |attention| == 1 && attention[0] < |subs| && subs[attention[0]].verdict == Deny
      && forall k :: 0 <= k < attention[0] ==> subs[k].verdict != Deny
  }

  // Why and where the walk over the commands ended.
  ghost predicate WalkEnded(i: Input, subs: seq<Sub>, stopped: bool, cut: bool) {
    && |subs| <= MAX_RESULTS && |subs| <= |Commands(i)|
    && (stopped ==> |subs| > 0 && Stops(i.stop, subs[|subs| - 1]) && NoneStops(i.stop, subs, |subs| - 1))
    && (!stopped ==> NoneStops(i.stop, subs, |subs|))
    && (cut ==> |subs| == MAX_RESULTS < |Commands(i)|)
    && (!stopped && !cut ==> |subs| == |Commands(i)|)
  }

  // The first n nodes have been walked, and nothing stopped the loop.
  ghost predicate Walking(i: Input, n: nat, subs: seq<Sub>, clean: bool, attention: seq<nat>)
    requires n <= |i.graph.nodes|
  {
    && |subs| <= MAX_RESULTS && Walked(i, CommandsUpTo(i.graph, n), subs, clean)
    && NoneStops(i.stop, subs, |subs|) && FirstDenied(attention, subs)
  }

  /** Evaluate the token-bearing commands in order, until one stops the loop or the results are full. */
  method WalkCommands(i: Input, w: Writer)
    returns (failed: Code, subs: seq<Sub>, error: Code, stopped: bool, cut: bool, attention: seq<nat>)
    requires i.Valid() && w.used <= w.size
    modifies w`used, w`overflow
    ensures w.used <= w.size && (old(w.overflow) ==> w.overflow)
    ensures failed == Success ==> WalkEnded(i, subs, stopped, cut) && FirstDenied(attention, subs)
    ensures failed == Success ==> Walked(i, Commands(i)[..|subs|], subs, error == Success)
    ensures failed != Success ==> (failed == Truncated && w.overflow) || AnyFailure(i, failed)
    ensures error != Success ==> AnyFailure(i, error)
  {
    hide CanFail;
    hide SubOf;
    hide Broken;
    hide Stops;
    hide Walking;
    hide Walked;
    hide FirstDenied;
    hide WalkEnded;
    failed, subs, error, stopped, cut, attention := Success, [], Success, false, false, [];
    var allowShown: nat, denyShown: nat := 0, 0;
    NothingWalked(i);
    for n := 0 to |i.graph.nodes|
      invariant w.used <= w.size && (old(w.overflow) ==> w.overflow)
      invariant allowShown <= MAX_SUGGESTIONS && denyShown <= MAX_SUGGESTIONS
      invariant failed == Success && !stopped && !cut
      invariant Walking(i, n, subs, error == Success, attention)
      invariant error != Success ==> AnyFailure(i, error)
    {
      if !TokenBearing(i.graph, n) {
        SkipOne(i, n, subs, error == Success, attention);
        continue;
      }
      if |subs| >= MAX_RESULTS {
        cut := true;
        CutHere(i, n, subs, error == Success, attention);
        return;
      }
      ghost var before := error;
      var sub;
      failed, sub, error, allowShown, denyShown := EvaluateOne(n, i.judged[n], i.suggestions, w, error, allowShown, denyShown);
      if failed != Success {
        return;
      }
      VerdictOf(n, i.judged[n], i.suggestions);
      var first := if (sub.verdict == Reject || sub.verdict == Deny) && attention == [] then [|subs|] else attention;
      WalkOn(i, n, subs, before == Success, attention, sub, error == Success);
      subs, attention := subs + [sub], first;
      if Stops(i.stop, sub) {
        stopped := true;
        return;
      }
    }
    WalkDone(i, subs, error == Success, attention);
  }

  lemma NothingWalked(i: Input)
    ensures Walking(i, 0, [], true, [])
  {
  }

  lemma SkipOne(i: Input, n: nat, subs: seq<Sub>, clean: bool, attention: seq<nat>)
    requires n < |i.graph.nodes| && !TokenBearing(i.graph, n) && Walking(i, n, subs, clean, attention)
    ensures Walking(i, n + 1, subs, clean, attention)
  {
    hide Walked;
  }

  lemma CutHere(i: Input, n: nat, subs: seq<Sub>, clean: bool, attention: seq<nat>)
    requires n < |i.graph.nodes| && TokenBearing(i.graph, n) && Walking(i, n, subs, clean, attention) && |subs| >= MAX_RESULTS
    ensures WalkEnded(i, subs, false, true) && FirstDenied(attention, subs) && |subs| <= |Commands(i)|
    ensures Walked(i, Commands(i)[..|subs|], subs, clean)
  {
    hide Stops;
    hide SubOf;
    CommandsExtend(i.graph, n, |i.graph.nodes|);
    CommandsExtend(i.graph, n + 1, |i.graph.nodes|);
    assert Commands(i)[..|subs|] == CommandsUpTo(i.graph, n);
  }

  lemma WalkDone(i: Input, subs: seq<Sub>, clean: bool, attention: seq<nat>)
    requires Walking(i, |i.graph.nodes|, subs, clean, attention)
    ensures WalkEnded(i, subs, false, false) && FirstDenied(attention, subs) && |subs| <= |Commands(i)|
    ensures Walked(i, Commands(i)[..|subs|], subs, clean)
  {
    hide Stops;
    hide SubOf;
    assert Commands(i)[..|subs|] == Commands(i);
  }

  /** One more result: the walk goes on, or ends here. */
  lemma WalkOn(i: Input, n: nat, subs: seq<Sub>, clean: bool, attention: seq<nat>, sub: Sub, clean': bool)
    requires n < |i.graph.nodes| == |i.judged| && TokenBearing(i.graph, n)
    requires Walking(i, n, subs, clean, attention) && |subs| < MAX_RESULTS
    requires sub == SubOf(n, i.judged[n], i.suggestions) && (clean' ==> clean && !Broken(i.judged[n], i.suggestions))
    ensures var first := if sub.verdict == Deny && attention == [] then [|subs|] else attention;
      if Stops(i.stop, sub)
      then
        && WalkEnded(i, subs + [sub], true, false) && FirstDenied(first, subs + [sub]) && |subs| < |Commands(i)|
        && Walked(i, Commands(i)[..|subs| + 1], subs + [sub], clean')
      else Walking(i, n + 1, subs + [sub], clean', first)
  {
    hide Broken;
    hide SubOf;
    hide Stops;
    CommandsExtend(i.graph, n + 1, |i.graph.nodes|);
    assert Commands(i)[..|subs| + 1] == CommandsUpTo(i.graph, n + 1);
  }

  lemma VerdictOf(node: nat, c: Judged, suggestions: bool)
    ensures var s := SubOf(node, c, suggestions);
      s.node == node && s.verdict != Reject && (s.verdict == Deny <==> Denied(c, suggestions))
      && (s.verdict == Allow <==> Allowed(c, suggestions)) && s.verdict != AllowConditional
  {
  }

  // ---- Substitution routes ----

  // Bytes of a route that become part of a shell word make an allowance conditional.
  function Upgraded(s: Sub, m: Mark): Sub {
    s.(reached := m, verdict := if m.word && s.verdict == Allow then AllowConditional else s.verdict)
  }

  // The results, with the routes that reach their commands.
  ghost predicate Reached(g: Graph, subs: seq<Sub>, marked: seq<Sub>)
    requires g.Valid()
  {
    && |marked| == |subs|
    && forall k :: 0 <= k < |subs| ==>
      marked[k] == Upgraded(subs[k], Mark(RouteReaches(g, subs[k].node, false), RouteReaches(g, subs[k].node, true)))
  }

  /** Mark every result with the routes that reach its command, itself or through a group around it. */
  method MarkResults(g: Graph, a: Adjacency, summary: Summary, subs: seq<Sub>) returns (marked: seq<Sub>)
    requires Forest(g) && Adjacent(g, a) && summary.Of(g) && forall k :: 0 <= k < |subs| ==> subs[k].node < |g.nodes|
    ensures Reached(g, subs, marked)
  {
    hide Acyclic;
    hide Containers;
    hide Threaded;
    hide AllParents;
    hide EndpointsSoFar;
    hide RouteReaches;
    hide AnyRoute;
    hide DirectMarks;
    var marks := new Mark[|g.nodes|](_ => UNMARKED);
    Routes.MarkRoutes(g, a, marks);
    InheritMarks(g, a.out, summary.parent, marks);
    marked := [];
    for k := 0 to |subs|
      invariant |marked| == k
      invariant forall j :: 0 <= j < k ==>
        marked[j] == Upgraded(subs[j], Mark(RouteReaches(g, subs[j].node, false), RouteReaches(g, subs[j].node, true)))
    {
      assert Marked(marks[subs[k].node], RouteReaches(g, subs[k].node, false), RouteReaches(g, subs[k].node, true));
      marked := marked + [Upgraded(subs[k], marks[subs[k].node])];
    }
  }

  // ---- Composition ----

  predicate HasVerdict(subs: seq<Sub>, v: Verdict) {
    exists k :: 0 <= k < |subs| && subs[k].verdict == v
  }

  predicate AllAllowed(subs: seq<Sub>) {
    forall k :: 0 <= k < |subs| ==> subs[k].verdict == Allow || subs[k].verdict == AllowConditional
  }

  /** The verdict of a composition of evaluated commands. */
  function Compose(subs: seq<Sub>, ioOnly: bool, unresolved: bool, requiresEvaluation: bool): Verdict {
    if subs == [] && !ioOnly then if unresolved then Undetermined else Allow
    else if HasVerdict(subs, Reject) then Reject
    else if HasVerdict(subs, Deny) then Deny
    else if ioOnly || unresolved || !AllAllowed(subs) then Undetermined
    else if requiresEvaluation || HasVerdict(subs, AllowConditional) then AllowConditional
    else Allow
  }

  method ComposeVerdict(subs: seq<Sub>, ioOnly: bool, unresolved: bool, requiresEvaluation: bool, w: Writer)
    returns (verdict: Verdict)
    requires w.used <= w.size && !(subs == [] && !ioOnly)
    modifies w`used, w`overflow
    ensures verdict == Compose(subs, ioOnly, unresolved, requiresEvaluation)
    ensures w.used <= w.size && (old(w.overflow) ==> w.overflow)
  {
    var allAllow, anyConditional, anyReject, anyDeny := true, false, false, false;
    for k := 0 to |subs|
      invariant w.used == old(w.used) && w.overflow == old(w.overflow)
      invariant allAllow == AllAllowed(subs[..k]) && anyConditional == HasVerdict(subs[..k], AllowConditional)
      invariant anyReject == HasVerdict(subs[..k], Reject) && anyDeny == HasVerdict(subs[..k], Deny)
    {
      var v := subs[k].verdict;
      OneMoreVerdict(subs, k);
      if v != Allow && v != AllowConditional {
        allAllow := false;
      }
      if v == AllowConditional {
        anyConditional := true;
      }
      if v == Reject {
        anyReject := true;
      }
      if v == Deny {
        anyDeny := true;
      }
    }
    assert subs[..|subs|] == subs;
    if anyReject {
      verdict := Reject;
    } else if anyDeny {
      verdict := Deny;
    } else if ioOnly {
      verdict := Undetermined;
      var _ := w.Copy(IO_ONLY_LENGTH);
    } else if unresolved {
      verdict := Undetermined;
    } else if allAllow {
      verdict := if requiresEvaluation || anyConditional then AllowConditional else Allow;
    } else {
      verdict := Undetermined;
    }
  }

  lemma OneMoreVerdict(subs: seq<Sub>, k: nat)
    requires k < |subs|
    ensures forall v :: HasVerdict(subs[..k + 1], v) <==> (HasVerdict(subs[..k], v) || subs[k].verdict == v)
    ensures AllAllowed(subs[..k + 1]) <==>
      (AllAllowed(subs[..k]) && (subs[k].verdict == Allow || subs[k].verdict == AllowConditional))
  {
    assert subs[..k + 1] == subs[..k] + [subs[k]];
    forall v | HasVerdict(subs[..k], v) ensures HasVerdict(subs[..k + 1], v) {
      var j :| 0 <= j < k && subs[..k][j].verdict == v;
      assert subs[..k + 1][j].verdict == v;
    }
    assert subs[..k + 1][k] == subs[k];
  }

  // ---- The whole evaluation ----

  // The results of a successful evaluation.
  ghost predicate Composed(i: Input, out: Result)
    requires i.Valid()
  {
    exists subs: seq<Sub>, stopped: bool :: ComposedOf(i, out, subs, stopped)
  }

  ghost predicate ComposedOf(i: Input, out: Result, subs: seq<Sub>, stopped: bool)
    requires i.Valid()
  {
    && WalkEnded(i, subs, stopped, false) && |subs| <= |Commands(i)| && Walked(i, Commands(i)[..|subs|], subs, true)
    && Reached(i.graph, subs, out.subs) && out.shortCircuited == (|subs| < |Commands(i)|)
    && Marked(out.routes, AnyRoute(i.graph, |i.graph.edges|, false), AnyRoute(i.graph, |i.graph.edges|, true))
    && out.verdict == Compose(out.subs, HasIoOnly(i), i.unresolvedArithmetic, out.routes.word)
    && FirstDenied(out.attention, subs)
  }

  /** What an evaluation returns: a composed verdict, or no verdict and an error. */
  ghost predicate Outcome(i: Input, overflow: bool, code: Code, out: Result)
    requires i.Valid()
  {
    && (code == Success ==> !i.incomplete && !out.truncated && Composed(i, out))
    && (code == Success ==> !overflow)
    && (code != Success ==> out.verdict == Undetermined)
    && (code != Success ==>
          (code == Truncated && (overflow || i.incomplete || |Commands(i)| > MAX_RESULTS)) || AnyFailure(i, code))
  }

  /** Count the token-bearing commands, and look for one without argv that is not neutral. */
  method CountCommands(i: Input, summary: Summary) returns (count: nat, ioOnly: bool)
    requires i.Valid() && summary.Of(i.graph)
    ensures count == |Commands(i)| && (ioOnly <==> HasIoOnly(i))
  {
    hide Containers;
    hide Acyclic;
    hide Neutral;
    var g := i.graph;
    count, ioOnly := 0, false;
    for n := 0 to |g.nodes|
      invariant count == |CommandsUpTo(g, n)|
      invariant ioOnly <==> exists m :: 0 <= m < n && IoOnly(g, m)
    {
      assert (exists m :: 0 <= m < n + 1 && IoOnly(g, m)) <==> ((exists m :: 0 <= m < n && IoOnly(g, m)) || IoOnly(g, n));
      if TokenBearing(g, n) {
        count := count + 1;
      } else if ArgvLess(g, n) {
        var neutral := IsNeutral(g, summary, n);
        if !neutral {
          ioOnly := true;
        }
      }
    }
  }

  /** Evaluate every command against the policies and compose the verdict. */
  method EvaluatePolicy(i: Input, w: Writer) returns (code: Code, out: Result)
    requires i.Valid() && w.used <= w.size && !w.overflow
    modifies w`used, w`overflow
    ensures Outcome(i, w.overflow, code, out)
    ensures Marked(out.routes, AnyRoute(i.graph, |i.graph.edges|, false), AnyRoute(i.graph, |i.graph.edges|, true))
    ensures out.truncated || w.overflow || i.incomplete ==> out.verdict == Undetermined && code != Success
  {
    hide Walked;
    hide WalkEnded;
    hide AnyFailure;
    hide FirstDenied;
    hide Compose;
    hide Composed;
    hide Containers;
    hide Acyclic;
    hide Threaded;
    hide HasIoOnly;
    hide Reached;
    hide AnyRoute;
    hide Summary.Of;
    hide Commands;
    out := Result(Allow, false, [], false, UNMARKED, []);
    var found := FindRoutes(i.graph);
    var adjacency := BuildAdjacency(i.graph);
    var summary := Summarize(i.graph);
    var total, ioOnly := CountCommands(i, summary);
    var failed, subs, error, stopped, cut, attention := WalkCommands(i, w);
    if failed != Success {
      return failed, Result(Undetermined, failed == Truncated, subs, false, found, attention);
    }
    LoopEnd(i, subs, stopped, cut);
    SubsInRange(i, Commands(i)[..|subs|], subs, error == Success);
    var marked := MarkResults(i.graph, adjacency, summary, subs);
    var incomplete := i.incomplete || cut;
    out := Result(Allow, w.overflow || incomplete, marked, stopped && |subs| < total, found, attention);
    if incomplete {
      return Truncated, out.(verdict := Undetermined);
    }
    if error != Success {
      return error, out.(verdict := Undetermined);
    }
    if marked == [] && !ioOnly {
      if out.truncated {
        return Truncated, out.(verdict := Undetermined);
      }
      code, out := Success, out.(verdict := if i.unresolvedArithmetic then Undetermined else Allow);
      NothingToCompose(i.unresolvedArithmetic, found.word);
      IsComposed(i, subs, stopped, out);
      return;
    }
    var verdict := ComposeVerdict(marked, ioOnly, i.unresolvedArithmetic, found.word, w);
    if w.overflow {
      return Truncated, out.(truncated := true, verdict := Undetermined);
    }
    code, out := Success, out.(verdict := verdict);
    IsComposed(i, subs, stopped, out);
  }

  lemma NothingToCompose(unresolved: bool, word: bool)
    ensures Compose([], false, unresolved, word) == if unresolved then Undetermined else Allow
  {
  }

  lemma LoopEnd(i: Input, subs: seq<Sub>, stopped: bool, cut: bool)
    requires WalkEnded(i, subs, stopped, cut)
    ensures cut ==> |Commands(i)| > MAX_RESULTS
    ensures |subs| <= |Commands(i)| && (!stopped && !cut ==> |subs| == |Commands(i)|)
  {
  }

  lemma SubsInRange(i: Input, commands: seq<nat>, subs: seq<Sub>, clean: bool)
    requires Walked(i, commands, subs, clean)
    ensures forall k :: 0 <= k < |subs| ==> subs[k].node < |i.judged|
  {
  }

  lemma IsComposed(i: Input, subs: seq<Sub>, stopped: bool, out: Result)
    requires i.Valid() && ComposedOf(i, out, subs, stopped)
    ensures Composed(i, out)
  {
    hide Containers;
    hide Acyclic;
    hide ComposedOf;
  }

  // ---- What a verdict means ----

  /** An ALLOW that is not cut short authorizes every command that has an argument vector,
      and every other command needs no policy: no group around it hides I/O. */
  lemma AllowIsSound(i: Input, overflow: bool, code: Code, out: Result)
    requires i.Valid() && Outcome(i, overflow, code, out)
    requires code == Success && out.verdict == Allow && !out.shortCircuited
    ensures forall n :: 0 <= n < |i.judged| && TokenBearing(i.graph, n) ==>
      Allowed(i.judged[n], i.suggestions) && !Denied(i.judged[n], i.suggestions)
    ensures forall n :: ArgvLess(i.graph, n) ==> Neutral(i.graph, n)
    ensures forall n, h :: ArgvLess(i.graph, n) && h in GroupContext.Around(i.graph, n) ==> !Hidden(i.graph, h)
    ensures !i.unresolvedArithmetic && !i.incomplete
  {
    hide Stops;
    hide FirstDenied;
    hide AnyRoute;
    hide RouteReaches;
    hide Neutral;
    hide Hidden;
    hide Containers;
    hide Acyclic;
    var subs: seq<Sub>, stopped: bool :| ComposedOf(i, out, subs, stopped);
    assert Commands(i)[..|subs|] == Commands(i);
    CommandsAre(i.graph, |i.graph.nodes|);
    forall n | 0 <= n < |i.judged| && TokenBearing(i.graph, n)
      ensures Allowed(i.judged[n], i.suggestions) && !Denied(i.judged[n], i.suggestions)
    {
      var k :| 0 <= k < |Commands(i)| && Commands(i)[k] == n;
      var v := out.subs[k].verdict;
      assert v == Allow || v == AllowConditional;
      assert subs[k] == SubOf(n, i.judged[n], i.suggestions);
    }
    forall n | ArgvLess(i.graph, n) ensures Neutral(i.graph, n) {
      assert !IoOnly(i.graph, n);
    }
    forall n, h | ArgvLess(i.graph, n) && h in GroupContext.Around(i.graph, n) ensures !Hidden(i.graph, h) {
      if Hidden(i.graph, h) {
        HiddenIsNotNeutral(i.graph, n, h);
      }
    }
  }

  /** An ALLOW comes with a request for inspection exactly if there is no token-bearing command
      and nothing else speaks against ALLOW. */
  lemma AllowWithRoute(i: Input, overflow: bool, code: Code, out: Result)
    requires i.Valid() && Outcome(i, overflow, code, out) && code == Success
    ensures (out.verdict == Allow && out.routes.word) <==>
      (Commands(i) == [] && !HasIoOnly(i) && !i.unresolvedArithmetic && AnyRoute(i.graph, |i.graph.edges|, true))
  {
    hide Stops;
    hide FirstDenied;
    hide AnyRoute;
    hide RouteReaches;
    hide HasIoOnly;
    hide Containers;
    hide Acyclic;
    hide Commands;
    hide Walked;
    var subs: seq<Sub>, stopped: bool :| ComposedOf(i, out, subs, stopped);
  }

  // A conditional whose operand is the content of a file.
  function FileOperand(): Input {
    var command := Command(0, Conditional, false, false);
    var route := Edge(Subst, 1, 0, false, false, false, false, true, false);
    var none := Answer(false, false, []);
    var judged := Judged(Rendered(0), none, none);
    Input(Graph([command, Doc(FileDoc, false)], [route]), [judged, judged], false, EvaluateAll, false, false)
  }

  /** Such an evaluation answers ALLOW, although it asks for an inspection. */
  lemma AllowDespiteRoute(overflow: bool, code: Code, out: Result)
    ensures FileOperand().Valid()
    ensures Outcome(FileOperand(), overflow, code, out) && !overflow ==> code == Success && out.verdict == Allow && out.routes.word
  {
    hide Unsafe;
    hide Outcome;
    var i := FileOperand();
    var g := i.graph;
    NothingContained(g);
    assert CommandsUpTo(g, 1) == [] && Commands(i) == [];
    assert !HasIoOnly(i) by {
      forall n | ArgvLess(g, n) ensures Neutral(g, n) {
        assert n == 0;
      }
    }
    assert Route(g, 0) && g.edges[0].shellWord;
    if Outcome(i, overflow, code, out) && !overflow {
      NoFailures(i, overflow, code, out);
      AllowWithRoute(i, overflow, code, out);
    }
  }

  lemma NothingContained(g: Graph)
    requires g.Valid() && forall e :: 0 <= e < |g.edges| ==> g.edges[e].kind != Contains
    ensures g.ContainmentPairs() == {} && Forest(g)
  {
  }

  // Without commands nothing can fail.
  lemma NoFailures(i: Input, overflow: bool, code: Code, out: Result)
    requires i.Valid() && Outcome(i, overflow, code, out) && !overflow && !i.incomplete
    requires |Commands(i)| <= MAX_RESULTS && forall n :: 0 <= n < |i.judged| ==> !TokenBearing(i.graph, n)
    ensures code == Success
  {
    hide Composed;
    hide CanFail;
  }

  /** What the flags of a result say of one another, and which allowances are conditional. */
  lemma FlagsAgree(i: Input, overflow: bool, code: Code, out: Result)
    requires i.Valid() && Outcome(i, overflow, code, out) && code == Success
    ensures out.verdict == AllowConditional ==> out.routes.word
    ensures out.routes.word ==> out.routes.dynamic
    ensures out.shortCircuited ==> out.subs != []
    ensures forall k :: 0 <= k < |out.subs| ==>
      var node := out.subs[k].node;
      && node < |i.judged|
      && (out.subs[k].reached.word ==> out.routes.word) && (out.subs[k].reached.dynamic ==> out.routes.dynamic)
      && (out.subs[k].verdict == AllowConditional <==>
            Allowed(i.judged[node], i.suggestions) && RouteReaches(i.graph, node, true))
  {
    hide Stops;
    hide FirstDenied;
    hide AnyRoute;
    hide RouteReaches;
    hide HasIoOnly;
    hide Containers;
    hide Acyclic;
    hide Commands;
    hide Route;
    var subs: seq<Sub>, stopped: bool :| ComposedOf(i, out, subs, stopped);
    WordIsDynamic(i.graph);
    forall k | 0 <= k < |out.subs|
      ensures
        var node := out.subs[k].node;
        && node < |i.judged|
        && (out.subs[k].reached.word ==> out.routes.word) && (out.subs[k].reached.dynamic ==> out.routes.dynamic)
        && (out.subs[k].verdict == AllowConditional <==>
              Allowed(i.judged[node], i.suggestions) && RouteReaches(i.graph, node, true))
    {
      assert subs[k] == SubOf(Commands(i)[k], i.judged[Commands(i)[k]], i.suggestions);
      ReachedByRoute(i.graph, subs[k].node, true);
      ReachedByRoute(i.graph, subs[k].node, false);
    }
  }

  lemma WordIsDynamic(g: Graph)
    requires g.Valid()
    ensures AnyRoute(g, |g.edges|, true) ==> AnyRoute(g, |g.edges|, false)
  {
  }

  lemma ReachedByRoute(g: Graph, n: nat, word: bool)
    requires g.Valid()
    ensures RouteReaches(g, n, word) ==> AnyRoute(g, |g.edges|, word)
  {
  }

  /** DENY names a command that was evaluated and matches the deny policy, the first of them. */
  lemma DenyIsJustified(i: Input, overflow: bool, code: Code, out: Result)
    requires i.Valid() && Outcome(i, overflow, code, out) && code == Success
    ensures out.verdict == Deny <==> exists k :: 0 <= k < |out.subs| && out.subs[k].verdict == Deny
    ensures forall k :: 0 <= k < |out.subs| ==>
      out.subs[k].node < |i.judged| && (out.subs[k].verdict == Deny <==> Denied(i.judged[out.subs[k].node], i.suggestions))
    ensures out.verdict == Deny ==> out.attention != [] && FirstDenied(out.attention, out.subs)
  {
    hide Stops;
    hide RouteReaches;
    hide AnyRoute;
    hide HasIoOnly;
    hide Containers;
    hide Acyclic;
    hide Commands;
    hide SubOf;
    var subs: seq<Sub>, stopped: bool :| ComposedOf(i, out, subs, stopped);
    forall k | 0 <= k < |subs|
      ensures out.subs[k].verdict != Reject && out.subs[k].node < |i.judged|
      ensures out.subs[k].verdict == Deny <==> Denied(i.judged[out.subs[k].node], i.suggestions)
    {
      VerdictOf(Commands(i)[k], i.judged[Commands(i)[k]], i.suggestions);
    }
  }

  /** Nothing but allowed commands, all room and no stop: the verdict is ALLOW. */
  lemma AllowIsComplete(i: Input, overflow: bool, code: Code, out: Result)
    requires i.Valid() && Outcome(i, overflow, code, out)
    requires !overflow && !i.incomplete && |Commands(i)| <= 64 && forall c :: !AnyFailure(i, c)
    requires forall n :: 0 <= n < |i.judged| && TokenBearing(i.graph, n) ==> Allowed(i.judged[n], i.suggestions)
    requires !HasIoOnly(i) && !i.unresolvedArithmetic && !AnyRoute(i.graph, |i.graph.edges|, true)
    ensures code == Success && out.verdict == Allow
    ensures i.stop != FirstPass && i.stop != FirstAllow ==> !out.shortCircuited
  {
    hide AnyFailure;
    hide FirstDenied;
    hide RouteReaches;
    hide AnyRoute;
    hide HasIoOnly;
    hide Containers;
    hide Acyclic;
    var subs: seq<Sub>, stopped: bool :| ComposedOf(i, out, subs, stopped);
    CommandsAre(i.graph, |i.graph.nodes|);
    forall k | 0 <= k < |subs| ensures out.subs[k].verdict == Allow && out.subs[k].matches && subs[k].matches && subs[k].verdict == Allow {
      var j := Commands(i)[k];
      assert subs[k] == SubOf(j, i.judged[j], i.suggestions);
      ReachedByRoute(i.graph, j, true);
    }
  }
}
