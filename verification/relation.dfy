// Paths in a finite relation on node numbers.
module Relation {
  import opened NodeLists

  type Pairs = set<(nat, nat)>

  ghost predicate IsPath(r: Pairs, p: seq<nat>) {
    p != [] && forall i :: 0 <= i < |p| - 1 ==> (p[i], p[i + 1]) in r
  }

  ghost predicate PathBetween(r: Pairs, p: seq<nat>, a: nat, b: nat) {
    IsPath(r, p) && p[0] == a && p[|p| - 1] == b
  }

  // The reflexive-transitive closure.
  ghost predicate Reaches(r: Pairs, a: nat, b: nat) {
    exists p :: PathBetween(r, p, a, b)
  }

  ghost predicate Acyclic(r: Pairs) {
    forall a, b :: (a, b) in r ==> !Reaches(r, b, a)
  }

  lemma Refl(r: Pairs, a: nat)
    ensures Reaches(r, a, a)
  {
    assert PathBetween(r, [a], a, a);
  }

  lemma Trans(r: Pairs, a: nat, b: nat, c: nat)
    requires Reaches(r, a, b) && Reaches(r, b, c)
    ensures Reaches(r, a, c)
  {
    var p :| PathBetween(r, p, a, b);
    var q :| PathBetween(r, q, b, c);
    var joined := p + q[1..];
    forall i | 0 <= i < |joined| - 1 ensures (joined[i], joined[i + 1]) in r {
      if i >= |p| - 1 {
        assert joined[i + 1] == q[i + 2 - |p|] && joined[i] == q[i + 1 - |p|];
      }
    }
    assert PathBetween(r, joined, a, c);
  }

  lemma Step(r: Pairs, a: nat, b: nat)
    requires (a, b) in r
    ensures Reaches(r, a, b)
  {
    assert PathBetween(r, [a, b], a, b);
  }

  lemma FirstStep(r: Pairs, a: nat, b: nat) returns (c: nat)
    requires Reaches(r, a, b) && a != b
    ensures (a, c) in r && Reaches(r, c, b)
  {
    var p :| PathBetween(r, p, a, b);
    c := p[1];
    assert PathBetween(r, p[1..], c, b);
  }

  lemma LastStep(r: Pairs, a: nat, b: nat) returns (c: nat)
    requires Reaches(r, a, b) && a != b
    ensures Reaches(r, a, c) && (c, b) in r
  {
    var p :| PathBetween(r, p, a, b);
    c := p[|p| - 2];
    assert PathBetween(r, p[..|p| - 1], a, c);
  }

  lemma Monotone(r: Pairs, s: Pairs, a: nat, b: nat)
    requires r <= s && Reaches(r, a, b)
    ensures Reaches(s, a, b)
  {
    var p :| PathBetween(r, p, a, b);
    assert PathBetween(s, p, a, b);
  }

  lemma AcyclicSubset(r: Pairs, s: Pairs)
    requires r <= s && Acyclic(s)
    ensures Acyclic(r)
  {
    forall a, b | (a, b) in r ensures !Reaches(r, b, a) {
      if Reaches(r, b, a) {
        Monotone(r, s, b, a);
      }
    }
  }

  /** In an acyclic relation every nonempty finite set has a member without a
      predecessor in the set. */
  lemma {:induction false} MinimalMember(r: Pairs, u: set<nat>) returns (m: nat)
    requires Acyclic(r) && u != {}
    ensures m in u && forall p :: p in u ==> (p, m) !in r
    decreases |u|
  {
    var top :| top in u;
    var above := set x | x in u && x != top && Reaches(r, x, top);
    if above == {} {
      m := top;
      Refl(r, m);
      forall p | p in u ensures (p, m) !in r {
        assert p != top && Reaches(r, p, top) ==> p in above;
        if (p, m) in r {
          Step(r, p, m);
        }
      }
    } else {
      assert above <= u - {top};
      Smaller(above, u, top);
      m := MinimalMember(r, above);
      forall p | p in u ensures (p, m) !in r {
        assert p != top && Reaches(r, p, top) ==> p in above;
        if (p, m) in r {
          Step(r, p, m);
          Trans(r, p, m, top);
        }
      }
    }
  }

  ghost function Inverse(r: Pairs): Pairs {
    set pair | pair in r :: (pair.1, pair.0)
  }

  lemma InverseOf(r: Pairs, a: nat, b: nat)
    ensures (a, b) in Inverse(r) <==> (b, a) in r
  {
    if (b, a) in r {
      var pair := (b, a);
      assert (pair.1, pair.0) in Inverse(r);
    }
  }

  lemma {:induction false} ReachesInverse(r: Pairs, p: seq<nat>, a: nat, b: nat)
    requires PathBetween(Inverse(r), p, a, b)
    ensures Reaches(r, b, a)
  {
    if |p| == 1 {
      Refl(r, a);
    } else {
      assert (p[0], p[1]) in Inverse(r);
      InverseOf(r, p[0], p[1]);
      assert PathBetween(Inverse(r), p[1..], p[1], b);
      ReachesInverse(r, p[1..], p[1], b);
      Step(r, p[1], a);
      Trans(r, b, p[1], a);
    }
  }

  /** ... and a member without a successor in the set. */
  lemma MaximalMember(r: Pairs, u: set<nat>) returns (m: nat)
    requires Acyclic(r) && u != {}
    ensures m in u && forall s :: s in u ==> (m, s) !in r
  {
    forall a, b | (a, b) in Inverse(r) ensures !Reaches(Inverse(r), b, a) {
      InverseOf(r, a, b);
      if Reaches(Inverse(r), b, a) {
        var p :| PathBetween(Inverse(r), p, b, a);
        ReachesInverse(r, p, b, a);
      }
    }
    m := MinimalMember(Inverse(r), u);
    forall s | s in u ensures (m, s) !in r {
      InverseOf(r, s, m);
    }
  }
}
