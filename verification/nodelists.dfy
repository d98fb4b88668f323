// Lists and sets of node numbers.
module NodeLists {
  ghost predicate Distinct(s: seq<nat>) {
    forall i, j :: 0 <= i < j < |s| ==> s[i] != s[j]
  }

  ghost predicate InRange(s: seq<nat>, n: nat) {
    forall i :: 0 <= i < |s| ==> s[i] < n
  }

  // Distinct node numbers: no more of them than nodes.
  lemma DistinctBounded(s: seq<nat>, n: nat)
    requires Distinct(s) && forall i :: 0 <= i < |s| ==> s[i] < n
    ensures |s| <= n
  {
    SizeOfDistinct(s);
    SizeBelow(Members(s), n);
  }

  lemma {:induction false} SizeOfDistinct(s: seq<nat>)
    requires Distinct(s)
    ensures |Members(s)| == |s|
  {
    if s != [] {
      var front := s[..|s| - 1];
      SizeOfDistinct(front);
      assert Members(s) == Members(front) + {s[|s| - 1]};
    }
  }

  lemma {:induction false} SizeBelow(s: set<nat>, n: nat)
    requires forall x :: x in s ==> x < n
    ensures |s| <= n
  {
    if n == 0 {
      assert forall x :: x !in s;
    } else {
      SizeBelow(s - {n - 1}, n - 1);
      Subset(s, (s - {n - 1}) + {n - 1});
    }
  }

  lemma OneMore(s: seq<nat>, i: nat)
    requires i < |s|
    ensures s[..i + 1] == s[..i] + [s[i]]
  {
  }

  /** Put a node at the end of a queue. */
  method PutLast(queue: array<nat>, tail: nat, node: nat)
    requires tail < queue.Length
    modifies queue
    ensures queue[..tail + 1] == old(queue[..tail]) + [node]
  {
    queue[tail] := node;
    assert queue[..tail + 1] == queue[..tail] + [node];
  }

  ghost function Members(s: seq<nat>): set<nat> {
    set x | x in s
  }

  lemma MembersMore(s: seq<nat>, i: nat)
    requires i < |s|
    ensures Members(s[..i + 1]) == Members(s[..i]) + {s[i]}
  {
    OneMore(s, i);
  }

  lemma {:induction false} AllNodes(s: set<nat>, n: nat)
    requires forall x: nat :: x in s <==> x < n
    ensures |s| == n
  {
    if n == 0 {
      assert forall x :: x in s ==> x < 0;
      assert s == {};
    } else {
      AllNodes(s - {n - 1}, n - 1);
    }
  }

  lemma Smaller(a: set<nat>, u: set<nat>, x: nat)
    requires a <= u - {x} && x in u
    ensures |a| < |u|
  {
    Subset(a, u - {x});
  }

  lemma Subset(a: set<nat>, b: set<nat>)
    requires a <= b
    ensures |a| <= |b|
  {
    assert b == a + (b - a);
  }

  lemma DistinctConcat(s: seq<nat>, t: seq<nat>)
    requires Distinct(s) && Distinct(t) && forall x :: x in t ==> x !in s
    ensures Distinct(s + t)
  {
    var u := s + t;
    forall i, j | 0 <= i < j < |u| ensures u[i] != u[j] {
      if i < |s| <= j {
        assert u[i] in s && u[j] == t[j - |s|] && u[j] in t;
      }
    }
  }

  // One more distinct number still fits.
  lemma RoomFor(s: seq<nat>, x: nat, n: nat)
    requires Distinct(s) && InRange(s, n) && x < n && x !in s
    ensures |s| < n && Distinct(s + [x]) && InRange(s + [x], n)
  {
    DistinctBounded(s + [x], n);
  }
}
