/** The worklist closure over parent links, which may be cyclic or point nowhere. */
module Descendants {

  /** k parent links lead from j to root. */
  ghost predicate Climbs(parent: map<string, string>, j: string, root: string, k: nat)
    decreases k
  {
    if k == 0 then j == root else j in parent && Climbs(parent, parent[j], root, k - 1)
  }

  /** j is one of the roots or a descendant of one: the reflexive-transitive closure of parent. */
  ghost predicate Within(parent: map<string, string>, j: string, roots: set<string>) {
    exists root, k: nat :: root in roots && Climbs(parent, j, root, k)
  }

  lemma ChildWithin(parent: map<string, string>, j: string, roots: set<string>)
    requires j in parent && Within(parent, parent[j], roots)
    ensures Within(parent, j, roots)
  {
    var root, k: nat :| root in roots && Climbs(parent, parent[j], root, k);
    assert Climbs(parent, j, root, k + 1);
  }

  lemma RootWithin(parent: map<string, string>, j: string, roots: set<string>)
    requires j in roots
    ensures Within(parent, j, roots)
  {
    assert Climbs(parent, j, j, 0);
  }

  ghost predicate ClosedUnderChildren(parent: map<string, string>, s: set<string>) {
    forall j | j in parent && parent[j] in s :: j in s
  }

  /** A closed set that holds the roots holds the whole closure. */
  lemma {:induction false} ClosedHoldsClosure(parent: map<string, string>, j: string, root: string, k: nat,
                                              s: set<string>)
    requires ClosedUnderChildren(parent, s) && root in s && Climbs(parent, j, root, k)
    ensures j in s
    decreases k
  {
    if k > 0 {
      ClosedHoldsClosure(parent, parent[j], root, k - 1, s);
    }
  }

  /** The jurisdictions directly below p. */
  function ChildSet(parent: map<string, string>, p: string): set<string> {
    set j | j in parent && parent[j] == p
  }

  function Below(children: map<string, set<string>>, p: string): set<string> {
    if p in children then children[p] else {}
  }

  ghost predicate IsChildren(parent: map<string, string>, children: map<string, set<string>>) {
    forall p :: Below(children, p) == ChildSet(parent, p)
  }

  /** children: each jurisdiction filed under its parent. */
  method ChildrenOf(parent: map<string, string>) returns (children: map<string, set<string>>)
    ensures IsChildren(parent, children)
  {
    children := map[];
    assert forall p :: Below(children, p) == {};
    var todo := parent.Keys;
    while todo != {}
      invariant todo <= parent.Keys
      invariant forall p, k :: k in Below(children, p) <==> k in parent && k !in todo && parent[k] == p
    {
      var j :| j in todo;
      var p := parent[j];
      ghost var before := children;
      children := children[p := Below(children, p) + {j}];
      assert forall q :: Below(children, q) == if q == p then Below(before, p) + {j} else Below(before, q);
      todo := todo - {j};
    }
    forall p ensures Below(children, p) == ChildSet(parent, p) {
      assert forall j :: j in Below(children, p) <==> j in ChildSet(parent, p);
    }
  }

  function Waiting(stack: seq<string>): set<string> {
    set j | j in stack
  }

  method Enumerate(s: set<string>) returns (xs: seq<string>)
    ensures Waiting(xs) == s
  {
    xs := [];
    var todo := s;
    while todo != {}
      invariant todo <= s
      invariant forall x :: x in xs <==> x in s && x !in todo
    {
      var x :| x in todo;
      xs := xs + [x];
      todo := todo - {x};
    }
  }

  /** The worklist invariant: everything met belongs, and what is missing is still on the stack. */
  ghost predicate Searching(parent: map<string, string>, roots: set<string>, seen: set<string>, waiting: set<string>) {
    && (forall j | j in seen + waiting :: Within(parent, j, roots))
    && seen + waiting <= roots + parent.Keys
    && roots <= seen + waiting
    && (forall j | j in parent && parent[j] in seen :: j in seen + waiting)
  }

  lemma Visit(parent: map<string, string>, roots: set<string>, seen: set<string>, rest: set<string>, current: string)
    requires Searching(parent, roots, seen, rest + {current})
    ensures Searching(parent, roots, seen + {current}, rest + ChildSet(parent, current))
    ensures current in roots + parent.Keys
  {
    forall j | j in ChildSet(parent, current) ensures Within(parent, j, roots) {
      ChildWithin(parent, j, roots);
    }
  }

  lemma Skip(parent: map<string, string>, roots: set<string>, seen: set<string>, rest: set<string>, current: string)
    requires Searching(parent, roots, seen, rest + {current}) && current in seen
    ensures Searching(parent, roots, seen, rest)
  {
    assert seen + (rest + {current}) == seen + rest;
  }

  lemma WaitingSplit(rest: seq<string>, top: string, more: seq<string>)
    ensures Waiting(rest + [top]) == Waiting(rest) + {top}
    ensures Waiting(rest + more) == Waiting(rest) + Waiting(more)
  {
  }

  lemma SearchEnds(parent: map<string, string>, roots: set<string>, seen: set<string>)
    requires Searching(parent, roots, seen, {})
    ensures forall j :: j in seen <==> Within(parent, j, roots)
  {
    forall j | Within(parent, j, roots) ensures j in seen {
      var root, k: nat :| root in roots && Climbs(parent, j, root, k);
      ClosedHoldsClosure(parent, j, root, k, seen);
    }
  }

  lemma SearchStarts(parent: map<string, string>, roots: set<string>)
    ensures Searching(parent, roots, {}, roots)
  {
    forall j | j in roots ensures Within(parent, j, roots) {
      RootWithin(parent, j, roots);
    }
  }

  /** with_descendants: terminates on every parent map and computes exactly the closure. */
  method WithDescendants(parent: map<string, string>, children: map<string, set<string>>, roots: set<string>)
    returns (seen: set<string>)
    requires IsChildren(parent, children)
    ensures forall j :: j in seen <==> Within(parent, j, roots)
  {
    seen := {};
    var stack := Enumerate(roots);
    SearchStarts(parent, roots);
    while stack != []
      invariant Searching(parent, roots, seen, Waiting(stack))
      decreases roots + parent.Keys - seen, |stack|
    {
      var rest, current := stack[..|stack| - 1], stack[|stack| - 1];
      assert stack == rest + [current];
      WaitingSplit(rest, current, []);
      if current !in seen {
        var more := Enumerate(Below(children, current));
        Visit(parent, roots, seen, Waiting(rest), current);
        WaitingSplit(rest, current, more);
        seen := seen + {current};
        stack := rest + more;
      } else {
        Skip(parent, roots, seen, Waiting(rest), current);
        stack := rest;
      }
    }
    assert Waiting(stack) == {};
    SearchEnds(parent, roots, seen);
  }
}
