/** The compiled obligations of an accepted graph, and what acceptance means. */
module KgCompiler {
  import opened Common
  import opened Descendants
  import opened KgGraph

  // ----------------------------------------------------- the graph's relations

  predicate Owns(byId: ById, edges: seq<Edge>, rule: string, ob: string) {
    Linked(edges, ConsistsOf, rule, ob) && IsKind(byId, rule, Rules)
  }

  /** Obligation or rule node scoped to a jurisdiction. */
  predicate ScopedToNode(byId: ById, edges: seq<Edge>, node: string, j: string) {
    Linked(edges, ScopedTo, node, j) && IsKind(byId, j, Jurisdictions)
  }

  predicate AppliesToNode(byId: ById, edges: seq<Edge>, rule: string, subject: string) {
    Linked(edges, AppliesTo, rule, subject) && IsKind(byId, rule, Rules) && IsKind(byId, subject, Subjects)
  }

  /** The jurisdictions an obligation names itself or through an owning rule. */
  ghost predicate RootOf(byId: ById, edges: seq<Edge>, ob: string, j: string) {
    || ScopedToNode(byId, edges, ob, j)
    || exists rule :: Owns(byId, edges, rule, ob) && ScopedToNode(byId, edges, rule, j)
  }

  /** Parent links between jurisdictions. */
  function Parents(byId: ById): map<string, string> {
    map id | id in byId && byId[id].kind.Jurisdictions? && byId[id].node.Node? && byId[id].node.parent.Some?
      :: byId[id].node.parent.value
  }

  function TierOf(byId: ById, rule: string): Option<Tier> {
    if rule in byId && byId[rule].node.Node? then byId[rule].node.riskTier else None
  }

  function Rank(t: Tier): nat {
    match t
    case High => 0
    case Medium => 1
    case Low => 2
  }

  /** What compilation promises about one obligation node. */
  ghost predicate IsCompiled(byId: ById, edges: seq<Edge>, node: Node, c: Compiled) {
    && node.Node? && node.id == Some(c.id) && node.obligationType == Some(c.predicate_) && node.metric == Some(c.metric)
    && c.effective == node.start && c.sunset == node.end
    && (forall rule :: rule in c.ruleIds <==> Owns(byId, edges, rule, c.id))
    && IsScope(byId, edges, c.id, c.jurisdiction)
    && IsStrictest(byId, c.ruleIds, c.tier)
    && IsRouting(byId, edges, c.id, c.subjects)
  }

  /** No root means no restriction; otherwise the roots and all their descendants. */
  ghost predicate IsScope(byId: ById, edges: seq<Edge>, ob: string, scope: Option<set<string>>) {
    && (scope.None? <==> forall j :: !RootOf(byId, edges, ob, j))
    && (scope.Some? ==> forall j :: j in scope.value <==> InScopeOf(byId, edges, ob, j))
  }

  /** j reaches, by zero or more parent links, a jurisdiction the obligation names. */
  ghost predicate InScopeOf(byId: ById, edges: seq<Edge>, ob: string, j: string) {
    exists root, k: nat :: RootOf(byId, edges, ob, root) && Climbs(Parents(byId), j, root, k)
  }

  ghost predicate IsStrictest(byId: ById, rules: seq<string>, tier: Option<Tier>) {
    && (tier.None? <==> forall r | r in rules :: TierOf(byId, r).None?)
    && (tier.Some? ==> exists r :: r in rules && TierOf(byId, r) == tier)
    && (tier.Some? ==>
          forall r | r in rules && TierOf(byId, r).Some? :: Rank(tier.value) <= Rank(TierOf(byId, r).value))
  }

  /** Routed only if every owning rule, and there is one, names its subjects. */
  ghost predicate IsRouting(byId: ById, edges: seq<Edge>, ob: string, subjects: Option<set<string>>) {
    && (subjects.None? <==>
          (forall rule :: !Owns(byId, edges, rule, ob)) ||
          (exists rule :: Owns(byId, edges, rule, ob) && forall s :: !AppliesToNode(byId, edges, rule, s)))
    && (subjects.Some? ==>
          forall s :: s in subjects.value <==>
            exists rule :: Owns(byId, edges, rule, ob) && AppliesToNode(byId, edges, rule, s))
  }

  // -------------------------------------------------------------- computation

  /** roots |= scoped.get(rule) for the obligation and each owning rule. */
  method ScopeRoots(byId: ById, edges: seq<Edge>, l: Links, ob: string) returns (roots: set<string>)
    requires IsLinks(byId, edges, l)
    ensures forall j :: j in roots <==> RootOf(byId, edges, ob, j)
  {
    var rules := Owners(l, ob);
    roots := Of(l.scoped, ob);
    var i := 0;
    while i < |rules|
      invariant 0 <= i <= |rules|
      invariant forall j :: j in roots <==>
                  j in Of(l.scoped, ob) || exists k :: 0 <= k < i && j in Of(l.scoped, rules[k])
    {
      roots := roots + Of(l.scoped, rules[i]);
      i := i + 1;
    }
    forall j ensures j in roots <==> RootOf(byId, edges, ob, j) {
      assert j in Of(l.scoped, ob) <==> ScopedToNode(byId, edges, ob, j);
      if k :| 0 <= k < |rules| && j in Of(l.scoped, rules[k]) {
        assert rules[k] in rules && Owns(byId, edges, rules[k], ob) && ScopedToNode(byId, edges, rules[k], j);
      }
      if rule :| Owns(byId, edges, rule, ob) && ScopedToNode(byId, edges, rule, j) {
        assert rule in rules;
      }
    }
  }

  method StrictestTier(byId: ById, rules: seq<string>) returns (tier: Option<Tier>)
    ensures IsStrictest(byId, rules, tier)
  {
    tier := None;
    var i := 0;
    while i < |rules|
      invariant 0 <= i <= |rules|
      invariant IsStrictest(byId, rules[..i], tier)
    {
      assert rules[..i + 1] == rules[..i] + [rules[i]];
      var t := TierOf(byId, rules[i]);
      if t.Some? && (tier.None? || Rank(t.value) < Rank(tier.value)) {
        tier := t;
      }
      i := i + 1;
    }
    assert rules[..i] == rules;
  }

  method Routing(byId: ById, edges: seq<Edge>, l: Links, ob: string) returns (subjects: Option<set<string>>)
    requires IsLinks(byId, edges, l)
    ensures IsRouting(byId, edges, ob, subjects)
  {
    var rules := Owners(l, ob);
    assert forall rule :: rule in rules <==> Owns(byId, edges, rule, ob);
    forall rule | Owns(byId, edges, rule, ob)
      ensures rule in l.applies <==> exists s :: AppliesToNode(byId, edges, rule, s)
    {
      if rule in l.applies {
        var s :| s in l.applies[rule];
        assert AppliesToNode(byId, edges, rule, s);
      }
    }
    if rules == [] || exists i :: 0 <= i < |rules| && rules[i] !in l.applies {
      if rules != [] {
        ghost var i :| 0 <= i < |rules| && rules[i] !in l.applies;
        assert rules[i] in rules;
      }
      return None;
    }
    assert rules[0] in rules;
    var all: set<string> := {};
    var i := 0;
    while i < |rules|
      invariant 0 <= i <= |rules|
      invariant forall s :: s in all <==> exists k :: 0 <= k < i && s in l.applies[rules[k]]
    {
      all := all + l.applies[rules[i]];
      i := i + 1;
    }
    forall s ensures s in all <==> exists rule :: Owns(byId, edges, rule, ob) && AppliesToNode(byId, edges, rule, s) {
      if s in all {
        var k :| 0 <= k < |rules| && s in l.applies[rules[k]];
        assert rules[k] in rules && AppliesToNode(byId, edges, rules[k], s);
      }
      if rule :| Owns(byId, edges, rule, ob) && AppliesToNode(byId, edges, rule, s) {
        assert rule in rules;
      }
    }
    return Some(all);
  }

  lemma ScopeIsClosure(byId: ById, edges: seq<Edge>, ob: string, roots: set<string>, scope: set<string>)
    requires forall j :: j in roots <==> RootOf(byId, edges, ob, j)
    requires forall j :: j in scope <==> Within(Parents(byId), j, roots)
    requires roots != {}
    ensures IsScope(byId, edges, ob, Some(scope))
  {
    var root :| root in roots;
    assert RootOf(byId, edges, ob, root);
    forall j ensures j in scope <==> InScopeOf(byId, edges, ob, j) {
      if Within(Parents(byId), j, roots) {
        var r, k: nat :| r in roots && Climbs(Parents(byId), j, r, k);
        assert RootOf(byId, edges, ob, r);
      }
      if InScopeOf(byId, edges, ob, j) {
        var r, k: nat :| RootOf(byId, edges, ob, r) && Climbs(Parents(byId), j, r, k);
        assert r in roots;
      }
    }
  }

  method CompileScope(byId: ById, edges: seq<Edge>, l: Links, children: map<string, set<string>>, ob: string)
    returns (scope: Option<set<string>>)
    requires IsLinks(byId, edges, l) && IsChildren(Parents(byId), children)
    ensures IsScope(byId, edges, ob, scope)
  {
    var roots := ScopeRoots(byId, edges, l, ob);
    if roots == {} {
      return None;
    }
    var closure := WithDescendants(Parents(byId), children, roots);
    ScopeIsClosure(byId, edges, ob, roots, closure);
    return Some(closure);
  }

  method CompileOne(byId: ById, edges: seq<Edge>, l: Links, children: map<string, set<string>>, node: Node)
    returns (r: Result<Compiled, Error>)
    requires IsLinks(byId, edges, l) && IsChildren(Parents(byId), children) && HasId(node)
    ensures r.Ok? <==> node.metric.Some? && node.obligationType.Some?
    ensures r.Ok? ==> IsCompiled(byId, edges, node, r.value)
    ensures r.Err? ==> r.error == MalformedObligation(node.id.value)
  {
    var id := node.id.value;
    if node.metric.None? || node.obligationType.None? {
      return Err(MalformedObligation(id));
    }
    var scope := CompileScope(byId, edges, l, children, id);
    var rules := Owners(l, id);
    assert forall rule :: rule in rules <==> Owns(byId, edges, rule, id);
    var tier := StrictestTier(byId, rules);
    var subjects := Routing(byId, edges, l, id);
    return Ok(Compiled(id, node.obligationType.value, node.metric.value, node.start, node.end, scope, tier, rules,
                       subjects));
  }

  // --------------------------------------------------------------- acceptance

  /** by_id as a function of the nodes read. */
  function IndexOf(es: seq<Entry>): ById {
    if es == [] then map[]
    else
      var last := es[|es| - 1];
      var init := IndexOf(es[..|es| - 1]);
      if HasId(last.node) then init[last.node.id.value := last] else init
  }

  lemma {:induction false} IndexOfIsById(es: seq<Entry>)
    requires GoodIds(es)
    ensures IsById(es, IndexOf(es))
  {
    if es != [] {
      var init, last := es[..|es| - 1], es[|es| - 1];
      assert es == init + [last];
      PrefixGood(init, [last]);
      IndexOfIsById(init);
      assert forall i | 0 <= i < |init| :: init[i] == es[i];
      forall k | k in IndexOf(es) ensures exists i :: 0 <= i < |es| && es[i].node.id.value == k {
        if k != last.node.id.value {
          var i :| 0 <= i < |init| && init[i].node.id.value == k;
          assert es[i].node.id.value == k;
        }
      }
    }
  }

  lemma ByIdUnique(es: seq<Entry>, byId: ById)
    requires IsById(es, byId)
    ensures byId == IndexOf(es)
  {
    IndexOfIsById(es);
    forall id | id in byId ensures id in IndexOf(es) && IndexOf(es)[id] == byId[id] {
      var i :| 0 <= i < |es| && es[i].node.id.value == id;
    }
    forall id | id in IndexOf(es) ensures id in byId {
      var i :| 0 <= i < |es| && es[i].node.id.value == id;
    }
  }

  function AllNodes(g: Graph): seq<Entry>
    requires g.nodes.Some?
  {
    Flatten(g.nodes.value, NODE_KINDS)
  }

  /** The graph's nodes by id. */
  function NodeIndex(g: Graph): ById
    requires g.nodes.Some?
  {
    IndexOf(AllNodes(g))
  }

  ghost predicate KnownLists(nodes: map<Kind, NodeList>) {
    forall k | k in nodes :: !k.UnknownKind?
  }

  ghost predicate EdgesOk(byId: ById, edges: seq<Edge>) {
    forall i | 0 <= i < |edges| :: EdgeOk(byId, edges[i])
  }

  /** Every rule consists of at least one obligation node. */
  ghost predicate RulesCovered(byId: ById, edges: seq<Edge>) {
    forall rule | IsKind(byId, rule, Rules) ::
      exists ob :: IsKind(byId, ob, Obligations) && Linked(edges, ConsistsOf, rule, ob)
  }

  ghost predicate ObligationsOk(items: seq<Node>) {
    && items != []
    && forall i | 0 <= i < |items| :: items[i].Node? && items[i].metric.Some? && items[i].obligationType.Some?
  }

  /** Exactly what compile_graph demands of a graph. */
  ghost predicate Acceptable(g: Graph) {
    && g.nodes.Some? && g.edges.Some?
    && KnownLists(g.nodes.value)
    && ListsAreArrays(g.nodes.value, NODE_KINDS)
    && GoodIds(AllNodes(g))
    && EdgesOk(NodeIndex(g), g.edges.value)
    && RulesCovered(NodeIndex(g), g.edges.value)
    && ObligationsOk(Items(g.nodes.value, Obligations))
  }

  method UncoveredRules(byId: ById, edges: seq<Edge>, l: Links) returns (empty: set<string>)
    requires IsLinks(byId, edges, l)
    ensures empty == {} <==> RulesCovered(byId, edges)
  {
    var ruled := set ob, rule | ob in l.owners && IsKind(byId, ob, Obligations) && rule in l.owners[ob] :: rule;
    empty := set rule | rule in byId && byId[rule].kind.Rules? && rule !in ruled;
    forall rule | IsKind(byId, rule, Rules)
      ensures rule in ruled <==> exists ob :: IsKind(byId, ob, Obligations) && Linked(edges, ConsistsOf, rule, ob)
    {
      if ob :| IsKind(byId, ob, Obligations) && Linked(edges, ConsistsOf, rule, ob) {
        assert ob in l.owners && rule in l.owners[ob];
      }
    }
    if empty != {} {
      ghost var rule :| rule in empty;
      assert IsKind(byId, rule, Rules) && rule !in ruled;
    } else {
      forall rule | IsKind(byId, rule, Rules) ensures rule in ruled {
        assert rule !in empty;
      }
    }
  }

  lemma {:induction false} ConcatHolds(f: Kind -> seq<Entry>, kinds: seq<Kind>, k: nat, e: Entry)
    requires k < |kinds| && e in f(kinds[k])
    ensures e in ConcatMap(f, kinds)
    decreases |kinds|
  {
    var last := |kinds| - 1;
    if k < last {
      assert kinds[..last][k] == kinds[k];
      ConcatHolds(f, kinds[..last], k, e);
    }
  }

  lemma FlattenHolds(nodes: map<Kind, NodeList>, kinds: seq<Kind>, k: nat, i: nat)
    requires k < |kinds| && i < |Items(nodes, kinds[k])|
    ensures Entry(kinds[k], Items(nodes, kinds[k])[i]) in Flatten(nodes, kinds)
  {
    var f := (kind: Kind) => Tagged(kind, Items(nodes, kind));
    FlattenIsConcat(nodes, f, kinds);
    assert f(kinds[k])[i] == Entry(kinds[k], Items(nodes, kinds[k])[i]);
    ConcatHolds(f, kinds, k, Entry(kinds[k], Items(nodes, kinds[k])[i]));
  }

  lemma {:induction false} EntryListed(nodes: map<Kind, NodeList>, kinds: seq<Kind>, e: Entry)
    requires e in Flatten(nodes, kinds)
    ensures e.kind in kinds && e.node in Items(nodes, e.kind)
    decreases |kinds|
  {
    var last := |kinds| - 1;
    var part := Tagged(kinds[last], Items(nodes, kinds[last]));
    if e in Flatten(nodes, kinds[..last]) {
      EntryListed(nodes, kinds[..last], e);
    } else {
      var i :| 0 <= i < |part| && part[i] == e;
    }
  }

  lemma ListedHaveIds(g: Graph, k: nat)
    requires g.nodes.Some? && k < |NODE_KINDS| && GoodIds(AllNodes(g))
    ensures forall n | n in Items(g.nodes.value, NODE_KINDS[k]) :: HasId(n) &&
              IsKind(NodeIndex(g), n.id.value, NODE_KINDS[k]) && NodeIndex(g)[n.id.value].node == n
  {
    IndexOfIsById(AllNodes(g));
    var items := Items(g.nodes.value, NODE_KINDS[k]);
    forall n | n in items
      ensures HasId(n) && IsKind(NodeIndex(g), n.id.value, NODE_KINDS[k]) && NodeIndex(g)[n.id.value].node == n
    {
      var i :| 0 <= i < |items| && items[i] == n;
      FlattenHolds(g.nodes.value, NODE_KINDS, k, i);
      var p :| 0 <= p < |AllNodes(g)| && AllNodes(g)[p] == Entry(NODE_KINDS[k], n);
    }
  }

  /** What compilation promises about all obligations: one each, in the order of the nodes. */
  ghost predicate IsCompilation(g: Graph, obs: seq<Compiled>)
    requires Acceptable(g)
  {
    var items := Items(g.nodes.value, Obligations);
    |obs| == |items| &&
    forall i | 0 <= i < |items| :: IsCompiled(NodeIndex(g), g.edges.value, items[i], obs[i])
  }

  method CompileAll(byId: ById, edges: seq<Edge>, l: Links, items: seq<Node>) returns (r: Result<seq<Compiled>, Error>)
    requires IsLinks(byId, edges, l) && forall n | n in items :: HasId(n)
    ensures r.Ok? <==> ObligationsOk(items)
    ensures r.Err? ==> if items == [] then r.error == NoObligations else r.error.MalformedObligation?
    ensures r.Ok? ==>
              |r.value| == |items| && forall i | 0 <= i < |items| :: IsCompiled(byId, edges, items[i], r.value[i])
  {
    var children := ChildrenOf(Parents(byId));
    var obs: seq<Compiled> := [];
    var i := 0;
    while i < |items|
      invariant 0 <= i == |obs| <= |items|
      invariant forall k | 0 <= k < i :: items[k].Node? && items[k].metric.Some? && items[k].obligationType.Some?
      invariant forall k | 0 <= k < i :: IsCompiled(byId, edges, items[k], obs[k])
    {
      var one := CompileOne(byId, edges, l, children, items[i]);
      if one.Err? {
        return Err(one.error);
      }
      obs := obs + [one.value];
      i := i + 1;
    }
    if obs == [] {
      return Err(NoObligations);
    }
    return Ok(obs);
  }

  /** Which check refuses the graph, in the order they are made. */
  ghost predicate Refused(g: Graph, error: Error) {
    if g.nodes.None? then error == NodesNotObject
    else if g.edges.None? then error == EdgesNotArray
    else if !KnownLists(g.nodes.value) then error == UnknownNodeList
    else if !ListsAreArrays(g.nodes.value, NODE_KINDS) || !GoodIds(AllNodes(g)) then
      || (error.ListNotArray? && !ListsAreArrays(g.nodes.value, NODE_KINDS))
      || (BadId(error) && !GoodIds(AllNodes(g)))
    else if !EdgesOk(NodeIndex(g), g.edges.value) then
      exists i :: 0 <= i < |g.edges.value| && BadEdge(NodeIndex(g), g.edges.value, i, error)
    else if !RulesCovered(NodeIndex(g), g.edges.value) then error.RuleWithoutObligation?
    else if Items(g.nodes.value, Obligations) == [] then error == NoObligations
    else error.MalformedObligation?
  }

  /** The checks once the nodes are indexed: edges, rules, obligations. */
  method CompileIndexed(g: Graph, byId: ById) returns (r: Result<seq<Compiled>, Error>)
    requires g.nodes.Some? && g.edges.Some? && KnownLists(g.nodes.value) && ListsAreArrays(g.nodes.value, NODE_KINDS)
    requires GoodIds(AllNodes(g)) && byId == NodeIndex(g)
    ensures r.Ok? <==> Acceptable(g)
    ensures r.Ok? ==> IsCompilation(g, r.value)
    ensures r.Err? ==> Refused(g, r.error)
  {
    var nodes, edges := g.nodes.value, g.edges.value;
    var links := IndexEdges(edges, byId);
    if links.Err? {
      return Err(links.error);
    }
    var empty := UncoveredRules(byId, edges, links.value);
    if empty != {} {
      var rule :| rule in empty;
      return Err(RuleWithoutObligation(rule));
    }
    assert NODE_KINDS[2] == Obligations;
    ListedHaveIds(g, 2);
    r := CompileAll(byId, edges, links.value, Items(nodes, Obligations));
  }

  /** compile_graph: accepted exactly when Acceptable and then compiled as promised, else refused by the first check. */
  method CompileGraph(g: Graph) returns (r: Result<seq<Compiled>, Error>)
    ensures r.Ok? <==> Acceptable(g)
    ensures r.Ok? ==> IsCompilation(g, r.value)
    ensures r.Err? ==> Refused(g, r.error)
  {
    if g.nodes.None? {
      return Err(NodesNotObject);
    }
    if g.edges.None? {
      return Err(EdgesNotArray);
    }
    var nodes := g.nodes.value;
    if exists k :: k in nodes && k.UnknownKind? {
      return Err(UnknownNodeList);
    }
    var index := IndexNodes(nodes, NODE_KINDS);
    if index.Err? {
      return Err(index.error);
    }
    ByIdUnique(AllNodes(g), index.value);
    r := CompileIndexed(g, index.value);
  }
}
