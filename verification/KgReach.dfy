/** Which obligations a measurement is judged by, read off the lists and edges of the graph itself. */
module KgReach {
  import opened Common
  import opened Descendants
  import opened KgGraph
  import opened KgCompiler
  import opened KgScope

  // ---------------------------------------------------------- the graph as given

  /** The list of the kind has a node of this id. */
  ghost predicate Listed(g: Graph, kind: Kind, id: string)
    requires g.nodes.Some?
  {
    exists n :: n in Items(g.nodes.value, kind) && n.Node? && n.id == Some(id)
  }

  ghost predicate HasEdge(g: Graph, kind: EdgeKind, source: string, target: string)
    requires g.edges.Some?
  {
    exists i :: 0 <= i < |g.edges.value| && g.edges.value[i] == Edge(Some(kind), Some(source), Some(target))
  }

  /** A rule that consists of the obligation. */
  ghost predicate OwnedBy(g: Graph, ob: string, rule: string)
    requires g.nodes.Some? && g.edges.Some?
  {
    Listed(g, Rules, rule) && HasEdge(g, ConsistsOf, rule, ob)
  }

  /** A jurisdiction the obligation, or a rule that owns it, is scoped to. */
  ghost predicate Named(g: Graph, ob: string, j: string)
    requires g.nodes.Some? && g.edges.Some?
  {
    && Listed(g, Jurisdictions, j)
    && (HasEdge(g, ScopedTo, ob, j) || exists rule :: OwnedBy(g, ob, rule) && HasEdge(g, ScopedTo, rule, j))
  }

  /** A jurisdiction node whose parent field is the next id. */
  ghost predicate ParentStep(g: Graph, j: string, parent: string)
    requires g.nodes.Some?
  {
    exists n :: n in Items(g.nodes.value, Jurisdictions) && n.Node? && n.id == Some(j) && n.parent == Some(parent)
  }

  /** Ids, each the parent of the one before it. */
  ghost predicate Ancestry(g: Graph, path: seq<string>)
    requires g.nodes.Some?
  {
    path != [] && forall k | 0 <= k < |path| - 1 :: ParentStep(g, path[k], path[k + 1])
  }

  /** The jurisdiction is, or lies below, one the obligation names. */
  ghost predicate Governs(g: Graph, ob: string, j: string)
    requires g.nodes.Some? && g.edges.Some?
  {
    exists path :: Ancestry(g, path) && path[0] == j && Named(g, ob, path[|path| - 1])
  }

  /** The rule applies to the subject. */
  ghost predicate Addresses(g: Graph, rule: string, subject: string)
    requires g.nodes.Some? && g.edges.Some?
  {
    Listed(g, Subjects, subject) && HasEdge(g, AppliesTo, rule, subject)
  }

  /** The rule declares the tier. */
  ghost predicate Declares(g: Graph, rule: string, tier: Tier)
    requires g.nodes.Some?
  {
    exists n :: n in Items(g.nodes.value, Rules) && n.Node? && n.id == Some(rule) && n.riskTier == Some(tier)
  }

  /** A rule of the obligation declares the tier. */
  ghost predicate Rated(g: Graph, ob: string, tier: Tier)
    requires g.nodes.Some? && g.edges.Some?
  {
    exists rule :: OwnedBy(g, ob, rule) && Declares(g, rule, tier)
  }

  // ------------------------------------------------- the index says the same

  lemma KindHasList(kind: Kind) returns (k: nat)
    requires !kind.UnknownKind?
    ensures k < |NODE_KINDS| && NODE_KINDS[k] == kind
  {
    k := match kind
      case Subjects => 0
      case Rules => 1
      case Obligations => 2
      case Definitions => 3
      case Exemptions => 4
      case Precedents => 5
      case Jurisdictions => 6
      case Citations => 7;
  }

  lemma IndexedNode(g: Graph, id: string)
    requires Acceptable(g) && id in NodeIndex(g)
    ensures var e := NodeIndex(g)[id]; e.node in Items(g.nodes.value, e.kind) && e.node.Node? && e.node.id == Some(id)
  {
    IndexOfIsById(AllNodes(g));
    var p :| 0 <= p < |AllNodes(g)| && AllNodes(g)[p].node.id.value == id;
    EntryListed(g.nodes.value, NODE_KINDS, AllNodes(g)[p]);
  }

  lemma ListedNode(g: Graph, kind: Kind, n: Node)
    requires Acceptable(g) && !kind.UnknownKind? && n in Items(g.nodes.value, kind)
    ensures HasId(n) && IsKind(NodeIndex(g), n.id.value, kind) && NodeIndex(g)[n.id.value].node == n
  {
    var k := KindHasList(kind);
    ListedHaveIds(g, k);
  }

  lemma KindIsListed(g: Graph, kind: Kind, id: string)
    requires Acceptable(g) && !kind.UnknownKind?
    ensures IsKind(NodeIndex(g), id, kind) <==> Listed(g, kind, id)
  {
    if IsKind(NodeIndex(g), id, kind) {
      IndexedNode(g, id);
    }
    if n :| n in Items(g.nodes.value, kind) && n.Node? && n.id == Some(id) {
      ListedNode(g, kind, n);
    }
  }

  lemma EdgeIsLinked(g: Graph, kind: EdgeKind, source: string, target: string)
    requires g.edges.Some?
    ensures Linked(g.edges.value, kind, source, target) <==> HasEdge(g, kind, source, target)
  {
  }

  lemma OwnsMeans(g: Graph, ob: string, rule: string)
    requires Acceptable(g)
    ensures Owns(NodeIndex(g), g.edges.value, rule, ob) <==> OwnedBy(g, ob, rule)
  {
    KindIsListed(g, Rules, rule);
    EdgeIsLinked(g, ConsistsOf, rule, ob);
  }

  lemma ScopedMeans(g: Graph, node: string, j: string)
    requires Acceptable(g)
    ensures ScopedToNode(NodeIndex(g), g.edges.value, node, j) <==>
            Listed(g, Jurisdictions, j) && HasEdge(g, ScopedTo, node, j)
  {
    KindIsListed(g, Jurisdictions, j);
    EdgeIsLinked(g, ScopedTo, node, j);
  }

  lemma AppliesMeans(g: Graph, ob: string, rule: string, subject: string)
    requires Acceptable(g) && OwnedBy(g, ob, rule)
    ensures AppliesToNode(NodeIndex(g), g.edges.value, rule, subject) <==> Addresses(g, rule, subject)
  {
    KindIsListed(g, Rules, rule);
    KindIsListed(g, Subjects, subject);
    EdgeIsLinked(g, AppliesTo, rule, subject);
  }

  lemma RootMeans(g: Graph, ob: string, j: string)
    requires Acceptable(g)
    ensures RootOf(NodeIndex(g), g.edges.value, ob, j) <==> Named(g, ob, j)
  {
    var (byId, edges) := (NodeIndex(g), g.edges.value);
    ScopedMeans(g, ob, j);
    if rule :| Owns(byId, edges, rule, ob) && ScopedToNode(byId, edges, rule, j) {
      OwnsMeans(g, ob, rule);
      ScopedMeans(g, rule, j);
    }
    if Listed(g, Jurisdictions, j) {
      if rule :| OwnedBy(g, ob, rule) && HasEdge(g, ScopedTo, rule, j) {
        OwnsMeans(g, ob, rule);
        ScopedMeans(g, rule, j);
      }
    }
  }

  lemma ParentMeans(g: Graph, j: string, parent: string)
    requires Acceptable(g)
    ensures j in Parents(NodeIndex(g)) && Parents(NodeIndex(g))[j] == parent <==> ParentStep(g, j, parent)
  {
    if j in Parents(NodeIndex(g)) {
      IndexedNode(g, j);
    }
    if n :| n in Items(g.nodes.value, Jurisdictions) && n.Node? && n.id == Some(j) && n.parent == Some(parent) {
      ListedNode(g, Jurisdictions, n);
    }
  }

  /** k parent links are a path of k + 1 ids. */
  lemma {:induction false} ClimbIsPath(g: Graph, j: string, root: string, k: nat) returns (path: seq<string>)
    requires Acceptable(g) && Climbs(Parents(NodeIndex(g)), j, root, k)
    ensures Ancestry(g, path) && path[0] == j && path[|path| - 1] == root
    decreases k
  {
    if k == 0 {
      path := [j];
    } else {
      var parent := Parents(NodeIndex(g))[j];
      var rest := ClimbIsPath(g, parent, root, k - 1);
      ParentMeans(g, j, parent);
      path := [j] + rest;
      forall i | 0 <= i < |path| - 1 ensures ParentStep(g, path[i], path[i + 1]) {
        if i > 0 {
          assert path[i] == rest[i - 1] && path[i + 1] == rest[i];
        }
      }
    }
  }

  lemma {:induction false} PathIsClimb(g: Graph, path: seq<string>)
    requires Acceptable(g) && Ancestry(g, path)
    ensures Climbs(Parents(NodeIndex(g)), path[0], path[|path| - 1], |path| - 1)
    decreases |path|
  {
    if |path| > 1 {
      assert ParentStep(g, path[0], path[1]);
      ParentMeans(g, path[0], path[1]);
      forall i | 0 <= i < |path[1..]| - 1 ensures ParentStep(g, path[1..][i], path[1..][i + 1]) {
        assert ParentStep(g, path[i + 1], path[i + 2]);
      }
      PathIsClimb(g, path[1..]);
    }
  }

  /** A compiled scope holds exactly the jurisdictions the graph leads up to a named one. */
  lemma ScopeMeans(g: Graph, ob: string, j: string)
    requires Acceptable(g)
    ensures InScopeOf(NodeIndex(g), g.edges.value, ob, j) <==> Governs(g, ob, j)
  {
    var (byId, edges) := (NodeIndex(g), g.edges.value);
    if InScopeOf(byId, edges, ob, j) {
      var root, k: nat :| RootOf(byId, edges, ob, root) && Climbs(Parents(byId), j, root, k);
      var path := ClimbIsPath(g, j, root, k);
      RootMeans(g, ob, root);
      assert Named(g, ob, path[|path| - 1]);
    }
    if Governs(g, ob, j) {
      var path :| Ancestry(g, path) && path[0] == j && Named(g, ob, path[|path| - 1]);
      PathIsClimb(g, path);
      RootMeans(g, ob, path[|path| - 1]);
    }
  }

  // ------------------------------------------------------------ what is compiled

  /** The tier of an obligation is the strictest that any of its rules declares, in the order high, medium, low. */
  lemma TierMeans(g: Graph, obs: seq<Compiled>, i: nat)
    requires Acceptable(g) && IsCompilation(g, obs) && i < |obs|
    ensures obs[i].tier ==
            if Rated(g, obs[i].id, High) then Some(High)
            else if Rated(g, obs[i].id, Medium) then Some(Medium)
            else if Rated(g, obs[i].id, Low) then Some(Low)
            else None
  {
    var (byId, edges, c) := (NodeIndex(g), g.edges.value, obs[i]);
    assert IsCompiled(byId, edges, Items(g.nodes.value, Obligations)[i], c);
    TierDeclared(g, c, High);
    TierDeclared(g, c, Medium);
    TierDeclared(g, c, Low);
    StrictestIsFirst(byId, c.ruleIds, c.tier);
  }

  lemma DeclaresMeans(g: Graph, rule: string, t: Tier)
    requires Acceptable(g) && Listed(g, Rules, rule)
    ensures TierOf(NodeIndex(g), rule) == Some(t) <==> Declares(g, rule, t)
  {
    KindIsListed(g, Rules, rule);
    IndexedNode(g, rule);
    if n :| n in Items(g.nodes.value, Rules) && n.Node? && n.id == Some(rule) && n.riskTier == Some(t) {
      ListedNode(g, Rules, n);
    }
  }

  lemma TierDeclared(g: Graph, c: Compiled, t: Tier)
    requires Acceptable(g) && forall rule :: rule in c.ruleIds <==> Owns(NodeIndex(g), g.edges.value, rule, c.id)
    ensures (exists r :: r in c.ruleIds && TierOf(NodeIndex(g), r) == Some(t)) <==> Rated(g, c.id, t)
  {
    if r :| r in c.ruleIds && TierOf(NodeIndex(g), r) == Some(t) {
      OwnsMeans(g, c.id, r);
      DeclaresMeans(g, r, t);
    }
    if rule :| OwnedBy(g, c.id, rule) && Declares(g, rule, t) {
      OwnsMeans(g, c.id, rule);
      DeclaresMeans(g, rule, t);
    }
  }

  lemma StrictestIsFirst(byId: ById, rules: seq<string>, tier: Option<Tier>)
    requires IsStrictest(byId, rules, tier)
    ensures tier ==
            if exists r :: r in rules && TierOf(byId, r) == Some(High) then Some(High)
            else if exists r :: r in rules && TierOf(byId, r) == Some(Medium) then Some(Medium)
            else if exists r :: r in rules && TierOf(byId, r) == Some(Low) then Some(Low)
            else None
  {
  }

  // -------------------------------------------------------------- what is kept

  /** The instant is not before a readable start, nor after a readable end. */
  ghost predicate InTime(rd: Reader, node: Node, asOf: int)
    requires node.Node?
  {
    && (forall from | node.start.Some? && rd.date(node.start.value) == Some(from) :: from <= asOf)
    && (forall until | node.end.Some? && rd.date(node.end.value) == Some(until) :: asOf <= until)
  }

  /** The request asks for this jurisdiction, up to case and blanks, or it is a universal one. */
  ghost predicate Asked(rd: Reader, wanted: string, j: string) {
    rd.fold(j) == rd.fold(wanted) || rd.fold(j) == "global" || rd.fold(j) == "*" || rd.fold(j) == ""
  }

  /** No jurisdiction is named, or one that the request asks for is, or lies below, a named one. */
  ghost predicate Reached(g: Graph, rd: Reader, ob: string, wanted: string)
    requires g.nodes.Some? && g.edges.Some?
  {
    || (forall j :: !Named(g, ob, j))
    || (exists j :: Governs(g, ob, j) && Asked(rd, wanted, j))
  }

  /** No rule owns the obligation, or one that does applies to the subject, or to no subject in particular. */
  ghost predicate Concerns(g: Graph, ob: string, subject: string)
    requires g.nodes.Some? && g.edges.Some?
  {
    || (forall rule :: !OwnedBy(g, ob, rule))
    || (exists rule :: OwnedBy(g, ob, rule) && forall s :: !Addresses(g, rule, s))
    || (exists rule :: OwnedBy(g, ob, rule) && Addresses(g, rule, subject))
  }

  lemma ReachedMeans(g: Graph, rd: Reader, ob: string, wanted: string)
    requires Acceptable(g)
    ensures var (byId, edges) := (NodeIndex(g), g.edges.value);
            (forall j :: !RootOf(byId, edges, ob, j)) || Reaches(rd, byId, edges, ob, wanted) <==>
            Reached(g, rd, ob, wanted)
  {
    var (byId, edges) := (NodeIndex(g), g.edges.value);
    forall j ensures RootOf(byId, edges, ob, j) <==> Named(g, ob, j) {
      RootMeans(g, ob, j);
    }
    forall j ensures InScopeOf(byId, edges, ob, j) <==> Governs(g, ob, j) {
      ScopeMeans(g, ob, j);
    }
    forall j ensures Admits(rd, wanted, j) <==> Asked(rd, wanted, j) {
    }
  }

  lemma ConcernsMeans(g: Graph, ob: string, subject: string)
    requires Acceptable(g)
    ensures AdmitsSubject(NodeIndex(g), g.edges.value, ob, subject) <==> Concerns(g, ob, subject)
  {
    var (byId, edges) := (NodeIndex(g), g.edges.value);
    forall rule ensures Owns(byId, edges, rule, ob) <==> OwnedBy(g, ob, rule) {
      OwnsMeans(g, ob, rule);
    }
    forall rule, s | OwnedBy(g, ob, rule) ensures AppliesToNode(byId, edges, rule, s) <==> Addresses(g, rule, s) {
      AppliesMeans(g, ob, rule, s);
    }
  }

  /**
   Scoping means reachability in the graph: a compiled obligation is kept exactly
   if its node is in force, its jurisdictions, closed under parent fields, reach
   the request, and its rules concern the subject.
   */
  lemma ScopeIsReachability(g: Graph, obs: seq<Compiled>, i: nat, rd: Reader, q: Query)
    requires Acceptable(g) && IsCompilation(g, obs) && i < |obs|
    ensures var node := Items(g.nodes.value, Obligations)[i];
            Kept(rd, q, obs[i]) <==>
              && InTime(rd, node, q.asOf)
              && (q.jurisdiction.None? || Reached(g, rd, node.id.value, q.jurisdiction.value))
              && (q.subject.None? || Concerns(g, node.id.value, q.subject.value))
  {
    KeptMeans(g, obs, i, rd, q);
    var node := Items(g.nodes.value, Obligations)[i];
    assert IsCompiled(NodeIndex(g), g.edges.value, node, obs[i]);
    if q.jurisdiction.Some? {
      ReachedMeans(g, rd, obs[i].id, q.jurisdiction.value);
    }
    if q.subject.Some? {
      ConcernsMeans(g, obs[i].id, q.subject.value);
    }
  }
}
