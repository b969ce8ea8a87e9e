/** Where the authoring-time validator and the runtime compiler agree, and where only one of them looks. */
module KgAgreement {
  import opened Common
  import opened KgGraph
  import opened KgCompiler
  import opened KgValidator
  import P = Predicates

  /** Where part k stands in the concatenation. */
  lemma {:induction false} Segment(f: Kind -> seq<Entry>, kinds: seq<Kind>, k: nat) returns (offset: nat)
    requires k < |kinds|
    ensures offset + |f(kinds[k])| <= |ConcatMap(f, kinds)|
    ensures ConcatMap(f, kinds)[offset..offset + |f(kinds[k])|] == f(kinds[k])
    decreases |kinds|
  {
    var last := |kinds| - 1;
    if k < last {
      assert kinds[..last][k] == kinds[k];
      offset := Segment(f, kinds[..last], k);
    } else {
      offset := |ConcatMap(f, kinds[..last])|;
    }
  }

  /** Where ids are unique, the validator's types are the compiler's kinds. */
  lemma {:induction false} TypesAreKinds(es: seq<Entry>)
    requires AllHaveIds(es)
    ensures NodeTypes(es).Keys == IndexOf(es).Keys
    ensures forall id | id in NodeTypes(es) :: NodeTypes(es)[id] == IndexOf(es)[id].kind
  {
    if es != [] {
      assert forall i | 0 <= i < |es| - 1 :: es[..|es| - 1][i] == es[i];
      TypesAreKinds(es[..|es| - 1]);
    }
  }

  // ------------------------------------------------------------- clean graphs

  function TypesOf(g: Graph): map<string, Kind>
    requires g.nodes.Some?
  {
    NodeTypes(AllNodes(g))
  }

  ghost predicate CleanGraph(g: Graph) {
    SchemaValid(g) && NoHardIssue(g.nodes.value, g.edges.value, TypesOf(g))
  }

  lemma SchemaEdge(g: Graph, i: nat)
    requires SchemaValid(g) && i < |g.edges.value|
    ensures var e := g.edges.value[i];
            e.Edge? && e.kind.Some? && !e.kind.value.OtherEdge? && e.source.Some? && e.target.Some?
  {
  }

  lemma CleanEdgesOk(g: Graph)
    requires CleanGraph(g) && GoodIds(AllNodes(g))
    ensures EdgesOk(NodeIndex(g), g.edges.value)
  {
    TypesAreKinds(AllNodes(g));
    forall i | 0 <= i < |g.edges.value| ensures EdgeOk(NodeIndex(g), g.edges.value[i]) {
      SchemaEdge(g, i);
      assert EdgeDeclared(TypesOf(g), g.edges.value[i]);
    }
  }

  lemma RuleIsListed(g: Graph, rule: string) returns (n: Node)
    requires g.nodes.Some? && GoodIds(AllNodes(g)) && IsKind(NodeIndex(g), rule, Rules)
    ensures n in Items(g.nodes.value, Rules) && n.Node? && n.id == Some(rule)
  {
    var es := AllNodes(g);
    IndexOfIsById(es);
    var p :| 0 <= p < |es| && es[p].node.id.value == rule;
    EntryListed(g.nodes.value, NODE_KINDS, es[p]);
    n := es[p].node;
  }

  lemma CleanEdgeTarget(g: Graph, i: nat, rule: string) returns (ob: string)
    requires CleanGraph(g) && GoodIds(AllNodes(g)) && i < |g.edges.value| && g.edges.value[i].Edge?
    requires g.edges.value[i].kind == Some(ConsistsOf) && g.edges.value[i].source == Some(rule)
    ensures IsKind(NodeIndex(g), ob, Obligations) && Linked(g.edges.value, ConsistsOf, rule, ob)
  {
    TypesAreKinds(AllNodes(g));
    SchemaEdge(g, i);
    var e := g.edges.value[i];
    ob := e.target.value;
    assert EdgeDeclared(TypesOf(g), e) && EdgeTargetOk(TypesOf(g), e);
    assert e in g.edges.value;
  }

  lemma CleanRuleCovered(g: Graph, rule: string) returns (ob: string)
    requires CleanGraph(g) && GoodIds(AllNodes(g)) && IsKind(NodeIndex(g), rule, Rules)
    ensures IsKind(NodeIndex(g), ob, Obligations) && Linked(g.edges.value, ConsistsOf, rule, ob)
  {
    var n := RuleIsListed(g, rule);
    var edges := g.edges.value;
    assert RuleMentioned(edges, n.id.value);
    var i :| 0 <= i < |edges| && edges[i].Edge? && edges[i].kind == Some(ConsistsOf) && edges[i].source == Some(rule);
    ob := CleanEdgeTarget(g, i, rule);
  }

  lemma SchemaObligations(g: Graph)
    requires SchemaValid(g) && Items(g.nodes.value, Obligations) != []
    ensures ObligationsOk(Items(g.nodes.value, Obligations))
  {
    assert NODE_KINDS[2] == Obligations;
    var items := Items(g.nodes.value, Obligations);
    forall i | 0 <= i < |items| ensures items[i].Node? && items[i].metric.Some? && items[i].obligationType.Some? {
      assert TypedNode(NODE_KINDS[2], Items(g.nodes.value, NODE_KINDS[2])[i]);
    }
  }

  /**
   The validator and the compiler agree on clean graphs, apart from what the
   validator does not look at: empty ids, ids shared between two lists, and a
   graph without obligations.
   */
  lemma CleanMeansAccepted(g: Graph)
    requires CleanGraph(g)
    ensures Acceptable(g) <==> GoodIds(AllNodes(g)) && Items(g.nodes.value, Obligations) != []
  {
    if GoodIds(AllNodes(g)) && Items(g.nodes.value, Obligations) != [] {
      CleanEdgesOk(g);
      SchemaObligations(g);
      forall rule | IsKind(NodeIndex(g), rule, Rules)
        ensures exists ob :: IsKind(NodeIndex(g), ob, Obligations) && Linked(g.edges.value, ConsistsOf, rule, ob)
      {
        var ob := CleanRuleCovered(g, rule);
      }
    }
  }

  // ---------------------------------------------------------- accepted graphs

  lemma PartDistinct(es: seq<Entry>, offset: nat, part: seq<Entry>, i: nat, j: nat)
    requires GoodIds(es) && offset + |part| <= |es| && es[offset..offset + |part|] == part && i < j < |part|
    ensures part[i].node.Node? && part[j].node.Node? && part[i].node.id != part[j].node.id
  {
    assert es[offset..offset + |part|][i] == es[offset + i] && es[offset..offset + |part|][j] == es[offset + j];
  }

  lemma AcceptedLists(g: Graph, k: nat)
    requires g.nodes.Some? && GoodIds(AllNodes(g)) && k < |NODE_KINDS|
    ensures DistinctIn(Items(g.nodes.value, NODE_KINDS[k]))
  {
    var nodes, kind := g.nodes.value, NODE_KINDS[k];
    var items := Items(nodes, kind);
    var f := (kind: Kind) => Tagged(kind, Items(nodes, kind));
    FlattenIsConcat(nodes, f, NODE_KINDS);
    var offset := Segment(f, NODE_KINDS, k);
    forall i, j | 0 <= i < j < |items| && items[i].Node? && items[j].Node? ensures items[i].id != items[j].id {
      PartDistinct(AllNodes(g), offset, f(kind), i, j);
      assert f(kind)[i] == Entry(kind, items[i]) && f(kind)[j] == Entry(kind, items[j]);
    }
  }

  lemma AcceptedEdges(g: Graph)
    requires Acceptable(g)
    ensures !Undeclared(g.edges.value, TypesOf(g))
  {
    TypesAreKinds(AllNodes(g));
    forall i | 0 <= i < |g.edges.value| ensures EdgeDeclared(TypesOf(g), g.edges.value[i]) {
      assert EdgeOk(NodeIndex(g), g.edges.value[i]);
    }
  }

  lemma AcceptedRules(g: Graph)
    requires Acceptable(g)
    ensures AllRulesMentioned(g.nodes.value, g.edges.value)
  {
    assert NODE_KINDS[1] == Rules;
    ListedHaveIds(g, 1);
    forall n | n in Items(g.nodes.value, Rules) && n.Node? && n.id.Some?
      ensures RuleMentioned(g.edges.value, n.id.value)
    {
      assert IsKind(NodeIndex(g), n.id.value, Rules);
      var ob :| IsKind(NodeIndex(g), ob, Obligations) && Linked(g.edges.value, ConsistsOf, n.id.value, ob);
      var i :| 0 <= i < |g.edges.value| && g.edges.value[i] == Edge(Some(ConsistsOf), Some(n.id.value), Some(ob));
    }
  }

  /** A graph the runtime accepts raises no duplicate, dangling-edge or uncovered-rule issue. */
  lemma AcceptedMeansNoStructuralIssue(g: Graph)
    requires Acceptable(g)
    ensures !Repeating(g.nodes.value)
    ensures !Undeclared(g.edges.value, TypesOf(g))
    ensures AllRulesMentioned(g.nodes.value, g.edges.value)
  {
    forall k | 0 <= k < |NODE_KINDS| ensures DistinctIn(Items(g.nodes.value, NODE_KINDS[k])) {
      AcceptedLists(g, k);
    }
    AcceptedEdges(g);
    AcceptedRules(g);
  }

  // ---------------------------------------------------------------- the gap

  function Plain(id: string): Node {
    Node(Some(id), None, None, None, None, None, None)
  }

  /** One id in two lists: clean for the validator, refused by the compiler. */
  function SharedId(): Graph {
    Graph(
      Some(map[
        Subjects := Array([Plain("a")]),
        Obligations := Array([Node(Some("o"), Some("m"), Some("must"), None, None, Some("2026-01-01"), None)]),
        Jurisdictions := Array([Plain("a")])]),
      Some([]))
  }

  lemma SharedIdLists(k: nat)
    requires k < |NODE_KINDS|
    ensures var items := Items(SharedId().nodes.value, NODE_KINDS[k]);
            |items| <= 1 && forall i | 0 <= i < |items| :: TypedNode(NODE_KINDS[k], items[i])
  {
    assert "must" in OBLIGATION_TYPES;
  }

  /** Lists of at most one node each, no rules and no edges: nothing to report. */
  lemma NothingToReport(nodes: map<Kind, NodeList>, types: map<string, Kind>)
    requires Items(nodes, Rules) == [] && forall k | 0 <= k < |NODE_KINDS| :: |Items(nodes, NODE_KINDS[k])| <= 1
    ensures NoHardIssue(nodes, [], types)
  {
    forall k | 0 <= k < |NODE_KINDS| ensures DistinctIn(Items(nodes, NODE_KINDS[k])) {
    }
  }

  lemma SharedIdTyped()
    ensures SchemaValid(SharedId())
  {
    var nodes := SharedId().nodes.value;
    forall k, i | 0 <= k < |NODE_KINDS| && 0 <= i < |Items(nodes, NODE_KINDS[k])|
      ensures TypedNode(NODE_KINDS[k], Items(nodes, NODE_KINDS[k])[i])
    {
      SharedIdLists(k);
    }
  }

  lemma SharedIdIsClean()
    ensures CleanGraph(SharedId())
  {
    var g := SharedId();
    SharedIdTyped();
    forall k | 0 <= k < |NODE_KINDS| ensures |Items(g.nodes.value, NODE_KINDS[k])| <= 1 {
      SharedIdLists(k);
    }
    NothingToReport(g.nodes.value, TypesOf(g));
  }

  lemma SharedIdIsRefused()
    ensures !Acceptable(SharedId())
  {
    var g := SharedId();
    assert NODE_KINDS[0] == Subjects && NODE_KINDS[6] == Jurisdictions;
    assert Plain("a") in Items(g.nodes.value, Subjects) && Plain("a") in Items(g.nodes.value, Jurisdictions);
    if Acceptable(g) {
      ListedHaveIds(g, 0);
      ListedHaveIds(g, 6);
    }
  }

  // --------------------------------------------------- what both sides check

  /** The predicate an obligation type names. */
  function PredicateNamed(name: string): P.Predicate {
    match name
    case "must_not_exceed" => P.MustNotExceed
    case "must_be_at_least" => P.MustBeAtLeast
    case "must_be_below" => P.MustBeBelow
    case "must_be_above" => P.MustBeAbove
    case "must_be_within" => P.MustBeWithin
    case "must_be_one_of" => P.MustBeOneOf
    case "must_not_be_one_of" => P.MustNotBeOneOf
    case "must_equal" => P.MustEqual
    case "must_not_equal" => P.MustNotEqual
    case "must_average_within" => P.MustAverageWithin
    case "must_not_exceed_in_window" => P.MustNotExceedInWindow
    case "must" => P.SpecOnly(name)
    case "must_not" => P.SpecOnly(name)
    case "must_be_recorded_within" => P.SpecOnly(name)
    case "should" => P.SpecOnly(name)
    case "discretionary" => P.SpecOnly(name)
    case _ => P.Outside(name)
  }

  /** What the validator calls checkable the verifier evaluates, and both know the same types. */
  lemma SameEnumeration(name: string)
    ensures name in CHECKABLE_TYPES <==> P.Formalizable(PredicateNamed(name))
    ensures name in OBLIGATION_TYPES <==> !PredicateNamed(name).Outside?
  {
  }

  /** The node an id stands for in a list, the last one that bears it, is of a type the verifier has no check for. */
  ghost predicate StandsUnchecked(obligations: seq<Node>, i: int, id: string) {
    && 0 <= i < |obligations| && obligations[i].Node? && obligations[i].id == Some(id)
    && (forall k | i < k < |obligations| && obligations[k].Node? :: obligations[k].id != Some(id))
    && obligations[i].obligationType.Some? && !P.Formalizable(PredicateNamed(obligations[i].obligationType.value))
  }

  /** An edge counts as unchecked exactly if its obligation is of a type the verifier has no check for. */
  lemma {:induction false} UncheckedMeans(obligations: seq<Node>, id: string)
    ensures Unchecked(obligations, Some(id)) <==> exists i :: StandsUnchecked(obligations, i, id)
  {
    if obligations != [] {
      var (n, init) := (|obligations| - 1, obligations[..|obligations| - 1]);
      if obligations[n].Node? && obligations[n].id == Some(id) {
        if obligations[n].obligationType.Some? {
          SameEnumeration(obligations[n].obligationType.value);
        }
        assert Unchecked(obligations, Some(id)) <==> StandsUnchecked(obligations, n, id);
      } else {
        UncheckedMeans(init, id);
        forall i ensures StandsUnchecked(obligations, i, id) <==> StandsUnchecked(init, i, id) {
          if StandsUnchecked(init, i, id) {
            assert obligations[i] == init[i];
          }
        }
      }
    }
  }

  /** The ids of an accepted graph are not empty. */
  lemma AcceptedIds(g: Graph, k: nat, n: Node)
    requires Acceptable(g) && k < |NODE_KINDS| && n in Items(g.nodes.value, NODE_KINDS[k])
    ensures n.Node? && n.id.Some? && |n.id.value| > 0
  {
    ListedHaveIds(g, k);
  }

  /**
   On a clean graph with unique ids every edge ends in a node of the kind its
   relation names, so the compiler passes over none of the three kinds it reads.
   */
  lemma NoEdgeIgnored(g: Graph, i: nat)
    requires CleanGraph(g) && GoodIds(AllNodes(g)) && i < |g.edges.value|
    ensures var (byId, e) := (NodeIndex(g), g.edges.value[i]);
            && e.Edge? && e.kind.Some? && e.target.Some?
            && IsKind(byId, e.target.value,
                      match e.kind.value
                      case AppliesTo => Subjects
                      case ConsistsOf => Obligations
                      case DefinedBy => Definitions
                      case ExemptedBy => Exemptions
                      case AmendedBy => Obligations
                      case InterpretedBy => Precedents
                      case ScopedTo => Jurisdictions
                      case CitedBy => Citations
                      case OtherEdge(name) => UnknownKind(name))
  {
    TypesAreKinds(AllNodes(g));
    SchemaEdge(g, i);
    var e := g.edges.value[i];
    assert EdgeDeclared(TypesOf(g), e) && EdgeTargetOk(TypesOf(g), e);
  }
}
