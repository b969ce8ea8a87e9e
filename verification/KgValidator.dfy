/** The authoring-time validator: its passes, and exactly what each of them reports. */
module KgValidator {
  import opened Common
  import opened KgGraph
  import opened KgCompiler

  datatype Severity = Critical | Severe | Moderate

  datatype IssueKind =
    | DuplicateNode
    | Dangling
    | WrongTarget
    | UncoveredRule
    | OrphanObligation
    | UnderTiered

  datatype Issue = Issue(kind: IssueKind, severity: Severity)

  predicate Blocking(issue: Issue) {
    issue.severity.Critical? || issue.severity.Severe?
  }

  /** is_clean. */
  predicate Clean(issues: seq<Issue>) {
    forall i | 0 <= i < |issues| :: !Blocking(issues[i])
  }

  predicate Raised(issues: seq<Issue>, kind: IssueKind) {
    exists i :: 0 <= i < |issues| && issues[i].kind == kind
  }

  // ------------------------------------------------------------------- schema

  /** ObligationType, the closed enumeration. */
  const OBLIGATION_TYPES: set<string> := CHECKABLE_TYPES + {
    "must", "must_not", "must_be_recorded_within", "should", "discretionary"}

  /** The types the verifier has a check for. */
  const CHECKABLE_TYPES: set<string> := {
    "must_not_exceed", "must_be_at_least", "must_be_below", "must_be_above", "must_be_within", "must_be_one_of",
    "must_not_be_one_of", "must_equal", "must_not_equal", "must_average_within", "must_not_exceed_in_window"}

  /** The required fields of a node. */
  ghost predicate TypedNode(kind: Kind, n: Node) {
    && n.Node? && n.id.Some?
    && (kind.Obligations? ==>
          n.metric.Some? && n.start.Some? && n.obligationType.Some? && n.obligationType.value in OBLIGATION_TYPES)
  }

  /** What the Pydantic layer accepts. */
  ghost predicate SchemaValid(g: Graph) {
    && g.nodes.Some? && g.edges.Some?
    && KnownLists(g.nodes.value)
    && ListsAreArrays(g.nodes.value, NODE_KINDS)
    && (forall k, i | 0 <= k < |NODE_KINDS| && 0 <= i < |Items(g.nodes.value, NODE_KINDS[k])| ::
          TypedNode(NODE_KINDS[k], Items(g.nodes.value, NODE_KINDS[k])[i]))
    && (forall i | 0 <= i < |g.edges.value| ::
          var e := g.edges.value[i];
          e.Edge? && e.kind.Some? && !e.kind.value.OtherEdge? && e.source.Some? && e.target.Some?)
  }

  /** _EDGE_TARGET_TYPE. */
  function TargetKind(kind: EdgeKind): Option<Kind> {
    match kind
    case AppliesTo => Some(Subjects)
    case ConsistsOf => Some(Obligations)
    case DefinedBy => Some(Definitions)
    case ExemptedBy => Some(Exemptions)
    case AmendedBy => Some(Obligations)
    case InterpretedBy => Some(Precedents)
    case ScopedTo => Some(Jurisdictions)
    case CitedBy => Some(Citations)
    case OtherEdge(_) => None
  }

  /** all_node_ids: the last list that holds an id gives its type. */
  function NodeTypes(es: seq<Entry>): map<string, Kind> {
    if es == [] then map[]
    else
      var last := es[|es| - 1];
      var init := NodeTypes(es[..|es| - 1]);
      if last.node.Node? && last.node.id.Some? then init[last.node.id.value := last.kind] else init
  }

  ghost predicate DistinctIn(items: seq<Node>) {
    forall i, j | 0 <= i < j < |items| && items[i].Node? && items[j].Node? :: items[i].id != items[j].id
  }

  ghost predicate EdgeDeclared(types: map<string, Kind>, e: Edge) {
    e.Edge? && e.source.Some? && e.target.Some? && e.source.value in types && e.target.value in types
  }

  ghost predicate EdgeTargetOk(types: map<string, Kind>, e: Edge) {
    e.Edge? && e.kind.Some? && e.target.Some? && TargetKind(e.kind.value).Some? && e.target.value in types ==>
      types[e.target.value] == TargetKind(e.kind.value).value
  }

  ghost predicate RuleMentioned(edges: seq<Edge>, rule: string) {
    exists i :: 0 <= i < |edges| && edges[i].Edge? && edges[i].kind == Some(ConsistsOf) && edges[i].source == Some(rule)
  }

  // ------------------------------------------------------------------- passes

  /** after is before plus issues of one kind, if any were found. */
  ghost predicate Adds(before: seq<Issue>, after: seq<Issue>, issue: Issue, found: bool) {
    && (Clean(after) <==> Clean(before) && !(found && Blocking(issue)))
    && (forall k :: Raised(after, k) <==> Raised(before, k) || (found && k == issue.kind))
  }

  lemma AddsOne(before: seq<Issue>, after: seq<Issue>, issue: Issue, found: bool)
    requires Adds(before, after, issue, found)
    ensures Adds(before, after + [issue], issue, true)
  {
    var all := after + [issue];
    assert all[|after|] == issue && forall i | 0 <= i < |after| :: all[i] == after[i];
    forall k ensures Raised(all, k) <==> Raised(after, k) || k == issue.kind {
      if i :| 0 <= i < |after| && after[i].kind == k {
        assert all[i].kind == k;
      }
    }
  }

  lemma AddsBoth(a: seq<Issue>, b: seq<Issue>, c: seq<Issue>, issue: Issue, first: bool, second: bool)
    requires Adds(a, b, issue, first) && Adds(b, c, issue, second)
    ensures Adds(a, c, issue, first || second)
  {
  }

  ghost predicate RepeatingUpTo(nodes: map<Kind, NodeList>, n: nat)
    requires n <= |NODE_KINDS|
  {
    exists k :: 0 <= k < n && !DistinctIn(Items(nodes, NODE_KINDS[k]))
  }

  lemma AllTyped(nodes: map<Kind, NodeList>, n: nat)
    requires n < |NODE_KINDS|
    requires forall k, i | 0 <= k < |NODE_KINDS| && 0 <= i < |Items(nodes, NODE_KINDS[k])| ::
               TypedNode(NODE_KINDS[k], Items(nodes, NODE_KINDS[k])[i])
    ensures forall i | 0 <= i < |Items(nodes, NODE_KINDS[n])| ::
              Items(nodes, NODE_KINDS[n])[i].Node? && Items(nodes, NODE_KINDS[n])[i].id.Some?
  {
    forall i | 0 <= i < |Items(nodes, NODE_KINDS[n])|
      ensures Items(nodes, NODE_KINDS[n])[i].Node? && Items(nodes, NODE_KINDS[n])[i].id.Some?
    {
      assert TypedNode(NODE_KINDS[n], Items(nodes, NODE_KINDS[n])[i]);
    }
  }

  ghost predicate Repeats(items: seq<Node>, id: string, n: nat)
    requires n <= |items| && forall i | 0 <= i < |items| :: items[i].Node?
  {
    exists j, k :: 0 <= j < k < n && items[j].id == items[k].id == Some(id)
  }

  /** counts: occurrences of each id; returns the ids met more than once. */
  method RepeatedIds(items: seq<Node>) returns (repeated: set<string>)
    requires forall i | 0 <= i < |items| :: items[i].Node? && items[i].id.Some?
    ensures repeated == {} <==> DistinctIn(items)
  {
    var counts: map<string, nat> := map[];
    var i := 0;
    while i < |items|
      invariant 0 <= i <= |items|
      invariant forall id :: id in counts <==> exists k :: 0 <= k < i && items[k].id == Some(id)
      invariant forall id | id in counts :: counts[id] >= 1 && (counts[id] > 1 <==> Repeats(items, id, i))
    {
      var id := items[i].id.value;
      counts := counts[id := (if id in counts then counts[id] else 0) + 1];
      i := i + 1;
    }
    repeated := set id | id in counts && counts[id] > 1;
    if repeated == {} {
      forall j, k | 0 <= j < k < |items| ensures items[j].id != items[k].id {
        var id := items[j].id.value;
        assert id in counts && id !in repeated && !Repeats(items, id, |items|);
      }
    } else {
      ghost var id :| id in repeated;
      assert Repeats(items, id, |items|);
    }
  }

  class V3Validator {
    const nodes: map<Kind, NodeList>
    const edges: seq<Edge>
    const strict: bool
    var issues: seq<Issue>

    constructor (nodes: map<Kind, NodeList>, edges: seq<Edge>, strict: bool)
      ensures this.nodes == nodes && this.edges == edges && this.strict == strict && issues == []
    {
      this.nodes, this.edges, this.strict := nodes, edges, strict;
      issues := [];
    }

    /** One issue for each id. */
    method ReportEach(ids: set<string>, issue: Issue)
      modifies this`issues
      ensures Adds(old(issues), issues, issue, ids != {})
    {
      var todo := ids;
      while todo != {}
        invariant todo <= ids
        invariant Adds(old(issues), issues, issue, todo != ids)
      {
        var id :| id in todo;
        AddsOne(old(issues), issues, issue, todo != ids);
        issues := issues + [issue];
        todo := todo - {id};
      }
    }

    /** The first duplicate loop runs over the keys of a dict, so it never reports anything. */
    method CheckDuplicateKeys(types: map<string, Kind>)
      modifies this`issues
      ensures issues == old(issues)
    {
      var seen: set<string> := {};
      var todo := types.Keys;
      while todo != {}
        invariant seen !! todo
        invariant issues == old(issues)
      {
        var id :| id in todo;
        issues := issues + (if id in seen then [Issue(DuplicateNode, Critical)] else []);
        seen := seen + {id};
        todo := todo - {id};
      }
    }

    /** The second counts occurrences within each list. */
    method CheckDuplicatesInLists()
      requires forall k, i | 0 <= k < |NODE_KINDS| && 0 <= i < |Items(nodes, NODE_KINDS[k])| ::
                 TypedNode(NODE_KINDS[k], Items(nodes, NODE_KINDS[k])[i])
      modifies this`issues
      ensures Adds(old(issues), issues, Issue(DuplicateNode, Critical), Repeating(nodes))
    {
      ghost var found := false;
      var n := 0;
      while n < |NODE_KINDS|
        invariant 0 <= n <= |NODE_KINDS|
        invariant found <==> RepeatingUpTo(nodes, n)
        invariant Adds(old(issues), issues, Issue(DuplicateNode, Critical), found)
      {
        AllTyped(nodes, n);
        var repeated := RepeatedIds(Items(nodes, NODE_KINDS[n]));
        ghost var before := issues;
        ReportEach(repeated, Issue(DuplicateNode, Critical));
        AddsBoth(old(issues), before, issues, Issue(DuplicateNode, Critical), found, repeated != {});
        found := found || repeated != {};
        n := n + 1;
      }
    }

    method CheckDanglingEdges(types: map<string, Kind>)
      requires forall i | 0 <= i < |edges| :: edges[i].Edge? && edges[i].source.Some? && edges[i].target.Some?
      modifies this`issues
      ensures Adds(old(issues), issues, Issue(Dangling, Severe), Undeclared(edges, types))
    {
      var issue := Issue(Dangling, Severe);
      ghost var found := false;
      var i := 0;
      while i < |edges|
        invariant 0 <= i <= |edges|
        invariant found <==> exists k :: 0 <= k < i && !EdgeDeclared(types, edges[k])
        invariant Adds(old(issues), issues, issue, found)
      {
        if edges[i].source.value !in types {
          AddsOne(old(issues), issues, issue, found);
          issues := issues + [issue];
          found := true;
        }
        if edges[i].target.value !in types {
          AddsOne(old(issues), issues, issue, found);
          issues := issues + [issue];
          found := true;
        }
        i := i + 1;
      }
    }

    method CheckEdgeTargetTypes(types: map<string, Kind>)
      requires forall i | 0 <= i < |edges| :: edges[i].Edge? && edges[i].kind.Some? && edges[i].target.Some?
      modifies this`issues
      ensures Adds(old(issues), issues, Issue(WrongTarget, Severe), Mistargeted(edges, types))
    {
      var issue := Issue(WrongTarget, Severe);
      ghost var found := false;
      var i := 0;
      while i < |edges|
        invariant 0 <= i <= |edges|
        invariant found <==> exists k :: 0 <= k < i && !EdgeTargetOk(types, edges[k])
        invariant Adds(old(issues), issues, issue, found)
      {
        var expected := TargetKind(edges[i].kind.value);
        var target := edges[i].target.value;
        if expected.Some? && target in types && types[target] != expected.value {
          AddsOne(old(issues), issues, issue, found);
          issues := issues + [issue];
          found := true;
        }
        i := i + 1;
      }
    }

    /** Rules without any consists_of edge, and obligations no consists_of edge points at. */
    method CheckRuleObligationCoverage()
      requires forall n | n in Items(nodes, Rules) + Items(nodes, Obligations) :: n.Node? && n.id.Some?
      modifies this`issues
      ensures Clean(issues) <==> old(Clean(issues)) && AllRulesMentioned(nodes, edges)
      ensures forall k :: Raised(issues, k) <==>
                || old(Raised(issues, k))
                || (k == UncoveredRule && !AllRulesMentioned(nodes, edges))
                || (k == OrphanObligation && !AllObligationsOwned(nodes, edges))
    {
      var rules := set n | n in Items(nodes, Rules) :: n.id.value;
      var obligations := set n | n in Items(nodes, Obligations) :: n.id.value;
      var owning := set e | e in edges && e.Edge? && e.kind == Some(ConsistsOf) && e.source.Some? :: e.source.value;
      var owned := set e | e in edges && e.Edge? && e.kind == Some(ConsistsOf) && e.target.Some? :: e.target.value;
      MentionedSet(nodes, edges, rules, owning);
      OwnedSet(nodes, edges, obligations, owned);
      ReportEach(rules - owning, Issue(UncoveredRule, Severe));
      ReportEach(obligations - owned, Issue(OrphanObligation, Moderate));
    }

    /** Advisory unless strict: a rule below tier high owns an obligation no predicate can check. */
    method CheckUnderTiered()
      requires forall n | n in Items(nodes, Rules) + Items(nodes, Obligations) :: n.Node? && n.id.Some?
      modifies this`issues
      ensures Adds(old(issues), issues, UnderTieredIssue(strict), SomeUnderTiered(nodes, edges))
    {
      var issue := UnderTieredIssue(strict);
      ghost var found := false;
      var rules, obligations := Items(nodes, Rules), Items(nodes, Obligations);
      var i := 0;
      while i < |rules|
        invariant 0 <= i <= |rules|
        invariant found <==> exists j, k :: 0 <= j < i && 0 <= k < |edges| && UnderTiers(nodes, rules[j], edges[k])
        invariant Adds(old(issues), issues, issue, found)
      {
        assert rules[i] in Items(nodes, Rules) + Items(nodes, Obligations);
        ghost var before := found;
        var k := 0;
        while k < |edges| && rules[i].riskTier != Some(High)
          invariant 0 <= k <= |edges|
          invariant found <==> before || exists l :: 0 <= l < k && UnderTiers(nodes, rules[i], edges[l])
          invariant Adds(old(issues), issues, issue, found)
        {
          var e := edges[k];
          if e.Edge? && e.kind == Some(ConsistsOf) && e.source == rules[i].id && Unchecked(obligations, e.target) {
            AddsOne(old(issues), issues, issue, found);
            issues := issues + [issue];
            found := true;
          }
          k := k + 1;
        }
        assert found <==> before || exists l :: 0 <= l < |edges| && UnderTiers(nodes, rules[i], edges[l]);
        i := i + 1;
      }
    }

    method Run(types: map<string, Kind>)
      requires SchemaValid(Graph(Some(nodes), Some(edges))) && types == NodeTypes(Flatten(nodes, NODE_KINDS))
      modifies this`issues
      ensures Clean(issues) <==> NoHardIssue(nodes, edges, types) && !(strict && SomeUnderTiered(nodes, edges))
      ensures forall k :: Raised(issues, k) <==> HasIssue(nodes, edges, types, k)
    {
      issues := [];
      ListedNodesTyped(nodes, edges);
      CheckDuplicateKeys(types);
      CheckDuplicatesInLists();
      ghost var a := issues;
      CheckDanglingEdges(types);
      ghost var b := issues;
      CheckEdgeTargetTypes(types);
      ghost var c := issues;
      CheckUnderTiered();
      ghost var d := issues;
      CheckRuleObligationCoverage();
      PassesCombine(a, b, c, d, issues, strict, nodes, edges, types);
    }
  }

  function UnderTieredIssue(strict: bool): Issue {
    Issue(UnderTiered, if strict then Severe else Moderate)
  }

  ghost predicate Repeating(nodes: map<Kind, NodeList>) {
    RepeatingUpTo(nodes, |NODE_KINDS|)
  }

  ghost predicate Undeclared(edges: seq<Edge>, types: map<string, Kind>) {
    exists i :: 0 <= i < |edges| && !EdgeDeclared(types, edges[i])
  }

  ghost predicate Mistargeted(edges: seq<Edge>, types: map<string, Kind>) {
    exists i :: 0 <= i < |edges| && !EdgeTargetOk(types, edges[i])
  }

  /** What each kind of issue reports. */
  ghost predicate HasIssue(nodes: map<Kind, NodeList>, edges: seq<Edge>, types: map<string, Kind>, kind: IssueKind) {
    match kind
    case DuplicateNode => Repeating(nodes)
    case Dangling => Undeclared(edges, types)
    case WrongTarget => Mistargeted(edges, types)
    case UncoveredRule => !AllRulesMentioned(nodes, edges)
    case OrphanObligation => !AllObligationsOwned(nodes, edges)
    case UnderTiered => SomeUnderTiered(nodes, edges)
  }

  lemma PassesCombine(a: seq<Issue>, b: seq<Issue>, c: seq<Issue>, d: seq<Issue>, e: seq<Issue>, strict: bool,
                      nodes: map<Kind, NodeList>, edges: seq<Edge>, types: map<string, Kind>)
    requires Adds([], a, Issue(DuplicateNode, Critical), Repeating(nodes))
    requires Adds(a, b, Issue(Dangling, Severe), Undeclared(edges, types))
    requires Adds(b, c, Issue(WrongTarget, Severe), Mistargeted(edges, types))
    requires Adds(c, d, UnderTieredIssue(strict), SomeUnderTiered(nodes, edges))
    requires Clean(e) <==> Clean(d) && AllRulesMentioned(nodes, edges)
    requires forall k :: Raised(e, k) <==>
               || Raised(d, k)
               || (k == UncoveredRule && !AllRulesMentioned(nodes, edges))
               || (k == OrphanObligation && !AllObligationsOwned(nodes, edges))
    ensures Clean(e) <==> NoHardIssue(nodes, edges, types) && !(strict && SomeUnderTiered(nodes, edges))
    ensures forall k :: Raised(e, k) <==> HasIssue(nodes, edges, types, k)
  {
    forall k ensures Raised(e, k) <==> HasIssue(nodes, edges, types, k) {
      assert !Raised([], k);
    }
  }

  ghost predicate AllRulesMentioned(nodes: map<Kind, NodeList>, edges: seq<Edge>) {
    forall n | n in Items(nodes, Rules) && n.Node? && n.id.Some? :: RuleMentioned(edges, n.id.value)
  }

  ghost predicate ObligationOwned(edges: seq<Edge>, ob: string) {
    exists i :: 0 <= i < |edges| && edges[i].Edge? && edges[i].kind == Some(ConsistsOf) && edges[i].target == Some(ob)
  }

  ghost predicate AllObligationsOwned(nodes: map<Kind, NodeList>, edges: seq<Edge>) {
    forall n | n in Items(nodes, Obligations) && n.Node? && n.id.Some? :: ObligationOwned(edges, n.id.value)
  }

  /** A rule below tier high, and an edge that gives it an obligation no predicate can check. */
  ghost predicate UnderTiers(nodes: map<Kind, NodeList>, rule: Node, e: Edge) {
    && rule.Node? && rule.riskTier != Some(High)
    && e.Edge? && e.kind == Some(ConsistsOf) && e.source == rule.id
    && Unchecked(Items(nodes, Obligations), e.target)
  }

  ghost predicate SomeUnderTiered(nodes: map<Kind, NodeList>, edges: seq<Edge>) {
    exists i, k :: 0 <= i < |Items(nodes, Rules)| && 0 <= k < |edges| &&
                   UnderTiers(nodes, Items(nodes, Rules)[i], edges[k])
  }

  /** The structural conditions of a clean run. */
  ghost predicate NoHardIssue(nodes: map<Kind, NodeList>, edges: seq<Edge>, types: map<string, Kind>) {
    !Repeating(nodes) && !Undeclared(edges, types) && !Mistargeted(edges, types) && AllRulesMentioned(nodes, edges)
  }

  lemma MentionedSet(nodes: map<Kind, NodeList>, edges: seq<Edge>, rules: set<string>, owning: set<string>)
    requires forall n | n in Items(nodes, Rules) :: n.Node? && n.id.Some?
    requires rules == set n | n in Items(nodes, Rules) :: n.id.value
    requires owning == set e | e in edges && e.Edge? && e.kind == Some(ConsistsOf) && e.source.Some? :: e.source.value
    ensures rules - owning == {} <==> AllRulesMentioned(nodes, edges)
  {
    forall r ensures r in owning <==> RuleMentioned(edges, r) {
      if RuleMentioned(edges, r) {
        var i :| 0 <= i < |edges| && edges[i].Edge? && edges[i].kind == Some(ConsistsOf) && edges[i].source == Some(r);
        assert edges[i] in edges;
      }
    }
    if rules - owning == {} {
      forall n | n in Items(nodes, Rules) ensures RuleMentioned(edges, n.id.value) {
        assert n.id.value in rules;
        assert n.id.value !in rules - owning;
      }
    } else {
      var r :| r in rules - owning;
      assert !RuleMentioned(edges, r);
    }
  }

  lemma OwnedSet(nodes: map<Kind, NodeList>, edges: seq<Edge>, obligations: set<string>, owned: set<string>)
    requires forall n | n in Items(nodes, Obligations) :: n.Node? && n.id.Some?
    requires obligations == set n | n in Items(nodes, Obligations) :: n.id.value
    requires owned == set e | e in edges && e.Edge? && e.kind == Some(ConsistsOf) && e.target.Some? :: e.target.value
    ensures obligations - owned == {} <==> AllObligationsOwned(nodes, edges)
  {
    forall ob ensures ob in owned <==> ObligationOwned(edges, ob) {
      if ObligationOwned(edges, ob) {
        var i :| 0 <= i < |edges| && edges[i].Edge? && edges[i].kind == Some(ConsistsOf) && edges[i].target == Some(ob);
        assert edges[i] in edges;
      }
    }
    if obligations - owned == {} {
      forall n | n in Items(nodes, Obligations) ensures ObligationOwned(edges, n.id.value) {
        assert n.id.value in obligations;
        assert n.id.value !in obligations - owned;
      }
    } else {
      var ob :| ob in obligations - owned;
      assert !ObligationOwned(edges, ob);
    }
  }

  lemma ListedNodesTyped(nodes: map<Kind, NodeList>, edges: seq<Edge>)
    requires SchemaValid(Graph(Some(nodes), Some(edges)))
    ensures forall n | n in Items(nodes, Rules) + Items(nodes, Obligations) :: n.Node? && n.id.Some?
  {
    assert NODE_KINDS[1] == Rules && NODE_KINDS[2] == Obligations;
    forall n | n in Items(nodes, Rules) + Items(nodes, Obligations) ensures n.Node? && n.id.Some? {
      if i :| 0 <= i < |Items(nodes, Rules)| && Items(nodes, Rules)[i] == n {
        assert TypedNode(NODE_KINDS[1], Items(nodes, NODE_KINDS[1])[i]);
      } else {
        var k :| 0 <= k < |Items(nodes, Obligations)| && Items(nodes, Obligations)[k] == n;
        assert TypedNode(NODE_KINDS[2], Items(nodes, NODE_KINDS[2])[k]);
      }
    }
  }

  /** The last obligation with the id, the one the dictionary keeps, has a type no predicate can check. */
  predicate Unchecked(obligations: seq<Node>, id: Option<string>) {
    if obligations == [] then false
    else
      var last := obligations[|obligations| - 1];
      if last.Node? && id.Some? && last.id == id then
        last.obligationType.Some? && last.obligationType.value !in CHECKABLE_TYPES
      else Unchecked(obligations[..|obligations| - 1], id)
  }
}
