/** The typed Knowledge Graph as compile_graph reads it: nodes by id, edges by relation, or a refusal. */
module KgGraph {
  import opened Common

  datatype Kind =
    | Subjects
    | Rules
    | Obligations
    | Definitions
    | Exemptions
    | Precedents
    | Jurisdictions
    | Citations
    | UnknownKind(name: string)

  const NODE_KINDS: seq<Kind> :=
    [Subjects, Rules, Obligations, Definitions, Exemptions, Precedents, Jurisdictions, Citations]

  datatype Tier = High | Medium | Low

  /** A node's fields; None where a field is absent or not a string (for riskTier, not one of the three). */
  datatype Node =
    | Node(
        id: Option<string>,
        metric: Option<string>,
        obligationType: Option<string>,
        parent: Option<string>,
        riskTier: Option<Tier>,
        start: Option<string>,        // effective_date_start
        end: Option<string>           // effective_date_end
      )
    | NotAnObject

  datatype NodeList = Array(items: seq<Node>) | NotAnArray

  datatype EdgeKind =
    | AppliesTo
    | ConsistsOf
    | DefinedBy
    | ExemptedBy
    | AmendedBy
    | InterpretedBy
    | ScopedTo
    | CitedBy
    | OtherEdge(name: string)

  datatype Edge =
    | Edge(kind: Option<EdgeKind>, source: Option<string>, target: Option<string>)
    | NotAnEdge

  /** None where nodes is not an object, or edges not an array. */
  datatype Graph = Graph(nodes: Option<map<Kind, NodeList>>, edges: Option<seq<Edge>>)

  datatype Error =
    | NodesNotObject
    | EdgesNotArray
    | UnknownNodeList
    | ListNotArray
    | NodeWithoutId
    | DuplicateId(id: string)
    | MalformedEdge(at: nat)
    | DanglingEdge(at: nat)
    | RuleWithoutObligation(id: string)
    | MalformedObligation(id: string)
    | NoObligations

  datatype Compiled = Compiled(
    id: string,
    predicate_: string,
    metric: string,
    effective: Option<string>,
    sunset: Option<string>,
    jurisdiction: Option<set<string>>,
    tier: Option<Tier>,
    ruleIds: seq<string>,
    subjects: Option<set<string>>
  )

  // ------------------------------------------------------------------ reading

  datatype Entry = Entry(kind: Kind, node: Node)

  function NodesOf(nodes: map<Kind, NodeList>, kind: Kind): NodeList {
    if kind in nodes then nodes[kind] else Array([])
  }

  function Items(nodes: map<Kind, NodeList>, kind: Kind): seq<Node> {
    if NodesOf(nodes, kind).Array? then NodesOf(nodes, kind).items else []
  }

  function Tagged(kind: Kind, items: seq<Node>): (es: seq<Entry>)
    ensures |es| == |items| && forall i | 0 <= i < |items| :: es[i] == Entry(kind, items[i])
  {
    if items == [] then [] else Tagged(kind, items[..|items| - 1]) + [Entry(kind, items[|items| - 1])]
  }

  /** All nodes in the order they are read. */
  function Flatten(nodes: map<Kind, NodeList>, kinds: seq<Kind>): seq<Entry> {
    if kinds == [] then []
    else Flatten(nodes, kinds[..|kinds| - 1]) + Tagged(kinds[|kinds| - 1], Items(nodes, kinds[|kinds| - 1]))
  }

  predicate HasId(n: Node) {
    n.Node? && n.id.Some? && n.id.value != ""
  }

  ghost predicate AllHaveIds(es: seq<Entry>) {
    forall i | 0 <= i < |es| :: HasId(es[i].node)
  }

  ghost predicate UniqueIds(es: seq<Entry>)
    requires AllHaveIds(es)
  {
    forall i, j | 0 <= i < j < |es| :: es[i].node.id != es[j].node.id
  }

  ghost predicate GoodIds(es: seq<Entry>) {
    AllHaveIds(es) && UniqueIds(es)
  }

  /** by_id: every node once, under its id. */
  ghost predicate IsById(es: seq<Entry>, byId: map<string, Entry>) {
    && AllHaveIds(es) && UniqueIds(es)
    && (forall i | 0 <= i < |es| :: es[i].node.id.value in byId && byId[es[i].node.id.value] == es[i])
    && (forall id | id in byId :: exists i :: 0 <= i < |es| && es[i].node.id.value == id)
  }

  predicate ListsAreArrays(nodes: map<Kind, NodeList>, kinds: seq<Kind>) {
    forall i | 0 <= i < |kinds| :: NodesOf(nodes, kinds[i]).Array?
  }

  /** A node without an id, or a second one with an id. */
  predicate BadId(error: Error) {
    error.NodeWithoutId? || error.DuplicateId?
  }

  method AddNode(ghost es: seq<Entry>, byId: map<string, Entry>, e: Entry)
    returns (r: Result<map<string, Entry>, Error>)
    requires IsById(es, byId)
    ensures r.Ok? <==> GoodIds(es + [e])
    ensures r.Ok? ==> IsById(es + [e], r.value)
    ensures r.Err? ==> r.error == if HasId(e.node) then DuplicateId(e.node.id.value) else NodeWithoutId
  {
    ghost var all := es + [e];
    if !HasId(e.node) {
      assert !HasId(all[|es|].node);
      return Err(NodeWithoutId);
    }
    var id := e.node.id.value;
    assert AllHaveIds(all);
    if id in byId {
      ghost var i :| 0 <= i < |es| && es[i].node.id.value == id;
      assert all[i].node.id == all[|es|].node.id;
      return Err(DuplicateId(id));
    }
    r := Ok(byId[id := e]);
    assert forall i | 0 <= i < |es| :: all[i] == es[i] && es[i].node.id.value != id;
    assert all[|es|] == e;
    forall k | k in r.value ensures exists i :: 0 <= i < |all| && all[i].node.id.value == k {
      if k != id {
        ghost var i :| 0 <= i < |es| && es[i].node.id.value == k;
        assert all[i].node.id.value == k;
      }
    }
  }

  /** The prefix of an all-distinct list is all-distinct. */
  lemma PrefixGood(es: seq<Entry>, more: seq<Entry>)
    requires GoodIds(es + more)
    ensures GoodIds(es)
  {
    var all := es + more;
    assert forall i | 0 <= i < |es| :: all[i] == es[i];
  }

  /** The nodes of one list. */
  method AddNodes(ghost es: seq<Entry>, byId: map<string, Entry>, kind: Kind, items: seq<Node>)
    returns (r: Result<map<string, Entry>, Error>)
    requires IsById(es, byId)
    ensures r.Ok? <==> GoodIds(es + Tagged(kind, items))
    ensures r.Ok? ==> IsById(es + Tagged(kind, items), r.value)
    ensures r.Err? ==> BadId(r.error)
  {
    var index := byId;
    var i := 0;
    ghost var tagged := Tagged(kind, items);
    assert es + tagged[..0] == es;
    while i < |items|
      invariant 0 <= i <= |items|
      invariant IsById(es + tagged[..i], index)
    {
      assert es + tagged[..i + 1] == es + tagged[..i] + [tagged[i]];
      r := AddNode(es + tagged[..i], index, Entry(kind, items[i]));
      if r.Err? {
        assert es + tagged == (es + tagged[..i + 1]) + tagged[i + 1..];
        assert !GoodIds(es + tagged[..i + 1]);
        if GoodIds(es + tagged) {
          PrefixGood(es + tagged[..i + 1], tagged[i + 1..]);
        }
        return;
      }
      index := r.value;
      i := i + 1;
    }
    assert tagged[..i] == tagged;
    r := Ok(index);
  }

  /** Lists in a row, whatever they hold. */
  function ConcatMap(f: Kind -> seq<Entry>, kinds: seq<Kind>): seq<Entry> {
    if kinds == [] then [] else ConcatMap(f, kinds[..|kinds| - 1]) + f(kinds[|kinds| - 1])
  }

  /** f gives the tagged nodes of each list. */
  ghost predicate Lists(nodes: map<Kind, NodeList>, f: Kind -> seq<Entry>) {
    forall kind :: f(kind) == Tagged(kind, Items(nodes, kind))
  }

  lemma {:induction false} FlattenIsConcat(nodes: map<Kind, NodeList>, f: Kind -> seq<Entry>, kinds: seq<Kind>)
    requires Lists(nodes, f)
    ensures Flatten(nodes, kinds) == ConcatMap(f, kinds)
    decreases |kinds|
  {
    if kinds != [] {
      FlattenIsConcat(nodes, f, kinds[..|kinds| - 1]);
      assert f(kinds[|kinds| - 1]) == Tagged(kinds[|kinds| - 1], Items(nodes, kinds[|kinds| - 1]));
    }
  }

  lemma ConcatNext(f: Kind -> seq<Entry>, kinds: seq<Kind>, i: nat)
    requires i < |kinds|
    ensures ConcatMap(f, kinds[..i + 1]) == ConcatMap(f, kinds[..i]) + f(kinds[i])
  {
    assert kinds[..i + 1][..i] == kinds[..i];
  }

  lemma {:induction false} ConcatPrefix(f: Kind -> seq<Entry>, kinds: seq<Kind>, i: nat) returns (more: seq<Entry>)
    requires i <= |kinds|
    ensures ConcatMap(f, kinds) == ConcatMap(f, kinds[..i]) + more
    decreases |kinds| - i
  {
    if i == |kinds| {
      more := [];
      assert kinds[..i] == kinds;
      NilRight(ConcatMap(f, kinds));
    } else {
      ConcatNext(f, kinds, i);
      var rest := ConcatPrefix(f, kinds, i + 1);
      more := f(kinds[i]) + rest;
      Assoc(ConcatMap(f, kinds[..i]), f(kinds[i]), rest);
    }
  }

  lemma BadPrefix(f: Kind -> seq<Entry>, kinds: seq<Kind>, i: nat)
    requires i <= |kinds| && !GoodIds(ConcatMap(f, kinds[..i]))
    ensures !GoodIds(ConcatMap(f, kinds))
  {
    var more := ConcatPrefix(f, kinds, i);
    if GoodIds(ConcatMap(f, kinds)) {
      PrefixGood(ConcatMap(f, kinds[..i]), more);
    }
  }

  /** One more list: a bad prefix of the reading is a bad reading. */
  method AddList(ghost f: Kind -> seq<Entry>, kinds: seq<Kind>, i: nat, byId: map<string, Entry>, items: seq<Node>)
    returns (r: Result<map<string, Entry>, Error>)
    requires i < |kinds| && f(kinds[i]) == Tagged(kinds[i], items)
    requires IsById(ConcatMap(f, kinds[..i]), byId)
    ensures r.Ok? ==> IsById(ConcatMap(f, kinds[..i + 1]), r.value)
    ensures r.Err? ==> !GoodIds(ConcatMap(f, kinds)) && BadId(r.error)
  {
    ConcatNext(f, kinds, i);
    r := AddNodes(ConcatMap(f, kinds[..i]), byId, kinds[i], items);
    if r.Err? {
      BadPrefix(f, kinds, i + 1);
    }
  }

  /** The two nested reading loops. */
  method IndexLists(nodes: map<Kind, NodeList>, kinds: seq<Kind>, ghost f: Kind -> seq<Entry>)
    returns (r: Result<map<string, Entry>, Error>)
    requires Lists(nodes, f)
    ensures r.Ok? <==> ListsAreArrays(nodes, kinds) && GoodIds(ConcatMap(f, kinds))
    ensures r.Ok? ==> IsById(ConcatMap(f, kinds), r.value)
    ensures r.Err? ==> r.error.ListNotArray? || BadId(r.error)
    ensures r.Err? && r.error.ListNotArray? ==> !ListsAreArrays(nodes, kinds)
    ensures r.Err? && BadId(r.error) ==> !GoodIds(ConcatMap(f, kinds))
  {
    var byId: map<string, Entry> := map[];
    var i := 0;
    while i < |kinds|
      invariant 0 <= i <= |kinds|
      invariant ListsAreArrays(nodes, kinds[..i])
      invariant IsById(ConcatMap(f, kinds[..i]), byId)
    {
      if NodesOf(nodes, kinds[i]).NotAnArray? {
        return Err(ListNotArray);
      }
      assert kinds[..i + 1] == kinds[..i] + [kinds[i]];
      r := AddList(f, kinds, i, byId, Items(nodes, kinds[i]));
      if r.Err? {
        return;
      }
      byId := r.value;
      i := i + 1;
    }
    assert kinds[..i] == kinds;
    r := Ok(byId);
  }

  method IndexNodes(nodes: map<Kind, NodeList>, kinds: seq<Kind>) returns (r: Result<map<string, Entry>, Error>)
    ensures r.Ok? <==> ListsAreArrays(nodes, kinds) && GoodIds(Flatten(nodes, kinds))
    ensures r.Ok? ==> IsById(Flatten(nodes, kinds), r.value)
    ensures r.Err? ==> r.error.ListNotArray? || BadId(r.error)
    ensures r.Err? && r.error.ListNotArray? ==> !ListsAreArrays(nodes, kinds)
    ensures r.Err? && BadId(r.error) ==> !GoodIds(Flatten(nodes, kinds))
  {
    ghost var f := (kind: Kind) => Tagged(kind, Items(nodes, kind));
    FlattenIsConcat(nodes, f, kinds);
    r := IndexLists(nodes, kinds, f);
  }

  // -------------------------------------------------------------------- edges

  type ById = map<string, Entry>

  predicate IsKind(byId: ById, id: string, kind: Kind) {
    id in byId && byId[id].kind == kind
  }

  predicate EdgeOk(byId: ById, e: Edge) {
    e.Edge? && e.kind.Some? && e.source.Some? && e.target.Some? && e.source.value in byId && e.target.value in byId
  }

  predicate Linked(edges: seq<Edge>, kind: EdgeKind, source: string, target: string) {
    Edge(Some(kind), Some(source), Some(target)) in edges
  }

  /** owners: obligation to rules; scoped: obligation or rule to jurisdictions; applies: rule to subjects. */
  datatype Links = Links(
    owners: map<string, seq<string>>,
    scoped: map<string, set<string>>,
    applies: map<string, set<string>>
  )

  function Owners(l: Links, ob: string): seq<string> {
    if ob in l.owners then l.owners[ob] else []
  }

  function Of(m: map<string, set<string>>, k: string): set<string> {
    if k in m then m[k] else {}
  }

  ghost predicate IsOwners(byId: ById, edges: seq<Edge>, owners: map<string, seq<string>>) {
    forall r, ob :: (ob in owners && r in owners[ob]) <==> (Linked(edges, ConsistsOf, r, ob) && IsKind(byId, r, Rules))
  }

  ghost predicate IsScoped(byId: ById, edges: seq<Edge>, scoped: map<string, set<string>>) {
    forall s, j :: (s in scoped && j in scoped[s]) <==>
      (Linked(edges, ScopedTo, s, j) && IsKind(byId, j, Jurisdictions))
  }

  ghost predicate IsApplies(byId: ById, edges: seq<Edge>, applies: map<string, set<string>>) {
    && (forall r, s :: (r in applies && s in applies[r]) <==>
          (Linked(edges, AppliesTo, r, s) && IsKind(byId, r, Rules) && IsKind(byId, s, Subjects)))
    && (forall r | r in applies :: applies[r] != {})
  }

  function AddTo(m: map<string, set<string>>, k: string, x: string): map<string, set<string>> {
    m[k := Of(m, k) + {x}]
  }

  function AddEdge(byId: ById, l: Links, e: Edge): Links
    requires EdgeOk(byId, e)
  {
    var (source, target) := (e.source.value, e.target.value);
    if e.kind.value.ConsistsOf? && IsKind(byId, source, Rules) then
      l.(owners := l.owners[target := Owners(l, target) + [source]])
    else if e.kind.value.ScopedTo? && IsKind(byId, target, Jurisdictions) then
      l.(scoped := AddTo(l.scoped, source, target))
    else if e.kind.value.AppliesTo? && IsKind(byId, source, Rules) && IsKind(byId, target, Subjects) then
      l.(applies := AddTo(l.applies, source, target))
    else l
  }

  lemma LinkedNext(edges: seq<Edge>, e: Edge, kind: EdgeKind, a: string, b: string)
    ensures Linked(edges + [e], kind, a, b) <==>
            Linked(edges, kind, a, b) || e == Edge(Some(kind), Some(a), Some(b))
  {
  }

  lemma AddOwner(byId: ById, edges: seq<Edge>, l: Links, e: Edge)
    requires EdgeOk(byId, e) && IsOwners(byId, edges, l.owners)
    ensures IsOwners(byId, edges + [e], AddEdge(byId, l, e).owners)
  {
    forall r, ob { LinkedNext(edges, e, ConsistsOf, r, ob); }
  }

  lemma AddScope(byId: ById, edges: seq<Edge>, l: Links, e: Edge)
    requires EdgeOk(byId, e) && IsScoped(byId, edges, l.scoped)
    ensures IsScoped(byId, edges + [e], AddEdge(byId, l, e).scoped)
  {
    forall s, j { LinkedNext(edges, e, ScopedTo, s, j); }
  }

  lemma AddApplies(byId: ById, edges: seq<Edge>, l: Links, e: Edge)
    requires EdgeOk(byId, e) && IsApplies(byId, edges, l.applies)
    ensures IsApplies(byId, edges + [e], AddEdge(byId, l, e).applies)
  {
    forall r, s { LinkedNext(edges, e, AppliesTo, r, s); }
  }

  ghost predicate IsLinks(byId: ById, edges: seq<Edge>, l: Links) {
    IsOwners(byId, edges, l.owners) && IsScoped(byId, edges, l.scoped) && IsApplies(byId, edges, l.applies)
  }

  /** The first edge that is refused, and why: a part is missing, or a node is unknown. */
  ghost predicate BadEdge(byId: ById, edges: seq<Edge>, i: nat, error: Error)
    requires i < |edges|
  {
    && !EdgeOk(byId, edges[i])
    && (forall k | 0 <= k < i :: EdgeOk(byId, edges[k]))
    && error == if edges[i].Edge? && edges[i].kind.Some? && edges[i].source.Some? && edges[i].target.Some?
                then DanglingEdge(i) else MalformedEdge(i)
  }

  method IndexEdges(edges: seq<Edge>, byId: ById) returns (r: Result<Links, Error>)
    ensures r.Ok? <==> forall i | 0 <= i < |edges| :: EdgeOk(byId, edges[i])
    ensures r.Ok? ==> IsLinks(byId, edges, r.value)
    ensures r.Err? ==> exists i :: 0 <= i < |edges| && BadEdge(byId, edges, i, r.error)
  {
    var l := Links(map[], map[], map[]);
    var i := 0;
    while i < |edges|
      invariant 0 <= i <= |edges|
      invariant forall k | 0 <= k < i :: EdgeOk(byId, edges[k])
      invariant IsLinks(byId, edges[..i], l)
    {
      var e := edges[i];
      if e.NotAnEdge? || e.kind.None? || e.source.None? || e.target.None? {
        assert BadEdge(byId, edges, i, MalformedEdge(i));
        return Err(MalformedEdge(i));
      }
      if e.source.value !in byId || e.target.value !in byId {
        assert BadEdge(byId, edges, i, DanglingEdge(i));
        return Err(DanglingEdge(i));
      }
      AddOwner(byId, edges[..i], l, e);
      AddScope(byId, edges[..i], l, e);
      AddApplies(byId, edges[..i], l, e);
      assert edges[..i + 1] == edges[..i] + [e];
      l := AddEdge(byId, l, e);
      i := i + 1;
    }
    assert edges[..i] == edges;
    r := Ok(l);
  }
}
