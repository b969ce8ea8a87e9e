/** scope_to: which compiled obligations a measurement is judged by. */
module KgScope {
  import opened Common
  import opened KgGraph
  import opened KgCompiler

  /** Foreign text and date functions: str.strip().lower(), and _parse_iso_date. */
  datatype Reader = Reader(fold: string -> string, date: string -> Option<int>)

  datatype Query = Query(jurisdiction: Option<string>, asOf: int, subject: Option<string>)

  function DateOf(rd: Reader, text: Option<string>): Option<int> {
    if text.None? then None else rd.date(text.value)
  }

  predicate InForce(rd: Reader, effective: Option<string>, sunset: Option<string>, asOf: int) {
    var (from, until) := (DateOf(rd, effective), DateOf(rd, sunset));
    (from.None? || from.value <= asOf) && (until.None? || until.value >= asOf)
  }

  predicate Universal(name: string) {
    name in {"global", "*", ""}
  }

  predicate Admits(rd: Reader, wanted: string, j: string) {
    Universal(rd.fold(j)) || rd.fold(j) == rd.fold(wanted)
  }

  /** _rule_is_in_scope, on the list or absent key that compilation produces. */
  predicate RuleInScope(rd: Reader, q: Query, c: Compiled) {
    && InForce(rd, c.effective, c.sunset, q.asOf)
    && (q.jurisdiction.None? || c.jurisdiction.None? ||
        exists j | j in c.jurisdiction.value :: Admits(rd, q.jurisdiction.value, j))
  }

  predicate Kept(rd: Reader, q: Query, c: Compiled) {
    RuleInScope(rd, q, c) && (q.subject.None? || c.subjects.None? || q.subject.value in c.subjects.value)
  }

  function ScopeTo(rd: Reader, q: Query, rules: seq<Compiled>): seq<Compiled> {
    if rules == [] then []
    else (if Kept(rd, q, rules[0]) then [rules[0]] else []) + ScopeTo(rd, q, rules[1..])
  }

  /** Order is preserved: scoping a concatenation is concatenating the scopes. */
  lemma {:induction false} ScopeKeepsOrder(rd: Reader, q: Query, a: seq<Compiled>, b: seq<Compiled>)
    ensures ScopeTo(rd, q, a + b) == ScopeTo(rd, q, a) + ScopeTo(rd, q, b)
  {
    if a == [] {
      assert a + b == b;
    } else {
      assert (a + b)[1..] == a[1..] + b;
      ScopeKeepsOrder(rd, q, a[1..], b);
    }
  }

  lemma {:induction false} ScopeMembers(rd: Reader, q: Query, rules: seq<Compiled>)
    ensures forall c :: c in ScopeTo(rd, q, rules) <==> c in rules && Kept(rd, q, c)
  {
    if rules != [] {
      ScopeMembers(rd, q, rules[1..]);
      assert rules == [rules[0]] + rules[1..];
    }
  }

  /** The requested jurisdiction names a jurisdiction the obligation reaches, or one of those is universal. */
  ghost predicate Reaches(rd: Reader, byId: ById, edges: seq<Edge>, ob: string, wanted: string) {
    exists j :: InScopeOf(byId, edges, ob, j) && Admits(rd, wanted, j)
  }

  /** Some owning rule applies to the subject, or some owning rule, or the lack of one, leaves subjects open. */
  ghost predicate AdmitsSubject(byId: ById, edges: seq<Edge>, ob: string, subject: string) {
    || (forall rule :: !Owns(byId, edges, rule, ob))
    || (exists rule :: Owns(byId, edges, rule, ob) && forall s :: !AppliesToNode(byId, edges, rule, s))
    || (exists rule :: Owns(byId, edges, rule, ob) && AppliesToNode(byId, edges, rule, subject))
  }

  lemma JurisdictionAdmits(rd: Reader, byId: ById, edges: seq<Edge>, c: Compiled, wanted: string)
    requires IsScope(byId, edges, c.id, c.jurisdiction)
    ensures (c.jurisdiction.None? || exists j | j in c.jurisdiction.value :: Admits(rd, wanted, j)) <==>
            ((forall j :: !RootOf(byId, edges, c.id, j)) || Reaches(rd, byId, edges, c.id, wanted))
  {
    if c.jurisdiction.Some? {
      if j :| j in c.jurisdiction.value && Admits(rd, wanted, j) {
        assert InScopeOf(byId, edges, c.id, j);
      }
      if Reaches(rd, byId, edges, c.id, wanted) {
        var j :| InScopeOf(byId, edges, c.id, j) && Admits(rd, wanted, j);
        assert j in c.jurisdiction.value;
      }
    }
  }

  lemma SubjectAdmits(byId: ById, edges: seq<Edge>, c: Compiled, subject: string)
    requires IsRouting(byId, edges, c.id, c.subjects)
    ensures (c.subjects.None? || subject in c.subjects.value) <==> AdmitsSubject(byId, edges, c.id, subject)
  {
  }

  /** A compiled obligation is kept by its dates, its jurisdictions and the subjects of its rules. */
  lemma KeptMeans(g: Graph, obs: seq<Compiled>, i: nat, rd: Reader, q: Query)
    requires Acceptable(g) && IsCompilation(g, obs) && i < |obs|
    ensures var byId := NodeIndex(g); var edges := g.edges.value;
            var node := Items(g.nodes.value, Obligations)[i]; var id := obs[i].id;
            Kept(rd, q, obs[i]) <==>
              && InForce(rd, node.start, node.end, q.asOf)
              && (q.jurisdiction.None? || (forall j :: !RootOf(byId, edges, id, j)) ||
                  Reaches(rd, byId, edges, id, q.jurisdiction.value))
              && (q.subject.None? || AdmitsSubject(byId, edges, id, q.subject.value))
  {
    var (byId, edges, c) := (NodeIndex(g), g.edges.value, obs[i]);
    assert IsCompiled(byId, edges, Items(g.nodes.value, Obligations)[i], c);
    if q.jurisdiction.Some? {
      JurisdictionAdmits(rd, byId, edges, c, q.jurisdiction.value);
    }
    if q.subject.Some? {
      SubjectAdmits(byId, edges, c, q.subject.value);
    }
  }
}
