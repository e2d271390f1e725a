/** The dependency resolver of `main` (scripts/enrich_raci.py:239-300): every reference in
    a recorded `depends_on` list is resolved by `(group title, activity name)` through
    `action_lookup`, the group defaulting to the referring activity's own; unresolvable
    references become warnings, repeated `(source, target, type)` triples are dropped, and
    the edges are finally sorted by a composite key. */
module Dependencies {
  import opened Options
  import opened Seqs
  import opened Text
  import opened Sorting
  import opened OrderedDicts
  import opened Slugs
  import opened Dataset
  import opened Catalog
  import opened CatalogProps

  /** An entry of `activity_dependencies`. */
  datatype DepEdge = DepEdge(
    sourceActionId: string,
    sourceActionName: string,
    sourceGroupId: string,
    sourceGroupTitle: string,
    targetActionId: string,
    targetActionName: string,
    targetGroupId: string,
    targetGroupTitle: string,
    relType: string)

  datatype DepIssue = MissingActivityName | TargetNotFound(groupTitle: string, activity: string)

  /** An entry of `dependency_warnings`. */
  datatype DepWarning = DepWarning(sourceActionId: string, sourceActionName: string, issue: DepIssue)

  /** The `issue` text of a dependency warning (lines 253, 265). */
  function DepIssueText(issue: DepIssue): string {
    match issue
    case MissingActivityName => "Dependency missing activity name"
    case TargetNotFound(title, act) => "Dependency target not found: " + title + " :: " + act
  }

  /** `(source_action_id, target_action_id, type)`, the key of `seen_dependencies`. */
  type DedupeKey = (string, string, string)

  function KeyOf(e: DepEdge): DedupeKey {
    (e.sourceActionId, e.targetActionId, e.relType)
  }

  /** Python truthiness of an optional string: present and non-empty. */
  predicate Truthy(o: Option<string>) {
    o.Some? && o.value != []
  }

  /** What one reference comes to: exactly one of four outcomes. */
  datatype Resolution = NoName | NotFound(groupTitle: string, activity: string) | Duplicate | Fresh(edge: DepEdge)

  /** The body of the inner loop (lines 245-290) for one reference of one spec, against
      the lookup table and the keys seen so far. */
  function Resolve(spec: DepSpec, ref: DepRef, lookup: Dict<(string, string), (string, string)>,
                   seen: set<DedupeKey>): Resolution
  {
    if !Truthy(ref.activity) then NoName
    else
      var act := ref.activity.value;
      var title := if Truthy(ref.group) then ref.group.value else spec.sourceGroupTitle;
      var found := Get(lookup, (title, act));
      if found.None? then NotFound(title, act)
      else
        var e := DepEdge(spec.sourceActionId, spec.sourceActionName, spec.sourceGroupId, spec.sourceGroupTitle,
          found.value.0, act, found.value.1, title, ref.relType.GetOr("depends_on"));
        if KeyOf(e) in seen then Duplicate else Fresh(e)
  }

  /** `dependency_edges`, `dependency_warnings`, `dependency_counts` and
      `seen_dependencies`. */
  datatype Resolved = Resolved(
    edges: seq<DepEdge>,
    warnings: seq<DepWarning>,
    counts: Dict<string, nat>,
    seen: set<DedupeKey>)

  const NothingResolved := Resolved([], [], [], {})

  /** One pass of the inner loop. */
  function ResolveStep(r: Resolved, spec: DepSpec, ref: DepRef,
                       lookup: Dict<(string, string), (string, string)>): Resolved
  {
    match Resolve(spec, ref, lookup, r.seen)
    case NoName =>
      r.(warnings := r.warnings + [DepWarning(spec.sourceActionId, spec.sourceActionName, MissingActivityName)])
    case NotFound(title, act) =>
      r.(warnings := r.warnings + [DepWarning(spec.sourceActionId, spec.sourceActionName, TargetNotFound(title, act))])
    case Duplicate => r
    case Fresh(e) =>
      r.(edges := r.edges + [e], counts := Add(r.counts, e.relType, 1), seen := r.seen + {KeyOf(e)})
  }

  /** The inner loop (line 244) over the references of one spec. */
  function ResolveRefs(r: Resolved, spec: DepSpec, refs: seq<DepRef>,
                       lookup: Dict<(string, string), (string, string)>): Resolved
    decreases |refs|
  {
    if refs == [] then r
    else ResolveStep(ResolveRefs(r, spec, refs[..|refs| - 1], lookup), spec, refs[|refs| - 1], lookup)
  }

  /** The outer loop (line 243) over the dependency specs. */
  function ResolveSpecs(r: Resolved, specs: seq<DepSpec>,
                        lookup: Dict<(string, string), (string, string)>): Resolved
    decreases |specs|
  {
    if specs == [] then r
    else
      var r0 := ResolveSpecs(r, specs[..|specs| - 1], lookup);
      var s := specs[|specs| - 1];
      ResolveRefs(r0, s, s.dependsOn, lookup)
  }

  /** One more reference resolved. */
  lemma ResolveRefsSnoc(r: Resolved, spec: DepSpec, refs: seq<DepRef>, j: nat,
                        lookup: Dict<(string, string), (string, string)>)
    requires j < |refs|
    ensures ResolveRefs(r, spec, refs[..j + 1], lookup) == ResolveStep(ResolveRefs(r, spec, refs[..j], lookup), spec, refs[j], lookup)
  {
    assert refs[..j + 1][..j] == refs[..j];
  }

  /** One more spec resolved. */
  lemma ResolveSpecsSnoc(r: Resolved, specs: seq<DepSpec>, i: nat, lookup: Dict<(string, string), (string, string)>)
    requires i < |specs|
    ensures ResolveSpecs(r, specs[..i + 1], lookup) == ResolveRefs(ResolveSpecs(r, specs[..i], lookup), specs[i], specs[i].dependsOn, lookup)
  {
    assert specs[..i + 1][..i] == specs[..i];
  }

  /** Python's `<` on two `str` values. */
  predicate StrLt(a: string, b: string) {
    a != b && StrLe(a, b)
  }

  /** Python's `<=` on two tuples of `str` of the same length. */
  predicate TupleLe(xs: seq<string>, ys: seq<string>)
    requires |xs| == |ys|
  {
    xs == [] || StrLt(xs[0], ys[0]) || (xs[0] == ys[0] && TupleLe(xs[1..], ys[1..]))
  }

  /** The sort key of lines 292-299. */
  function SortKey(e: DepEdge): (k: seq<string>)
    ensures |k| == 5
  {
    [e.sourceGroupId, e.sourceActionName, e.targetGroupId, e.targetActionName, e.relType]
  }

  predicate ByDepKey(a: DepEdge, b: DepEdge) {
    TupleLe(SortKey(a), SortKey(b))
  }

  /** `dependency_edges.sort(key=...)`. */
  function SortDeps(edges: seq<DepEdge>): (s: seq<DepEdge>)
    ensures multiset(s) == multiset(edges)
  {
    Sort(edges, ByDepKey)
  }

  lemma {:induction false} TupleLeTotal(xs: seq<string>, ys: seq<string>)
    requires |xs| == |ys|
    ensures TupleLe(xs, ys) || TupleLe(ys, xs)
  {
    if xs != [] {
      StrLeTotal(xs[0], ys[0]);
      if xs[0] == ys[0] {
        TupleLeTotal(xs[1..], ys[1..]);
      }
    }
  }

  lemma StrLtTransitive(a: string, b: string, c: string)
    requires StrLe(a, b) && StrLe(b, c)
    requires StrLt(a, b) || StrLt(b, c)
    ensures StrLt(a, c)
  {
    StrLeTransitive(a, b, c);
    if a == c {
      StrLeAntisymmetric(a, b);
    }
  }

  lemma {:induction false} TupleLeTransitive(xs: seq<string>, ys: seq<string>, zs: seq<string>)
    requires |xs| == |ys| == |zs|
    requires TupleLe(xs, ys) && TupleLe(ys, zs)
    ensures TupleLe(xs, zs)
  {
    if xs != [] {
      if xs[0] == ys[0] && ys[0] == zs[0] {
        TupleLeTransitive(xs[1..], ys[1..], zs[1..]);
      } else if xs[0] != ys[0] && ys[0] != zs[0] {
        StrLtTransitive(xs[0], ys[0], zs[0]);
      }
    }
  }

  lemma ByDepKeyPreorder()
    ensures TotalPreorder(ByDepKey)
  {
    forall a, b ensures ByDepKey(a, b) || ByDepKey(b, a) {
      TupleLeTotal(SortKey(a), SortKey(b));
    }
    forall a, b, c | ByDepKey(a, b) && ByDepKey(b, c) ensures ByDepKey(a, c) {
      TupleLeTransitive(SortKey(a), SortKey(b), SortKey(c));
    }
  }

  /** How many edges have the given type. */
  function TypeCount(edges: seq<DepEdge>, t: string): nat
    decreases |edges|
  {
    if edges == [] then 0
    else TypeCount(edges[..|edges| - 1], t) + (if edges[|edges| - 1].relType == t then 1 else 0)
  }

  /** The bookkeeping the resolver keeps: `seen_dependencies` is the set of keys of the
      edges, no two edges share a key, `dependency_counts` counts the edges of each type,
      and its values add up to the number of edges. */
  ghost predicate Consistent(r: Resolved) {
    && r.seen == (set e | e in r.edges :: KeyOf(e))
    && KeysDistinct(r.edges, KeyOf)
    && (forall t :: Count(r.counts, t) == TypeCount(r.edges, t))
    && Total(r.counts) == |r.edges|
  }

  lemma NothingResolvedConsistent()
    ensures Consistent(NothingResolved)
  {
  }

  /** Each reference meets exactly one of four fates, decided by the reference alone, by
      the lookup table, and by the edges kept so far: no usable activity name, a target
      missing from the table, a triple already kept, or a new edge. */
  lemma ResolveCases(r: Resolved, spec: DepSpec, ref: DepRef, lookup: Dict<(string, string), (string, string)>)
    requires Consistent(r)
    ensures var res := Resolve(spec, ref, lookup, r.seen);
      var name := ref.activity.GetOr("");
      var title := if Truthy(ref.group) then ref.group.value else spec.sourceGroupTitle;
      var found := Get(lookup, (title, name));
      var kept := found.Some? &&
        exists e :: e in r.edges && KeyOf(e) == (spec.sourceActionId, found.value.0, ref.relType.GetOr("depends_on"));
      && (res.NoName? <==> !Truthy(ref.activity))
      && (res.NotFound? <==> Truthy(ref.activity) && (title, name) !in Keys(lookup))
      && (res.NotFound? ==> res == NotFound(title, name))
      && (res.Duplicate? <==> Truthy(ref.activity) && (title, name) in Keys(lookup) && kept)
      && (res.Fresh? <==> Truthy(ref.activity) && (title, name) in Keys(lookup) && !kept)
  {
    var title := if Truthy(ref.group) then ref.group.value else spec.sourceGroupTitle;
    GetFound(lookup, (title, ref.activity.GetOr("")));
  }

  /** A resolved edge copies the source fields of its spec, names the referenced activity
      under the defaulted group title (the reference's own `group` when truthy, else the
      source group's title), points at the action and group the lookup table files under
      that pair, whose ids are built from that title's slug and the name, and has the
      reference's `type`, `depends_on` by default. */
  lemma ResolvedTarget(spec: DepSpec, ref: DepRef, lookup: Dict<(string, string), (string, string)>,
                       seen: set<DedupeKey>)
    requires LookupOk(lookup)
    requires Resolve(spec, ref, lookup, seen).Fresh?
    ensures var e := Resolve(spec, ref, lookup, seen).edge;
      var title := if Truthy(ref.group) then ref.group.value else spec.sourceGroupTitle;
      && Truthy(ref.activity)
      && e.sourceActionId == spec.sourceActionId && e.sourceActionName == spec.sourceActionName
      && e.sourceGroupId == spec.sourceGroupId && e.sourceGroupTitle == spec.sourceGroupTitle
      && e.targetGroupTitle == title && e.targetActionName == ref.activity.value
      && Get(lookup, (title, ref.activity.value)) == Some((e.targetActionId, e.targetGroupId))
      && e.targetGroupId == Slugify(e.targetGroupTitle)
      && e.targetActionId == ActionId(Slugify(e.targetGroupTitle), e.targetActionName)
      && e.relType == ref.relType.GetOr("depends_on")
      && KeyOf(e) !in seen
  {
    var title := if Truthy(ref.group) then ref.group.value else spec.sourceGroupTitle;
    var k := (title, ref.activity.value);
    GetEntry(lookup, k);
  }

  /** What one reference changes: a warning alone for the first two outcomes, nothing for
      a duplicate, and for a new edge the edge, its key and one more of its type. */
  lemma ResolveStepEffect(r: Resolved, spec: DepSpec, ref: DepRef, lookup: Dict<(string, string), (string, string)>)
    ensures var r' := ResolveStep(r, spec, ref, lookup);
      match Resolve(spec, ref, lookup, r.seen)
      case NoName => r' == r.(warnings := r.warnings + [DepWarning(spec.sourceActionId, spec.sourceActionName,
                                                                   MissingActivityName)])
      case NotFound(t, a) => r' == r.(warnings := r.warnings + [DepWarning(spec.sourceActionId,
                                                                           spec.sourceActionName, TargetNotFound(t, a))])
      case Duplicate => r' == r
      case Fresh(e) => && r'.edges == r.edges + [e] && r'.warnings == r.warnings
                       && Count(r'.counts, e.relType) == Count(r.counts, e.relType) + 1
                       && r'.seen == r.seen + {KeyOf(e)}
  {
    match Resolve(spec, ref, lookup, r.seen)
    case Fresh(e) => CountAdd(r.counts, e.relType, 1, e.relType);
    case _ =>
  }

  lemma {:induction false} TypeCountSnoc(edges: seq<DepEdge>, e: DepEdge, t: string)
    ensures TypeCount(edges + [e], t) == TypeCount(edges, t) + (if e.relType == t then 1 else 0)
  {
    assert (edges + [e])[..|edges|] == edges;
  }

  /** One reference keeps the bookkeeping consistent. */
  lemma ResolveStepConsistent(r: Resolved, spec: DepSpec, ref: DepRef,
                              lookup: Dict<(string, string), (string, string)>)
    requires Consistent(r)
    ensures Consistent(ResolveStep(r, spec, ref, lookup))
  {
    match Resolve(spec, ref, lookup, r.seen)
    case Fresh(e) =>
      var r' := ResolveStep(r, spec, ref, lookup);
      assert r'.edges == r.edges + [e];
      assert forall x :: x in r'.edges <==> x in r.edges || x == e;
      forall x | x in r.edges ensures KeyOf(x) != KeyOf(e) {
      }
      ConsKeysDistinctSnoc(r.edges, e);
      forall t ensures Count(r'.counts, t) == TypeCount(r'.edges, t) {
        CountAdd(r.counts, e.relType, 1, t);
        TypeCountSnoc(r.edges, e, t);
      }
      TotalAdd(r.counts, e.relType, 1);
    case _ =>
  }

  lemma ConsKeysDistinctSnoc(s: seq<DepEdge>, e: DepEdge)
    requires KeysDistinct(s, KeyOf)
    requires forall x :: x in s ==> KeyOf(x) != KeyOf(e)
    ensures KeysDistinct(s + [e], KeyOf)
  {
    forall i, j | 0 <= i < j < |s| + 1 ensures KeyOf((s + [e])[i]) != KeyOf((s + [e])[j]) {
      if j == |s| {
        assert (s + [e])[i] in s;
      }
    }
  }

  lemma {:induction false} ResolveRefsConsistent(r: Resolved, spec: DepSpec, refs: seq<DepRef>,
                                                lookup: Dict<(string, string), (string, string)>)
    requires Consistent(r)
    ensures Consistent(ResolveRefs(r, spec, refs, lookup))
    decreases |refs|
  {
    if refs != [] {
      ResolveRefsConsistent(r, spec, refs[..|refs| - 1], lookup);
      ResolveStepConsistent(ResolveRefs(r, spec, refs[..|refs| - 1], lookup), spec, refs[|refs| - 1], lookup);
    }
  }

  /** The whole resolution keeps the bookkeeping consistent: no two edges share
      `(source, target, type)`, and the per-type counts add up to the number of edges. */
  lemma {:induction false} ResolveSpecsConsistent(r: Resolved, specs: seq<DepSpec>,
                                                 lookup: Dict<(string, string), (string, string)>)
    requires Consistent(r)
    ensures Consistent(ResolveSpecs(r, specs, lookup))
    decreases |specs|
  {
    if specs != [] {
      var r0 := ResolveSpecs(r, specs[..|specs| - 1], lookup);
      ResolveSpecsConsistent(r, specs[..|specs| - 1], lookup);
      ResolveRefsConsistent(r0, specs[|specs| - 1], specs[|specs| - 1].dependsOn, lookup);
    }
  }

  /** The final edge list holds the resolved edges, sorted by (source group id, source
      action name, target group id, target action name, type), still with no two edges
      sharing `(source, target, type)`, and `total`, the number of edges, is the sum of
      `counts_by_type`. */
  lemma SortDepsSpec(r: Resolved)
    requires Consistent(r)
    ensures var s := SortDeps(r.edges);
      && multiset(s) == multiset(r.edges)
      && SortedBy(s, ByDepKey)
      && KeysDistinct(s, KeyOf)
      && Total(r.counts) == |s|
  {
    ByDepKeyPreorder();
    SortSorted(r.edges, ByDepKey);
    SortKeepsKeysDistinct(r.edges, KeyOf, ByDepKey);
  }

  /** An edge whose target is the action the catalog files under the target group title
      and activity name. */
  predicate TargetOk(e: DepEdge) {
    e.targetGroupId == Slugify(e.targetGroupTitle) && e.targetActionId == ActionId(e.targetGroupId, e.targetActionName)
  }

  lemma ResolveStepTargets(r: Resolved, spec: DepSpec, ref: DepRef, lookup: Dict<(string, string), (string, string)>)
    requires LookupOk(lookup)
    requires forall e :: e in r.edges ==> TargetOk(e)
    ensures forall e :: e in ResolveStep(r, spec, ref, lookup).edges ==> TargetOk(e)
  {
    var res := Resolve(spec, ref, lookup, r.seen);
    if res.Fresh? {
      ResolvedTarget(spec, ref, lookup, r.seen);
      assert forall e :: e in r.edges + [res.edge] ==> e in r.edges || e == res.edge;
    }
  }

  lemma {:induction false} ResolveRefsTargets(r: Resolved, spec: DepSpec, refs: seq<DepRef>,
                                             lookup: Dict<(string, string), (string, string)>)
    requires LookupOk(lookup)
    requires forall e :: e in r.edges ==> TargetOk(e)
    ensures forall e :: e in ResolveRefs(r, spec, refs, lookup).edges ==> TargetOk(e)
    decreases |refs|
  {
    if refs != [] {
      ResolveRefsTargets(r, spec, refs[..|refs| - 1], lookup);
      ResolveStepTargets(ResolveRefs(r, spec, refs[..|refs| - 1], lookup), spec, refs[|refs| - 1], lookup);
    }
  }

  /** Every resolved edge points at the action id and group id the catalog builds from its
      target group title and activity name, whichever references produced it. */
  lemma {:induction false} ResolveSpecsTargets(r: Resolved, specs: seq<DepSpec>,
                                              lookup: Dict<(string, string), (string, string)>)
    requires LookupOk(lookup)
    requires forall e :: e in r.edges ==> TargetOk(e)
    ensures forall e :: e in ResolveSpecs(r, specs, lookup).edges ==> TargetOk(e)
    decreases |specs|
  {
    if specs != [] {
      var r0 := ResolveSpecs(r, specs[..|specs| - 1], lookup);
      ResolveSpecsTargets(r, specs[..|specs| - 1], lookup);
      ResolveRefsTargets(r0, specs[|specs| - 1], specs[|specs| - 1].dependsOn, lookup);
    }
  }
}
