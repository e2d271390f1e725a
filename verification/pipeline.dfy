/** The body of `main` (scripts/enrich_raci.py:108-300) as an object whose fields are the
    accumulators of lines 112-121 and 239-242, with one method per stage: the catalog
    loops, the role summaries and the dependency resolution. Each method is proved to
    leave the fields as the corresponding fold of the specification computes them. */
module Pipeline {
  import opened Options
  import opened Text
  import opened Slugs
  import opened Tokens
  import opened OrderedDicts
  import opened Sorting
  import opened Roles
  import opened Dataset
  import opened Catalog
  import opened Metrics
  import opened Dependencies
  import opened CatalogProps

  class Enricher {
    /** `canonical_roles`. */
    const registry: RoleRegistry
    var usage: Dict<string, nat>
    var groups: seq<GroupRecord>
    var actions: seq<ActionRecord>
    var edges: seq<Edge>
    var specs: seq<DepSpec>
    var lookup: Dict<(string, string), (string, string)>
    var warnings: seq<ActionWarning>
    var summary: Dict<string, GroupSummary>
    var roleSummaries: seq<RoleSummary>
    var overloaded: seq<RoleSummary>
    var depEdges: seq<DepEdge>
    var depWarnings: seq<DepWarning>
    var depCounts: Dict<string, nat>
    var seen: set<DedupeKey>

    /** The catalog accumulators as one value. */
    function Catalogued(): State
      reads this, registry
    {
      State(registry.roles, usage, groups, actions, edges, specs, lookup, warnings, summary)
    }

    /** The resolver accumulators as one value. */
    function Resolution(): Resolved
      reads this
    {
      Resolved(depEdges, depWarnings, depCounts, seen)
    }

    /** The fields the catalog stage leaves alone: the resolver accumulators and the role
        metrics. */
    function Downstream(): (Resolved, seq<RoleSummary>, seq<RoleSummary>)
      reads this
    {
      (Resolution(), roleSummaries, overloaded)
    }

    constructor ()
      ensures fresh(registry)
      ensures Catalogued() == Initial
    {
      registry := new RoleRegistry();
      usage, groups, actions, edges, specs, lookup, warnings, summary := [], [], [], [], [], [], [], [];
      roleSummaries, overloaded := [], [];
      depEdges, depWarnings, depCounts, seen := [], [], [], {};
    }

    /** The letter loop of one role on one action (lines 162-172). */
    method RecordLetters(actionId: string, roleId: string, groupId: string, letters: string,
                         lr0: map<char, seq<string>>, gc0: Dict<char, nat>)
      returns (lr: map<char, seq<string>>, gc: Dict<char, nat>)
      requires AllRaci(letters) && HasRaciKeys(lr0)
      modifies this
      ensures Downstream() == old(Downstream())
      ensures Work(Catalogued(), lr, gc)
           == EmitLetters(Work(old(Catalogued()), lr0, gc0), actionId, roleId, groupId, letters)
    {
      lr, gc := lr0, gc0;
      ghost var w := Work(Catalogued(), lr, gc);
      var i := 0;
      while i < |letters|
        invariant Downstream() == old(Downstream())
        invariant 0 <= i <= |letters|
        invariant HasRaciKeys(w.letterRoles)
        invariant w == EmitLetters(Work(old(Catalogued()), lr0, gc0), actionId, roleId, groupId, letters[..i])
        invariant Catalogued() == w.st && lr == w.letterRoles && gc == w.groupCounts
      {
        var letter := letters[i];
        edges := edges + [Edge(actionId, roleId, letter, groupId)];
        lr := lr[letter := lr[letter] + [roleId]];
        gc := Add(gc, letter, 1);
        EmitLettersSnoc(Work(old(Catalogued()), lr0, gc0), actionId, roleId, groupId, letters, i);
        w := EmitLetter(w, actionId, roleId, groupId, letter);
        i := i + 1;
      }
      assert letters[..|letters|] == letters;
    }

    /** One assignment of an action (lines 147-172): the role is registered, its tokens
        normalised, and either a warning or its edges recorded. */
    method AssignRole(actionId: string, actionName: string, groupId: string, entry: (string, Cell),
                      lr0: map<char, seq<string>>, gc0: Dict<char, nat>)
      returns (lr: map<char, seq<string>>, gc: Dict<char, nat>)
      requires HasRaciKeys(lr0)
      modifies this, registry
      ensures Downstream() == old(Downstream())
      ensures Work(Catalogued(), lr, gc) == AssignStep(Work(old(Catalogued()), lr0, gc0), actionId, actionName, groupId, entry)
    {
      if CellLetters(entry.1) == [] {
        lr, gc := WarnNoTokens(actionId, actionName, groupId, entry, lr0, gc0);
      } else {
        lr, gc := AssignLetters(actionId, actionName, groupId, entry, lr0, gc0);
      }
    }

    /** An assignment whose cell yields no RACI letter (lines 153-160): the role is still
        registered, and the action gets a warning. */
    method WarnNoTokens(actionId: string, actionName: string, groupId: string, entry: (string, Cell),
                        lr0: map<char, seq<string>>, gc0: Dict<char, nat>)
      returns (lr: map<char, seq<string>>, gc: Dict<char, nat>)
      requires HasRaciKeys(lr0) && CellLetters(entry.1) == []
      modifies this, registry
      ensures Downstream() == old(Downstream())
      ensures Work(Catalogued(), lr, gc) == AssignStep(Work(old(Catalogued()), lr0, gc0), actionId, actionName, groupId, entry)
    {
      var role, _ := registry.NormalizeRoleName(entry.0);
      warnings := warnings + [ActionWarning(actionId, actionName, NoValidTokens(entry.0))];
      lr, gc := lr0, gc0;
      AssignStepNoLetters(Work(old(Catalogued()), lr0, gc0), actionId, actionName, groupId, entry);
    }

    /** An assignment whose cell yields letters (lines 147-151 and 161-172): the role is
        registered, its usage raised by the number of letters and one edge recorded per
        letter. */
    method AssignLetters(actionId: string, actionName: string, groupId: string, entry: (string, Cell),
                         lr0: map<char, seq<string>>, gc0: Dict<char, nat>)
      returns (lr: map<char, seq<string>>, gc: Dict<char, nat>)
      requires HasRaciKeys(lr0) && CellLetters(entry.1) != []
      modifies this, registry
      ensures Downstream() == old(Downstream())
      ensures Work(Catalogued(), lr, gc) == AssignStep(Work(old(Catalogued()), lr0, gc0), actionId, actionName, groupId, entry)
    {
      ghost var st0 := Catalogued();
      ghost var reg := Register(st0.roles, entry.0);
      var role, _ := registry.NormalizeRoleName(entry.0);
      assert registry.roles == reg.roles && role == reg.role;
      var letters := CellLetters(entry.1);
      usage := Add(usage, role.id, |letters|);
      ghost var st1 := st0.(roles := reg.roles, usage := Add(st0.usage, reg.role.id, |letters|));
      assert Catalogued() == st1;
      lr, gc := RecordLetters(actionId, role.id, groupId, letters, lr0, gc0);
      assert Work(Catalogued(), lr, gc) == EmitLetters(Work(st1, lr0, gc0), actionId, reg.role.id, groupId, letters);
      AssignStepLetters(Work(st0, lr0, gc0), actionId, actionName, groupId, entry);
    }

    /** The assignment loop of one action (line 146) over the entries in the order it
        visits them. */
    method AssignRoles(actionId: string, actionName: string, groupId: string, entries: seq<(string, Cell)>,
                       lr0: map<char, seq<string>>, gc0: Dict<char, nat>)
      returns (lr: map<char, seq<string>>, gc: Dict<char, nat>)
      requires HasRaciKeys(lr0)
      modifies this, registry
      ensures Downstream() == old(Downstream())
      ensures Work(Catalogued(), lr, gc)
           == AssignAll(Work(old(Catalogued()), lr0, gc0), actionId, actionName, groupId, entries)
    {
      lr, gc := lr0, gc0;
      ghost var w := Work(Catalogued(), lr, gc);
      var i := 0;
      while i < |entries|
        invariant Downstream() == old(Downstream())
        invariant 0 <= i <= |entries|
        invariant HasRaciKeys(w.letterRoles)
        invariant w == AssignAll(Work(old(Catalogued()), lr0, gc0), actionId, actionName, groupId, entries[..i])
        invariant Work(Catalogued(), lr, gc) == w
      {
        lr, gc := AssignRole(actionId, actionName, groupId, entries[i], lr, gc);
        AssignAllSnoc(Work(old(Catalogued()), lr0, gc0), actionId, actionName, groupId, entries, i);
        w := AssignStep(w, actionId, actionName, groupId, entries[i]);
        i := i + 1;
      }
      assert entries[..|entries|] == entries;
    }

    /** The R/A check of one activity (lines 174-192). */
    method CheckCritical(actionId: string, actionName: string, lr: map<char, seq<string>>)
      requires forall c :: c in Critical ==> c.0 in lr
      modifies this
      ensures Downstream() == old(Downstream())
      ensures Catalogued() == old(Catalogued()).(warnings := old(warnings) + CriticalWarnings(actionId, actionName, lr, Critical))
    {
      var found: seq<ActionWarning> := [];
      var k := 0;
      while k < |Critical|
        invariant 0 <= k <= |Critical|
        invariant found == CriticalWarnings(actionId, actionName, lr, Critical[..k])
        modifies {}
      {
        var letter := Critical[k].0;
        var duty := Critical[k].1;
        var roleIds := lr[letter];
        CriticalWarningsSnoc(actionId, actionName, lr, k);
        if roleIds == [] {
          found := found + [ActionWarning(actionId, actionName, MissingCritical(duty))];
        } else if |roleIds| > 1 {
          found := found + [ActionWarning(actionId, actionName, MultipleCritical(duty, roleIds))];
        }
        k := k + 1;
      }
      assert Critical[..|Critical|] == Critical;
      warnings := warnings + found;
    }

    /** The start of an activity (lines 137-141). */
    method OpenActivity(title: string, groupId: string, act: Activity) returns (actionId: string)
      modifies this
      ensures Downstream() == old(Downstream())
      ensures actionId == ActionId(groupId, act.name)
      ensures Catalogued() == OpenAction(old(Catalogued()), title, groupId, act)
    {
      actionId := ActionId(groupId, act.name);
      actions := actions + [ActionRecord(actionId, act.name, groupId, act.details)];
      lookup := Put(lookup, (title, act.name), (actionId, groupId));
    }

    /** One activity (lines 137-204); its `letter_roles` is returned with the group's
        letter counts. */
    method CatalogActivity(title: string, groupId: string, act: Activity, gc0: Dict<char, nat>)
      returns (lr: map<char, seq<string>>, gc: Dict<char, nat>)
      modifies this, registry
      ensures Downstream() == old(Downstream())
      ensures Work(Catalogued(), lr, gc) == ActivityStep(Work(old(Catalogued()), NoLetterRoles, gc0), title, groupId, act)
    {
      ghost var st0 := Catalogued();
      var actionId := OpenActivity(title, groupId, act);
      assert HasRaciKeys(NoLetterRoles);
      lr, gc := AssignRoles(actionId, act.name, groupId, SortedAssignments(act.assignments), NoLetterRoles, gc0);
      ghost var w1 := Work(Catalogued(), lr, gc);
      assert w1 == ActivityAssign(Work(st0, NoLetterRoles, gc0), title, groupId, act);
      CriticalLettersPresent(lr);
      CheckCritical(actionId, act.name, lr);
      assert Catalogued() == w1.st.(warnings := w1.st.warnings + CriticalWarnings(actionId, act.name, lr, Critical));
      if act.dependsOn != [] {
        specs := specs + [DepSpec(actionId, act.name, groupId, title, act.dependsOn)];
      }
      CloseActionWarnings(w1.st, lr, title, groupId, act);
      CloseActionSpecs(w1.st, lr, title, groupId, act);
      CloseActionKeeps(w1.st, lr, title, groupId, act);
      assert Catalogued() == CloseAction(w1.st, lr, title, groupId, act);
      ActivityStepParts(Work(st0, NoLetterRoles, gc0), title, groupId, act);
    }

    /** The group-level role loop (lines 130-132). */
    method DeclareGroupRoles(raws: seq<string>)
      modifies this, registry
      ensures Downstream() == old(Downstream())
      ensures Catalogued() == DeclareRoles(old(Catalogued()), raws)
    {
      ghost var st := Catalogued();
      var i := 0;
      while i < |raws|
        invariant Downstream() == old(Downstream())
        invariant 0 <= i <= |raws|
        invariant st == DeclareRoles(old(Catalogued()), raws[..i])
        invariant Catalogued() == st
      {
        ghost var reg := Register(st.roles, raws[i]);
        var role, _ := registry.NormalizeRoleName(raws[i]);
        assert registry.roles == reg.roles && role == reg.role;
        usage := Add(usage, role.id, 0);
        DeclareRolesSnoc(old(Catalogued()), raws, i);
        st := DeclareRole(st, raws[i]);
        i := i + 1;
      }
      assert raws[..|raws|] == raws;
    }

    /** The activity loop of a group (line 136); the counts are `group_edge_counts`. */
    method CatalogActivities(title: string, groupId: string, acts: seq<Activity>)
      returns (lr: map<char, seq<string>>, gc: Dict<char, nat>)
      modifies this, registry
      ensures Downstream() == old(Downstream())
      ensures Work(Catalogued(), lr, gc) == ActivityAll(Work(old(Catalogued()), NoLetterRoles, []), title, groupId, acts)
    {
      lr, gc := NoLetterRoles, [];
      ghost var w := Work(Catalogued(), lr, gc);
      var i := 0;
      while i < |acts|
        invariant Downstream() == old(Downstream())
        invariant 0 <= i <= |acts|
        invariant w == ActivityAll(Work(old(Catalogued()), NoLetterRoles, []), title, groupId, acts[..i])
        invariant Work(Catalogued(), lr, gc) == w
      {
        lr, gc := CatalogActivity(title, groupId, acts[i], gc);
        ActivityAllSnoc(Work(old(Catalogued()), NoLetterRoles, []), title, groupId, acts, i);
        w := ActivityStep(w, title, groupId, acts[i]);
        i := i + 1;
      }
      assert acts[..|acts|] == acts;
    }

    /** One group (lines 124-210). */
    method CatalogGroup(g: Group)
      modifies this, registry
      ensures Downstream() == old(Downstream())
      ensures Catalogued() == GroupStep(old(Catalogued()), g)
    {
      var groupId := Slugify(g.title);
      groups := groups + [GroupRecord(groupId, g.title, g.description)];
      ghost var st1 := Catalogued();
      assert st1 == old(Catalogued()).(groups := old(Catalogued()).groups + [GroupRecord(groupId, g.title, g.description)]);
      DeclareGroupRoles(g.roles);
      ghost var st2 := Catalogued();
      var lr, gc := CatalogActivities(g.title, groupId, g.activities);
      ghost var w := Work(Catalogued(), lr, gc);
      summary := Put(summary, groupId, GroupSummary(g.title, |g.activities|, gc));
      assert Catalogued() == w.st.(summary := Put(w.st.summary, groupId, GroupSummary(g.title, |g.activities|, w.groupCounts)));
    }

    /** The group loop (line 123). */
    method CatalogGroups(input: seq<Group>)
      modifies this, registry
      ensures Downstream() == old(Downstream())
      ensures Catalogued() == CatalogAll(old(Catalogued()), input)
    {
      ghost var st := Catalogued();
      var i := 0;
      while i < |input|
        invariant Downstream() == old(Downstream())
        invariant 0 <= i <= |input|
        invariant st == CatalogAll(old(Catalogued()), input[..i])
        invariant Catalogued() == st
      {
        CatalogGroup(input[i]);
        CatalogAllSnoc(old(Catalogued()), input, i);
        st := GroupStep(st, input[i]);
        i := i + 1;
      }
      assert input[..|input|] == input;
    }

    /** The tally of lines 213-215: `role_letter_counts`, a `defaultdict(Counter)` keyed by
        role id. Changes nothing. */
    method TallyLetters() returns (tally: map<string, Dict<char, nat>>)
      ensures forall id, l :: Tallied(tally, id, l) == LetterCount(edges, id, l)
    {
      tally := map[];
      var i := 0;
      while i < |edges|
        invariant 0 <= i <= |edges|
        invariant forall id, l :: Tallied(tally, id, l) == LetterCount(edges[..i], id, l)
      {
        var e := edges[i];
        var counter: Dict<char, nat> := if e.roleId in tally then tally[e.roleId] else [];
        ghost var before := tally;
        tally := tally[e.roleId := Add(counter, e.raci, 1)];
        forall id, l ensures Tallied(tally, id, l) == LetterCount(edges[..i + 1], id, l) {
          LetterCountSnoc(edges, i, id, l);
          CountAdd(counter, e.raci, 1, l);
          assert Tallied(before, id, l) == LetterCount(edges[..i], id, l);
        }
        i := i + 1;
      }
      assert edges[..|edges|] == edges;
    }

    /** The summary loop of lines 217-229 over `canonical_roles.values()`. Changes nothing. */
    method BuildSummaries(tally: map<string, Dict<char, nat>>) returns (ss: seq<RoleSummary>)
      requires forall id, l :: Tallied(tally, id, l) == LetterCount(edges, id, l)
      ensures ss == Summaries(Values(registry.roles), edges)
    {
      ghost var rs := Values(registry.roles);
      ss := [];
      var i := 0;
      while i < |registry.roles|
        invariant 0 <= i <= |registry.roles|
        invariant ss == Summaries(rs[..i], edges)
      {
        var role := registry.roles[i].1;
        var counts := LetterCounts(Tallied(tally, role.id, 'A'), Tallied(tally, role.id, 'C'),
                                   Tallied(tally, role.id, 'I'), Tallied(tally, role.id, 'R'));
        var total := counts.a + counts.c + counts.i + counts.r;
        ss := ss + [RoleSummary(role.id, role.name, role.aliases, counts, total)];
        SummariesSnoc(rs, edges, i);
        i := i + 1;
      }
      assert rs[..|rs|] == rs;
    }

    /** The role metrics (lines 212-237): `role_summary` and `overloaded_roles`. */
    method RoleMetrics()
      modifies this
      ensures Catalogued() == old(Catalogued()) && Resolution() == old(Resolution())
      ensures roleSummaries == Rank(Summaries(Values(registry.roles), edges))
      ensures overloaded == Overloaded(roleSummaries)
    {
      var tally := TallyLetters();
      var ss := BuildSummaries(tally);
      var ranked := Rank(ss);
      var top := Overloaded(ranked);
      roleSummaries, overloaded := ranked, top;
    }

    /** One reference of one spec (lines 245-290). */
    method ResolveReference(spec: DepSpec, ref: DepRef)
      modifies this
      ensures Resolution() == ResolveStep(old(Resolution()), spec, ref, lookup)
      ensures Catalogued() == old(Catalogued())
      ensures roleSummaries == old(roleSummaries) && overloaded == old(overloaded)
    {
      if !Truthy(ref.activity) {
        depWarnings := depWarnings + [DepWarning(spec.sourceActionId, spec.sourceActionName, MissingActivityName)];
        return;
      }
      var targetActivity := ref.activity.value;
      var targetGroupTitle := if Truthy(ref.group) then ref.group.value else spec.sourceGroupTitle;
      var found := Get(lookup, (targetGroupTitle, targetActivity));
      if found.None? {
        depWarnings := depWarnings + [DepWarning(spec.sourceActionId, spec.sourceActionName,
                                                 TargetNotFound(targetGroupTitle, targetActivity))];
        return;
      }
      var targetActionId := found.value.0;
      var targetGroupId := found.value.1;
      var relationType := ref.relType.GetOr("depends_on");
      var dedupeKey := (spec.sourceActionId, targetActionId, relationType);
      if dedupeKey in seen {
        return;
      }
      seen := seen + {dedupeKey};
      depEdges := depEdges + [DepEdge(spec.sourceActionId, spec.sourceActionName, spec.sourceGroupId,
                                      spec.sourceGroupTitle, targetActionId, targetActivity, targetGroupId,
                                      targetGroupTitle, relationType)];
      depCounts := Add(depCounts, relationType, 1);
    }

    /** The inner loop of the resolver (line 244). */
    method ResolveReferences(spec: DepSpec)
      modifies this
      ensures Resolution() == ResolveRefs(old(Resolution()), spec, spec.dependsOn, lookup)
      ensures Catalogued() == old(Catalogued())
      ensures roleSummaries == old(roleSummaries) && overloaded == old(overloaded)
    {
      ghost var r := Resolution();
      var j := 0;
      while j < |spec.dependsOn|
        invariant 0 <= j <= |spec.dependsOn|
        invariant r == ResolveRefs(old(Resolution()), spec, spec.dependsOn[..j], lookup)
        invariant Resolution() == r
        invariant Catalogued() == old(Catalogued())
        invariant roleSummaries == old(roleSummaries) && overloaded == old(overloaded)
      {
        ResolveReference(spec, spec.dependsOn[j]);
        ResolveRefsSnoc(old(Resolution()), spec, spec.dependsOn, j, lookup);
        r := ResolveStep(r, spec, spec.dependsOn[j], lookup);
        j := j + 1;
      }
      assert spec.dependsOn[..|spec.dependsOn|] == spec.dependsOn;
    }

    /** The dependency resolver (lines 239-300): its accumulators start empty, every spec
        is resolved in turn, and the edges are sorted at the end. */
    method ResolveDependencies()
      modifies this
      ensures var r := ResolveSpecs(NothingResolved, specs, lookup);
        Resolution() == r.(edges := SortDeps(r.edges))
      ensures Catalogued() == old(Catalogued())
      ensures roleSummaries == old(roleSummaries) && overloaded == old(overloaded)
    {
      depEdges, depWarnings, depCounts, seen := [], [], [], {};
      ghost var r := Resolution();
      var i := 0;
      while i < |specs|
        invariant 0 <= i <= |specs|
        invariant r == ResolveSpecs(NothingResolved, specs[..i], lookup)
        invariant Resolution() == r
        invariant Catalogued() == old(Catalogued())
        invariant roleSummaries == old(roleSummaries) && overloaded == old(overloaded)
      {
        ResolveReferences(specs[i]);
        ResolveSpecsSnoc(NothingResolved, specs, i, lookup);
        r := ResolveRefs(r, specs[i], specs[i].dependsOn, lookup);
        i := i + 1;
      }
      assert specs[..|specs|] == specs;
      depEdges := SortDeps(depEdges);
    }
  }

  /** `enriched_payload` (lines 302-320): the roles, group records, action records,
      relationships and dependency edges, and the metrics. */
  datatype Output = Output(
    roles: seq<Role>,
    groups: seq<GroupRecord>,
    actions: seq<ActionRecord>,
    relationships: seq<Edge>,
    dependencies: seq<DepEdge>,
    roleSummary: seq<RoleSummary>,
    overloaded: seq<RoleSummary>,
    actionWarnings: seq<ActionWarning>,
    groupSummary: Dict<string, GroupSummary>,
    dependencyTotal: nat,
    countsByType: Dict<string, nat>,
    dependencyWarnings: seq<DepWarning>)

  /** What the enrichment computes from the activity groups of the dataset. */
  function EnrichSpec(input: seq<Group>): Output {
    var st := CatalogAll(Initial, input);
    var ranked := Rank(Summaries(Values(st.roles), st.edges));
    var r := ResolveSpecs(NothingResolved, st.specs, st.lookup);
    var deps := SortDeps(r.edges);
    Output(Values(st.roles), st.groups, st.actions, st.edges, deps, ranked, Overloaded(ranked), st.warnings,
      st.summary, |deps|, r.counts, r.warnings)
  }

  /** The body of `main` from the parsed groups to the payload (lines 108-320). */
  method Enrich(input: seq<Group>) returns (out: Output)
    ensures out == EnrichSpec(input)
  {
    var e := new Enricher();
    e.CatalogGroups(input);
    e.RoleMetrics();
    e.ResolveDependencies();
    out := Output(Values(e.registry.roles), e.groups, e.actions, e.edges, e.depEdges, e.roleSummaries, e.overloaded,
      e.warnings, e.summary, |e.depEdges|, e.depCounts, e.depWarnings);
  }

  /** `activity_dependencies` holds the resolved edges sorted by (source group id, source
      action name, target group id, target action name, type), no two of them share
      (source action id, target action id, type), each targets the action the catalog
      built from its target group title and activity name, and `total` is both their
      number and the sum of `counts_by_type`. */
  lemma EnrichDependencies(input: seq<Group>)
    ensures var out := EnrichSpec(input);
      var st := CatalogAll(Initial, input);
      && multiset(out.dependencies) == multiset(ResolveSpecs(NothingResolved, st.specs, st.lookup).edges)
      && SortedBy(out.dependencies, ByDepKey)
      && KeysDistinct(out.dependencies, KeyOf)
      && (forall d :: d in out.dependencies ==> TargetOk(d))
      && out.dependencyTotal == |out.dependencies| == Total(out.countsByType)
  {
    var st := CatalogAll(Initial, input);
    var r := ResolveSpecs(NothingResolved, st.specs, st.lookup);
    NothingResolvedConsistent();
    ResolveSpecsConsistent(NothingResolved, st.specs, st.lookup);
    SortDepsSpec(r);
    CatalogAllLookup(Initial, input);
    ResolveSpecsTargets(NothingResolved, st.specs, st.lookup);
    forall d | d in SortDeps(r.edges) ensures TargetOk(d) {
      assert d in multiset(SortDeps(r.edges));
    }
  }

  /** Every entry of `role_summary` belongs to a registered role, holds that role's four
      letter counts over the relationships, and its total is their sum, which is the
      number of relationships naming the role; the entries are those of the registered
      roles, by non-increasing total, registration order kept among equal totals. */
  lemma EnrichRoleSummary(input: seq<Group>)
    ensures var out := EnrichSpec(input);
      var ss := Summaries(out.roles, out.relationships);
      && multiset(out.roleSummary) == multiset(ss)
      && (forall i, j :: 0 <= i < j < |out.roleSummary| ==> out.roleSummary[i].total >= out.roleSummary[j].total)
      && (forall y :: Ties(out.roleSummary, y, ByTotalDesc) == Ties(ss, y, ByTotalDesc))
      && (forall s :: s in out.roleSummary ==> Tallies(s, out.roles, out.relationships))
  {
    var st := CatalogAll(Initial, input);
    RankSpec(Summaries(Values(st.roles), st.edges));
    CatalogAllRaci(Initial, input);
    RankedTallies(Values(st.roles), st.edges);
  }

  /** `overloaded_roles` holds `min(3, #roles)` entries of `role_summary`, by
      non-increasing (R+A, total), and no entry left out ranks above one taken. */
  lemma EnrichOverloaded(input: seq<Group>)
    ensures var out := EnrichSpec(input);
      && |out.overloaded| == (if |out.roles| < 3 then |out.roles| else 3)
      && multiset(out.overloaded) <= multiset(out.roleSummary)
      && (forall i, j :: 0 <= i < j < |out.overloaded| ==> ByLoadDesc(out.overloaded[i], out.overloaded[j]))
      && (forall x, y :: x in multiset(out.overloaded) && y in multiset(out.roleSummary) - multiset(out.overloaded)
            ==> ByLoadDesc(x, y))
  {
    var out := EnrichSpec(input);
    OverloadedSpec(out.roleSummary);
  }

  /** `action_lookup` after the catalog files every activity's `(title, name)`, under the
      action id and group id built from them. */
  lemma EnrichLookup(input: seq<Group>)
    ensures var st := CatalogAll(Initial, input);
      && LookupOk(st.lookup)
      && (forall g, a :: g in input && a in g.activities ==> (g.title, a.name) in Keys(st.lookup))
  {
    CatalogAllLookup(Initial, input);
  }
}
