/** The action catalog, the group and activity loop of `main` (scripts/enrich_raci.py:
    123-210), as a specification over values: `State` holds the accumulators of lines
    112-121, `Work` adds the per-activity `letter_roles` and per-group `group_edge_counts`
    locals, and every loop is a left fold of one step function over its input. */
module Catalog {
  import opened Options
  import opened Slugs
  import opened Tokens
  import opened OrderedDicts
  import opened Sorting
  import opened Text
  import opened Roles
  import opened Dataset

  /** `canonical_roles`, `role_usage`, `group_records`, `action_records`, `relationships`,
      `dependency_specs`, `action_lookup`, `action_warnings` and `group_summary`. */
  datatype State = State(
    roles: Dict<string, Role>,
    usage: Dict<string, nat>,
    groups: seq<GroupRecord>,
    actions: seq<ActionRecord>,
    edges: seq<Edge>,
    specs: seq<DepSpec>,
    lookup: Dict<(string, string), (string, string)>,
    warnings: seq<ActionWarning>,
    summary: Dict<string, GroupSummary>)

  /** The accumulators as `main` initialises them. */
  const Initial := State([], [], [], [], [], [], [], [], [])

  /** The state inside an activity: the accumulators, `letter_roles` and `group_edge_counts`. */
  datatype Work = Work(st: State, letterRoles: map<char, seq<string>>, groupCounts: Dict<char, nat>)

  /** `{letter: [] for letter in VALID_RACI}` (line 144). */
  const NoLetterRoles: map<char, seq<string>> := map['R' := [], 'A' := [], 'C' := [], 'I' := []]

  predicate HasRaciKeys(m: map<char, seq<string>>) {
    'R' in m && 'A' in m && 'C' in m && 'I' in m
  }

  /** The id of an action: `f"{group_id}__{slugify(action_name)}"`. */
  function ActionId(groupId: string, name: string): string {
    groupId + "__" + Slugify(name)
  }

  /** One pass of the letter loop (lines 163-172). */
  function EmitLetter(w: Work, actionId: string, roleId: string, groupId: string, l: char): (w': Work)
    requires l in w.letterRoles
    ensures w'.letterRoles.Keys == w.letterRoles.Keys
  {
    Work(
      w.st.(edges := w.st.edges + [Edge(actionId, roleId, l, groupId)]),
      w.letterRoles[l := w.letterRoles[l] + [roleId]],
      Add(w.groupCounts, l, 1))
  }

  /** The letter loop over `normalized_letters` (lines 162-172). */
  function EmitLetters(w: Work, actionId: string, roleId: string, groupId: string, letters: string): (w': Work)
    requires AllRaci(letters) && HasRaciKeys(w.letterRoles)
    ensures w'.letterRoles.Keys == w.letterRoles.Keys
    decreases |letters|
  {
    if letters == [] then w
    else
      var init := letters[..|letters| - 1];
      assert AllRaci(init);
      EmitLetter(EmitLetters(w, actionId, roleId, groupId, init), actionId, roleId, groupId, letters[|letters| - 1])
  }

  /** One assignment of an activity (lines 147-172). */
  function AssignStep(w: Work, actionId: string, actionName: string, groupId: string, entry: (string, Cell)): (w': Work)
    requires HasRaciKeys(w.letterRoles)
    ensures w'.letterRoles.Keys == w.letterRoles.Keys
  {
    var reg := Register(w.st.roles, entry.0);
    var st := w.st.(roles := reg.roles);
    var letters := CellLetters(entry.1);
    if letters == [] then
      Work(st.(warnings := st.warnings + [ActionWarning(actionId, actionName, NoValidTokens(entry.0))]),
        w.letterRoles, w.groupCounts)
    else
      EmitLetters(Work(st.(usage := Add(st.usage, reg.role.id, |letters|)), w.letterRoles, w.groupCounts),
        actionId, reg.role.id, groupId, letters)
  }

  /** The assignment loop (line 146) over entries already in the order it visits them. */
  function AssignAll(w: Work, actionId: string, actionName: string, groupId: string, entries: seq<(string, Cell)>): (w': Work)
    requires HasRaciKeys(w.letterRoles)
    ensures w'.letterRoles.Keys == w.letterRoles.Keys
    decreases |entries|
  {
    if entries == [] then w
    else
      var w0 := AssignAll(w, actionId, actionName, groupId, entries[..|entries| - 1]);
      AssignStep(w0, actionId, actionName, groupId, entries[|entries| - 1])
  }

  /** The order of `sorted(assignments.items())`: by raw role name. */
  predicate ByRoleName(a: (string, Cell), b: (string, Cell)) {
    StrLe(a.0, b.0)
  }

  function SortedAssignments(entries: seq<(string, Cell)>): seq<(string, Cell)> {
    Sort(entries, ByRoleName)
  }

  /** The letters checked at line 175, with the label each warning uses. */
  const Critical: seq<(char, string)> := [('R', "Responsible"), ('A', "Accountable")]

  lemma CriticalLettersPresent(m: map<char, seq<string>>)
    requires HasRaciKeys(m)
    ensures forall c :: c in Critical ==> c.0 in m
  {
    forall c | c in Critical ensures c.0 in m {
      assert c == Critical[0] || c == Critical[1];
    }
  }

  /** The check of lines 176-192 on the role ids collected for one letter. */
  function CriticalIssue(roleIds: seq<string>, duty: string): Option<Issue> {
    if roleIds == [] then Some(MissingCritical(duty))
    else if |roleIds| > 1 then Some(MultipleCritical(duty, roleIds))
    else None
  }

  /** The warnings of the loop at line 175 over `checks`. */
  function CriticalWarnings(actionId: string, actionName: string, letterRoles: map<char, seq<string>>,
                            checks: seq<(char, string)>): (ws: seq<ActionWarning>)
    requires forall c :: c in checks ==> c.0 in letterRoles
    ensures |ws| <= |checks|
    ensures forall i :: 0 <= i < |ws| ==> ws[i].actionId == actionId && ws[i].actionName == actionName
    decreases |checks|
  {
    if checks == [] then []
    else
      var c := checks[|checks| - 1];
      var issue := CriticalIssue(letterRoles[c.0], c.1);
      CriticalWarnings(actionId, actionName, letterRoles, checks[..|checks| - 1])
        + (if issue.Some? then [ActionWarning(actionId, actionName, issue.value)] else [])
  }

  /** The start of an activity (lines 137-141): its action record and lookup entry. */
  function OpenAction(st: State, title: string, groupId: string, act: Activity): State {
    var actionId := ActionId(groupId, act.name);
    st.(actions := st.actions + [ActionRecord(actionId, act.name, groupId, act.details)],
        lookup := Put(st.lookup, (title, act.name), (actionId, groupId)))
  }

  /** The end of an activity (lines 174-204): the R/A warnings and the dependency spec. */
  function CloseAction(st: State, letterRoles: map<char, seq<string>>, title: string, groupId: string,
                       act: Activity): State
    requires HasRaciKeys(letterRoles)
  {
    var actionId := ActionId(groupId, act.name);
    CriticalLettersPresent(letterRoles);
    var st1 := st.(warnings := st.warnings + CriticalWarnings(actionId, act.name, letterRoles, Critical));
    if act.dependsOn == [] then st1
    else st1.(specs := st1.specs + [DepSpec(actionId, act.name, groupId, title, act.dependsOn)])
  }

  /** One activity (lines 137-204). The `letter_roles` of the activity is left in the
      result for the properties about it. */
  function ActivityStep(w: Work, title: string, groupId: string, act: Activity): (w': Work)
    ensures HasRaciKeys(w'.letterRoles)
  {
    var w0 := Work(OpenAction(w.st, title, groupId, act), NoLetterRoles, w.groupCounts);
    assert HasRaciKeys(NoLetterRoles);
    var w1 := AssignAll(w0, ActionId(groupId, act.name), act.name, groupId, SortedAssignments(act.assignments));
    Work(CloseAction(w1.st, w1.letterRoles, title, groupId, act), w1.letterRoles, w1.groupCounts)
  }

  /** The activity loop of a group (line 136). */
  function ActivityAll(w: Work, title: string, groupId: string, acts: seq<Activity>): Work
    decreases |acts|
  {
    if acts == [] then w
    else ActivityStep(ActivityAll(w, title, groupId, acts[..|acts| - 1]), title, groupId, acts[|acts| - 1])
  }

  /** One group-level role declaration (lines 131-132): registered, and its id made a key
      of `role_usage` without changing its count. */
  function DeclareRole(st: State, raw: string): State {
    var reg := Register(st.roles, raw);
    st.(roles := reg.roles, usage := Add(st.usage, reg.role.id, 0))
  }

  /** The group-level role loop (line 130). */
  function DeclareRoles(st: State, raws: seq<string>): State
    decreases |raws|
  {
    if raws == [] then st else DeclareRole(DeclareRoles(st, raws[..|raws| - 1]), raws[|raws| - 1])
  }

  /** One group (lines 124-210). */
  function GroupStep(st: State, g: Group): State {
    var groupId := Slugify(g.title);
    var st1 := st.(groups := st.groups + [GroupRecord(groupId, g.title, g.description)]);
    var st2 := DeclareRoles(st1, g.roles);
    var w := ActivityAll(Work(st2, NoLetterRoles, []), g.title, groupId, g.activities);
    w.st.(summary := Put(w.st.summary, groupId, GroupSummary(g.title, |g.activities|, w.groupCounts)))
  }

  /** The group loop (line 123). */
  function CatalogAll(st: State, groups: seq<Group>): State
    decreases |groups|
  {
    if groups == [] then st else GroupStep(CatalogAll(st, groups[..|groups| - 1]), groups[|groups| - 1])
  }
}
