/** Properties of the action catalog: what one assignment adds, how `letter_roles` mirrors
    the edges of an activity, when the R/A warnings appear, and what the group summary and
    the lookup table hold. */
module CatalogProps {
  import opened Options
  import opened Seqs
  import opened Text
  import opened Sorting
  import opened Slugs
  import opened Tokens
  import opened OrderedDicts
  import opened Roles
  import opened Dataset
  import opened Catalog

  /** One more turn of the letter loop. */
  lemma EmitLettersSnoc(w: Work, actionId: string, roleId: string, groupId: string, letters: string, i: nat)
    requires i < |letters| && AllRaci(letters) && HasRaciKeys(w.letterRoles)
    ensures AllRaci(letters[..i]) && AllRaci(letters[..i + 1])
    ensures EmitLetters(w, actionId, roleId, groupId, letters[..i + 1])
         == EmitLetter(EmitLetters(w, actionId, roleId, groupId, letters[..i]), actionId, roleId, groupId, letters[i])
  {
    assert letters[..i + 1][..i] == letters[..i];
  }

  /** One more turn of the assignment loop. */
  lemma AssignAllSnoc(w: Work, actionId: string, actionName: string, groupId: string,
                      entries: seq<(string, Cell)>, i: nat)
    requires i < |entries| && HasRaciKeys(w.letterRoles)
    ensures AssignAll(w, actionId, actionName, groupId, entries[..i + 1])
         == AssignStep(AssignAll(w, actionId, actionName, groupId, entries[..i]), actionId, actionName, groupId, entries[i])
  {
    assert entries[..i + 1][..i] == entries[..i];
  }

  /** One assignment, for a role whose cell yields no letter. */
  lemma AssignStepNoLetters(w: Work, actionId: string, actionName: string, groupId: string, entry: (string, Cell))
    requires HasRaciKeys(w.letterRoles) && CellLetters(entry.1) == []
    ensures AssignStep(w, actionId, actionName, groupId, entry)
         == Work(w.st.(roles := Register(w.st.roles, entry.0).roles,
                       warnings := w.st.warnings + [ActionWarning(actionId, actionName, NoValidTokens(entry.0))]),
                 w.letterRoles, w.groupCounts)
  {
  }

  /** One assignment, for a role whose cell yields letters. */
  lemma AssignStepLetters(w: Work, actionId: string, actionName: string, groupId: string, entry: (string, Cell))
    requires HasRaciKeys(w.letterRoles) && CellLetters(entry.1) != []
    ensures var reg := Register(w.st.roles, entry.0);
      var letters := CellLetters(entry.1);
      AssignStep(w, actionId, actionName, groupId, entry)
        == EmitLetters(Work(w.st.(roles := reg.roles, usage := Add(w.st.usage, reg.role.id, |letters|)),
                            w.letterRoles, w.groupCounts), actionId, reg.role.id, groupId, letters)
  {
  }

  /** One more turn of the R/A check loop. */
  lemma CriticalWarningsSnoc(actionId: string, actionName: string, lr: map<char, seq<string>>, k: nat)
    requires k < |Critical|
    requires forall c :: c in Critical ==> c.0 in lr
    ensures CriticalWarnings(actionId, actionName, lr, Critical[..k + 1])
        == CriticalWarnings(actionId, actionName, lr, Critical[..k])
         + Warn(actionId, actionName, CriticalIssue(lr[Critical[k].0], Critical[k].1))
  {
    assert Critical[..k + 1][..k] == Critical[..k];
  }

  /** One more turn of the group-level role loop. */
  lemma DeclareRolesSnoc(st: State, raws: seq<string>, i: nat)
    requires i < |raws|
    ensures DeclareRoles(st, raws[..i + 1]) == DeclareRole(DeclareRoles(st, raws[..i]), raws[i])
  {
    assert raws[..i + 1][..i] == raws[..i];
  }

  /** One more turn of the activity loop. */
  lemma ActivityAllSnoc(w: Work, title: string, groupId: string, acts: seq<Activity>, i: nat)
    requires i < |acts|
    ensures ActivityAll(w, title, groupId, acts[..i + 1])
         == ActivityStep(ActivityAll(w, title, groupId, acts[..i]), title, groupId, acts[i])
  {
    assert acts[..i + 1][..i] == acts[..i];
  }

  /** One more turn of the group loop. */
  lemma CatalogAllSnoc(st: State, groups: seq<Group>, i: nat)
    requires i < |groups|
    ensures CatalogAll(st, groups[..i + 1]) == GroupStep(CatalogAll(st, groups[..i]), groups[i])
  {
    assert groups[..i + 1][..i] == groups[..i];
  }

  /** The raw role name of an assignment, the key of the `assignments` mapping. */
  function RoleName(entry: (string, Cell)): string {
    entry.0
  }

  lemma ByRoleNamePreorder()
    ensures TotalPreorder(ByRoleName)
  {
    forall a: (string, Cell), b: (string, Cell) ensures ByRoleName(a, b) || ByRoleName(b, a) {
      StrLeTotal(a.0, b.0);
    }
    forall a: (string, Cell), b: (string, Cell), c: (string, Cell) | ByRoleName(a, b) && ByRoleName(b, c)
      ensures ByRoleName(a, c)
    {
      StrLeTransitive(a.0, b.0, c.0);
    }
  }

  /** `sorted(assignments.items())` visits every assignment exactly once, in order of raw
      role name; the names of a mapping being distinct, that order is strict. */
  lemma SortedAssignmentsSpec(entries: seq<(string, Cell)>)
    ensures var r := SortedAssignments(entries);
      && multiset(r) == multiset(entries)
      && (forall i, j :: 0 <= i < j < |r| ==> StrLe(r[i].0, r[j].0))
      && (KeysDistinct(entries, RoleName) ==> forall i, j :: 0 <= i < j < |r| ==> r[i].0 != r[j].0)
  {
    var r := SortedAssignments(entries);
    ByRoleNamePreorder();
    SortSorted(entries, ByRoleName);
    assert forall i, j :: 0 <= i < j < |r| ==> ByRoleName(r[i], r[j]);
    if KeysDistinct(entries, RoleName) {
      SortKeepsKeysDistinct(entries, RoleName, ByRoleName);
      assert forall i, j :: 0 <= i < j < |r| ==> RoleName(r[i]) != RoleName(r[j]);
    }
  }

  /** The edges one role's letters produce on an action: one per letter, in letter order. */
  function LetterEdges(actionId: string, roleId: string, groupId: string, letters: string): (es: seq<Edge>)
    ensures |es| == |letters|
    ensures forall i :: 0 <= i < |es| ==> es[i] == Edge(actionId, roleId, letters[i], groupId)
    decreases |letters|
  {
    if letters == [] then []
    else
      var init := LetterEdges(actionId, roleId, groupId, letters[..|letters| - 1]);
      init + [Edge(actionId, roleId, letters[|letters| - 1], groupId)]
  }

  /** The role ids of the edges in `es` that carry letter `l`, in order and with
      repetitions. */
  function RoleIdsWith(es: seq<Edge>, l: char): seq<string>
    decreases |es|
  {
    if es == [] then []
    else
      var e := es[|es| - 1];
      RoleIdsWith(es[..|es| - 1], l) + (if e.raci == l then [e.roleId] else [])
  }

  lemma RoleIdsWithSnoc(es: seq<Edge>, e: Edge, l: char)
    ensures RoleIdsWith(es + [e], l) == RoleIdsWith(es, l) + (if e.raci == l then [e.roleId] else [])
  {
    assert (es + [e])[..|es|] == es;
  }

  lemma {:induction false} RoleIdsWithAppend(a: seq<Edge>, b: seq<Edge>, l: char)
    ensures RoleIdsWith(a + b, l) == RoleIdsWith(a, l) + RoleIdsWith(b, l)
    decreases |b|
  {
    if b == [] {
      assert a + b == a;
    } else {
      var b0, e := b[..|b| - 1], b[|b| - 1];
      assert b == b0 + [e];
      ConcatAssoc(a, b0, [e]);
      RoleIdsWithSnoc(a + b0, e, l);
      RoleIdsWithAppend(a, b0, l);
      RoleIdsWithSnoc(b0, e, l);
      ConcatAssoc(RoleIdsWith(a, l), RoleIdsWith(b0, l), if e.raci == l then [e.roleId] else []);
    }
  }

  /** No role id is collected for a letter exactly when no edge carries it. */
  lemma {:induction false} RoleIdsWithNone(es: seq<Edge>, l: char)
    ensures RoleIdsWith(es, l) == [] <==> forall e :: e in es ==> e.raci != l
    decreases |es|
  {
    if es != [] {
      var init, e := es[..|es| - 1], es[|es| - 1];
      RoleIdsWithNone(init, l);
      assert es == init + [e];
      assert forall x :: x in es <==> x in init || x == e;
    }
  }

  /** How many of the edges carry letter `l`: what `group_edge_counts[l]` counts. */
  function Tally(es: seq<Edge>, l: char): nat {
    |RoleIdsWith(es, l)|
  }

  lemma TallyAppend(a: seq<Edge>, b: seq<Edge>, l: char)
    ensures Tally(a + b, l) == Tally(a, l) + Tally(b, l)
  {
    RoleIdsWithAppend(a, b, l);
  }

  /** The letter loop appends one edge per letter, in letter order, adds the role id to the
      letter's list once per edge, raises the group's count of each letter by the number of
      new edges carrying it (and the sum of the counts by the number of letters), and
      touches nothing else. */
  lemma {:induction false} EmitLettersEffect(w: Work, actionId: string, roleId: string, groupId: string, letters: string)
    requires AllRaci(letters) && HasRaciKeys(w.letterRoles)
    ensures var w' := EmitLetters(w, actionId, roleId, groupId, letters);
      var es := LetterEdges(actionId, roleId, groupId, letters);
      && w'.st == w.st.(edges := w.st.edges + es)
      && (forall l :: l in w.letterRoles ==> w'.letterRoles[l] == w.letterRoles[l] + RoleIdsWith(es, l))
      && (forall l :: Count(w'.groupCounts, l) == Count(w.groupCounts, l) + Tally(es, l))
      && Total(w'.groupCounts) == Total(w.groupCounts) + |letters|
    decreases |letters|
  {
    forall l ensures Count(EmitLetters(w, actionId, roleId, groupId, letters).groupCounts, l)
                  == Count(w.groupCounts, l) + Tally(LetterEdges(actionId, roleId, groupId, letters), l) {
      EmitLettersCounts(w, actionId, roleId, groupId, letters, l);
    }
    if letters != [] {
      var init, c := letters[..|letters| - 1], letters[|letters| - 1];
      assert AllRaci(init);
      var w0 := EmitLetters(w, actionId, roleId, groupId, init);
      var es0 := LetterEdges(actionId, roleId, groupId, init);
      var e := Edge(actionId, roleId, c, groupId);
      EmitLettersEffect(w, actionId, roleId, groupId, init);
      assert LetterEdges(actionId, roleId, groupId, letters) == es0 + [e];
      ConcatAssoc(w.st.edges, es0, [e]);
      TotalAdd(w0.groupCounts, c, 1);
      forall l | l in w.letterRoles
        ensures EmitLetters(w, actionId, roleId, groupId, letters).letterRoles[l]
             == w.letterRoles[l] + RoleIdsWith(es0 + [e], l)
      {
        RoleIdsWithSnoc(es0, e, l);
        ConcatAssoc(w.letterRoles[l], RoleIdsWith(es0, l), if c == l then [roleId] else []);
      }
    }
  }

  /** The letter loop raises the group's count of each letter by the number of new edges
      carrying it. */
  lemma {:induction false} EmitLettersCounts(w: Work, actionId: string, roleId: string, groupId: string,
                                            letters: string, l: char)
    requires AllRaci(letters) && HasRaciKeys(w.letterRoles)
    ensures Count(EmitLetters(w, actionId, roleId, groupId, letters).groupCounts, l)
         == Count(w.groupCounts, l) + Tally(LetterEdges(actionId, roleId, groupId, letters), l)
    decreases |letters|
  {
    if letters != [] {
      var init, c := letters[..|letters| - 1], letters[|letters| - 1];
      assert AllRaci(init);
      var w0 := EmitLetters(w, actionId, roleId, groupId, init);
      var es0 := LetterEdges(actionId, roleId, groupId, init);
      EmitLettersCounts(w, actionId, roleId, groupId, init, l);
      assert LetterEdges(actionId, roleId, groupId, letters) == es0 + [Edge(actionId, roleId, c, groupId)];
      CountAdd(w0.groupCounts, c, 1, l);
      RoleIdsWithSnoc(es0, Edge(actionId, roleId, c, groupId), l);
    }
  }

  /** One assignment (lines 147-172). A role whose cell yields no letter gets exactly one
      "No valid RACI tokens" warning and changes neither the edges, nor `role_usage`, nor
      the letter lists; otherwise the role's letters become that many edges, in letter
      order, and its usage rises by their number. Either way the role is registered. */
  lemma AssignStepEffect(w: Work, actionId: string, actionName: string, groupId: string, entry: (string, Cell))
    requires HasRaciKeys(w.letterRoles)
    ensures var w' := AssignStep(w, actionId, actionName, groupId, entry);
      var reg := Register(w.st.roles, entry.0);
      var letters := CellLetters(entry.1);
      var es := LetterEdges(actionId, reg.role.id, groupId, letters);
      && (letters == [] ==>
            && w'.st == w.st.(roles := reg.roles,
                 warnings := w.st.warnings + [ActionWarning(actionId, actionName, NoValidTokens(entry.0))])
            && w'.letterRoles == w.letterRoles && w'.groupCounts == w.groupCounts)
      && (letters != [] ==>
            && w'.st == w.st.(roles := reg.roles, usage := Add(w.st.usage, reg.role.id, |letters|),
                 edges := w.st.edges + es)
            && (forall l :: l in w.letterRoles ==> w'.letterRoles[l] == w.letterRoles[l] + RoleIdsWith(es, l))
            && (forall l :: Count(w'.groupCounts, l) == Count(w.groupCounts, l) + Tally(es, l))
            && Total(w'.groupCounts) == Total(w.groupCounts) + |letters|)
  {
    var reg := Register(w.st.roles, entry.0);
    var letters := CellLetters(entry.1);
    if letters != [] {
      var w0 := Work(w.st.(roles := reg.roles, usage := Add(w.st.usage, reg.role.id, |letters|)),
        w.letterRoles, w.groupCounts);
      EmitLettersEffect(w0, actionId, reg.role.id, groupId, letters);
    }
  }

  /** The edges added between two states of an activity. */
  function NewEdges(w: Work, w': Work): seq<Edge>
    requires |w.st.edges| <= |w'.st.edges|
  {
    w'.st.edges[|w.st.edges|..]
  }

  /** What the assignment loop of one activity may change: it appends edges of this
      action and group, records each new edge's role id under its letter, raises the
      group's letter counts by the number of new edges, and leaves the group, action,
      dependency, lookup and summary accumulators alone. */
  ghost predicate Extends(w: Work, w': Work, actionId: string, groupId: string) {
    && w.st.edges <= w'.st.edges
    && w'.st.groups == w.st.groups && w'.st.actions == w.st.actions && w'.st.specs == w.st.specs
    && w'.st.lookup == w.st.lookup && w'.st.summary == w.st.summary
    && (forall e :: e in NewEdges(w, w') ==> e.actionId == actionId && e.groupId == groupId && IsRaci(e.raci))
    && w'.letterRoles.Keys == w.letterRoles.Keys
    && (forall l :: l in w.letterRoles ==> w'.letterRoles[l] == w.letterRoles[l] + RoleIdsWith(NewEdges(w, w'), l))
    && (forall l :: Count(w'.groupCounts, l) == Count(w.groupCounts, l) + Tally(NewEdges(w, w'), l))
    && Total(w'.groupCounts) + |w.st.edges| == Total(w.groupCounts) + |w'.st.edges|
  }

  lemma AssignStepExtends(w: Work, actionId: string, actionName: string, groupId: string, entry: (string, Cell))
    requires HasRaciKeys(w.letterRoles)
    ensures Extends(w, AssignStep(w, actionId, actionName, groupId, entry), actionId, groupId)
  {
    var w' := AssignStep(w, actionId, actionName, groupId, entry);
    AssignStepEffect(w, actionId, actionName, groupId, entry);
    var reg := Register(w.st.roles, entry.0);
    var letters := CellLetters(entry.1);
    var es := LetterEdges(actionId, reg.role.id, groupId, letters);
    if letters == [] {
      assert NewEdges(w, w') == [];
      forall l | l in w.letterRoles ensures w'.letterRoles[l] == w.letterRoles[l] + RoleIdsWith([], l) {
        assert w.letterRoles[l] + [] == w.letterRoles[l];
      }
      assert forall l :: Tally([], l) == 0;
    } else {
      assert NewEdges(w, w') == es;
      forall e | e in es ensures e.actionId == actionId && e.groupId == groupId && IsRaci(e.raci) {
        var i :| 0 <= i < |es| && es[i] == e;
      }
    }
  }

  lemma ExtendsTransitive(a: Work, b: Work, c: Work, actionId: string, groupId: string)
    requires Extends(a, b, actionId, groupId) && Extends(b, c, actionId, groupId)
    ensures Extends(a, c, actionId, groupId)
  {
    var x, y := NewEdges(a, b), NewEdges(b, c);
    assert NewEdges(a, c) == x + y;
    forall l | l in a.letterRoles
      ensures c.letterRoles[l] == a.letterRoles[l] + RoleIdsWith(NewEdges(a, c), l)
    {
      RoleIdsWithAppend(x, y, l);
      ConcatAssoc(a.letterRoles[l], RoleIdsWith(x, l), RoleIdsWith(y, l));
    }
    forall l ensures Count(c.groupCounts, l) == Count(a.groupCounts, l) + Tally(NewEdges(a, c), l) {
      TallyAppend(x, y, l);
    }
  }

  lemma {:induction false} AssignAllExtends(w: Work, actionId: string, actionName: string, groupId: string,
                                           entries: seq<(string, Cell)>)
    requires HasRaciKeys(w.letterRoles)
    ensures Extends(w, AssignAll(w, actionId, actionName, groupId, entries), actionId, groupId)
    decreases |entries|
  {
    if entries == [] {
      assert NewEdges(w, w) == [];
      forall l | l in w.letterRoles ensures w.letterRoles[l] == w.letterRoles[l] + RoleIdsWith([], l) {
        assert w.letterRoles[l] + [] == w.letterRoles[l];
      }
      assert forall l :: Tally([], l) == 0;
    } else {
      var init := entries[..|entries| - 1];
      var w0 := AssignAll(w, actionId, actionName, groupId, init);
      AssignAllExtends(w, actionId, actionName, groupId, init);
      AssignStepExtends(w0, actionId, actionName, groupId, entries[|entries| - 1]);
      ExtendsTransitive(w, w0, AssignAll(w, actionId, actionName, groupId, entries), actionId, groupId);
    }
  }

  /** The warning list an optional issue contributes. */
  function Warn(actionId: string, actionName: string, issue: Option<Issue>): seq<ActionWarning> {
    if issue.Some? then [ActionWarning(actionId, actionName, issue.value)] else []
  }

  /** The loop at line 175 checks R, then A, and adds at most one warning for each. */
  lemma CriticalWarningsShape(actionId: string, actionName: string, lr: map<char, seq<string>>)
    requires HasRaciKeys(lr)
    requires forall c :: c in Critical ==> c.0 in lr
    ensures CriticalWarnings(actionId, actionName, lr, Critical)
        == Warn(actionId, actionName, CriticalIssue(lr['R'], "Responsible"))
         + Warn(actionId, actionName, CriticalIssue(lr['A'], "Accountable"))
  {
    assert Critical[..1] == [('R', "Responsible")];
    assert Critical[..1][..0] == [];
  }

  /** For the role ids collected for a letter on an activity: "Missing" exactly when no
      edge of the activity carries the letter, "Multiple" (listing every such role id,
      the same id as often as it carries the letter) exactly when more than one does,
      and no warning when exactly one does. */
  lemma CriticalIssueIff(es: seq<Edge>, l: char, duty: string)
    ensures var issue := CriticalIssue(RoleIdsWith(es, l), duty);
      && (issue == Some(MissingCritical(duty)) <==> forall e :: e in es ==> e.raci != l)
      && (issue == Some(MultipleCritical(duty, RoleIdsWith(es, l))) <==> |RoleIdsWith(es, l)| > 1)
      && (issue.None? <==> |RoleIdsWith(es, l)| == 1)
  {
    RoleIdsWithNone(es, l);
  }

  /** The assignment loop of an activity, run from the opened action with empty letter
      lists. */
  function ActivityAssign(w: Work, title: string, groupId: string, act: Activity): Work {
    var w0 := Work(OpenAction(w.st, title, groupId, act), NoLetterRoles, w.groupCounts);
    assert HasRaciKeys(NoLetterRoles);
    AssignAll(w0, ActionId(groupId, act.name), act.name, groupId, SortedAssignments(act.assignments))
  }

  lemma ActivityAssignExtends(w: Work, title: string, groupId: string, act: Activity)
    ensures var w0 := Work(OpenAction(w.st, title, groupId, act), NoLetterRoles, w.groupCounts);
      var w1 := ActivityAssign(w, title, groupId, act);
      && Extends(w0, w1, ActionId(groupId, act.name), groupId)
      && w0.st.warnings <= w1.st.warnings
  {
    var w0 := Work(OpenAction(w.st, title, groupId, act), NoLetterRoles, w.groupCounts);
    var aid := ActionId(groupId, act.name);
    assert HasRaciKeys(NoLetterRoles);
    AssignAllExtends(w0, aid, act.name, groupId, SortedAssignments(act.assignments));
    AssignAllWarnings(w0, aid, act.name, groupId, SortedAssignments(act.assignments));
  }

  lemma ActivityStepParts(w: Work, title: string, groupId: string, act: Activity)
    ensures var w1 := ActivityAssign(w, title, groupId, act);
      ActivityStep(w, title, groupId, act)
        == Work(CloseAction(w1.st, w1.letterRoles, title, groupId, act), w1.letterRoles, w1.groupCounts)
  {
  }

  lemma CloseActionWarnings(st: State, lr: map<char, seq<string>>, title: string, groupId: string, act: Activity)
    requires HasRaciKeys(lr)
    requires forall c :: c in Critical ==> c.0 in lr
    ensures CloseAction(st, lr, title, groupId, act).warnings
      == st.warnings + CriticalWarnings(ActionId(groupId, act.name), act.name, lr, Critical)
  {
  }

  lemma CloseActionSpecs(st: State, lr: map<char, seq<string>>, title: string, groupId: string, act: Activity)
    requires HasRaciKeys(lr)
    ensures CloseAction(st, lr, title, groupId, act).specs
      == st.specs + (if act.dependsOn == [] then []
                     else [DepSpec(ActionId(groupId, act.name), act.name, groupId, title, act.dependsOn)])
  {
  }

  lemma CloseActionKeeps(st: State, lr: map<char, seq<string>>, title: string, groupId: string, act: Activity)
    requires HasRaciKeys(lr)
    ensures CloseAction(st, lr, title, groupId, act).(warnings := st.warnings, specs := st.specs) == st
  {
  }

  /** One activity (lines 137-204): it appends its action record, points the lookup entry
      for `(title, name)` at it, appends only edges of this action and group (raising the
      group's letter counts by their number), records a dependency spec exactly when
      `depends_on` is non-empty, and only appends warnings. */
  lemma ActivityStepEffect(w: Work, title: string, groupId: string, act: Activity)
    ensures var w' := ActivityStep(w, title, groupId, act);
      var actionId := ActionId(groupId, act.name);
      && w'.st.actions == w.st.actions + [ActionRecord(actionId, act.name, groupId, act.details)]
      && w'.st.lookup == Put(w.st.lookup, (title, act.name), (actionId, groupId))
      && w'.st.specs == w.st.specs
           + (if act.dependsOn == [] then [] else [DepSpec(actionId, act.name, groupId, title, act.dependsOn)])
      && w'.st.groups == w.st.groups && w'.st.summary == w.st.summary
      && w.st.warnings <= w'.st.warnings
      && w.st.edges <= w'.st.edges
      && (forall e :: e in NewEdges(w, w') ==> e.actionId == actionId && e.groupId == groupId && IsRaci(e.raci))
      && (forall l :: Count(w'.groupCounts, l) == Count(w.groupCounts, l) + Tally(NewEdges(w, w'), l))
      && Total(w'.groupCounts) + |w.st.edges| == Total(w.groupCounts) + |w'.st.edges|
  {
    ActivityAssignExtends(w, title, groupId, act);
    var w1 := ActivityAssign(w, title, groupId, act);
    ActivityStepParts(w, title, groupId, act);
    CloseActionSpecs(w1.st, w1.letterRoles, title, groupId, act);
    CloseActionKeeps(w1.st, w1.letterRoles, title, groupId, act);
    CloseActionWarningsGrow(w1.st, w1.letterRoles, title, groupId, act);
  }

  lemma CloseActionWarningsGrow(st: State, lr: map<char, seq<string>>, title: string, groupId: string, act: Activity)
    requires HasRaciKeys(lr)
    ensures st.warnings <= CloseAction(st, lr, title, groupId, act).warnings
  {
    CriticalLettersPresent(lr);
    CloseActionWarnings(st, lr, title, groupId, act);
  }

  /** The assignment loop only appends warnings. */
  lemma {:induction false} AssignAllWarnings(w: Work, actionId: string, actionName: string, groupId: string,
                                            entries: seq<(string, Cell)>)
    requires HasRaciKeys(w.letterRoles)
    ensures w.st.warnings <= AssignAll(w, actionId, actionName, groupId, entries).st.warnings
    decreases |entries|
  {
    if entries != [] {
      var init := entries[..|entries| - 1];
      var w0 := AssignAll(w, actionId, actionName, groupId, init);
      AssignAllWarnings(w, actionId, actionName, groupId, init);
      AssignStepEffect(w0, actionId, actionName, groupId, entries[|entries| - 1]);
    }
  }

  /** Letter lists that start empty end as the letters of the new edges. */
  lemma LetterRolesFromEmpty(w0: Work, w1: Work, actionId: string, groupId: string)
    requires w0.letterRoles == NoLetterRoles
    requires Extends(w0, w1, actionId, groupId)
    ensures forall l :: l in NoLetterRoles ==> w1.letterRoles[l] == RoleIdsWith(NewEdges(w0, w1), l)
  {
    forall l | l in NoLetterRoles ensures w1.letterRoles[l] == RoleIdsWith(NewEdges(w0, w1), l) {
      assert w0.letterRoles[l] == [];
    }
  }

  /** The end of an activity changes neither its edges nor its letter lists. */
  lemma ActivityStepFromAssign(w: Work, title: string, groupId: string, act: Activity)
    ensures var w1 := ActivityAssign(w, title, groupId, act);
      var w' := ActivityStep(w, title, groupId, act);
      && w'.st.edges == w1.st.edges
      && w'.letterRoles == w1.letterRoles
  {
    var w1 := ActivityAssign(w, title, groupId, act);
    ActivityStepParts(w, title, groupId, act);
    CloseActionKeeps(w1.st, w1.letterRoles, title, groupId, act);
  }

  /** After an activity, `letter_roles` lists, for every letter, the role ids of the edges
      the activity emitted with that letter. */
  lemma ActivityLetterRoles(w: Work, title: string, groupId: string, act: Activity)
    ensures var w' := ActivityStep(w, title, groupId, act);
      && w.st.edges <= w'.st.edges
      && forall l :: l in NoLetterRoles ==> w'.letterRoles[l] == RoleIdsWith(NewEdges(w, w'), l)
  {
    var w0 := Work(OpenAction(w.st, title, groupId, act), NoLetterRoles, w.groupCounts);
    var w1 := ActivityAssign(w, title, groupId, act);
    ActivityAssignExtends(w, title, groupId, act);
    LetterRolesFromEmpty(w0, w1, ActionId(groupId, act.name), groupId);
    ActivityStepFromAssign(w, title, groupId, act);
    assert w0.st.edges == w.st.edges;
  }

  /** The R/A check of an activity (lines 174-192): the warnings of its assignments are
      followed by at most one R warning and then at most one A warning, decided by the
      edges the activity emitted, as `CriticalIssueIff` describes. */
  lemma ActivityCritical(w: Work, title: string, groupId: string, act: Activity)
    ensures var w' := ActivityStep(w, title, groupId, act);
      var w1 := ActivityAssign(w, title, groupId, act);
      var actionId := ActionId(groupId, act.name);
      && w.st.warnings <= w1.st.warnings
      && w.st.edges <= w'.st.edges
      && w'.st.warnings == w1.st.warnings
           + (Warn(actionId, act.name, CriticalIssue(RoleIdsWith(NewEdges(w, w'), 'R'), "Responsible"))
           + Warn(actionId, act.name, CriticalIssue(RoleIdsWith(NewEdges(w, w'), 'A'), "Accountable")))
  {
    var actionId := ActionId(groupId, act.name);
    var w1 := ActivityAssign(w, title, groupId, act);
    var w' := ActivityStep(w, title, groupId, act);
    ActivityAssignExtends(w, title, groupId, act);
    ActivityLetterRoles(w, title, groupId, act);
    ActivityStepParts(w, title, groupId, act);
    CriticalLettersPresent(w1.letterRoles);
    CloseActionWarnings(w1.st, w1.letterRoles, title, groupId, act);
    CriticalWarningsShape(actionId, act.name, w1.letterRoles);
  }

  /** The action records of a group's activities, in order. */
  function ActionRecords(groupId: string, acts: seq<Activity>): (rs: seq<ActionRecord>)
    ensures |rs| == |acts|
    decreases |acts|
  {
    if acts == [] then []
    else
      var a := acts[|acts| - 1];
      ActionRecords(groupId, acts[..|acts| - 1]) + [ActionRecord(ActionId(groupId, a.name), a.name, groupId, a.details)]
  }

  /** The activity loop of a group appends one action record per activity. */
  lemma {:induction false} ActivityAllActions(w: Work, title: string, groupId: string, acts: seq<Activity>)
    ensures ActivityAll(w, title, groupId, acts).st.actions == w.st.actions + ActionRecords(groupId, acts)
    decreases |acts|
  {
    if acts != [] {
      var init, a := acts[..|acts| - 1], acts[|acts| - 1];
      var w0 := ActivityAll(w, title, groupId, init);
      ActivityAllActions(w, title, groupId, init);
      ActivityStepEffect(w0, title, groupId, a);
      ConcatAssoc(w.st.actions, ActionRecords(groupId, init),
        [ActionRecord(ActionId(groupId, a.name), a.name, groupId, a.details)]);
    }
  }

  /** From `w` to `w'` only edges of the group were appended, and the group's letter
      counts rose by their number. */
  ghost predicate GroupGrowth(w: Work, w': Work, groupId: string) {
    && w.st.edges <= w'.st.edges
    && (forall e :: e in NewEdges(w, w') ==> e.groupId == groupId && IsRaci(e.raci))
    && (forall l :: Count(w'.groupCounts, l) == Count(w.groupCounts, l) + Tally(NewEdges(w, w'), l))
    && Total(w'.groupCounts) + |w.st.edges| == Total(w.groupCounts) + |w'.st.edges|
  }

  lemma GroupGrowthTransitive(a: Work, b: Work, c: Work, groupId: string)
    requires GroupGrowth(a, b, groupId) && GroupGrowth(b, c, groupId)
    ensures GroupGrowth(a, c, groupId)
  {
    assert NewEdges(a, c) == NewEdges(a, b) + NewEdges(b, c);
    forall l ensures Count(c.groupCounts, l) == Count(a.groupCounts, l) + Tally(NewEdges(a, c), l) {
      TallyAppend(NewEdges(a, b), NewEdges(b, c), l);
    }
  }

  lemma ActivityStepGrowth(w: Work, title: string, groupId: string, act: Activity)
    ensures GroupGrowth(w, ActivityStep(w, title, groupId, act), groupId)
  {
    ActivityStepEffect(w, title, groupId, act);
  }

  /** The activity loop of a group appends only edges of the group and raises the group's
      letter counts by their number. */
  lemma {:induction false} ActivityAllEdges(w: Work, title: string, groupId: string, acts: seq<Activity>)
    ensures GroupGrowth(w, ActivityAll(w, title, groupId, acts), groupId)
    decreases |acts|
  {
    if acts == [] {
      assert NewEdges(w, w) == [];
      assert forall l :: Tally([], l) == 0;
    } else {
      var init, a := acts[..|acts| - 1], acts[|acts| - 1];
      var w0 := ActivityAll(w, title, groupId, init);
      ActivityAllEdges(w, title, groupId, init);
      ActivityStepGrowth(w0, title, groupId, a);
      GroupGrowthTransitive(w, w0, ActivityAll(w, title, groupId, acts), groupId);
    }
  }

  /** The activity loop of a group only appends warnings and leaves the group records and
      the summary alone. */
  lemma {:induction false} ActivityAllKeeps(w: Work, title: string, groupId: string, acts: seq<Activity>)
    ensures var w' := ActivityAll(w, title, groupId, acts);
      && w.st.warnings <= w'.st.warnings
      && w'.st.groups == w.st.groups && w'.st.summary == w.st.summary
    decreases |acts|
  {
    if acts != [] {
      var init, a := acts[..|acts| - 1], acts[|acts| - 1];
      ActivityAllKeeps(w, title, groupId, init);
      ActivityStepEffect(ActivityAll(w, title, groupId, init), title, groupId, a);
    }
  }

  /** Every entry of `action_lookup` maps `(group title, activity name)` to the action id
      and group id built from them. */
  ghost predicate LookupOk(lookup: Dict<(string, string), (string, string)>) {
    forall e :: e in lookup ==> e.1 == (ActionId(Slugify(e.0.0), e.0.1), Slugify(e.0.0))
  }

  /** The activity loop of a group keeps the lookup table well formed and files every
      activity's `(title, name)` in it, next to the keys already there. */
  lemma {:induction false} ActivityAllLookup(w: Work, title: string, acts: seq<Activity>)
    requires LookupOk(w.st.lookup)
    ensures var w' := ActivityAll(w, title, Slugify(title), acts);
      && LookupOk(w'.st.lookup)
      && (forall k :: k in Keys(w.st.lookup) ==> k in Keys(w'.st.lookup))
      && (forall a :: a in acts ==> (title, a.name) in Keys(w'.st.lookup))
    decreases |acts|
  {
    if acts != [] {
      var gid := Slugify(title);
      var init, a := acts[..|acts| - 1], acts[|acts| - 1];
      var w0 := ActivityAll(w, title, gid, init);
      var w' := ActivityAll(w, title, gid, acts);
      var k, v := (title, a.name), (ActionId(gid, a.name), gid);
      ActivityAllLookup(w, title, init);
      ActivityStepEffect(w0, title, gid, a);
      assert w'.st.lookup == Put(w0.st.lookup, k, v);
      forall e | e in w'.st.lookup ensures e.1 == (ActionId(Slugify(e.0.0), e.0.1), Slugify(e.0.0)) {
        PutEntries(w0.st.lookup, k, v, e);
      }
      PutKeys(w0.st.lookup, k, v);
      forall b | b in acts ensures (title, b.name) in Keys(w'.st.lookup) {
        if b != a {
          assert b in init;
        }
      }
    }
  }

  /** The group-level role loop registers roles and touches nothing but the registry and
      `role_usage`. */
  lemma {:induction false} DeclareRolesKeeps(st: State, raws: seq<string>)
    ensures DeclareRoles(st, raws).(roles := st.roles, usage := st.usage) == st
    decreases |raws|
  {
    if raws != [] {
      DeclareRolesKeeps(st, raws[..|raws| - 1]);
    }
  }

  /** One group (lines 124-210): its record is appended, one action record per activity
      follows, every new edge belongs to the group, and its `group_summary` entry has the
      group's title, `action_count` equal to its number of activities and an
      `edge_distribution` that counts, for each letter, the edges the group emitted with
      that letter, its counts adding up to the number of those edges. */
  lemma GroupStepEffect(st: State, g: Group)
    ensures var st' := GroupStep(st, g);
      var gid := Slugify(g.title);
      var sum := Get(st'.summary, gid);
      && st'.groups == st.groups + [GroupRecord(gid, g.title, g.description)]
      && st'.actions == st.actions + ActionRecords(gid, g.activities)
      && st.edges <= st'.edges
      && (forall i :: |st.edges| <= i < |st'.edges| ==> st'.edges[i].groupId == gid && IsRaci(st'.edges[i].raci))
      && st.warnings <= st'.warnings
      && sum.Some?
      && sum.value.title == g.title
      && sum.value.actionCount == |g.activities|
      && (forall l :: Count(sum.value.edgeDistribution, l) == Tally(st'.edges[|st.edges|..], l))
      && Total(sum.value.edgeDistribution) + |st.edges| == |st'.edges|
  {
    var gid := Slugify(g.title);
    var st1 := st.(groups := st.groups + [GroupRecord(gid, g.title, g.description)]);
    var st2 := DeclareRoles(st1, g.roles);
    var w' := ActivityAll(Work(st2, NoLetterRoles, []), g.title, gid, g.activities);
    DeclareRolesKeeps(st1, g.roles);
    GroupActivitiesEffect(st2, g.title, gid, g.activities);
    GetPut(w'.st.summary, gid, GroupSummary(g.title, |g.activities|, w'.groupCounts), gid);
  }

  /** The activity loop of a group, run from empty letter counts: what it appends, and
      the letter counts it leaves, which become the group's `edge_distribution`. */
  lemma GroupActivitiesEffect(st: State, title: string, gid: string, acts: seq<Activity>)
    ensures var w' := ActivityAll(Work(st, NoLetterRoles, []), title, gid, acts);
      && w'.st.groups == st.groups && w'.st.summary == st.summary
      && w'.st.actions == st.actions + ActionRecords(gid, acts)
      && st.edges <= w'.st.edges
      && (forall i :: |st.edges| <= i < |w'.st.edges| ==> w'.st.edges[i].groupId == gid && IsRaci(w'.st.edges[i].raci))
      && st.warnings <= w'.st.warnings
      && (forall l :: Count(w'.groupCounts, l) == Tally(w'.st.edges[|st.edges|..], l))
      && Total(w'.groupCounts) + |st.edges| == |w'.st.edges|
  {
    var w := Work(st, NoLetterRoles, []);
    var w' := ActivityAll(w, title, gid, acts);
    ActivityAllActions(w, title, gid, acts);
    ActivityAllEdges(w, title, gid, acts);
    ActivityAllKeeps(w, title, gid, acts);
    GroupGrowthFromEmpty(w, w', gid);
  }

  /** Growth from empty letter counts leaves counts that tally the new edges. */
  lemma GroupGrowthFromEmpty(w: Work, w': Work, gid: string)
    requires GroupGrowth(w, w', gid) && w.groupCounts == []
    ensures forall i :: |w.st.edges| <= i < |w'.st.edges| ==> w'.st.edges[i].groupId == gid && IsRaci(w'.st.edges[i].raci)
    ensures forall l :: Count(w'.groupCounts, l) == Tally(w'.st.edges[|w.st.edges|..], l)
    ensures Total(w'.groupCounts) + |w.st.edges| == |w'.st.edges|
  {
    assert forall l :: Count<char>([], l) == 0;
    forall i | |w.st.edges| <= i < |w'.st.edges| ensures w'.st.edges[i].groupId == gid && IsRaci(w'.st.edges[i].raci) {
      assert w'.st.edges[i] in NewEdges(w, w');
    }
  }

  /** A group keeps the lookup table well formed, keeps its keys, and files the
      `(title, name)` of each of its activities. */
  lemma GroupStepLookup(st: State, g: Group)
    requires LookupOk(st.lookup)
    ensures var st' := GroupStep(st, g);
      && LookupOk(st'.lookup)
      && (forall k :: k in Keys(st.lookup) ==> k in Keys(st'.lookup))
      && (forall a :: a in g.activities ==> (g.title, a.name) in Keys(st'.lookup))
  {
    var gid := Slugify(g.title);
    var st1 := st.(groups := st.groups + [GroupRecord(gid, g.title, g.description)]);
    DeclareRolesKeeps(st1, g.roles);
    ActivityAllLookup(Work(DeclareRoles(st1, g.roles), NoLetterRoles, []), g.title, g.activities);
  }

  /** After the group loop, `action_lookup` maps the `(title, name)` of every activity of
      every group, each to the action id and group id built from them; a later activity
      with the same title and name overwrites the earlier entry. */
  lemma {:induction false} CatalogAllLookup(st: State, groups: seq<Group>)
    requires LookupOk(st.lookup)
    ensures var st' := CatalogAll(st, groups);
      && LookupOk(st'.lookup)
      && (forall k :: k in Keys(st.lookup) ==> k in Keys(st'.lookup))
      && (forall g, a :: g in groups && a in g.activities ==> (g.title, a.name) in Keys(st'.lookup))
    decreases |groups|
  {
    if groups != [] {
      var init, g := groups[..|groups| - 1], groups[|groups| - 1];
      CatalogAllLookup(st, init);
      GroupStepLookup(CatalogAll(st, init), g);
      forall h, a | h in groups && a in h.activities
        ensures (h.title, a.name) in Keys(CatalogAll(st, groups).lookup)
      {
        if h != g {
          assert h in init;
        }
      }
    }
  }

  /** The group records of `groups`, in order. */
  function GroupRecords(groups: seq<Group>): (rs: seq<GroupRecord>)
    ensures |rs| == |groups|
    decreases |groups|
  {
    if groups == [] then []
    else
      var g := groups[|groups| - 1];
      GroupRecords(groups[..|groups| - 1]) + [GroupRecord(Slugify(g.title), g.title, g.description)]
  }

  /** The group loop appends one group record per group, in input order, and only
      appends edges and warnings. */
  lemma {:induction false} CatalogAllGroups(st: State, groups: seq<Group>)
    ensures var st' := CatalogAll(st, groups);
      && st'.groups == st.groups + GroupRecords(groups)
      && st.edges <= st'.edges
      && st.warnings <= st'.warnings
    decreases |groups|
  {
    if groups != [] {
      var init, g := groups[..|groups| - 1], groups[|groups| - 1];
      CatalogAllGroups(st, init);
      GroupStepEffect(CatalogAll(st, init), g);
      ConcatAssoc(st.groups, GroupRecords(init), [GroupRecord(Slugify(g.title), g.title, g.description)]);
    }
  }

  /** Every relationship carries one of the letters R, A, C and I. */
  lemma {:induction false} CatalogAllRaci(st: State, groups: seq<Group>)
    requires forall e :: e in st.edges ==> IsRaci(e.raci)
    ensures forall e :: e in CatalogAll(st, groups).edges ==> IsRaci(e.raci)
    decreases |groups|
  {
    if groups != [] {
      var init, g := groups[..|groups| - 1], groups[|groups| - 1];
      var st0 := CatalogAll(st, init);
      CatalogAllRaci(st, init);
      GroupStepEffect(st0, g);
      var st' := GroupStep(st0, g);
      forall e | e in st'.edges ensures IsRaci(e.raci) {
        var i :| 0 <= i < |st'.edges| && st'.edges[i] == e;
        if i < |st0.edges| {
          assert st0.edges[i] == e;
        }
      }
    }
  }
}
