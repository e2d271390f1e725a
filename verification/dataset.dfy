/** The parsed RACI dataset the enrichment reads, and the records it produces. Optional
    YAML keys are `Option`s; a missing list is the empty sequence. */
module Dataset {
  import opened Options
  import opened OrderedDicts
  import opened Tokens

  /** One entry of an activity's `depends_on` list: `activity`, `group` and `type`, each
      possibly absent. */
  datatype DepRef = DepRef(activity: Option<string>, group: Option<string>, relType: Option<string>)

  /** An activity: `name`, `details`, the `assignments` mapping from raw role name to cell,
      in the order the file lists them (keys are distinct, as in any mapping), and
      `depends_on` (absent, null and empty all read as no references). */
  datatype Activity = Activity(
    name: string,
    details: Option<string>,
    assignments: seq<(string, Cell)>,
    dependsOn: seq<DepRef>)

  /** An entry of `activity_groups`. */
  datatype Group = Group(
    title: string,
    description: Option<string>,
    roles: seq<string>,
    activities: seq<Activity>)

  /** `ActivityGroup` (lines 39-43). */
  datatype GroupRecord = GroupRecord(id: string, title: string, description: Option<string>)

  /** `Action` (lines 46-51). */
  datatype ActionRecord = ActionRecord(id: string, name: string, groupId: string, details: Option<string>)

  /** One relationship: a role holds a RACI letter on an action. */
  datatype Edge = Edge(actionId: string, roleId: string, raci: char, groupId: string)

  /** What an action warning reports. */
  datatype Issue =
    | NoValidTokens(rawRole: string)
    | MissingCritical(duty: string)
    | MultipleCritical(duty: string, roleIds: seq<string>)

  datatype ActionWarning = ActionWarning(actionId: string, actionName: string, issue: Issue)

  /** An activity with a non-empty `depends_on`, remembered for resolution. */
  datatype DepSpec = DepSpec(
    sourceActionId: string,
    sourceActionName: string,
    sourceGroupId: string,
    sourceGroupTitle: string,
    dependsOn: seq<DepRef>)

  /** An entry of `group_summary`. */
  datatype GroupSummary = GroupSummary(title: string, actionCount: nat, edgeDistribution: Dict<char, nat>)

  /** Python's `repr` of a list of slugs: `['a', 'b']` (slugs need no escaping). */
  function ReprList(ids: seq<string>): string {
    "[" + ReprItems(ids) + "]"
  }

  function ReprItems(ids: seq<string>): string {
    if ids == [] then []
    else if |ids| == 1 then "'" + ids[0] + "'"
    else "'" + ids[0] + "', " + ReprItems(ids[1..])
  }

  /** The `issue` text of a warning (lines 155, 182, 190). */
  function IssueText(issue: Issue): string {
    match issue
    case NoValidTokens(raw) => "No valid RACI tokens for role '" + raw + "'"
    case MissingCritical(duty) => "Missing " + duty + " assignment"
    case MultipleCritical(duty, ids) => "Multiple " + duty + " assignments: " + ReprList(ids)
  }
}
