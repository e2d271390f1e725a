# RACI enrichment, modelled in Dafny

This project models the core of `scripts/enrich_raci.py`. The script reads a RACI
(Responsible / Accountable / Consulted / Informed) dataset: activity groups, each with
activities, and each activity with assignments from raw role names to RACI tokens and an
optional `depends_on` list. It turns the dataset into an enriched one:

- a canonical role registry;
- group, action and relationship records;
- warnings about the assignments;
- per-group letter counts and per-role letter counts with rankings;
- resolved, de-duplicated and sorted dependency edges between activities.

The model follows the script part by part:

| module | file | models |
|---|---|---|
| `Text` | text.dfy | the `str` operations used (`strip`, `lower`, `upper`, `split`, `join`, `replace`, `<=`), on ASCII |
| `Sorting` | sorting.dfy | Python's stable `sort`/`sorted`, as a stable insertion sort over a total preorder |
| `OrderedDicts` | ordered_dicts.dfy | insertion-ordered `dict` and `Counter` as association lists |
| `Slugs` | slug.dfy | `slugify` |
| `Tokens` | tokens.dfy | `normalize_raci_tokens` |
| `Roles` | roles.dfy | `normalize_role_name`, as a function `Register` and as the method `RoleRegistry.NormalizeRoleName` that updates the registry in place |
| `Dataset` | dataset.dfy | the parsed input and the records produced |
| `Catalog` | catalog.dfy | the group/activity loop of `main` as folds of step functions over the input |
| `CatalogProps` | catalog_props.dfy | what each step of the catalog does, and what the loops keep |
| `Metrics` | metrics.dfy | role letter counts, `role_summary`, `overloaded_roles` |
| `Dependencies` | dependencies.dfy | the dependency resolver |
| `Pipeline` | pipeline.dfy | the body of `main` as a class, `Enricher` |

`Enricher` holds the mutable locals of `main` as fields. It has one method per stage:

- the catalog loops;
- the role metrics;
- the dependency resolution.

Each loop is a `while` loop. Its invariant ties the fields to the matching fold of the
specification over the prefix already processed. `Enrich` runs the three stages on a fresh
`Enricher` and is proved equal to the function `EnrichSpec`. The lemmas about
`EnrichSpec` state what the payload promises.

## Model

| member | source | states |
|---|---|---|
| Slugs.Slugify | scripts/enrich_raci.py:54-57 | the result has only `[a-z0-9_]`, no leading or trailing `_`, and never two `_` in a row |
| Slugs.SubRuns | scripts/enrich_raci.py:56 | replacing every run outside `[a-z0-9]` by `_` leaves only `[a-z0-9_]`, no `__`, and keeps a leading letter or digit |
| Slugs.SubRunsFixpoint | scripts/enrich_raci.py:56 | the substitution leaves a string of `[a-z0-9_]` without `__` unchanged |
| Slugs.SlugifyFixpoint | scripts/enrich_raci.py:54-57 | every slug is its own slug |
| Slugs.SlugifyIdempotent | scripts/enrich_raci.py:54-57 | `slugify(slugify(s)) == slugify(s)` |
| Slugs.SubRunsKeepsAlnums | scripts/enrich_raci.py:56 | the substitution keeps every letter and digit, in order |
| Slugs.StripKeepsAlnums | scripts/enrich_raci.py:55 | trimming whitespace before lower-casing keeps every letter and digit |
| Slugs.TrimUnderscoresKeepsAlnums | scripts/enrich_raci.py:57 | `strip("_")` keeps every letter and digit |
| Slugs.TrimUnderscores | scripts/enrich_raci.py:57 | `strip("_")`: neither end of the result is `_` |
| Slugs.SlugifyKeepsAlnums | scripts/enrich_raci.py:54-57 | the slug holds exactly the lower-cased ASCII letters and digits of the input, in their order |
| Text.Strip | scripts/enrich_raci.py:55 | `strip()` leaves no whitespace at either end |
| Text.StripParts | scripts/enrich_raci.py:55 | `strip()` is the input with a whitespace prefix and a whitespace suffix cut off |
| Text.StripNothing | scripts/enrich_raci.py:84 | a string that neither starts nor ends with whitespace is its own `strip()` |
| Text.Lower | scripts/enrich_raci.py:55 | `lower()` keeps the length; `LowerAt` states it maps each character on its own |
| Text.Upper | scripts/enrich_raci.py:90 | `upper()` keeps the length; `KeepRaciUpper` states what the RACI match then keeps |
| Text.Words | scripts/enrich_raci.py:61 | `split()` returns only non-empty words free of whitespace; the lemmas below pin it down as the maximal non-whitespace runs |
| Text.WordsOfWord | scripts/enrich_raci.py:61 | a single word splits into itself |
| Text.WordsAllSpace | scripts/enrich_raci.py:61 | a string of whitespace only splits into nothing |
| Text.WordsSpaceCons | scripts/enrich_raci.py:61 | leading whitespace does not change the split |
| Text.WordsSplit | scripts/enrich_raci.py:61 | a whitespace character cuts: the words of `a + [c] + b` are those of `a` followed by those of `b` |
| Text.WordsSpacePrefix | scripts/enrich_raci.py:61 | any whitespace prefix leaves the split unchanged |
| Text.WordsSpaceSuffix | scripts/enrich_raci.py:61 | any whitespace suffix leaves the split unchanged |
| Text.WordsStrip | scripts/enrich_raci.py:61 | `strip()` before `split()` changes nothing |
| Text.Collapsed | scripts/enrich_raci.py:61 | the shape of a cleaned name: no whitespace at either end, every inner whitespace a single `' '` between two non-whitespace characters; `JoinSpacedCollapsed` and `Roles.CleanCollapses` state who produces it |
| Text.JoinSpacedCollapsed | scripts/enrich_raci.py:61 | words joined by single spaces give a collapsed string, non-empty when there is a word |
| Text.WordsJoinSpaced | scripts/enrich_raci.py:61 | splitting words joined by single spaces gives back the same words |
| Text.JoinSpaced | scripts/enrich_raci.py:61 | `" ".join(words)`; no contract of its own, `JoinSpacedCollapsed` and `WordsJoinSpaced` state its properties |
| Text.Replace | scripts/enrich_raci.py:89 | `replace`, left to right and non-overlapping; `Text.ReplaceAbsent` and `Tokens.ConfusableIsC` state what it does to tokens |
| Text.StrLe | scripts/enrich_raci.py:146 | Python's `<=` on `str`; no contract of its own, `StrLeTotal`, `StrLeTransitive` and `StrLeAntisymmetric` state its laws |
| Text.LowerAt | scripts/enrich_raci.py:62 | `lower()` works character by character |
| Text.LowerAppend | scripts/enrich_raci.py:55 | `lower()` of a concatenation is the concatenation of the `lower()`s |
| Text.LowerNoUpper | scripts/enrich_raci.py:55 | a string without upper-case letters is its own `lower()` |
| Text.ReplaceAbsent | scripts/enrich_raci.py:89 | `replace` leaves a string alone when the pattern's first character is absent |
| Text.StrLeTotal | scripts/enrich_raci.py:146 | Python's `<=` on `str` relates any two strings one way or the other (used by the sorts at lines 146 and 292) |
| Text.StrLeTransitive | scripts/enrich_raci.py:146 | Python's `<=` on `str` is transitive |
| Text.StrLeAntisymmetric | scripts/enrich_raci.py:146 | strings related both ways are equal |
| Sorting.Sort | scripts/enrich_raci.py:231 | the sorted list is a permutation of its input |
| Sorting.SortSorted | scripts/enrich_raci.py:231 | the result is ordered by the key |
| Sorting.SortStable | scripts/enrich_raci.py:231 | elements with equal keys keep their input order |
| Sorting.SortKeepsKeysDistinct | scripts/enrich_raci.py:292-299 | sorting keeps pairwise distinct keys pairwise distinct |
| Sorting.Take | scripts/enrich_raci.py:237 | `s[:n]` has `min(n, len(s))` elements, a prefix of `s` |
| OrderedDicts.GetPut | scripts/enrich_raci.py:141 | after `d[k] = v`, `d[k]` is `v` and every other key reads as before |
| OrderedDicts.PutKeys | scripts/enrich_raci.py:141 | `d[k] = v` keeps the key order and appends a new key last |
| OrderedDicts.GetFound | scripts/enrich_raci.py:67 | a key is found exactly when it is among the keys |
| OrderedDicts.CountAdd | scripts/enrich_raci.py:160 | `counter[k] += n` raises that key's count by `n` and no other |
| OrderedDicts.TotalAdd | scripts/enrich_raci.py:172 | `counter[k] += n` raises the sum of the counts by `n` |
| Tokens.KeepRaci | scripts/enrich_raci.py:90 | `re.findall(r"[RACI]", s)` yields only RACI letters |
| Tokens.TokenLetters | scripts/enrich_raci.py:84-94 | one token yields only RACI letters, and nothing when blank after trimming |
| Tokens.NormalizeTokens | scripts/enrich_raci.py:81-96 | every output letter is one of `R`, `A`, `C`, `I` |
| Tokens.CellLetters | scripts/enrich_raci.py:148 | the letters of a cell are RACI letters |
| Tokens.CellTokens | scripts/enrich_raci.py:83 | a list cell yields its items and a string cell yields its characters |
| Tokens.NormalizeTokensAppend | scripts/enrich_raci.py:83-94 | the letters of consecutive tokens come out one token after the other |
| Tokens.BlankTokenIgnored | scripts/enrich_raci.py:84-86 | a token that is blank after trimming can be removed without changing the result |
| Tokens.KeepRaciUpper | scripts/enrich_raci.py:90 | upper-casing and matching is the per-character reference reading |
| Tokens.StripKeepsRaci | scripts/enrich_raci.py:84 | trimming a token never removes a letter |
| Tokens.TokenLettersPlain | scripts/enrich_raci.py:84-94 | a token without the stand-in yields, in order, its characters whose upper case is `R`, `A`, `C` or `I`, upper-cased; every other character is dropped |
| Tokens.ConfusableIsC | scripts/enrich_raci.py:89 | the stand-in for `C` on its own reads as `C` |
| Tokens.TextCellLetters | scripts/enrich_raci.py:83-94 | a string cell yields the reference reading of the whole string |
| Tokens.TextMatchesSingleItem | scripts/enrich_raci.py:83-94 | a plain string cell and the same string as a one-item list give the same letters |
| Roles.RoleId | scripts/enrich_raci.py:68 | a new role's id is a slug |
| Roles.Clean | scripts/enrich_raci.py:61 | `" ".join(raw.strip().split())`; no contract of its own, `CleanCollapses`, `CleanWords` and `SpacingVariantsMerge` state what it computes |
| Roles.CleanCollapses | scripts/enrich_raci.py:61 | the cleaned name is whitespace-collapsed, keeps the raw name's words, and cleaning it again changes nothing |
| Roles.CleanWords | scripts/enrich_raci.py:61 | the cleaned name is the raw name's words joined by single spaces |
| Roles.SpacingVariantsMerge | scripts/enrich_raci.py:61-65 | names with the same words have the same cleaned name, display name and key, so spacing never splits a role |
| Roles.CleanTwoWords | scripts/enrich_raci.py:61 | two words one space apart split into those words and are already clean |
| Roles.TrailingSpaceSpelling | scripts/enrich_raci.py:61 | a trailing space does not change a two-word name, as with "product owner " |
| Roles.DoubleSpaceSpelling | scripts/enrich_raci.py:61 | two spaces between two words count as one, as with "Product  Owner" |
| Roles.Preferred | scripts/enrich_raci.py:27-29 | the override table: "product owner" is displayed as "Product Owner", every other key as cleaned; no contract of its own, `Display` reads it |
| Roles.Display | scripts/enrich_raci.py:64 | the preferred spelling of the lower-cased cleaned name, or the cleaned name; no contract of its own |
| Roles.CanonicalKey | scripts/enrich_raci.py:65 | the lower-cased display name; `Roles.RegisterFiles` and `Roles.RegisterGrows` state how the registry is keyed by it |
| Roles.Register | scripts/enrich_raci.py:60-78 | the registry, role and `created` flag after a call; `RegisterFiles`, `RegisterGrows`, `RegisterKeepsOthers`, `RegisterRole`, `RegisterKeepsValid` and `RegisterTwice` state its properties |
| Roles.RegisterFiles | scripts/enrich_raci.py:67-74 | afterwards the canonical key is in the registry and maps to the returned role |
| Roles.RegisterGrows | scripts/enrich_raci.py:67-72 | `created` holds exactly when the key was absent; the registry then gains exactly that key, last, and otherwise keeps its keys |
| Roles.RegisterKeepsOthers | scripts/enrich_raci.py:67-76 | no role under another key changes |
| Roles.RegisterRole | scripts/enrich_raci.py:64-76 | a new role gets the display name and its id; an existing one keeps id and name and at most gains the cleaned spelling as its last alias; the cleaned spelling is then its name or an alias |
| Roles.RegisterKeepsValid | scripts/enrich_raci.py:75-76 | alias lists stay free of duplicates and never hold the role's name |
| Roles.RegisterTwice | scripts/enrich_raci.py:60-78 | registering the same raw name again changes nothing and creates nothing |
| Roles.RoleRegistry.NormalizeRoleName | scripts/enrich_raci.py:60-78 | the registry after the call, the returned role and `created` are those `Register` gives |
| Roles.RoleRegistry.constructor | scripts/enrich_raci.py:112 | the registry starts empty |
| Catalog.ActionId | scripts/enrich_raci.py:138 | `f"{group_id}__{slugify(name)}"`; no contract of its own, `CatalogProps.LookupOk` and `Dependencies.TargetOk` are stated with it |
| Catalog.EmitLetter | scripts/enrich_raci.py:163-172 | one letter: keeps the letter keys of `letter_roles`; `CatalogProps.EmitLettersEffect` states the rest |
| Catalog.EmitLetters | scripts/enrich_raci.py:162-172 | the letter loop keeps the letter keys of `letter_roles`; `CatalogProps.EmitLettersEffect` states its effect |
| Catalog.AssignStep | scripts/enrich_raci.py:147-172 | one assignment keeps the letter keys; `CatalogProps.AssignStepEffect` states its effect |
| Catalog.AssignAll | scripts/enrich_raci.py:146-172 | the assignment loop keeps the letter keys; `CatalogProps.AssignAllExtends` states its effect |
| Catalog.SortedAssignments | scripts/enrich_raci.py:146 | `sorted(assignments.items())`; `CatalogProps.SortedAssignmentsSpec` states its order |
| Catalog.CriticalIssue | scripts/enrich_raci.py:176-192 | the R/A verdict on one letter's role ids; `CatalogProps.CriticalIssueIff` states when each verdict arises |
| Catalog.CriticalWarnings | scripts/enrich_raci.py:175-192 | at most one warning per checked letter, each for the action checked |
| Catalog.OpenAction | scripts/enrich_raci.py:137-141 | the action record and lookup entry; `CatalogProps.ActivityStepEffect` states them |
| Catalog.CloseAction | scripts/enrich_raci.py:174-204 | the R/A warnings and the dependency spec; `CatalogProps.ActivityStepEffect` and `CatalogProps.ActivityCritical` state them |
| Catalog.ActivityStep | scripts/enrich_raci.py:137-204 | one activity leaves `letter_roles` with all four letters; `CatalogProps.ActivityStepEffect` states its effect |
| Catalog.ActivityAll | scripts/enrich_raci.py:136-204 | the activity loop; `CatalogProps.ActivityAllActions`, `ActivityAllEdges`, `ActivityAllKeeps` and `ActivityAllLookup` state its effect |
| Catalog.DeclareRole | scripts/enrich_raci.py:131-132 | one group-level role; `CatalogProps.DeclareRolesKeeps` states that it touches only the registry and `role_usage` |
| Catalog.DeclareRoles | scripts/enrich_raci.py:130-132 | the group-level role loop; `CatalogProps.DeclareRolesKeeps` states its effect |
| Catalog.GroupStep | scripts/enrich_raci.py:124-210 | one group; `CatalogProps.GroupStepEffect` and `CatalogProps.GroupStepLookup` state its effect |
| Catalog.CatalogAll | scripts/enrich_raci.py:123-210 | the group loop; `CatalogProps.CatalogAllGroups`, `CatalogAllLookup` and `CatalogAllRaci` state its effect |
| CatalogProps.ByRoleNamePreorder | scripts/enrich_raci.py:146 | ordering assignments by raw role name with Python's `<=` is total and transitive |
| CatalogProps.SortedAssignmentsSpec | scripts/enrich_raci.py:146 | `sorted(assignments.items())` visits every assignment exactly once, in non-decreasing role-name order, strictly increasing when the names are distinct as a mapping's keys are |
| CatalogProps.Tally | scripts/enrich_raci.py:172 | the number of edges carrying a letter; `TallyAppend` states that it adds up over concatenation |
| CatalogProps.TallyAppend | scripts/enrich_raci.py:172 | the count of a letter over two runs of edges is the sum of the two counts |
| CatalogProps.EmitLettersCounts | scripts/enrich_raci.py:162-172 | the letter loop raises `group_edge_counts[l]` by the number of new edges with letter `l` |
| CatalogProps.LetterEdges | scripts/enrich_raci.py:162-170 | one edge per letter, in letter order |
| CatalogProps.EmitLettersEffect | scripts/enrich_raci.py:162-172 | the letter loop appends one edge per letter in order, adds the role id to each letter's list once per edge, raises each letter's group count by the number of new edges with that letter and their sum by the number of letters, and changes nothing else |
| CatalogProps.AssignStepEffect | scripts/enrich_raci.py:146-172 | with no letters, exactly one "No valid RACI tokens" warning and no edge, usage or letter-list change; otherwise `len(letters)` edges in letter order, usage raised by `len(letters)`, and each letter's group count raised by its new edges |
| CatalogProps.AssignAllExtends | scripts/enrich_raci.py:146-172 | the assignment loop only appends edges of this action and group carrying RACI letters, records each under its letter, and raises each letter's group count by the new edges carrying it |
| CatalogProps.CriticalWarningsShape | scripts/enrich_raci.py:175-192 | the check adds at most one R warning, then at most one A warning |
| CatalogProps.CriticalIssueIff | scripts/enrich_raci.py:175-192 | "Missing" exactly when no edge carries the letter, "Multiple" (listing every such role id with repeats) exactly when more than one does, none when exactly one does |
| CatalogProps.ActivityLetterRoles | scripts/enrich_raci.py:144-171 | `letter_roles[l]` is the role ids of the activity's edges with letter `l`, in order |
| CatalogProps.ActivityCritical | scripts/enrich_raci.py:144-192 | an activity's R/A warnings are decided by the edges it emitted |
| CatalogProps.ActivityStepEffect | scripts/enrich_raci.py:137-204 | one activity appends its action record, files its lookup entry, appends only its own edges with RACI letters, adds a dependency spec exactly when `depends_on` is non-empty, and only appends warnings |
| CatalogProps.ActivityAllActions | scripts/enrich_raci.py:136-140 | the activity loop appends one action record per activity, in order |
| CatalogProps.ActivityAllEdges | scripts/enrich_raci.py:134-172 | the activity loop appends only edges of the group, and each letter's group count rises by the new edges carrying it |
| CatalogProps.ActivityAllKeeps | scripts/enrich_raci.py:136-204 | the activity loop only appends warnings and leaves group records and summaries alone |
| CatalogProps.ActivityAllLookup | scripts/enrich_raci.py:141 | every activity's `(title, name)` is filed under the ids built from it, and no key is lost |
| CatalogProps.DeclareRolesKeeps | scripts/enrich_raci.py:130-132 | group-level roles touch only the registry and `role_usage` |
| CatalogProps.GroupStepEffect | scripts/enrich_raci.py:124-210 | a group appends its record and its action records, emits only its own edges, and its summary has its title, `action_count` equal to its number of activities, and an `edge_distribution` giving, for each letter, the number of edges the group emitted with that letter, summing to all of them |
| CatalogProps.GroupActivitiesEffect | scripts/enrich_raci.py:134-209 | the activity loop of a group, started from empty counts, appends the action records and only group edges, and leaves counts that tally the new edges letter by letter |
| CatalogProps.GroupStepLookup | scripts/enrich_raci.py:136-141 | a group keeps the lookup well formed and files each of its activities |
| CatalogProps.CatalogAllLookup | scripts/enrich_raci.py:123-141 | after the group loop the lookup files every activity of every group under the ids built from it |
| CatalogProps.CatalogAllGroups | scripts/enrich_raci.py:123-127 | one group record per group, in input order |
| CatalogProps.CatalogAllRaci | scripts/enrich_raci.py:162-170 | every relationship carries `R`, `A`, `C` or `I` |
| Metrics.LetterCountsSum | scripts/enrich_raci.py:219-220 | a role's four letter counts sum to its number of relationships |
| Metrics.SummarizeCounts | scripts/enrich_raci.py:218-229 | a summary holds all four letter counts, and `total_assignments` is their sum |
| Metrics.SummariesAt | scripts/enrich_raci.py:218-229 | the i-th summary is that of the i-th registered role |
| Metrics.RankSpec | scripts/enrich_raci.py:231 | `role_summary` is a permutation of the summaries, non-increasing by total, registration order kept among ties |
| Metrics.TakeDominates | scripts/enrich_raci.py:233-237 | the first elements of a sorted list may precede every element left out |
| Metrics.OverloadedSpec | scripts/enrich_raci.py:233-237 | `overloaded_roles` has `min(3, #roles)` entries drawn from `role_summary`, non-increasing by `(R+A, total)`, none outranked by an entry left out |
| Metrics.RankedTallies | scripts/enrich_raci.py:212-231 | every ranked summary belongs to a registered role and holds its counts and their sum |
| Metrics.LetterCount | scripts/enrich_raci.py:213-219 | `role_letter_counts[id][l]`; no contract of its own, `LetterCountsSum` and `Pipeline.Enricher.TallyLetters` state its meaning |
| Metrics.Summarize | scripts/enrich_raci.py:219-229 | one role's summary; `SummarizeCounts` states its fields |
| Metrics.Summaries | scripts/enrich_raci.py:217-229 | one summary per registered role; `SummariesAt` states which |
| Metrics.Rank | scripts/enrich_raci.py:231 | `role_summary` is a permutation of the summaries; `RankSpec` states its order |
| Metrics.Overloaded | scripts/enrich_raci.py:233-237 | `overloaded_roles` has `min(3, #roles)` entries; `OverloadedSpec` states which |
| Dependencies.ResolveCases | scripts/enrich_raci.py:245-287 | each reference meets exactly one fate: missing name, target not found, duplicate, or new edge, each under its stated condition |
| Dependencies.ResolvedTarget | scripts/enrich_raci.py:246-289 | a new edge copies the spec's source fields, has the reference's activity name and the defaulted group title (the reference's truthy `group`, else the source group's title), takes its target ids from the lookup entry of that pair, which are the ids built from the title's slug and the name, has the reference's `type` or `depends_on`, and its key was not seen |
| Dependencies.ResolveStepEffect | scripts/enrich_raci.py:245-290 | a warning alone for the first two fates, nothing for a duplicate, and for a new edge the edge, its key and one more of its type |
| Dependencies.ResolveStepConsistent | scripts/enrich_raci.py:273-290 | one reference keeps the seen set equal to the edge keys, the keys distinct and the counts per type exact |
| Dependencies.ResolveSpecsConsistent | scripts/enrich_raci.py:243-290 | the whole resolution keeps that bookkeeping |
| Dependencies.ResolveSpecsTargets | scripts/enrich_raci.py:258-271 | every resolved edge targets the action built from its target group title and activity name |
| Dependencies.TupleLeTotal | scripts/enrich_raci.py:292-299 | tuple order relates any two keys one way or the other |
| Dependencies.TupleLeTransitive | scripts/enrich_raci.py:292-299 | tuple order is transitive |
| Dependencies.SortDepsSpec | scripts/enrich_raci.py:292-299 | the final edges are a permutation of the resolved ones, sorted by the five-part key, still with distinct `(source, target, type)`, and the counts sum to their number |
| Dependencies.DepIssueText | scripts/enrich_raci.py:248-266 | the two warning texts; no contract of its own |
| Dependencies.Resolve | scripts/enrich_raci.py:245-287 | the fate of one reference; `ResolveCases` and `ResolvedTarget` state it |
| Dependencies.ResolveStep | scripts/enrich_raci.py:245-290 | one reference resolved; `ResolveStepEffect` and `ResolveStepConsistent` state its effect |
| Dependencies.ResolveRefs | scripts/enrich_raci.py:245-290 | the inner loop; `ResolveRefsConsistent` and `ResolveRefsTargets` state what it keeps |
| Dependencies.ResolveSpecs | scripts/enrich_raci.py:244-290 | the outer loop; `ResolveSpecsConsistent` and `ResolveSpecsTargets` state what it keeps |
| Dependencies.ResolveRefsConsistent | scripts/enrich_raci.py:245-290 | the inner loop keeps the bookkeeping consistent |
| Dependencies.ResolveRefsTargets | scripts/enrich_raci.py:258-289 | the inner loop only adds edges that target the action built from their target title and name |
| Dependencies.ByDepKeyPreorder | scripts/enrich_raci.py:292-299 | the five-part key order is total and transitive |
| Dependencies.SortDeps | scripts/enrich_raci.py:292-299 | the final edge list is a permutation of the resolved one; `SortDepsSpec` states its order |
| Pipeline.Enricher.constructor | scripts/enrich_raci.py:112-121 | all accumulators start empty |
| Pipeline.Enricher.RecordLetters | scripts/enrich_raci.py:162-172 | the fields end as the letter loop's specification gives, and the resolver and metric fields are unchanged |
| Pipeline.Enricher.WarnNoTokens | scripts/enrich_raci.py:147-158 | registers the role and appends the warning, as one assignment step specifies, and the resolver and metric fields are unchanged |
| Pipeline.Enricher.AssignLetters | scripts/enrich_raci.py:147-172 | registers the role, raises its usage and records its edges, as one assignment step specifies, and the resolver and metric fields are unchanged |
| Pipeline.Enricher.AssignRole | scripts/enrich_raci.py:147-172 | the fields end as one assignment step gives, and the resolver and metric fields are unchanged |
| Pipeline.Enricher.AssignRoles | scripts/enrich_raci.py:146-172 | the fields end as the assignment loop's fold gives, and the resolver and metric fields are unchanged |
| Pipeline.Enricher.CheckCritical | scripts/enrich_raci.py:175-192 | appends exactly the R/A warnings the specification gives, and the resolver and metric fields are unchanged |
| Pipeline.Enricher.OpenActivity | scripts/enrich_raci.py:137-141 | appends the action record and files the lookup entry, and the resolver and metric fields are unchanged |
| Pipeline.Enricher.CatalogActivity | scripts/enrich_raci.py:137-204 | the fields end as one activity step gives, and the resolver and metric fields are unchanged |
| Pipeline.Enricher.DeclareGroupRoles | scripts/enrich_raci.py:130-132 | the fields end as the role declaration fold gives, and the resolver and metric fields are unchanged |
| Pipeline.Enricher.CatalogActivities | scripts/enrich_raci.py:134-204 | the fields end as the activity fold gives, and the resolver and metric fields are unchanged |
| Pipeline.Enricher.CatalogGroup | scripts/enrich_raci.py:124-210 | the fields end as one group step gives, and the resolver and metric fields are unchanged |
| Pipeline.Enricher.CatalogGroups | scripts/enrich_raci.py:123-210 | the fields end as the group fold gives, and the resolver and metric fields are unchanged |
| Pipeline.Enricher.TallyLetters | scripts/enrich_raci.py:213-215 | `role_letter_counts[id][l]` is the number of relationships of role `id` with letter `l` |
| Pipeline.Enricher.BuildSummaries | scripts/enrich_raci.py:217-229 | one summary per registered role, in registration order |
| Pipeline.Enricher.RoleMetrics | scripts/enrich_raci.py:212-237 | `role_summary` and `overloaded_roles` as ranked by the specification, nothing else changed |
| Pipeline.Enricher.ResolveReference | scripts/enrich_raci.py:245-290 | the resolver fields end as one resolution step gives, nothing else changed |
| Pipeline.Enricher.ResolveReferences | scripts/enrich_raci.py:244-290 | the resolver fields end as the fold over one spec's references gives |
| Pipeline.Enricher.ResolveDependencies | scripts/enrich_raci.py:239-299 | the resolver fields end as the fold over all specs gives, with the edges sorted |
| Pipeline.Enrich | scripts/enrich_raci.py:108-320 | the payload is `EnrichSpec` of the input groups |
| Pipeline.EnrichSpec | scripts/enrich_raci.py:302-319 | the payload of `main`; `EnrichDependencies`, `EnrichRoleSummary`, `EnrichOverloaded` and `EnrichLookup` state its properties |
| Dataset.IssueText | scripts/enrich_raci.py:151-192 | the three action-warning texts; no contract of its own |
| Pipeline.EnrichDependencies | scripts/enrich_raci.py:239-316 | `activity_dependencies` is sorted by the five-part key, has distinct `(source, target, type)`, targets the actions built from the references, and `total` is both its length and the sum of `counts_by_type` |
| Pipeline.EnrichRoleSummary | scripts/enrich_raci.py:212-231 | `role_summary` is a permutation of the registered roles' summaries, non-increasing by total with ties in registration order, each holding its four counts, their sum, and that sum equal to the role's number of relationships |
| Pipeline.EnrichOverloaded | scripts/enrich_raci.py:233-237 | `overloaded_roles` has `min(3, #roles)` entries of `role_summary`, non-increasing by `(R+A, total)`, none outranked by an entry left out |
| Pipeline.EnrichLookup | scripts/enrich_raci.py:123-141 | `action_lookup` files every activity's `(title, name)` under the ids built from it |

## Left out

- Reading the YAML file, creating the build directory, and writing JSON and CSV (lines 99-106 and 321-376). These are file I/O and library serialisation. The input is the `Dataset.Group` datatype, and the payload is `Pipeline.Output`.
- Unicode: `strip`, `split`, `lower` and `upper` are modelled on ASCII whitespace and ASCII letters only. The regular expressions are written as explicit character scans.
- The stand-in for `C` at line 89 is modelled as the two-character constant the file spells (U+0E30 U+0E01). A Cyrillic `С` (U+0421) in a token is therefore dropped, as the code as written does.
- `KeyError` on a group without `group_title` or an activity without `name` (lines 124, 137) is not modelled. The input datatypes always carry both fields.
- Inputs of the wrong type are not representable, so the exceptions they raise are not modelled: `roles: null` (line 130) or `activities: null` (line 136), where `.get(k, [])` returns `None`; `assignments: null` (line 146); a null or numeric cell or token (lines 83-84); a numeric role name (line 61) or a mix of numeric and string role names that `sorted` cannot compare (line 146); a non-string group title (line 55); a `depends_on` entry that is not a mapping (line 246). The datatypes carry strings and lists only. Only `depends_on: null` is representable: line 194 turns it into an empty list, and the model does the same.
- `type: null` in a dependency (line 270) is not representable. `DepRef.relType` is absent or a string, and absent means `"depends_on"`.
- `sorted(assignments.items())` (line 146) compares `(name, tokens)` pairs. Mapping keys are distinct, so only the names decide, and the model sorts by name.
- `role_usage` (lines 113, 132, 160) is maintained as the code does. `CatalogProps.AssignStepEffect` states the `+= len(letters)` of line 160, and `CatalogProps.DeclareRolesKeeps` states that lines 131-132 touch only the registry and `role_usage`. No property is stated about its final content, because the payload never reads it.
- The dictionaries keep insertion order as association lists. `action_lookup` and `group_summary` overwrite on slug or title collisions exactly as the code does; no collision is detected.
- The sorts at lines 231, 234 and 292 are computed by the stable sort function `Sorting.Sort`, not in place. Any stable sort yields the same list.
- The text of warnings is modelled by `Dataset.IssueText` and `Dependencies.DepIssueText`; the payload keeps the structured `Issue` values. No property is stated about the message text.
- Roles are values in the registry. Python's in-place append to `role.aliases` (line 76) is modelled by storing the updated role back under its key, which is the only place the object is reachable from.
