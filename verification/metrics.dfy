/** The metrics aggregator of `main` (scripts/enrich_raci.py:212-237): per-role letter
    counts over the relationships, one summary per registered role, the summaries ranked
    by total (descending, stable), and the three "overloaded" roles ranked by the R and A
    load, then by total. */
module Metrics {
  import opened Seqs
  import opened Text
  import opened Tokens
  import opened Sorting
  import opened OrderedDicts
  import opened Roles
  import opened Dataset

  /** `counts`: the four letters in `sorted(VALID_RACI)` order, A, C, I, R. */
  datatype LetterCounts = LetterCounts(a: nat, c: nat, i: nat, r: nat)

  /** An entry of `role_summary`. */
  datatype RoleSummary = RoleSummary(
    roleId: string,
    roleName: string,
    aliases: seq<string>,
    counts: LetterCounts,
    total: nat)

  /** `role_letter_counts[role_id][letter]`: how many relationships give the role that
      letter. */
  function LetterCount(edges: seq<Edge>, roleId: string, l: char): nat
    decreases |edges|
  {
    if edges == [] then 0
    else
      var e := edges[|edges| - 1];
      LetterCount(edges[..|edges| - 1], roleId, l) + (if e.roleId == roleId && e.raci == l then 1 else 0)
  }

  /** `role_letter_counts[role_id].get(letter, 0)` on the `defaultdict(Counter)` the
      tally loop fills. */
  function Tallied(tally: map<string, Dict<char, nat>>, roleId: string, l: char): nat {
    if roleId in tally then Count(tally[roleId], l) else 0
  }

  /** How many relationships name the role, whatever the letter. */
  function EdgeCount(edges: seq<Edge>, roleId: string): nat
    decreases |edges|
  {
    if edges == [] then 0
    else
      var e := edges[|edges| - 1];
      EdgeCount(edges[..|edges| - 1], roleId) + (if e.roleId == roleId then 1 else 0)
  }

  /** The summary of one registered role (lines 219-229). */
  function Summarize(role: Role, edges: seq<Edge>): RoleSummary {
    var counts := LetterCounts(
      LetterCount(edges, role.id, 'A'), LetterCount(edges, role.id, 'C'),
      LetterCount(edges, role.id, 'I'), LetterCount(edges, role.id, 'R'));
    RoleSummary(role.id, role.name, role.aliases, counts, counts.a + counts.c + counts.i + counts.r)
  }

  /** The summaries in registration order, before ranking. */
  function Summaries(roles: seq<Role>, edges: seq<Edge>): (ss: seq<RoleSummary>)
    ensures |ss| == |roles|
    decreases |roles|
  {
    if roles == [] then []
    else Summaries(roles[..|roles| - 1], edges) + [Summarize(roles[|roles| - 1], edges)]
  }

  /** The ranking key of line 231, `reverse=True`: a larger total goes first. */
  predicate ByTotalDesc(x: RoleSummary, y: RoleSummary) {
    x.total >= y.total
  }

  /** `counts["R"] + counts["A"]`. */
  function Load(s: RoleSummary): nat {
    s.counts.r + s.counts.a
  }

  /** The key of lines 233-237, `reverse=True`: the pair (R+A, total), larger first. */
  predicate ByLoadDesc(x: RoleSummary, y: RoleSummary) {
    Load(x) > Load(y) || (Load(x) == Load(y) && x.total >= y.total)
  }

  /** `role_summaries.sort(key=total, reverse=True)`. */
  function Rank(ss: seq<RoleSummary>): (r: seq<RoleSummary>)
    ensures multiset(r) == multiset(ss)
  {
    Sort(ss, ByTotalDesc)
  }

  /** `sorted(role_summaries, key=(R+A, total), reverse=True)[:3]`. */
  function Overloaded(ranked: seq<RoleSummary>): (o: seq<RoleSummary>)
    ensures |o| == if |ranked| < 3 then |ranked| else 3
  {
    Take(Sort(ranked, ByLoadDesc), 3)
  }

  lemma ByTotalDescPreorder()
    ensures TotalPreorder(ByTotalDesc)
  {
  }

  lemma ByLoadDescPreorder()
    ensures TotalPreorder(ByLoadDesc)
  {
  }

  /** One more relationship tallied. */
  lemma LetterCountSnoc(edges: seq<Edge>, i: nat, roleId: string, l: char)
    requires i < |edges|
    ensures LetterCount(edges[..i + 1], roleId, l)
         == LetterCount(edges[..i], roleId, l) + (if edges[i].roleId == roleId && edges[i].raci == l then 1 else 0)
  {
    assert edges[..i + 1][..i] == edges[..i];
  }

  /** One more role summarised. */
  lemma SummariesSnoc(roles: seq<Role>, edges: seq<Edge>, i: nat)
    requires i < |roles|
    ensures Summaries(roles[..i + 1], edges) == Summaries(roles[..i], edges) + [Summarize(roles[i], edges)]
  {
    assert roles[..i + 1][..i] == roles[..i];
  }

  /** The letter count of a role sums to its number of relationships, over any edges whose
      letters are RACI letters. */
  lemma {:induction false} LetterCountsSum(edges: seq<Edge>, roleId: string)
    requires forall e :: e in edges ==> IsRaci(e.raci)
    ensures LetterCount(edges, roleId, 'A') + LetterCount(edges, roleId, 'C')
          + LetterCount(edges, roleId, 'I') + LetterCount(edges, roleId, 'R') == EdgeCount(edges, roleId)
    decreases |edges|
  {
    if edges != [] {
      assert forall e :: e in edges[..|edges| - 1] ==> e in edges;
      LetterCountsSum(edges[..|edges| - 1], roleId);
      assert edges[|edges| - 1] in edges;
    }
  }

  /** Every summary holds all four letter counts of its role, and `total_assignments` is
      their sum, which is the number of the role's relationships. */
  lemma SummarizeCounts(role: Role, edges: seq<Edge>)
    requires forall e :: e in edges ==> IsRaci(e.raci)
    ensures var s := Summarize(role, edges);
      && s.roleId == role.id && s.roleName == role.name && s.aliases == role.aliases
      && s.counts == LetterCounts(LetterCount(edges, role.id, 'A'), LetterCount(edges, role.id, 'C'),
                                  LetterCount(edges, role.id, 'I'), LetterCount(edges, role.id, 'R'))
      && s.total == s.counts.a + s.counts.c + s.counts.i + s.counts.r
      && s.total == EdgeCount(edges, role.id)
  {
    LetterCountsSum(edges, role.id);
  }

  /** A summary of a role among `roles`, holding its four letter counts over `edges`, with
      a total that is their sum and the number of the role's relationships. */
  ghost predicate Tallies(s: RoleSummary, roles: seq<Role>, edges: seq<Edge>) {
    && (exists role :: role in roles && s.roleId == role.id && s.roleName == role.name && s.aliases == role.aliases)
    && s.counts == LetterCounts(LetterCount(edges, s.roleId, 'A'), LetterCount(edges, s.roleId, 'C'),
                                LetterCount(edges, s.roleId, 'I'), LetterCount(edges, s.roleId, 'R'))
    && s.total == s.counts.a + s.counts.c + s.counts.i + s.counts.r
    && s.total == EdgeCount(edges, s.roleId)
  }

  /** The i-th summary is the summary of the i-th registered role. */
  lemma {:induction false} SummariesAt(roles: seq<Role>, edges: seq<Edge>, i: nat)
    requires i < |roles|
    ensures Summaries(roles, edges)[i] == Summarize(roles[i], edges)
    decreases |roles|
  {
    if i < |roles| - 1 {
      SummariesAt(roles[..|roles| - 1], edges, i);
    }
  }

  /** `role_summary` holds exactly the summaries of the registered roles, ordered by
      non-increasing total, and roles with equal totals keep their registration order. */
  lemma RankSpec(ss: seq<RoleSummary>)
    ensures var r := Rank(ss);
      && multiset(r) == multiset(ss)
      && (forall i, j :: 0 <= i < j < |r| ==> r[i].total >= r[j].total)
      && (forall y :: Ties(r, y, ByTotalDesc) == Ties(ss, y, ByTotalDesc))
  {
    ByTotalDescPreorder();
    SortSorted(ss, ByTotalDesc);
    forall y ensures Ties(Rank(ss), y, ByTotalDesc) == Ties(ss, y, ByTotalDesc) {
      SortStable(ss, y, ByTotalDesc);
    }
  }

  /** Whatever a sorted list's first `k` elements are, each of them may precede every
      element left after them. */
  lemma TakeDominates<T>(s: seq<T>, k: nat, le: (T, T) -> bool)
    requires SortedBy(s, le)
    ensures var t := Take(s, k);
      forall x, y :: x in multiset(t) && y in multiset(s) - multiset(t) ==> le(x, y)
  {
    var t := Take(s, k);
    var rest := s[|t|..];
    assert s == t + rest;
    forall x, y | x in multiset(t) && y in multiset(s) - multiset(t) ensures le(x, y) {
      assert x in t;
      assert multiset(s) == multiset(t) + multiset(rest);
      assert y in multiset(rest);
      assert y in rest;
      var i :| 0 <= i < |t| && t[i] == x;
      var j :| 0 <= j < |rest| && rest[j] == y;
      assert s[i] == x && s[|t| + j] == y;
    }
  }

  /** `overloaded_roles` holds `min(3, #roles)` summaries drawn from `role_summary`, in
      non-increasing (R+A, total) order, and none of the summaries left out ranks above
      any that was taken. */
  lemma OverloadedSpec(ranked: seq<RoleSummary>)
    ensures var o := Overloaded(ranked);
      && |o| == (if |ranked| < 3 then |ranked| else 3)
      && multiset(o) <= multiset(ranked)
      && (forall i, j :: 0 <= i < j < |o| ==> ByLoadDesc(o[i], o[j]))
      && (forall x, y :: x in multiset(o) && y in multiset(ranked) - multiset(o) ==> ByLoadDesc(x, y))
  {
    var s := Sort(ranked, ByLoadDesc);
    var o := Overloaded(ranked);
    ByLoadDescPreorder();
    SortSorted(ranked, ByLoadDesc);
    TakeDominates(s, 3, ByLoadDesc);
    assert s == o + s[|o|..];
    assert multiset(s) == multiset(o) + multiset(s[|o|..]);
  }

  /** Every ranked summary is the summary of a registered role, with all four letter
      counts and their sum as its total. */
  lemma RankedTallies(roles: seq<Role>, edges: seq<Edge>)
    requires forall e :: e in edges ==> IsRaci(e.raci)
    ensures forall s :: s in Rank(Summaries(roles, edges)) ==> Tallies(s, roles, edges)
  {
    var ss := Summaries(roles, edges);
    forall s | s in Rank(ss) ensures Tallies(s, roles, edges) {
      assert s in multiset(Rank(ss));
      assert s in multiset(ss);
      var i :| 0 <= i < |ss| && ss[i] == s;
      SummariesAt(roles, edges, i);
      SummarizeCounts(roles[i], edges);
      assert roles[i] in roles;
    }
  }
}
