/** The role registry, `normalize_role_name` (scripts/enrich_raci.py:60-78): raw role names
    are whitespace-collapsed, mapped through the override table, and filed under the
    lower-cased display name in an insertion-ordered dictionary (`canonical_roles`). The
    first spelling seen for a key creates the role; other spellings become its aliases. */
module Roles {
  import opened Options
  import opened Text
  import opened Slugs
  import opened OrderedDicts

  datatype Role = Role(id: string, name: string, aliases: seq<string>)

  /** `" ".join(raw_name.strip().split())`. */
  function Clean(raw: string): string {
    JoinSpaced(Words(Strip(raw)))
  }

  /** `PREFERRED_ROLE_NAMES.get(key)` (lines 27-29). */
  function Preferred(key: string): Option<string> {
    if key == "product owner" then Some("Product Owner") else None
  }

  /** The display name a raw role name is filed under. */
  function Display(raw: string): string {
    var cleaned := Clean(raw);
    Preferred(Lower(cleaned)).GetOr(cleaned)
  }

  /** The key of `canonical_roles` a raw role name is filed under. */
  function CanonicalKey(raw: string): string {
    Lower(Display(raw))
  }

  /** The id a new role receives: `slugify(display.replace("&", "and"))`. */
  function RoleId(display: string): (id: string)
    ensures IsSlug(id)
  {
    Slugify(Replace(display, "&", "and"))
  }

  /** A role's alias list has no repeats and never holds the role's own name. */
  ghost predicate AliasesOk(r: Role) {
    && (forall i, j :: 0 <= i < j < |r.aliases| ==> r.aliases[i] != r.aliases[j])
    && r.name !in r.aliases
  }

  ghost predicate Valid(roles: Dict<string, Role>) {
    forall e :: e in roles ==> AliasesOk(e.1)
  }

  /** The registry after a call, the role returned and the `created` flag. */
  datatype Registration = Registration(roles: Dict<string, Role>, role: Role, created: bool)

  /** `normalize_role_name(raw, canonical_roles)`: the registry after the call, the role the
      call returns and whether it created that role. */
  function Register(roles: Dict<string, Role>, raw: string): Registration
  {
    var cleaned := Clean(raw);
    var key := CanonicalKey(raw);
    var found := Get(roles, key);
    var role := if found.Some? then found.value else Role(RoleId(Display(raw)), Display(raw), []);
    var role' := if cleaned != role.name && cleaned !in role.aliases
      then role.(aliases := role.aliases + [cleaned]) else role;
    Registration(Put(roles, key, role'), role', found.None?)
  }

  /** After the call the canonical key is registered, and it maps to the returned role. */
  /** The cleaned name is whitespace-collapsed, has the raw name's words, and cleaning it
      again changes nothing. */
  lemma CleanCollapses(raw: string)
    ensures Collapsed(Clean(raw))
    ensures Words(Clean(raw)) == Words(raw)
    ensures Clean(Clean(raw)) == Clean(raw)
  {
    var ws := Words(Strip(raw));
    var c := JoinSpaced(ws);
    WordsStrip(raw);
    JoinSpacedCollapsed(ws);
    WordsJoinSpaced(ws);
    assert c != [] ==> !IsSpace(c[0]) && !IsSpace(c[|c| - 1]);
    StripNothing(c);
  }

  /** Names that differ only in where and how much whitespace they carry are filed under
      the same display name and key. */
  lemma SpacingVariantsMerge(a: string, b: string)
    requires Words(a) == Words(b)
    ensures Clean(a) == Clean(b)
    ensures Display(a) == Display(b) && CanonicalKey(a) == CanonicalKey(b)
  {
    WordsStrip(a);
    WordsStrip(b);
  }

  /** The `strip()` in `Clean` changes nothing: the cleaned name is the words of the raw
      name joined by single spaces. */
  lemma CleanWords(raw: string)
    ensures Clean(raw) == JoinSpaced(Words(raw))
  {
    WordsStrip(raw);
  }

  /** Two words one space apart are already clean. */
  lemma CleanTwoWords(w0: string, w1: string)
    requires IsWord(w0) && IsWord(w1)
    ensures Words(w0 + [' '] + w1) == [w0, w1]
    ensures Clean(w0 + [' '] + w1) == w0 + [' '] + w1
  {
    WordsOfWord(w0);
    WordsOfWord(w1);
    WordsSplit(w0, ' ', w1);
    assert JoinSpaced([w0, w1]) == w0 + [' '] + w1;
    CleanWords(w0 + [' '] + w1);
  }

  /** A trailing space does not change a two-word name (as in "product owner "). */
  lemma TrailingSpaceSpelling(w0: string, w1: string)
    requires IsWord(w0) && IsWord(w1)
    ensures Clean(w0 + [' '] + w1 + [' ']) == w0 + [' '] + w1
  {
    var one := w0 + [' '] + w1;
    CleanTwoWords(w0, w1);
    WordsSpaceSuffix(one, [' ']);
    CleanWords(one + [' ']);
    CleanWords(one);
  }

  /** Two spaces between the words count as one (as in "Product  Owner"). */
  lemma DoubleSpaceSpelling(w0: string, w1: string)
    requires IsWord(w0) && IsWord(w1)
    ensures Clean(w0 + [' ', ' '] + w1) == w0 + [' '] + w1
  {
    var one := w0 + [' '] + w1;
    var two := w0 + [' ', ' '] + w1;
    CleanTwoWords(w0, w1);
    assert two == w0 + [' '] + ([' '] + w1);
    WordsSplit(w0, ' ', [' '] + w1);
    WordsSpaceCons(' ', w1);
    WordsSplit(w0, ' ', w1);
    assert Words(two) == Words(one);
    CleanWords(two);
    CleanWords(one);
  }

  lemma RegisterFiles(roles: Dict<string, Role>, raw: string)
    ensures var r := Register(roles, raw);
      && CanonicalKey(raw) in Keys(r.roles)
      && Get(r.roles, CanonicalKey(raw)) == Some(r.role)
  {
    var r := Register(roles, raw);
    GetPut(roles, CanonicalKey(raw), r.role, CanonicalKey(raw));
    GetFound(r.roles, CanonicalKey(raw));
  }

  /** A role is created exactly when its canonical key was not yet registered; then the
      key is appended and the registry grows by one entry, otherwise its keys and size
      are unchanged. */
  lemma RegisterGrows(roles: Dict<string, Role>, raw: string)
    ensures var r := Register(roles, raw);
      && (r.created <==> CanonicalKey(raw) !in Keys(roles))
      && Keys(r.roles) == (if r.created then Keys(roles) + [CanonicalKey(raw)] else Keys(roles))
      && |r.roles| == |roles| + (if r.created then 1 else 0)
  {
    var r := Register(roles, raw);
    GetFound(roles, CanonicalKey(raw));
    PutKeys(roles, CanonicalKey(raw), r.role);
    PutLength(roles, CanonicalKey(raw), r.role);
  }

  /** No role other than the one filed under the canonical key changes. */
  lemma RegisterKeepsOthers(roles: Dict<string, Role>, raw: string, k: string)
    requires k != CanonicalKey(raw)
    ensures Get(Register(roles, raw).roles, k) == Get(roles, k)
  {
    GetPut(roles, CanonicalKey(raw), Register(roles, raw).role, k);
  }

  /** A new role takes the display name and the id derived from it; an existing role keeps
      its id and name and at most gains the cleaned spelling as its last alias. In both
      cases the cleaned spelling is afterwards the role's name or one of its aliases. */
  lemma RegisterRole(roles: Dict<string, Role>, raw: string)
    ensures var r := Register(roles, raw);
      && (r.created ==> r.role.id == RoleId(Display(raw)) && r.role.name == Display(raw))
      && (!r.created ==> var old_ := Get(roles, CanonicalKey(raw)).value;
            && r.role.id == old_.id && r.role.name == old_.name
            && (r.role.aliases == old_.aliases || r.role.aliases == old_.aliases + [Clean(raw)]))
      && (Clean(raw) == r.role.name || Clean(raw) in r.role.aliases)
  {
  }

  /** Aliases stay free of duplicates and never repeat the role's name. */
  lemma RegisterKeepsValid(roles: Dict<string, Role>, raw: string)
    requires Valid(roles)
    ensures Valid(Register(roles, raw).roles)
  {
    var r := Register(roles, raw);
    var key := CanonicalKey(raw);
    var found := Get(roles, key);
    if found.Some? {
      GetEntry(roles, key);
    }
    assert AliasesOk(r.role);
    forall e | e in r.roles ensures AliasesOk(e.1) {
      PutEntries(roles, key, r.role, e);
    }
  }

  /** Registering the same raw name a second time changes nothing and creates nothing. */
  lemma RegisterTwice(roles: Dict<string, Role>, raw: string)
    ensures var r := Register(roles, raw);
      && Register(r.roles, raw) == Registration(r.roles, r.role, false)
  {
    var r := Register(roles, raw);
    var key := CanonicalKey(raw);
    RegisterFiles(roles, raw);
    RegisterRole(roles, raw);
    PutPut(roles, key, r.role, r.role);
  }

  /** `canonical_roles` with the method that updates it in place. */
  class RoleRegistry {
    var roles: Dict<string, Role>

    constructor ()
      ensures roles == []
    {
      roles := [];
    }

    /** `normalize_role_name(raw, self.roles)`. */
    method NormalizeRoleName(raw: string) returns (role: Role, created: bool)
      modifies this
      ensures Registration(roles, role, created) == Register(old(roles), raw)
    {
      var cleaned := Clean(raw);
      var display := Display(raw);
      var canonicalKey := CanonicalKey(raw);
      ghost var before := roles;
      ghost var fresh_ := Role(RoleId(display), display, []);
      var found := Get(roles, canonicalKey);
      if found.None? {
        roles := Put(roles, canonicalKey, Role(RoleId(display), display, []));
        created := true;
      } else {
        created := false;
      }
      GetPut(before, canonicalKey, fresh_, canonicalKey);
      role := Get(roles, canonicalKey).value;
      assert role == if found.Some? then found.value else fresh_;
      if cleaned != role.name && cleaned !in role.aliases {
        var role' := role.(aliases := role.aliases + [cleaned]);
        if created {
          PutPut(before, canonicalKey, fresh_, role');
        }
        role := role';
        roles := Put(roles, canonicalKey, role);
      } else if !created {
        PutSame(before, canonicalKey);
      }
      assert roles == Put(before, canonicalKey, role);
      RegisterSteps(before, raw);
    }
  }

  /** `Register` spelled out step by step. */
  lemma RegisterSteps(roles: Dict<string, Role>, raw: string)
    ensures var found := Get(roles, CanonicalKey(raw));
      var role := if found.Some? then found.value else Role(RoleId(Display(raw)), Display(raw), []);
      var role' := if Clean(raw) != role.name && Clean(raw) !in role.aliases
        then role.(aliases := role.aliases + [Clean(raw)]) else role;
      Register(roles, raw) == Registration(Put(roles, CanonicalKey(raw), role'), role', found.None?)
  {
  }

  /** Assigning a key the value it already holds changes nothing. */
  lemma {:induction false} PutSame<K, V>(d: Dict<K, V>, k: K)
    requires Get(d, k).Some?
    ensures Put(d, k, Get(d, k).value) == d
  {
    if d[0].0 != k {
      PutSame(d[1..], k);
      assert [d[0]] + d[1..] == d;
    } else {
      assert [(k, d[0].1)] + d[1..] == d;
    }
  }
}
