/** The slug generator, `slugify` (scripts/enrich_raci.py:54-57): trim, lower-case,
    replace every run of characters outside `[a-z0-9]` by one underscore, and strip the
    underscores left at either end. Group ids, action ids and role ids are slugs. */
module Slugs {
  import opened Text
  import opened Seqs

  predicate IsAlnum(c: char) { 'a' <= c <= 'z' || '0' <= c <= '9' }

  predicate NotAlnum(c: char) { !IsAlnum(c) }

  predicate IsUnderscore(c: char) { c == '_' }

  /** Every character is one of `[a-z0-9_]`. */
  predicate SlugChars(s: string) {
    forall i :: 0 <= i < |s| ==> IsAlnum(s[i]) || s[i] == '_'
  }

  /** No two underscores in a row. */
  predicate NoDoubleUnderscore(s: string) {
    forall i :: 0 <= i < |s| - 1 ==> s[i] != '_' || s[i + 1] != '_'
  }

  /** The shape of every value `slugify` returns. */
  predicate IsSlug(s: string) {
    && SlugChars(s)
    && NoDoubleUnderscore(s)
    && (s != [] ==> s[0] != '_' && s[|s| - 1] != '_')
  }

  /** `re.sub(r"[^a-z0-9]+", "_", s)`: each maximal run of other characters becomes one `_`. */
  function SubRuns(s: string): (r: string)
    ensures SlugChars(r) && NoDoubleUnderscore(r)
    ensures s != [] && IsAlnum(s[0]) ==> r != [] && r[0] == s[0]
    decreases |s|
  {
    if s == [] then []
    else if IsAlnum(s[0]) then
      var t := SubRuns(s[1..]);
      assert forall i :: 1 <= i < |t| + 1 ==> ([s[0]] + t)[i] == t[i - 1];
      [s[0]] + t
    else
      var rest := TrimStart(s[1..], NotAlnum);
      var t := SubRuns(rest);
      assert forall i :: 1 <= i < |t| + 1 ==> ("_" + t)[i] == t[i - 1];
      "_" + t
  }

  /** `s.strip("_")`. */
  function TrimUnderscores(s: string): (r: string)
    ensures r == [] || (r[0] != '_' && r[|r| - 1] != '_')
  {
    TrimEnd(TrimStart(s, IsUnderscore), IsUnderscore)
  }

  /** A contiguous piece of a slug-shaped string keeps its characters and its spacing. */
  lemma SliceKeepsShape(s: string, a: nat, b: nat)
    requires a <= b <= |s|
    requires SlugChars(s) && NoDoubleUnderscore(s)
    ensures SlugChars(s[a..b]) && NoDoubleUnderscore(s[a..b])
  {
    assert forall i :: 0 <= i < b - a ==> s[a..b][i] == s[a + i];
  }

  /** `slugify(value)`. */
  function Slugify(s: string): (r: string)
    ensures IsSlug(r)
  {
    var x := SubRuns(Lower(Strip(s)));
    var y := TrimStart(x, IsUnderscore);
    var r := TrimEnd(y, IsUnderscore);
    SliceKeepsShape(x, |x| - |y|, |x|);
    SliceKeepsShape(y, 0, |r|);
    r
  }

  /** `re.sub` leaves a string of `[a-z0-9_]` without double underscores as it is. */
  lemma {:induction false} SubRunsFixpoint(s: string)
    requires SlugChars(s) && NoDoubleUnderscore(s)
    ensures SubRuns(s) == s
    decreases |s|
  {
    if s != [] {
      var tail := s[1..];
      SliceKeepsShape(s, 1, |s|);
      SubRunsFixpoint(tail);
      assert s == [s[0]] + tail;
      if !IsAlnum(s[0]) {
        assert tail == [] || IsAlnum(tail[0]) by {
          if tail != [] {
            assert tail[0] == s[1];
          }
        }
        TrimStartNothing(tail, NotAlnum);
        assert SubRuns(s) == "_" + SubRuns(tail);
      } else {
        assert SubRuns(s) == [s[0]] + SubRuns(tail);
      }
    }
  }

  /** A slug is a fixed point of `slugify`. */
  lemma SlugifyFixpoint(s: string)
    requires IsSlug(s)
    ensures Slugify(s) == s
  {
    assert forall i :: 0 <= i < |s| ==> !IsSpace(s[i]) && !IsUpper(s[i]);
    StripNothing(s);
    LowerNoUpper(s);
    SubRunsFixpoint(s);
    TrimStartNothing(s, IsUnderscore);
    TrimEndNothing(s, IsUnderscore);
  }

  /** `slugify(slugify(s)) == slugify(s)`. */
  lemma SlugifyIdempotent(s: string)
    ensures Slugify(Slugify(s)) == Slugify(s)
  {
    SlugifyFixpoint(Slugify(s));
  }

  /** The characters of `s` in `[a-z0-9]`, in order. */
  function Alnums(s: string): string
  {
    if s == [] then [] else (if IsAlnum(s[0]) then [s[0]] else []) + Alnums(s[1..])
  }

  lemma AlnumsCons(c: char, t: string)
    ensures Alnums([c] + t) == (if IsAlnum(c) then [c] else []) + Alnums(t)
  {
    assert ([c] + t)[0] == c && ([c] + t)[1..] == t;
  }

  lemma {:induction false} AlnumsAppend(a: string, b: string)
    ensures Alnums(a + b) == Alnums(a) + Alnums(b)
  {
    if a == [] {
      assert a + b == b;
    } else {
      assert a + b == [a[0]] + (a[1..] + b);
      AlnumsCons(a[0], a[1..] + b);
      AlnumsAppend(a[1..], b);
      AlnumsCons(a[0], a[1..]);
      assert [a[0]] + a[1..] == a;
    }
  }

  lemma {:induction false} AlnumsNone(s: string)
    requires forall i :: 0 <= i < |s| ==> !IsAlnum(s[i])
    ensures Alnums(s) == []
  {
    if s != [] {
      AlnumsNone(s[1..]);
    }
  }

  /** Removing a prefix and a suffix made only of characters outside `[a-z0-9]`
      keeps the letters and digits. */
  lemma AlnumsSlice(s: string, a: nat, b: nat)
    requires a <= b <= |s|
    requires forall i :: 0 <= i < a ==> !IsAlnum(s[i])
    requires forall i :: b <= i < |s| ==> !IsAlnum(s[i])
    ensures Alnums(s[a..b]) == Alnums(s)
  {
    var p, m, q := s[..a], s[a..b], s[b..];
    forall i | 0 <= i < |p| ensures !IsAlnum(p[i]) {
      assert p[i] == s[i];
    }
    forall i | 0 <= i < |q| ensures !IsAlnum(q[i]) {
      assert q[i] == s[b + i];
    }
    AlnumsNone(p);
    AlnumsNone(q);
    SplitThree(s, a, b);
    AlnumsAppend(p, m + q);
    AlnumsAppend(m, q);
  }

  lemma {:induction false} SubRunsKeepsAlnums(s: string)
    ensures Alnums(SubRuns(s)) == Alnums(s)
    decreases |s|
  {
    if s != [] {
      var tail := s[1..];
      assert s == [s[0]] + tail;
      AlnumsCons(s[0], tail);
      if IsAlnum(s[0]) {
        SubRunsKeepsAlnums(tail);
        AlnumsCons(s[0], SubRuns(tail));
      } else {
        var rest := TrimStart(tail, NotAlnum);
        var k := |tail| - |rest|;
        SubRunsKeepsAlnums(rest);
        assert SubRuns(s) == ['_'] + SubRuns(rest);
        AlnumsCons('_', SubRuns(rest));
        assert forall i :: 0 <= i < k ==> NotAlnum(tail[i]);
        AlnumsSlice(tail, k, |tail|);
        assert rest == tail[k..|tail|];
      }
    }
  }

  /** Whitespace is left alone by `lower()` and holds no letter or digit. */
  lemma SpacesCarryNoAlnums(s: string)
    requires forall i :: 0 <= i < |s| ==> IsSpace(s[i])
    ensures Lower(s) == s && Alnums(s) == []
  {
    LowerNoUpper(s);
    AlnumsNone(s);
  }

  lemma StripKeepsAlnums(s: string)
    ensures Alnums(Lower(Strip(s))) == Alnums(Lower(s))
  {
    var a, b := StripParts(s);
    var p, m, q := s[..a], s[a..b], s[b..];
    forall i | 0 <= i < |p| ensures IsSpace(p[i]) {
      assert p[i] == s[i];
    }
    forall i | 0 <= i < |q| ensures IsSpace(q[i]) {
      assert q[i] == s[b + i];
    }
    SpacesCarryNoAlnums(p);
    SpacesCarryNoAlnums(q);
    SplitThree(s, a, b);
    LowerAppend(p, m + q);
    LowerAppend(m, q);
    var lm := Lower(m);
    assert Lower(s) == p + (lm + q);
    AlnumsAppend(p, lm + q);
    AlnumsAppend(lm, q);
  }

  lemma TrimUnderscoresKeepsAlnums(x: string)
    ensures Alnums(TrimUnderscores(x)) == Alnums(x)
  {
    var y := TrimStart(x, IsUnderscore);
    var r := TrimEnd(y, IsUnderscore);
    var a := |x| - |y|;
    assert r == x[a..a + |r|];
    assert forall i :: a + |r| <= i < |x| ==> x[i] == y[i - a];
    AlnumsSlice(x, a, a + |r|);
  }

  /** The slug keeps exactly the ASCII letters and digits of the input, lower-cased and
      in their original order; everything else only shapes the underscores. */
  lemma SlugifyKeepsAlnums(s: string)
    ensures Alnums(Slugify(s)) == Alnums(Lower(s))
  {
    var x := SubRuns(Lower(Strip(s)));
    StripKeepsAlnums(s);
    SubRunsKeepsAlnums(Lower(Strip(s)));
    TrimUnderscoresKeepsAlnums(x);
    assert Slugify(s) == TrimUnderscores(x);
  }
}
