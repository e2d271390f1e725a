/** Small models of the Python `str` operations the enrichment script relies on,
    restricted to ASCII whitespace and ASCII case. */
module Text {

  /** `str.isspace` on ASCII: space, \t \n \v \f \r and the separators 0x1c-0x1f. */
  predicate IsSpace(c: char) {
    c == ' ' || ('\t' <= c <= '\r') || ('\U{1C}' <= c <= '\U{1F}')
  }

  predicate IsUpper(c: char) { 'A' <= c <= 'Z' }

  predicate IsLower(c: char) { 'a' <= c <= 'z' }

  function LowerChar(c: char): (d: char)
    ensures !IsUpper(d)
    ensures IsSpace(d) <==> IsSpace(c)
  {
    if IsUpper(c) then (c as int + 32) as char else c
  }

  function UpperChar(c: char): (d: char)
    ensures !IsLower(d)
    ensures IsSpace(d) <==> IsSpace(c)
  {
    if IsLower(c) then (c as int - 32) as char else c
  }

  /** `str.lower` on ASCII letters. */
  function Lower(s: string): (r: string)
    ensures |r| == |s|
  {
    if s == [] then [] else [LowerChar(s[0])] + Lower(s[1..])
  }

  /** `str.upper` on ASCII letters. */
  function Upper(s: string): (r: string)
    ensures |r| == |s|
  {
    if s == [] then [] else [UpperChar(s[0])] + Upper(s[1..])
  }

  /** `str.lower` works character by character. */
  lemma {:induction false} LowerAt(s: string, i: nat)
    requires i < |s|
    ensures Lower(s)[i] == LowerChar(s[i])
  {
    if i > 0 {
      LowerAt(s[1..], i - 1);
    }
  }

  /** `str.lower` of a piece is the same piece of `str.lower`. */
  lemma {:induction false} LowerAppend(a: string, b: string)
    ensures Lower(a + b) == Lower(a) + Lower(b)
  {
    if a != [] {
      assert (a + b)[1..] == a[1..] + b;
      LowerAppend(a[1..], b);
    } else {
      assert a + b == b;
    }
  }

  /** A string without upper-case letters is its own `str.lower`. */
  lemma {:induction false} LowerNoUpper(s: string)
    requires forall i :: 0 <= i < |s| ==> !IsUpper(s[i])
    ensures Lower(s) == s
  {
    if s != [] {
      LowerNoUpper(s[1..]);
      assert s == [s[0]] + s[1..];
    }
  }

  /** The length of the longest prefix whose characters all satisfy `drop`. */
  function SkipCount(s: string, drop: char -> bool): (n: nat)
    ensures n <= |s|
    ensures forall i :: 0 <= i < n ==> drop(s[i])
    ensures n == |s| || !drop(s[n])
  {
    if s == [] || !drop(s[0]) then 0 else 1 + SkipCount(s[1..], drop)
  }

  /** Drops the longest prefix whose characters all satisfy `drop`. */
  function TrimStart(s: string, drop: char -> bool): (r: string)
  {
    s[SkipCount(s, drop)..]
  }

  /** The length of what is left once the longest suffix whose characters all satisfy
      `drop` is cut off. */
  function KeepCount(s: string, drop: char -> bool): (n: nat)
    ensures n <= |s|
    ensures forall i :: n <= i < |s| ==> drop(s[i])
    ensures n == 0 || !drop(s[n - 1])
  {
    if s == [] || !drop(s[|s| - 1]) then |s| else KeepCount(s[..|s| - 1], drop)
  }

  /** Drops the longest suffix whose characters all satisfy `drop`. */
  function TrimEnd(s: string, drop: char -> bool): (r: string)
  {
    s[..KeepCount(s, drop)]
  }

  lemma {:induction false} TrimStartNothing(s: string, drop: char -> bool)
    requires s == [] || !drop(s[0])
    ensures TrimStart(s, drop) == s
  {
  }

  lemma {:induction false} TrimEndNothing(s: string, drop: char -> bool)
    requires s == [] || !drop(s[|s| - 1])
    ensures TrimEnd(s, drop) == s
  {
  }

  /** `s.strip()` (no argument): both ends, whitespace only. */
  function Strip(s: string): (r: string)
    ensures r == [] || (!IsSpace(r[0]) && !IsSpace(r[|r| - 1]))
  {
    TrimEnd(TrimStart(s, IsSpace), IsSpace)
  }

  /** `s.strip()` is the middle of `s` once a whitespace prefix and a whitespace suffix
      are cut off. */
  lemma StripParts(s: string) returns (a: nat, b: nat)
    ensures a <= b <= |s| && Strip(s) == s[a..b]
    ensures forall i :: 0 <= i < a ==> IsSpace(s[i])
    ensures forall i :: b <= i < |s| ==> IsSpace(s[i])
  {
    var t := TrimStart(s, IsSpace);
    var u := TrimEnd(t, IsSpace);
    a, b := |s| - |t|, |s| - |t| + |u|;
    assert u == s[a..b];
    forall i | b <= i < |s| ensures IsSpace(s[i]) {
      assert s[i] == t[i - a];
    }
  }

  /** A string that neither starts nor ends with whitespace is its own `strip()`. */
  lemma StripNothing(s: string)
    requires s == [] || (!IsSpace(s[0]) && !IsSpace(s[|s| - 1]))
    ensures Strip(s) == s
  {
    TrimStartNothing(s, IsSpace);
    TrimEndNothing(s, IsSpace);
  }

  /** `s.replace(pat, rep)`: non-overlapping occurrences, scanned left to right. */
  function Replace(s: string, pat: string, rep: string): string
    requires pat != []
    decreases |s|
  {
    if |s| < |pat| then s
    else if s[..|pat|] == pat then rep + Replace(s[|pat|..], pat, rep)
    else [s[0]] + Replace(s[1..], pat, rep)
  }

  /** A replacement only rewrites where the pattern occurs: a string in which the
      pattern's first character never appears is left as it is. */
  lemma {:induction false} ReplaceAbsent(s: string, pat: string, rep: string)
    requires pat != []
    requires forall i :: 0 <= i < |s| ==> s[i] != pat[0]
    ensures Replace(s, pat, rep) == s
    decreases |s|
  {
    if |s| >= |pat| {
      assert s[..|pat|][0] == s[0];
      ReplaceAbsent(s[1..], pat, rep);
    }
  }

  /** The longest prefix of `s` free of whitespace. */
  function Word(s: string): (w: string)
    ensures |w| <= |s| && w == s[..|w|]
    ensures forall i :: 0 <= i < |w| ==> !IsSpace(w[i])
    ensures |w| == |s| || IsSpace(s[|w|])
  {
    if s == [] || IsSpace(s[0]) then [] else [s[0]] + Word(s[1..])
  }

  /** A non-empty run of non-whitespace characters. */
  predicate IsWord(w: string) {
    w != [] && forall i :: 0 <= i < |w| ==> !IsSpace(w[i])
  }

  /** `s.split()` (no argument): the maximal runs of non-whitespace characters. */
  function Words(s: string): (ws: seq<string>)
    ensures forall i :: 0 <= i < |ws| ==> IsWord(ws[i])
    decreases |s|
  {
    if s == [] then []
    else if IsSpace(s[0]) then Words(s[1..])
    else
      var w := Word(s);
      assert w != [];
      var ws := Words(s[|w|..]);
      assert forall i :: 1 <= i < |ws| + 1 ==> ([w] + ws)[i] == ws[i - 1];
      [w] + ws
  }

  /** `" ".join(ws)`. */
  function JoinSpaced(ws: seq<string>): string
  {
    if ws == [] then [] else if |ws| == 1 then ws[0] else ws[0] + " " + JoinSpaced(ws[1..])
  }

  /** A string whose first character is whitespace splits as its tail does. */
  lemma WordsSpaceCons(c: char, s: string)
    requires IsSpace(c)
    ensures Words([c] + s) == Words(s)
  {
    assert ([c] + s)[1..] == s;
  }

  /** A whitespace character ends the first word. */
  lemma {:induction false} WordBeforeSpace(a: string, c: char, b: string)
    requires IsSpace(c)
    ensures Word(a + [c] + b) == Word(a)
    decreases |a|
  {
    if a != [] && !IsSpace(a[0]) {
      assert (a + [c] + b)[0] == a[0];
      assert (a + [c] + b)[1..] == a[1..] + [c] + b;
      WordBeforeSpace(a[1..], c, b);
    }
  }

  /** `split()` of a string of whitespace only is empty. */
  lemma {:induction false} WordsAllSpace(s: string)
    requires forall i :: 0 <= i < |s| ==> IsSpace(s[i])
    ensures Words(s) == []
  {
    if s != [] {
      WordsAllSpace(s[1..]);
    }
  }

  lemma {:induction false} WordAll(w: string)
    requires forall i :: 0 <= i < |w| ==> !IsSpace(w[i])
    ensures Word(w) == w
  {
    if w != [] {
      WordAll(w[1..]);
      assert w == [w[0]] + w[1..];
    }
  }

  /** A single word splits into itself. */
  lemma WordsOfWord(w: string)
    requires IsWord(w)
    ensures Words(w) == [w]
  {
    WordAll(w);
    assert w[|w|..] == [];
  }

  /** `split()` cuts at every whitespace character: the words on either side of one are
      the words of the whole. */
  lemma {:induction false} WordsSplit(a: string, c: char, b: string)
    requires IsSpace(c)
    ensures Words(a + [c] + b) == Words(a) + Words(b)
    decreases |a|
  {
    if a == [] {
      assert a + [c] + b == [c] + b;
      WordsSpaceCons(c, b);
      assert Words(a) == [];
    } else if IsSpace(a[0]) {
      assert a + [c] + b == [a[0]] + (a[1..] + [c] + b);
      assert a == [a[0]] + a[1..];
      WordsSpaceCons(a[0], a[1..] + [c] + b);
      WordsSpaceCons(a[0], a[1..]);
      WordsSplit(a[1..], c, b);
    } else {
      var w := Word(a);
      assert |w| > 0;
      WordsSplit(a[|w|..], c, b);
      WordsSplitAfterWord(a, c, b);
    }
  }

  /** The step of `WordsSplit` for a string that starts with a word, given the split of
      what follows that word. */
  lemma WordsSplitAfterWord(a: string, c: char, b: string)
    requires IsSpace(c) && a != [] && !IsSpace(a[0])
    requires Words(a[|Word(a)|..] + [c] + b) == Words(a[|Word(a)|..]) + Words(b)
    ensures Words(a + [c] + b) == Words(a) + Words(b)
  {
    var s, w := a + [c] + b, Word(a);
    var ra := a[|w|..];
    WordBeforeSpace(a, c, b);
    DropPrefixOfFirst(a, c, b, |w|);
    WordsNonSpace(s);
    WordsNonSpace(a);
    var x, y := Words(ra), Words(b);
    assert [w] + (x + y) == ([w] + x) + y;
  }

  lemma DropPrefixOfFirst(a: string, c: char, b: string, k: nat)
    requires k <= |a|
    ensures (a + [c] + b)[0] == if a == [] then c else a[0]
    ensures (a + [c] + b)[k..] == a[k..] + [c] + b
  {
  }

  /** A string that starts with a non-whitespace character splits into its first word
      and the split of what follows it. */
  lemma WordsNonSpace(s: string)
    requires s != [] && !IsSpace(s[0])
    ensures Words(s) == [Word(s)] + Words(s[|Word(s)|..])
  {
  }

  lemma {:induction false} WordsSpacePrefix(p: string, s: string)
    requires forall i :: 0 <= i < |p| ==> IsSpace(p[i])
    ensures Words(p + s) == Words(s)
  {
    if p == [] {
      assert p + s == s;
    } else {
      assert p + s == [p[0]] + (p[1..] + s);
      WordsSpaceCons(p[0], p[1..] + s);
      WordsSpacePrefix(p[1..], s);
    }
  }

  lemma WordsSpaceSuffix(s: string, q: string)
    requires forall i :: 0 <= i < |q| ==> IsSpace(q[i])
    ensures Words(s + q) == Words(s)
  {
    if q == [] {
      assert s + q == s;
    } else {
      assert s + q == s + [q[0]] + q[1..];
      WordsSplit(s, q[0], q[1..]);
      WordsAllSpace(q[1..]);
    }
  }

  /** `strip()` does not change the words of a string. */
  lemma WordsStrip(s: string)
    ensures Words(Strip(s)) == Words(s)
  {
    var a, b := StripParts(s);
    WordsSpacePrefix(s[..a], s[a..b]);
    WordsSpaceSuffix(s[..b], s[b..]);
    assert s[..a] + s[a..b] == s[..b];
    assert s[..b] + s[b..] == s;
  }

  /** Whitespace-collapsed: no whitespace at either end, and every whitespace character
      inside is a single `' '` between two non-whitespace characters. */
  predicate Collapsed(s: string) {
    forall i :: 0 <= i < |s| && IsSpace(s[i]) ==>
      0 < i < |s| - 1 && s[i] == ' ' && !IsSpace(s[i - 1]) && !IsSpace(s[i + 1])
  }

  /** Words joined by single spaces give a collapsed string. */
  lemma {:induction false} JoinSpacedCollapsed(ws: seq<string>)
    requires forall i :: 0 <= i < |ws| ==> IsWord(ws[i])
    ensures Collapsed(JoinSpaced(ws))
    ensures ws != [] ==> JoinSpaced(ws) != []
    decreases |ws|
  {
    if |ws| > 1 {
      var r := JoinSpaced(ws[1..]);
      assert forall i :: 0 <= i < |ws| - 1 ==> ws[1..][i] == ws[i + 1];
      JoinSpacedCollapsed(ws[1..]);
      var s := ws[0] + " " + r;
      var k := |ws[0]|;
      assert r != [] && !IsSpace(r[0]);
      forall i | 0 <= i < |s| && IsSpace(s[i])
        ensures 0 < i < |s| - 1 && s[i] == ' ' && !IsSpace(s[i - 1]) && !IsSpace(s[i + 1])
      {
        if i < k {
          assert false;
        } else if i == k {
          assert s[i - 1] == ws[0][k - 1];
          assert s[i + 1] == r[0];
        } else {
          var j := i - k - 1;
          assert s[i] == r[j];
          assert s[i - 1] == if j == 0 then ' ' else r[j - 1];
          assert s[i + 1] == r[j + 1];
        }
      }
    }
  }

  /** Joining words with single spaces and splitting again gives the same words. */
  lemma {:induction false} WordsJoinSpaced(ws: seq<string>)
    requires forall i :: 0 <= i < |ws| ==> IsWord(ws[i])
    ensures Words(JoinSpaced(ws)) == ws
    decreases |ws|
  {
    if ws == [] {
      assert Words([]) == [];
    } else if |ws| == 1 {
      WordsOfWord(ws[0]);
    } else {
      var w, rest := ws[0], ws[1..];
      var r := JoinSpaced(rest);
      assert forall i :: 0 <= i < |rest| ==> rest[i] == ws[i + 1];
      assert JoinSpaced(ws) == w + [' '] + r;
      calc {
        Words(JoinSpaced(ws));
        { WordsSplit(w, ' ', r); }
        Words(w) + Words(r);
        { WordsOfWord(w); WordsJoinSpaced(rest); }
        [w] + rest;
      }
    }
  }

  /** Python's `<=` on `str`: code points compared left to right, a proper prefix first. */
  predicate StrLe(a: string, b: string)
  {
    a == [] || (b != [] && (a[0] < b[0] || (a[0] == b[0] && StrLe(a[1..], b[1..]))))
  }

  lemma {:induction false} StrLeTotal(a: string, b: string)
    ensures StrLe(a, b) || StrLe(b, a)
  {
    if a != [] && b != [] && a[0] == b[0] {
      StrLeTotal(a[1..], b[1..]);
    }
  }

  lemma {:induction false} StrLeTransitive(a: string, b: string, c: string)
    requires StrLe(a, b) && StrLe(b, c)
    ensures StrLe(a, c)
  {
    if a != [] && a[0] == b[0] && b[0] == c[0] {
      StrLeTransitive(a[1..], b[1..], c[1..]);
    }
  }

  lemma {:induction false} StrLeAntisymmetric(a: string, b: string)
    requires StrLe(a, b) && StrLe(b, a)
    ensures a == b
  {
    if a != [] {
      StrLeAntisymmetric(a[1..], b[1..]);
      assert a == [a[0]] + a[1..] && b == [b[0]] + b[1..];
    }
  }
}
