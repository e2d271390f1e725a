/** The RACI token normaliser, `normalize_raci_tokens` (scripts/enrich_raci.py:81-96): each
    token of an assignment cell is trimmed, skipped when blank, has the stand-in for `C`
    replaced, is upper-cased, and contributes the letters `R`, `A`, `C`, `I` it contains,
    in order. */
module Tokens {
  import opened Text
  import opened Seqs

  /** The stand-in for `C` that the normaliser rewrites, exactly as the file spells it:
      the two characters U+0E30 U+0E01. */
  const Confusable: string := "\U{0E30}\U{0E01}"

  /** Membership in `VALID_RACI`. */
  predicate IsRaci(c: char) {
    c == 'R' || c == 'A' || c == 'C' || c == 'I'
  }

  predicate AllRaci(s: string) {
    forall i :: 0 <= i < |s| ==> IsRaci(s[i])
  }

  /** An assignment cell as the YAML gives it: a list of tokens, or a single string, which
      the loop at line 83 walks character by character. */
  datatype Cell = Text(text: string) | Items(items: seq<string>)

  /** The tokens the loop at line 83 visits. */
  function CellTokens(c: Cell): (ts: seq<string>)
    ensures c.Items? ==> ts == c.items
    ensures c.Text? ==> |ts| == |c.text| && forall i :: 0 <= i < |ts| ==> ts[i] == [c.text[i]]
  {
    match c
    case Items(items) => items
    case Text(s) => Chars(s)
  }

  /** The one-character strings of `s`, in order. */
  function Chars(s: string): (ts: seq<string>)
    ensures |ts| == |s| && forall i :: 0 <= i < |ts| ==> ts[i] == [s[i]]
  {
    if s == [] then [] else [[s[0]]] + Chars(s[1..])
  }

  /** `re.findall(r"[RACI]", s)`. */
  function KeepRaci(s: string): (r: string)
    ensures AllRaci(r)
    ensures |r| <= |s|
  {
    if s == [] then [] else (if IsRaci(s[0]) then [s[0]] else []) + KeepRaci(s[1..])
  }

  /** The letters a single token contributes (lines 84-94). The `VALID_RACI` test at
      line 92 never fails, because the pattern only matches those four letters. */
  function TokenLetters(t: string): (r: string)
    ensures AllRaci(r)
    ensures Strip(t) == [] ==> r == []
  {
    var u := Strip(t);
    if u == [] then [] else KeepRaci(Upper(Replace(u, Confusable, "C")))
  }

  /** `normalize_raci_tokens(tokens)`. */
  function NormalizeTokens(ts: seq<string>): (r: string)
    ensures AllRaci(r)
  {
    if ts == [] then [] else TokenLetters(ts[0]) + NormalizeTokens(ts[1..])
  }

  /** The letters of a whole cell. */
  function CellLetters(c: Cell): (r: string)
    ensures AllRaci(r)
  {
    NormalizeTokens(CellTokens(c))
  }

  /** Reference reading of a character: it counts as a RACI letter exactly when its upper
      case is one of `R`, `A`, `C`, `I`, and then counts as that upper-case letter. */
  function CharLetter(c: char): string {
    if IsRaci(UpperChar(c)) then [UpperChar(c)] else []
  }

  /** The reference reading applied to every character of `s`, in order. */
  function RaciOf(s: string): string {
    if s == [] then [] else CharLetter(s[0]) + RaciOf(s[1..])
  }

  lemma {:induction false} NormalizeTokensCons(t: string, ts: seq<string>)
    ensures NormalizeTokens([t] + ts) == TokenLetters(t) + NormalizeTokens(ts)
  {
    ConsParts(t, ts);
  }

  /** The letters of consecutive runs of tokens come out one run after the other: the
      output keeps the left-to-right order across tokens. */
  lemma {:induction false} NormalizeTokensAppend(a: seq<string>, b: seq<string>)
    ensures NormalizeTokens(a + b) == NormalizeTokens(a) + NormalizeTokens(b)
  {
    if a == [] {
      assert a + b == b;
    } else {
      var t := a[1..];
      HeadTail(a);
      ConcatAssoc([a[0]], t, b);
      NormalizeTokensCons(a[0], t + b);
      NormalizeTokensAppend(t, b);
      NormalizeTokensCons(a[0], t);
      ConcatAssoc(TokenLetters(a[0]), NormalizeTokens(t), NormalizeTokens(b));
    }
  }

  /** A token that is blank after trimming can be removed without changing the result. */
  lemma BlankTokenIgnored(ts: seq<string>, i: nat)
    requires i < |ts| && Strip(ts[i]) == []
    ensures NormalizeTokens(ts) == NormalizeTokens(ts[..i] + ts[i + 1..])
  {
    var p, q := ts[..i], ts[i + 1..];
    SplitAt(ts, i);
    NormalizeTokensAppend(p, [ts[i]] + q);
    NormalizeTokensCons(ts[i], q);
    assert TokenLetters(ts[i]) + NormalizeTokens(q) == NormalizeTokens(q);
    NormalizeTokensAppend(p, q);
  }

  lemma RaciOfCons(c: char, s: string)
    ensures RaciOf([c] + s) == CharLetter(c) + RaciOf(s)
  {
    assert ([c] + s)[0] == c && ([c] + s)[1..] == s;
  }

  lemma {:induction false} RaciOfAppend(a: string, b: string)
    ensures RaciOf(a + b) == RaciOf(a) + RaciOf(b)
  {
    if a == [] {
      assert a + b == b;
    } else {
      assert a + b == [a[0]] + (a[1..] + b);
      RaciOfCons(a[0], a[1..] + b);
      RaciOfAppend(a[1..], b);
      RaciOfCons(a[0], a[1..]);
      assert [a[0]] + a[1..] == a;
      assert CharLetter(a[0]) + (RaciOf(a[1..]) + RaciOf(b))
          == (CharLetter(a[0]) + RaciOf(a[1..])) + RaciOf(b);
    }
  }

  lemma {:induction false} RaciOfSpaces(s: string)
    requires forall i :: 0 <= i < |s| ==> IsSpace(s[i])
    ensures RaciOf(s) == []
  {
    if s != [] {
      RaciOfSpaces(s[1..]);
    }
  }

  /** Upper-casing and then keeping the RACI letters is the per-character reference. */
  lemma {:induction false} KeepRaciUpper(s: string)
    ensures KeepRaci(Upper(s)) == RaciOf(s)
  {
    if s != [] {
      KeepRaciUpper(s[1..]);
      assert Upper(s)[1..] == Upper(s[1..]);
    }
  }

  /** Trimming whitespace never removes a letter: `RaciOf` ignores the trimmed ends. */
  lemma StripKeepsRaci(t: string)
    ensures RaciOf(Strip(t)) == RaciOf(t)
  {
    var a, b := StripParts(t);
    var p, m, q := t[..a], t[a..b], t[b..];
    SplitThree(t, a, b);
    RaciOfSpaces(p);
    RaciOfSpaces(q);
    RaciOfAppend(p, m + q);
    RaciOfAppend(m, q);
  }

  /** A token without the stand-in's first character contributes exactly the characters
      whose upper case is `R`, `A`, `C` or `I`, upper-cased and in order: lower-case
      letters are accepted and every other character is dropped. */
  lemma TokenLettersPlain(t: string)
    requires forall i :: 0 <= i < |t| ==> t[i] != Confusable[0]
    ensures TokenLetters(t) == RaciOf(t)
  {
    var u := Strip(t);
    StripKeepsRaci(t);
    StripKeepsPlain(t);
    if u == [] {
      assert RaciOf(u) == [];
    } else {
      PlainLetters(u);
      assert TokenLetters(t) == KeepRaci(Upper(Replace(u, Confusable, "C")));
    }
  }

  lemma StripKeepsPlain(t: string)
    requires forall i :: 0 <= i < |t| ==> t[i] != Confusable[0]
    ensures forall i :: 0 <= i < |Strip(t)| ==> Strip(t)[i] != Confusable[0]
  {
    var a, b := StripParts(t);
    var u := t[a..b];
    forall i | 0 <= i < |u| ensures u[i] != Confusable[0] {
      assert u[i] == t[a + i];
    }
  }

  lemma PlainLetters(u: string)
    requires forall i :: 0 <= i < |u| ==> u[i] != Confusable[0]
    ensures KeepRaci(Upper(Replace(u, Confusable, "C"))) == RaciOf(u)
  {
    ReplaceAbsent(u, Confusable, "C");
    KeepRaciUpper(u);
  }

  /** The stand-in on its own is read as the letter `C`. */
  lemma ConfusableIsC()
    ensures TokenLetters(Confusable) == "C"
  {
    StripNothing(Confusable);
    assert Confusable[..|Confusable|] == Confusable;
    assert Replace(Confusable[|Confusable|..], Confusable, "C") == [];
    assert Replace(Confusable, Confusable, "C") == "C";
    assert Upper("C") == "C";
    assert KeepRaci("C") == "C" + KeepRaci([]);
  }

  /** The letters a one-character token contributes. */
  lemma CharTokenLetters(c: char)
    ensures TokenLetters([c]) == CharLetter(c)
  {
    if IsSpace(c) {
      assert !IsRaci(UpperChar(c));
    } else {
      assert Strip([c]) == [c];
      assert Replace([c], Confusable, "C") == [c];
      assert Upper([c]) == [UpperChar(c)];
      assert KeepRaci([UpperChar(c)]) == CharLetter(c) + KeepRaci([]);
    }
  }

  /** A cell written as one string is read character by character, so its letters are
      the reference reading of the whole string (the stand-in, being two characters,
      is never recognised there). */
  lemma {:induction false} TextCellLetters(s: string)
    ensures CellLetters(Text(s)) == RaciOf(s)
  {
    if s != [] {
      TextCellLetters(s[1..]);
      assert CellTokens(Text(s)) == [[s[0]]] + CellTokens(Text(s[1..]));
      NormalizeTokensCons([s[0]], CellTokens(Text(s[1..])));
      CharTokenLetters(s[0]);
    }
  }

  /** A plain string cell and the same string as a one-item list give the same letters. */
  lemma TextMatchesSingleItem(s: string)
    requires forall i :: 0 <= i < |s| ==> s[i] != Confusable[0]
    ensures CellLetters(Text(s)) == CellLetters(Items([s]))
  {
    TextCellLetters(s);
    TokenLettersPlain(s);
    NormalizeTokensCons(s, []);
    assert [s] + [] == [s];
  }
}
