/**
 * The plural/gender operator of templates, %{count, sex -> forms}: a scanner
 * that stands in for the global regular expression
 *   %{(\w+)?(?:\s*,\s*(\w+))?\s*->\s*([^}]*)}
 * and the selection of one variant of the forms text.
 *
 * The regular expression never needs to backtrack into a different match: a
 * shorter \w+ or \s* leaves a word or space character where ",", "-" or a word
 * must follow, and [^}]* stops at the first "}". So at each position there is at
 * most one match, found by the deterministic steps of MatchAt.
 */
module Operator {
  import opened Wrappers
  import opened Text
  import opened Plural

  /**
   * One operator occurrence: where it starts, its whole text (the regex match),
   * the optional count and sex parameter names and the forms text.
   */
  datatype Token = Token(start: nat, text: string, count: Option<string>, sex: Option<string>, forms: string)

  function End(t: Token): nat {
    t.start + |t.text|
  }

  /** A non-empty run of word characters: what (\w+) captures. */
  predicate IsWord(w: string) {
    |w| >= 1 && forall i :: 0 <= i < |w| ==> IsWordChar(w[i])
  }

  /** The end of the run of \s characters starting at i. */
  function SkipSpaces(s: string, i: nat): (j: nat)
    requires i <= |s|
    ensures i <= j <= |s|
    decreases |s| - i
  {
    if i < |s| && IsSpace(s[i]) then SkipSpaces(s, i + 1) else i
  }

  /** SkipSpaces passes only white space and stops before the first character that is not: \s* is greedy. */
  lemma {:induction false} SkipSpacesStops(s: string, i: nat)
    requires i <= |s|
    ensures forall k :: i <= k < SkipSpaces(s, i) ==> IsSpace(s[k])
    ensures SkipSpaces(s, i) == |s| || !IsSpace(s[SkipSpaces(s, i)])
    decreases |s| - i
  {
    if i < |s| && IsSpace(s[i]) {
      SkipSpacesStops(s, i + 1);
    }
  }

  /** The end of the run of \w characters starting at i. */
  function SkipWord(s: string, i: nat): (j: nat)
    requires i <= |s|
    ensures i <= j <= |s|
    decreases |s| - i
  {
    if i < |s| && IsWordChar(s[i]) then SkipWord(s, i + 1) else i
  }

  /** SkipWord passes only word characters and stops before the first that is not: \w+ is greedy. */
  lemma {:induction false} SkipWordStops(s: string, i: nat)
    requires i <= |s|
    ensures forall k :: i <= k < SkipWord(s, i) ==> IsWordChar(s[k])
    ensures SkipWord(s, i) == |s| || !IsWordChar(s[SkipWord(s, i)])
    decreases |s| - i
  {
    if i < |s| && IsWordChar(s[i]) {
      SkipWordStops(s, i + 1);
    }
  }

  /** The first "}" at or after i, or -1. */
  function CloseBrace(s: string, i: nat): (e: int)
    requires i <= |s|
    ensures e == -1 || (i <= e < |s| && s[e] == '}')
    ensures forall k :: i <= k < (if e == -1 then |s| else e) ==> s[k] != '}'
    decreases |s| - i
  {
    if i == |s| then -1 else if s[i] == '}' then i else CloseBrace(s, i + 1)
  }

  /** What follows "%{": the optional count name, the optional sex name, and where "->" must stand. */
  datatype Head = Head(count: Option<string>, sex: Option<string>, arrow: nat)

  /**
   * (\w+)?(?:\s*,\s*(\w+))?\s* from position i. After a "," the sex name is
   * mandatory: without it neither the group nor the "->" can follow, so no match.
   */
  function ParseNames(s: string, i: nat): (h: Option<Head>)
    requires i <= |s|
    ensures h.Some? ==> i <= h.value.arrow <= |s|
    ensures h.Some? && h.value.count.Some? ==> IsWord(h.value.count.value)
    ensures h.Some? && h.value.sex.Some? ==> IsWord(h.value.sex.value)
  {
    var w := SkipWord(s, i);
    SkipWordStops(s, i);
    var count := if w == i then None else Some(s[i..w]);
    var j := SkipSpaces(s, w);
    if j < |s| && s[j] == ',' then
      var k := SkipSpaces(s, j + 1);
      var e := SkipWord(s, k);
      SkipWordStops(s, k);
      if e == k then None else Some(Head(count, Some(s[k..e]), SkipSpaces(s, e)))
    else Some(Head(count, None, j))
  }

  /** The operator that the regular expression matches at position p, if any. */
  function MatchAt(s: string, p: nat): (r: Option<Token>)
    ensures r.Some? ==> r.value.start == p && End(r.value) <= |s| && s[p..End(r.value)] == r.value.text
    ensures r.Some? ==> |r.value.text| >= 5 && r.value.text[0] == '%' && r.value.text[1] == '{'
                        && r.value.text[|r.value.text| - 1] == '}'
    ensures r.Some? ==> '}' !in r.value.forms && (r.value.forms == [] || !IsSpace(r.value.forms[0]))
    ensures r.Some? && r.value.count.Some? ==> IsWord(r.value.count.value)
    ensures r.Some? && r.value.sex.Some? ==> IsWord(r.value.sex.value)
  {
    if p + 2 <= |s| && s[p] == '%' && s[p + 1] == '{' then
      match ParseNames(s, p + 2)
      case None => None
      case Some(h) => MatchArrow(s, p, h)
    else None
  }

  /** The rest of the match once "%{" and the names are read: "->", \s*, the forms and "}". */
  function MatchArrow(s: string, p: nat, h: Head): (r: Option<Token>)
    requires p + 2 <= h.arrow <= |s| && s[p] == '%' && s[p + 1] == '{'
    ensures r.Some? ==> r.value.start == p && End(r.value) <= |s| && s[p..End(r.value)] == r.value.text
    ensures r.Some? ==> |r.value.text| >= 5 && r.value.text[0] == '%' && r.value.text[1] == '{'
                        && r.value.text[|r.value.text| - 1] == '}'
    ensures r.Some? ==> '}' !in r.value.forms && (r.value.forms == [] || !IsSpace(r.value.forms[0]))
    ensures r.Some? ==> r.value.count == h.count && r.value.sex == h.sex
  {
    var m := h.arrow;
    if m + 2 <= |s| && s[m] == '-' && s[m + 1] == '>' then
      var t := SkipSpaces(s, m + 2);
      SkipSpacesStops(s, m + 2);
      var close := CloseBrace(s, t);
      if close < 0 then None
      else
        OperatorShape(s, p, t, close, h);
        Operator(s, p, t, close, h)
    else None
  }

  /** The match from p to the brace at close, whose forms text starts at t. */
  function Operator(s: string, p: nat, t: nat, close: nat, h: Head): (r: Option<Token>)
    requires p + 4 <= t <= close < |s| && s[p] == '%' && s[p + 1] == '{' && s[close] == '}'
    requires forall k :: t <= k < close ==> s[k] != '}'
    requires t == close || !IsSpace(s[t])
    ensures r.Some? && r.value.start == p && End(r.value) == close + 1
    ensures r.value.text == s[p..close + 1] && r.value.forms == s[t..close]
    ensures r.value.count == h.count && r.value.sex == h.sex
    ensures '}' !in r.value.forms
  {
    var forms := s[t..close];
    assert forall k :: 0 <= k < |forms| ==> forms[k] == s[t + k];
    Some(Token(p, s[p..close + 1], h.count, h.sex, forms))
  }

  /** The shape of an operator's match: "%{" at the front, "}" at the end, forms not led by \s. */
  lemma OperatorShape(s: string, p: nat, t: nat, close: nat, h: Head)
    requires p + 4 <= t <= close < |s| && s[p] == '%' && s[p + 1] == '{' && s[close] == '}'
    requires forall k :: t <= k < close ==> s[k] != '}'
    requires t == close || !IsSpace(s[t])
    ensures var tok := Operator(s, p, t, close, h).value;
            && |tok.text| >= 5 && tok.text[0] == '%' && tok.text[1] == '{' && tok.text[|tok.text| - 1] == '}'
            && (tok.forms == [] || !IsSpace(tok.forms[0]))
  {
  }

  /** A run of \s characters, possibly empty: what \s* matches. */
  predicate IsBlank(w: string) {
    forall i :: 0 <= i < |w| ==> IsSpace(w[i])
  }

  /** The white space an operator holds around its comma and around its arrow. */
  datatype Blanks = Blanks(beforeComma: string, afterComma: string, beforeArrow: string, afterArrow: string)

  predicate BlanksValid(b: Blanks) {
    IsBlank(b.beforeComma) && IsBlank(b.afterComma) && IsBlank(b.beforeArrow) && IsBlank(b.afterArrow)
  }

  /** An optional name as it is written: the name, or nothing. */
  function NameText(name: Option<string>): string {
    match name
    case None => ""
    case Some(n) => n
  }

  /** The optional sex group as it is written: white space, ",", white space and the name, or nothing. */
  function SexText(sex: Option<string>, b: Blanks): string {
    match sex
    case None => ""
    case Some(n) => b.beforeComma + "," + b.afterComma + n
  }

  /** The operator %{count, sex -> forms} written out with the white space of b. */
  function OperatorText(count: Option<string>, sex: Option<string>, b: Blanks, forms: string): string {
    "%{" + NameText(count) + SexText(sex, b) + b.beforeArrow + "->" + b.afterArrow + forms + "}"
  }

  /**
   * The regular expression's grammar, stated directly: tok is the match at p when
   * its text stands at p and is %{count, sex -> forms} written with some white
   * space, its names are words and its forms hold no "}". Where white space
   * follows "->", the greedy \s* takes all of it, so the forms do not start with it.
   */
  ghost predicate OperatorAt(s: string, p: nat, tok: Token) {
    && tok.start == p
    && OccursAt(s, tok.text, p)
    && (tok.count.Some? ==> IsWord(tok.count.value))
    && (tok.sex.Some? ==> IsWord(tok.sex.value))
    && '}' !in tok.forms && (tok.forms == [] || !IsSpace(tok.forms[0]))
    && exists b :: BlanksValid(b) && tok.text == OperatorText(tok.count, tok.sex, b, tok.forms)
  }

  /** SkipWord stops right after a word standing at i when no word character follows it. */
  lemma SkipWordAcross(s: string, i: nat, w: string)
    requires OccursAt(s, w, i) && forall k :: 0 <= k < |w| ==> IsWordChar(w[k])
    requires i + |w| < |s| && !IsWordChar(s[i + |w|])
    ensures SkipWord(s, i) == i + |w|
  {
    SkipWordStops(s, i);
  }

  /** SkipSpaces stops right after white space standing at i when no white space follows it. */
  lemma SkipSpacesAcross(s: string, i: nat, w: string)
    requires OccursAt(s, w, i) && IsBlank(w)
    requires i + |w| < |s| && !IsSpace(s[i + |w|])
    ensures SkipSpaces(s, i) == i + |w|
  {
    SkipSpacesStops(s, i);
  }

  /** CloseBrace finds the "}" that follows brace-free text standing at i. */
  lemma CloseBraceAcross(s: string, i: nat, f: string)
    requires OccursAt(s, f + "}", i) && '}' !in f
    ensures CloseBrace(s, i) == i + |f|
  {
    OccursSplit(s, f, "}", i);
    var e := CloseBrace(s, i);
    assert s[i + |f|] == "}"[0];
  }

  /** Where the parts of a sex group written out at w stand. */
  lemma SexGroupParts(s: string, w: nat, before: string, after: string, name: string)
    requires IsBlank(before) && OccursAt(s, before + "," + after + name, w)
    ensures OccursAt(s, before, w) && s[w + |before|] == ','
    ensures OccursAt(s, after, w + |before| + 1) && OccursAt(s, name, w + |before| + 1 + |after|)
    ensures !IsWordChar(s[w])
  {
    OccursSplit(s, before + "," + after, name, w);
    OccursSplit(s, before + ",", after, w);
    OccursSplit(s, before, ",", w);
    assert s[w + |before|] == ","[0];
    assert !IsWordChar(s[w]) by {
      if |before| > 0 {
        assert s[w] == before[0];
      }
    }
  }

  /** The skips over a sex group, from the positions of its parts. */
  lemma SexGroupSkips(s: string, w: nat, before: string, after: string, name: string)
    requires OccursAt(s, before, w) && IsBlank(before) && w + |before| < |s| && s[w + |before|] == ','
    requires OccursAt(s, after, w + |before| + 1) && IsBlank(after)
    requires OccursAt(s, name, w + |before| + 1 + |after|) && IsWord(name)
    requires w + |before| + 1 + |after| + |name| < |s| && !IsWordChar(s[w + |before| + 1 + |after| + |name|])
    ensures SkipSpaces(s, w) == w + |before|
    ensures SkipSpaces(s, w + |before| + 1) == w + |before| + 1 + |after|
    ensures SkipWord(s, w + |before| + 1 + |after|) == w + |before| + 1 + |after| + |name|
  {
    var k := w + |before| + 1 + |after|;
    assert s[k] == name[0];
    SkipSpacesAcross(s, w, before);
    SkipSpacesAcross(s, w + |before| + 1, after);
    SkipWordAcross(s, k, name);
  }

  /** The names and white space before "->", written out, are what ParseNames reads. */
  lemma ParseNamesOf(s: string, i: nat, count: Option<string>, sex: Option<string>, b: Blanks)
    requires (count.Some? ==> IsWord(count.value)) && (sex.Some? ==> IsWord(sex.value)) && BlanksValid(b)
    requires OccursAt(s, NameText(count) + SexText(sex, b) + b.beforeArrow, i)
    requires i + |NameText(count) + SexText(sex, b) + b.beforeArrow| < |s|
    requires s[i + |NameText(count) + SexText(sex, b) + b.beforeArrow|] == '-'
    ensures ParseNames(s, i) == Some(Head(count, sex, i + |NameText(count) + SexText(sex, b) + b.beforeArrow|))
  {
    var n := NameText(count);
    var x := SexText(sex, b);
    NamesParts(s, i, n, x, b.beforeArrow);
    ParseNamesFromParts(s, i, count, sex, b);
  }

  /** ParseNames over the count, the sex group and the white space before "->", each at its place. */
  lemma ParseNamesFromParts(s: string, i: nat, count: Option<string>, sex: Option<string>, b: Blanks)
    requires (count.Some? ==> IsWord(count.value)) && (sex.Some? ==> IsWord(sex.value)) && BlanksValid(b)
    requires var n, x := NameText(count), SexText(sex, b);
             && OccursAt(s, n, i) && OccursAt(s, x, i + |n|) && OccursAt(s, b.beforeArrow, i + |n| + |x|)
             && i + |n| + |x| + |b.beforeArrow| < |s| && s[i + |n| + |x| + |b.beforeArrow|] == '-'
             && !IsWordChar(s[i + |n| + |x|])
    ensures ParseNames(s, i) == Some(Head(count, sex, i + |NameText(count)| + |SexText(sex, b)| + |b.beforeArrow|))
  {
    var n := NameText(count);
    var x := SexText(sex, b);
    if sex.Some? {
      SexGroupParts(s, i + |n|, b.beforeComma, b.afterComma, sex.value);
    }
    ParseNamesAt(s, i, count, sex, b, i + |n| + |x|);
  }

  /** ParseNames over names and white space whose positions are known. */
  lemma ParseNamesAt(s: string, i: nat, count: Option<string>, sex: Option<string>, b: Blanks, e: nat)
    requires (count.Some? ==> IsWord(count.value)) && BlanksValid(b)
    requires OccursAt(s, NameText(count), i) && i + |NameText(count)| < |s| && !IsWordChar(s[i + |NameText(count)|])
    requires sex.None? ==> e == i + |NameText(count)|
    requires sex.Some? ==>
               var w := i + |NameText(count)|;
               && IsWord(sex.value)
               && OccursAt(s, b.beforeComma, w) && w + |b.beforeComma| < |s| && s[w + |b.beforeComma|] == ','
               && OccursAt(s, b.afterComma, w + |b.beforeComma| + 1)
               && OccursAt(s, sex.value, w + |b.beforeComma| + 1 + |b.afterComma|)
               && e == w + |b.beforeComma| + 1 + |b.afterComma| + |sex.value|
    requires OccursAt(s, b.beforeArrow, e) && e + |b.beforeArrow| < |s| && s[e + |b.beforeArrow|] == '-'
    ensures ParseNames(s, i) == Some(Head(count, sex, e + |b.beforeArrow|))
  {
    if sex.Some? {
      ParseNamesWithSexAt(s, i, count, sex.value, b, e);
    } else {
      ParseNamesWithoutSexAt(s, i, count, b.beforeArrow);
    }
  }

  /** ParseNames over a count, a sex group and white space whose positions are known. */
  lemma ParseNamesWithSexAt(s: string, i: nat, count: Option<string>, name: string, b: Blanks, e: nat)
    requires (count.Some? ==> IsWord(count.value)) && BlanksValid(b)
    requires OccursAt(s, NameText(count), i) && i + |NameText(count)| < |s| && !IsWordChar(s[i + |NameText(count)|])
    requires var w := i + |NameText(count)|;
             && IsWord(name)
             && OccursAt(s, b.beforeComma, w) && w + |b.beforeComma| < |s| && s[w + |b.beforeComma|] == ','
             && OccursAt(s, b.afterComma, w + |b.beforeComma| + 1)
             && OccursAt(s, name, w + |b.beforeComma| + 1 + |b.afterComma|)
             && e == w + |b.beforeComma| + 1 + |b.afterComma| + |name|
    requires OccursAt(s, b.beforeArrow, e) && e + |b.beforeArrow| < |s| && s[e + |b.beforeArrow|] == '-'
    ensures ParseNames(s, i) == Some(Head(count, Some(name), e + |b.beforeArrow|))
  {
    var w := i + |NameText(count)|;
    CountAt(s, i, count);
    ArrowBlankAt(s, e, b.beforeArrow);
    ParseNamesSexAt(s, i, w, count, b.beforeComma, b.afterComma, name, e + |b.beforeArrow|);
  }

  /** ParseNames over a count and white space whose positions are known, with no sex group. */
  lemma ParseNamesWithoutSexAt(s: string, i: nat, count: Option<string>, before: string)
    requires (count.Some? ==> IsWord(count.value)) && IsBlank(before)
    requires OccursAt(s, NameText(count), i) && i + |NameText(count)| < |s| && !IsWordChar(s[i + |NameText(count)|])
    requires var w := i + |NameText(count)|;
             OccursAt(s, before, w) && w + |before| < |s| && s[w + |before|] == '-'
    ensures ParseNames(s, i) == Some(Head(count, None, i + |NameText(count)| + |before|))
  {
    var w := i + |NameText(count)|;
    CountAt(s, i, count);
    ArrowBlankAt(s, w, before);
    ParseNamesWithoutSex(s, i, w, count, w + |before|);
  }

  /** SkipSpaces reads the white space written out before "->". */
  lemma ArrowBlankAt(s: string, e: nat, before: string)
    requires IsBlank(before) && OccursAt(s, before, e) && e + |before| < |s| && s[e + |before|] == '-'
    ensures SkipSpaces(s, e) == e + |before|
  {
    SkipSpacesAcross(s, e, before);
  }

  /** SkipWord reads the count name written out at i. */
  lemma CountAt(s: string, i: nat, count: Option<string>)
    requires count.Some? ==> IsWord(count.value)
    requires OccursAt(s, NameText(count), i) && i + |NameText(count)| < |s| && !IsWordChar(s[i + |NameText(count)|])
    ensures SkipWord(s, i) == i + |NameText(count)|
    ensures count == if i + |NameText(count)| == i then None else Some(s[i..i + |NameText(count)|])
  {
    SkipWordAcross(s, i, NameText(count));
  }

  /** ParseNames over a count already read and a sex group written out after it. */
  lemma ParseNamesSexAt(s: string, i: nat, w: nat, count: Option<string>, before: string, after: string, name: string, m: nat)
    requires i <= |s| && SkipWord(s, i) == w && count == (if w == i then None else Some(s[i..w]))
    requires OccursAt(s, before, w) && IsBlank(before) && w + |before| < |s| && s[w + |before|] == ','
    requires OccursAt(s, after, w + |before| + 1) && IsBlank(after)
    requires OccursAt(s, name, w + |before| + 1 + |after|) && IsWord(name)
    requires w + |before| + 1 + |after| + |name| < |s| && !IsWordChar(s[w + |before| + 1 + |after| + |name|])
    requires SkipSpaces(s, w + |before| + 1 + |after| + |name|) == m
    ensures ParseNames(s, i) == Some(Head(count, Some(name), m))
  {
    SexGroupSkips(s, w, before, after, name);
    ParseNamesWithSex(s, i, w, w + |before|, w + |before| + 1 + |after|, w + |before| + 1 + |after| + |name|, count, name, m);
  }

  /** ParseNames when a "," and a sex name follow the count. */
  lemma ParseNamesWithSex(s: string, i: nat, w: nat, j: nat, k: nat, e: nat, count: Option<string>, name: string, m: nat)
    requires i <= |s| && SkipWord(s, i) == w && count == (if w == i then None else Some(s[i..w]))
    requires SkipSpaces(s, w) == j && j < |s| && s[j] == ','
    requires SkipSpaces(s, j + 1) == k && SkipWord(s, k) == e && e != k && s[k..e] == name
    requires SkipSpaces(s, e) == m
    ensures ParseNames(s, i) == Some(Head(count, Some(name), m))
  {
  }

  /** ParseNames when no "," follows the count and its white space. */
  lemma ParseNamesWithoutSex(s: string, i: nat, w: nat, count: Option<string>, m: nat)
    requires i <= |s| && SkipWord(s, i) == w && count == (if w == i then None else Some(s[i..w]))
    requires SkipSpaces(s, w) == m && m < |s| && s[m] != ','
    ensures ParseNames(s, i) == Some(Head(count, None, m))
  {
  }

  /** Where the count, the sex group and the white space before "->" stand. */
  lemma NamesParts(s: string, i: nat, n: string, x: string, before: string)
    requires OccursAt(s, n + x + before, i) && IsBlank(before)
    requires i + |n + x + before| < |s| && s[i + |n + x + before|] == '-'
    ensures OccursAt(s, n, i) && OccursAt(s, x, i + |n|) && OccursAt(s, before, i + |n| + |x|)
    ensures s[i..i + |n|] == n
    ensures !IsWordChar(s[i + |n| + |x|]) && !IsSpace(s[i + |n| + |x| + |before|])
  {
    OccursSplit(s, n + x, before, i);
    OccursSplit(s, n, x, i);
    var e := i + |n| + |x|;
    assert !IsWordChar(s[e]) by {
      if |before| > 0 {
        assert s[e] == before[0];
      }
    }
  }

  /** "->", white space, the forms and "}", written out at the arrow, are what MatchArrow reads. */
  lemma MatchArrowOf(s: string, p: nat, h: Head, after: string, forms: string, text: string)
    requires OccursAt(s, "->" + after + forms + "}", h.arrow)
    requires p + 2 <= h.arrow && s[p] == '%' && s[p + 1] == '{'
    requires IsBlank(after) && '}' !in forms && (forms == [] || !IsSpace(forms[0]))
    requires text == s[p..h.arrow + |"->" + after + forms + "}"|]
    ensures MatchArrow(s, p, h) == Some(Token(p, text, h.count, h.sex, forms))
  {
    var m := h.arrow;
    var t := m + 2 + |after|;
    var close := t + |forms|;
    ArrowParts(s, m, after, forms);
    SkipSpacesAcross(s, m + 2, after);
    CloseBraceAcross(s, t, forms);
    assert close + 1 == m + |"->" + after + forms + "}"|;
    MatchArrowWith(s, p, h, t, close, text, forms);
  }

  /** Where the parts of "->", white space, the forms and "}" written out at m stand. */
  lemma ArrowParts(s: string, m: nat, after: string, forms: string)
    requires OccursAt(s, "->" + after + forms + "}", m)
    requires '}' !in forms && (forms == [] || !IsSpace(forms[0]))
    ensures m + 2 <= |s| && s[m] == '-' && s[m + 1] == '>'
    ensures OccursAt(s, after, m + 2) && m + 2 + |after| < |s| && !IsSpace(s[m + 2 + |after|])
    ensures OccursAt(s, forms + "}", m + 2 + |after|)
    ensures s[m + 2 + |after|..m + 2 + |after| + |forms|] == forms
  {
    OccursSplit(s, "->" + after, forms + "}", m) by {
      AppendAssociates("->" + after, forms, "}");
    }
    OccursSplit(s, "->", after, m);
    var t := m + 2 + |after|;
    OccursSplit(s, forms, "}", t);
    assert s[m] == "->"[0] && s[m + 1] == "->"[1];
    assert !IsSpace(s[t]) by {
      if |forms| > 0 {
        assert s[t] == forms[0];
      } else {
        assert s[t] == "}"[0];
      }
    }
  }

  /** MatchArrow once the skip over white space after "->" and the search for "}" are known. */
  lemma MatchArrowWith(s: string, p: nat, h: Head, t: nat, close: nat, text: string, forms: string)
    requires p + 2 <= h.arrow && h.arrow + 2 <= |s| && s[p] == '%' && s[p + 1] == '{'
    requires s[h.arrow] == '-' && s[h.arrow + 1] == '>'
    requires SkipSpaces(s, h.arrow + 2) == t && CloseBrace(s, t) == close
    requires close < |s| && text == s[p..close + 1] && forms == s[t..close]
    ensures MatchArrow(s, p, h) == Some(Token(p, text, h.count, h.sex, forms))
  {
  }

  /** An operator written out at p is matched there, with its names and forms. */
  lemma MatchAtOperatorText(s: string, p: nat, count: Option<string>, sex: Option<string>, b: Blanks, forms: string)
    requires (count.Some? ==> IsWord(count.value)) && (sex.Some? ==> IsWord(sex.value)) && BlanksValid(b)
    requires '}' !in forms && (forms == [] || !IsSpace(forms[0]))
    requires OccursAt(s, OperatorText(count, sex, b, forms), p)
    ensures MatchAt(s, p) == Some(Token(p, OperatorText(count, sex, b, forms), count, sex, forms))
  {
    var head := NameText(count) + SexText(sex, b) + b.beforeArrow;
    var tail := "->" + b.afterArrow + forms + "}";
    var text := OperatorText(count, sex, b, forms);
    OperatorTextSplit(count, sex, b, forms);
    OperatorParts(s, p, head, tail, text);
    var h := Head(count, sex, p + 2 + |head|);
    ParseNamesOf(s, p + 2, count, sex, b);
    MatchArrowOf(s, p, h, b.afterArrow, forms, text);
    MatchAtWith(s, p, h, Token(p, text, h.count, h.sex, forms));
  }

  /** An operator's text is "%{", the names with their white space, and the rest from "->". */
  lemma OperatorTextSplit(count: Option<string>, sex: Option<string>, b: Blanks, forms: string)
    ensures OperatorText(count, sex, b, forms)
         == "%{" + (NameText(count) + SexText(sex, b) + b.beforeArrow) + ("->" + b.afterArrow + forms + "}")
  {
    var n, x := NameText(count), SexText(sex, b);
    AppendAssociates("%{", n, x);
    AppendAssociates("%{", n + x, b.beforeArrow);
    var front := "%{" + (n + x + b.beforeArrow);
    AppendAssociates(front, "->", b.afterArrow);
    AppendAssociates(front, "->" + b.afterArrow, forms);
    AppendAssociates(front, "->" + b.afterArrow + forms, "}");
  }

  /** Where "%{", the names and the rest of an operator written out at p stand. */
  lemma OperatorParts(s: string, p: nat, head: string, tail: string, text: string)
    requires text == "%{" + head + tail && |tail| > 0 && tail[0] == '-'
    requires OccursAt(s, text, p)
    ensures p + 2 <= |s| && s[p] == '%' && s[p + 1] == '{'
    ensures OccursAt(s, head, p + 2) && OccursAt(s, tail, p + 2 + |head|)
    ensures p + 2 + |head| < |s| && s[p + 2 + |head|] == '-'
    ensures s[p..p + 2 + |head| + |tail|] == text
  {
    OccursSplit(s, "%{" + head, tail, p);
    OccursSplit(s, "%{", head, p);
    assert s[p + 2 + |head|] == tail[0];
    assert s[p] == "%{"[0] && s[p + 1] == "%{"[1];
  }

  /** MatchAt once the names after "%{" are known. */
  lemma MatchAtWith(s: string, p: nat, h: Head, tok: Token)
    requires p + 2 <= |s| && s[p] == '%' && s[p + 1] == '{' && ParseNames(s, p + 2) == Some(h)
    requires MatchArrow(s, p, h) == Some(tok)
    ensures MatchAt(s, p) == Some(tok)
  {
  }

  /**
   * The names ParseNames reads, with the white space around them, are the text
   * from i to the arrow; after is the white space that follows the arrow.
   */
  lemma NamesLayout(s: string, i: nat, after: string) returns (b: Blanks)
    requires i <= |s| && ParseNames(s, i).Some? && IsBlank(after)
    ensures var h := ParseNames(s, i).value;
            && BlanksValid(b) && b.afterArrow == after
            && i <= h.arrow <= |s| && s[i..h.arrow] == NameText(h.count) + SexText(h.sex, b) + b.beforeArrow
  {
    var h := ParseNames(s, i).value;
    var w := SkipWord(s, i);
    var j := SkipSpaces(s, w);
    CountText(s, i);
    SpacesBlank(s, w);
    if j < |s| && s[j] == ',' {
      var k, e := SexShape(s, i);
      SpacesBlank(s, j + 1);
      SpacesBlank(s, e);
      b := Blanks(s[w..j], s[j + 1..k], s[e..h.arrow], after);
      SlicesWithSex(s, i, w, j, k, e, h.arrow);
    } else {
      NoSexShape(s, i);
      b := Blanks("", "", s[w..j], after);
      SlicesWithoutSex(s, i, w, j);
    }
  }

  /** The white space SkipSpaces passes is a run of \s. */
  lemma SpacesBlank(s: string, i: nat)
    requires i <= |s|
    ensures IsBlank(s[i..SkipSpaces(s, i)])
  {
    SkipSpacesStops(s, i);
    var r := s[i..SkipSpaces(s, i)];
    forall k | 0 <= k < |r|
      ensures IsSpace(r[k])
    {
      assert r[k] == s[i + k];
    }
  }

  /** The count ParseNames reads is the word SkipWord passes. */
  lemma CountText(s: string, i: nat)
    requires i <= |s| && ParseNames(s, i).Some?
    ensures NameText(ParseNames(s, i).value.count) == s[i..SkipWord(s, i)]
  {
  }

  /** With a sex group, where ParseNames finds the sex name and the arrow. */
  lemma SexShape(s: string, i: nat) returns (k: nat, e: nat)
    requires i <= |s| && ParseNames(s, i).Some?
    requires var j := SkipSpaces(s, SkipWord(s, i)); j < |s| && s[j] == ','
    ensures var j := SkipSpaces(s, SkipWord(s, i));
            && k == SkipSpaces(s, j + 1) && e == SkipWord(s, k) && j + 1 <= k <= e <= |s|
            && ParseNames(s, i).value.sex == Some(s[k..e])
            && ParseNames(s, i).value.arrow == SkipSpaces(s, e)
  {
    k := SkipSpaces(s, SkipSpaces(s, SkipWord(s, i)) + 1);
    e := SkipWord(s, k);
  }

  /** Without a sex group, ParseNames puts the arrow after the count's white space. */
  lemma NoSexShape(s: string, i: nat)
    requires i <= |s| && ParseNames(s, i).Some?
    requires var j := SkipSpaces(s, SkipWord(s, i)); !(j < |s| && s[j] == ',')
    ensures ParseNames(s, i).value.sex.None?
    ensures ParseNames(s, i).value.arrow == SkipSpaces(s, SkipWord(s, i))
  {
  }

  /** The text of a count, a sex group and the white space before the arrow, cut at its parts. */
  lemma SlicesWithSex(s: string, i: nat, w: nat, j: nat, k: nat, e: nat, m: nat)
    requires i <= w <= j < k <= e <= m <= |s| && s[j] == ','
    ensures s[i..m] == s[i..w] + (s[w..j] + "," + s[j + 1..k] + s[k..e]) + s[e..m]
  {
    SliceSplit(s, i, e, m);
    SliceSplit(s, i, w, e);
    SliceSplit(s, w, k, e);
    SliceSplit(s, w, j + 1, k);
    SliceSplit(s, w, j, j + 1);
    assert s[j..j + 1] == ",";
  }

  /** The text of a count and the white space before the arrow, cut at its parts. */
  lemma SlicesWithoutSex(s: string, i: nat, w: nat, m: nat)
    requires i <= w <= m <= |s|
    ensures s[i..m] == s[i..w] + "" + s[w..m]
  {
    SliceSplit(s, i, w, m);
  }

  /** What MatchAt finds is an operator written out at p. */
  lemma MatchAtSound(s: string, p: nat)
    requires MatchAt(s, p).Some?
    ensures OperatorAt(s, p, MatchAt(s, p).value)
  {
    var h, t, close := MatchShape(s, p);
    var b := MatchLayout(s, p, h, t, close);
    OperatorAtOf(s, p, MatchAt(s, p).value, b);
  }

  /** The white space of a match, and its text as the operator written out with it. */
  lemma MatchLayout(s: string, p: nat, h: Head, t: nat, close: nat) returns (b: Blanks)
    requires p + 2 <= h.arrow && h.arrow + 2 <= t <= close < |s| && ParseNames(s, p + 2) == Some(h)
    requires s[p] == '%' && s[p + 1] == '{' && s[h.arrow] == '-' && s[h.arrow + 1] == '>' && s[close] == '}'
    requires t == SkipSpaces(s, h.arrow + 2)
    ensures BlanksValid(b) && s[p..close + 1] == OperatorText(h.count, h.sex, b, s[t..close])
  {
    SpacesBlank(s, h.arrow + 2);
    b := NamesLayout(s, p + 2, s[h.arrow + 2..t]);
    MatchText(s, p, h, t, close, b);
  }

  /** A token standing at p whose text is the operator written out with valid white space satisfies the grammar. */
  lemma OperatorAtOf(s: string, p: nat, tok: Token, b: Blanks)
    requires tok.start == p && OccursAt(s, tok.text, p)
    requires (tok.count.Some? ==> IsWord(tok.count.value)) && (tok.sex.Some? ==> IsWord(tok.sex.value))
    requires '}' !in tok.forms && (tok.forms == [] || !IsSpace(tok.forms[0]))
    requires BlanksValid(b) && tok.text == OperatorText(tok.count, tok.sex, b, tok.forms)
    ensures OperatorAt(s, p, tok)
  {
  }

  /** The text of a match is the operator written out with the names' and the arrow's white space. */
  lemma MatchText(s: string, p: nat, h: Head, t: nat, close: nat, b: Blanks)
    requires p + 2 <= h.arrow && h.arrow + 2 <= t <= close < |s|
    requires s[p] == '%' && s[p + 1] == '{' && s[h.arrow] == '-' && s[h.arrow + 1] == '>' && s[close] == '}'
    requires s[p + 2..h.arrow] == NameText(h.count) + SexText(h.sex, b) + b.beforeArrow
    requires b.afterArrow == s[h.arrow + 2..t]
    ensures s[p..close + 1] == OperatorText(h.count, h.sex, b, s[t..close])
  {
    SlicesOfOperator(s, p, h.arrow, t, close);
    OperatorTextSplit(h.count, h.sex, b, s[t..close]);
  }

  /** Where MatchAt finds the names, the arrow, the forms and the closing brace. */
  lemma MatchShape(s: string, p: nat) returns (h: Head, t: nat, close: nat)
    requires MatchAt(s, p).Some?
    ensures p + 2 <= |s| && s[p] == '%' && s[p + 1] == '{'
    ensures ParseNames(s, p + 2) == Some(h) && p + 2 <= h.arrow
    ensures h.arrow + 2 <= t <= close < |s| && s[h.arrow] == '-' && s[h.arrow + 1] == '>' && s[close] == '}'
    ensures t == SkipSpaces(s, h.arrow + 2)
    ensures MatchAt(s, p).value == Token(p, s[p..close + 1], h.count, h.sex, s[t..close])
  {
    h := MatchAtShape(s, p);
    t, close := ArrowShape(s, p, h);
  }

  /** A match at p reads "%{" and the names, then hands over to MatchArrow. */
  lemma MatchAtShape(s: string, p: nat) returns (h: Head)
    requires MatchAt(s, p).Some?
    ensures p + 2 <= |s| && s[p] == '%' && s[p + 1] == '{'
    ensures ParseNames(s, p + 2) == Some(h) && p + 2 <= h.arrow <= |s|
    ensures MatchAt(s, p) == MatchArrow(s, p, h)
  {
    h := ParseNames(s, p + 2).value;
  }

  /** Where a successful MatchArrow finds the arrow, the forms and the closing brace. */
  lemma ArrowShape(s: string, p: nat, h: Head) returns (t: nat, close: nat)
    requires p + 2 <= h.arrow <= |s| && s[p] == '%' && s[p + 1] == '{'
    requires MatchArrow(s, p, h).Some?
    ensures h.arrow + 2 <= t <= close < |s| && s[h.arrow] == '-' && s[h.arrow + 1] == '>' && s[close] == '}'
    ensures t == SkipSpaces(s, h.arrow + 2)
    ensures MatchArrow(s, p, h).value == Token(p, s[p..close + 1], h.count, h.sex, s[t..close])
  {
    t := SkipSpaces(s, h.arrow + 2);
    close := CloseBrace(s, t);
  }

  /** The text of an operator match, cut at "%{", the names, "->", the white space, the forms and "}". */
  lemma SlicesOfOperator(s: string, p: nat, m: nat, t: nat, close: nat)
    requires p + 2 <= m && m + 2 <= t <= close < |s|
    requires s[p] == '%' && s[p + 1] == '{' && s[m] == '-' && s[m + 1] == '>' && s[close] == '}'
    ensures s[p..close + 1] == "%{" + s[p + 2..m] + ("->" + s[m + 2..t] + s[t..close] + "}")
  {
    SliceSplit(s, p, m, close + 1);
    SliceSplit(s, p, p + 2, m);
    SliceSplit(s, m, close, close + 1);
    SliceSplit(s, m, t, close);
    SliceSplit(s, m, m + 2, t);
    assert s[p..p + 2] == "%{";
    assert s[m..m + 2] == "->";
    assert s[close..close + 1] == "}";
  }

  /** MatchAt recognises exactly the operator grammar: both directions. */
  lemma MatchAtGrammar(s: string, p: nat, tok: Token)
    ensures MatchAt(s, p) == Some(tok) <==> OperatorAt(s, p, tok)
  {
    if MatchAt(s, p) == Some(tok) {
      MatchAtSound(s, p);
    }
    if OperatorAt(s, p, tok) {
      var b :| BlanksValid(b) && tok.text == OperatorText(tok.count, tok.sex, b, tok.forms);
      MatchAtOperatorText(s, p, tok.count, tok.sex, b, tok.forms);
    }
  }

  /** The result of the regular expression at every position of s. */
  function Matches(s: string): (table: seq<Option<Token>>)
    ensures |table| == |s|
  {
    seq(|s|, q requires 0 <= q < |s| => MatchAt(s, q))
  }

  /** A table of matches: each match starts where it stands and ends after it, within the text. */
  ghost predicate ValidTable(table: seq<Option<Token>>) {
    forall q :: 0 <= q < |table| && table[q].Some? ==> table[q].value.start == q && q < End(table[q].value) <= |table|
  }

  lemma MatchesValid(s: string)
    ensures ValidTable(Matches(s))
  {
    forall q | 0 <= q < |s| && Matches(s)[q].Some?
      ensures Matches(s)[q].value.start == q && q < End(Matches(s)[q].value) <= |s|
    {
      assert Matches(s)[q] == MatchAt(s, q);
    }
  }

  /** The global search over a table: take the match at p and resume at its end, or move on by one. */
  function Walk(table: seq<Option<Token>>, p: nat): (r: seq<Token>)
    requires ValidTable(table) && p <= |table|
    ensures forall i :: 0 <= i < |r| ==> p <= r[i].start && End(r[i]) <= |table|
    decreases |table| - p
  {
    if p == |table| then []
    else
      match table[p]
      case Some(t) => [t] + Walk(table, End(t))
      case None => Walk(table, p + 1)
  }

  /** No entry of the table in [lo, hi) is a match. */
  ghost predicate NoneIn(table: seq<Option<Token>>, lo: nat, hi: nat) {
    forall q :: lo <= q < hi && q < |table| ==> table[q].None?
  }

  /** Each token of the walk is the table's match at the token's start. */
  lemma {:induction false} WalkTokensMatch(table: seq<Option<Token>>, p: nat)
    requires ValidTable(table) && p <= |table|
    ensures forall i :: 0 <= i < |Walk(table, p)| ==>
              Walk(table, p)[i].start < |table| && table[Walk(table, p)[i].start] == Some(Walk(table, p)[i])
    decreases |table| - p
  {
    if p < |table| {
      var m := table[p];
      if m.Some? {
        WalkTokensMatch(table, End(m.value));
        assert Walk(table, p) == [m.value] + Walk(table, End(m.value));
      } else {
        WalkTokensMatch(table, p + 1);
        assert Walk(table, p) == Walk(table, p + 1);
      }
    }
  }

  /** The walk's tokens follow one another without overlapping. */
  lemma {:induction false} WalkOrdered(table: seq<Option<Token>>, p: nat)
    requires ValidTable(table) && p <= |table|
    ensures forall i :: 0 <= i < |Walk(table, p)| - 1 ==> End(Walk(table, p)[i]) <= Walk(table, p)[i + 1].start
    decreases |table| - p
  {
    if p < |table| {
      var m := table[p];
      if m.Some? {
        WalkOrdered(table, End(m.value));
        assert Walk(table, p) == [m.value] + Walk(table, End(m.value));
      } else {
        WalkOrdered(table, p + 1);
        assert Walk(table, p) == Walk(table, p + 1);
      }
    }
  }

  /** An empty walk from p means the table holds no match from p on. */
  lemma {:induction false} WalkEmpty(table: seq<Option<Token>>, p: nat)
    requires ValidTable(table) && p <= |table| && Walk(table, p) == []
    ensures NoneIn(table, p, |table|)
    decreases |table| - p
  {
    if p < |table| {
      assert table[p].None?;
      assert Walk(table, p + 1) == [];
      WalkEmpty(table, p + 1);
    }
  }

  /** The table holds no match before the walk's first token. */
  lemma {:induction false} WalkLeadingGap(table: seq<Option<Token>>, p: nat)
    requires ValidTable(table) && p <= |table| && Walk(table, p) != []
    ensures NoneIn(table, p, Walk(table, p)[0].start)
    decreases |table| - p
  {
    if table[p].None? {
      assert Walk(table, p) == Walk(table, p + 1);
      WalkLeadingGap(table, p + 1);
    }
  }

  /** The table holds no match after the walk's last token. */
  lemma {:induction false} WalkTrailingGap(table: seq<Option<Token>>, p: nat)
    requires ValidTable(table) && p <= |table| && Walk(table, p) != []
    ensures NoneIn(table, End(Walk(table, p)[|Walk(table, p)| - 1]), |table|)
    decreases |table| - p
  {
    var m := table[p];
    if m.Some? {
      var rest := Walk(table, End(m.value));
      assert Walk(table, p) == [m.value] + rest;
      if rest != [] {
        WalkTrailingGap(table, End(m.value));
        assert Walk(table, p)[|rest|] == rest[|rest| - 1];
      } else {
        WalkEmpty(table, End(m.value));
      }
    } else {
      WalkTrailingGap(table, p + 1);
      assert Walk(table, p) == Walk(table, p + 1);
    }
  }

  /** The table holds no match between two consecutive tokens of the walk. */
  lemma {:induction false} WalkInnerGaps(table: seq<Option<Token>>, p: nat)
    requires ValidTable(table) && p <= |table|
    ensures forall i :: 0 <= i < |Walk(table, p)| - 1 ==>
              NoneIn(table, End(Walk(table, p)[i]), Walk(table, p)[i + 1].start)
    decreases |table| - p
  {
    if p < |table| {
      var m := table[p];
      if m.Some? {
        var rest := Walk(table, End(m.value));
        WalkInnerGaps(table, End(m.value));
        if rest != [] {
          WalkLeadingGap(table, End(m.value));
        }
        assert Walk(table, p) == [m.value] + rest;
      } else {
        WalkInnerGaps(table, p + 1);
        assert Walk(table, p) == Walk(table, p + 1);
      }
    }
  }

  /**
   * The operators found by repeatedly running the global regular expression from
   * position p: the leftmost match, then the search resumes where it ended.
   */
  function Scan(s: string, p: nat): (r: seq<Token>)
    requires p <= |s|
    ensures forall i :: 0 <= i < |r| ==> p <= r[i].start && End(r[i]) <= |s|
  {
    MatchesValid(s);
    Walk(Matches(s), p)
  }

  /** No operator starts at any position in [lo, hi). */
  ghost predicate NoMatchIn(s: string, lo: nat, hi: nat) {
    forall q :: lo <= q < hi ==> MatchAt(s, q).None?
  }

  /** A stretch of the table without matches is a stretch of text where the expression matches nowhere. */
  lemma NoMatchFromTable(s: string, lo: nat, hi: nat)
    requires hi <= |s| && NoneIn(Matches(s), lo, hi)
    ensures NoMatchIn(s, lo, hi)
  {
    forall q | lo <= q < hi
      ensures MatchAt(s, q).None?
    {
      assert Matches(s)[q] == MatchAt(s, q);
    }
  }

  /** Each token Scan finds is the match of the regular expression at its position. */
  lemma ScanTokensMatch(s: string, p: nat)
    requires p <= |s|
    ensures forall i :: 0 <= i < |Scan(s, p)| ==> MatchAt(s, Scan(s, p)[i].start) == Some(Scan(s, p)[i])
  {
    MatchesValid(s);
    var r := Scan(s, p);
    WalkTokensMatch(Matches(s), p);
    forall i | 0 <= i < |r|
      ensures MatchAt(s, r[i].start) == Some(r[i])
    {
      assert Matches(s)[r[i].start] == MatchAt(s, r[i].start);
    }
  }

  /** Every match starts with "%{". */
  lemma MatchOpens(s: string, p: nat)
    requires MatchAt(s, p).Some?
    ensures OccursAt(s, "%{", p)
  {
    assert s[p..p + 2] == "%{";
  }

  /** Scan's first token starts with "%{". */
  lemma ScanOpens(s: string, p: nat)
    requires p <= |s| && Scan(s, p) != []
    ensures OccursAt(s, "%{", Scan(s, p)[0].start)
  {
    ScanTokensMatch(s, p);
    MatchOpens(s, Scan(s, p)[0].start);
  }

  /** Scan's tokens follow one another without overlapping. */
  lemma ScanOrdered(s: string, p: nat)
    requires p <= |s|
    ensures forall i :: 0 <= i < |Scan(s, p)| - 1 ==> End(Scan(s, p)[i]) <= Scan(s, p)[i + 1].start
  {
    MatchesValid(s);
    WalkOrdered(Matches(s), p);
  }

  /** Without tokens from p on, no match of the regular expression starts at p or later. */
  lemma ScanEmpty(s: string, p: nat)
    requires p <= |s| && Scan(s, p) == []
    ensures NoMatchIn(s, p, |s|)
  {
    MatchesValid(s);
    WalkEmpty(Matches(s), p);
    NoMatchFromTable(s, p, |s|);
  }

  /** No match of the regular expression starts before Scan's first token. */
  lemma ScanLeadingGap(s: string, p: nat)
    requires p <= |s| && Scan(s, p) != []
    ensures NoMatchIn(s, p, Scan(s, p)[0].start)
  {
    MatchesValid(s);
    WalkLeadingGap(Matches(s), p);
    NoMatchFromTable(s, p, Scan(s, p)[0].start);
  }

  /** No match starts after Scan's last token. */
  lemma ScanTrailingGap(s: string, p: nat)
    requires p <= |s| && Scan(s, p) != []
    ensures NoMatchIn(s, End(Scan(s, p)[|Scan(s, p)| - 1]), |s|)
  {
    MatchesValid(s);
    WalkTrailingGap(Matches(s), p);
    NoMatchFromTable(s, End(Scan(s, p)[|Scan(s, p)| - 1]), |s|);
  }

  /** No match starts between two consecutive tokens of Scan. */
  lemma ScanInnerGaps(s: string, p: nat)
    requires p <= |s|
    ensures forall i :: 0 <= i < |Scan(s, p)| - 1 ==>
              NoMatchIn(s, End(Scan(s, p)[i]), Scan(s, p)[i + 1].start)
  {
    MatchesValid(s);
    var r := Scan(s, p);
    WalkInnerGaps(Matches(s), p);
    forall i | 0 <= i < |r| - 1
      ensures NoMatchIn(s, End(r[i]), r[i + 1].start)
    {
      NoMatchFromTable(s, End(r[i]), r[i + 1].start);
    }
  }

  /** One step of Scan: the match at p and what follows it, or the next position. */
  lemma ScanStep(s: string, p: nat)
    requires p < |s|
    ensures MatchAt(s, p).Some? ==> Scan(s, p) == [MatchAt(s, p).value] + Scan(s, End(MatchAt(s, p).value))
    ensures MatchAt(s, p).None? ==> Scan(s, p) == Scan(s, p + 1)
  {
    MatchesValid(s);
    assert Matches(s)[p] == MatchAt(s, p);
  }

  /** The exec loop's invariant survives one step. */
  lemma ScanAdvance(s: string, pos: nat, tokens: seq<Token>)
    requires pos < |s| && tokens + Scan(s, pos) == Scan(s, 0)
    ensures MatchAt(s, pos).Some? ==>
              tokens + [MatchAt(s, pos).value] + Scan(s, End(MatchAt(s, pos).value)) == Scan(s, 0)
    ensures MatchAt(s, pos).None? ==> tokens + Scan(s, pos + 1) == Scan(s, 0)
  {
    ScanStep(s, pos);
    var m := MatchAt(s, pos);
    if m.Some? {
      AppendAssociates(tokens, [m.value], Scan(s, End(m.value)));
    }
  }

  /** The loop of _interpolate that collects every match of the operator pattern. */
  method FindOperators(s: string) returns (tokens: seq<Token>)
    ensures tokens == Scan(s, 0)
  {
    tokens := [];
    var pos := 0;
    while pos < |s|
      invariant pos <= |s|
      invariant tokens + Scan(s, pos) == Scan(s, 0)
    {
      ScanAdvance(s, pos, tokens);
      match MatchAt(s, pos)
      case Some(t) =>
        tokens := tokens + [t];
        pos := End(t);
      case None =>
        pos := pos + 1;
    }
  }

  /**
   * A parameter value as the engine sees it: text is its string conversion
   * (String(v)), number its numeric conversion (ToNumber(v)).
   */
  datatype Param = Param(text: string, number: Number)

  /** The params object: its own keys with their values, in enumeration order. */
  type Params = seq<(string, Param)>

  /** params[name] when params has that own property. */
  function ParamOf(params: Params, name: string): (r: Option<Param>)
    ensures r.None? <==> forall i :: 0 <= i < |params| ==> params[i].0 != name
    ensures r.Some? ==> exists i :: 0 <= i < |params| && params[i] == (name, r.value)
                                    && forall j :: 0 <= j < i ==> params[j].0 != name
  {
    var i := IndexOf(Keys(params), name);
    if i < 0 then None
    else
      assert params[i] == (name, params[i].1);
      assert forall j :: 0 <= j < i ==> params[j].0 == Keys(params)[..i][j];
      Some(params[i].1)
  }

  /** The own keys of params in enumeration order. */
  function Keys(params: Params): (keys: seq<string>)
    ensures |keys| == |params| && forall i :: 0 <= i < |params| ==> keys[i] == params[i].0
  {
    seq(|params|, i requires 0 <= i < |params| => params[i].0)
  }

  /**
   * The plural slot an operator selects, and whether its count parameter is
   * missing from params (which is audited as a key miss).
   */
  function PluralIndex(rule: Rule, count: Option<string>, params: Params, slots: nat): (r: (nat, bool))
    requires slots >= 1
    ensures r.0 < slots
    ensures r.1 <==> count.Some? && ParamOf(params, count.value).None?
    ensures count.None? || r.1 ==> r.0 == 0
    ensures count.Some? && ParamOf(params, count.value).Some? ==>
              var f := GetFormIdx(rule, ParamOf(params, count.value).value.number);
              r.0 == if f < slots then f else 0
  {
    match count
    case None => (0, false)
    case Some(name) =>
      match ParamOf(params, name)
      case None => (0, true)
      case Some(v) =>
        var idx := GetFormIdx(rule, v.number);
        (if idx < slots then idx else 0, false)
  }

  /**
   * The gender variant an operator selects: the sex parameter's value names an
   * index of the variant list (as a property name), or the first variant is taken.
   */
  function SexIndex(sex: Option<string>, params: Params, slots: nat): (i: nat)
    requires slots >= 1
    ensures i < slots
    ensures i != 0 ==> sex.Some? && ParamOf(params, sex.value).Some?
                       && ParseIndex(ParamOf(params, sex.value).value.text) == Some(i)
    ensures sex.Some? && ParamOf(params, sex.value).Some? ==>
              forall k :: ParseIndex(ParamOf(params, sex.value).value.text) == Some(k) && k < slots ==> i == k
  {
    match sex
    case None => 0
    case Some(name) =>
      match ParamOf(params, name)
      case None => 0
      case Some(v) =>
        match ParseIndex(v.text)
        case Some(k) => if k < slots then k else 0
        case None => 0
  }

  /** The outcome of _resolveOperator: the chosen text, and whether a key miss is logged. */
  datatype Resolution = Resolution(text: string, countMissing: bool)

  /**
   * _resolveOperator without its audit call: the forms text split on "," gives
   * the plural slots, the chosen slot split on "|" gives the gender variants.
   */
  function Select(rule: Rule, t: Token, params: Params): (res: Resolution)
    ensures res.countMissing <==> t.count.Some? && ParamOf(params, t.count.value).None?
  {
    var byForm := Split(t.forms, ',');
    var (pluralIdx, miss) := PluralIndex(rule, t.count, params, |byForm|);
    var bySex := Split(byForm[pluralIdx], '|');
    Resolution(bySex[SexIndex(t.sex, params, |bySex|)], miss)
  }

  /**
   * The chosen text is one variant of one slot: it stands in the forms text and
   * holds neither "," nor "|" (nor "}", which the forms never hold).
   */
  lemma SelectIsVariant(rule: Rule, t: Token, params: Params)
    requires '}' !in t.forms
    ensures var r := Select(rule, t, params).text;
            Contains(t.forms, r) && ',' !in r && '|' !in r && '}' !in r
  {
    var byForm := Split(t.forms, ',');
    var pi := PluralIndex(rule, t.count, params, |byForm|).0;
    var bySex := Split(byForm[pi], '|');
    var si := SexIndex(t.sex, params, |bySex|);
    JoinSplit(t.forms, ',');
    JoinSplit(byForm[pi], '|');
    PartOfJoin(byForm, ',', pi);
    PartOfJoin(bySex, '|', si);
    ContainsTransitive(t.forms, byForm[pi], bySex[si]);
    ContainsChars(t.forms, bySex[si]);
    ContainsChars(byForm[pi], bySex[si]);
  }

  /** Each part of a join stands in the joined text. */
  lemma {:induction false} PartOfJoin(parts: seq<string>, sep: char, i: nat)
    requires 1 <= |parts| && i < |parts|
    ensures Contains(Join(parts, sep), parts[i])
    decreases |parts|
  {
    var s := Join(parts, sep);
    if |parts| == 1 {
      assert OccursAt(s, parts[i], 0);
    } else if i == 0 {
      assert s == parts[0] + ([sep] + Join(parts[1..], sep));
      assert OccursAt(s, parts[0], 0);
    } else {
      var front := parts[0] + [sep];
      PartOfJoin(parts[1..], sep, i - 1);
      var j :| OccursAt(Join(parts[1..], sep), parts[i], j);
      OccursAfter(front, Join(parts[1..], sep), parts[i], j);
    }
  }
  /** A parameter given as a number n selects gender variant n whenever there is one. */
  lemma SexIndexOfNumber(name: string, params: Params, n: nat, slots: nat)
    requires slots >= 1 && n < slots
    requires ParamOf(params, name).Some? && ParamOf(params, name).value.text == NatToString(n)
    ensures SexIndex(Some(name), params, slots) == n
  {
    ParseNatToString(n);
  }

  /** A string without the separator splits into itself. */
  lemma SplitNone(s: string, sep: char)
    requires sep !in s
    ensures Split(s, sep) == [s]
  {
  }

  /** A string with exactly one separator splits into the text before it and after it. */
  lemma SplitOnce(s: string, sep: char, i: nat)
    requires i < |s| && s[i] == sep && sep !in s[..i] && sep !in s[i + 1..]
    ensures Split(s, sep) == [s[..i], s[i + 1..]]
  {
    SplitAt(s, sep, i);
  }

  /**
   * Plural slots are separated by "," and gender variants by "|". Forms without
   * a "," are a single plural slot, so neither the count nor the rule matters:
   * without a sex name the text up to the first "|" is chosen. For "item|items"
   * that is "item" whatever the count.
   */
  lemma SingleSlotIgnoresCount(rule: Rule, t: Token, params: Params)
    requires ',' !in t.forms && t.sex.None?
    ensures var i := IndexOf(t.forms, '|');
            Select(rule, t, params).text == if i < 0 then t.forms else t.forms[..i]
  {
    FirstVariant(rule, t, params);
    var i := IndexOf(t.forms, '|');
    if i >= 0 {
      SplitAt(t.forms, '|', i);
    } else {
      SplitNone(t.forms, '|');
    }
  }

  /** A single plural slot without a sex name yields its first gender variant. */
  lemma FirstVariant(rule: Rule, t: Token, params: Params)
    requires ',' !in t.forms && t.sex.None?
    ensures Select(rule, t, params).text == Split(t.forms, '|')[0]
  {
    SplitNone(t.forms, ',');
  }

  /**
   * Two plural slots under the English rule: a count parameter equal to 1 selects
   * the first, any other value the second, and a missing count the first.
   */
  lemma EnglishTwoSlots(t: Token, params: Params, i: nat)
    requires '|' !in t.forms && t.sex.None? && t.count.Some?
    requires i == IndexOf(t.forms, ',') && ',' !in t.forms[i + 1..]
    ensures var v := ParamOf(params, t.count.value);
            Select(English, t, params).text
              == if v.Some? && v.value.number != Integer(1) then t.forms[i + 1..] else t.forms[..i]
  {
    SplitOnce(t.forms, ',', i);
    SplitNone(t.forms[..i], '|');
    SplitNone(t.forms[i + 1..], '|');
  }
}
