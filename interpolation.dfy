/**
 * The interpolation pass of _interpolate: one search/replace list, the simple
 * placeholders %{name} first (one per parameter), then one entry per operator
 * found in the template, applied from left to right, each replacing the first
 * occurrence of its search text in the string as rewritten so far.
 */
module Interpolation {
  import opened Wrappers
  import opened Text
  import opened Plural
  import opened Operator

  /** One entry of the search/replace list. */
  datatype Substitution = Substitution(search: string, replace: string)

  /** The search/replace list applied from left to right. */
  function ApplyAll(s: string, subs: seq<Substitution>): (r: string)
    ensures (forall i :: 0 <= i < |subs| ==> !Contains(s, subs[i].search)) ==> r == s
    decreases |subs|
  {
    if |subs| == 0 then s
    else
      assert forall i :: 1 <= i < |subs| ==> subs[1..][i - 1] == subs[i];
      ApplyAll(ReplaceFirst(s, subs[0].search, subs[0].replace), subs[1..])
  }

  /** The simple placeholder of a parameter name. */
  function Placeholder(name: string): (p: string)
    ensures |p| == |name| + 3 && p[..2] == "%{" && p[2..|p| - 1] == name && p[|p| - 1] == '}'
  {
    "%{" + name + "}"
  }

  /** The first part of the list: every parameter's placeholder and its string value, in key order. */
  function SimpleSubs(params: Params): (subs: seq<Substitution>)
    ensures |subs| == |params|
    ensures forall i :: 0 <= i < |params| ==>
              subs[i] == Substitution(Placeholder(params[i].0), params[i].1.text)
  {
    if |params| == 0 then []
    else
      var last := params[|params| - 1];
      SimpleSubs(params[..|params| - 1]) + [Substitution(Placeholder(last.0), last.1.text)]
  }

  /** The second part: each operator's whole text and the variant it resolves to. */
  function OperatorSubs(rule: Rule, tokens: seq<Token>, params: Params): (subs: seq<Substitution>)
    ensures |subs| == |tokens|
  {
    if |tokens| == 0 then []
    else
      var last := tokens[|tokens| - 1];
      OperatorSubs(rule, tokens[..|tokens| - 1], params) + [Substitution(last.text, Select(rule, last, params).text)]
  }

  /** One more operator adds its own entry at the end of the operator part. */
  lemma OperatorSubsSnoc(rule: Rule, init: seq<Token>, t: Token, params: Params)
    ensures OperatorSubs(rule, init + [t], params)
            == OperatorSubs(rule, init, params) + [Substitution(t.text, Select(rule, t, params).text)]
  {
    assert (init + [t])[..|init|] == init;
  }

  /** Entry i of the operator part replaces operator i's whole text by the variant it selects. */
  lemma {:induction false} OperatorSubsEntry(rule: Rule, tokens: seq<Token>, params: Params, i: nat)
    requires i < |tokens|
    ensures OperatorSubs(rule, tokens, params)[i] == Substitution(tokens[i].text, Select(rule, tokens[i], params).text)
  {
    var init := tokens[..|tokens| - 1];
    var t := tokens[|tokens| - 1];
    assert tokens == init + [t];
    OperatorSubsSnoc(rule, init, t, params);
    if i < |init| {
      OperatorSubsEntry(rule, init, params, i);
      IndexInPrefix(OperatorSubs(rule, init, params), [Substitution(t.text, Select(rule, t, params).text)], i);
      assert tokens[i] == init[i];
    } else {
      assert tokens[i] == t;
    }
  }

  /** Below the length of its first part, a concatenation reads that part. */
  lemma IndexInPrefix<T>(a: seq<T>, b: seq<T>, i: nat)
    requires i < |a|
    ensures (a + b)[i] == a[i]
  {
  }

  /** What _interpolate returns for a template, a plural rule and the parameters. */
  function Interpolated(rule: Rule, tpl: string, params: Params): (r: string)
    ensures !Contains(tpl, "%{") ==> r == tpl
  {
    SearchesNeedOpening(rule, tpl, params);
    ApplyAll(tpl, SimpleSubs(params) + OperatorSubs(rule, Scan(tpl, 0), params))
  }

  /** The final loop of _interpolate. */
  method ApplySubstitutions(s: string, subs: seq<Substitution>) returns (r: string)
    ensures r == ApplyAll(s, subs)
  {
    r := s;
    var j := 0;
    while j < |subs|
      invariant 0 <= j <= |subs|
      invariant ApplyAll(r, subs[j..]) == ApplyAll(s, subs)
    {
      assert subs[j..][1..] == subs[j + 1..];
      r := ReplaceFirst(r, subs[j].search, subs[j].replace);
      j := j + 1;
    }
  }

  /** A string that contains pat contains every prefix of pat. */
  lemma ContainsPrefix(s: string, pat: string, n: nat)
    requires n <= |pat| && Contains(s, pat)
    ensures Contains(s, pat[..n])
  {
    var j :| OccursAt(s, pat, j);
    assert s[j..j + n] == pat[..n];
    assert OccursAt(s, pat[..n], j);
  }

  /** Every operator starts with "%{", so a template with an operator contains "%{". */
  lemma OperatorNeedsOpening(tpl: string)
    ensures Scan(tpl, 0) != [] ==> Contains(tpl, "%{")
  {
    var tokens := Scan(tpl, 0);
    if tokens != [] {
      ScanOpens(tpl, 0);
      assert OccursAt(tpl, "%{", tokens[0].start);
    }
  }

  /** Every simple placeholder starts with "%{", so a template without "%{" contains none. */
  lemma PlaceholdersNeedOpening(tpl: string, params: Params)
    ensures !Contains(tpl, "%{") ==>
              forall i :: 0 <= i < |SimpleSubs(params)| ==> !Contains(tpl, SimpleSubs(params)[i].search)
  {
    var subs := SimpleSubs(params);
    forall i | 0 <= i < |subs| && Contains(tpl, subs[i].search)
      ensures Contains(tpl, "%{")
    {
      assert subs[i].search[..2] == "%{";
      ContainsPrefix(tpl, subs[i].search, 2);
    }
  }

  /**
   * Every search text of the list starts with "%{", so a template without "%{"
   * contains none of them and the list leaves it as it is.
   */
  lemma SearchesNeedOpening(rule: Rule, tpl: string, params: Params)
    ensures var subs := SimpleSubs(params) + OperatorSubs(rule, Scan(tpl, 0), params);
            !Contains(tpl, "%{") ==> ApplyAll(tpl, subs) == tpl
  {
    OperatorNeedsOpening(tpl);
    PlaceholdersNeedOpening(tpl, params);
    if !Contains(tpl, "%{") {
      assert SimpleSubs(params) + OperatorSubs(rule, Scan(tpl, 0), params) == SimpleSubs(params);
    }
  }

  /** With no operator in the template, only the simple placeholders are substituted. */
  lemma InterpolatedWithoutOperators(rule: Rule, tpl: string, params: Params)
    requires Scan(tpl, 0) == []
    ensures Interpolated(rule, tpl, params) == ApplyAll(tpl, SimpleSubs(params))
  {
    assert OperatorSubs(rule, Scan(tpl, 0), params) == [];
    assert SimpleSubs(params) + OperatorSubs(rule, Scan(tpl, 0), params) == SimpleSubs(params);
  }

  /** A list of one entry replaces the first occurrence of its search text. */
  lemma ApplyOne(s: string, sub: Substitution)
    ensures ApplyAll(s, [sub]) == ReplaceFirst(s, sub.search, sub.replace)
  {
    assert [sub][1..] == [];
  }

  /** With one parameter and no operator, the pass replaces the first placeholder of that parameter. */
  lemma InterpolatedOneParameter(rule: Rule, tpl: string, name: string, v: Param)
    requires Scan(tpl, 0) == []
    ensures Interpolated(rule, tpl, [(name, v)]) == ReplaceFirst(tpl, Placeholder(name), v.text)
  {
    InterpolatedWithoutOperators(rule, tpl, [(name, v)]);
    assert SimpleSubs([(name, v)]) == [Substitution(Placeholder(name), v.text)];
    ApplyOne(tpl, Substitution(Placeholder(name), v.text));
  }

  /**
   * A simple placeholder that occurs twice is substituted once: with one
   * parameter and no operator, the second occurrence survives the pass.
   */
  lemma RepeatedPlaceholderSurvives(rule: Rule, tpl: string, name: string, v: Param, j: int)
    requires Scan(tpl, 0) == []
    requires OccursAt(tpl, Placeholder(name), j)
    requires Find(tpl, Placeholder(name)) + |Placeholder(name)| <= j
    ensures OccursAt(Interpolated(rule, tpl, [(name, v)]), Placeholder(name), j - |Placeholder(name)| + |v.text|)
  {
    ReplaceFirstKeepsLater(tpl, Placeholder(name), v.text, j);
    InterpolatedOneParameter(rule, tpl, name, v);
  }

  /** The operator "%{c -> f}", with one space on each side of the arrow. */
  function CountOperator(c: string, f: string): string {
    "%{" + c + " -> " + f + "}"
  }

  /** "%{c -> f}" is the one operator of its own text, with count name c and forms f. */
  lemma CountOperatorScanned(c: string, f: string)
    requires IsWord(c) && '}' !in f && (f == [] || !IsSpace(f[0]))
    ensures var tpl := CountOperator(c, f);
            Scan(tpl, 0) == [Token(0, tpl, Some(c), None, f)]
  {
    var tpl := CountOperator(c, f);
    var b := Blanks("", "", " ", " ");
    assert tpl == OperatorText(Some(c), None, b, f);
    assert OccursAt(tpl, tpl, 0);
    MatchAtOperatorText(tpl, 0, Some(c), None, b, f);
    ScanStep(tpl, 0);
  }

  /** The only "{" of "%{c -> f}" is its second character, so c's simple placeholder does not occur. */
  lemma CountOperatorHasNoPlaceholder(c: string, f: string)
    requires IsWord(c) && '{' !in f
    ensures !Contains(CountOperator(c, f), Placeholder(c))
  {
    var tpl := CountOperator(c, f);
    var pat := Placeholder(c);
    var rest := " -> " + f + "}";
    assert tpl == "%{" + c + rest;
    forall j | 0 < j && j + |pat| <= |tpl|
      ensures !OccursAt(tpl, pat, j)
    {
      if j + 1 < 2 + |c| {
        assert tpl[j + 1] == c[j - 1];
      } else {
        assert tpl[j + 1] == rest[j - 1 - |c|];
      }
      assert tpl[j..j + |pat|][1] != pat[1];
    }
    assert !OccursAt(tpl, pat, 0) by {
      assert tpl[2 + |c|] == rest[0] != pat[2 + |c|];
    }
  }

  /**
   * A template that is exactly one operator and holds no simple placeholder of
   * its one parameter becomes the variant that operator selects.
   */
  lemma SingleOperatorTemplate(rule: Rule, tpl: string, tok: Token, name: string, v: Param)
    requires Scan(tpl, 0) == [tok] && tok.text == tpl && !Contains(tpl, Placeholder(name))
    ensures Interpolated(rule, tpl, [(name, v)]) == Select(rule, tok, [(name, v)]).text
  {
    var params := [(name, v)];
    var x := Substitution(Placeholder(name), v.text);
    var y := Substitution(tpl, Select(rule, tok, params).text);
    SingleEntries(rule, tok, name, v);
    ApplyTwo(tpl, x, y);
    ReplaceWhole(tpl, y.replace);
  }

  /** The list for one parameter and one operator: the placeholder's entry, then the operator's. */
  lemma SingleEntries(rule: Rule, tok: Token, name: string, v: Param)
    ensures SimpleSubs([(name, v)]) + OperatorSubs(rule, [tok], [(name, v)])
            == [Substitution(Placeholder(name), v.text), Substitution(tok.text, Select(rule, tok, [(name, v)]).text)]
  {
    OperatorSubsSnoc(rule, [], tok, [(name, v)]);
    assert [] + [tok] == [tok];
  }

  /** A list of two entries replaces the first one's search text, then the second one's. */
  lemma ApplyTwo(s: string, x: Substitution, y: Substitution)
    ensures ApplyAll(s, [x, y]) == ReplaceFirst(ReplaceFirst(s, x.search, x.replace), y.search, y.replace)
  {
    var once := ReplaceFirst(s, x.search, x.replace);
    assert [x, y][1..] == [y];
    assert ApplyAll(s, [x, y]) == ApplyAll(once, [y]);
    assert [y][1..] == [];
    assert ApplyAll(once, [y]) == ApplyAll(ReplaceFirst(once, y.search, y.replace), []);
  }

  /**
   * End to end: a template that is the single operator "%{c -> a,b}" under the
   * English rule, with c the one parameter, becomes a for a count of 1 and b for
   * any other count.
   */
  lemma EnglishCountOperator(c: string, a: string, b: string, v: Param)
    requires IsWord(c) && (a == [] || !IsSpace(a[0]))
    requires ',' !in a && '|' !in a && '{' !in a && '}' !in a
    requires ',' !in b && '|' !in b && '{' !in b && '}' !in b
    ensures Interpolated(English, "%{" + c + " -> " + a + "," + b + "}", [(c, v)])
            == if v.number == Integer(1) then a else b
  {
    var forms := a + ("," + b);
    var tok := Token(0, CountOperator(c, forms), Some(c), None, forms);
    TwoFormsUnderEnglish(tok, c, a, b, v);
    TwoFormsOperator(c, a, b);
    SingleOperatorTemplate(English, CountOperator(c, forms), tok, c, v);
  }

  /** "%{c -> a,b}" is the count operator with forms "a,b", the one operator of its text, with no placeholder of c. */
  lemma TwoFormsOperator(c: string, a: string, b: string)
    requires IsWord(c) && (a == [] || !IsSpace(a[0]))
    requires '{' !in a && '}' !in a && '{' !in b && '}' !in b
    ensures var forms := a + ("," + b);
            var tpl := CountOperator(c, forms);
            && "%{" + c + " -> " + a + "," + b + "}" == tpl
            && Scan(tpl, 0) == [Token(0, tpl, Some(c), None, forms)]
            && !Contains(tpl, Placeholder(c))
  {
    TwoFormsText(c, a, b);
    TwoFormsShape(a, b);
    CountOperatorScanned(c, a + ("," + b));
    CountOperatorHasNoPlaceholder(c, a + ("," + b));
  }

  /** The text "%{c -> a,b}" is CountOperator(c, "a,b"). */
  lemma TwoFormsText(c: string, a: string, b: string)
    ensures "%{" + c + " -> " + a + "," + b + "}" == CountOperator(c, a + ("," + b))
  {
    AppendAssociates(a, ",", b);
  }

  /** "a,b" holds no brace when a and b hold none, and starts as a does. */
  lemma TwoFormsShape(a: string, b: string)
    requires a == [] || !IsSpace(a[0])
    requires '{' !in a && '}' !in a && '{' !in b && '}' !in b
    ensures var forms := a + ("," + b);
            '}' !in forms && '{' !in forms && (forms == [] || !IsSpace(forms[0]))
  {
    var forms := a + ("," + b);
    assert forms[0] == if a == [] then ',' else a[0];
  }



  /** The forms "a,b" of a count operator under the English rule. */
  lemma TwoFormsUnderEnglish(tok: Token, c: string, a: string, b: string, v: Param)
    requires tok.count == Some(c) && tok.sex.None? && tok.forms == a + ("," + b)
    requires ',' !in a && '|' !in a && ',' !in b && '|' !in b
    ensures Select(English, tok, [(c, v)]).text == if v.number == Integer(1) then a else b
  {
    var forms := tok.forms;
    IndexOfAfterPrefix(a, "," + b, ',');
    assert forms[..|a|] == a && forms[|a| + 1..] == b;
    assert ParamOf([(c, v)], c) == Some(v);
    EnglishTwoSlots(tok, [(c, v)], |a|);
  }
}
