/**
 * I18nService: validates keys, looks templates up, interpolates parameters with
 * a per-language plural rule cached on first use, and reports every outcome to
 * the auditor. The auditor is modelled by the ghost sequence of (identity, event)
 * pairs it has been given.
 */
module Service {
  import opened Wrappers
  import opened Text
  import opened Plural
  import opened Storage
  import opened Operator
  import opened Interpolation
  import opened Pluralizers

  /** The audit events of AuditorBase. */
  datatype Event = KeyUse | KeyMiss | KeyInvalid | PluralizerMiss | KeywordMiss

  /** The numeric codes AuditorBase gives the events. */
  function Code(e: Event): (c: nat)
    ensures c < 5
    ensures e == KeyUse <==> c == 0
  {
    match e
    case KeyUse => 0
    case KeyMiss => 1
    case KeyInvalid => 2
    case PluralizerMiss => 3
    case KeywordMiss => 4
  }

  /** The characters a key may use: a-z, 0-9 and . # = { } [ ] - */
  predicate IsKeyChar(c: char) {
    ('a' <= c <= 'z') || ('0' <= c <= '9') || c == '.' || c == '#' || c == '='
    || c == '{' || c == '}' || c == '[' || c == ']' || c == '-'
  }

  function AllKeyChars(key: string): (ok: bool)
    ensures ok <==> forall i :: 0 <= i < |key| ==> IsKeyChar(key[i])
  {
    |key| == 0 || (IsKeyChar(key[0]) && AllKeyChars(key[1..]))
  }

  /** _checkKey: the whole key matches [a-z0-9.#={}\[\]\-]+ . */
  function CheckKey(key: string): (ok: bool)
    ensures ok <==> |key| >= 1 && forall i :: 0 <= i < |key| ==> IsKeyChar(key[i])
  {
    |key| >= 1 && AllKeyChars(key)
  }

  /** A valid key holds neither a slash (so it ends a storage key unambiguously) nor upper case. */
  lemma ValidKeyCharacters(key: string)
    requires CheckKey(key)
    ensures '/' !in key && '%' !in key && ' ' !in key
    ensures forall i :: 0 <= i < |key| ==> !('A' <= key[i] <= 'Z')
  {
  }

  /**
   * _getPluralizer on values: the cached rule, else the registry's rule, else the
   * default rule together with a pluralizer miss.
   */
  function LookupRule(cache: map<string, Rule>, rules: map<string, Rule>, defaultLang: string, lang: string)
    : (res: (Rule, bool))
    requires defaultLang in rules
    ensures res.1 <==> lang !in cache && lang !in rules
    ensures lang in cache ==> res.0 == cache[lang]
    ensures lang !in cache ==> res.0 == if lang in rules then rules[lang] else rules[defaultLang]
  {
    if lang in cache then (cache[lang], false)
    else if lang in rules then (rules[lang], false)
    else (rules[defaultLang], true)
  }

  /** Whether the operator's count parameter is named but missing: a key miss is audited. */
  predicate CountMissing(t: Token, params: Params) {
    t.count.Some? && ParamOf(params, t.count.value).None?
  }

  /** The key misses that resolving the operators logs, one per operator whose count is missing. */
  function KeyMisses(tokens: seq<Token>, params: Params): (events: seq<Event>)
    ensures KeyUse !in events && KeyInvalid !in events && PluralizerMiss !in events && KeywordMiss !in events
    ensures |events| <= |tokens|
  {
    if |tokens| == 0 then []
    else
      KeyMisses(tokens[..|tokens| - 1], params)
      + (if CountMissing(tokens[|tokens| - 1], params) then [KeyMiss] else [])
  }

  /**
   * The events of a call that found its template and has parameters: KeyUse, the
   * pluralizer miss if there was one, then the key misses of the operators.
   */
  function HitEvents(miss: bool, tokens: seq<Token>, params: Params): (events: seq<Event>)
    ensures |events| >= 1 && events[0] == KeyUse
    ensures PluralizerMiss in events <==> miss
    ensures miss ==> events[1] == PluralizerMiss
    ensures forall i :: (if miss then 2 else 1) <= i < |events| ==> events[i] == KeyMiss
    ensures forall i :: 1 <= i < |events| ==> events[i] == KeyMiss || events[i] == PluralizerMiss
    ensures KeywordMiss !in events
  {
    var head := [KeyUse] + (if miss then [PluralizerMiss] else []);
    var misses := KeyMisses(tokens, params);
    assert forall i :: |head| <= i < |head| + |misses| ==> (head + misses)[i] == misses[i - |head|];
    head + misses
  }

  /** What a translate call returns, which events it audits, and the pluralizer cache after it. */
  datatype Outcome = Outcome(text: string, events: seq<Event>, cache: map<string, Rule>)

  /** The translate ladder on values: invalid key, missing template, no parameters, interpolation. */
  function TranslateSpec(entries: map<string, string>, rules: map<string, Rule>, defaultLang: string,
                         cache: map<string, Rule>, id: TranslationId, params: Params): (o: Outcome)
    requires defaultLang in rules
    ensures |o.events| >= 1
    ensures o.events[0] == (if !CheckKey(id.key) then KeyInvalid
                            else if BuildKey(id) !in entries then KeyMiss else KeyUse)
  {
    if !CheckKey(id.key) then Outcome("", [KeyInvalid], cache)
    else
      match Lookup(entries, id)
      case None => Outcome(id.key, [KeyMiss], cache)
      case Some(tpl) =>
        if |params| == 0 then Outcome(tpl, [KeyUse], cache)
        else
          var (rule, miss) := LookupRule(cache, rules, defaultLang, id.lang);
          Outcome(Interpolated(rule, tpl, params), HitEvents(miss, Scan(tpl, 0), params), cache[id.lang := rule])
  }

  /** An invalid key yields "" and exactly one KeyInvalid, whatever the store holds. */
  lemma InvalidKeyOutcome(entries: map<string, string>, other: map<string, string>, rules: map<string, Rule>,
                          defaultLang: string, cache: map<string, Rule>, id: TranslationId, params: Params)
    requires defaultLang in rules && !CheckKey(id.key)
    ensures TranslateSpec(entries, rules, defaultLang, cache, id, params) == Outcome("", [KeyInvalid], cache)
    ensures TranslateSpec(entries, rules, defaultLang, cache, id, params)
         == TranslateSpec(other, rules, defaultLang, cache, id, params)
  {
  }

  /** A valid key without a template echoes the key and audits exactly one KeyMiss. */
  lemma MissingTemplateOutcome(entries: map<string, string>, rules: map<string, Rule>, defaultLang: string,
                               cache: map<string, Rule>, id: TranslationId, params: Params)
    requires defaultLang in rules && CheckKey(id.key) && BuildKey(id) !in entries
    ensures TranslateSpec(entries, rules, defaultLang, cache, id, params) == Outcome(id.key, [KeyMiss], cache)
  {
  }

  /** Without parameters the template comes back verbatim, even with placeholders in it. */
  lemma NoParamsOutcome(entries: map<string, string>, rules: map<string, Rule>, defaultLang: string,
                        cache: map<string, Rule>, id: TranslationId)
    requires defaultLang in rules && CheckKey(id.key) && BuildKey(id) in entries
    ensures TranslateSpec(entries, rules, defaultLang, cache, id, [])
         == Outcome(entries[BuildKey(id)], [KeyUse], cache)
  {
  }

  /** A stored template without "%{" is returned unchanged whatever the parameters. */
  lemma PlaceholderFreeOutcome(entries: map<string, string>, rules: map<string, Rule>, defaultLang: string,
                               cache: map<string, Rule>, id: TranslationId, params: Params)
    requires defaultLang in rules && CheckKey(id.key) && BuildKey(id) in entries
    requires !Contains(entries[BuildKey(id)], "%{")
    ensures TranslateSpec(entries, rules, defaultLang, cache, id, params).text == entries[BuildKey(id)]
  {
  }

  /**
   * After the first event come at most one PluralizerMiss, right after it, and
   * then only KeyMiss events; KeywordMiss is never audited.
   */
  lemma OutcomeLaterEvents(entries: map<string, string>, rules: map<string, Rule>, defaultLang: string,
                           cache: map<string, Rule>, id: TranslationId, params: Params)
    requires defaultLang in rules
    ensures var o := TranslateSpec(entries, rules, defaultLang, cache, id, params);
            && (forall i :: 1 <= i < |o.events| ==> o.events[i] == KeyMiss || o.events[i] == PluralizerMiss)
            && (forall i :: 2 <= i < |o.events| ==> o.events[i] == KeyMiss)
            && KeywordMiss !in o.events
  {
    var o := TranslateSpec(entries, rules, defaultLang, cache, id, params);
    if CheckKey(id.key) && BuildKey(id) in entries && |params| > 0 {
      var tpl := entries[BuildKey(id)];
      var miss := LookupRule(cache, rules, defaultLang, id.lang).1;
      assert o.events == HitEvents(miss, Scan(tpl, 0), params);
    }
  }

  /**
   * A PluralizerMiss is audited only for a language the cache did not hold, and
   * the cache afterwards holds it; the cache never loses a language.
   */
  lemma OutcomeCache(entries: map<string, string>, rules: map<string, Rule>, defaultLang: string,
                     cache: map<string, Rule>, id: TranslationId, params: Params)
    requires defaultLang in rules
    ensures var o := TranslateSpec(entries, rules, defaultLang, cache, id, params);
            && (PluralizerMiss in o.events ==> id.lang !in cache && id.lang in o.cache)
            && cache.Keys <= o.cache.Keys
  {
    var o := TranslateSpec(entries, rules, defaultLang, cache, id, params);
    if CheckKey(id.key) && BuildKey(id) in entries && |params| > 0 {
      var tpl := entries[BuildKey(id)];
      var miss := LookupRule(cache, rules, defaultLang, id.lang).1;
      assert o.events == HitEvents(miss, Scan(tpl, 0), params);
    }
  }

  /** The audit trail the auditor receives for one call. */
  function Tagged(id: TranslationId, events: seq<Event>): (log: seq<(TranslationId, Event)>)
    ensures |log| == |events| && forall i :: 0 <= i < |events| ==> log[i] == (id, events[i])
  {
    seq(|events|, i requires 0 <= i < |events| => (id, events[i]))
  }

  /**
   * The audit invariant of a service: every language that had a pluralizer miss
   * is cached, and no language had two.
   */
  ghost predicate AuditInvariant(audit: seq<(TranslationId, Event)>, cache: map<string, Rule>) {
    && (forall i :: 0 <= i < |audit| && audit[i].1 == PluralizerMiss ==> audit[i].0.lang in cache)
    && MissOncePerLanguage(audit)
  }

  /** PluralizerMiss is logged at most once per language. */
  ghost predicate MissOncePerLanguage(audit: seq<(TranslationId, Event)>) {
    forall i, j :: 0 <= i < j < |audit| && audit[i].1 == PluralizerMiss && audit[j].1 == PluralizerMiss
                   ==> audit[i].0.lang != audit[j].0.lang
  }

  /** Logging a pluralizer miss for an uncached language, then caching a rule for it, keeps the invariant. */
  lemma InvariantAfterMiss(audit: seq<(TranslationId, Event)>, cache: map<string, Rule>,
                           id: TranslationId, rule: Rule)
    requires AuditInvariant(audit, cache) && id.lang !in cache
    ensures AuditInvariant(audit + [(id, PluralizerMiss)], cache[id.lang := rule])
  {
    var a := audit + [(id, PluralizerMiss)];
    assert forall i :: 0 <= i < |audit| ==> a[i] == audit[i];
  }

  /** Logging any other event keeps the invariant. */
  lemma InvariantAfterEvent(audit: seq<(TranslationId, Event)>, cache: map<string, Rule>,
                            id: TranslationId, e: Event)
    requires AuditInvariant(audit, cache) && e != PluralizerMiss
    ensures AuditInvariant(audit + [(id, e)], cache)
  {
    var a := audit + [(id, e)];
    assert forall i :: 0 <= i < |audit| ==> a[i] == audit[i];
  }

  /** Events other than PluralizerMiss leave the audit invariant intact. */
  lemma InvariantAfterOtherEvents(audit: seq<(TranslationId, Event)>, cache: map<string, Rule>,
                                  id: TranslationId, events: seq<Event>)
    requires AuditInvariant(audit, cache) && PluralizerMiss !in events
    ensures AuditInvariant(audit + Tagged(id, events), cache)
  {
    var a := audit + Tagged(id, events);
    assert forall i :: 0 <= i < |audit| ==> a[i] == audit[i];
    assert forall i :: |audit| <= i < |a| ==> a[i] == (id, events[i - |audit|]);
  }

  lemma TaggedAppend(id: TranslationId, a: seq<Event>, b: seq<Event>)
    ensures Tagged(id, a + b) == Tagged(id, a) + Tagged(id, b)
  {
  }

  /** One more token extends the substitutions by its resolution and the trail by its key miss. */
  lemma ResolveStep(id: TranslationId, rule: Rule, tokens: seq<Token>, i: nat, params: Params)
    requires i < |tokens|
    ensures OperatorSubs(rule, tokens[..i + 1], params)
            == OperatorSubs(rule, tokens[..i], params) + [Substitution(tokens[i].text, Select(rule, tokens[i], params).text)]
    ensures Tagged(id, KeyMisses(tokens[..i + 1], params))
            == Tagged(id, KeyMisses(tokens[..i], params))
               + (if CountMissing(tokens[i], params) then [(id, KeyMiss)] else [])
  {
    assert tokens[..i + 1] == tokens[..i] + [tokens[i]];
    OperatorSubsSnoc(rule, tokens[..i], tokens[i], params);
    assert tokens[..i + 1][..i] == tokens[..i];
    var step := if CountMissing(tokens[i], params) then [KeyMiss] else [];
    assert KeyMisses(tokens[..i + 1], params) == KeyMisses(tokens[..i], params) + step;
    TaggedAppend(id, KeyMisses(tokens[..i], params), step);
  }

  lemma TaggedOne(id: TranslationId, e: Event)
    ensures Tagged(id, [e]) == [(id, e)]
  {
  }

  lemma InvariantAfterCaching(audit: seq<(TranslationId, Event)>, cache: map<string, Rule>, lang: string, rule: Rule)
    requires AuditInvariant(audit, cache)
    ensures AuditInvariant(audit, cache[lang := rule])
  {
  }

  class I18nService {
    const storage: KeyValueStorage
    const factory: PluralizerFactory
    /** The per-language cache of plural rules (_pluralizers). */
    var pluralizers: map<string, Rule>
    /** Everything given to the auditor so far. */
    ghost var audit: seq<(TranslationId, Event)>

    ghost predicate Valid()
      reads this, factory
    {
      factory.Valid() && AuditInvariant(audit, pluralizers)
    }

    constructor (storage: KeyValueStorage, factory: PluralizerFactory)
      requires factory.Valid()
      ensures Valid()
      ensures this.storage == storage && this.factory == factory
      ensures pluralizers == map[] && audit == []
    {
      this.storage := storage;
      this.factory := factory;
      pluralizers := map[];
      audit := [];
    }

    /** The auditor's log call. */
    ghost method Log(id: TranslationId, e: Event)
      modifies this`audit
      ensures audit == old(audit) + [(id, e)]
    {
      audit := audit + [(id, e)];
    }

    /** isExist: whether a template is stored; a function, so it audits nothing. */
    function IsExist(id: TranslationId): (b: bool)
      reads storage
      ensures b <==> BuildKey(id) in storage.entries
    {
      storage.Get(id).Some?
    }

    /** _getPluralizer: consult the registry only while the language is not cached. */
    method GetPluralizer(id: TranslationId) returns (rule: Rule)
      requires Valid()
      modifies this`pluralizers, this`audit
      ensures Valid()
      ensures var (r, miss) := LookupRule(old(pluralizers), factory.pluralizers, factory.defaultLang, id.lang);
              && rule == r
              && pluralizers == old(pluralizers)[id.lang := r]
              && audit == old(audit) + (if miss then [(id, PluralizerMiss)] else [])
    {
      if id.lang !in pluralizers {
        var found := factory.GetPluralizer(id.lang);
        if found.Some? {
          InvariantAfterCaching(audit, pluralizers, id.lang, found.value);
          pluralizers := pluralizers[id.lang := found.value];
        }
      }
      if id.lang !in pluralizers {
        var fallback := factory.GetDefaultPluralizer();
        InvariantAfterMiss(audit, pluralizers, id, fallback);
        Log(id, PluralizerMiss);
        pluralizers := pluralizers[id.lang := fallback];
      }
      rule := pluralizers[id.lang];
    }

    /** _resolveOperator: Select, plus the key miss it audits for a missing count parameter. */
    method ResolveOperator(id: TranslationId, rule: Rule, t: Token, params: Params) returns (text: string)
      modifies this`audit
      ensures text == Select(rule, t, params).text
      ensures audit == old(audit) + (if CountMissing(t, params) then [(id, KeyMiss)] else [])
    {
      var byForm := Split(t.forms, ',');
      var pluralIdx := 0;
      if t.count.None? {
        pluralIdx := 0;
      } else if ParamOf(params, t.count.value).None? {
        Log(id, KeyMiss);
        pluralIdx := 0;
      } else {
        var idx := GetFormIdx(rule, ParamOf(params, t.count.value).value.number);
        pluralIdx := if idx < |byForm| then idx else 0;
      }
      assert pluralIdx == PluralIndex(rule, t.count, params, |byForm|).0;
      var bySex := Split(byForm[pluralIdx], '|');
      var sex := 0;
      if t.sex.None? {
        sex := 0;
      } else if ParamOf(params, t.sex.value).None? {
        sex := 0;
      } else {
        var index := ParseIndex(ParamOf(params, t.sex.value).value.text);
        sex := if index.Some? && index.value < |bySex| then index.value else 0;
      }
      assert sex == SexIndex(t.sex, params, |bySex|);
      text := bySex[sex];
    }

    /** The first loop of _interpolate: one placeholder entry per parameter. */
    static method PlaceholderSubs(params: Params) returns (subs: seq<Substitution>)
      ensures subs == SimpleSubs(params)
    {
      subs := [];
      for i := 0 to |params|
        invariant subs == SimpleSubs(params[..i])
      {
        subs := subs + [Substitution(Placeholder(params[i].0), params[i].1.text)];
        assert params[..i + 1][..i] == params[..i];
      }
      assert params[..|params|] == params;
    }

    /** The loop of _interpolate that resolves each operator found in the template. */
    method ResolveAll(id: TranslationId, rule: Rule, tokens: seq<Token>, params: Params)
      returns (subs: seq<Substitution>)
      modifies this`audit
      ensures subs == OperatorSubs(rule, tokens, params)
      ensures audit == old(audit) + Tagged(id, KeyMisses(tokens, params))
    {
      subs := [];
      for i := 0 to |tokens|
        invariant subs == OperatorSubs(rule, tokens[..i], params)
        invariant audit == old(audit) + Tagged(id, KeyMisses(tokens[..i], params))
      {
        var t := tokens[i];
        var text := ResolveOperator(id, rule, t, params);
        ResolveStep(id, rule, tokens, i, params);
        AppendAssociates(old(audit), Tagged(id, KeyMisses(tokens[..i], params)),
                         if CountMissing(t, params) then [(id, KeyMiss)] else []);
        subs := subs + [Substitution(t.text, text)];
      }
      assert tokens[..|tokens|] == tokens;
    }

    /** _interpolate: build the search/replace list, then apply it to the template. */
    method Interpolate(id: TranslationId, str: string, params: Params) returns (r: string)
      requires Valid()
      modifies this`pluralizers, this`audit
      ensures Valid()
      ensures var (rule, miss) := LookupRule(old(pluralizers), factory.pluralizers, factory.defaultLang, id.lang);
              && r == Interpolated(rule, str, params)
              && pluralizers == old(pluralizers)[id.lang := rule]
              && audit == old(audit) + Tagged(id, (if miss then [PluralizerMiss] else [])
                                                  + KeyMisses(Scan(str, 0), params))
    {
      var simple := PlaceholderSubs(params);
      var tokens := FindOperators(str);
      ghost var start := audit;
      var rule := GetPluralizer(id);
      ghost var miss := LookupRule(old(pluralizers), factory.pluralizers, factory.defaultLang, id.lang).1;
      assert audit == start + Tagged(id, if miss then [PluralizerMiss] else []);
      ghost var beforeOps := audit;
      var operators := ResolveAll(id, rule, tokens, params);
      InvariantAfterOtherEvents(beforeOps, pluralizers, id, KeyMisses(tokens, params));
      r := ApplySubstitutions(str, simple + operators);
      ghost var pluralizerEvents := if miss then [PluralizerMiss] else [];
      ghost var keyEvents := KeyMisses(tokens, params);
      TaggedAppend(id, pluralizerEvents, keyEvents);
      AppendAssociates(start, Tagged(id, pluralizerEvents), Tagged(id, keyEvents));
    }

    /** translate: the ladder invalid key, missing template, no parameters, interpolation. */
    method Translate(id: TranslationId, params: Params) returns (r: string)
      requires Valid()
      modifies this`pluralizers, this`audit
      ensures Valid()
      ensures var o := TranslateSpec(storage.entries, factory.pluralizers, factory.defaultLang,
                                     old(pluralizers), id, params);
              r == o.text && pluralizers == o.cache && audit == old(audit) + Tagged(id, o.events)
      ensures MissOncePerLanguage(audit)
    {
      ghost var o := TranslateSpec(storage.entries, factory.pluralizers, factory.defaultLang, pluralizers, id, params);
      if !CheckKey(id.key) {
        assert o == Outcome("", [KeyInvalid], pluralizers);
        InvariantAfterEvent(audit, pluralizers, id, KeyInvalid);
        Log(id, KeyInvalid);
        TaggedOne(id, KeyInvalid);
        return "";
      }
      var str := storage.Get(id);
      if str.None? {
        assert o == Outcome(id.key, [KeyMiss], pluralizers);
        InvariantAfterEvent(audit, pluralizers, id, KeyMiss);
        Log(id, KeyMiss);
        TaggedOne(id, KeyMiss);
        return id.key;
      }
      InvariantAfterEvent(audit, pluralizers, id, KeyUse);
      Log(id, KeyUse);
      TaggedOne(id, KeyUse);
      var length := 0;
      for i := 0 to |params|
        invariant length == i
      {
        length := length + 1;
      }
      if length == 0 {
        assert o == Outcome(str.value, [KeyUse], old(pluralizers));
        return str.value;
      }
      ghost var (rule, miss) := LookupRule(old(pluralizers), factory.pluralizers, factory.defaultLang, id.lang);
      ghost var tokens := Scan(str.value, 0);
      assert o == Outcome(Interpolated(rule, str.value, params), HitEvents(miss, tokens, params),
                          old(pluralizers)[id.lang := rule]);
      r := Interpolate(id, str.value, params);
      ghost var pluralizerEvents := if miss then [PluralizerMiss] else [];
      ghost var later := pluralizerEvents + KeyMisses(tokens, params);
      AppendAssociates([KeyUse], pluralizerEvents, KeyMisses(tokens, params));
      TaggedAppend(id, [KeyUse], later);
      AppendAssociates(old(audit), Tagged(id, [KeyUse]), Tagged(id, later));
    }
  }
}
