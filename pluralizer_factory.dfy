/**
 * PluralizerFactory: the registry from language code to plural rule, with a
 * default language whose rule must exist from construction on.
 */
module Pluralizers {
  import opened Wrappers
  import opened Plural

  /** The built-in registrations: Russian, English, and English for Italian. */
  function Builtin(): (rules: map<string, Rule>)
    ensures rules.Keys == {"ru", "en", "it"}
  {
    map["ru" := Russian, "en" := English, "it" := English]
  }

  /** The default language a constructor argument stands for: "en" when it is falsy. */
  function DefaultLanguage(arg: Option<string>): (lang: string)
    ensures lang != ""
    ensures arg.None? || arg.value == "" ==> lang == "en"
    ensures arg.Some? && arg.value != "" ==> lang == arg.value
  {
    if arg.None? || arg.value == "" then "en" else arg.value
  }

  class PluralizerFactory {
    var defaultLang: string
    var pluralizers: map<string, Rule>

    /** The invariant construction establishes: the default language has a rule. */
    ghost predicate Valid()
      reads this
    {
      defaultLang in pluralizers
    }

    constructor Init(defaultLang: string, pluralizers: map<string, Rule>)
      requires defaultLang in pluralizers
      ensures Valid()
      ensures this.defaultLang == defaultLang && this.pluralizers == pluralizers
    {
      this.defaultLang := defaultLang;
      this.pluralizers := pluralizers;
    }

    /**
     * new PluralizerFactory(defaultLang): unless the default language is one of the
     * built-in registrations, fails with the message
     * "Unable to lookup pluralizer for fallback language " followed by the language.
     */
    static method Create(arg: Option<string>) returns (r: Result<PluralizerFactory, string>)
      ensures r.Success? <==> DefaultLanguage(arg) in {"ru", "en", "it"}
      ensures r.Success? ==> fresh(r.value) && r.value.Valid()
                             && r.value.defaultLang == DefaultLanguage(arg)
                             && r.value.pluralizers == Builtin()
      ensures r.Failure? ==>
                r.error == "Unable to lookup pluralizer for fallback language " + DefaultLanguage(arg)
    {
      var lang := DefaultLanguage(arg);
      var rules := Builtin();
      if lang !in rules {
        return Failure("Unable to lookup pluralizer for fallback language " + lang);
      }
      var f := new PluralizerFactory.Init(lang, rules);
      return Success(f);
    }

    /** getPluralizer: a rule for a registered language, None (null) otherwise. */
    function GetPluralizer(lang: string): (r: Option<Rule>)
      reads this
      ensures r.None? <==> lang !in pluralizers
      ensures r.Some? ==> r.value == pluralizers[lang]
    {
      if lang in pluralizers then Some(pluralizers[lang]) else None
    }

    /** getDefaultPluralizer: total on every valid factory. */
    function GetDefaultPluralizer(): (r: Rule)
      reads this
      requires Valid()
      ensures GetPluralizer(defaultLang) == Some(r)
    {
      pluralizers[defaultLang]
    }

    /** addPluralizer: register or overwrite one language; every other mapping stays. */
    method AddPluralizer(lang: string, rule: Rule)
      requires Valid()
      modifies this
      ensures Valid() && defaultLang == old(defaultLang)
      ensures GetPluralizer(lang) == Some(rule)
      ensures forall other :: other != lang ==> GetPluralizer(other) == old(GetPluralizer(other))
      ensures pluralizers == old(pluralizers)[lang := rule]
    {
      pluralizers := pluralizers[lang := rule];
    }
  }

  /** With no argument the factory defaults to English; any language outside the three fails. */
  lemma CreateOutcomes()
    ensures DefaultLanguage(None) == "en" && DefaultLanguage(Some("")) == "en"
    ensures DefaultLanguage(Some("ru")) in Builtin() && DefaultLanguage(Some("it")) in Builtin()
    ensures DefaultLanguage(Some("de")) !in Builtin()
  {
  }
}
