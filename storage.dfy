/**
 * Translation identities and the key-value store of templates. A template is
 * addressed by the string lang + "/" + sectionId + "/" + key.
 */
module Storage {
  import opened Wrappers
  import opened Text

  /** A section id is a number or a name; JavaScript renders it into the storage key. */
  datatype SectionId = SectionNumber(n: int) | SectionName(name: string)

  datatype TranslationId = TranslationId(key: string, lang: string, sectionId: SectionId)

  /** A stored template with the identity it is filed under. */
  datatype Translation = Translation(translation: string, id: TranslationId)

  /** The section id as it appears inside the storage key. */
  function SectionText(s: SectionId): (t: string)
    ensures s.SectionName? ==> t == s.name
    ensures s.SectionNumber? ==> t != "" && '/' !in t
    ensures s.SectionNumber? && s.n >= 0 ==> ParseIndex(t) == Some(s.n)
  {
    match s
    case SectionNumber(n) =>
      if n >= 0 then ParseNatToString(n); IntToString(n) else IntToString(n)
    case SectionName(name) => name
  }

  /** A section argument is falsy when it is absent, the number 0 or the empty string. */
  predicate IsFalsy(section: Option<SectionId>) {
    section.None? || section == Some(SectionNumber(0)) || section == Some(SectionName(""))
  }

  /** The TranslationId constructor: a falsy section id becomes 0. */
  function NewTranslationId(key: string, lang: string, section: Option<SectionId>): (id: TranslationId)
    ensures id.key == key && id.lang == lang
    ensures IsFalsy(section) <==> id.sectionId == SectionNumber(0)
    ensures !IsFalsy(section) ==> Some(id.sectionId) == section
  {
    TranslationId(key, lang, if IsFalsy(section) then SectionNumber(0) else section.value)
  }

  /** _buildKey: the storage key of an identity. */
  function BuildKey(id: TranslationId): string {
    id.lang + "/" + SectionText(id.sectionId) + "/" + id.key
  }

  /** A storage key holds the language, a slash, the section text, a slash and the key, in that order. */
  lemma BuildKeyLayout(id: TranslationId)
    ensures var k, n, x := BuildKey(id), |id.lang|, |SectionText(id.sectionId)|;
            && |k| == n + x + |id.key| + 2
            && k[..n] == id.lang && k[n] == '/'
            && k[n + 1..n + 1 + x] == SectionText(id.sectionId) && k[n + 1 + x] == '/'
            && k[n + x + 2..] == id.key
  {
  }

  /** Without a section, a template is filed under lang/0/key. */
  lemma DefaultSectionKey(key: string, lang: string)
    ensures BuildKey(NewTranslationId(key, lang, None)) == lang + "/0/" + key
  {
  }

  /**
   * Distinct identities get distinct storage keys as long as neither language nor
   * section text contains a slash (keys may contain anything). Both directions.
   */
  lemma {:induction false} BuildKeyInjective(a: TranslationId, b: TranslationId)
    requires '/' !in a.lang && '/' !in SectionText(a.sectionId)
    requires '/' !in b.lang && '/' !in SectionText(b.sectionId)
    ensures BuildKey(a) == BuildKey(b)
        <==> a.lang == b.lang && SectionText(a.sectionId) == SectionText(b.sectionId) && a.key == b.key
  {
    if BuildKey(a) == BuildKey(b) {
      var sa, sb := SectionText(a.sectionId), SectionText(b.sectionId);
      assert BuildKey(a) == a.lang + "/" + (sa + "/" + a.key);
      assert BuildKey(b) == b.lang + "/" + (sb + "/" + b.key);
      SlashSplit(a.lang, sa + "/" + a.key, b.lang, sb + "/" + b.key);
      SlashSplit(sa, a.key, sb, b.key);
    }
  }

  /** A string joined at its first slash splits back into the same two halves. */
  lemma SlashSplit(x: string, y: string, x': string, y': string)
    requires '/' !in x && '/' !in x'
    requires x + "/" + y == x' + "/" + y'
    ensures x == x' && y == y'
  {
    var s := x + "/" + y;
    assert s == x + ("/" + y) && s == x' + ("/" + y');
    IndexOfAfterPrefix(x, "/" + y, '/');
    IndexOfAfterPrefix(x', "/" + y', '/');
    assert x == s[..|x|];
    assert x' == s[..|x'|];
    assert y == s[|x| + 1..];
  }

  /** With a slash in the language, two different identities share one storage key. */
  lemma SlashCollision()
    ensures BuildKey(TranslationId("k", "a/b", SectionName("c")))
         == BuildKey(TranslationId("k", "a", SectionName("b/c")))
  {
  }

  /** The store's state after set: the template filed under the translation's key. */
  function Put(entries: map<string, string>, t: Translation): (m: map<string, string>)
    ensures BuildKey(t.id) in m && m[BuildKey(t.id)] == t.translation
    ensures forall k :: k != BuildKey(t.id) ==> (k in m <==> k in entries)
    ensures forall k :: k != BuildKey(t.id) && k in m ==> m[k] == entries[k]
  {
    entries[BuildKey(t.id) := t.translation]
  }

  /** batchSet on values: set applied to each translation from left to right. */
  function PutAll(entries: map<string, string>, ts: seq<Translation>): (m: map<string, string>)
    ensures entries.Keys <= m.Keys
    ensures forall j :: 0 <= j < |ts| ==> BuildKey(ts[j].id) in m
    decreases |ts|
  {
    if |ts| == 0 then entries
    else
      assert forall j :: 1 <= j < |ts| ==> ts[1..][j - 1] == ts[j];
      PutAll(Put(entries, ts[0]), ts[1..])
  }

  /** batchDelete on values: remove applied to each identity from left to right. */
  function RemoveAll(entries: map<string, string>, ids: seq<TranslationId>): (m: map<string, string>)
    ensures forall k :: k in m <==> k in entries && forall j :: 0 <= j < |ids| ==> BuildKey(ids[j]) != k
    ensures forall k :: k in m ==> m[k] == entries[k]
    decreases |ids|
  {
    if |ids| == 0 then entries
    else
      assert forall j :: 1 <= j < |ids| ==> ids[1..][j - 1] == ids[j];
      RemoveAll(entries - {BuildKey(ids[0])}, ids[1..])
  }

  /** The template get returns from a store. */
  function Lookup(entries: map<string, string>, id: TranslationId): (r: Option<string>)
    ensures r.Some? <==> BuildKey(id) in entries
    ensures r.Some? ==> r.value == entries[BuildKey(id)]
  {
    if BuildKey(id) in entries then Some(entries[BuildKey(id)]) else None
  }

  /** After batchSet the last translation filed under a key wins. */
  lemma {:induction false} PutAllLastWins(entries: map<string, string>, ts: seq<Translation>, i: int)
    requires 0 <= i < |ts|
    requires forall j :: i < j < |ts| ==> BuildKey(ts[j].id) != BuildKey(ts[i].id)
    ensures Lookup(PutAll(entries, ts), ts[i].id) == Some(ts[i].translation)
    decreases |ts|
  {
    if i == 0 {
      PutAllOthers(Put(entries, ts[0]), ts[1..], BuildKey(ts[0].id));
    } else {
      PutAllLastWins(Put(entries, ts[0]), ts[1..], i - 1);
    }
  }

  /** batchSet leaves untouched every key none of its translations is filed under. */
  lemma {:induction false} PutAllOthers(entries: map<string, string>, ts: seq<Translation>, k: string)
    requires forall j :: 0 <= j < |ts| ==> BuildKey(ts[j].id) != k
    ensures k in PutAll(entries, ts) <==> k in entries
    ensures k in entries ==> PutAll(entries, ts)[k] == entries[k]
    decreases |ts|
  {
    if |ts| > 0 {
      PutAllOthers(Put(entries, ts[0]), ts[1..], k);
    }
  }

  /** Every identity passed to batchDelete reads back as missing. */
  lemma RemoveAllMissing(entries: map<string, string>, ids: seq<TranslationId>, i: int)
    requires 0 <= i < |ids|
    ensures Lookup(RemoveAll(entries, ids), ids[i]) == None
  {
  }

  /** KeyValueStorage: the dictionary of templates, updated in place. */
  class KeyValueStorage {
    var entries: map<string, string>

    constructor ()
      ensures entries == map[]
    {
      entries := map[];
    }

    /** get: the template filed under the identity's key, or None (null). */
    function Get(id: TranslationId): (r: Option<string>)
      reads this
      ensures r.Some? <==> BuildKey(id) in entries
      ensures r.Some? ==> r.value == entries[BuildKey(id)]
    {
      Lookup(entries, id)
    }

    /** set: file the template under its key, overwriting, and nothing else. */
    method Set(t: Translation)
      modifies this
      ensures entries == Put(old(entries), t)
      ensures Get(t.id) == Some(t.translation)
    {
      entries := entries[BuildKey(t.id) := t.translation];
    }

    /** remove: drop the identity's key, and nothing else. */
    method Remove(id: TranslationId)
      modifies this
      ensures entries == old(entries) - {BuildKey(id)}
      ensures Get(id) == None
    {
      entries := entries - {BuildKey(id)};
    }

    /** batchSet: set each translation from left to right. */
    method BatchSet(ts: seq<Translation>)
      modifies this
      ensures entries == PutAll(old(entries), ts)
    {
      var i := 0;
      while i < |ts|
        invariant 0 <= i <= |ts|
        invariant PutAll(entries, ts[i..]) == PutAll(old(entries), ts)
      {
        assert ts[i..][1..] == ts[i + 1..];
        Set(ts[i]);
        i := i + 1;
      }
    }

    /** batchDelete: remove each identity from left to right. */
    method BatchDelete(ids: seq<TranslationId>)
      modifies this
      ensures entries == RemoveAll(old(entries), ids)
    {
      var i := 0;
      while i < |ids|
        invariant 0 <= i <= |ids|
        invariant RemoveAll(entries, ids[i..]) == RemoveAll(old(entries), ids)
      {
        assert ids[i..][1..] == ids[i + 1..];
        Remove(ids[i]);
        i := i + 1;
      }
    }
  }
}
