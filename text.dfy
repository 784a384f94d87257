/**
 * The JavaScript string built-ins the engine relies on, written out:
 * character classes of regular expressions (\w and \s), Array.prototype.indexOf,
 * String.prototype.indexOf/replace/split, and the decimal rendering and parsing of
 * array indices used by property lookups such as bySex.hasOwnProperty(sex.toString()).
 */
module Text {
  import opened Wrappers

  /**
   * The regular-expression class \w: ASCII letters, digits and underscore. None of
   * the operator's punctuation is a word character.
   */
  function IsWordChar(c: char): (b: bool)
    ensures b ==> c != '%' && c != '{' && c != '}' && c != ',' && c != '|' && c != '-' && c != '>'
  {
    ('a' <= c <= 'z') || ('A' <= c <= 'Z') || ('0' <= c <= '9') || c == '_'
  }

  /**
   * The regular-expression class \s: ECMAScript white space and line terminators.
   * White space is neither a word character nor the operator's punctuation.
   */
  function IsSpace(c: char): (b: bool)
    ensures b ==> !IsWordChar(c)
    ensures b ==> c != '%' && c != '{' && c != '}' && c != ',' && c != '|' && c != '-' && c != '>'
  {
    c == ' ' || ('\t' <= c <= '\r') || (c >= '\U{00A0}' && IsWideSpace(c))
  }

  /** The white space beyond ASCII. */
  function IsWideSpace(c: char): bool {
    c == '\U{00A0}' || c == '\U{1680}' || ('\U{2000}' <= c <= '\U{200A}')
    || c == '\U{2028}' || c == '\U{2029}' || c == '\U{202F}' || c == '\U{205F}'
    || c == '\U{3000}' || c == '\U{FEFF}'
  }

  /** Array.prototype.indexOf: the first position of x in s, or -1. */
  function IndexOf<T(==)>(s: seq<T>, x: T): (i: int)
    ensures -1 <= i < |s|
    ensures i == -1 <==> x !in s
    ensures 0 <= i ==> s[i] == x && x !in s[..i]
  {
    if |s| == 0 then -1
    else if s[0] == x then 0
    else
      var j := IndexOf(s[1..], x);
      assert s[1..][..if j < 0 then 0 else j] == s[1..1 + if j < 0 then 0 else j];
      if j < 0 then -1 else j + 1
  }

  /** pat occurs in s starting at position j. */
  predicate OccursAt(s: string, pat: string, j: int) {
    0 <= j && j + |pat| <= |s| && s[j..j + |pat|] == pat
  }

  /** An occurrence of x + y is an occurrence of x followed by one of y. */
  lemma OccursSplit(s: string, x: string, y: string, p: int)
    requires OccursAt(s, x + y, p)
    ensures OccursAt(s, x, p) && OccursAt(s, y, p + |x|)
  {
    assert s[p..p + |x|] == (x + y)[..|x|];
    assert s[p + |x|..p + |x| + |y|] == (x + y)[|x|..];
  }

  /** An occurrence of x followed by one of y is an occurrence of x + y. */
  lemma OccursJoin(s: string, x: string, y: string, p: int)
    requires OccursAt(s, x, p) && OccursAt(s, y, p + |x|)
    ensures OccursAt(s, x + y, p)
  {
    assert s[p..p + |x| + |y|] == s[p..p + |x|] + s[p + |x|..p + |x| + |y|];
  }

  /** A slice cut in two is the concatenation of its halves. */
  lemma SliceSplit(s: string, a: nat, b: nat, c: nat)
    requires a <= b <= c <= |s|
    ensures s[a..c] == s[a..b] + s[b..c]
  {
  }

  ghost predicate Contains(s: string, pat: string) {
    exists j :: OccursAt(s, pat, j)
  }

  /** An occurrence in s is an occurrence in any text that ends with s, shifted by what comes before. */
  lemma OccursAfter(front: string, s: string, pat: string, j: int)
    requires OccursAt(s, pat, j)
    ensures OccursAt(front + s, pat, |front| + j)
  {
    assert (front + s)[|front| + j..|front| + j + |pat|] == s[j..j + |pat|];
  }

  /** A text inside a text inside s is inside s. */
  lemma ContainsTransitive(s: string, mid: string, pat: string)
    requires Contains(s, mid) && Contains(mid, pat)
    ensures Contains(s, pat)
  {
    var i :| OccursAt(s, mid, i);
    var j :| OccursAt(mid, pat, j);
    forall k | 0 <= k < |pat|
      ensures s[i + j + k] == pat[k]
    {
      assert s[i + j + k] == s[i..i + |mid|][j + k] == mid[j + k] == mid[j..j + |pat|][k];
    }
    assert s[i + j..i + j + |pat|] == pat;
    assert OccursAt(s, pat, i + j);
  }

  /** Every character of a text inside s is a character of s. */
  lemma ContainsChars(s: string, pat: string)
    requires Contains(s, pat)
    ensures forall c :: c in pat ==> c in s
  {
    var i :| OccursAt(s, pat, i);
    forall c | c in pat
      ensures c in s
    {
      var k :| 0 <= k < |pat| && pat[k] == c;
      assert s[i + k] == s[i..i + |pat|][k];
    }
  }

  /** String.prototype.indexOf(pat, from): the first occurrence of pat at or after from, or -1. */
  function FindFrom(s: string, pat: string, from: nat): (i: int)
    requires from <= |s|
    ensures i == -1 || (from <= i && OccursAt(s, pat, i))
    ensures i == -1 ==> forall j :: from <= j ==> !OccursAt(s, pat, j)
    ensures 0 <= i ==> forall j :: from <= j < i ==> !OccursAt(s, pat, j)
    decreases |s| - from
  {
    if OccursAt(s, pat, from) then from
    else if from + |pat| >= |s| then -1
    else FindFrom(s, pat, from + 1)
  }

  function Find(s: string, pat: string): (i: int)
    ensures i == -1 <==> !Contains(s, pat)
    ensures 0 <= i ==> OccursAt(s, pat, i) && forall j :: 0 <= j < i ==> !OccursAt(s, pat, j)
  {
    FindFrom(s, pat, 0)
  }

  /**
   * String.prototype.replace with a string pattern: only the first occurrence
   * is replaced, and the replacement is taken literally.
   */
  function ReplaceFirst(s: string, pat: string, rep: string): (r: string)
    ensures !Contains(s, pat) ==> r == s
  {
    var i := Find(s, pat);
    if i < 0 then s else s[..i] + rep + s[i + |pat|..]
  }

  /** A string replaced as a whole by rep becomes rep. */
  lemma ReplaceWhole(s: string, rep: string)
    ensures ReplaceFirst(s, s, rep) == rep
  {
    assert OccursAt(s, s, 0);
    assert s[..0] + rep + s[|s|..] == rep;
  }

  /**
   * An occurrence of pat that lies after the first one survives the replacement,
   * shifted by the difference in length: replace touches the first occurrence only.
   */
  lemma ReplaceFirstKeepsLater(s: string, pat: string, rep: string, j: int)
    requires OccursAt(s, pat, j) && Find(s, pat) + |pat| <= j
    ensures OccursAt(ReplaceFirst(s, pat, rep), pat, j - |pat| + |rep|)
  {
    var i := Find(s, pat);
    var r := ReplaceFirst(s, pat, rep);
    var k := j - |pat| + |rep|;
    assert r == s[..i] + rep + s[i + |pat|..];
    assert r[k..k + |pat|] == s[j..j + |pat|];
  }

  /** Concatenation regroups freely. */
  lemma AppendAssociates<T>(x: seq<T>, y: seq<T>, z: seq<T>)
    ensures x + y + z == x + (y + z)
  {
  }

  /** String.prototype.split with a one-character separator. */
  function Split(s: string, sep: char): (parts: seq<string>)
    ensures |parts| >= 1
    ensures forall i :: 0 <= i < |parts| ==> sep !in parts[i]
    decreases |s|
  {
    var i := IndexOf(s, sep);
    if i < 0 then [s] else [s[..i]] + Split(s[i + 1..], sep)
  }

  /** Array.prototype.join, the inverse of Split. */
  function Join(parts: seq<string>, sep: char): (s: string)
    requires |parts| >= 1
  {
    if |parts| == 1 then parts[0] else parts[0] + [sep] + Join(parts[1..], sep)
  }

  lemma {:induction false} JoinSplit(s: string, sep: char)
    ensures Join(Split(s, sep), sep) == s
    decreases |s|
  {
    var i := IndexOf(s, sep);
    if i >= 0 {
      var rest := s[i + 1..];
      JoinSplit(rest, sep);
      SplitAt(s, sep, i);
      JoinCons(s[..i], Split(rest, sep), sep);
      assert s == s[..i] + [sep] + rest;
    }
  }

  /** Split cuts at the first separator and splits what follows it. */
  lemma SplitAt(s: string, sep: char, i: int)
    requires i == IndexOf(s, sep) && i >= 0
    ensures Split(s, sep) == [s[..i]] + Split(s[i + 1..], sep)
  {
  }

  /** Joining a part in front of at least one more puts the separator between them. */
  lemma JoinCons(p: string, parts: seq<string>, sep: char)
    requires |parts| >= 1
    ensures Join([p] + parts, sep) == p + [sep] + Join(parts, sep)
  {
    assert ([p] + parts)[1..] == parts;
  }

  lemma {:induction false} SplitJoin(parts: seq<string>, sep: char)
    requires |parts| >= 1
    requires forall i :: 0 <= i < |parts| ==> sep !in parts[i]
    ensures Split(Join(parts, sep), sep) == parts
    decreases |parts|
  {
    if |parts| == 1 {
      assert IndexOf(parts[0], sep) == -1;
    } else {
      var p := parts[0];
      var tail := parts[1..];
      var joined := Join(tail, sep);
      assert parts == [p] + tail;
      JoinCons(p, tail, sep);
      var s := p + [sep] + joined;
      assert s == p + ([sep] + joined);
      IndexOfAfterPrefix(p, [sep] + joined, sep);
      SplitAt(s, sep, |p|);
      assert s[..|p|] == p;
      assert s[|p| + 1..] == joined;
      SplitJoin(tail, sep);
    }
  }

  lemma IndexOfAfterPrefix(p: string, rest: string, x: char)
    requires x !in p && |rest| > 0 && rest[0] == x
    ensures IndexOf(p + rest, x) == |p|
  {
    var s := p + rest;
    assert s[|p|] == x;
    assert s[..|p|] == p;
  }

  /** The character of a decimal digit 0..9. */
  function DigitChar(d: nat): (c: char)
    requires d < 10
    ensures '0' <= c <= '9'
  {
    ['0', '1', '2', '3', '4', '5', '6', '7', '8', '9'][d]
  }

  predicate IsDigit(c: char) {
    '0' <= c <= '9'
  }

  function DigitValue(c: char): (d: nat)
    requires IsDigit(c)
    ensures d < 10
  {
    (c as int - '0' as int)
  }

  /** Number.prototype.toString for a non-negative integer: decimal, no leading zeros. */
  function NatToString(n: nat): (s: string)
    ensures |s| >= 1
    ensures forall i :: 0 <= i < |s| ==> IsDigit(s[i])
    ensures |s| > 1 ==> s[0] != '0'
  {
    if n < 10 then [DigitChar(n)] else NatToString(n / 10) + [DigitChar(n % 10)]
  }

  /** Number.prototype.toString for any integer. */
  function IntToString(n: int): (s: string)
    ensures |s| >= 1
    ensures '/' !in s
  {
    if n >= 0 then NatToString(n) else "-" + NatToString(-n)
  }

  /** The value of a string of decimal digits. */
  function DigitsValue(s: string): nat
    requires forall i :: 0 <= i < |s| ==> IsDigit(s[i])
  {
    if |s| == 0 then 0 else 10 * DigitsValue(s[..|s| - 1]) + DigitValue(s[|s| - 1])
  }

  /**
   * The array index a property name denotes: JavaScript treats a string as an array
   * index exactly when it is the canonical decimal rendering of a number.
   */
  function ParseIndex(s: string): (r: Option<nat>)
  {
    if |s| >= 1 && (forall i :: 0 <= i < |s| ==> IsDigit(s[i])) && (|s| == 1 || s[0] != '0')
    then Some(DigitsValue(s))
    else None
  }

  lemma DigitRoundTrip(d: nat)
    requires d < 10
    ensures DigitValue(DigitChar(d)) == d
  {
  }

  lemma {:induction false} ValueOfNatToString(n: nat)
    ensures DigitsValue(NatToString(n)) == n
  {
    DigitRoundTrip(n % 10);
    if n >= 10 {
      var s := NatToString(n);
      var p := NatToString(n / 10);
      assert s[..|s| - 1] == p;
      ValueOfNatToString(n / 10);
    }
  }

  /** Every number's rendering is read back as that number. */
  lemma ParseNatToString(n: nat)
    ensures ParseIndex(NatToString(n)) == Some(n)
  {
    ValueOfNatToString(n);
  }

  lemma {:induction false} LeadingDigitBound(s: string)
    requires |s| >= 1 && forall i :: 0 <= i < |s| ==> IsDigit(s[i])
    requires s[0] != '0'
    ensures DigitsValue(s) >= 1
  {
    if |s| > 1 {
      LeadingDigitBound(s[..|s| - 1]);
    }
  }

  /** Only canonical renderings are read as indices: the parse is the inverse of NatToString. */
  lemma {:induction false} NatToStringOfParse(s: string, n: nat)
    requires ParseIndex(s) == Some(n)
    ensures NatToString(n) == s
    decreases |s|
  {
    if |s| == 1 {
      var d := DigitValue(s[0]);
      assert DigitChar(d) == s[0];
    } else {
      var p := s[..|s| - 1];
      var d := DigitValue(s[|s| - 1]);
      LeadingDigitBound(p);
      assert p[0] == s[0];
      assert n == 10 * DigitsValue(p) + d;
      assert n / 10 == DigitsValue(p) && n % 10 == d;
      NatToStringOfParse(p, DigitsValue(p));
      assert DigitChar(d) == s[|s| - 1];
      assert s == p + [s[|s| - 1]];
    }
  }
}
