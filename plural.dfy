/**
 * Plural rules: a number is classified into a plural form, and the form's
 * position in the rule's form list is the "plural index" the template grammar uses.
 * The two built-in rules, English (also used for Italian) and Russian, are a closed
 * set of variants of one datatype.
 */
module Plural {
  import opened Text

  datatype PluralForm = Zero | One | Two | Few | Many | Other

  /**
   * A JavaScript number as the rules see it (after ToNumber): an integer, or a value
   * that is not an integer (one with a fractional part, NaN or an infinity). Every
   * rule gives the same answer for all values of the second kind.
   */
  datatype Number = Integer(value: int) | NonInteger

  datatype Rule = English | Russian

  /** The rule's form list, in the order that plural slots of a template follow. */
  function Forms(rule: Rule): (forms: seq<PluralForm>)
    ensures |forms| >= 2 && forms[0] == One && forms[|forms| - 1] == Other
    ensures forall i, j :: 0 <= i < j < |forms| ==> forms[i] != forms[j]
  {
    match rule
    case English => [One, Other]
    case Russian => [One, Few, Many, Other]
  }

  /** JavaScript's % on integers: the remainder takes the sign of the dividend. */
  function TruncRem(a: int, b: int): (r: int)
    requires b > 0
    ensures -b < r < b
    ensures a >= 0 ==> 0 <= r
    ensures a < 0 ==> r <= 0
  {
    if a >= 0 then a % b else -((-a) % b)
  }

  /**
   * With its bound and its sign, this pins TruncRem down: the remainder differs
   * from the dividend by a multiple of the divisor.
   */
  lemma TruncRemMultiple(a: int, b: int)
    requires b > 0
    ensures (a - TruncRem(a, b)) % b == 0
  {
    if a >= 0 {
      RemainderUnique(a - a % b, b, a / b, 0);
    } else {
      var q := (-a) / b;
      assert a + (-a) % b == b * -q;
      RemainderUnique(a + (-a) % b, b, -q, 0);
    }
  }

  /** getForm: the plural form of a number under a rule. */
  function GetForm(rule: Rule, n: Number): (f: PluralForm)
    ensures f in Forms(rule)
  {
    match rule
    case English =>
      if n == Integer(1) then One else Other
    case Russian =>
      match n
      case NonInteger => Other
      case Integer(v) =>
        var mod10 := TruncRem(v, 10);
        var mod100 := TruncRem(v, 100);
        if mod10 == 1 && mod100 != 11 then One
        else if (2 <= mod10 <= 4) && (mod100 < 12 || mod100 > 14) then Few
        else if mod10 == 0 || (5 <= mod10 <= 9) || (11 <= mod100 <= 14) then Many
        else Other
  }

  /** getFormIdx: the position of the number's form in the rule's form list. */
  function GetFormIdx(rule: Rule, n: Number): (idx: int)
    ensures 0 <= idx < |Forms(rule)| && Forms(rule)[idx] == GetForm(rule, n)
    ensures idx == 0 <==> GetForm(rule, n) == One
  {
    IndexOf(Forms(rule), GetForm(rule, n))
  }

  /** English: one exactly for the number 1, other for everything else. */
  lemma EnglishForms(n: Number)
    ensures GetForm(English, n) == One <==> n == Integer(1)
    ensures GetForm(English, n) == Other <==> n != Integer(1)
    ensures GetFormIdx(English, n) == if n == Integer(1) then 0 else 1
  {
  }

  /** Russian on non-negative integers, with Dafny's (here equal) remainder. */
  lemma RussianNonNegative(v: int)
    requires v >= 0
    ensures GetForm(Russian, Integer(v)) == One <==> v % 10 == 1 && v % 100 != 11
    ensures GetForm(Russian, Integer(v)) == Few
        <==> 2 <= v % 10 <= 4 && !(12 <= v % 100 <= 14)
    ensures GetForm(Russian, Integer(v)) == Many
        <==> !(v % 10 == 1 && v % 100 != 11) && !(2 <= v % 10 <= 4 && !(12 <= v % 100 <= 14))
    ensures GetForm(Russian, Integer(v)) != Other
    ensures GetFormIdx(Russian, Integer(v)) <= 2
  {
    var m10, m100 := v % 10, v % 100;
    assert m100 % 10 == m10 by { DivMod100(v); }
  }

  lemma DivMod100(v: int)
    requires v >= 0
    ensures (v % 100) % 10 == v % 10
  {
    var q, r := v / 100, v % 100;
    assert r == 10 * (r / 10) + r % 10;
    assert v == 10 * (10 * q + r / 10) + r % 10;
    RemainderUnique(v, 10, 10 * q + r / 10, r % 10);
  }

  /** Euclidean division is unique: a remainder in range is the remainder. */
  lemma RemainderUnique(v: int, b: int, k: int, r: int)
    requires b > 0 && 0 <= r < b && v == b * k + r
    ensures v % b == r
  {
    var d := k - v / b;
    assert b * d == v % b - r by {
      assert b * d == b * k - b * (v / b);
    }
    ProductBounds(b, d);
  }

  /** A positive factor times a nonzero integer is at least that factor in size. */
  lemma ProductBounds(b: int, d: int)
    requires b > 0
    ensures d >= 1 ==> b * d >= b
    ensures d <= -1 ==> b * d <= -b
  {
    if d >= 1 {
      assert b * d == b + b * (d - 1);
    } else if d <= -1 {
      assert b * d == -b + b * (d + 1);
    }
  }

  /** Any non-integer is other under both rules. */
  lemma NonIntegerIsOther(rule: Rule)
    ensures GetForm(rule, NonInteger) == Other
    ensures GetFormIdx(rule, NonInteger) == |Forms(rule)| - 1
  {
  }

  /**
   * Reference definition: the Russian rule of the "Language Plural Rules" of
   * Unicode Technical Standard #35 (LDML), Part 3, with operands i (the integer
   * digits of the absolute value) and v (the number of visible fraction digits).
   */
  function LdmlRussian(n: Number): (f: PluralForm)
  {
    match n
    case NonInteger => Other
    case Integer(x) =>
      var i := if x < 0 then -x else x;
      if i % 10 == 1 && i % 100 != 11 then One
      else if 2 <= i % 10 <= 4 && !(12 <= i % 100 <= 14) then Few
      else if i % 10 == 0 || 5 <= i % 10 <= 9 || 11 <= i % 100 <= 14 then Many
      else Other
  }

  /** Reference definition: the English rule of LDML ("one: i = 1 and v = 0"). */
  function LdmlEnglish(n: Number): (f: PluralForm)
  {
    match n
    case NonInteger => Other
    case Integer(x) => if x == 1 || x == -1 then One else Other
  }

  /** On non-negative integers and on non-integers, both rules agree with LDML. */
  lemma AgreesWithLdml(n: Number)
    requires n.Integer? ==> n.value >= 0
    ensures GetForm(Russian, n) == LdmlRussian(n)
    ensures GetForm(English, n) == LdmlEnglish(n)
  {
  }

  /**
   * On negative integers they do not: the truncating remainder makes -1 fall
   * through every Russian test, and English compares with 1 exactly, while
   * LDML classifies by absolute value.
   */
  lemma NegativeOneDiffersFromLdml()
    ensures GetForm(Russian, Integer(-1)) == Other && LdmlRussian(Integer(-1)) == One
    ensures GetForm(English, Integer(-1)) == Other && LdmlEnglish(Integer(-1)) == One
  {
  }

  /** Every negative Russian integer keeps the class of its absolute value or becomes other. */
  lemma RussianNegative(v: int)
    requires v < 0
    ensures GetForm(Russian, Integer(v)) == Many || GetForm(Russian, Integer(v)) == Other
    ensures GetForm(Russian, Integer(v)) == Many <==> (-v) % 10 == 0
  {
  }

  /** Classification examples for both rules. */
  lemma Examples()
    ensures GetForm(English, Integer(1)) == One && GetForm(English, Integer(0)) == Other
    ensures GetForm(English, Integer(2)) == Other && GetForm(English, NonInteger) == Other
    ensures GetForm(Russian, Integer(1)) == One && GetForm(Russian, Integer(2)) == Few
    ensures GetForm(Russian, Integer(5)) == Many && GetForm(Russian, Integer(11)) == Many
    ensures GetForm(Russian, Integer(21)) == One && GetForm(Russian, NonInteger) == Other
  {
  }
}
