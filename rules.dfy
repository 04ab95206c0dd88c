/** The per-type single-character validator shared by both widget variants.
    Both variants bind one rule per widget: the caller's `pattern` when one is
    supplied, otherwise the built-in pattern for the declared input type. */
module Rules {

  datatype Option<T> = None | Some(value: T)

  /** The `type` prop of the widget. */
  datatype InputType = Text | Number | Password | Tel

  /** The character class X inside a built-in pattern `^$|^(X)$`:
      `[0-9]` or `.` (one code unit that is not a line terminator). */
  datatype CharClass = Digit | AnyUnit

  /** The `patterns` table, keyed by input type. */
  function PatternClass(t: InputType): CharClass {
    match t
    case Number | Tel => Digit
    case Text | Password => AnyUnit
  }

  /** A character outside the Basic Multilingual Plane. A Dafny `char` is a
      Unicode scalar value; JavaScript stores such a character as two UTF-16
      code units (a surrogate pair). */
  predicate IsAstral(c: char) {
    c > '\U{FFFF}'
  }

  /** The length of `v` as JavaScript counts it, in UTF-16 code units. */
  function UnitCount(v: string): nat {
    if v == [] then 0 else (if IsAstral(v[0]) then 2 else 1) + UnitCount(v[1..])
  }

  /** Every character is at least one code unit, and a string is one unit
      long exactly when it is one character of the Basic Multilingual Plane. */
  lemma {:induction false} UnitCountBounds(v: string)
    ensures UnitCount(v) >= |v|
    ensures UnitCount(v) == 1 <==> |v| == 1 && !IsAstral(v[0])
  {
    if v != [] {
      UnitCountBounds(v[1..]);
    }
  }

  /** The units that `.` does not match in a JavaScript regular expression
      without the `s` flag. */
  predicate IsLineTerminator(c: char) {
    c == '\n' || c == '\r' || c == '\U{2028}' || c == '\U{2029}'
  }

  predicate InClass(cls: CharClass, c: char) {
    match cls
    case Digit => '0' <= c <= '9'
    case AnyUnit => !IsLineTerminator(c)
  }

  /** `/^$|^(X)$/.test(v)`: either alternative must span the whole string,
      the first matching the empty string, the second exactly one code unit
      of X. Without the `u` flag the pattern sees code units, so a character
      outside the Basic Multilingual Plane is two units and never matches. */
  predicate MatchesBuiltIn(cls: CharClass, v: string) {
    MatchesEmpty(v) || MatchesOneOf(cls, v)
  }

  predicate MatchesEmpty(v: string) { |v| == 0 }

  predicate MatchesOneOf(cls: CharClass, v: string) {
    |v| == 1 && UnitCount(v) == 1 && InClass(cls, v[0])
  }

  /** The rule a widget checks values and keys against (`checkPattern`).
      A caller-supplied pattern is an uninterpreted test on strings. */
  datatype Rule = BuiltIn(kind: InputType) | Custom(test: string -> bool)

  /** `pattern || patterns[type]`: a supplied pattern replaces the built-in one. */
  function CheckPattern(t: InputType, pattern: Option<string -> bool>): Rule {
    match pattern
    case Some(p) => Custom(p)
    case None => BuiltIn(t)
  }

  /** `checkPattern.test(v)` */
  predicate Accepts(rule: Rule, v: string) {
    match rule
    case BuiltIn(t) => MatchesBuiltIn(PatternClass(t), v)
    case Custom(test) => test(v)
  }

  /** For `number` and `tel` the rule accepts exactly the empty string and
      one decimal digit. */
  lemma NumericRule(t: InputType, v: string)
    requires t == Number || t == Tel
    ensures Accepts(CheckPattern(t, None), v) <==> v == "" || (|v| == 1 && '0' <= v[0] <= '9')
  {
    UnitCountBounds(v);
  }

  /** For `text` and `password` the rule accepts exactly the empty string and
      one character of the Basic Multilingual Plane that is not a line
      terminator; a character above U+FFFF, two code units, is rejected. */
  lemma FreeTextRule(t: InputType, v: string)
    requires t == Text || t == Password
    ensures Accepts(CheckPattern(t, None), v) <==>
      v == "" || (|v| == 1 && v[0] <= '\U{FFFF}' && !IsLineTerminator(v[0]))
    ensures !Accepts(CheckPattern(t, None), ['\U{1F600}'])
  {
    UnitCountBounds(v);
    UnitCountBounds(['\U{1F600}']);
  }

  /** A supplied pattern decides alone; the declared type plays no part. */
  lemma PatternOverridesType(t: InputType, u: InputType, p: string -> bool, v: string)
    ensures Accepts(CheckPattern(t, Some(p)), v) == p(v)
    ensures Accepts(CheckPattern(t, Some(p)), v) == Accepts(CheckPattern(u, Some(p)), v)
  {
  }

  /** Every built-in rule accepts the cleared cell and nothing longer than one unit;
      the digit rule is the narrower of the two. */
  lemma BuiltInShape(t: InputType, v: string)
    ensures Accepts(BuiltIn(t), "")
    ensures Accepts(BuiltIn(t), v) ==> |v| <= 1
    ensures Accepts(BuiltIn(Number), v) ==> Accepts(BuiltIn(t), v)
  {
  }
}
