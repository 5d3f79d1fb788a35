/** The part of the framework's request validator that the blog's rule
    tables use: how one field is judged against a list of rules such as
    `sometimes|required|string|max:255`. */
module Validation {
  import opened Types
  import DateFormat

  datatype Rule =
    | Sometimes                        // skip every rule when the field is missing
    | Required                         // present, not null, not blank
    | Nullable                         // an explicit null passes the other rules
    | IsString
    | Max(limit: nat)                  // at most `limit` characters
    | Min(limit: nat)                  // at least `limit` characters
    | IsEmail                          // judged by the e-mail validator, a parameter
    | OneOf(options: set<string>)      // `in:a,b`
    | DateTimeFormat                   // `date_format:Y-m-d H:i:s`
    | UniqueAmong(taken: set<string>)  // `unique:table,column` over the column's values

  /** The e-mail validator to pass for a rule list without `email`, which
      never consults it. */
  const NoEmailRule: string -> bool := s => false

  /** The characters PHP's `trim` strips by default. */
  predicate IsTrimmed(c: char) {
    c == ' ' || c == '\t' || c == '\n' || c == '\r' || c == '\0' || c == '\U{000B}'
  }

  predicate IsBlank(s: string) {
    forall i :: 0 <= i < |s| ==> IsTrimmed(s[i])
  }

  /** The framework's default input middleware turns a blank string into
      null before any rule sees it. */
  function Normalize(f: Field): (g: Field)
    ensures g.Text? ==> !IsBlank(g.text)
    ensures g.Absent? <==> f.Absent?
    ensures f.Text? && !IsBlank(f.text) ==> g == f
  {
    if f.Text? && IsBlank(f.text) then Null else f
  }

  /** Only `required` is an implicit rule among these: it runs on a missing
      field too. */
  predicate IsImplicit(r: Rule) {
    r.Required?
  }

  /** Whether rule `r` is evaluated at all: a missing field, a blank string
      and, when the field is nullable, a null are seen only by implicit
      rules. */
  predicate Applies(r: Rule, f: Field, nullable: bool) {
    IsImplicit(r) || (!f.Absent? && !(f.Text? && IsBlank(f.text)) && !(nullable && f.Null?))
  }

  /** A string, or a scalar read as the string it casts to. */
  predicate HasText(f: Field) {
    f.Text? || f.Scalar?
  }

  /** A null counts as size 0; a string or scalar by its characters; an
      array by its entries. */
  predicate RulePasses(r: Rule, f: Field, isEmail: string -> bool) {
    match r
    case Sometimes => true
    case Nullable => true
    case Required => (f.Text? && !IsBlank(f.text)) || f.Scalar? || (f.Structured? && f.count > 0)
    case IsString => f.Text?
    case Max(n) => (HasText(f) && |f.text| <= n) || f.Null? || (f.Structured? && f.count <= n)
    case Min(n) => (HasText(f) && |f.text| >= n) || (f.Null? && n == 0) || (f.Structured? && f.count >= n)
    case IsEmail => f.Text? && isEmail(f.text)
    case OneOf(options) => (HasText(f) && f.text in options) || (f.Null? && "" in options)
    case DateTimeFormat => HasText(f) && DateFormat.Parse(f.text).Some?
    case UniqueAmong(taken) => !(HasText(f) && f.text in taken)
  }

  /** A field passes its rule list when it is missing under `sometimes`, or
      when every rule that applies to it passes. */
  predicate FieldPasses(f: Field, rules: seq<Rule>, isEmail: string -> bool) {
    (Sometimes in rules && f.Absent?) ||
    (forall i :: 0 <= i < |rules| && Applies(rules[i], f, Nullable in rules) ==>
       RulePasses(rules[i], f, isEmail))
  }

  /** `name` when the field fails, nothing otherwise. */
  function ErrorsOf(name: string, f: Field, rules: seq<Rule>, isEmail: string -> bool): (e: set<string>)
    ensures e <= {name}
    ensures name in e <==> !FieldPasses(f, rules, isEmail)
  {
    if FieldPasses(f, rules, isEmail) then {} else {name}
  }

  /** The rule sets used for free text of bounded length, as in
      `required|string|max:N`, read field by field. */
  lemma RequiredBoundedText(f: Field, n: nat, extra: seq<Rule>, isEmail: string -> bool)
    requires Sometimes !in extra && Nullable !in extra
    ensures FieldPasses(f, [Required, IsString, Max(n)] + extra, isEmail) <==>
              f.Text? && !IsBlank(f.text) && |f.text| <= n && FieldPasses(f, extra, isEmail)
  {
    var rules := [Required, IsString, Max(n)] + extra;
    assert rules[0] == Required && rules[1] == IsString && rules[2] == Max(n);
    assert Sometimes !in rules && Nullable !in rules;
    if FieldPasses(f, rules, isEmail) {
      assert Applies(rules[0], f, false) && RulePasses(rules[0], f, isEmail);
      assert Applies(rules[1], f, false) && Applies(rules[2], f, false);
      forall i | 0 <= i < |extra| && Applies(extra[i], f, false)
        ensures RulePasses(extra[i], f, isEmail)
      {
        assert rules[3 + i] == extra[i];
      }
    }
    if f.Text? && !IsBlank(f.text) && |f.text| <= n && FieldPasses(f, extra, isEmail) {
      forall i | 0 <= i < |rules| && Applies(rules[i], f, false)
        ensures RulePasses(rules[i], f, isEmail)
      {
        if i >= 3 { assert rules[i] == extra[i - 3]; }
      }
    }
  }

  /** `nullable|string|max:N`: a missing, null or blank field passes; any
      other must be text of at most N characters. */
  lemma NullableBoundedText(f: Field, n: nat, isEmail: string -> bool)
    ensures FieldPasses(f, [Nullable, IsString, Max(n)], isEmail) <==>
              f.Absent? || f.Null? || (f.Text? && (IsBlank(f.text) || |f.text| <= n))
  {
    var rules := [Nullable, IsString, Max(n)];
    if f.Scalar? || f.Structured? {
      assert Applies(rules[1], f, true) && !RulePasses(rules[1], f, isEmail);
    }
    if f.Text? && !IsBlank(f.text) && !(|f.text| <= n) {
      assert Applies(rules[2], f, true) && !RulePasses(rules[2], f, isEmail);
    }
  }

  /** `nullable|date_format:Y-m-d H:i:s`: a number is judged by its
      string form, an array or a boolean never matches. */
  lemma NullableDate(f: Field, isEmail: string -> bool)
    ensures FieldPasses(f, [Nullable, DateTimeFormat], isEmail) <==>
              f.Absent? || f.Null? || (f.Text? && (IsBlank(f.text) || DateFormat.Parse(f.text).Some?)) ||
              (f.Scalar? && DateFormat.Parse(f.text).Some?)
  {
    var rules := [Nullable, DateTimeFormat];
    if !(f.Absent? || f.Null? || (f.Text? && IsBlank(f.text))) {
      assert Applies(rules[1], f, true);
    }
  }

  /** A rule list headed by `sometimes` passes a missing field outright and
      otherwise judges the field by the rest of the list. */
  lemma SometimesSkips(f: Field, rest: seq<Rule>, isEmail: string -> bool)
    requires Sometimes !in rest
    ensures f.Absent? ==> FieldPasses(f, [Sometimes] + rest, isEmail)
    ensures !f.Absent? ==> (FieldPasses(f, [Sometimes] + rest, isEmail) <==> FieldPasses(f, rest, isEmail))
  {
    var rules := [Sometimes] + rest;
    assert Nullable in rules <==> Nullable in rest;
    if !f.Absent? {
      if FieldPasses(f, rules, isEmail) {
        forall i | 0 <= i < |rest| && Applies(rest[i], f, Nullable in rest)
          ensures RulePasses(rest[i], f, isEmail)
        {
          assert rules[i + 1] == rest[i];
        }
      }
      if FieldPasses(f, rest, isEmail) {
        forall i | 0 <= i < |rules| && Applies(rules[i], f, Nullable in rules)
          ensures RulePasses(rules[i], f, isEmail)
        {
          if i > 0 { assert rules[i] == rest[i - 1]; }
        }
      }
    }
  }
}
