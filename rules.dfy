/** `UserController::getRules` and `UserController::getMessages`: the rule
    tables and the message catalogue the controller hands to Laravel's validator. */
module Validation {
  import opened Php

  /** A validation rule as the controller writes it, with its bound. */
  datatype Rule =
    | Required
    | Email
    | Max(n: nat)
    | Min(n: nat)
    | Unique(table: string, ignoredId: Option<int>)
    | Confirmed

  /** The user record an update validates against, reduced to its key: the
      uniqueness rule ignores the record with that key. */
  datatype User = User(id: int)

  /** Field name to its ordered list of rules. */
  type RuleTable = seq<(string, seq<Rule>)>

  /** The rules of `field`, or none when the table does not mention it. */
  function RulesOf(t: RuleTable, field: string): seq<Rule>
  {
    if t == [] then [] else if t[0].0 == field then t[0].1 else RulesOf(t[1..], field)
  }

  function Fields(t: RuleTable): seq<string>
  {
    if t == [] then [] else [t[0].0] + Fields(t[1..])
  }

  /** The `max:` bound among `rules`, if any. */
  function MaxBound(rules: seq<Rule>): Option<nat>
  {
    if rules == [] then None else if rules[0].Max? then Some(rules[0].n) else MaxBound(rules[1..])
  }

  /** The `min:` bound among `rules`, if any. */
  function MinBound(rules: seq<Rule>): Option<nat>
  {
    if rules == [] then None else if rules[0].Min? then Some(rules[0].n) else MinBound(rules[1..])
  }

  /** `getRules($user)`: the create table when no user is given, the update
      table otherwise. */
  function GetRules(user: Option<User>): (t: RuleTable)
    ensures Fields(t) == ["name", "email", "password"]
    ensures forall i :: 0 <= i < |t| ==> (Required in t[i].1 <==> user.None?)
    ensures MaxBound(RulesOf(t, "name")) == Some(255) && MinBound(RulesOf(t, "name")) == Some(5)
    ensures MaxBound(RulesOf(t, "password")) == Some(20) && MinBound(RulesOf(t, "password")) == Some(6)
    ensures Confirmed in RulesOf(t, "password") && Email in RulesOf(t, "email")
    ensures Unique("users", if user.Some? then Some(user.value.id) else None) in RulesOf(t, "email")
  {
    if user.None? then
      [ ("name", [Required, Max(255), Min(5)]),
        ("email", [Required, Email, Unique("users", None)]),
        ("password", [Required, Min(6), Max(20), Confirmed]) ]
    else
      [ ("name", [Max(255), Min(5)]),
        ("email", [Email, Unique("users", Some(user.value.id))]),
        ("password", [Min(6), Max(20), Confirmed]) ]
  }

  /** A create-mode rule list made optional for an update of the user with key `id`:
      `required` disappears and every uniqueness check ignores that user. */
  function ForUpdate(rules: seq<Rule>, id: int): (r: seq<Rule>)
    ensures Required !in r
    ensures forall x :: x in r && x.Unique? ==> x.ignoredId == Some(id)
    ensures forall x :: x in r && !x.Unique? ==> x in rules
    ensures forall x :: x in rules && x != Required && !x.Unique? ==> x in r
  {
    if rules == [] then []
    else
      var rest := ForUpdate(rules[1..], id);
      match rules[0]
      case Required => rest
      case Unique(table, _) => [Unique(table, Some(id))] + rest
      case _ => [rules[0]] + rest
  }

  /** The update table is the create table with every field made optional and
      the email uniqueness check ignoring the user being updated. */
  lemma UpdateRulesRelaxCreateRules(user: User)
    ensures var create, update := GetRules(None), GetRules(Some(user));
      && Fields(update) == Fields(create)
      && forall i :: 0 <= i < |update| ==> update[i].1 == ForUpdate(create[i].1, user.id)
  {
    var id := user.id;
    NameRulesForUpdate(id);
    EmailRulesForUpdate(id);
    PasswordRulesForUpdate(id);
  }

  lemma NameRulesForUpdate(id: int)
    ensures ForUpdate([Required, Max(255), Min(5)], id) == [Max(255), Min(5)]
  {
    assert ForUpdate([Min(5)], id) == [Min(5)];
    assert ForUpdate([Max(255), Min(5)], id) == [Max(255), Min(5)];
  }

  lemma EmailRulesForUpdate(id: int)
    ensures ForUpdate([Required, Email, Unique("users", None)], id) == [Email, Unique("users", Some(id))]
  {
    assert ForUpdate([Unique("users", None)], id) == [Unique("users", Some(id))];
    assert ForUpdate([Email, Unique("users", None)], id) == [Email, Unique("users", Some(id))];
  }

  lemma PasswordRulesForUpdate(id: int)
    ensures ForUpdate([Required, Min(6), Max(20), Confirmed], id) == [Min(6), Max(20), Confirmed]
  {
    assert ForUpdate([Confirmed], id) == [Confirmed];
    assert ForUpdate([Max(20), Confirmed], id) == [Max(20), Confirmed];
    assert ForUpdate([Min(6), Max(20), Confirmed], id) == [Min(6), Max(20), Confirmed];
  }

  /** The message key Laravel looks up for a rule. */
  function RuleName(r: Rule): string
  {
    match r
    case Required => "required"
    case Email => "email"
    case Max(_) => "max"
    case Min(_) => "min"
    case Unique(_, _) => "unique"
    case Confirmed => "confirmed"
  }

  /** `getMessages()`: rule name to message template, in the controller's order. */
  function Messages(): (m: seq<(string, string)>)
    ensures |m| == 6
    ensures forall i, j :: 0 <= i < j < |m| ==> m[i].0 != m[j].0
  {
    [ ("required", "O campo é obrigatório!"),
      ("email", "E-mail inválido!"),
      ("max", "Máximo de :max caracteres!"),
      ("min", "Mínimo de :min caracteres!"),
      ("unique", ":input já em uso!"),
      ("confirmed", "A Confirmação de Senha não confere!") ]
  }

  /** The template the catalogue holds for `name`, if any. */
  function TemplateOf(m: seq<(string, string)>, name: string): Option<string>
  {
    if m == [] then None else if m[0].0 == name then Some(m[0].1) else TemplateOf(m[1..], name)
  }

  predicate Contains(s: string, sub: string)
  {
    exists i :: 0 <= i <= |s| && sub <= s[i..]
  }

  /** Every rule has a template; the bounded rules' templates carry the
      placeholder of their bound and the uniqueness template echoes the input. */
  lemma MessagesCoverRules(r: Rule)
    ensures TemplateOf(Messages(), RuleName(r)).Some?
    ensures r.Max? ==> Contains(TemplateOf(Messages(), RuleName(r)).value, ":max")
    ensures r.Min? ==> Contains(TemplateOf(Messages(), RuleName(r)).value, ":min")
    ensures r.Unique? ==> Contains(TemplateOf(Messages(), RuleName(r)).value, ":input")
  {
    var m := Messages();
    if r.Max? {
      assert TemplateOf(m, "max") == Some(m[2].1);
      assert ":max" <= m[2].1[10..];
    } else if r.Min? {
      assert TemplateOf(m, "min") == Some(m[3].1);
      assert ":min" <= m[3].1[10..];
    } else if r.Unique? {
      assert TemplateOf(m, "unique") == Some(m[4].1);
      assert ":input" <= m[4].1[0..];
    }
  }
}
