/**
 * Authorization rules as the backfill migration sees them: the raw shape handed over by
 * the rule unpacker, the canonical shape produced by the validation schema, and the
 * decoding of a record's `permissions` column into a list of canonical rules.
 *
 * The packing library is not modelled: a column value is the sequence of raw rules it
 * unpacks to (or `None` for a null column), and `Encode` stands for packing followed by
 * unpacking, which the migration relies on to round-trip.
 */
module PermissionRules {
  import opened Wrappers

  /** One field of an unpacked rule: absent, a string, a list of strings, a boolean,
      or any other value (a number, null, an object, a list holding a non-string). */
  datatype Field = Missing | Str(s: string) | StrList(items: seq<string>) | Bool(b: bool) | OtherValue

  /** A rule before validation. `conditions` is a payload the schema never inspects. */
  datatype RawRule<C> = RawRule(subject: Field, action: Field, conditions: Option<C>, inverted: Field)

  /** A rule in canonical form: at most one subject, a list of actions. */
  datatype Rule<C> = Rule(subject: Option<string>, actions: seq<string>, conditions: Option<C>, inverted: Option<bool>)

  /** The schema rejected a rule; the migration aborts on it. */
  datatype DecodeError = InvalidRule

  /** `subject`: optional; a non-empty string, or a list of strings of which the first
      element is kept (an empty list leaves no subject). */
  function NormaliseSubject(f: Field): Result<Option<string>, DecodeError> {
    match f
    case Missing => Success(None)
    case Str(s) => if s == "" then Failure(InvalidRule) else Success(Some(s))
    case StrList(items) => Success(if items == [] then None else Some(items[0]))
    case _ => Failure(InvalidRule)
  }

  /** `action`: required; a non-empty string becomes a one-element list, a list of strings
      is kept as it is. */
  function NormaliseAction(f: Field): Result<seq<string>, DecodeError> {
    match f
    case Str(s) => if s == "" then Failure(InvalidRule) else Success([s])
    case StrList(items) => Success(items)
    case _ => Failure(InvalidRule)
  }

  /** `inverted`: an optional boolean. */
  function NormaliseInverted(f: Field): Result<Option<bool>, DecodeError> {
    match f
    case Missing => Success(None)
    case Bool(b) => Success(Some(b))
    case _ => Failure(InvalidRule)
  }

  /** The per-rule validation schema: every field must be accepted. */
  function NormaliseRule<C>(raw: RawRule<C>): Result<Rule<C>, DecodeError> {
    var subject := NormaliseSubject(raw.subject);
    var action := NormaliseAction(raw.action);
    var inverted := NormaliseInverted(raw.inverted);
    if subject.Failure? || action.Failure? || inverted.Failure? then Failure(InvalidRule)
    else Success(Rule(subject.value, action.value, raw.conditions, inverted.value))
  }

  /** The schema applied to a whole list, rule by rule. */
  function NormaliseAll<C>(raw: seq<RawRule<C>>): Result<seq<Rule<C>>, DecodeError> {
    if raw == [] then Success([])
    else
      match NormaliseRule(raw[0])
      case Failure(e) => Failure(e)
      case Success(head) =>
        match NormaliseAll(raw[1..])
        case Failure(e) => Failure(e)
        case Success(tail) => Success([head] + tail)
  }

  /** Decoding a `permissions` column: a null column is read as the empty rule list. */
  function Decode<C>(permissions: Option<seq<RawRule<C>>>): Result<seq<Rule<C>>, DecodeError> {
    NormaliseAll(if permissions.None? then [] else permissions.value)
  }

  /** A canonical rule after packing and unpacking, in the form this model fixes for the
      round trip: subject and action in list form, an optional field with no value
      absent. This is the model's convention, not the rule library's: its unpacker
      sets `inverted` on every rule it returns. */
  function EncodeRule<C>(rule: Rule<C>): RawRule<C> {
    RawRule(
      if rule.subject.None? then Missing else StrList([rule.subject.value]),
      StrList(rule.actions),
      rule.conditions,
      if rule.inverted.None? then Missing else Bool(rule.inverted.value))
  }

  function Encode<C>(rules: seq<Rule<C>>): seq<RawRule<C>> {
    seq(|rules|, k requires 0 <= k < |rules| => EncodeRule(rules[k]))
  }

  /** The list schema is all-or-nothing: it succeeds only if every rule is accepted,
      and then keeps the list's length and order. */
  lemma {:induction false} NormaliseAllSpec<C>(raw: seq<RawRule<C>>)
    ensures NormaliseAll(raw).Success? <==> forall k :: 0 <= k < |raw| ==> NormaliseRule(raw[k]).Success?
    ensures NormaliseAll(raw).Success? ==>
      |NormaliseAll(raw).value| == |raw|
      && forall k :: 0 <= k < |raw| ==> NormaliseRule(raw[k]) == Success(NormaliseAll(raw).value[k])
  {
    if raw != [] {
      NormaliseAllSpec(raw[1..]);
      assert forall k :: 1 <= k < |raw| ==> raw[k] == raw[1..][k - 1];
    }
  }

  /** What the schema does to each field, and exactly which raw rules it accepts. */
  lemma NormaliseRuleFields<C>(raw: RawRule<C>)
    ensures NormaliseRule(raw).Success? <==>
      && (raw.subject.Missing? || raw.subject.StrList? || (raw.subject.Str? && raw.subject.s != ""))
      && (raw.action.StrList? || (raw.action.Str? && raw.action.s != ""))
      && (raw.inverted.Missing? || raw.inverted.Bool?)
    ensures raw.subject == Str("") || raw.action == Str("") ==> NormaliseRule(raw).Failure?
    ensures NormaliseRule(raw).Success? ==>
      var rule := NormaliseRule(raw).value;
      && (raw.subject.Missing? ==> rule.subject == None)
      && (raw.subject.Str? ==> rule.subject == Some(raw.subject.s))
      && (raw.subject.StrList? && raw.subject.items != [] ==> rule.subject == Some(raw.subject.items[0]))
      && (raw.subject == StrList([]) ==> rule.subject == None)
      && (raw.action.Str? ==> rule.actions == [raw.action.s])
      && (raw.action.StrList? ==> rule.actions == raw.action.items)
      && rule.conditions == raw.conditions
      && (raw.inverted.Missing? ==> rule.inverted == None)
      && (raw.inverted.Bool? ==> rule.inverted == Some(raw.inverted.b))
  {
  }

  /** A null or empty column decodes to no rules. */
  lemma AbsentPermissionsDecodeEmpty<C>(permissions: Option<seq<RawRule<C>>>)
    requires permissions.None? || permissions == Some([])
    ensures Decode(permissions) == Success([])
  {
  }

  /** Re-encoding the canonical rules and decoding them again gives the same rules back. */
  lemma DecodeEncode<C>(rules: seq<Rule<C>>)
    ensures Decode(Some(Encode(rules))) == Success(rules)
  {
    var raw := Encode(rules);
    NormaliseAllSpec(raw);
    forall k | 0 <= k < |raw|
      ensures NormaliseRule(raw[k]) == Success(rules[k])
    {
      var rule := rules[k];
      assert raw[k] == EncodeRule(rule);
      if rule.subject.Some? {
        assert [rule.subject.value][0] == rule.subject.value;
      }
    }
    var r := Decode(Some(raw));
    assert r.Success?;
    assert r.value == rules;
  }

  /** Validation is idempotent: a rule that passed once passes again, unchanged,
      after it has been re-encoded. */
  lemma NormaliseCanonical<C>(raw: RawRule<C>)
    requires NormaliseRule(raw).Success?
    ensures NormaliseRule(EncodeRule(NormaliseRule(raw).value)) == NormaliseRule(raw)
  {
    var rule := NormaliseRule(raw).value;
    if rule.subject.Some? {
      assert [rule.subject.value][0] == rule.subject.value;
    }
  }
}
