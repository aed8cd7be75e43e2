/**
 * The two rule rewrites of the secret-permissions backfill: the upgrade grants "readValue"
 * on every "secrets" rule that can "read", the downgrade takes it away again.
 */
module PermissionRewrite {
  import opened Wrappers
  import opened PermissionRules

  const Secrets: string := "secrets"
  const Read: string := "read"
  const ReadValue: string := "readValue"

  /** The first index of `s` holding `x`, or -1 when there is none. */
  function IndexOf(s: seq<string>, x: string): (k: int)
    ensures -1 <= k < |s|
    ensures k == -1 <==> x !in s
    ensures k != -1 ==> s[k] == x && x !in s[..k]
  {
    if s == [] then -1
    else if s[0] == x then 0
    else
      var j := IndexOf(s[1..], x);
      if j == -1 then -1
      else
        assert s[..j + 1] == [s[0]] + s[1..][..j];
        j + 1
  }

  /** `s` without its element at index `k`, the rest in order. */
  function RemoveAt(s: seq<string>, k: nat): (r: seq<string>)
    requires k < |s|
    ensures |r| == |s| - 1
    ensures forall i :: 0 <= i < k ==> r[i] == s[i]
    ensures forall i :: k <= i < |r| ==> r[i] == s[i + 1]
    ensures multiset(r) == multiset(s) - multiset{s[k]}
  {
    assert s == s[..k] + [s[k]] + s[k + 1..];
    s[..k] + s[k + 1..]
  }

  /** A rule the upgrade rewrites: on "secrets", can "read", cannot yet "readValue".
      Whether the rule is inverted plays no part. */
  predicate NeedsUpgrade<C>(rule: Rule<C>) {
    rule.subject == Some(Secrets) && Read in rule.actions && ReadValue !in rule.actions
  }

  function UpgradeRule<C>(rule: Rule<C>): Rule<C> {
    if NeedsUpgrade(rule) then rule.(actions := rule.actions + [ReadValue]) else rule
  }

  /** A rule the downgrade rewrites: on "secrets" and holding "readValue", with or
      without "read". */
  predicate HoldsReadValue<C>(rule: Rule<C>) {
    rule.subject == Some(Secrets) && ReadValue in rule.actions
  }

  function DowngradeRule<C>(rule: Rule<C>): Rule<C> {
    if HoldsReadValue(rule) then rule.(actions := RemoveAt(rule.actions, IndexOf(rule.actions, ReadValue))) else rule
  }

  /** The rewritten rule list and whether the record has to be written back. */
  datatype Update<C> = Update(rules: seq<Rule<C>>, shouldUpdate: bool)

  function UpgradeAll<C>(rules: seq<Rule<C>>): seq<Rule<C>> {
    seq(|rules|, k requires 0 <= k < |rules| => UpgradeRule(rules[k]))
  }

  function DowngradeAll<C>(rules: seq<Rule<C>>): seq<Rule<C>> {
    seq(|rules|, k requires 0 <= k < |rules| => DowngradeRule(rules[k]))
  }

  predicate AnyNeedsUpgrade<C>(rules: seq<Rule<C>>) {
    exists k :: 0 <= k < |rules| && NeedsUpgrade(rules[k])
  }

  predicate AnyHoldsReadValue<C>(rules: seq<Rule<C>>) {
    exists k :: 0 <= k < |rules| && HoldsReadValue(rules[k])
  }

  /** What the upgrade computes from a decoded rule list. */
  function Upgrade<C>(rules: seq<Rule<C>>): Update<C> {
    Update(UpgradeAll(rules), AnyNeedsUpgrade(rules))
  }

  /** What the downgrade computes from a decoded rule list. */
  function Downgrade<C>(rules: seq<Rule<C>>): Update<C> {
    Update(DowngradeAll(rules), AnyHoldsReadValue(rules))
  }

  /** The upgrade of one record's permissions: decode, then walk the rules in order,
      appending "readValue" where it is due and raising the flag when it does. */
  method UpdatePermissionsUp<C>(permissions: Option<seq<RawRule<C>>>) returns (r: Result<Update<C>, DecodeError>)
    ensures Decode(permissions).Failure? ==> r == Failure(Decode(permissions).error)
    ensures Decode(permissions).Success? ==> r == Success(Upgrade(Decode(permissions).value))
  {
    var parsed :- Decode(permissions);
    ghost var original := parsed;
    var shouldUpdate := false;
    var i := 0;
    while i < |parsed|
      invariant 0 <= i <= |parsed| == |original|
      invariant forall k :: 0 <= k < i ==> parsed[k] == UpgradeRule(original[k])
      invariant forall k :: i <= k < |parsed| ==> parsed[k] == original[k]
      invariant shouldUpdate <==> exists k :: 0 <= k < i && NeedsUpgrade(original[k])
    {
      var rule := parsed[i];
      if rule.subject == Some(Secrets) {
        if Read in rule.actions && ReadValue !in rule.actions {
          parsed := parsed[i := rule.(actions := rule.actions + [ReadValue])];
          shouldUpdate := true;
        }
      }
      assert parsed[i] == UpgradeRule(original[i]);
      i := i + 1;
    }
    assert parsed == UpgradeAll(original);
    r := Success(Update(parsed, shouldUpdate));
  }

  /** The downgrade of one record's permissions: decode, then walk the rules in order,
      splicing out the first "readValue" of every "secrets" rule that has one. */
  method UpdatePermissionsDown<C>(permissions: Option<seq<RawRule<C>>>) returns (r: Result<Update<C>, DecodeError>)
    ensures Decode(permissions).Failure? ==> r == Failure(Decode(permissions).error)
    ensures Decode(permissions).Success? ==> r == Success(Downgrade(Decode(permissions).value))
  {
    var parsed :- Decode(permissions);
    ghost var original := parsed;
    var shouldUpdate := false;
    var i := 0;
    while i < |parsed|
      invariant 0 <= i <= |parsed| == |original|
      invariant forall k :: 0 <= k < i ==> parsed[k] == DowngradeRule(original[k])
      invariant forall k :: i <= k < |parsed| ==> parsed[k] == original[k]
      invariant shouldUpdate <==> exists k :: 0 <= k < i && HoldsReadValue(original[k])
    {
      var rule := parsed[i];
      assert rule == original[i];
      if rule.subject == Some(Secrets) {
        var readValueIndex := IndexOf(rule.actions, ReadValue);
        if ReadValue in rule.actions && readValueIndex != -1 {
          parsed := parsed[i := rule.(actions := RemoveAt(rule.actions, readValueIndex))];
          shouldUpdate := true;
        }
      }
      assert parsed[i] == DowngradeRule(original[i]);
      i := i + 1;
    }
    assert parsed == DowngradeAll(original);
    r := Success(Update(parsed, shouldUpdate));
  }

  /** A rule due for the upgrade gets "readValue" appended exactly once, at the end;
      its other actions keep their order and its other fields are untouched. */
  lemma UpgradeAppendsReadValue<C>(rule: Rule<C>)
    requires NeedsUpgrade(rule)
    ensures var u := UpgradeRule(rule);
      && u.subject == rule.subject && u.conditions == rule.conditions && u.inverted == rule.inverted
      && |u.actions| == |rule.actions| + 1
      && u.actions[..|rule.actions|] == rule.actions
      && u.actions[|rule.actions|] == ReadValue
      && multiset(u.actions)[ReadValue] == 1
  {
    assert multiset(rule.actions)[ReadValue] == 0;
  }

  /** The upgrade changes a rule exactly when the rule is due for it. */
  lemma UpgradeChangesOnlyDueRules<C>(rule: Rule<C>)
    ensures UpgradeRule(rule) != rule <==> NeedsUpgrade(rule)
  {
    if NeedsUpgrade(rule) {
      assert |UpgradeRule(rule).actions| == |rule.actions| + 1;
    }
  }

  /** The upgrade keeps the list's length and order and raises its flag exactly when
      some rule was changed. */
  lemma {:induction false} UpgradeFlagIffChanged<C>(rules: seq<Rule<C>>)
    ensures |Upgrade(rules).rules| == |rules|
    ensures forall k :: 0 <= k < |rules| ==> Upgrade(rules).rules[k] == UpgradeRule(rules[k])
    ensures Upgrade(rules).shouldUpdate <==> Upgrade(rules).rules != rules
  {
    var out := UpgradeAll(rules);
    if AnyNeedsUpgrade(rules) {
      var k :| 0 <= k < |rules| && NeedsUpgrade(rules[k]);
      UpgradeChangesOnlyDueRules(rules[k]);
      assert out[k] != rules[k];
    } else {
      forall k | 0 <= k < |rules| ensures out[k] == rules[k] {
        assert !NeedsUpgrade(rules[k]);
      }
      assert out == rules;
    }
  }

  /** Upgrading an upgraded list changes nothing and does not raise the flag, so a
      second run of the migration finds nothing to write. */
  lemma {:induction false} UpgradeIdempotent<C>(rules: seq<Rule<C>>)
    ensures Upgrade(UpgradeAll(rules)) == Update(UpgradeAll(rules), false)
  {
    var once := UpgradeAll(rules);
    forall k | 0 <= k < |once| ensures !NeedsUpgrade(once[k]) {
      if NeedsUpgrade(rules[k]) {
        assert ReadValue == (rules[k].actions + [ReadValue])[|rules[k].actions|];
        assert ReadValue in once[k].actions;
      }
    }
    UpgradeFlagIffChanged(once);
  }

  /** The downgrade removes from a "secrets" rule the first "readValue" and nothing
      else; the remaining actions keep their order and the other fields are untouched. */
  lemma DowngradeRemovesFirstReadValue<C>(rule: Rule<C>)
    requires HoldsReadValue(rule)
    ensures var d := DowngradeRule(rule);
      var k := IndexOf(rule.actions, ReadValue);
      && 0 <= k < |rule.actions| && rule.actions[k] == ReadValue && ReadValue !in rule.actions[..k]
      && d.actions == rule.actions[..k] + rule.actions[k + 1..]
      && multiset(d.actions) == multiset(rule.actions) - multiset{ReadValue}
      && d.subject == rule.subject && d.conditions == rule.conditions && d.inverted == rule.inverted
  {
  }

  /** The downgrade changes a rule exactly when the rule is on "secrets" and holds
      "readValue"; every other rule is left as it is. */
  lemma DowngradeChangesOnlyHolders<C>(rule: Rule<C>)
    ensures DowngradeRule(rule) != rule <==> HoldsReadValue(rule)
  {
    if HoldsReadValue(rule) {
      assert |DowngradeRule(rule).actions| == |rule.actions| - 1;
    }
  }

  /** The downgrade keeps the list's length and order and raises its flag exactly when
      some rule was changed, which is when some "secrets" rule held "readValue". */
  lemma {:induction false} DowngradeFlagIffChanged<C>(rules: seq<Rule<C>>)
    ensures |Downgrade(rules).rules| == |rules|
    ensures forall k :: 0 <= k < |rules| ==> Downgrade(rules).rules[k] == DowngradeRule(rules[k])
    ensures Downgrade(rules).shouldUpdate <==> Downgrade(rules).rules != rules
  {
    var out := DowngradeAll(rules);
    if AnyHoldsReadValue(rules) {
      var k :| 0 <= k < |rules| && HoldsReadValue(rules[k]);
      assert |out[k].actions| == |rules[k].actions| - 1;
      assert out[k] != rules[k];
    } else {
      forall k | 0 <= k < |rules| ensures out[k] == rules[k] {
        assert !HoldsReadValue(rules[k]);
      }
      assert out == rules;
    }
  }

  /** Restricted round trip: when no "secrets" rule holds "readValue" beforehand, the
      downgrade undoes the upgrade exactly. */
  lemma {:induction false} DowngradeUndoesUpgrade<C>(rules: seq<Rule<C>>)
    requires forall k :: 0 <= k < |rules| ==> !HoldsReadValue(rules[k])
    ensures DowngradeAll(UpgradeAll(rules)) == rules
  {
    var up := UpgradeAll(rules);
    forall k | 0 <= k < |rules| ensures DowngradeRule(up[k]) == rules[k] {
      var rule := rules[k];
      if NeedsUpgrade(rule) {
        var s := rule.actions + [ReadValue];
        var i := IndexOf(s, ReadValue);
        assert i == |rule.actions|;
        assert s[..i] == rule.actions;
        assert RemoveAt(s, i) == rule.actions;
      }
    }
  }

  /** A second downgrade finds nothing to do exactly when every "secrets" rule held
      "readValue" at most once before the first. */
  lemma {:induction false} DowngradeSettlesSingleReadValue<C>(rules: seq<Rule<C>>)
    ensures !Downgrade(DowngradeAll(rules)).shouldUpdate <==>
      forall k :: 0 <= k < |rules| && rules[k].subject == Some(Secrets) ==>
        multiset(rules[k].actions)[ReadValue] <= 1
  {
    var once := DowngradeAll(rules);
    forall k | 0 <= k < |rules| && rules[k].subject == Some(Secrets)
      ensures HoldsReadValue(once[k]) <==> multiset(rules[k].actions)[ReadValue] > 1
    {
      var a := rules[k].actions;
      assert once[k] == DowngradeRule(rules[k]);
      if HoldsReadValue(rules[k]) {
        assert multiset(once[k].actions) == multiset(a) - multiset{ReadValue};
        assert ReadValue in once[k].actions <==> multiset(once[k].actions)[ReadValue] > 0;
      } else {
        assert multiset(a)[ReadValue] == 0;
      }
    }
  }

  /** The downgrade is not idempotent: a "secrets" rule holding "readValue" twice loses
      one occurrence per run. */
  lemma DowngradeNotIdempotent<C>(conditions: Option<C>, inverted: Option<bool>)
    ensures var rules := [Rule(Some(Secrets), [ReadValue, ReadValue], conditions, inverted)];
      && Downgrade(rules).shouldUpdate
      && DowngradeAll(rules)[0].actions == [ReadValue]
      && Downgrade(DowngradeAll(rules)).shouldUpdate
  {
    var rules := [Rule(Some(Secrets), [ReadValue, ReadValue], conditions, inverted)];
    assert HoldsReadValue(rules[0]);
    assert DowngradeAll(rules)[0].actions == [ReadValue];
    assert HoldsReadValue(DowngradeAll(rules)[0]);
  }

  /** The upgrade does not undo the downgrade: "readValue" granted ahead of "read"
      comes back at the end of the list. */
  lemma UpgradeDoesNotUndoDowngrade<C>(conditions: Option<C>, inverted: Option<bool>)
    ensures var rules := [Rule(Some(Secrets), [ReadValue, Read], conditions, inverted)];
      UpgradeAll(DowngradeAll(rules))[0].actions == [Read, ReadValue] != rules[0].actions
  {
    var rules := [Rule(Some(Secrets), [ReadValue, Read], conditions, inverted)];
    assert DowngradeAll(rules)[0].actions == [Read];
  }
}
