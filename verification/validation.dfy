/**
  `ValidateHours`: every reduced entry is checked against the validator's
  rules and filed, in order, under `Valid` or, with the messages of every
  rule it breaks, under `Invalid`. The validator's rules are not part of this
  model; they are a parameter. Nothing here looks inside an entry, so the
  entry type is a parameter too (`CanonicalInterimHours` in the pipeline).
 */
module Validation {
  import opened InterimHours
  import Seqs

  /** One validation rule: the entry passes when `holds` is true, otherwise
      the rule reports `message`. */
  datatype Rule<!T> = Rule(message: string, holds: T -> bool)

  /** `InvalidCanonicalInterimHours`: an entry with the reasons it was rejected. */
  datatype Invalid<T> = Invalid(hours: T, reasons: seq<string>)

  /** `CanonicalInterimHoursValidationResult`. */
  datatype ValidationResult<T> = ValidationResult(valid: seq<T>, invalid: seq<Invalid<T>>)

  /** The messages of the rules `e` breaks, in rule order (`result.Errors`). */
  function Errors<T>(rules: seq<Rule<T>>, e: T): (r: seq<string>)
    ensures |r| <= |rules|
    ensures r == [] <==> forall k :: 0 <= k < |rules| ==> rules[k].holds(e)
    decreases |rules|
  {
    if rules == [] then []
    else
      var rest := Errors(rules[1..], e);
      assert forall k :: 1 <= k < |rules| ==> rules[k] == rules[1..][k - 1];
      (if rules[0].holds(e) then [] else [rules[0].message]) + rest
  }

  /** A message is reported exactly when some rule carrying it is broken. */
  lemma {:induction false} ErrorsExact<T>(rules: seq<Rule<T>>, e: T, m: string)
    ensures m in Errors(rules, e) <==> exists k :: 0 <= k < |rules| && !rules[k].holds(e) && rules[k].message == m
    decreases |rules|
  {
    if rules != [] {
      ErrorsExact(rules[1..], e, m);
      if exists k :: 0 <= k < |rules| && !rules[k].holds(e) && rules[k].message == m {
        var k :| 0 <= k < |rules| && !rules[k].holds(e) && rules[k].message == m;
        if k > 0 { assert rules[1..][k - 1] == rules[k]; }
      }
    }
  }

  /** The failed rules of the example entry (no account number, no date) give
      both of their messages, in rule order. */
  lemma {:induction false} ErrorsInRuleOrder(e: CanonicalInterimHours)
    requires e.accountNumber.None? && e.date.None?
    ensures Errors([Rule("'Account Number' must not be empty.", (x: CanonicalInterimHours) => x.accountNumber.Some?),
                    Rule("'Date' must not be empty.", (x: CanonicalInterimHours) => x.date.Some?)], e)
            == ["'Account Number' must not be empty.", "'Date' must not be empty."]
  {
  }

  /** `result.IsValid`: no rule is broken. */
  predicate IsValid<T>(rules: seq<Rule<T>>, e: T) {
    Errors(rules, e) == []
  }

  /** The entries of a list of invalid records. */
  function HoursOf<T>(invalid: seq<Invalid<T>>): (r: seq<T>)
    ensures |r| == |invalid|
    ensures forall i :: 0 <= i < |r| ==> r[i] == invalid[i].hours
    decreases |invalid|
  {
    if invalid == [] then [] else [invalid[0].hours] + HoursOf(invalid[1..])
  }

  /** `ValidateHours`: the entries in order, each filed under `Valid` or,
      with its reasons, under `Invalid`. */
  function ValidateHours<T>(rules: seq<Rule<T>>, es: seq<T>): (r: ValidationResult<T>)
    ensures |r.valid| + |r.invalid| == |es|
    decreases |es|
  {
    if es == [] then ValidationResult([], [])
    else
      var rest := ValidateHours(rules, es[1..]);
      if IsValid(rules, es[0]) then ValidationResult([es[0]] + rest.valid, rest.invalid)
      else ValidationResult(rest.valid, [Invalid(es[0], Errors(rules, es[0]))] + rest.invalid)
  }

  /** Only entries that break no rule are valid. */
  lemma {:induction false} ValidSideValid<T>(rules: seq<Rule<T>>, es: seq<T>)
    ensures forall i :: 0 <= i < |ValidateHours(rules, es).valid| ==> IsValid(rules, ValidateHours(rules, es).valid[i])
    decreases |es|
  {
    if es != [] {
      ValidSideValid(rules, es[1..]);
      var rest := ValidateHours(rules, es[1..]);
      var r := ValidateHours(rules, es);
      if IsValid(rules, es[0]) {
        forall i | 0 <= i < |r.valid| ensures IsValid(rules, r.valid[i]) {
          if i > 0 { assert r.valid[i] == rest.valid[i - 1]; }
        }
      }
    }
  }

  /** Every invalid record carries exactly the messages of the rules its entry
      breaks, and at least one. */
  lemma {:induction false} InvalidSideReasons<T>(rules: seq<Rule<T>>, es: seq<T>)
    ensures forall i :: 0 <= i < |ValidateHours(rules, es).invalid| ==>
              var x := ValidateHours(rules, es).invalid[i];
              x.reasons == Errors(rules, x.hours) && x.reasons != []
    decreases |es|
  {
    if es != [] {
      InvalidSideReasons(rules, es[1..]);
      var rest := ValidateHours(rules, es[1..]);
      var r := ValidateHours(rules, es);
      if !IsValid(rules, es[0]) {
        forall i | 0 <= i < |r.invalid|
          ensures r.invalid[i].reasons == Errors(rules, r.invalid[i].hours) && r.invalid[i].reasons != []
        {
          if i > 0 { assert r.invalid[i] == rest.invalid[i - 1]; }
        }
      }
    }
  }

  /** Every entry lands on exactly one side: together the two sides hold the
      input entries with their multiplicities. */
  lemma {:induction false} ValidateHoursPartition<T>(rules: seq<Rule<T>>, es: seq<T>)
    ensures var r := ValidateHours(rules, es);
            multiset(r.valid) + multiset(HoursOf(r.invalid)) == multiset(es)
    decreases |es|
  {
    if es != [] {
      ValidateHoursPartition(rules, es[1..]);
      var rest := ValidateHours(rules, es[1..]);
      var r := ValidateHours(rules, es);
      assert multiset(es) == multiset{es[0]} + multiset(es[1..]) by {
        assert es == [es[0]] + es[1..];
      }
      if IsValid(rules, es[0]) {
        assert r.valid == [es[0]] + rest.valid && r.invalid == rest.invalid;
      } else {
        var x := Invalid(es[0], Errors(rules, es[0]));
        assert r.valid == rest.valid && r.invalid == [x] + rest.invalid;
        assert ([x] + rest.invalid)[1..] == rest.invalid;
        assert HoursOf(r.invalid) == [es[0]] + HoursOf(rest.invalid);
      }
    }
  }

  /** Both sides keep the input order. */
  lemma {:induction false} ValidateHoursOrder<T>(rules: seq<Rule<T>>, es: seq<T>)
    ensures var r := ValidateHours(rules, es);
            Seqs.Subsequence(r.valid, es) && Seqs.Subsequence(HoursOf(r.invalid), es)
    decreases |es|
  {
    if es != [] {
      ValidateHoursOrder(rules, es[1..]);
      var rest := ValidateHours(rules, es[1..]);
      if IsValid(rules, es[0]) {
        assert ([es[0]] + rest.valid)[1..] == rest.valid;
        Seqs.SubsequenceDropHead(HoursOf(rest.invalid), es);
      } else {
        var x := Invalid(es[0], Errors(rules, es[0]));
        assert HoursOf([x] + rest.invalid) == [es[0]] + HoursOf(rest.invalid);
        assert ([es[0]] + HoursOf(rest.invalid))[1..] == HoursOf(rest.invalid);
        Seqs.SubsequenceDropHead(rest.valid, es);
      }
    }
  }

  /** What membership of either side says about an entry. */
  lemma {:induction false} SideMembership<T>(rules: seq<Rule<T>>, es: seq<T>, x: T)
    ensures x in ValidateHours(rules, es).valid ==> IsValid(rules, x)
    ensures x in HoursOf(ValidateHours(rules, es).invalid) ==>
              !IsValid(rules, x) && Invalid(x, Errors(rules, x)) in ValidateHours(rules, es).invalid
  {
    var r := ValidateHours(rules, es);
    ValidSideValid(rules, es);
    InvalidSideReasons(rules, es);
    if x in HoursOf(r.invalid) {
      var j :| 0 <= j < |HoursOf(r.invalid)| && HoursOf(r.invalid)[j] == x;
      assert r.invalid[j] == Invalid(x, Errors(rules, x));
    }
  }

  /** Every entry is filed on the side its rules decide: valid entries under
      `Valid`, the others under `Invalid` with their reasons. */
  lemma {:induction false} ValidateHoursFiling<T>(rules: seq<Rule<T>>, es: seq<T>, i: nat)
    requires i < |es|
    ensures var r := ValidateHours(rules, es);
            && (IsValid(rules, es[i]) ==> es[i] in r.valid)
            && (!IsValid(rules, es[i]) ==> Invalid(es[i], Errors(rules, es[i])) in r.invalid)
  {
    var r := ValidateHours(rules, es);
    ValidateHoursPartition(rules, es);
    assert es[i] in multiset(r.valid) + multiset(HoursOf(r.invalid)) by {
      assert es[i] in multiset(es);
    }
    SideMembership(rules, es, es[i]);
  }
}
