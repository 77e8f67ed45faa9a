/** Resolving where a browser may be sent (packages/utils/src/redirect.rs). */
module Redirect {
  import opened Wrappers

  /** Regular expressions are modelled by the set they match. */
  datatype Rule = AnyTarget | Regex(matches: string -> bool) | Strict(value: string)

  datatype Config = Config(fallback: Option<string>, dynamic: bool, allowed: seq<Rule>)

  datatype Error = Disabled | Malformed | NotAllowed | NoDefault | BadDefault | NoRules | BadRule(value: string)

  /** The syntax check for the kind of URI in use. */
  type Syntax = string -> bool

  predicate Matches(rule: Rule, target: string) {
    match rule
    case AnyTarget => true
    case Regex(matches) => matches(target)
    case Strict(value) => value == target
  }

  predicate Allowed(rules: seq<Rule>, target: string) { exists i :: 0 <= i < |rules| && Matches(rules[i], target) }

  function Resolve(config: Config, requested: Option<string>, syntax: Syntax): Result<string, Error> {
    match requested
    case Some(target) =>
      if !config.dynamic then Err(Disabled)
      else if !syntax(target) then Err(Malformed)
      else if Allowed(config.allowed, target) then Ok(target)
      else Err(NotAllowed)
    case None =>
      if config.fallback.None? then Err(NoDefault)
      else if !syntax(config.fallback.value) then Err(Malformed)
      else Ok(config.fallback.value)
  }

  /** A target the configuration lets a browser be sent to. */
  ghost predicate Sanctioned(config: Config, target: string) {
    config.fallback == Some(target) || (config.dynamic && Allowed(config.allowed, target))
  }

  /** Only sanctioned, well-formed targets come out, and every such target can. */
  lemma ResolvesExactlySanctioned(config: Config, target: string, syntax: Syntax)
    ensures (exists requested :: Resolve(config, requested, syntax) == Ok(target)) <==>
              Sanctioned(config, target) && syntax(target)
  {
    if Sanctioned(config, target) && syntax(target) {
      if config.fallback == Some(target) {
        assert Resolve(config, None, syntax) == Ok(target);
      } else {
        assert Resolve(config, Some(target), syntax) == Ok(target);
      }
    }
  }

  /** Some rule lets every target through, matches this one, or spells it. */
  ghost predicate Passed(rules: seq<Rule>, t: string) {
    exists i :: 0 <= i < |rules| && (rules[i].AnyTarget? || (rules[i].Regex? && rules[i].matches(t))
                                     || rules[i] == Strict(t))
  }

  /** A request is answered with exactly the target it asks for, if targets may be asked
      for at all, the target is well formed and some rule lets it through; a refused target
      never becomes the default. Without a target the answer is the default, if there is a
      well-formed one. The error is the first thing that is wrong. */
  lemma ResolvesRequest(config: Config, requested: Option<string>, syntax: Syntax)
    ensures match (requested, Resolve(config, requested, syntax))
      case (Some(t), Ok(r)) =>
        r == t && config.dynamic && syntax(t) && Passed(config.allowed, t)
      case (Some(t), Err(e)) =>
        && (e == Disabled <==> !config.dynamic)
        && (e == Malformed <==> config.dynamic && !syntax(t))
        && (e == NotAllowed <==> config.dynamic && syntax(t) && !Passed(config.allowed, t))
        && e in {Disabled, Malformed, NotAllowed}
      case (None, Ok(r)) => config.fallback == Some(r) && syntax(r)
      case (None, Err(e)) =>
        && (e == NoDefault <==> config.fallback.None?)
        && (e == Malformed <==> config.fallback.Some? && !syntax(config.fallback.value))
        && e in {NoDefault, Malformed}
  {
    if requested.Some? { AllowedMeans(config.allowed, requested.value); }
  }

  lemma AllowedMeans(rules: seq<Rule>, t: string)
    ensures Allowed(rules, t) <==> Passed(rules, t)
  {
    assert forall i :: 0 <= i < |rules| ==>
      (Matches(rules[i], t) <==> rules[i].AnyTarget? || (rules[i].Regex? && rules[i].matches(t))
                                 || rules[i] == Strict(t));
  }

  // ----- validation at start-up -----

  ghost predicate Valid(config: Config, syntax: Syntax) {
    && (config.fallback.Some? ==> syntax(config.fallback.value))
    && (config.dynamic ==> config.allowed != [])
    && (forall i :: 0 <= i < |config.allowed| && config.allowed[i].Strict? ==> syntax(config.allowed[i].value))
  }

  /** Passes exactly the valid configurations, and names the first rule at fault. */
  method Validate(config: Config, syntax: Syntax) returns (r: Option<Error>)
    ensures r.None? <==> Valid(config, syntax)
    ensures r == Some(BadDefault) <==> config.fallback.Some? && !syntax(config.fallback.value)
    ensures r.Some? && r.value.BadRule? ==>
      exists i :: && 0 <= i < |config.allowed| && config.allowed[i] == Strict(r.value.value) && !syntax(r.value.value)
                  && forall k :: 0 <= k < i && config.allowed[k].Strict? ==> syntax(config.allowed[k].value)
  {
    if config.fallback.Some? && !syntax(config.fallback.value) { return Some(BadDefault); }
    if config.dynamic && config.allowed == [] { return Some(NoRules); }
    for i := 0 to |config.allowed|
      invariant forall k :: 0 <= k < i && config.allowed[k].Strict? ==> syntax(config.allowed[k].value)
    {
      var rule := config.allowed[i];
      if rule.Strict? && !syntax(rule.value) { return Some(BadRule(rule.value)); }
    }
    return None;
  }

  /** In a valid configuration a request fails only for what was requested, and the
      default and every strict target resolve. */
  lemma ValidResolves(config: Config, requested: Option<string>, syntax: Syntax)
    requires Valid(config, syntax)
    ensures requested.None? ==> (Resolve(config, requested, syntax).Ok? <==> config.fallback.Some?)
    ensures requested.Some? && config.dynamic && Strict(requested.value) in config.allowed ==>
              Resolve(config, requested, syntax) == Ok(requested.value)
  {
    if requested.Some? && Strict(requested.value) in config.allowed {
      var i :| 0 <= i < |config.allowed| && config.allowed[i] == Strict(requested.value);
      assert Matches(config.allowed[i], requested.value);
    }
  }
}
