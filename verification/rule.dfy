/**
 A routing rule: a destination plus clauses on the sender attributes. The
 number of clauses is the rule's specificity (`len(rule)`).
 */
module Rules {
  import opened Wrappers
  import opened Messages

  /**
   `Rule(target, **clauses)`. The target is the sink key the rule routes to;
   a target of None routes to the default sink, the same key `tick` falls
   back to.
   */
  datatype Rule = Rule(target: Option<string>, clauses: map<string, string>)

  /** `len(rule)`: the clause count, used as priority. */
  function Specificity(rule: Rule): nat {
    |rule.clauses|
  }

  /**
   `rule.matches(message)`: every clause `k = v` agrees with
   `message['from'].get(k)`. A clause whose key the sender lacks fails,
   since `None` never equals a string.
   */
  function Matches(rule: Rule, m: Message): (b: bool)
    ensures b <==> rule.clauses.Keys <= m.from.Keys
                   && forall k :: k in rule.clauses ==> m.from[k] == rule.clauses[k]
    ensures Specificity(rule) == 0 ==> b
  {
    forall k | k in rule.clauses :: Get(m.from, k) == Some(rule.clauses[k])
  }

  /**
   The rule the `for rule in rules: if rule.matches(message): ... break`
   loop stops at, if any: the earliest matching rule of the list.
   */
  function FirstMatch(rules: seq<Rule>, m: Message): (r: Option<Rule>)
    ensures r.None? <==> forall i :: 0 <= i < |rules| ==> !Matches(rules[i], m)
    ensures r.Some? ==> Matches(r.value, m)
    ensures r.Some? ==> exists i :: 0 <= i < |rules| && rules[i] == r.value
                                    && forall j :: 0 <= j < i ==> !Matches(rules[j], m)
  {
    if rules == [] then None
    else if Matches(rules[0], m) then Some(rules[0])
    else
      var r := FirstMatch(rules[1..], m);
      assert forall i :: 0 < i < |rules| ==> rules[i] == rules[1..][i - 1];
      r
  }
}
