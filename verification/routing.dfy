/**
 The router's registries and the operations that change them: `Router()`,
 `add_sink`, `add_faucet`, `add_rule`, `remove_faucet` and `remove_sink`
 (routing/__init__.py). Faucets and sinks are objects with identity; the
 registries hold references to them (`FaucetId`, `SinkId`), so one object
 may be bound under several names, and removal "by reference" compares
 identities as Python's default `==` does.
 */
module Routing {
  import opened Wrappers
  import opened Rules
  import opened RuleOrder
  import OrderedMap

  /** The identity of a faucet object. */
  type FaucetId = nat

  /** The identity of a sink object. */
  type SinkId = nat

  /**
   `_faucets` (faucet name to faucet), `_sinks` (sink name to sink, the
   default sink under None) and `_rules` (faucet name to its rule list).
   Both registries are dicts, so they remember insertion order.
   */
  datatype Router = Router(
    faucets: OrderedMap.Dict<string, FaucetId>,
    sinks: OrderedMap.Dict<Option<string>, SinkId>,
    rules: map<string, seq<Rule>>)

  /** Well-formed registries, and every rule list in priority order. */
  ghost predicate Valid(r: Router) {
    && r.faucets.Valid()
    && r.sinks.Valid()
    && forall f :: f in r.rules ==> Sorted(r.rules[f])
  }

  /** The default sink is bound (under the key None). */
  predicate HasDefault(r: Router) {
    None in r.sinks.entries
  }

  /** `Router(default_sink)`: no faucets, no rules, one sink under None. */
  function Init(default: SinkId): (r: Router)
    ensures Valid(r) && HasDefault(r) && r.sinks.entries[None] == default
    ensures r.sinks.keys == [None]
    ensures r.faucets.keys == [] && forall n :: n !in r.faucets.entries
    ensures forall f :: f !in r.rules
  {
    Router(OrderedMap.Empty(), OrderedMap.Dict([None], map[None := default]), map[])
  }

  /**
   `add_sink(sink, name)`: binds `name` to `sink`, overwriting any previous
   binding, the default's included when `name` is None.
   */
  function AddSink(r: Router, sink: SinkId, name: Option<string>): (r': Router)
    requires Valid(r)
    ensures Valid(r')
    ensures name in r'.sinks.entries && r'.sinks.entries[name] == sink
    ensures forall n :: n != name ==> (n in r'.sinks.entries <==> n in r.sinks.entries)
    ensures forall n :: n != name && n in r.sinks.entries ==> r'.sinks.entries[n] == r.sinks.entries[n]
    ensures name != None && HasDefault(r) ==> HasDefault(r') && r'.sinks.entries[None] == r.sinks.entries[None]
    // a new key goes last in the order `remove_sink` searches; a rebound key keeps its place
    ensures name in r.sinks.entries ==> r'.sinks.keys == r.sinks.keys
    ensures name !in r.sinks.entries ==> r'.sinks.keys == r.sinks.keys + [name]
    ensures r'.faucets == r.faucets && r'.rules == r.rules
  {
    r.(sinks := OrderedMap.Put(r.sinks, name, sink))
  }

  /** `add_faucet(faucet, name)`: binds `name` to `faucet`, overwriting any previous binding. */
  function AddFaucet(r: Router, faucet: FaucetId, name: string): (r': Router)
    requires Valid(r)
    ensures Valid(r')
    ensures name in r'.faucets.entries && r'.faucets.entries[name] == faucet
    ensures forall n :: n != name ==> (n in r'.faucets.entries <==> n in r.faucets.entries)
    ensures forall n :: n != name && n in r.faucets.entries ==> r'.faucets.entries[n] == r.faucets.entries[n]
    // a new name is read last by `tick`; a rebound name keeps its turn
    ensures name in r.faucets.entries ==> r'.faucets.keys == r.faucets.keys
    ensures name !in r.faucets.entries ==> r'.faucets.keys == r.faucets.keys + [name]
    ensures r'.sinks == r.sinks && r'.rules == r.rules
  {
    r.(faucets := OrderedMap.Put(r.faucets, name, faucet))
  }

  /** The rule list of faucet `f`; a faucet without an entry has none. */
  function RulesOf(r: Router, f: string): seq<Rule> {
    if f in r.rules then r.rules[f] else []
  }

  /**
   `add_rule(rule, faucet_name)`: appends `rule` to the faucet's list and
   re-sorts it by descending clause count, stably. The new rule ends up
   behind every rule with at least as many clauses and in front of every
   rule with fewer; no other faucet's list changes.
   */
  function AddRule(r: Router, rule: Rule, f: string): (r': Router)
    requires Valid(r)
    ensures Valid(r')
    ensures f in r'.rules
    ensures exists i :: InsertedAt(RulesOf(r, f), rule, r'.rules[f], i)
    ensures forall g :: g != f ==> (g in r'.rules <==> g in r.rules)
    ensures forall g :: g != f && g in r.rules ==> r'.rules[g] == r.rules[g]
    ensures r'.faucets == r.faucets && r'.sinks == r.sinks
  {
    var current := RulesOf(r, f);
    var list := SortBySpecificity(current + [rule]);
    SortSortedAppended(current, rule);
    assert exists i :: InsertedAt(current, rule, list, i);
    WithRules(r, f, list);
    r.(rules := r.rules[f := list])
  }

  /** Installing a sorted list for one faucet keeps the router well-formed. */
  lemma WithRules(r: Router, f: string, list: seq<Rule>)
    requires Valid(r) && Sorted(list)
    ensures Valid(r.(rules := r.rules[f := list]))
  {
  }

  /** `add_rule(h[0], f)`, then `add_rule(h[1], f)`, and so on. */
  function AddRules(r: Router, h: seq<Rule>, f: string): (r': Router)
    requires Valid(r)
    ensures Valid(r')
    ensures r'.faucets == r.faucets && r'.sinks == r.sinks
  {
    if h == [] then r else AddRule(AddRules(r, h[..|h| - 1], f), h[|h| - 1], f)
  }

  /**
   A faucet's rule list depends only on the rules added for it, in the
   order they were added: starting from no list, it is their stable sort.
   */
  lemma {:induction false} RulesFollowHistory(r: Router, h: seq<Rule>, f: string)
    requires Valid(r) && f !in r.rules
    ensures RulesOf(AddRules(r, h, f), f) == SortBySpecificity(h)
  {
    if h != [] {
      var n := |h| - 1;
      assert h[..n] + [h[n]] == h;
      var r1 := AddRules(r, h[..n], f);
      RulesFollowHistory(r, h[..n], f);
      assert AddRules(r, h, f) == AddRule(r1, h[n], f);
      assert RulesOf(AddRule(r1, h[n], f), f) == SortBySpecificity(RulesOf(r1, f) + [h[n]]);
      ResortAppended(h[..n], h[n]);
    }
  }

  /** `remove_faucet(name)` with a string: deletes that binding (`KeyError` if absent). */
  function RemoveFaucetByName(r: Router, name: string): (r': Router)
    requires Valid(r) && name in r.faucets.entries
    ensures Valid(r')
    ensures name !in r'.faucets.entries
    ensures forall n :: n != name ==> (n in r'.faucets.entries <==> n in r.faucets.entries)
    ensures forall n :: n != name && n in r.faucets.entries ==> r'.faucets.entries[n] == r.faucets.entries[n]
    ensures exists i :: 0 <= i < |r.faucets.keys| && r.faucets.keys[i] == name
                        && r'.faucets.keys == r.faucets.keys[..i] + r.faucets.keys[i + 1..]
    ensures r'.sinks == r.sinks && r'.rules == r.rules
  {
    r.(faucets := OrderedMap.Delete(r.faucets, name))
  }

  /**
   `remove_faucet(faucet)` with a faucet object: deletes the first name, in
   insertion order, bound to that object (`StopIteration` if there is none).
   Later names bound to the same object stay.
   */
  function RemoveFaucetByRef(r: Router, faucet: FaucetId): (r': Router)
    requires Valid(r) && faucet in r.faucets.entries.Values
    ensures Valid(r')
    ensures exists i :: OrderedMap.FirstBoundAt(r.faucets, faucet, i)
                        && r' == RemoveFaucetByName(r, r.faucets.keys[i])
  {
    var name := OrderedMap.FirstKeyOf(r.faucets, faucet).value;
    RemoveFaucetByName(r, name)
  }

  /**
   `remove_sink(name)` with a string: deletes that binding (`KeyError` if
   absent). A string is never None, so the default survives.
   */
  function RemoveSinkByName(r: Router, name: string): (r': Router)
    requires Valid(r) && Some(name) in r.sinks.entries
    ensures Valid(r')
    ensures Some(name) !in r'.sinks.entries
    ensures forall n :: n != Some(name) ==> (n in r'.sinks.entries <==> n in r.sinks.entries)
    ensures forall n :: n != Some(name) && n in r.sinks.entries ==> r'.sinks.entries[n] == r.sinks.entries[n]
    ensures HasDefault(r) ==> HasDefault(r') && r'.sinks.entries[None] == r.sinks.entries[None]
    ensures exists i :: 0 <= i < |r.sinks.keys| && r.sinks.keys[i] == Some(name)
                        && r'.sinks.keys == r.sinks.keys[..i] + r.sinks.keys[i + 1..]
    ensures r'.faucets == r.faucets && r'.rules == r.rules
  {
    r.(sinks := OrderedMap.Delete(r.sinks, Some(name)))
  }

  /**
   `remove_sink(sink)` with a sink object: deletes the first key, in
   insertion order, bound to that object (`StopIteration` if there is none).
   The key may be None: removing the default sink object by reference
   unbinds the default even when the object is also bound under a name.
   */
  function RemoveSinkByRef(r: Router, sink: SinkId): (r': Router)
    requires Valid(r) && sink in r.sinks.entries.Values
    ensures Valid(r')
    ensures exists i :: && OrderedMap.FirstBoundAt(r.sinks, sink, i)
                        && r'.sinks == OrderedMap.Delete(r.sinks, r.sinks.keys[i])
    ensures r'.faucets == r.faucets && r'.rules == r.rules
  {
    var name := OrderedMap.FirstKeyOf(r.sinks, sink).value;
    r.(sinks := OrderedMap.Delete(r.sinks, name))
  }

  /**
   The default binding is not protected: while None is the first sink key
   (as `Init` leaves it), removing the default sink object by reference
   unbinds None and only None, even when the object is also bound under
   other names.
   */
  lemma DefaultRemovedByReference(r: Router)
    requires Valid(r) && r.sinks.keys != [] && r.sinks.keys[0] == None
    ensures HasDefault(r)
    ensures var r' := RemoveSinkByRef(r, r.sinks.entries[None]);
            && !HasDefault(r')
            && forall n :: n != None ==> (n in r'.sinks.entries <==> n in r.sinks.entries)
  {
    assert None in r.sinks.keys;
    var r' := RemoveSinkByRef(r, r.sinks.entries[None]);
    var i :| OrderedMap.FirstBoundAt(r.sinks, r.sinks.entries[None], i)
             && r'.sinks == OrderedMap.Delete(r.sinks, r.sinks.keys[i]);
    assert i == 0;
  }

  /** A router built on sink 0 that also names it "log" keeps "log" but loses its default. */
  lemma DefaultRemovedByReferenceExample()
    ensures var r := AddSink(Init(0), 0, Some("log"));
            var r' := RemoveSinkByRef(r, 0);
            !HasDefault(r') && Some("log") in r'.sinks.entries
  {
    var r0 := Init(0);
    var r := AddSink(r0, 0, Some("log"));
    LogSinkAdded(r0);
    DefaultRemovedByReference(r);
  }

  /** Step of `DefaultRemovedByReferenceExample`: binding the default sink again as "log" puts "log" after `None`. */
  lemma LogSinkAdded(r0: Router)
    requires Valid(r0) && r0.sinks.keys == [None] && r0.sinks.entries[None] == 0
    ensures var r := AddSink(r0, 0, Some("log"));
            r.sinks.keys == [None, Some("log")] && r.sinks.entries[None] == 0 && Some("log") in r.sinks.entries
  {
    assert Some("log") !in r0.sinks.keys;
  }
}
