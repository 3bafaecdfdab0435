# pa_router message routing, in Dafny

The model covers the rule-based dispatcher of pa_router, found in `routing/__init__.py`. A `Router` holds three things:

- a registry of faucets: named message sources;
- a registry of sinks: named message destinations, with the default sink under the key `None`;
- for each faucet name, a list of `Rule`s.

`tick()` walks the faucets in registration order and reads at most one message from each. It then picks a destination for the message, in this order:

1. the message's explicit `"to"`;
2. otherwise, the target of the first rule in the faucet's list that matches the sender attributes in `message['from']`;
3. in either case, if no sink is bound under the chosen key, the default sink.

The message is written to that one sink. `add_rule` keeps each faucet's rule list sorted by descending clause count. Because Python's `sorted` is stable, rules with the same clause count stay in the order they were added.

The modules, each in a file of its own:

- `Wrappers` (`wrappers.dfy`): `Option`.
- `OrderedMap` (`ordered_map.dfy`): a Python `dict`. It is a map that remembers key insertion order, which decides the order in which `tick` reads faucets and the order in which removal by reference searches.
- `Messages` (`message.dfy`): a message's `from` attributes, its optional `to`, and an opaque payload.
- `Rules` (`rule.dfy`): `Rule`, `matches`, `len(rule)`, and the first-match loop of `tick`.
- `RuleOrder` (`rule_order.dfy`): the stable sort by clause count. It also proves that the first match in the sorted list is the matching rule with the most clauses, and among those the earliest added.
- `Routing` (`routing.dfy`): the registries and the operations that change them.
- `Dispatch` (`dispatch.dfy`): `tick`.
  - Faucets and sinks are objects with identity. The registries hold references to them: `FaucetId` and `SinkId`.
  - The objects themselves live in a `World`. There, a faucet is a message queue and a sink is an append-only log, as in the in-memory faucet and sink of the router's tests.
  - `tick` returns the new `World` together with the list of writes it made (`Delivery`s).
- `DispatchProperties` (`dispatch_properties.dfy`): what one `tick` amounts to. This covers:
  - which sink each message goes to;
  - which faucets are read;
  - what removing a faucet changes;
  - the router's own test scenarios.

Nothing in the code protects the default sink:

- `add_sink(s, None)` rebinds the default;
- `remove_sink(default_sink)` by reference deletes key `None` whenever it is the first key bound to that object, which it is unless `None` was deleted and bound again later.

The model follows the code. `Routing.DefaultRemovedByReference` proves that the default can be lost this way. `tick` therefore takes "`None` is bound" as a precondition (`HasDefault`) rather than relying on an invariant.

Most operations require `Routing.Valid`:

- each registry lists every bound key exactly once;
- every rule list is sorted.

`Init` establishes `Valid` and every operation preserves it. Every router built through the API therefore meets this requirement.

## Model

| member | source | states |
|---|---|---|
| OrderedMap.Put | routing/__init__.py:17-21 | `d[k] = v` binds `k` to `v` and leaves every other binding unchanged. A key already present keeps its position; a new key is appended last. |
| OrderedMap.Delete | routing/__init__.py:51 | `del d[k]` unbinds exactly `k` and leaves every other binding unchanged. The remaining keys keep their relative order (one position is cut out). |
| OrderedMap.FirstKeyOf | routing/__init__.py:50 | `next(k for k, v in d.items() if v == x)` yields the first key in insertion order bound to `x`. It yields nothing exactly when `x` is not a value of `d`. |
| Rules.Matches | routing/__init__.py:68-70 | A rule matches exactly when every clause key is among the sender attributes with an equal value. A rule with no clauses matches every message. |
| Rules.FirstMatch | routing/__init__.py:38-41 | The rule where the `for ... break` loop stops is a matching rule with no matching rule before it. It yields nothing exactly when no rule matches. |
| RuleOrder.Insert | routing/__init__.py:23-29 | Inserting a rule into a sorted list keeps it sorted and adds exactly that rule. The rule lands after every rule with at least as many clauses and before every rule with fewer. Each clause-count group keeps its order, with the new rule last in its group. |
| RuleOrder.SortBySpecificity | routing/__init__.py:27-29 | `sorted(key=len, reverse=True)` yields a permutation in non-increasing clause count. It is stable: the rules of each clause count stay in their original order. |
| RuleOrder.StableSortUnique | routing/__init__.py:27-29 | Two sorted lists with the same rules of each clause count, in the same order, are equal. Any stable descending sort therefore gives the model's result. |
| RuleOrder.ResortAppended | routing/__init__.py:23-29 | Appending to an already-sorted list and sorting again gives the same list as sorting the whole history. Either way it equals inserting the new rule into the old sorted list. |
| RuleOrder.PriorityOfSortedRules | routing/__init__.py:37-41 | The first match in the sorted list is the winning rule of the history: more clauses beats fewer regardless of when the rules were added, and at equal counts the earlier-added rule wins. Nothing is found exactly when no rule matches. |
| Routing.Init | routing/__init__.py:11-15 | A new router has no faucets and no rule lists. Its only sink is the default, under `None`. |
| Routing.AddSink | routing/__init__.py:17-18 | `add_sink(sink, name)` rebinds only `name`. When `name` is not `None`, the default stays bound to the same object. A new key goes last in the order removal by reference searches; a rebound key keeps its place. |
| Routing.AddFaucet | routing/__init__.py:20-21 | `add_faucet(faucet, name)` rebinds only `name`. A new name is read last by `tick`; a rebound name keeps its turn. |
| Routing.AddRule | routing/__init__.py:23-29 | `add_rule(rule, f)` turns `f`'s list into the old list with `rule` inserted after every rule with at least as many clauses and before every rule with fewer. Every other faucet's list and both registries are unchanged. |
| Routing.RulesFollowHistory | routing/__init__.py:23-29 | After a sequence of `add_rule` calls for a faucet that had no list, its list is the stable sort of the rules in the order they were added. |
| Routing.RemoveFaucetByName | routing/__init__.py:46-51 | `remove_faucet(name)` with a string deletes exactly that name. The other names keep their bindings and their order. |
| Routing.RemoveFaucetByRef | routing/__init__.py:46-51 | `remove_faucet(faucet)` with an object deletes the first name in insertion order bound to it, and nothing else. |
| Routing.RemoveSinkByName | routing/__init__.py:53-58 | `remove_sink(name)` with a string deletes exactly that name. The other keys keep their bindings and their order, and the default stays bound to the same object. |
| Routing.RemoveSinkByRef | routing/__init__.py:53-58 | `remove_sink(sink)` with an object deletes the first key in insertion order bound to it. That key may be `None`. |
| Routing.DefaultRemovedByReference | routing/__init__.py:53-58 | While `None` is the first sink key, removing the default sink object by reference unbinds `None` and only `None`, even when the object is also bound under a name. |
| Routing.DefaultRemovedByReferenceExample | routing/__init__.py:11-58 | Concrete case: a router built on sink 0 that also binds sink 0 as "log" loses its default after `remove_sink(0)` and keeps "log". |
| Dispatch.Read | test/router_test.py:27-31 | `faucet.read()` returns and removes the oldest queued message. It returns None exactly when the queue is empty, and touches no other faucet or any sink. |
| Dispatch.Write | test/router_test.py:11-12 | `sink.write(m)` appends `m` to that sink's log and to no other. |
| Dispatch.Resolve | routing/__init__.py:36-43 | The destination is always a bound sink key. It is the requested destination (`to`, or else the first matching rule's target) when that key is bound, and `None` otherwise. |
| Dispatch.Service | routing/__init__.py:33-44 | One iteration of the loop reads its faucet once. An empty faucet causes no write. Otherwise the faucet's oldest message is appended to exactly one sink, the one its resolved destination is bound to. |
| Dispatch.TickOver | routing/__init__.py:32-44 | Over the given names, each faucet object loses as many messages as names it is bound under, or all it holds if fewer, and the messages delivered from those names are exactly the ones it lost, oldest first. Each sink's log grows by exactly the messages delivered to it, in order. Deliveries follow the order of the names, at most one per name, and each went where `Resolve` sends it. |
| Dispatch.Tick | routing/__init__.py:31-44 | The same accounting for a pass over all registered faucets: what each faucet object lost is what was delivered from it, and the deliveries follow registration order. |
| DispatchProperties.RoutedByPriority | routing/__init__.py:36-43 | For a message without `to`, the resolved destination is the target of the winning rule for its faucet, or `None` when that target has no sink or no rule matches. A winner exists whenever some rule matches. The order in which rules of different clause counts were added plays no part. |
| DispatchProperties.ExplicitDestinationOverridesRules | routing/__init__.py:36-44 | A message with `to`, including `""`, never consults the rules. It goes to the sink bound under that name, or else to the default. |
| DispatchProperties.MoreSpecificRuleWinsExample | routing/__init__.py:23-41 | Concrete case: with rules `sink1` on `media, user` and `sink2` on `media`, a matching message goes to `sink1` whichever rule was added first. |
| DispatchProperties.TickOverMatchesPlan | routing/__init__.py:32-44 | When no faucet object is bound under two names, a pass delivers exactly one message from each non-empty faucet, in registration order. An empty faucet writes nothing and does not stop later faucets. |
| DispatchProperties.TickOverFollowsSchedule | routing/__init__.py:32-44 | Aliases or not, the loop's deliveries are exactly the schedule: in the order of the names, the name at each turn takes the next unread message of its faucet object, stated against the queues before the pass. It routes that message with its own rules, and an object with no message left yields nothing. |
| DispatchProperties.TickFollowsSchedule | routing/__init__.py:31-44 | The same exact delivery list for `tick()` over the registered names in registration order. |
| DispatchProperties.AliasedFaucetExample | routing/__init__.py:31-44 | Concrete case: faucet object 1 is registered as "a" and then "b" and holds one message, and only "b" has a catch-all rule. "a" reads the message and sends it to the default sink; "b" writes nothing. |
| DispatchProperties.TickLosesNoMessage | routing/__init__.py:31-35 | Aliases or not, the messages a pass delivered from a faucet object, followed by what stays queued in it, are the queue it started with. |
| DispatchProperties.TickReadsEachFaucetOnce | routing/__init__.py:32-35 | When no faucet object is bound under two names, every registered faucet loses exactly its oldest message, if any. An unregistered faucet keeps its queue. |
| DispatchProperties.RemovedFaucetIsNotRead | routing/__init__.py:46-51 | After `remove_faucet(name)`, the next `tick` makes the same deliveries as before the removal, minus the removed faucet's. |
| DispatchProperties.RemovedFaucetKeepsQueue | routing/__init__.py:46-51 | After `remove_faucet(name)`, the next `tick` does not read the removed faucet object; its queue is left untouched. |
| DispatchProperties.DefaultSinkExample | test/router_test.py:87-92 | Concrete case: with only the default sink and no rules, an empty faucet "b" registered before faucet "a" writes nothing. The message of "a" lands on the default sink. |

## Left out

- Dispatch.Tick: requires that the default key `None` is bound. The source fails at line 44 only when some message actually falls back to an unbound `None`. Passes that never need the default are not modelled when it is missing.
- Dispatch.TickOver: the same `None`-is-bound precondition as `Dispatch.Tick`, for the same reason.
- Dispatch.Service: the same `None`-is-bound precondition; an iteration whose message does not fall back to `None` would succeed in the source without it.
- Dispatch.Resolve: the same `None`-is-bound precondition; lines 36-43 never fail without a default, and the missing default only matters at the write on line 44.
- Dispatch.TickOver: its own contract does not say which alias reads which message when one faucet object, bound under several names, holds fewer messages than names. So it also does not fix the rule list that routes each of those messages. `DispatchProperties.TickOverFollowsSchedule` states the exact list.
- Dispatch.Tick: the same alias gap in its own contract; `DispatchProperties.TickFollowsSchedule` states the exact list.
- DispatchProperties.TickOverMatchesPlan: the one-message-per-faucet plan is stated only when no faucet object is bound under two names. With such aliases, `DispatchProperties.TickOverFollowsSchedule` gives the exact delivery list instead.
- DispatchProperties.TickReadsEachFaucetOnce: same restriction. With aliases, `Dispatch.Tick` states that an object loses as many messages as names it is bound under, or all it holds if fewer.
- DispatchProperties.RemovedFaucetIsNotRead: same restriction, because the comparison goes through the exact delivery lists.
- DispatchProperties.RemovedFaucetKeepsQueue: same restriction. With aliases, the object is still read through its other names.
- Rules.Matches: clause values are strings. A clause `k=None` is not modelled; the source would let it match a sender that lacks `k`.
- A message without a `from` field is not modelled. The source raises `KeyError` in `matches`, and only when the faucet has rules.
- A `to` value that is neither a string nor absent/null, such as a number, is not modelled.
- Removal is split by argument type: by name for `str`, by reference otherwise.
  - The `KeyError` of `del` for an unbound name and the `StopIteration` of `next` for an unbound object are preconditions.
  - A `None` passed to `remove_faucet` or `remove_sink` would search for a `None` value and fail. Objects are references here, so this case is not modelled.
- Faucet and sink equality is object identity, which is Python's default for these classes. A user-defined `__eq__` is not modelled.
- `Faucet`, `Sink` (routing/__init__.py:1-6) and `Rule.target` and `Rule.__len__` (routing/__init__.py:72-77) are represented by the datatypes and `Rules.Specificity`. There is no separate behaviour to state.
- Exceptions thrown by a faucet's `read` or a sink's `write` are not modelled. Neither is any other kind of faucet or sink than a queue or a log.
- The code has no sink factory and no snapshot of the registries. Neither is modelled.
- Files other than `routing/__init__.py` are not part of this model:
  - file-descriptor channels (`routing/channel.py`);
  - process runners (`routing/runner.py`, `runner/__init__.py`);
  - the earlier asyncio and tmux routers (`router.py`, `router2.py`, `router3.py`, `router/__init__.py`);
  - JSON line framing of the endpoints.
- The router's tests call an older API: `add_faucet(faucet)`, `add_sink(sink, rule)`, and `Rule` without a target. They are used only for the queue and log objects and for the empty-faucet scenario.
