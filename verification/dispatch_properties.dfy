/**
 What one `tick` amounts to, stated against registries and faucet queues
 as they stand before the pass: the destination every message gets, the
 faucets that are read, and the effect of removing a faucet.
 */
module DispatchProperties {
  import opened Wrappers
  import opened Messages
  import opened Rules
  import opened RuleOrder
  import opened Routing
  import opened Dispatch
  import OrderedMap

  // ----- Destination resolution -----

  /** At most one rule of a history is the winner for a message. */
  lemma WinnerUnique(h: seq<Rule>, m: Message, i: int, j: int)
    requires Winner(h, i, m) && Winner(h, j, m)
    ensures i == j
  {
  }

  /**
   With no `to`, a message of faucet `f` goes to the target of the winning
   rule among those added for `f` (more clauses first, then the earliest
   added), or to the default sink when that target has no sink or no rule
   matches. The order in which rules of different clause counts were
   added plays no part.
   */
  lemma RoutedByPriority(r0: Router, h: seq<Rule>, f: string, m: Message)
    requires Valid(r0) && HasDefault(r0) && f !in r0.rules
    requires m.to.None?
    ensures (forall j :: 0 <= j < |h| ==> !Matches(h[j], m)) ==> Resolve(AddRules(r0, h, f), f, m) == None
    ensures (exists j :: 0 <= j < |h| && Matches(h[j], m)) ==> exists i :: Winner(h, i, m)
    ensures forall i :: Winner(h, i, m) ==>
              Resolve(AddRules(r0, h, f), f, m) == if h[i].target in r0.sinks.entries then h[i].target else None
  {
    var r := AddRules(r0, h, f);
    RulesFollowHistory(r0, h, f);
    PriorityOfSortedRules(h, m);
    forall i | Winner(h, i, m)
      ensures Resolve(r, f, m) == if h[i].target in r0.sinks.entries then h[i].target else None
    {
      var x := FirstMatch(SortBySpecificity(h), m);
      assert x.Some?;
      var i' :| Winner(h, i', m) && h[i'] == x.value;
      WinnerUnique(h, m, i, i');
    }
  }

  /**
   A message with a `to` field never consults the rules: it goes to the
   sink bound to that name, "" included, or else to the default sink.
   */
  lemma ExplicitDestinationOverridesRules(r: Router, f: string, m: Message, rules: map<string, seq<Rule>>)
    requires HasDefault(r) && m.to.Some?
    ensures Resolve(r, f, m) == Resolve(r.(rules := rules), f, m)
    ensures m.to in r.sinks.entries ==> Resolve(r, f, m) == m.to
    ensures m.to !in r.sinks.entries ==> Resolve(r, f, m) == None
  {
  }

  /**
   Two rules for faucet "test", `sink1` on `media=telegram, user=123456`
   and `sink2` on `media=telegram`: a message from that telegram user goes
   to `sink1`, whichever rule was added first.
   */
  lemma MoreSpecificRuleWinsExample(first: bool)
    ensures var narrow := Rule(Some("sink1"), map["media" := "telegram", "user" := "123456"]);
            var broad := Rule(Some("sink2"), map["media" := "telegram"]);
            var h := if first then [narrow, broad] else [broad, narrow];
            var r0 := AddSink(AddSink(Init(0), 1, Some("sink1")), 2, Some("sink2"));
            var m := Message(map["media" := "telegram", "user" := "123456"], None, "hello");
            Resolve(AddRules(r0, h, "test"), "test", m) == Some("sink1")
  {
    var narrow, broad, m := ExampleRules();
    var h := if first then [narrow, broad] else [broad, narrow];
    var r0 := ExampleSinks();
    TwoRulesWinner(narrow, broad, m, first);
    RoutedByPriority(r0, h, "test", m);
  }

  /** Of two matching rules, the one with more clauses wins in either order. */
  lemma TwoRulesWinner(narrow: Rule, broad: Rule, m: Message, first: bool)
    requires Specificity(broad) < Specificity(narrow)
    requires Matches(narrow, m) && Matches(broad, m)
    ensures Winner(if first then [narrow, broad] else [broad, narrow], if first then 0 else 1, m)
  {
  }

  /** The two rules and the message of `MoreSpecificRuleWinsExample`. */
  lemma ExampleRules() returns (narrow: Rule, broad: Rule, m: Message)
    ensures narrow == Rule(Some("sink1"), map["media" := "telegram", "user" := "123456"])
    ensures broad == Rule(Some("sink2"), map["media" := "telegram"])
    ensures m == Message(map["media" := "telegram", "user" := "123456"], None, "hello")
    ensures Specificity(narrow) == 2 && Specificity(broad) == 1
    ensures Matches(narrow, m) && Matches(broad, m)
  {
    narrow := Rule(Some("sink1"), map["media" := "telegram", "user" := "123456"]);
    broad := Rule(Some("sink2"), map["media" := "telegram"]);
    m := Message(map["media" := "telegram", "user" := "123456"], None, "hello");
    assert narrow.clauses.Keys == {"media", "user"};
    assert broad.clauses.Keys == {"media"};
  }

  /** The registry of `MoreSpecificRuleWinsExample`, before any rule is added. */
  lemma ExampleSinks() returns (r0: Router)
    ensures r0 == AddSink(AddSink(Init(0), 1, Some("sink1")), 2, Some("sink2"))
    ensures Valid(r0) && HasDefault(r0) && "test" !in r0.rules
    ensures Some("sink1") in r0.sinks.entries
  {
    var r1 := AddSink(Init(0), 1, Some("sink1"));
    r0 := AddSink(r1, 2, Some("sink2"));
    assert Some("sink1") != Some("sink2");
  }

  // ----- One pass over the faucets -----

  /** No two registered names share a faucet object. */
  ghost predicate DistinctFaucets(r: Router, names: seq<string>)
    requires forall n :: n in names ==> n in r.faucets.entries
  {
    forall i, j :: 0 <= i < j < |names| ==> r.faucets.entries[names[i]] != r.faucets.entries[names[j]]
  }

  /**
   What faucet `n` contributes to a pass, judged from the state before the
   pass: nothing if its queue is empty, otherwise its oldest message,
   delivered where `Resolve` sends it.
   */
  function PlanOne(r: Router, w: World, n: string): seq<Delivery>
    requires HasDefault(r) && n in r.faucets.entries
  {
    var queue := Queue(w, r.faucets.entries[n]);
    if queue == [] then []
    else
      var dest := Resolve(r, n, queue[0]);
      [Delivery(n, queue[0], dest, r.sinks.entries[dest])]
  }

  /** The deliveries of a pass over `names`, faucet by faucet, empty faucets skipped. */
  function Planned(r: Router, w: World, names: seq<string>): seq<Delivery>
    requires HasDefault(r) && forall n :: n in names ==> n in r.faucets.entries
  {
    if names == [] then [] else PlanOne(r, w, names[0]) + Planned(r, w, names[1..])
  }

  /** The plan over `a + b` is the plan over `a` followed by the plan over `b`. */
  lemma {:induction false} PlannedAppend(r: Router, w: World, a: seq<string>, b: seq<string>)
    requires HasDefault(r)
    requires forall n :: n in a ==> n in r.faucets.entries
    requires forall n :: n in b ==> n in r.faucets.entries
    ensures Planned(r, w, a + b) == Planned(r, w, a) + Planned(r, w, b)
  {
    if a == [] {
      assert a + b == b;
    } else {
      assert (a + b)[0] == a[0] && (a + b)[1..] == a[1..] + b;
      PlannedAppend(r, w, a[1..], b);
    }
  }

  /** The plan only looks at the queues of the faucets it covers. */
  lemma {:induction false} PlannedFrame(r: Router, w: World, w': World, names: seq<string>)
    requires HasDefault(r) && forall n :: n in names ==> n in r.faucets.entries
    requires forall n :: n in names ==> Queue(w', r.faucets.entries[n]) == Queue(w, r.faucets.entries[n])
    ensures Planned(r, w', names) == Planned(r, w, names)
  {
    if names != [] {
      PlannedFrame(r, w, w', names[1..]);
    }
  }

  /** Every planned delivery comes from one of the covered names. */
  lemma {:induction false} PlannedSources(r: Router, w: World, names: seq<string>)
    requires HasDefault(r) && forall n :: n in names ==> n in r.faucets.entries
    ensures forall d :: d in Planned(r, w, names) ==> d.faucet in names
  {
    if names != [] {
      PlannedSources(r, w, names[1..]);
    }
  }

  /** Dropping the first name keeps the faucets of the others distinct. */
  lemma DistinctTail(r: Router, names: seq<string>)
    requires names != [] && forall n :: n in names ==> n in r.faucets.entries
    requires DistinctFaucets(r, names)
    ensures DistinctFaucets(r, names[1..])
  {
    forall i, j | 0 <= i < j < |names[1..]|
      ensures r.faucets.entries[names[1..][i]] != r.faucets.entries[names[1..][j]]
    {
      assert names[1..][i] == names[i + 1] && names[1..][j] == names[j + 1];
    }
  }

  /** With distinct faucets, serving the first name leaves the queues of all the others as they were. */
  lemma ServiceLeavesRest(r: Router, w: World, names: seq<string>)
    requires Valid(r) && HasDefault(r)
    requires names != [] && forall n :: n in names ==> n in r.faucets.entries
    requires DistinctFaucets(r, names)
    ensures forall n :: n in names[1..] ==>
              Queue(Service(r, w, names[0]).0, r.faucets.entries[n]) == Queue(w, r.faucets.entries[n])
  {
    forall n | n in names[1..]
      ensures Queue(Service(r, w, names[0]).0, r.faucets.entries[n]) == Queue(w, r.faucets.entries[n])
    {
      var j :| 0 <= j < |names[1..]| && names[1..][j] == n;
      assert names[j + 1] == n;
    }
  }

  /**
   When no faucet object is registered twice, the loop of `tick` delivers
   exactly the plan: one message from each faucet that has one, in
   registration order, and an empty faucet neither writes anything nor
   stops the faucets after it.
   */
  lemma {:induction false} TickOverMatchesPlan(r: Router, w: World, names: seq<string>)
    requires Valid(r) && HasDefault(r)
    requires forall n :: n in names ==> n in r.faucets.entries
    requires DistinctFaucets(r, names)
    ensures TickOver(r, w, names).1 == Planned(r, w, names)
    decreases |names|
  {
    if names != [] {
      var (w1, d1) := Service(r, w, names[0]);
      assert d1 == PlanOne(r, w, names[0]);
      DistinctTail(r, names);
      TickOverMatchesPlan(r, w1, names[1..]);
      ServiceLeavesRest(r, w, names);
      PlannedFrame(r, w, w1, names[1..]);
    }
  }

  /**
   The turn of name `n` after the names `before` were served, stated
   against the queues as they stood before the pass: `n` reads the message
   of its faucet object that sits behind the ones `before` already took,
   and sends it where `Resolve` sends it; when the object has no message
   left, the turn writes nothing. Names bound to the same object share its
   queue, so this holds whether or not the object is registered twice.
   */
  function TurnOf(r: Router, w: World, before: seq<string>, n: string): seq<Delivery>
    requires HasDefault(r) && n in r.faucets.entries
    requires forall b :: b in before ==> b in r.faucets.entries
  {
    var queue := Queue(w, r.faucets.entries[n]);
    var k := ReadsOf(r, before, r.faucets.entries[n]);
    if k >= |queue| then []
    else
      var dest := Resolve(r, n, queue[k]);
      [Delivery(n, queue[k], dest, r.sinks.entries[dest])]
  }

  /** The turns of `names` in order, each taken after `before` and the names ahead of it. */
  function Schedule(r: Router, w: World, before: seq<string>, names: seq<string>): seq<Delivery>
    requires HasDefault(r)
    requires forall b :: b in before ==> b in r.faucets.entries
    requires forall n :: n in names ==> n in r.faucets.entries
    decreases |names|
  {
    if names == [] then []
    else TurnOf(r, w, before, names[0]) + Schedule(r, w, before + [names[0]], names[1..])
  }

  /** Serving one more name counts one more read of its faucet object. */
  lemma {:induction false} ReadsOfSnoc(r: Router, a: seq<string>, n: string, q: FaucetId)
    requires forall b :: b in a ==> b in r.faucets.entries
    requires n in r.faucets.entries
    ensures ReadsOf(r, a + [n], q) == ReadsOf(r, a, q) + if r.faucets.entries[n] == q then 1 else 0
  {
    if a == [] {
      assert a + [n] == [n] && [n][1..] == [];
    } else {
      assert (a + [n])[0] == a[0] && (a + [n])[1..] == a[1..] + [n];
      ReadsOfSnoc(r, a[1..], n, q);
    }
  }

  /** In a world where the names `before` have been served, serving `n` is its turn. */
  lemma ServiceIsTurn(r: Router, w: World, w': World, before: seq<string>, n: string)
    requires Valid(r) && HasDefault(r) && n in r.faucets.entries
    requires forall b :: b in before ==> b in r.faucets.entries
    requires forall q :: Queue(w', q) == Drop(Queue(w, q), ReadsOf(r, before, q))
    ensures Service(r, w', n).1 == TurnOf(r, w, before, n)
  {
    var q := r.faucets.entries[n];
    var k := ReadsOf(r, before, q);
    var d1 := Service(r, w', n).1;
    assert Queue(w', q) == Drop(Queue(w, q), k);
    if k < |Queue(w, q)| {
      assert Queue(w', q)[0] == Queue(w, q)[k];
      assert d1 == [d1[0]];
    }
  }

  /** After serving `n`, the world is the one where `before + [n]` have been served. */
  lemma ServiceAdvances(r: Router, w: World, w': World, before: seq<string>, n: string)
    requires Valid(r) && HasDefault(r) && n in r.faucets.entries
    requires forall b :: b in before ==> b in r.faucets.entries
    requires forall q :: Queue(w', q) == Drop(Queue(w, q), ReadsOf(r, before, q))
    ensures forall q :: Queue(Service(r, w', n).0, q) == Drop(Queue(w, q), ReadsOf(r, before + [n], q))
  {
    forall q ensures Queue(Service(r, w', n).0, q) == Drop(Queue(w, q), ReadsOf(r, before + [n], q)) {
      ReadsOfSnoc(r, before, n, q);
      DropDrop(Queue(w, q), ReadsOf(r, before, q), 1);
    }
  }

  /** The loop of `tick`, entered after the names `before` were served, follows the schedule. */
  lemma {:induction false} TickOverFollowsScheduleFrom(r: Router, w: World, w': World,
                                                        before: seq<string>, names: seq<string>)
    requires Valid(r) && HasDefault(r)
    requires forall b :: b in before ==> b in r.faucets.entries
    requires forall n :: n in names ==> n in r.faucets.entries
    requires forall q :: Queue(w', q) == Drop(Queue(w, q), ReadsOf(r, before, q))
    ensures TickOver(r, w', names).1 == Schedule(r, w, before, names)
    decreases |names|
  {
    if names != [] {
      var w1 := Service(r, w', names[0]).0;
      ServiceIsTurn(r, w, w', before, names[0]);
      ServiceAdvances(r, w, w', before, names[0]);
      assert forall b :: b in before + [names[0]] ==> b in r.faucets.entries;
      TickOverFollowsScheduleFrom(r, w, w1, before + [names[0]], names[1..]);
    }
  }

  /**
   Aliases or not, the loop of `tick` makes exactly the scheduled
   deliveries: the i-th name reads the message of its faucet object behind
   those the names ahead of it took, in the order of `names`.
   */
  lemma TickOverFollowsSchedule(r: Router, w: World, names: seq<string>)
    requires Valid(r) && HasDefault(r)
    requires forall n :: n in names ==> n in r.faucets.entries
    ensures TickOver(r, w, names).1 == Schedule(r, w, [], names)
  {
    TickOverFollowsScheduleFrom(r, w, w, [], names);
  }

  /** `tick` makes exactly the scheduled deliveries over the registered names, aliases or not. */
  lemma TickFollowsSchedule(r: Router, w: World)
    requires Valid(r) && HasDefault(r)
    ensures Tick(r, w).1 == Schedule(r, w, [], r.faucets.keys)
  {
    TickOverFollowsSchedule(r, w, r.faucets.keys);
  }

  /**
   One faucet object (1) registered as "a" and then as "b", holding one
   message, with a catch-all rule to sink "x" for "b" only: "a" takes the
   message, routes it with its own (empty) rule list, and writes it to the
   default sink; "b" finds the queue empty and writes nothing.
   */
  lemma AliasedFaucetExample(r: Router, w: World, m: Message)
    requires m.to.None?
    requires r == Router(OrderedMap.Dict(["a", "b"], map["a" := 1, "b" := 1]),
                         OrderedMap.Dict([None, Some("x")], map[None := 0, Some("x") := 5]),
                         map["b" := [Rule(Some("x"), map[])]])
    requires w == World(map[1 := [m]], map[])
    ensures Valid(r) && HasDefault(r)
    ensures Tick(r, w).1 == [Delivery("a", m, None, 0)]
  {
    AliasedValid(r);
    AliasedSchedule(r, w, m);
    TickFollowsSchedule(r, w);
  }

  /** Step of `AliasedFaucetExample`: the schedule over "a", "b" is the one delivery of "a". */
  lemma AliasedSchedule(r: Router, w: World, m: Message)
    requires m.to.None?
    requires r == Router(OrderedMap.Dict(["a", "b"], map["a" := 1, "b" := 1]),
                         OrderedMap.Dict([None, Some("x")], map[None := 0, Some("x") := 5]),
                         map["b" := [Rule(Some("x"), map[])]])
    requires w == World(map[1 := [m]], map[])
    ensures HasDefault(r) && r.faucets.keys == ["a", "b"]
    ensures Schedule(r, w, [], r.faucets.keys) == [Delivery("a", m, None, 0)]
  {
    AliasedTurns(r, w, m);
    assert Schedule(r, w, ["a"], ["b"]) == TurnOf(r, w, ["a"], "b") + Schedule(r, w, ["a"] + ["b"], []);
    assert Schedule(r, w, [], ["a", "b"]) == TurnOf(r, w, [], "a") + Schedule(r, w, [] + ["a"], ["b"]);
  }

  /** Step of `AliasedFaucetExample`: its router is well formed, with both names bound to object 1. */
  lemma AliasedValid(r: Router)
    requires r == Router(OrderedMap.Dict(["a", "b"], map["a" := 1, "b" := 1]),
                         OrderedMap.Dict([None, Some("x")], map[None := 0, Some("x") := 5]),
                         map["b" := [Rule(Some("x"), map[])]])
    ensures Valid(r) && HasDefault(r)
  {
    assert Sorted([Rule(Some("x"), map[])]);
  }

  /** Step of `AliasedFaucetExample`: "a" reads the message and sends it to the default; "b" reads nothing. */
  lemma AliasedTurns(r: Router, w: World, m: Message)
    requires m.to.None?
    requires r == Router(OrderedMap.Dict(["a", "b"], map["a" := 1, "b" := 1]),
                         OrderedMap.Dict([None, Some("x")], map[None := 0, Some("x") := 5]),
                         map["b" := [Rule(Some("x"), map[])]])
    requires w == World(map[1 := [m]], map[])
    ensures TurnOf(r, w, [], "a") == [Delivery("a", m, None, 0)]
    ensures TurnOf(r, w, ["a"], "b") == []
  {
    assert "a" !in r.rules;
    assert Resolve(r, "a", m) == None;
    assert ReadsOf(r, ["a"], 1) == 1;
  }

  /** Over names whose faucets are distinct, a faucet is read once if one of them is bound to it, else never. */
  lemma {:induction false} ReadsOfDistinct(r: Router, names: seq<string>, q: FaucetId)
    requires forall n :: n in names ==> n in r.faucets.entries
    requires DistinctFaucets(r, names)
    ensures ReadsOf(r, names, q) == if exists i :: 0 <= i < |names| && r.faucets.entries[names[i]] == q then 1 else 0
  {
    if names != [] {
      DistinctTail(r, names);
      ReadsOfDistinct(r, names[1..], q);
      if exists i :: 0 <= i < |names| && r.faucets.entries[names[i]] == q {
        var i :| 0 <= i < |names| && r.faucets.entries[names[i]] == q;
        if i > 0 {
          assert names[1..][i - 1] == names[i];
        }
      } else {
        forall i | 0 <= i < |names[1..]| ensures r.faucets.entries[names[1..][i]] != q {
          assert names[1..][i] == names[i + 1];
        }
      }
    }
  }

  /**
   `tick` loses no message, aliases or not: what it delivered from a faucet
   object, followed by what stays queued there, is the queue it started with.
   */
  lemma TickLosesNoMessage(r: Router, w: World, q: FaucetId)
    requires Valid(r) && HasDefault(r)
    ensures ReadFrom(r, Tick(r, w).1, q) + Queue(Tick(r, w).0, q) == Queue(w, q)
  {
    TakeAndDrop(Queue(w, q), ReadsOf(r, r.faucets.keys, q));
  }

  /**
   `tick` reads each registered faucet exactly once: a registered faucet
   loses its oldest message (if any), an unregistered one keeps its queue.
   */
  lemma TickReadsEachFaucetOnce(r: Router, w: World)
    requires Valid(r) && HasDefault(r) && DistinctFaucets(r, r.faucets.keys)
    ensures forall q :: Queue(Tick(r, w).0, q) ==
                          if q in r.faucets.entries.Values then Drop(Queue(w, q), 1) else Queue(w, q)
  {
    forall q ensures Queue(Tick(r, w).0, q) ==
                       if q in r.faucets.entries.Values then Drop(Queue(w, q), 1) else Queue(w, q)
    {
      ReadsOfDistinct(r, r.faucets.keys, q);
      if q in r.faucets.entries.Values {
        var n :| n in r.faucets.entries && r.faucets.entries[n] == q;
        var i :| 0 <= i < |r.faucets.keys| && r.faucets.keys[i] == n;
      }
    }
  }

  /** The deliveries of `ds` whose message did not come from faucet `name`. */
  function Without(ds: seq<Delivery>, name: string): (t: seq<Delivery>)
    ensures forall d :: d in t <==> d in ds && d.faucet != name
  {
    if ds == [] then []
    else (if ds[0].faucet == name then [] else [ds[0]]) + Without(ds[1..], name)
  }

  /** Filtering out a name distributes over concatenation. */
  lemma {:induction false} WithoutAppend(a: seq<Delivery>, b: seq<Delivery>, name: string)
    ensures Without(a + b, name) == Without(a, name) + Without(b, name)
  {
    if a == [] {
      assert a + b == b;
    } else {
      assert (a + b)[0] == a[0] && (a + b)[1..] == a[1..] + b;
      WithoutAppend(a[1..], b, name);
    }
  }

  /** Filtering out a name that no delivery comes from changes nothing. */
  lemma {:induction false} WithoutNone(ds: seq<Delivery>, name: string)
    requires forall d :: d in ds ==> d.faucet != name
    ensures Without(ds, name) == ds
  {
    if ds != [] {
      WithoutNone(ds[1..], name);
    }
  }

  /** After removing `name`, the names left are the others, still bound to distinct faucets other than `name`'s. */
  lemma RemainingFaucets(r: Router, name: string) returns (i: nat)
    requires Valid(r) && DistinctFaucets(r, r.faucets.keys) && name in r.faucets.entries
    ensures i < |r.faucets.keys| && r.faucets.keys[i] == name
    ensures RemoveFaucetByName(r, name).faucets.keys == r.faucets.keys[..i] + r.faucets.keys[i + 1..]
    ensures DistinctFaucets(RemoveFaucetByName(r, name), RemoveFaucetByName(r, name).faucets.keys)
    ensures forall j :: 0 <= j < |r.faucets.keys| && j != i ==> r.faucets.entries[r.faucets.keys[j]] != r.faucets.entries[name]
    ensures forall n :: n in r.faucets.keys[..i] || n in r.faucets.keys[i + 1..] ==> n != name && n in r.faucets.entries
  {
    var r' := RemoveFaucetByName(r, name);
    var keys := r.faucets.keys;
    i :| 0 <= i < |keys| && keys[i] == name && r'.faucets.keys == keys[..i] + keys[i + 1..];
    SplitMembers(keys, i);
    CutKeepsDistinct(keys, r.faucets.entries, i);
    var e, e' := r.faucets.entries, r'.faucets.entries;
    forall a, b | 0 <= a < b < |r'.faucets.keys|
      ensures e'[r'.faucets.keys[a]] != e'[r'.faucets.keys[b]]
    {
      assert r'.faucets.keys[a] in r'.faucets.keys && r'.faucets.keys[b] in r'.faucets.keys;
    }
  }

  /** Cutting position `i` out of names bound to distinct values leaves names bound to distinct values. */
  lemma CutKeepsDistinct(s: seq<string>, e: map<string, FaucetId>, i: nat)
    requires i < |s| && forall n :: n in s ==> n in e
    requires forall a, b :: 0 <= a < b < |s| ==> e[s[a]] != e[s[b]]
    ensures var t := s[..i] + s[i + 1..];
            forall a, b :: 0 <= a < b < |t| ==> t[a] in e && t[b] in e && e[t[a]] != e[t[b]]
  {
    var t := s[..i] + s[i + 1..];
    forall a, b | 0 <= a < b < |t|
      ensures t[a] in e && t[b] in e && e[t[a]] != e[t[b]]
    {
      CutIndex(s, i, a);
      CutIndex(s, i, b);
    }
  }

  /** Position `a` of `s` with position `i` cut out. */
  lemma CutIndex(s: seq<string>, i: nat, a: nat)
    requires i < |s| && a < |s| - 1
    ensures (s[..i] + s[i + 1..])[a] == s[if a < i then a else a + 1]
  {
  }

  /** Cutting a duplicate-free sequence at `i`: both sides hold other elements of it than `s[i]`. */
  lemma SplitMembers(s: seq<string>, i: nat)
    requires i < |s| && forall a, b :: 0 <= a < b < |s| ==> s[a] != s[b]
    ensures forall n :: n in s[..i] || n in s[i + 1..] ==> n != s[i] && n in s
  {
    forall n | n in s[..i] ensures n != s[i] && n in s {
      var j :| 0 <= j < i && s[..i][j] == n;
      assert s[j] == n;
    }
    forall n | n in s[i + 1..] ensures n != s[i] && n in s {
      var j :| 0 <= j < |s[i + 1..]| && s[i + 1..][j] == n;
      assert s[i + 1 + j] == n;
    }
  }

  /** Filtering out the name every delivery comes from leaves nothing. */
  lemma {:induction false} WithoutAll(ds: seq<Delivery>, name: string)
    requires forall d :: d in ds ==> d.faucet == name
    ensures Without(ds, name) == []
  {
    if ds != [] {
      WithoutAll(ds[1..], name);
    }
  }

  /**
   `remove_faucet(name)` stops exactly that faucet's deliveries: the next
   `tick` delivers what it would have delivered, minus the message of the
   removed faucet. Removal by reference deletes one name in just this way
   (`RemoveFaucetByRef`).
   */
  lemma RemovedFaucetIsNotRead(r: Router, w: World, name: string)
    requires Valid(r) && HasDefault(r) && DistinctFaucets(r, r.faucets.keys)
    requires name in r.faucets.entries
    ensures Tick(RemoveFaucetByName(r, name), w).1 == Without(Tick(r, w).1, name)
  {
    var pb, po, pa := TickAroundRemoved(r, w, name);
    WithoutMiddle(pb, po, pa, name);
  }

  /** A pass splits into the faucets before `name`, `name`'s own delivery, and the faucets after it. */
  lemma TickAroundRemoved(r: Router, w: World, name: string) returns (pb: seq<Delivery>, po: seq<Delivery>, pa: seq<Delivery>)
    requires Valid(r) && HasDefault(r) && DistinctFaucets(r, r.faucets.keys)
    requires name in r.faucets.entries
    ensures Tick(r, w).1 == pb + po + pa
    ensures Tick(RemoveFaucetByName(r, name), w).1 == pb + pa
    ensures forall d :: d in pb ==> d.faucet != name
    ensures forall d :: d in pa ==> d.faucet != name
    ensures forall d :: d in po ==> d.faucet == name
  {
    var keys := r.faucets.keys;
    var i := RemainingFaucets(r, name);
    var before, after := keys[..i], keys[i + 1..];
    TickSplit(r, w, i);
    TickWithout(r, w, name, i);
    pb, po, pa := Planned(r, w, before), PlanOne(r, w, name), Planned(r, w, after);
    PlannedSources(r, w, before);
    PlannedSources(r, w, after);
  }

  /** A pass over all faucets, cut at position `i`. */
  lemma TickSplit(r: Router, w: World, i: nat)
    requires Valid(r) && HasDefault(r) && DistinctFaucets(r, r.faucets.keys)
    requires i < |r.faucets.keys|
    ensures Tick(r, w).1 == Planned(r, w, r.faucets.keys[..i]) + PlanOne(r, w, r.faucets.keys[i])
                            + Planned(r, w, r.faucets.keys[i + 1..])
  {
    var keys := r.faucets.keys;
    var before, after := keys[..i], keys[i + 1..];
    assert keys == before + [keys[i]] + after;
    TickOverMatchesPlan(r, w, keys);
    PlannedAppend(r, w, before + [keys[i]], after);
    PlannedAppend(r, w, before, [keys[i]]);
    assert Planned(r, w, [keys[i]]) == PlanOne(r, w, keys[i]) by {
      assert [keys[i]][1..] == [];
    }
  }

  /** A pass after `remove_faucet(name)`, where `name` was at position `i`. */
  lemma TickWithout(r: Router, w: World, name: string, i: nat)
    requires Valid(r) && HasDefault(r) && DistinctFaucets(r, r.faucets.keys)
    requires name in r.faucets.entries
    requires i < |r.faucets.keys| && r.faucets.keys[i] == name
    requires RemoveFaucetByName(r, name).faucets.keys == r.faucets.keys[..i] + r.faucets.keys[i + 1..]
    requires DistinctFaucets(RemoveFaucetByName(r, name), RemoveFaucetByName(r, name).faucets.keys)
    requires forall n :: n in r.faucets.keys[..i] || n in r.faucets.keys[i + 1..] ==> n != name
    ensures Tick(RemoveFaucetByName(r, name), w).1
            == Planned(r, w, r.faucets.keys[..i]) + Planned(r, w, r.faucets.keys[i + 1..])
  {
    var r' := RemoveFaucetByName(r, name);
    var before, after := r.faucets.keys[..i], r.faucets.keys[i + 1..];
    TickOverMatchesPlan(r', w, r'.faucets.keys);
    PlannedSame(r, r', w, before + after);
    PlannedAppend(r, w, before, after);
  }

  /** Filtering out `name` from three runs where only the middle one is `name`'s. */
  lemma WithoutMiddle(pb: seq<Delivery>, po: seq<Delivery>, pa: seq<Delivery>, name: string)
    requires forall d :: d in pb ==> d.faucet != name
    requires forall d :: d in pa ==> d.faucet != name
    requires forall d :: d in po ==> d.faucet == name
    ensures Without(pb + po + pa, name) == pb + pa
  {
    WithoutAppend(pb + po, pa, name);
    WithoutAppend(pb, po, name);
    WithoutNone(pb, name);
    WithoutNone(pa, name);
    WithoutAll(po, name);
    assert pb + [] == pb;
  }

  /** The faucet removed by `remove_faucet(name)` keeps its queued messages through the next `tick`. */
  lemma RemovedFaucetKeepsQueue(r: Router, w: World, name: string)
    requires Valid(r) && HasDefault(r) && DistinctFaucets(r, r.faucets.keys)
    requires name in r.faucets.entries
    ensures Queue(Tick(RemoveFaucetByName(r, name), w).0, r.faucets.entries[name]) == Queue(w, r.faucets.entries[name])
  {
    var r' := RemoveFaucetByName(r, name);
    var _ := RemainingFaucets(r, name);
    RemovedObjectUnbound(r, name);
    TickReadsEachFaucetOnce(r', w);
  }

  /** When no faucet object is registered twice, removing a name leaves its object bound nowhere. */
  lemma RemovedObjectUnbound(r: Router, name: string)
    requires Valid(r) && DistinctFaucets(r, r.faucets.keys) && name in r.faucets.entries
    ensures r.faucets.entries[name] !in RemoveFaucetByName(r, name).faucets.entries.Values
  {
    var r' := RemoveFaucetByName(r, name);
    var keys := r.faucets.keys;
    var i := OrderedMap.IndexOf(keys, name);
    forall n | n in r'.faucets.entries
      ensures r'.faucets.entries[n] != r.faucets.entries[name]
    {
      var j := OrderedMap.IndexOf(keys, n);
      assert j != i;
    }
  }

  /** Two routers with the same bindings for the names planned over, the same sinks and the same rules plan alike. */
  lemma {:induction false} PlannedSame(r: Router, r': Router, w: World, names: seq<string>)
    requires HasDefault(r) && r'.sinks == r.sinks && r'.rules == r.rules
    requires forall n :: n in names ==> n in r.faucets.entries && n in r'.faucets.entries
                                        && r'.faucets.entries[n] == r.faucets.entries[n]
    ensures Planned(r', w, names) == Planned(r, w, names)
  {
    if names != [] {
      PlannedSame(r, r', w, names[1..]);
    }
  }

  /**
   The router's own tests: with only a default sink (object 0) and no
   rules, a message of faucet "a" lands on the default sink, and the empty
   faucet "b" registered before it writes nothing and does not stop the pass.
   */
  lemma DefaultSinkExample(m: Message)
    requires m.to.None?
    ensures var r := AddFaucet(AddFaucet(Init(0), 2, "b"), 1, "a");
            var w := World(map[1 := [m]], map[]);
            Tick(r, w).1 == [Delivery("a", m, None, 0)] && Log(Tick(r, w).0, 0) == [m]
  {
    var r := ExampleRouter();
    var w := World(map[1 := [m]], map[]);
    ExampleTick(r, w, m);
    ExampleLog(r, w, m);
  }

  /** Step of `DefaultSinkExample`: the pass over the spelled-out router delivers only the message of "a", to the default. */
  lemma ExampleTick(r: Router, w: World, m: Message)
    requires m.to.None?
    requires r == Router(OrderedMap.Dict(["b", "a"], map["b" := 2, "a" := 1]),
                         OrderedMap.Dict([None], map[None := 0]), map[])
    requires w == World(map[1 := [m]], map[])
    ensures Valid(r) && HasDefault(r)
    ensures Tick(r, w).1 == [Delivery("a", m, None, 0)]
  {
    ExamplePlan(r, w, m);
    TickOverMatchesPlan(r, w, r.faucets.keys);
  }

  /** Step of `DefaultSinkExample`: that one delivery is the whole log of sink 0. */
  lemma ExampleLog(r: Router, w: World, m: Message)
    requires Valid(r) && HasDefault(r)
    requires w == World(map[1 := [m]], map[])
    requires Tick(r, w).1 == [Delivery("a", m, None, 0)]
    ensures Log(Tick(r, w).0, 0) == [m]
  {
    var ds := Tick(r, w).1;
    assert SentTo(ds, 0) == [m] by {
      assert ds[1..] == [];
    }
  }

  /** The router of `DefaultSinkExample`, spelled out. */
  lemma ExampleRouter() returns (r: Router)
    ensures r == AddFaucet(AddFaucet(Init(0), 2, "b"), 1, "a")
    ensures r == Router(OrderedMap.Dict(["b", "a"], map["b" := 2, "a" := 1]),
                        OrderedMap.Dict([None], map[None := 0]), map[])
    ensures Valid(r) && HasDefault(r)
  {
    var r0 := Init(0);
    ExampleInit();
    var r1 := AddFaucet(r0, 2, "b");
    ExampleAddB(r0);
    r := AddFaucet(r1, 1, "a");
    ExampleAddA(r1);
  }

  /** Step of `ExampleRouter`: `Router(0)` spelled out. */
  lemma ExampleInit()
    ensures Init(0) == Router(OrderedMap.Dict([], map[]), OrderedMap.Dict([None], map[None := 0]), map[])
  {
    var keys: seq<Option<string>> := [None];
    assert [] + keys == keys;
  }

  /** Step of `ExampleRouter`: `add_faucet(2, "b")` on the new router, spelled out. */
  lemma ExampleAddB(r0: Router)
    requires r0 == Router(OrderedMap.Dict([], map[]), OrderedMap.Dict([None], map[None := 0]), map[])
    requires Valid(r0)
    ensures AddFaucet(r0, 2, "b")
            == Router(OrderedMap.Dict(["b"], map["b" := 2]), OrderedMap.Dict([None], map[None := 0]), map[])
  {
    assert [] + ["b"] == ["b"];
  }

  /** Step of `ExampleRouter`: `add_faucet(1, "a")` after "b", spelled out; "a" is read second. */
  lemma ExampleAddA(r1: Router)
    requires r1 == Router(OrderedMap.Dict(["b"], map["b" := 2]), OrderedMap.Dict([None], map[None := 0]), map[])
    requires Valid(r1)
    ensures AddFaucet(r1, 1, "a")
            == Router(OrderedMap.Dict(["b", "a"], map["b" := 2, "a" := 1]),
                      OrderedMap.Dict([None], map[None := 0]), map[])
  {
    assert "a" != "b";
    assert ["b"] + ["a"] == ["b", "a"];
  }

  /** Step of `ExampleTick`: the plan skips the empty "b" and sends the message of "a" to the default. */
  lemma ExamplePlan(r: Router, w: World, m: Message)
    requires m.to.None?
    requires r == Router(OrderedMap.Dict(["b", "a"], map["b" := 2, "a" := 1]),
                         OrderedMap.Dict([None], map[None := 0]), map[])
    requires w == World(map[1 := [m]], map[])
    ensures Valid(r) && HasDefault(r) && DistinctFaucets(r, r.faucets.keys)
    ensures Planned(r, w, r.faucets.keys) == [Delivery("a", m, None, 0)]
  {
    assert PlanOne(r, w, "b") == [];
    assert Resolve(r, "a", m) == None;
    assert Planned(r, w, ["a"]) == PlanOne(r, w, "a") + Planned(r, w, []);
    assert Planned(r, w, ["b", "a"]) == PlanOne(r, w, "b") + Planned(r, w, ["a"]);
  }
}
