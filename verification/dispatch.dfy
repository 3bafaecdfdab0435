/**
 `Router.tick` (routing/__init__.py): one pass over the faucets in
 registration order, reading at most one message from each and writing it
 to exactly one sink. The faucet and sink objects are the in-memory kind
 the tests use: a faucet is a queue (`read` pops the oldest message or
 yields None), a sink an append-only log (`write` appends).
 */
module Dispatch {
  import opened Wrappers
  import opened Messages
  import opened Rules
  import opened Routing

  /** The state of the faucet and sink objects the registries refer to. */
  datatype World = World(queues: map<FaucetId, seq<Message>>, logs: map<SinkId, seq<Message>>)

  /** The messages waiting in faucet `q` (none if it was never filled). */
  function Queue(w: World, q: FaucetId): seq<Message> {
    if q in w.queues then w.queues[q] else []
  }

  /** The messages written so far to sink `s`. */
  function Log(w: World, s: SinkId): seq<Message> {
    if s in w.logs then w.logs[s] else []
  }

  /** `s` without its first `n` elements (all of them if `n` is larger). */
  function Drop<T>(s: seq<T>, n: nat): (t: seq<T>)
    ensures |t| == if n <= |s| then |s| - n else 0
    ensures forall i :: 0 <= i < |t| ==> t[i] == s[n + i]
  {
    if n <= |s| then s[n..] else []
  }

  /** Dropping `a` and then `b` elements drops `a + b`. */
  lemma DropDrop<T>(s: seq<T>, a: nat, b: nat)
    ensures Drop(Drop(s, a), b) == Drop(s, a + b)
  {
  }

  /** The first `n` elements of `s` (all of them if `n` is larger). */
  function Take<T>(s: seq<T>, n: nat): (t: seq<T>)
    ensures |t| == if n <= |s| then n else |s|
    ensures forall i :: 0 <= i < |t| ==> t[i] == s[i]
  {
    if n <= |s| then s[..n] else s
  }

  /** Taking `a` and then `b` more from what is left is taking `a + b`. */
  lemma TakeDrop<T>(s: seq<T>, a: nat, b: nat)
    ensures Take(s, a) + Take(Drop(s, a), b) == Take(s, a + b)
  {
  }

  /** What is taken and what is left make up the whole. */
  lemma TakeAndDrop<T>(s: seq<T>, n: nat)
    ensures Take(s, n) + Drop(s, n) == s
  {
  }

  /** `faucet.read()`: the oldest queued message, removed from the queue; None when the queue is empty. */
  function Read(w: World, q: FaucetId): (res: (Option<Message>, World))
    ensures res.0.None? <==> Queue(w, q) == []
    ensures res.0.None? ==> res.1 == w
    ensures res.0.Some? ==> Queue(w, q) == [res.0.value] + Queue(res.1, q)
    ensures forall p :: p != q ==> Queue(res.1, p) == Queue(w, p)
    ensures res.1.logs == w.logs
  {
    var queue := Queue(w, q);
    if queue == [] then (None, w)
    else (Some(queue[0]), w.(queues := w.queues[q := queue[1..]]))
  }

  /** `sink.write(message)`: appends to that sink's log and to no other. */
  function Write(w: World, s: SinkId, m: Message): (w': World)
    ensures Log(w', s) == Log(w, s) + [m]
    ensures forall p :: p != s ==> Log(w', p) == Log(w, p)
    ensures w'.queues == w.queues
  {
    w.(logs := w.logs[s := Log(w, s) + [m]])
  }

  /**
   The destination `tick` asks for before checking it is bound: the
   message's `to` when present (even ""), otherwise the target of the first
   matching rule of the faucet, otherwise None.
   */
  function Requested(r: Router, f: string, m: Message): Option<string> {
    if m.to.Some? then m.to
    else
      match FirstMatch(RulesOf(r, f), m)
      case Some(rule) => rule.target
      case None => None
  }

  /**
   The sink key the message of faucet `f` is written under: the requested
   destination when a sink is bound to it, the default key None otherwise.
   */
  function Resolve(r: Router, f: string, m: Message): (dest: Option<string>)
    requires HasDefault(r)
    ensures dest in r.sinks.entries
    ensures Requested(r, f, m) in r.sinks.entries ==> dest == Requested(r, f, m)
    ensures Requested(r, f, m) !in r.sinks.entries ==> dest == None
  {
    var d := Requested(r, f, m);
    if d in r.sinks.entries then d else None
  }

  /** One `write` of a tick: which faucet the message came from, and the key and sink it went to. */
  datatype Delivery = Delivery(faucet: string, msg: Message, dest: Option<string>, sink: SinkId)

  /** `d` went where `tick` sends its message. */
  ghost predicate Routed(r: Router, d: Delivery) {
    && HasDefault(r)
    && d.dest == Resolve(r, d.faucet, d.msg)
    && d.sink == r.sinks.entries[d.dest]
  }

  /** The messages of `ds` written to sink `s`, in order. */
  function SentTo(ds: seq<Delivery>, s: SinkId): seq<Message> {
    if ds == [] then []
    else (if ds[0].sink == s then [ds[0].msg] else []) + SentTo(ds[1..], s)
  }

  /** The writes to a sink of two delivery lists in a row are those of the first, then those of the second. */
  lemma {:induction false} SentToAppend(a: seq<Delivery>, b: seq<Delivery>, s: SinkId)
    ensures SentTo(a + b, s) == SentTo(a, s) + SentTo(b, s)
  {
    if a == [] {
      assert a + b == b;
    } else {
      assert (a + b)[0] == a[0] && (a + b)[1..] == a[1..] + b;
      SentToAppend(a[1..], b, s);
    }
  }

  /** The messages of `ds` that came from a name bound to faucet `q` in `r`, in order. */
  function ReadFrom(r: Router, ds: seq<Delivery>, q: FaucetId): seq<Message> {
    if ds == [] then []
    else
      (if ds[0].faucet in r.faucets.entries && r.faucets.entries[ds[0].faucet] == q then [ds[0].msg] else [])
      + ReadFrom(r, ds[1..], q)
  }

  /** The messages read from a faucet by two delivery lists in a row are those of the first, then those of the second. */
  lemma {:induction false} ReadFromAppend(r: Router, a: seq<Delivery>, b: seq<Delivery>, q: FaucetId)
    ensures ReadFrom(r, a + b, q) == ReadFrom(r, a, q) + ReadFrom(r, b, q)
  {
    if a == [] {
      assert a + b == b;
    } else {
      assert (a + b)[0] == a[0] && (a + b)[1..] == a[1..] + b;
      ReadFromAppend(r, a[1..], b, q);
    }
  }

  /** The faucet names of `ds` appear in `names` in the same order (a subsequence). */
  ghost predicate InNameOrder(ds: seq<Delivery>, names: seq<string>)
    decreases |names|
  {
    ds == [] ||
    (names != [] && ((ds[0].faucet == names[0] && InNameOrder(ds[1..], names[1..])) || InNameOrder(ds, names[1..])))
  }

  /** How many of `names` are bound to faucet `q`: how often a pass over them reads `q`. */
  function ReadsOf(r: Router, names: seq<string>, q: FaucetId): nat
    requires forall n :: n in names ==> n in r.faucets.entries
  {
    if names == [] then 0
    else (if r.faucets.entries[names[0]] == q then 1 else 0) + ReadsOf(r, names[1..], q)
  }

  /**
   One iteration of the `tick` loop for faucet `f`: read once; on None
   nothing is written; otherwise the message goes to exactly one sink, the
   one bound to its resolved destination.
   */
  function Service(r: Router, w: World, f: string): (res: (World, seq<Delivery>))
    requires Valid(r) && HasDefault(r) && f in r.faucets.entries
    ensures var q := r.faucets.entries[f];
            forall p :: Queue(res.0, p) == if p == q then Drop(Queue(w, q), 1) else Queue(w, p)
    ensures res.1 == [] <==> Queue(w, r.faucets.entries[f]) == []
    ensures |res.1| <= 1
    ensures res.1 != [] ==> && res.1[0].faucet == f
                            && res.1[0].msg == Queue(w, r.faucets.entries[f])[0]
                            && Routed(r, res.1[0])
    ensures forall s :: Log(res.0, s) == Log(w, s) + SentTo(res.1, s)
  {
    var q := r.faucets.entries[f];
    var (msg, w1) := Read(w, q);
    if msg.None? then (w1, [])
    else
      var dest := Resolve(r, f, msg.value);
      var sink := r.sinks.entries[dest];
      var d := Delivery(f, msg.value, dest, sink);
      assert forall s :: SentTo([d], s) == if s == sink then [msg.value] else [] by {
        forall s ensures SentTo([d], s) == if s == sink then [msg.value] else [] {
          assert [d][1..] == [];
        }
      }
      (Write(w1, sink, msg.value), [d])
  }

  /** Logs after two stages of writes: the first stage's deliveries, then the second's. */
  lemma LogsCompose(w: World, w1: World, w2: World, d1: seq<Delivery>, ds: seq<Delivery>)
    requires forall s :: Log(w1, s) == Log(w, s) + SentTo(d1, s)
    requires forall s :: Log(w2, s) == Log(w1, s) + SentTo(ds, s)
    ensures forall s :: Log(w2, s) == Log(w, s) + SentTo(d1 + ds, s)
  {
    forall s ensures Log(w2, s) == Log(w, s) + SentTo(d1 + ds, s) {
      LogsComposeAt(w, w1, w2, d1, ds, s);
    }
  }

  /** `LogsCompose` for one sink. */
  lemma LogsComposeAt(w: World, w1: World, w2: World, d1: seq<Delivery>, ds: seq<Delivery>, s: SinkId)
    requires Log(w1, s) == Log(w, s) + SentTo(d1, s)
    requires Log(w2, s) == Log(w1, s) + SentTo(ds, s)
    ensures Log(w2, s) == Log(w, s) + SentTo(d1 + ds, s)
  {
    SentToAppend(d1, ds, s);
  }

  /** Queues after reading the first name's faucet, then the faucets of the rest. */
  lemma QueuesCompose(r: Router, w: World, w1: World, w2: World, names: seq<string>)
    requires names != [] && forall n :: n in names ==> n in r.faucets.entries
    requires forall p :: Queue(w1, p) == if p == r.faucets.entries[names[0]] then Drop(Queue(w, p), 1) else Queue(w, p)
    requires forall q :: Queue(w2, q) == Drop(Queue(w1, q), ReadsOf(r, names[1..], q))
    ensures forall q :: Queue(w2, q) == Drop(Queue(w, q), ReadsOf(r, names, q))
  {
    forall q ensures Queue(w2, q) == Drop(Queue(w, q), ReadsOf(r, names, q)) {
      var a := if r.faucets.entries[names[0]] == q then 1 else 0;
      assert Queue(w1, q) == Drop(Queue(w, q), a);
      DropDrop(Queue(w, q), a, ReadsOf(r, names[1..], q));
    }
  }

  /**
   Messages read after reading the first name's faucet, then the faucets of
   the rest: each faucet object's messages are delivered in queue order.
   */
  lemma ReadsCompose(r: Router, w: World, w1: World, names: seq<string>, d1: seq<Delivery>, ds: seq<Delivery>)
    requires names != [] && forall n :: n in names ==> n in r.faucets.entries
    requires var q0 := r.faucets.entries[names[0]];
             && |d1| <= 1
             && (d1 == [] <==> Queue(w, q0) == [])
             && (d1 != [] ==> d1[0].faucet == names[0] && d1[0].msg == Queue(w, q0)[0])
             && forall p :: Queue(w1, p) == if p == q0 then Drop(Queue(w, q0), 1) else Queue(w, p)
    requires forall q :: ReadFrom(r, ds, q) == Take(Queue(w1, q), ReadsOf(r, names[1..], q))
    ensures forall q :: ReadFrom(r, d1 + ds, q) == Take(Queue(w, q), ReadsOf(r, names, q))
  {
    forall q ensures ReadFrom(r, d1 + ds, q) == Take(Queue(w, q), ReadsOf(r, names, q)) {
      var a := if r.faucets.entries[names[0]] == q then 1 else 0;
      ReadFromAppend(r, d1, ds, q);
      FirstRead(r, w, names[0], d1, q);
      assert Queue(w1, q) == Drop(Queue(w, q), a);
      TakeDrop(Queue(w, q), a, ReadsOf(r, names[1..], q));
    }
  }

  /** What one faucet's read contributes to the messages read from `q`. */
  lemma FirstRead(r: Router, w: World, f: string, d1: seq<Delivery>, q: FaucetId)
    requires f in r.faucets.entries
    requires var q0 := r.faucets.entries[f];
             && |d1| <= 1
             && (d1 == [] <==> Queue(w, q0) == [])
             && (d1 != [] ==> d1[0].faucet == f && d1[0].msg == Queue(w, q0)[0])
    ensures ReadFrom(r, d1, q) == Take(Queue(w, q), if r.faucets.entries[f] == q then 1 else 0)
  {
    if d1 != [] {
      assert d1[1..] == [];
    }
  }

  /** Appending the first name's delivery, if any, keeps the deliveries in name order. */
  lemma OrderCompose(names: seq<string>, d1: seq<Delivery>, ds: seq<Delivery>)
    requires names != [] && |d1| <= 1 && (d1 != [] ==> d1[0].faucet == names[0])
    requires InNameOrder(ds, names[1..])
    ensures InNameOrder(d1 + ds, names)
  {
    if d1 == [] {
      assert d1 + ds == ds;
    } else {
      assert (d1 + ds)[0] == d1[0] && (d1 + ds)[1..] == ds;
    }
  }

  /**
   The `for faucet_name, faucet in self._faucets.items()` loop over
   `names`. Each name reads its faucet once, so a faucet object loses as
   many queued messages as names it is bound under, or all it holds if
   fewer; every message read is
   appended to exactly one sink, where `Resolve` sends it; and logs only
   grow, by the deliveries made to them, in order. The messages delivered
   from the names bound to a faucet object are exactly the ones read from
   it, oldest first, and the deliveries follow the order of `names`.
   */
  function TickOver(r: Router, w: World, names: seq<string>): (res: (World, seq<Delivery>))
    requires Valid(r) && HasDefault(r)
    requires forall n :: n in names ==> n in r.faucets.entries
    ensures forall q :: Queue(res.0, q) == Drop(Queue(w, q), ReadsOf(r, names, q))
    ensures forall s :: Log(res.0, s) == Log(w, s) + SentTo(res.1, s)
    ensures forall q :: ReadFrom(r, res.1, q) == Take(Queue(w, q), ReadsOf(r, names, q))
    ensures forall d :: d in res.1 ==> d.faucet in names && Routed(r, d)
    ensures InNameOrder(res.1, names)
    ensures |res.1| <= |names|
    decreases |names|
  {
    if names == [] then (w, [])
    else
      var (w1, d1) := Service(r, w, names[0]);
      var (w2, ds) := TickOver(r, w1, names[1..]);
      TickOverWorldStep(r, w, names, w1, d1, w2, ds);
      TickOverDeliveryStep(r, w, names, w1, d1, ds);
      TickOverSourceStep(r, names, d1, ds);
      (w2, d1 + ds)
  }

  /** The first faucet's iteration followed by the pass over the rest changes queues and logs as a pass over all. */
  lemma TickOverWorldStep(r: Router, w: World, names: seq<string>,
                          w1: World, d1: seq<Delivery>, w2: World, ds: seq<Delivery>)
    requires names != [] && forall n :: n in names ==> n in r.faucets.entries
    requires forall p :: Queue(w1, p) == if p == r.faucets.entries[names[0]] then Drop(Queue(w, p), 1) else Queue(w, p)
    requires forall s :: Log(w1, s) == Log(w, s) + SentTo(d1, s)
    requires forall q :: Queue(w2, q) == Drop(Queue(w1, q), ReadsOf(r, names[1..], q))
    requires forall s :: Log(w2, s) == Log(w1, s) + SentTo(ds, s)
    ensures forall q :: Queue(w2, q) == Drop(Queue(w, q), ReadsOf(r, names, q))
    ensures forall s :: Log(w2, s) == Log(w, s) + SentTo(d1 + ds, s)
  {
    LogsCompose(w, w1, w2, d1, ds);
    QueuesCompose(r, w, w1, w2, names);
  }

  /** The first faucet's delivery followed by the pass over the rest reads as a pass over all, in the order of `names`. */
  lemma TickOverDeliveryStep(r: Router, w: World, names: seq<string>,
                             w1: World, d1: seq<Delivery>, ds: seq<Delivery>)
    requires names != [] && forall n :: n in names ==> n in r.faucets.entries
    requires var q0 := r.faucets.entries[names[0]];
             && (forall p :: Queue(w1, p) == if p == q0 then Drop(Queue(w, q0), 1) else Queue(w, p))
             && (d1 == [] <==> Queue(w, q0) == [])
             && |d1| <= 1
             && (d1 != [] ==> d1[0].faucet == names[0] && d1[0].msg == Queue(w, q0)[0] && Routed(r, d1[0]))
    requires forall q :: ReadFrom(r, ds, q) == Take(Queue(w1, q), ReadsOf(r, names[1..], q))
    requires InNameOrder(ds, names[1..])
    ensures forall q :: ReadFrom(r, d1 + ds, q) == Take(Queue(w, q), ReadsOf(r, names, q))
    ensures InNameOrder(d1 + ds, names)
  {
    ReadsCompose(r, w, w1, names, d1, ds);
    OrderCompose(names, d1, ds);
  }

  /** The first faucet's delivery and the rest's all come from `names` and were routed by `Resolve`. */
  lemma TickOverSourceStep(r: Router, names: seq<string>, d1: seq<Delivery>, ds: seq<Delivery>)
    requires names != [] && |d1| <= 1
    requires d1 != [] ==> d1[0].faucet == names[0] && Routed(r, d1[0])
    requires forall d :: d in ds ==> d.faucet in names[1..] && Routed(r, d)
    requires |ds| <= |names[1..]|
    ensures forall d :: d in d1 + ds ==> d.faucet in names && Routed(r, d)
    ensures |d1 + ds| <= |names|
  {
    forall d | d in d1 + ds ensures d.faucet in names && Routed(r, d) {
      if d in ds {
        assert d.faucet in names[1..];
      }
    }
  }

  /** `router.tick()`: one pass over all registered faucets, in registration order. */
  function Tick(r: Router, w: World): (res: (World, seq<Delivery>))
    requires Valid(r) && HasDefault(r)
    ensures forall q :: Queue(res.0, q) == Drop(Queue(w, q), ReadsOf(r, r.faucets.keys, q))
    ensures forall s :: Log(res.0, s) == Log(w, s) + SentTo(res.1, s)
    ensures forall q :: ReadFrom(r, res.1, q) == Take(Queue(w, q), ReadsOf(r, r.faucets.keys, q))
    ensures forall d :: d in res.1 ==> d.faucet in r.faucets.entries && Routed(r, d)
    ensures InNameOrder(res.1, r.faucets.keys)
  {
    TickOver(r, w, r.faucets.keys)
  }
}
