/** The replication protocol over all message orders: one client, any number of servers, messages
    that may be delayed or lost, responses that may be duplicated. */
module Replication {
  import opened Bytes
  import opened Capsules
  import opened DcClient

  type Server = nat

  /** The servers, the write threshold, and the record that each hash names. */
  datatype Net = Net(servers: set<Server>, threshold: nat, content: Hash -> Record)

  /** The client, the servers' stores, the messages under way, and a log: multicasts per hash, servers
      whose acknowledgements were counted, writes that returned, requests that were sent. */
  datatype Sys = Sys(
    client: Client,
    stores: map<Server, map<Hash, Record>>,
    toStore: multiset<(Server, Hash)>,
    toAck: multiset<(Server, Hash)>,
    toServe: set<(Server, GetKey)>,
    replies: set<(Hash, Record)>,
    mcasts: map<Hash, nat>,
    acked: map<Hash, seq<Server>>,
    returned: set<Hash>,
    requests: seq<GetKey>)

  datatype Step =
    | PutBegin(h: Hash)            // register and multicast
    | Keep(s: Server, h: Hash)    // a server stores the record and sends its acknowledgement
    | Ack(s: Server, h: Hash)      // the client counts an acknowledgement
    | PutEnd(h: Hash)              // the blocked caller finds its write done and returns
    | GetBegin(s: Server, k: GetKey)  // ask one server, unless the key was asked for before
    | Serve(s: Server, k: GetKey)  // a server answers from its store
    | Reply(h: Hash, rec: Record)  // the client takes a response, possibly not for the first time

  ghost function Mcasts(s: Sys, h: Hash): (n: nat) {
    if h in s.mcasts then s.mcasts[h] else 0
  }

  ghost function Acked(s: Sys, h: Hash): (r: seq<Server>) {
    if h in s.acked then s.acked[h] else []
  }

  ghost predicate Holds(s: Sys, i: Server, h: Hash) {
    i in s.stores && h in s.stores[i]
  }

  ghost function Holders(net: Net, s: Sys, h: Hash): (r: set<Server>) {
    set i | i in net.servers && Holds(s, i, h)
  }

  ghost function Status(s: Sys, h: Hash): (r: Option<bool>) {
    if h in s.client.puts then Some(s.client.puts[h]) else None
  }

  ghost predicate Enabled(net: Net, s: Sys, step: Step) {
    match step
    case PutBegin(_) => true
    case Keep(i, h) => (i, h) in s.toStore
    case Ack(i, h) => (i, h) in s.toAck
    case PutEnd(h) => Status(s, h) == Some(true)
    case GetBegin(i, k) => i in net.servers && !k.metaOnly
    case Serve(i, k) => (i, k) in s.toServe && Holds(s, i, k.hash)
    case Reply(h, rec) => (h, rec) in s.replies
  }

  ghost function Next(net: Net, s: Sys, step: Step): (r: Sys)
    requires Enabled(net, s, step)
  {
    match step
    case PutBegin(h) =>
      if h in s.client.puts then s else
        s.(client := BeginPut(s.client, h),
           toStore := s.toStore + multiset(set i | i in net.servers :: (i, h)),
           mcasts := s.mcasts[h := Mcasts(s, h) + 1])
    case Keep(i, h) =>
      var dir: map<Hash, Record> := if i in s.stores then s.stores[i] else map[];
      s.(stores := s.stores[i := dir[h := net.content(h)]],
         toStore := s.toStore - multiset{(i, h)}, toAck := s.toAck + multiset{(i, h)})
    case Ack(i, h) =>
      s.(client := CountAck(s.client, net.threshold, h),
         toAck := s.toAck - multiset{(i, h)}, acked := s.acked[h := Acked(s, h) + [i]])
    case PutEnd(h) => s.(client := EndPut(s.client, h), returned := s.returned + {h})
    case GetBegin(i, k) =>
      if k in s.client.gets then s else
        s.(client := BeginGet(s.client, k), toServe := s.toServe + {(i, k)}, requests := s.requests + [k])
    case Serve(i, k) => s.(replies := s.replies + {(k.hash, s.stores[i][k.hash])})
    case Reply(h, rec) => s.(client := TakeReply(s.client, h, rec))
  }

  // ---- the invariant of one hash ----

  /** The messages about `h` that server `i` was sent. */
  ghost function Due(net: Net, s: Sys, h: Hash, i: Server): (n: nat) {
    if i in net.servers then Mcasts(s, h) else 0
  }

  /** Conservation: every multicast has one message for each server, which is on its way to be stored,
      stored and on its way to be acknowledged, or counted; and what was stored is held. */
  ghost predicate Counted(net: Net, s: Sys, h: Hash) {
    && AckCount(s.client, h) == |Acked(s, h)|
    && (forall i: Server :: s.toStore[(i, h)] + s.toAck[(i, h)] + multiset(Acked(s, h))[i] == Due(net, s, h, i))
    && (forall i: Server :: (i, h) in s.toAck || i in Acked(s, h) ==> i in Holders(net, s, h))
  }

  /** At most one multicast before the first return. Below the threshold a write is outstanding; from
      the threshold on it is done until it returns, and a quorum holds the record. */
  ghost predicate Phased(net: Net, s: Sys, h: Hash) {
    var m, n := Mcasts(s, h), AckCount(s.client, h);
    && (h !in s.returned ==> m <= 1)
    && (Status(s, h).Some? ==> m >= 1)
    && (m >= 1 && n < net.threshold ==> Status(s, h) == Some(false) && h !in s.returned)
    && (n >= net.threshold && h !in s.returned ==> Status(s, h) == Some(true))
    && (h in s.returned ==> Status(s, h) != Some(true) && m >= 1)
    && (Status(s, h) == Some(true) || h in s.returned ==> n >= net.threshold && |Holders(net, s, h)| >= net.threshold)
  }

  ghost predicate HashInv(net: Net, s: Sys, h: Hash) {
    Counted(net, s, h) && Phased(net, s, h)
  }

  ghost predicate PutInv(net: Net, s: Sys) {
    forall h: Hash :: HashInv(net, s, h)
  }

  /** Two states that agree on everything about one hash. */
  ghost predicate SameFor(s: Sys, t: Sys, h: Hash) {
    && Status(s, h) == Status(t, h) && AckCount(s.client, h) == AckCount(t.client, h)
    && Acked(s, h) == Acked(t, h) && Mcasts(s, h) == Mcasts(t, h)
    && (h in s.returned <==> h in t.returned)
    && (forall i: Server :: s.toStore[(i, h)] == t.toStore[(i, h)] && s.toAck[(i, h)] == t.toAck[(i, h)])
    && (forall i: Server :: Holds(s, i, h) <==> Holds(t, i, h))
  }

  lemma SameKept(net: Net, s: Sys, t: Sys, h: Hash)
    requires SameFor(s, t, h) && HashInv(net, s, h)
    ensures HashInv(net, t, h)
  {
    hide Status, AckCount, Acked, Mcasts, Holds;
    assert Holders(net, t, h) == Holders(net, s, h);
    assert forall i: Server ::
        ((i, h) in s.toStore <==> (i, h) in t.toStore) && ((i, h) in s.toAck <==> (i, h) in t.toAck);
  }

  /** A step for another hash leaves this one alone. */
  lemma OtherHash(net: Net, s: Sys, step: Step, h: Hash)
    requires HashInv(net, s, h) && Enabled(net, s, step)
    requires step.PutBegin? || step.Keep? || step.Ack? || step.PutEnd? ==> step.h != h
    ensures HashInv(net, Next(net, s, step), h)
  {
    hide HashInv, SameFor;
    match step {
      case PutBegin(g) => SameAfterPutBegin(net, s, g, h);
      case Keep(i, g) => SameAfterKeep(net, s, i, g, h);
      case Ack(i, g) => SameAfterAck(net, s, i, g, h);
      case PutEnd(g) => SameAfterRest(net, s, step, h);
      case GetBegin(_, _) => SameAfterRest(net, s, step, h);
      case Serve(_, _) => SameAfterRest(net, s, step, h);
      case Reply(_, _) => SameAfterRest(net, s, step, h);
    }
    SameKept(net, s, Next(net, s, step), h);
  }

  lemma SameAfterPutBegin(net: Net, s: Sys, g: Hash, h: Hash)
    requires g != h
    ensures SameFor(s, Next(net, s, PutBegin(g)), h)
  {
    var out := set i | i in net.servers :: (i, g);
    assert forall i: Server :: (i, h) !in out;
  }

  lemma SameAfterKeep(net: Net, s: Sys, i: Server, g: Hash, h: Hash)
    requires g != h && Enabled(net, s, Keep(i, g))
    ensures SameFor(s, Next(net, s, Keep(i, g)), h)
  {
  }

  lemma SameAfterAck(net: Net, s: Sys, i: Server, g: Hash, h: Hash)
    requires g != h && Enabled(net, s, Ack(i, g))
    ensures SameFor(s, Next(net, s, Ack(i, g)), h)
  {
  }

  lemma SameAfterRest(net: Net, s: Sys, step: Step, h: Hash)
    requires Enabled(net, s, step) && !step.PutBegin? && !step.Keep? && !step.Ack? && (step.PutEnd? ==> step.h != h)
    ensures SameFor(s, Next(net, s, step), h)
  {
  }

  lemma PutBeginKept(net: Net, s: Sys, h: Hash)
    requires HashInv(net, s, h) && net.threshold >= 1
    ensures HashInv(net, Next(net, s, PutBegin(h)), h)
  {
    if h !in s.client.puts {
      var t := Next(net, s, PutBegin(h));
      var out := set i | i in net.servers :: (i, h);
      assert Holders(net, t, h) == Holders(net, s, h);
      if Mcasts(s, h) == 0 {
        NoneCounted(Acked(s, h));
      }
      forall i: Server
        ensures t.toStore[(i, h)] + t.toAck[(i, h)] + multiset(Acked(t, h))[i] == Due(net, t, h, i)
      {
        assert (i, h) in out <==> i in net.servers;
        assert multiset(out)[(i, h)] == if i in net.servers then 1 else 0;
      }
    }
  }

  lemma NoneCounted(a: seq<Server>)
    ensures (forall i: Server :: multiset(a)[i] <= 0) ==> a == []
  {
    if a != [] {
      assert a[0] in multiset(a);
    }
  }

  lemma KeepKept(net: Net, s: Sys, i: Server, h: Hash)
    requires HashInv(net, s, h) && Enabled(net, s, Keep(i, h))
    ensures HashInv(net, Next(net, s, Keep(i, h)), h)
  {
    hide Counted, Phased, Next, Enabled;
    KeepCounted(net, s, i, h);
    KeepPhased(net, s, i, h);
  }

  lemma KeepHolders(net: Net, s: Sys, i: Server, h: Hash)
    requires Enabled(net, s, Keep(i, h))
    ensures Holders(net, s, h) <= Holders(net, Next(net, s, Keep(i, h)), h)
    ensures i in net.servers ==> i in Holders(net, Next(net, s, Keep(i, h)), h)
  {
  }

  lemma KeepCounted(net: Net, s: Sys, i: Server, h: Hash)
    requires Counted(net, s, h) && Enabled(net, s, Keep(i, h))
    ensures Counted(net, Next(net, s, Keep(i, h)), h)
  {
    hide Holders, Holds;
    var t := Next(net, s, Keep(i, h));
    KeepHolders(net, s, i, h);
    assert Acked(t, h) == Acked(s, h) && Mcasts(t, h) == Mcasts(s, h);
    assert s.toStore[(i, h)] >= 1;
  }

  lemma KeepPhased(net: Net, s: Sys, i: Server, h: Hash)
    requires Phased(net, s, h) && Enabled(net, s, Keep(i, h))
    ensures Phased(net, Next(net, s, Keep(i, h)), h)
  {
    hide Holders, Holds;
    KeepHolders(net, s, i, h);
    Grows(Holders(net, s, h), Holders(net, Next(net, s, Keep(i, h)), h));
  }

  lemma Grows(a: set<Server>, b: set<Server>)
    requires a <= b
    ensures |a| <= |b|
  {
    assert b == a + (b - a);
  }

  lemma {:induction false} DistinctFit(a: seq<Server>, b: set<Server>)
    requires forall i: Server :: multiset(a)[i] <= 1
    requires forall i :: i in a ==> i in b
    ensures |a| <= |b|
  {
    if a == [] {
    } else {
      var n := |a| - 1;
      assert a == a[..n] + [a[n]];
      forall i: Server
        ensures multiset(a[..n])[i] <= 1 && (i in a[..n] ==> i in b - {a[n]})
      {
        assert multiset(a)[i] == multiset(a[..n])[i] + multiset{a[n]}[i];
        assert i in a[..n] <==> i in multiset(a[..n]);
      }
      DistinctFit(a[..n], b - {a[n]});
    }
  }

  /** An acknowledgement never finds its write missing when it is the one that counts. */
  lemma ThresholdFinds(net: Net, s: Sys, i: Server, h: Hash)
    requires HashInv(net, s, h) && Enabled(net, s, Ack(i, h)) && AckCount(s.client, h) + 1 <= net.threshold
    ensures Status(s, h) == Some(false) && h !in s.returned && Mcasts(s, h) == 1
  {
    assert s.toAck[(i, h)] >= 1;
  }

  lemma AckKept(net: Net, s: Sys, i: Server, h: Hash)
    requires HashInv(net, s, h) && Enabled(net, s, Ack(i, h)) && net.threshold >= 1
    ensures HashInv(net, Next(net, s, Ack(i, h)), h)
  {
    hide Counted;
    var t := Next(net, s, Ack(i, h));
    assert Holders(net, t, h) == Holders(net, s, h);
    AckCounted(net, s, i, h);
    if AckCount(s.client, h) + 1 <= net.threshold {
      ThresholdFinds(net, s, i, h);
    }
    if AckCount(s.client, h) + 1 == net.threshold {
      QuorumReached(net, t, h);
    }
  }

  /** Counted acknowledgements of one multicast come from different servers, which hold the record. */
  lemma QuorumReached(net: Net, s: Sys, h: Hash)
    requires Counted(net, s, h) && Mcasts(s, h) == 1
    ensures |Holders(net, s, h)| >= AckCount(s.client, h)
  {
    hide Holders;
    DistinctFit(Acked(s, h), Holders(net, s, h));
  }

  lemma AckCounted(net: Net, s: Sys, i: Server, h: Hash)
    requires Counted(net, s, h) && Enabled(net, s, Ack(i, h))
    ensures Counted(net, Next(net, s, Ack(i, h)), h)
  {
    var t := Next(net, s, Ack(i, h));
    assert Holders(net, t, h) == Holders(net, s, h);
    hide Holders;
    assert Acked(t, h) == Acked(s, h) + [i];
    assert multiset(Acked(t, h)) == multiset(Acked(s, h)) + multiset{i};
    assert s.toAck[(i, h)] >= 1 && i in Holders(net, s, h);
  }

  lemma PutEndKept(net: Net, s: Sys, h: Hash)
    requires HashInv(net, s, h) && Enabled(net, s, PutEnd(h))
    ensures HashInv(net, Next(net, s, PutEnd(h)), h)
  {
    assert Holders(net, Next(net, s, PutEnd(h)), h) == Holders(net, s, h);
  }

  lemma PutInvKept(net: Net, s: Sys, step: Step)
    requires net.threshold >= 1 && PutInv(net, s) && Enabled(net, s, step)
    ensures PutInv(net, Next(net, s, step))
  {
    hide HashInv, Next, Enabled;
    forall h: Hash
      ensures HashInv(net, Next(net, s, step), h)
    {
      match step {
        case PutBegin(g) => if g == h { PutBeginKept(net, s, h); } else { OtherHash(net, s, step, h); }
        case Keep(i, g) => if g == h { KeepKept(net, s, i, h); } else { OtherHash(net, s, step, h); }
        case Ack(i, g) => if g == h { AckKept(net, s, i, h); } else { OtherHash(net, s, step, h); }
        case PutEnd(g) => if g == h { PutEndKept(net, s, h); } else { OtherHash(net, s, step, h); }
        case GetBegin(_, _) => OtherHash(net, s, step, h);
        case Serve(_, _) => OtherHash(net, s, step, h);
        case Reply(_, _) => OtherHash(net, s, step, h);
      }
    }
  }

  // ---- responses ----

  /** Some server was asked for this key. */
  ghost predicate Asked(net: Net, s: Sys, k: GetKey) {
    exists i :: i in net.servers && (i, k) in s.toServe
  }

  /** Everything stored, under way or taken is the record its hash names; each key was asked for once,
      from a server. */
  ghost predicate GetInv(net: Net, s: Sys) {
    ContentInv(net, s) && RequestInv(net, s)
  }

  ghost predicate ContentInv(net: Net, s: Sys) {
    && (forall i, h :: i in s.stores && h in s.stores[i] ==> s.stores[i][h] == net.content(h))
    && (forall r :: r in s.replies ==> r.1 == net.content(r.0))
    && (forall k :: k in s.client.gets && s.client.gets[k].Some? ==>
          s.client.gets[k].value == net.content(k.hash) && (k.metaOnly <==> net.content(k.hash).payload == []))
  }

  ghost predicate RequestInv(net: Net, s: Sys) {
    && (forall k :: k in s.requests <==> k in s.client.gets)
    && (forall k :: k in s.client.gets ==> Asked(net, s, k))
    && (forall i, j :: 0 <= i < j < |s.requests| ==> s.requests[i] != s.requests[j])
  }

  lemma GetInvKept(net: Net, s: Sys, step: Step)
    requires GetInv(net, s) && Enabled(net, s, step)
    ensures GetInv(net, Next(net, s, step))
  {
    hide ContentInv, RequestInv;
    ContentKept(net, s, step);
    RequestsKept(net, s, step);
  }

  lemma ContentKept(net: Net, s: Sys, step: Step)
    requires ContentInv(net, s) && Enabled(net, s, step)
    ensures ContentInv(net, Next(net, s, step))
  {
  }

  lemma RequestsKept(net: Net, s: Sys, step: Step)
    requires RequestInv(net, s) && Enabled(net, s, step)
    ensures RequestInv(net, Next(net, s, step))
  {
    hide Asked, Next, Enabled;
    var t := Next(net, s, step);
    KeysAfter(net, s, step);
    forall k | k in t.client.gets
      ensures Asked(net, t, k)
    {
      AskedKept(net, s, step, k);
    }
  }

  /** The keys asked for after a step: one more if it is a new request. */
  lemma KeysAfter(net: Net, s: Sys, step: Step)
    requires Enabled(net, s, step)
    ensures var t := Next(net, s, step);
            if step.GetBegin? && step.k !in s.client.gets
            then t.requests == s.requests + [step.k] && t.client.gets.Keys == s.client.gets.Keys + {step.k}
            else t.requests == s.requests && t.client.gets.Keys == s.client.gets.Keys
  {
  }

  lemma AskedKept(net: Net, s: Sys, step: Step, k: GetKey)
    requires Enabled(net, s, step) && k in Next(net, s, step).client.gets && (k in s.client.gets ==> Asked(net, s, k))
    ensures Asked(net, Next(net, s, step), k)
  {
    var t := Next(net, s, step);
    if k in s.client.gets {
      var i :| i in net.servers && (i, k) in s.toServe;
      assert (i, k) in t.toServe;
    } else {
      assert (step.s, k) in t.toServe;
    }
  }

  // ---- runs ----

  ghost function Init(): (s: Sys) {
    Sys(Client(map[], map[], map[]), map[], multiset{}, multiset{}, {}, {}, map[], map[], {}, [])
  }

  /** A run: every step is enabled where it is taken. */
  ghost predicate Run(net: Net, steps: seq<Step>, states: seq<Sys>) {
    && net.threshold >= 1 && |states| == |steps| + 1 && states[0] == Init()
    && forall n :: 0 <= n < |steps| ==>
         Enabled(net, states[n], steps[n]) && states[n + 1] == Next(net, states[n], steps[n])
  }

  lemma InitInv(net: Net)
    requires net.threshold >= 1
    ensures PutInv(net, Init()) && GetInv(net, Init())
  {
    forall h: Hash
      ensures HashInv(net, Init(), h)
    {
      assert forall i: Server :: (i, h) !in Init().toStore && (i, h) !in Init().toAck;
    }
  }

  lemma {:induction false} RunInv(net: Net, steps: seq<Step>, states: seq<Sys>, n: nat)
    requires Run(net, steps, states) && n < |states|
    ensures PutInv(net, states[n]) && GetInv(net, states[n])
  {
    hide PutInv, GetInv, Next, Enabled, Init;
    if n == 0 {
      InitInv(net);
    } else {
      RunInv(net, steps, states, n - 1);
      assert Enabled(net, states[n - 1], steps[n - 1]);
      PutInvKept(net, states[n - 1], steps[n - 1]);
      GetInvKept(net, states[n - 1], steps[n - 1]);
    }
  }

  lemma StepMonotone(net: Net, s: Sys, step: Step, h: Hash)
    requires Enabled(net, s, step)
    ensures var t := Next(net, s, step);
            && AckCount(s.client, h) <= AckCount(t.client, h)
            && s.returned <= t.returned && Holders(net, s, h) <= Holders(net, t, h)
  {
    hide Holders;
    HoldersGrow(net, s, step, h);
  }

  lemma HoldersGrow(net: Net, s: Sys, step: Step, h: Hash)
    requires Enabled(net, s, step)
    ensures Holders(net, s, h) <= Holders(net, Next(net, s, step), h)
  {
  }

  lemma {:induction false} RunMonotone(net: Net, steps: seq<Step>, states: seq<Sys>, m: nat, n: nat, h: Hash)
    requires Run(net, steps, states) && m <= n < |states|
    ensures AckCount(states[m].client, h) <= AckCount(states[n].client, h)
    ensures states[m].returned <= states[n].returned && Holders(net, states[m], h) <= Holders(net, states[n], h)
    decreases n
  {
    hide Next, Enabled, Init, Holders, AckCount;
    if m == n {
    } else {
      RunMonotone(net, steps, states, m, n - 1, h);
      StepMonotone(net, states[n - 1], steps[n - 1], h);
    }
  }

  /** Quorum safety. When a write returns, at least `threshold` servers store its record, and they do
      so from then on. */
  lemma QuorumSafety(net: Net, steps: seq<Step>, states: seq<Sys>, n: nat, m: nat, h: Hash)
    requires Run(net, steps, states) && n < |steps| && steps[n] == PutEnd(h) && n <= m < |states|
    ensures AckCount(states[n].client, h) >= net.threshold
    ensures |Holders(net, states[m], h)| >= net.threshold
  {
    hide Next, Init, Holders;
    RunInv(net, steps, states, n);
    assert HashInv(net, states[n], h);
    RunMonotone(net, steps, states, n, m, h);
    Grows(Holders(net, states[n], h), Holders(net, states[m], h));
  }

  /** With as many acknowledgements as servers, any server asked after the write returned can answer. */
  lemma EveryServerServes(net: Net, steps: seq<Step>, states: seq<Sys>, n: nat, m: nat, h: Hash, i: Server)
    requires Run(net, steps, states) && n < |steps| && steps[n] == PutEnd(h) && n <= m < |states|
    requires net.threshold == |net.servers| && i in net.servers
    ensures Holds(states[m], i, h) && states[m].stores[i][h] == net.content(h)
  {
    hide Next, Init, Enabled;
    QuorumSafety(net, steps, states, n, m, h);
    RunInv(net, steps, states, m);
    WholeSet(Holders(net, states[m], h), net.servers);
  }

  lemma WholeSet(a: set<Server>, b: set<Server>)
    requires a <= b && |a| >= |b|
    ensures a == b
  {
    assert b == a + (b - a);
  }

  /** The acknowledgement that reaches the threshold, at any point of any run, finds its write
      outstanding and makes it done: registering before the multicast loses none. */
  lemma ThresholdNotLost(net: Net, steps: seq<Step>, states: seq<Sys>, n: nat, i: Server, h: Hash)
    requires Run(net, steps, states) && n < |steps| && steps[n] == Ack(i, h)
    requires AckCount(states[n].client, h) + 1 == net.threshold
    ensures Status(states[n], h) == Some(false) && Status(states[n + 1], h) == Some(true)
  {
    hide Init, HashInv;
    RunInv(net, steps, states, n);
    assert HashInv(net, states[n], h);
    ThresholdFinds(net, states[n], i, h);
  }

  /** The threshold is reached at most once per hash, so `CommitAck` runs at most once for it. */
  lemma CommitOnce(net: Net, steps: seq<Step>, states: seq<Sys>, m: nat, n: nat, i: Server, j: Server, h: Hash)
    requires Run(net, steps, states) && m < n < |steps| && steps[m] == Ack(i, h) && steps[n] == Ack(j, h)
    requires AckCount(states[m].client, h) + 1 == net.threshold
    ensures AckCount(states[n].client, h) + 1 != net.threshold
  {
    hide Init;
    RunMonotone(net, steps, states, m + 1, n, h);
  }

  /** When a write can return: at any point of any run, exactly when as many acknowledgements as the
      threshold have come for its hash and no write of that hash has returned before. */
  lemma ReturnExact(net: Net, steps: seq<Step>, states: seq<Sys>, n: nat, h: Hash)
    requires Run(net, steps, states) && n < |states|
    ensures Enabled(net, states[n], PutEnd(h)) <==>
              AckCount(states[n].client, h) >= net.threshold && h !in states[n].returned
  {
    hide Next, Init;
    RunInv(net, steps, states, n);
    assert HashInv(net, states[n], h);
  }

  /** A second write of the same hash never returns: the counter has passed the threshold for good. */
  lemma SecondPutBlocks(net: Net, steps: seq<Step>, states: seq<Sys>, m: nat, n: nat, h: Hash)
    requires Run(net, steps, states) && m < n < |states| && steps[m] == PutEnd(h)
    ensures !Enabled(net, states[n], PutEnd(h))
  {
    hide Init, HashInv;
    RunInv(net, steps, states, n);
    RunMonotone(net, steps, states, m + 1, n, h);
    assert h in states[m + 1].returned;
    assert HashInv(net, states[n], h);
    ReturnedNotDone(net, states[n], h);
  }

  lemma ReturnedNotDone(net: Net, s: Sys, h: Hash)
    requires HashInv(net, s, h) && h in s.returned
    ensures Status(s, h) != Some(true)
  {
  }

  /** Get agrees with the immutable store. At any point of any run, no key was requested twice, and a
      request that is done holds the record its hash names; it can be done only for a record with a
      payload. */
  lemma GetAgrees(net: Net, steps: seq<Step>, states: seq<Sys>, n: nat, h: Hash)
    requires Run(net, steps, states) && n < |states|
    ensures forall i, j :: 0 <= i < j < |states[n].requests| ==> states[n].requests[i] != states[n].requests[j]
    ensures var k, gets := GetKey(h, false), states[n].client.gets;
            k in gets && gets[k].Some? ==> gets[k].value == net.content(h) && net.content(h).payload != []
  {
    hide Next, Init, Enabled, PutInv;
    RunInv(net, steps, states, n);
  }

  // ---- when a request is done ----

  /** A response with a payload finishes the outstanding request for its hash. */
  lemma ReplyFinishes(net: Net, s: Sys, h: Hash, rec: Record)
    requires Enabled(net, s, Reply(h, rec)) && rec.payload != [] && GetKey(h, false) in s.client.gets
    ensures var gets := Next(net, s, Reply(h, rec)).client.gets;
            GetKey(h, false) in gets && gets[GetKey(h, false)] == Some(rec)
  {
  }

  ghost function Answer(s: Sys, h: Hash): (r: Option<Record>) {
    var k := GetKey(h, false);
    if k in s.client.gets then s.client.gets[k] else None
  }

  /** Step `m` of a run takes the response that the outstanding request for `h` waits for. */
  ghost predicate Answers(net: Net, steps: seq<Step>, states: seq<Sys>, m: nat, h: Hash)
    requires m < |steps| < |states|
  {
    && steps[m] == Reply(h, net.content(h)) && net.content(h).payload != []
    && GetKey(h, false) in states[m].client.gets
  }

  lemma AnswerStep(net: Net, s: Sys, step: Step, h: Hash)
    requires GetInv(net, s) && Enabled(net, s, step)
    ensures var c := net.content(h);
            Answer(Next(net, s, step), h)
              == if step == Reply(h, c) && c.payload != [] && GetKey(h, false) in s.client.gets then Some(c)
                 else Answer(s, h)
  {
  }

  /** A request is done exactly when a response to it was taken after it was sent, and from then on it
      holds the record that its hash names. */
  lemma {:induction false} DoneExact(net: Net, steps: seq<Step>, states: seq<Sys>, n: nat, h: Hash)
    requires Run(net, steps, states) && n < |states|
    ensures Answer(states[n], h)
         == if exists m :: 0 <= m < n && Answers(net, steps, states, m, h) then Some(net.content(h)) else None
  {
    hide Next, Enabled, Init, GetInv, PutInv, Answers, Answer;
    if n == 0 {
      NothingAsked(h);
    } else {
      DoneExact(net, steps, states, n - 1, h);
      RunInv(net, steps, states, n - 1);
      assert Enabled(net, states[n - 1], steps[n - 1]);
      AnswerStep(net, states[n - 1], steps[n - 1], h);
      AnswersIs(net, steps, states, n - 1, h);
    }
  }

  lemma NothingAsked(h: Hash)
    ensures Answer(Init(), h) == None
  {
  }

  lemma AnswersIs(net: Net, steps: seq<Step>, states: seq<Sys>, m: nat, h: Hash)
    requires m < |steps| < |states|
    ensures Answers(net, steps, states, m, h) <==>
              && steps[m] == Reply(h, net.content(h)) && net.content(h).payload != []
              && GetKey(h, false) in states[m].client.gets
  {
  }

  // ---- what can still happen ----

  lemma RunExtends(net: Net, steps: seq<Step>, states: seq<Sys>, step: Step)
    requires Run(net, steps, states) && Enabled(net, states[|steps|], step)
    ensures Run(net, steps + [step], states + [Next(net, states[|steps|], step)])
  {
    hide Next, Enabled, Init;
    var more, after := steps + [step], states + [Next(net, states[|steps|], step)];
    assert forall n :: 0 <= n < |more| ==> more[n] == if n < |steps| then steps[n] else step;
    assert forall n :: 0 <= n < |states| ==> after[n] == states[n];
  }

  /** No request is stuck for want of a message: if the asked server holds the record, and the record has
      a payload, serving it and taking the response finishes the request. */
  lemma GetCanFinish(net: Net, steps: seq<Step>, states: seq<Sys>, i: Server, h: Hash)
    returns (steps': seq<Step>, states': seq<Sys>)
    requires Run(net, steps, states) && (i, GetKey(h, false)) in states[|steps|].toServe
    requires GetKey(h, false) in states[|steps|].client.gets
    requires Holds(states[|steps|], i, h) && net.content(h).payload != []
    ensures Run(net, steps', states') && steps <= steps' && states <= states'
    ensures Answer(states'[|steps'|], h) == Some(net.content(h))
  {
    hide Init, PutInv, Run;
    RunShape(net, steps, states);
    var s := states[|steps|];
    RunInv(net, steps, states, |steps|);
    var serve := Serve(i, GetKey(h, false));
    RunExtends(net, steps, states, serve);
    var s1 := Next(net, s, serve);
    var reply := Reply(h, net.content(h));
    RunExtends(net, steps + [serve], states + [s1], reply);
    ReplyFinishes(net, s1, h, net.content(h));
    steps', states' := steps + [serve] + [reply], states + [s1] + [Next(net, s1, reply)];
  }

  lemma RunShape(net: Net, steps: seq<Step>, states: seq<Sys>)
    requires Run(net, steps, states)
    ensures |states| == |steps| + 1 && net.threshold >= 1
  {
    hide Next, Enabled, Init;
  }

  ghost function Unstored(net: Net, s: Sys, h: Hash): (r: set<Server>) {
    set i | i in net.servers && (i, h) in s.toStore
  }

  ghost function Unacked(net: Net, s: Sys, h: Hash): (r: set<Server>) {
    set i | i in net.servers && (i, h) in s.toAck
  }

  /** When no message is under way, every server has acknowledged. */
  lemma AllCounted(net: Net, s: Sys, h: Hash)
    requires HashInv(net, s, h) && Status(s, h).Some? && h !in s.returned
    requires Unstored(net, s, h) == {} && Unacked(net, s, h) == {}
    ensures AckCount(s.client, h) >= |net.servers|
  {
    forall i | i in net.servers
      ensures i in Acked(s, h)
    {
      assert i !in Unstored(net, s, h) && i !in Unacked(net, s, h);
      assert s.toStore[(i, h)] == 0 && s.toAck[(i, h)] == 0;
    }
    Covered(Acked(s, h), net.servers);
  }

  lemma {:induction false} Covered(a: seq<Server>, b: set<Server>)
    requires forall i :: i in b ==> i in a
    ensures |a| >= |b|
  {
    if a == [] {
      assert b == {};
    } else {
      var n := |a| - 1;
      assert forall i :: i in b - {a[n]} ==> i in a[..n];
      Covered(a[..n], b - {a[n]});
      assert b <= (b - {a[n]}) + {a[n]};
      Grows(b, (b - {a[n]}) + {a[n]});
    }
  }

  lemma KeepShrinks(net: Net, s: Sys, i: Server, h: Hash)
    requires HashInv(net, s, h) && i in Unstored(net, s, h) && Mcasts(s, h) == 1
    ensures Enabled(net, s, Keep(i, h))
    ensures var t := Next(net, s, Keep(i, h));
            && Unstored(net, t, h) == Unstored(net, s, h) - {i} && Unacked(net, t, h) == Unacked(net, s, h) + {i}
            && Status(t, h) == Status(s, h) && t.returned == s.returned && Mcasts(t, h) == Mcasts(s, h)
  {
    hide Holders;
    assert s.toStore[(i, h)] >= 1 && s.toStore[(i, h)] <= 1;
  }

  lemma AckShrinks(net: Net, s: Sys, i: Server, h: Hash)
    requires HashInv(net, s, h) && i in Unacked(net, s, h) && Mcasts(s, h) == 1
    ensures Enabled(net, s, Ack(i, h))
    ensures var t := Next(net, s, Ack(i, h));
            && Unstored(net, t, h) == Unstored(net, s, h) && Unacked(net, t, h) == Unacked(net, s, h) - {i}
            && (Status(s, h).Some? ==> Status(t, h).Some?) && t.returned == s.returned && Mcasts(t, h) == Mcasts(s, h)
  {
    hide Holders;
    assert s.toAck[(i, h)] >= 1 && s.toAck[(i, h)] <= 1;
  }

  /** No write is stuck for want of a message: from every reachable state in which a write is outstanding
      for the first time, delivering the messages under way lets it return, if there are as many
      servers as the threshold. */
  lemma {:induction false} PutCanFinish(net: Net, steps: seq<Step>, states: seq<Sys>, h: Hash)
    returns (steps': seq<Step>, states': seq<Sys>)
    requires Run(net, steps, states) && |net.servers| >= net.threshold
    requires Status(states[|steps|], h).Some? && h !in states[|steps|].returned
    ensures Run(net, steps', states') && steps <= steps' && states <= states'
    ensures Enabled(net, states'[|steps'|], PutEnd(h))
    decreases 2 * |Unstored(net, states[|steps|], h)| + |Unacked(net, states[|steps|], h)|
  {
    hide Init, Run, HashInv, Next, Enabled, Unstored, Unacked, Status, Mcasts;
    RunShape(net, steps, states);
    var s := states[|steps|];
    RunInv(net, steps, states, |steps|);
    assert HashInv(net, s, h);
    OneMulticast(net, s, h);
    if i :| i in Unstored(net, s, h) {
      KeepShrinks(net, s, i, h);
      RunExtends(net, steps, states, Keep(i, h));
      Shrinks(Unstored(net, s, h), Unacked(net, s, h), i);
      steps', states' := PutCanFinish(net, steps + [Keep(i, h)], states + [Next(net, s, Keep(i, h))], h);
    } else if i :| i in Unacked(net, s, h) {
      AckShrinks(net, s, i, h);
      RunExtends(net, steps, states, Ack(i, h));
      steps', states' := PutCanFinish(net, steps + [Ack(i, h)], states + [Next(net, s, Ack(i, h))], h);
    } else {
      AllCounted(net, s, h);
      ReturnExact(net, steps, states, |steps|, h);
      steps', states' := steps, states;
    }
  }

  lemma OneMulticast(net: Net, s: Sys, h: Hash)
    requires HashInv(net, s, h) && Status(s, h).Some? && h !in s.returned
    ensures Mcasts(s, h) == 1
  {
  }

  lemma Shrinks(a: set<Server>, b: set<Server>, i: Server)
    requires i in a
    ensures |a - {i}| == |a| - 1 && |b + {i}| <= |b| + 1
  {
  }

  /** What was written can be read: after a write has returned under a threshold of all servers, any
      outstanding request for it can be finished, with the record that was written. */
  lemma WrittenCanBeRead(net: Net, steps: seq<Step>, states: seq<Sys>, n: nat, h: Hash)
    returns (steps': seq<Step>, states': seq<Sys>)
    requires Run(net, steps, states) && n < |steps| && steps[n] == PutEnd(h) && net.threshold == |net.servers|
    requires GetKey(h, false) in states[|steps|].client.gets && net.content(h).payload != []
    ensures Run(net, steps', states') && steps <= steps' && states <= states'
    ensures Answer(states'[|steps'|], h) == Some(net.content(h))
  {
    hide Init, PutInv, Run, Next, Enabled, Holds, Answer;
    RunShape(net, steps, states);
    RunInv(net, steps, states, |steps|);
    assert Asked(net, states[|steps|], GetKey(h, false));
    var i :| i in net.servers && (i, GetKey(h, false)) in states[|steps|].toServe;
    EveryServerServes(net, steps, states, n, |steps|, h, i);
    steps', states' := GetCanFinish(net, steps, states, i, h);
  }
}
