/**
 A node and the server end to end: the node's requests travel as bytes, the server decides
 them on the stores of the cluster, and the responses find their callbacks. What a callback
 is given is proved to be what the store held, for that callback's own key, when the request
 was served, and still to be so when the callback is called if the node has held the lock.
 */
module Service {
  import opened Keys
  import opened Wrappers
  import opened LockSpec
  import opened ServerSpec
  import opened Requests
  import Codec
  import Correlation
  import Cluster

  /** What the server told a node, and the stores it decided it on. */
  datatype Served = Served(stores: Stores, answer: Codec.Answer)

  /** The node's connection, the cluster, and what each request of the node was told. */
  datatype State = State(link: Correlation.State, cluster: Cluster.State, told: map<nat, Served>)

  const START := State(Correlation.IDLE, Cluster.START, map[])

  datatype Event =
    | Send(request: Request)
    | Serve(to: Bound, granted: bool, reply: Option<Reply>, timeout: Codec.Timeval)
    | Receive
    | Elsewhere(event: ServerSpec.Event, reply: Option<Reply>)

  function BoundOf(key: Option<Bytes>): Bound {
    if key.None? then Null else At(key.value)
  }

  function DataOf(b: Bound): Option<Bytes> {
    if b.Null? then None else Some(b.key)
  }

  /** The request as the data server sees it. */
  function Asked(node: NodeId, r: Request, to: Bound, granted: bool): ServerSpec.Event {
    match r
    case ValueRequest(app, store, forWrite, key) => RequestValue(node, app, store, key, forWrite)
    case NextKeyRequest(app, store, from) => RequestNextKey(node, app, store, BoundOf(from), to, granted)
  }

  /** The server takes the node's first request and, if it can read it, decides it. */
  ghost predicate ServeStep(disk: Disk, node: NodeId, s: State, e: Event, s': State)
    requires e.Serve?
  {
    && s.link.toServer != []
    && var p := s.link.toServer[0];
    && var r := ReadRequest(p.opcode, p.payload);
    if r.None? then s' == s.(link := Correlation.Served(s.link, None))
    else
      && Cluster.Next(disk, s.cluster, Asked(node, r.value, e.to, e.granted), e.reply, s'.cluster)
      && s'.link == Correlation.Served(s.link, AnswerOf(e))
      && s'.told == if e.reply.None? then s.told else s.told[p.id := Served(Opened(disk, s.cluster.stores, r.value.app), AnswerOf(e).value)]
  }

  function AnswerOf(e: Event): (a: Option<Codec.Answer>)
    requires e.Serve?
    ensures a.Some? <==> e.reply.Some?
  {
    if e.reply.None? then None else Some(AnswerTo(e.reply.value, e.timeout))
  }

  ghost predicate Step(disk: Disk, node: NodeId, s: State, e: Event, s': State) {
    match e
    case Send(r) => Correlation.Step(s.link, Correlation.Send(r), s'.link) && s' == s.(link := s'.link)
    case Serve(_, _, _, _) => ServeStep(disk, node, s, e, s')
    case Receive => Correlation.Step(s.link, Correlation.Receive, s'.link) && s' == s.(link := s'.link)
    case Elsewhere(f, reply) => Cluster.Next(disk, s.cluster, f, reply, s'.cluster) && s' == s.(cluster := s'.cluster)
  }

  ghost predicate Run(disk: Disk, node: NodeId, states: seq<State>, events: seq<Event>) {
    && |states| == |events| + 1
    && states[0] == START
    && (forall i :: 0 <= i < |events| ==> Step(disk, node, states[i], events[i], states[i + 1]))
  }

  // What an answer means

  /** The answer is right with this as the key next above the lower bound. */
  ghost predicate RightNextKey(node: NodeId, st: Store, lower: Bound, to: Bound, a: Codec.Answer) {
    && IsNext(st.data, lower, to)
    && RangeAnswer(st.locks, node, Interval(lower, to), a.Granted?)
    && (a.Granted? ==> a.data == DataOf(to))
  }

  /** The answer is right for the request on these stores. */
  ghost predicate Right(node: NodeId, stores: Stores, r: Request, a: Codec.Answer) {
    var id := Resolve(r.app, r.store);
    && id.Some? && id.value in stores
    && var st := stores[id.value];
    match r
    case ValueRequest(_, _, forWrite, key) =>
      && (a.Granted? <==> PointGrantable(st.locks, node, key, forWrite))
      && (a.Granted? ==> a.data == DataOf(Lookup(st.data, key)))
    case NextKeyRequest(_, _, from) =>
      var lower := match from case None => Null case Some(k) => At(k);
      exists to :: RightNextKey(node, st, lower, to, a)
  }

  lemma RepliesAreRight(disk: Disk, node: NodeId, c: Cluster.State, r: Request, e: Event, c': Cluster.State)
    requires e.Serve? && e.reply.Some? && Cluster.Next(disk, c, Asked(node, r, e.to, e.granted), e.reply, c')
    ensures Right(node, Opened(disk, c.stores, r.app), r, AnswerOf(e).value)
  {
    hide Opened, PointGrantable, RangeAnswer, IsNext, Cluster.CacheAfter, Cluster.GrantsAfter;
    if r.NextKeyRequest? {
      var lower := match r.from case None => Null case Some(k) => At(k);
      assert BoundOf(r.from) == lower;
      var st := Opened(disk, c.stores, r.app)[Resolve(r.app, r.store).value];
      assert RightNextKey(node, st, lower, e.to, AnswerOf(e).value);
    }
  }

  // The invariant

  /** What the server makes of the bytes of a request. */
  function Understood(r: Request): Option<Request> {
    ReadRequest(RequestOpcode(r), WriteRequest(r))
  }

  /** The packet carries what its request was told, and that was right. */
  ghost predicate Carried(node: NodeId, s: State, p: Correlation.Packet) {
    && p.id < |s.link.requests| && p.id in s.told
    && var r := Understood(s.link.requests[p.id]);
    && r.Some? && Right(node, s.told[p.id].stores, r.value, s.told[p.id].answer)
    && p.payload == Codec.WriteResponse(Codec.Response(r.value.app, r.value.store, s.told[p.id].answer))
  }

  /** Requests are served in order, each once. */
  ghost predicate InOrder(s: State) {
    && (forall i, j :: 0 <= i < j < |s.link.toServer| ==> s.link.toServer[i].id < s.link.toServer[j].id)
    && (forall i, x :: 0 <= i < |s.link.toServer| && x in s.told ==> x < s.link.toServer[i].id)
    && (forall x :: x in s.told ==> x < |s.link.requests|)
    && (forall i :: 0 <= i < |s.link.toServer| ==> s.link.toServer[i].id < |s.link.requests|)
  }

  ghost predicate AllCarried(node: NodeId, s: State) {
    forall i :: 0 <= i < |s.link.toClient| ==> Carried(node, s, s.link.toClient[i])
  }

  ghost predicate Inv(node: NodeId, s: State) {
    Correlation.Inv(s.link) && Cluster.Inv(s.cluster) && AllCarried(node, s) && InOrder(s)
  }

  lemma LinkSteps(disk: Disk, node: NodeId, s: State, e: Event, s': State)
    requires Correlation.Inv(s.link) && Step(disk, node, s, e, s')
    ensures Correlation.Inv(s'.link)
  {
    hide Correlation.Inv, Correlation.Sent, Correlation.Served, Correlation.Received, Cluster.Next, ReadRequest;
    match e {
      case Send(r) => Correlation.StepKeepsInv(s.link, Correlation.Send(r), s'.link);
      case Serve(_, _, _, _) =>
        var p := s.link.toServer[0];
        var a := if ReadRequest(p.opcode, p.payload).None? then None else AnswerOf(e);
        assert Correlation.Step(s.link, Correlation.Serve(a), s'.link);
        Correlation.StepKeepsInv(s.link, Correlation.Serve(a), s'.link);
      case Receive => Correlation.StepKeepsInv(s.link, Correlation.Receive, s'.link);
      case Elsewhere(_, _) =>
    }
  }

  lemma ClusterSteps(disk: Disk, node: NodeId, s: State, e: Event, s': State)
    requires Cluster.Inv(s.cluster) && Step(disk, node, s, e, s')
    ensures Cluster.Inv(s'.cluster)
  {
    hide Cluster.Inv, Cluster.Next, Correlation.Sent, Correlation.Served, Correlation.Received, ReadRequest;
    match e {
      case Serve(to, granted, reply, _) =>
        var p := s.link.toServer[0];
        var r := ReadRequest(p.opcode, p.payload);
        if r.Some? {
          Cluster.StepKeepsInv(disk, s.cluster, Asked(node, r.value, to, granted), reply, s'.cluster);
        }
      case Elsewhere(f, reply) => Cluster.StepKeepsInv(disk, s.cluster, f, reply, s'.cluster);
      case _ =>
    }
  }

  lemma ServeKeepsOrder(disk: Disk, node: NodeId, s: State, e: Event, s': State)
    requires InOrder(s) && e.Serve? && ServeStep(disk, node, s, e, s')
    ensures InOrder(s')
  {
    hide Cluster.Next, ReadRequest, Codec.WriteResponse, ResponseOpcode, Opened;
    var p := s.link.toServer[0];
    assert s'.link.toServer == s.link.toServer[1..] && s'.link.requests == s.link.requests;
    assert forall x :: x in s'.told ==> x in s.told || x == p.id;
    assert forall i :: 0 <= i < |s'.link.toServer| ==> s'.link.toServer[i] == s.link.toServer[i + 1] && p.id < s.link.toServer[i + 1].id;
  }

  lemma OrderSteps(disk: Disk, node: NodeId, s: State, e: Event, s': State)
    requires InOrder(s) && Step(disk, node, s, e, s')
    ensures InOrder(s')
  {
    hide Cluster.Next, ServeStep, Codec.ReadResponse, WriteRequest, RequestOpcode, ResponseOpcode, Codec.NulFree;
    if e.Serve? {
      ServeKeepsOrder(disk, node, s, e, s');
    }
  }

  lemma CarriedStays(node: NodeId, s: State, s': State, p: Correlation.Packet)
    requires Carried(node, s, p) && p.id < |s'.link.requests| && s'.link.requests[p.id] == s.link.requests[p.id]
    requires p.id in s'.told && s'.told[p.id] == s.told[p.id]
    ensures Carried(node, s', p)
  {
  }

  lemma ServedIsCarried(disk: Disk, node: NodeId, s: State, e: Event, s': State)
    requires Correlation.Inv(s.link) && e.Serve? && ServeStep(disk, node, s, e, s') && s'.link.toClient != s.link.toClient
    ensures |s'.link.toClient| == |s.link.toClient| + 1 && Carried(node, s', s'.link.toClient[|s.link.toClient|])
  {
    hide Cluster.Next, ReadRequest, Codec.WriteResponse, WriteRequest, RequestOpcode, ResponseOpcode, Right, Opened, Correlation.AllInStep;
    var p := s.link.toServer[0];
    Correlation.ServerHeadKnown(s.link);
    var r := ReadRequest(p.opcode, p.payload);
    RepliesAreRight(disk, node, s.cluster, r.value, e, s'.cluster);
  }

  /** What a step leaves of the requests made and of what they were told. */
  ghost predicate Remembers(s: State, s': State) {
    && s.link.requests <= s'.link.requests
    && (forall x :: x in s.told ==> x in s'.told && s'.told[x] == s.told[x])
  }

  lemma StepRemembers(disk: Disk, node: NodeId, s: State, e: Event, s': State)
    requires InOrder(s) && Step(disk, node, s, e, s')
    ensures Remembers(s, s')
  {
    hide Cluster.Next, ReadRequest, Codec.ReadResponse, Codec.WriteResponse, WriteRequest, RequestOpcode, ResponseOpcode, Codec.NulFree, Opened;
  }

  lemma OldPackets(disk: Disk, node: NodeId, s: State, e: Event, s': State, i: nat)
    requires Step(disk, node, s, e, s') && i < |s'.link.toClient|
    ensures s'.link.toClient[i] in s.link.toClient || (e.Serve? && i == |s.link.toClient| && s'.link.toClient != s.link.toClient)
  {
    hide Cluster.Next, ReadRequest, Codec.ReadResponse, Codec.WriteResponse, WriteRequest, RequestOpcode, ResponseOpcode, Codec.NulFree, Opened;
    if e.Receive? {
      assert s'.link.toClient[i] == s.link.toClient[i + 1];
    }
  }

  lemma ServeIsStep(disk: Disk, node: NodeId, s: State, e: Event, s': State)
    requires e.Serve? && Step(disk, node, s, e, s')
    ensures ServeStep(disk, node, s, e, s')
  {
  }

  lemma CarrySteps(disk: Disk, node: NodeId, s: State, e: Event, s': State)
    requires Correlation.Inv(s.link) && InOrder(s) && AllCarried(node, s) && Step(disk, node, s, e, s')
    ensures AllCarried(node, s')
  {
    hide Carried, Step, ServeStep, Correlation.Inv, InOrder;
    StepRemembers(disk, node, s, e, s');
    forall i | 0 <= i < |s'.link.toClient|
      ensures Carried(node, s', s'.link.toClient[i])
    {
      var p := s'.link.toClient[i];
      OldPackets(disk, node, s, e, s', i);
      if p in s.link.toClient {
        CarriedIsTold(node, s, p);
        CarriedStays(node, s, s', p);
      } else {
        ServeIsStep(disk, node, s, e, s');
        ServedIsCarried(disk, node, s, e, s');
      }
    }
  }

  lemma CarriedIsTold(node: NodeId, s: State, p: Correlation.Packet)
    requires Carried(node, s, p)
    ensures p.id in s.told && p.id < |s.link.requests|
  {
  }

  lemma {:induction false} EveryRunKeepsInv(disk: Disk, node: NodeId, states: seq<State>, events: seq<Event>, n: nat)
    requires Run(disk, node, states, events) && n <= |events|
    ensures Inv(node, states[n])
    decreases n
  {
    if n == 0 {
      Correlation.IdleInv();
    } else {
      hide Step, Correlation.Inv, Cluster.Inv, AllCarried, InOrder;
      EveryRunKeepsInv(disk, node, states, events, n - 1);
      LinkSteps(disk, node, states[n - 1], events[n - 1], states[n]);
      ClusterSteps(disk, node, states[n - 1], events[n - 1], states[n]);
      OrderSteps(disk, node, states[n - 1], events[n - 1], states[n]);
      CarrySteps(disk, node, states[n - 1], events[n - 1], states[n]);
    }
  }

  // What callbacks are given

  /** No request of the first response's application that was made before its own went
      unanswered. */
  ghost predicate NoneMissed(s: Correlation.State) {
    && s.toClient != [] && s.toClient[0].id < |s.requests|
    && var id := s.toClient[0].id;
    forall x :: x in s.lost && Correlation.Number(s.requests, s.requests[id].app, x) ==> x >= id
  }

  /** Whatever else goes on in the cluster: a response that can be read, when no earlier request
      of its application went unanswered, takes the callback of its own request, and gives it
      an answer that was right for that request, key and all, on the stores it was served
      from; if the answer can be sent, it is that answer to the byte. */
  lemma CallbackGetsItsAnswer(disk: Disk, node: NodeId, states: seq<State>, events: seq<Event>, n: nat)
    requires Run(disk, node, states, events) && n < |events| && events[n].Receive? && NoneMissed(states[n].link)
    requires Codec.ReadResponse(states[n].link.toClient[0].payload).Some?
    ensures var s, s' := states[n].link, states[n + 1].link;
            && |s'.matches| == |s.matches| + 1
            && var m := s'.matches[|s.matches|];
            && m.callback.id == m.answers == s.toClient[0].id < |s.requests| && m.opcode == m.callback.expected
            && m.answers in states[n].told
            && var r, told, read := s.requests[m.callback.id], states[n].told[m.answers], Codec.ReadResponse(s.toClient[0].payload).value;
            && read.app == r.app && read.store == r.store
            && (SendableRequest(r) ==> Right(node, told.stores, r, told.answer))
            && (Codec.Sendable(told.answer) ==> read.answer == told.answer)
  {
    hide Right, Codec.ReadResponse, Codec.WriteResponse, ReadRequest, WriteRequest, RequestOpcode, ResponseOpcode, Codec.Sendable, SendableRequest;
    EveryRunKeepsInv(disk, node, states, events, n);
    var s := states[n];
    var p := s.link.toClient[0];
    assert Step(disk, node, s, events[n], states[n + 1]);
    assert Carried(node, s, p);
    var r := s.link.requests[p.id];
    Correlation.CallbackTaken(s.link);
    RequestsAreNames(s.link, p.id);
    RequestRoundTripIff(r);
    Codec.ResponseRoundTripIff(Codec.Response(r.app, r.store, s.told[p.id].answer));
  }

  lemma RequestsAreNames(s: Correlation.State, id: nat)
    requires Correlation.Inv(s) && id < |s.requests|
    ensures Codec.NulFree(s.requests[id].app) && Codec.NulFree(s.requests[id].store)
  {
  }

  /** What was told stays told. */
  lemma {:induction false} ToldStays(disk: Disk, node: NodeId, states: seq<State>, events: seq<Event>, i: nat, n: nat, x: nat)
    requires Run(disk, node, states, events) && i <= n <= |events| && x in states[i].told && x < |states[i].link.requests|
    ensures x in states[n].told && states[n].told[x] == states[i].told[x]
    ensures x < |states[n].link.requests| && states[n].link.requests[x] == states[i].link.requests[x]
    decreases n
  {
    hide Step, Inv;
    if i < n {
      ToldStays(disk, node, states, events, i, n - 1, x);
      EveryRunKeepsInv(disk, node, states, events, n - 1);
      InvIsInOrder(node, states[n - 1]);
      StepRemembers(disk, node, states[n - 1], events[n - 1], states[n]);
    }
  }

  lemma InvIsInOrder(node: NodeId, s: State)
    requires Inv(node, s)
    ensures InOrder(s) && Cluster.Inv(s.cluster)
  {
  }

  /** The node holds the key in the store. */
  predicate HoldsIn(s: State, node: NodeId, id: StoreId, k: Key) {
    id in s.cluster.stores && Holds(s.cluster.stores[id].locks, node, k)
  }

  function ValueIn(s: State, id: StoreId, k: Key): Bound {
    if id in s.cluster.stores then Lookup(s.cluster.stores[id].data, k) else Null
  }

  /** The step is no changeset of the node's own. */
  predicate ByOthers(e: Event, node: NodeId) {
    e.Elsewhere? && e.event.SubmitChangeset? ==> e.event.node != node
  }

  lemma HeldValueStays(disk: Disk, node: NodeId, s: State, e: Event, s': State, id: StoreId, k: Key)
    requires Cluster.Inv(s.cluster) && Step(disk, node, s, e, s') && HoldsIn(s, node, id, k) && ByOthers(e, node)
    ensures id in s'.cluster.stores && ValueIn(s', id, k) == ValueIn(s, id, k)
  {
    hide Cluster.Inv, Cluster.Next, ReadRequest, Correlation.Step, Correlation.Served, Lookup, Opened;
    match e {
      case Serve(to, granted, reply, _) =>
        var p := s.link.toServer[0];
        var r := ReadRequest(p.opcode, p.payload);
        if r.Some? {
          Cluster.HeldKeyStays(disk, s.cluster, Asked(node, r.value, to, granted), reply, s'.cluster, id, node, k);
        }
      case Elsewhere(f, reply) => Cluster.HeldKeyStays(disk, s.cluster, f, reply, s'.cluster, id, node, k);
      case _ =>
    }
  }

  lemma {:induction false} HeldValueLasts(disk: Disk, node: NodeId, states: seq<State>, events: seq<Event>, i: nat, n: nat, id: StoreId, k: Key)
    requires Run(disk, node, states, events) && i <= n <= |events|
    requires forall j :: i <= j <= n ==> HoldsIn(states[j], node, id, k)
    requires forall j :: i <= j < n ==> ByOthers(events[j], node)
    ensures ValueIn(states[n], id, k) == ValueIn(states[i], id, k)
    decreases n
  {
    hide Step, Inv, Lookup;
    if i < n {
      HeldValueLasts(disk, node, states, events, i, n - 1, id, k);
      EveryRunKeepsInv(disk, node, states, events, n - 1);
      InvIsInOrder(node, states[n - 1]);
      HeldValueStays(disk, node, states[n - 1], events[n - 1], states[n], id, k);
    }
  }

  /** Serving a request for a value records the answer, with the value the store still has. */
  lemma ServedValue(disk: Disk, node: NodeId, s: State, e: Event, s': State, id: StoreId)
    requires Inv(node, s) && e.Serve? && e.reply.Some? && Step(disk, node, s, e, s') && s.link.toServer != []
    requires var x := s.link.toServer[0].id; x < |s.link.requests| && s.link.requests[x].ValueRequest? && SendableRequest(s.link.requests[x]) && Resolve(s.link.requests[x].app, s.link.requests[x].store) == Some(id)
    ensures var x := s.link.toServer[0].id; var r := s.link.requests[x];
            && x in s'.told && x < |s'.link.requests| && s'.link.requests[x] == r && s'.told[x].answer == AnswerOf(e).value
            && (s'.told[x].answer.Granted? ==> s'.told[x].answer.data == DataOf(ValueIn(s', id, r.key)))
  {
    hide ReadRequest, WriteRequest, RequestOpcode, ResponseOpcode, SendableRequest, Codec.WriteResponse, PointGrantable, PointGranted,
         Opened, AllCarried, Cluster.Inv, Correlation.AllInStep, Cluster.CacheAfter, Cluster.GrantsAfter, Resolve;
    Correlation.ServerHeadKnown(s.link);
    var x := s.link.toServer[0].id;
    var r := s.link.requests[x];
    RequestsAreNames(s.link, x);
    RequestRoundTripIff(r);
    var o := Opened(disk, s.cluster.stores, r.app);
    ValueReply(o, node, id, r.key, r.forWrite, s'.cluster.stores, e.reply.value, e.timeout);
  }

  lemma ValueReply(o: Stores, node: NodeId, id: StoreId, k: Key, w: bool, s': Stores, reply: Reply, timeout: Codec.Timeval)
    requires ValueStep(o, node, Some(id), k, w, s', Some(reply))
    ensures id in s' && (AnswerTo(reply, timeout).Granted? ==> AnswerTo(reply, timeout).data == DataOf(Lookup(s'[id].data, k)))
  {
    hide PointGrantable, PointGranted;
  }

  /** A value that reaches its callback is the value the store holds at that moment, for the
      key asked for, if the node has held the key since it was served and has committed no
      change in between. */
  lemma CallbackGetsCurrentValue(disk: Disk, node: NodeId, states: seq<State>, events: seq<Event>, i: nat, n: nat, id: StoreId, r: Request)
    requires Run(disk, node, states, events) && i < n < |events|
    requires events[i].Serve? && events[i].reply.Some? && states[i].link.toServer != []
    requires var x := states[i].link.toServer[0].id; x < |states[i].link.requests| && states[i].link.requests[x] == r
    requires r.ValueRequest? && SendableRequest(r) && Resolve(r.app, r.store) == Some(id)
    requires events[n].Receive? && NoneMissed(states[n].link) && states[n].link.toClient[0].id == states[i].link.toServer[0].id
    requires AnswerOf(events[i]).value.Granted? && Codec.Sendable(AnswerOf(events[i]).value)
    requires forall j :: i < j <= n ==> HoldsIn(states[j], node, id, r.key)
    requires forall j :: i < j < n ==> ByOthers(events[j], node)
    ensures var read := Codec.ReadResponse(states[n].link.toClient[0].payload);
            && read.Some? && read.value.answer == Codec.Granted(DataOf(ValueIn(states[n], id, r.key)))
            && |states[n + 1].link.matches| == |states[n].link.matches| + 1
            && states[n + 1].link.matches[|states[n].link.matches|].callback.id == states[i].link.toServer[0].id
  {
    hide Step, Inv, Codec.ReadResponse, Codec.WriteResponse, Codec.Sendable, SendableRequest, Right, HoldsIn, ByOthers, ValueIn, Resolve;
    var x := states[i].link.toServer[0].id;
    EveryRunKeepsInv(disk, node, states, events, i);
    ServedValue(disk, node, states[i], events[i], states[i + 1], id);
    ToldStays(disk, node, states, events, i + 1, n, x);
    HeldValueLasts(disk, node, states, events, i + 1, n, id, r.key);
    EveryRunKeepsInv(disk, node, states, events, n);
    FirstIsReadable(node, states[n]);
    CallbackGetsItsAnswer(disk, node, states, events, n);
  }

  lemma FirstIsReadable(node: NodeId, s: State)
    requires Inv(node, s) && s.link.toClient != []
    ensures var p := s.link.toClient[0]; p.id in s.told && (Codec.Sendable(s.told[p.id].answer) ==> Codec.ReadResponse(p.payload).Some?)
  {
    hide Right, Codec.ReadResponse, Codec.WriteResponse, ReadRequest, WriteRequest, RequestOpcode, ResponseOpcode, Codec.Sendable;
    var p := s.link.toClient[0];
    assert Carried(node, s, p);
    var r := s.link.requests[p.id];
    RequestsAreNames(s.link, p.id);
    RequestRoundTripIff(r);
    Codec.ResponseRoundTripIff(Codec.Response(r.app, r.store, s.told[p.id].answer));
  }
}
