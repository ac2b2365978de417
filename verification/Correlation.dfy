/**
 How responses find their callbacks. A response does not say which request it answers:
 the client keeps, for each application, a queue of callbacks in the order of the requests,
 and gives each response to the first. Here a client and a server talk over one
 connection, any requests of any applications interleaved, any of them possibly going
 unanswered, and it is proved exactly when a callback gets the answer to its own request.
 */
module Correlation {
  import opened Keys
  import opened Wrappers
  import opened Codec
  import opened Requests

  /** A callback waiting for a response. The number of the request is not in the program:
      it is how the proofs tell requests apart. */
  datatype Registration = Registration(expected: byte, id: nat)

  datatype Packet = Packet(opcode: byte, payload: Bytes, id: nat)

  /** A callback taken off its queue for a response to the request with the given number;
      it is called if the opcode of the response is the one expected. */
  datatype Match = Match(callback: Registration, answers: nat, opcode: byte)

  type Queues = map<Bytes, seq<Registration>>

  function QueueOf(q: Queues, app: Bytes): seq<Registration> {
    if app in q then q[app] else []
  }

  /** The connection: the requests made so far, the callbacks of each application, the
      messages under way in each direction, the requests that will never have an answer,
      and the callbacks taken. */
  datatype State = State(
    requests: seq<Request>,
    queues: Queues,
    toServer: seq<Packet>,
    toClient: seq<Packet>,
    lost: set<nat>,
    matches: seq<Match>)

  const IDLE: State := State([], map[], [], [], {}, [])

  datatype Event =
    | Send(request: Request)
    | Serve(answer: Option<Answer>)
    | Receive

  function Sent(s: State, r: Request): State {
    var id := |s.requests|;
    s.(requests := s.requests + [r],
       queues := s.queues[r.app := QueueOf(s.queues, r.app) + [Registration(ResponseOpcode(r), id)]],
       toServer := s.toServer + [Packet(RequestOpcode(r), WriteRequest(r), id)])
  }

  /** The server takes the first request: it answers, unless it cannot read the request or
      the store named is not one it has. */
  function Served(s: State, answer: Option<Answer>): State
    requires s.toServer != []
  {
    var p, t := s.toServer[0], s.(toServer := s.toServer[1..]);
    var r := ReadRequest(p.opcode, p.payload);
    if r.None? || answer.None? then t.(lost := s.lost + {p.id})
    else t.(toClient := s.toClient + [Packet(ResponseOpcode(r.value), WriteResponse(Response(r.value.app, r.value.store, answer.value)), p.id)])
  }

  /** The client takes the first response: if it can read it, it takes a callback from the
      queue of the application named. */
  function Received(s: State): State
    requires s.toClient != []
  {
    var p, t := s.toClient[0], s.(toClient := s.toClient[1..]);
    match ReadResponse(p.payload)
    case None => t.(lost := s.lost + {p.id})
    case Some(r) =>
      var q := QueueOf(s.queues, r.app);
      if q == [] then t
      else t.(queues := s.queues[r.app := q[1..]], matches := s.matches + [Match(q[0], p.id, p.opcode)])
  }

  ghost predicate Step(s: State, e: Event, s': State) {
    match e
    case Send(r) => NulFree(r.app) && NulFree(r.store) && s' == Sent(s, r)
    case Serve(answer) => s.toServer != [] && s' == Served(s, answer)
    case Receive => s.toClient != [] && s' == Received(s)
  }

  ghost predicate Run(states: seq<State>, events: seq<Event>) {
    && |states| == |events| + 1
    && states[0] == IDLE
    && (forall i :: 0 <= i < |events| ==> Step(states[i], events[i], states[i + 1]))
  }

  // Counting

  /** The numbers of an application's requests, in order. */
  function Made(requests: seq<Request>, app: Bytes): seq<nat> {
    if requests == [] then [] else
      var n := |requests| - 1;
      Made(requests[..n], app) + if requests[n].app == app then [n] else []
  }

  function Kept(ids: seq<nat>, lost: set<nat>): seq<nat> {
    if ids == [] then [] else
      var n := |ids| - 1;
      Kept(ids[..n], lost) + if ids[n] in lost then [] else [ids[n]]
  }

  /** The number of the request a packet belongs to, if it is the application's. */
  function NumberIn(p: Packet, requests: seq<Request>, app: Bytes): seq<nat> {
    if p.id < |requests| && requests[p.id].app == app then [p.id] else []
  }

  /** The numbers of an application's requests among those under way. */
  function Underway(packets: seq<Packet>, requests: seq<Request>, app: Bytes): seq<nat> {
    if packets == [] then [] else NumberIn(packets[0], requests, app) + Underway(packets[1..], requests, app)
  }

  function Ids(q: seq<Registration>): (r: seq<nat>)
    ensures |r| == |q|
  {
    seq(|q|, i requires 0 <= i < |q| => q[i].id)
  }

  /** How many callbacks of an application have been taken. */
  function Taken(matches: seq<Match>, requests: seq<Request>, app: Bytes): nat {
    if matches == [] then 0 else
      var n := |matches| - 1;
      var id := matches[n].answers;
      Taken(matches[..n], requests, app) + if id < |requests| && requests[id].app == app then 1 else 0
  }

  /** An application's requests under way, first those already answered. */
  function Outstanding(s: State, app: Bytes): seq<nat> {
    Underway(s.toClient, s.requests, app) + Underway(s.toServer, s.requests, app)
  }

  /** The callbacks left are those of all requests but the first so many; the requests under
      way are all that were not lost but the first so many. */
  ghost predicate Aligned(queue: seq<nat>, under: seq<nat>, made: seq<nat>, kept: seq<nat>, k: nat) {
    k <= |kept| <= |made| && queue == made[k..] && under == kept[k..]
  }

  ghost predicate InStep(s: State, app: Bytes) {
    var made := Made(s.requests, app);
    Aligned(Ids(QueueOf(s.queues, app)), Outstanding(s, app), made, Kept(made, s.lost), Taken(s.matches, s.requests, app))
  }

  // The invariant

  ghost predicate RequestKnown(s: State, p: Packet) {
    && p.id < |s.requests| && p.opcode == RequestOpcode(s.requests[p.id])
    && p.payload == WriteRequest(s.requests[p.id])
  }

  ghost predicate ResponseKnown(s: State, p: Packet) {
    && p.id < |s.requests| && p.opcode == ResponseOpcode(s.requests[p.id])
    && (ReadResponse(p.payload).Some? ==> ReadResponse(p.payload).value.app == s.requests[p.id].app)
  }

  ghost predicate CallbackKnown(s: State, c: Registration) {
    c.id < |s.requests| && c.expected == ResponseOpcode(s.requests[c.id])
  }

  ghost predicate Known(s: State) {
    && (forall i :: 0 <= i < |s.requests| ==> NulFree(s.requests[i].app) && NulFree(s.requests[i].store))
    && (forall i :: 0 <= i < |s.toServer| ==> RequestKnown(s, s.toServer[i]))
    && (forall i :: 0 <= i < |s.toClient| ==> ResponseKnown(s, s.toClient[i]))
    && (forall app, i :: app in s.queues && 0 <= i < |s.queues[app]| ==> CallbackKnown(s, s.queues[app][i]))
    && (forall i :: 0 <= i < |s.matches| ==> s.matches[i].answers < |s.requests|)
  }

  lemma SentKnown(s: State, r: Request)
    requires Known(s) && NulFree(r.app) && NulFree(r.store)
    ensures Known(Sent(s, r))
  {
    hide RequestOpcode, ResponseOpcode, WriteRequest, ReadResponse, NulFree;
    var t, q := Sent(s, r), QueueOf(s.queues, r.app);
    assert forall i :: 0 <= i < |s.requests| ==> t.requests[i] == s.requests[i];
    assert forall i :: 0 <= i < |s.toServer| ==> RequestKnown(s, s.toServer[i]) && RequestKnown(t, s.toServer[i]);
    assert forall i :: 0 <= i < |s.toClient| ==> ResponseKnown(s, s.toClient[i]) && ResponseKnown(t, s.toClient[i]);
    forall app, i | app in t.queues && 0 <= i < |t.queues[app]|
      ensures CallbackKnown(t, t.queues[app][i])
    {
      if app == r.app && i == |q| {
        assert t.queues[app][i] == Registration(ResponseOpcode(r), |s.requests|);
      } else {
        assert app in s.queues && t.queues[app][i] == s.queues[app][i];
        assert CallbackKnown(s, s.queues[app][i]);
      }
    }
  }

  lemma ServedKnown(s: State, answer: Option<Answer>)
    requires Known(s) && s.toServer != []
    ensures Known(Served(s, answer))
  {
    hide RequestOpcode, ResponseOpcode, WriteRequest, ReadRequest, ReadResponse, WriteResponse, NulFree;
    var t, p := Served(s, answer), s.toServer[0];
    assert RequestKnown(s, p);
    RequestRoundTripIff(s.requests[p.id]);
    var r := ReadRequest(p.opcode, p.payload);
    if r.Some? && answer.Some? {
      ResponseRoundTripIff(Response(r.value.app, r.value.store, answer.value));
      SameOpcode(r.value, s.requests[p.id]);
      assert ResponseKnown(t, t.toClient[|s.toClient|]);
    }
    forall i | 0 <= i < |s.toClient|
      ensures ResponseKnown(t, s.toClient[i])
    {
      assert ResponseKnown(s, s.toClient[i]);
    }
    forall i | 0 <= i < |t.toServer|
      ensures RequestKnown(t, t.toServer[i])
    {
      assert RequestKnown(s, s.toServer[i + 1]);
    }
    forall app, i | app in t.queues && 0 <= i < |t.queues[app]|
      ensures CallbackKnown(t, t.queues[app][i])
    {
      assert CallbackKnown(s, s.queues[app][i]);
    }
  }

  lemma SameOpcode(r: Request, r': Request)
    requires r.ValueRequest? == r'.ValueRequest?
    ensures ResponseOpcode(r) == ResponseOpcode(r')
  {
  }

  lemma ReceivedKnown(s: State)
    requires Known(s) && s.toClient != []
    ensures Known(Received(s))
  {
    hide RequestOpcode, ResponseOpcode, WriteRequest, ReadResponse, NulFree;
    var t, p := Received(s), s.toClient[0];
    assert ResponseKnown(s, p);
    forall i | 0 <= i < |t.toClient|
      ensures ResponseKnown(t, t.toClient[i])
    {
      assert ResponseKnown(s, s.toClient[i + 1]);
    }
    forall i | 0 <= i < |t.toServer|
      ensures RequestKnown(t, t.toServer[i])
    {
      assert RequestKnown(s, s.toServer[i]);
    }
    forall app, i | app in t.queues && 0 <= i < |t.queues[app]|
      ensures CallbackKnown(t, t.queues[app][i])
    {
      assert app in s.queues && (t.queues[app][i] == s.queues[app][i] || t.queues[app][i] == s.queues[app][i + 1]);
      assert CallbackKnown(s, s.queues[app][i]);
      if t.queues[app][i] != s.queues[app][i] {
        assert CallbackKnown(s, s.queues[app][i + 1]);
      }
    }
  }

  // Lemmas on the counts

  ghost predicate Ascends(ids: seq<nat>) {
    forall i, j :: 0 <= i < j < |ids| ==> ids[i] < ids[j]
  }

  ghost predicate Number(requests: seq<Request>, app: Bytes, id: nat) {
    id < |requests| && requests[id].app == app
  }

  lemma {:induction false} MadeAscends(requests: seq<Request>, app: Bytes)
    ensures Ascends(Made(requests, app)) && forall x :: x in Made(requests, app) ==> Number(requests, app, x)
  {
    if requests != [] {
      var n := |requests| - 1;
      MadeAscends(requests[..n], app);
      var before, m := Made(requests[..n], app), Made(requests, app);
      forall x | x in before
        ensures Number(requests, app, x) && x < n
      {
        assert Number(requests[..n], app, x);
      }
      assert forall i :: 0 <= i < |before| ==> m[i] == before[i] && before[i] in before;
    }
  }

  lemma {:induction false} MadeHas(requests: seq<Request>, app: Bytes, id: nat)
    requires id < |requests| && requests[id].app == app
    ensures id in Made(requests, app)
  {
    var n := |requests| - 1;
    if id < n {
      MadeHas(requests[..n], app, id);
    }
  }

  lemma {:induction false} KeptIsPart(ids: seq<nat>, lost: set<nat>)
    ensures |Kept(ids, lost)| <= |ids| && forall x :: x in Kept(ids, lost) <==> x in ids && x !in lost
  {
    if ids != [] {
      var n := |ids| - 1;
      KeptIsPart(ids[..n], lost);
      assert ids == ids[..n] + [ids[n]];
    }
  }

  lemma KeptAppends(ids: seq<nat>, x: nat, lost: set<nat>)
    ensures Kept(ids + [x], lost) == Kept(ids, lost) + if x in lost then [] else [x]
  {
    assert (ids + [x])[..|ids|] == ids;
  }

  lemma {:induction false} KeptIgnores(ids: seq<nat>, lost: set<nat>, x: nat)
    requires x !in ids
    ensures Kept(ids, lost + {x}) == Kept(ids, lost)
  {
    if ids != [] {
      var n := |ids| - 1;
      assert ids == ids[..n] + [ids[n]];
      KeptIgnores(ids[..n], lost, x);
    }
  }

  lemma LastOfTwo(k: seq<nat>, x: nat, u: seq<nat>, v: seq<nat>)
    requires k + [x] == u + [x] + v && x !in k
    ensures v == [] && k == u
  {
    assert (k + [x])[|u|] == x;
    assert |u| == |k|;
    assert k == (k + [x])[..|k|] && u == (u + [x])[..|u|];
  }

  /** Losing one of the requests takes it, and nothing else, from those kept. */
  lemma {:induction false} KeptLoses(ids: seq<nat>, lost: set<nat>, u: seq<nat>, x: nat, v: seq<nat>)
    requires Ascends(ids) && Kept(ids, lost) == u + [x] + v
    ensures Kept(ids, lost + {x}) == u + v
    decreases |ids|
  {
    assert ids != [];
    var n := |ids| - 1;
    var y, k := ids[n], Kept(ids[..n], lost);
    if y in lost {
      KeptLoses(ids[..n], lost, u, x, v);
    } else if y == x {
      KeptIsPart(ids[..n], lost);
      LastOfTwo(k, x, u, v);
      KeptIgnores(ids[..n], lost, x);
      assert u + v == u;
    } else {
      var m := |v| - 1;
      assert (u + [x] + v)[|k|] == y;
      assert v != [] && v[m] == y;
      assert k == (u + [x] + v)[..|k|] && k == u + [x] + v[..m];
      KeptLoses(ids[..n], lost, u, x, v[..m]);
      assert u + v[..m] + [y] == u + v;
    }
  }

  lemma {:induction false} UnderwayAppends(packets: seq<Packet>, p: Packet, requests: seq<Request>, app: Bytes)
    ensures Underway(packets + [p], requests, app) == Underway(packets, requests, app) + NumberIn(p, requests, app)
  {
    hide NumberIn;
    if packets == [] {
      assert packets + [p] == [p] && [p][1..] == [];
    } else {
      var rest := packets[1..];
      UnderwayAppends(rest, p, requests, app);
      assert (packets + [p])[1..] == rest + [p] && (packets + [p])[0] == packets[0];
    }
  }

  lemma {:induction false} UnderwayKept(packets: seq<Packet>, requests: seq<Request>, r: Request, app: Bytes)
    requires forall i :: 0 <= i < |packets| ==> packets[i].id < |requests|
    ensures Underway(packets, requests + [r], app) == Underway(packets, requests, app)
  {
    if packets != [] {
      UnderwayKept(packets[1..], requests, r, app);
    }
  }

  lemma {:induction false} TakenKept(matches: seq<Match>, requests: seq<Request>, r: Request, app: Bytes)
    requires forall i :: 0 <= i < |matches| ==> matches[i].answers < |requests|
    ensures Taken(matches, requests + [r], app) == Taken(matches, requests, app)
  {
    if matches != [] {
      TakenKept(matches[..|matches| - 1], requests, r, app);
    }
  }

  // Every step keeps callbacks and requests in step

  ghost predicate AllInStep(s: State) {
    forall app :: InStep(s, app)
  }

  lemma AlignedMore(queue: seq<nat>, under: seq<nat>, made: seq<nat>, kept: seq<nat>, k: nat, id: nat)
    requires Aligned(queue, under, made, kept, k)
    ensures Aligned(queue + [id], under + [id], made + [id], kept + [id], k)
  {
  }

  lemma SentOutstanding(s: State, r: Request, app: Bytes)
    requires Known(s)
    ensures Outstanding(Sent(s, r), app) == Outstanding(s, app) + if r.app == app then [|s.requests|] else []
    ensures Taken(s.matches, Sent(s, r).requests, app) == Taken(s.matches, s.requests, app)
  {
    hide RequestOpcode, ResponseOpcode, WriteRequest, ReadResponse;
    var t, id := Sent(s, r), |s.requests|;
    assert forall i :: 0 <= i < |s.toServer| ==> RequestKnown(s, s.toServer[i]);
    assert forall i :: 0 <= i < |s.toClient| ==> ResponseKnown(s, s.toClient[i]);
    UnderwayKept(s.toServer, s.requests, r, app);
    UnderwayKept(s.toClient, s.requests, r, app);
    UnderwayAppends(s.toServer, t.toServer[|s.toServer|], t.requests, app);
    TakenKept(s.matches, s.requests, r, app);
    hide Known, Underway, Taken;
    assert t.requests[id] == r;
  }

  lemma MadeMore(requests: seq<Request>, r: Request, app: Bytes)
    ensures Made(requests + [r], app) == Made(requests, app) + if r.app == app then [|requests|] else []
  {
    assert (requests + [r])[..|requests|] == requests;
  }

  lemma IdsMore(q: seq<Registration>, c: Registration)
    ensures Ids(q + [c]) == Ids(q) + [c.id]
    ensures q != [] ==> Ids(q[1..]) == Ids(q)[1..]
  {
  }

  lemma SentInStep(s: State, r: Request, app: Bytes)
    requires Known(s) && InStep(s, app) && |s.requests| !in s.lost
    ensures InStep(Sent(s, r), app)
  {
    SentOutstanding(s, r, app);
    hide Known, Outstanding, Taken, Kept, RequestOpcode, ResponseOpcode, WriteRequest, Aligned, Made, Ids;
    var id, made := |s.requests|, Made(s.requests, app);
    MadeMore(s.requests, r, app);
    if r.app == app {
      KeptAppends(made, id, s.lost);
      IdsMore(QueueOf(s.queues, app), Registration(ResponseOpcode(r), id));
      AlignedMore(Ids(QueueOf(s.queues, app)), Outstanding(s, app), made, Kept(made, s.lost), Taken(s.matches, s.requests, app), id);
    } else {
      assert made + [] == made && Outstanding(s, app) + [] == Outstanding(s, app);
    }
  }

  /** One request under way is lost. */
  lemma LostInStep(queue: seq<nat>, under: seq<nat>, made: seq<nat>, lost: set<nat>, k: nat, a: seq<nat>, id: nat, b: seq<nat>)
    requires Aligned(queue, under, made, Kept(made, lost), k) && Ascends(made) && under == a + [id] + b
    ensures Aligned(queue, a + b, made, Kept(made, lost + {id}), k)
  {
    hide Kept;
    var kept := Kept(made, lost);
    assert kept == kept[..k] + a + [id] + b;
    KeptLoses(made, lost, kept[..k] + a, id, b);
    assert (kept[..k] + a + b)[k..] == a + b;
  }

  lemma OthersKept(requests: seq<Request>, lost: set<nat>, app: Bytes, id: nat)
    requires !Number(requests, app, id)
    ensures Kept(Made(requests, app), lost + {id}) == Kept(Made(requests, app), lost)
  {
    MadeAscends(requests, app);
    KeptIgnores(Made(requests, app), lost, id);
  }

  /** A request that will never be answered, at the head of what is under way to the server
      or to the client. */
  lemma LossInStep(s: State, t: State, app: Bytes, id: nat, a: seq<nat>, b: seq<nat>)
    requires InStep(s, app) && id < |s.requests|
    requires t.requests == s.requests && t.queues == s.queues && t.matches == s.matches && t.lost == s.lost + {id}
    requires Outstanding(s, app) == a + (if s.requests[id].app == app then [id] else []) + b
    requires Outstanding(t, app) == a + b
    ensures InStep(t, app)
  {
    var made := Made(s.requests, app);
    hide Outstanding, Taken, Kept, Aligned, Made;
    MadeAscends(s.requests, app);
    if s.requests[id].app == app {
      LostInStep(Ids(QueueOf(s.queues, app)), Outstanding(s, app), made, s.lost, Taken(s.matches, s.requests, app), a, id, b);
    } else {
      OthersKept(s.requests, s.lost, app, id);
      assert a + [] + b == a + b;
    }
  }

  lemma ServedInStep(s: State, answer: Option<Answer>, app: Bytes)
    requires Known(s) && InStep(s, app) && s.toServer != []
    ensures InStep(Served(s, answer), app)
  {
    hide RequestOpcode, ResponseOpcode, WriteRequest, ReadResponse, ReadRequest, WriteResponse;
    var t, p := Served(s, answer), s.toServer[0];
    assert RequestKnown(s, p);
    hide Known, Kept, Taken, Aligned, Made;
    var a, n, b := Underway(s.toClient, s.requests, app), NumberIn(p, s.requests, app), Underway(t.toServer, s.requests, app);
    assert Outstanding(s, app) == a + n + b;
    if t.toClient == s.toClient {
      LossInStep(s, t, app, p.id, a, b);
    } else {
      UnderwayAppends(s.toClient, t.toClient[|s.toClient|], s.requests, app);
      assert Outstanding(t, app) == Outstanding(s, app);
    }
  }

  lemma AlignedLess(queue: seq<nat>, under: seq<nat>, made: seq<nat>, kept: seq<nat>, k: nat)
    requires Aligned(queue, under, made, kept, k) && under != []
    ensures queue != [] && Aligned(queue[1..], under[1..], made, kept, k + 1)
    ensures k < |kept| && queue[0] == made[k] && under[0] == kept[k]
  {
  }

  lemma TakenMore(matches: seq<Match>, m: Match, requests: seq<Request>, app: Bytes)
    ensures Taken(matches + [m], requests, app) == Taken(matches, requests, app) + if Number(requests, app, m.answers) then 1 else 0
  {
    assert (matches + [m])[..|matches|] == matches;
  }

  lemma OutstandingHead(s: State, app: Bytes)
    requires s.toClient != []
    ensures Outstanding(s, app) == NumberIn(s.toClient[0], s.requests, app) + Outstanding(s.(toClient := s.toClient[1..]), app)
  {
  }

  lemma SameOutstanding(s: State, t: State, app: Bytes)
    requires s.toClient == t.toClient && s.toServer == t.toServer && s.requests == t.requests
    ensures Outstanding(s, app) == Outstanding(t, app)
  {
  }

  lemma InStepParts(s: State, app: Bytes)
    requires AllInStep(s)
    ensures InStep(s, app)
  {
  }

  lemma HeadKnown(s: State)
    requires Known(s) && s.toClient != []
    ensures ResponseKnown(s, s.toClient[0])
  {
  }

  lemma ReadInStep(s: State, app: Bytes)
    requires Known(s) && AllInStep(s) && s.toClient != [] && ReadResponse(s.toClient[0].payload).Some?
    ensures InStep(Received(s), app)
  {
    hide ReadResponse, Known, Kept, Aligned, Made, Taken, AllInStep, Ids, Outstanding, Underway, ResponseOpcode;
    var p, q, t := s.toClient[0], QueueOf(s.queues, app), Received(s);
    CallbackFound(s);
    HeadKnown(s);
    InStepParts(s, app);
    OutstandingHead(s, app);
    SameOutstanding(s.(toClient := s.toClient[1..]), t, app);
    var from := s.requests[p.id].app;
    var c := QueueOf(s.queues, from)[0];
    TakenMore(s.matches, Match(c, p.id, p.opcode), s.requests, app);
    if from == app {
      AlignedLess(Ids(q), Outstanding(s, app), Made(s.requests, app), Kept(Made(s.requests, app), s.lost), Taken(s.matches, s.requests, app));
      IdsMore(q, c);
      assert Outstanding(t, app) == Outstanding(s, app)[1..];
    } else {
      assert Outstanding(t, app) == Outstanding(s, app);
    }
  }

  /** A response that can be read always finds a callback. */
  lemma ReceivedInStep(s: State, app: Bytes)
    requires Known(s) && AllInStep(s) && s.toClient != []
    ensures InStep(Received(s), app)
  {
    hide ReadResponse, Known, AllInStep, InStep, Outstanding, Underway, ResponseOpcode;
    var p := s.toClient[0];
    if ReadResponse(p.payload).Some? {
      ReadInStep(s, app);
    } else {
      var t := Received(s);
      HeadKnown(s);
      InStepParts(s, app);
      OutstandingHead(s, app);
      SameOutstanding(s.(toClient := s.toClient[1..]), t, app);
      var n := NumberIn(p, s.requests, app);
      assert Outstanding(s, app) == [] + n + Outstanding(t, app) && Outstanding(t, app) == [] + Outstanding(t, app);
      LossInStep(s, t, app, p.id, [], Outstanding(t, app));
    }
  }

  /** The callback a readable response gets is the next in order, and its own the next that
      was not lost. */
  lemma CallbackFound(s: State)
    requires Known(s) && AllInStep(s) && s.toClient != [] && ReadResponse(s.toClient[0].payload).Some?
    ensures var app := s.requests[s.toClient[0].id].app;
            var made, k := Made(s.requests, app), Taken(s.matches, s.requests, app);
            && ReadResponse(s.toClient[0].payload).value.app == app
            && QueueOf(s.queues, app) != [] && k < |Kept(made, s.lost)| <= |made|
            && QueueOf(s.queues, app)[0].id == made[k] && s.toClient[0].id == Kept(made, s.lost)[k]
  {
    hide RequestOpcode, ResponseOpcode, WriteRequest, ReadResponse;
    var p := s.toClient[0];
    assert ResponseKnown(s, p);
    var app := s.requests[p.id].app;
    assert InStep(s, app);
    hide Known, Kept, Made, Taken;
    assert Outstanding(s, app)[0] == p.id;
    AlignedLess(Ids(QueueOf(s.queues, app)), Outstanding(s, app), Made(s.requests, app), Kept(Made(s.requests, app), s.lost), Taken(s.matches, s.requests, app));
  }

  // Whole runs

  lemma {:induction false} KeptAllIff(ids: seq<nat>, lost: set<nat>)
    ensures |Kept(ids, lost)| <= |ids|
    ensures |Kept(ids, lost)| == |ids| <==> forall x :: x in ids ==> x !in lost
    ensures (forall x :: x in ids ==> x !in lost) ==> Kept(ids, lost) == ids
  {
    if ids != [] {
      var n := |ids| - 1;
      KeptAllIff(ids[..n], lost);
      assert ids == ids[..n] + [ids[n]];
    }
  }

  ghost predicate NoneLostBelow(ids: seq<nat>, lost: set<nat>, y: nat) {
    forall x :: x in ids && x < y ==> x !in lost
  }

  lemma AscendingFront(front: seq<nat>, y: nat)
    requires Ascends(front + [y])
    ensures Ascends(front) && forall x :: x in front ==> x < y
  {
    var ids := front + [y];
    assert ids[|front|] == y && forall i :: 0 <= i < |front| ==> ids[i] == front[i];
  }

  lemma NoneLostBelowFront(front: seq<nat>, y: nat, lost: set<nat>, z: nat)
    requires z <= y
    ensures NoneLostBelow(front + [y], lost, z) <==> NoneLostBelow(front, lost, z)
  {
    var ids := front + [y];
    assert forall x :: x in ids <==> x in front || x == y;
  }

  lemma KeptLastIff(front: seq<nat>, y: nat, lost: set<nat>)
    requires Ascends(front + [y]) && |Kept(front, lost)| <= |front|
    ensures y == (front + [y])[|Kept(front, lost)|] <==> NoneLostBelow(front, lost, y)
  {
    AscendingFront(front, y);
    KeptAllIff(front, lost);
    var k := |Kept(front, lost)|;
    if k < |front| {
      assert (front + [y])[k] == front[k] && front[k] in front;
    }
  }

  lemma KeptBelowLast(front: seq<nat>, y: nat, lost: set<nat>, k: nat)
    requires Ascends(front + [y]) && k < |Kept(front, lost)|
    ensures Ascends(front) && Kept(front, lost)[k] < y && |Kept(front, lost)| <= |front|
  {
    AscendingFront(front, y);
    KeptIsPart(front, lost);
    assert Kept(front, lost)[k] in front;
  }

  /** The next request not lost is simply the next exactly when none before it was lost. */
  lemma {:induction false} KeptAtIff(ids: seq<nat>, lost: set<nat>, k: nat)
    requires Ascends(ids) && k < |Kept(ids, lost)| <= |ids|
    ensures Kept(ids, lost)[k] == ids[k] <==> NoneLostBelow(ids, lost, Kept(ids, lost)[k])
    decreases |ids|
  {
    var n := |ids| - 1;
    var front, y := ids[..n], ids[n];
    var before := Kept(front, lost);
    assert ids == front + [y];
    hide Kept, Ascends, NoneLostBelow;
    KeptAppends(front, y, lost);
    if k < |before| {
      KeptBelowLast(front, y, lost, k);
      KeptAtIff(front, lost, k);
      NoneLostBelowFront(front, y, lost, before[k]);
    } else {
      KeptAllIff(front, lost);
      KeptLastIff(front, y, lost);
      NoneLostBelowFront(front, y, lost, y);
    }
  }

  ghost predicate Inv(s: State) {
    Known(s) && AllInStep(s) && forall id :: id in s.lost ==> id < |s.requests|
  }

  lemma IdleInv()
    ensures Inv(IDLE)
  {
    forall app ensures InStep(IDLE, app) {
    }
  }

  lemma StepKeepsInv(s: State, e: Event, s': State)
    requires Inv(s) && Step(s, e, s')
    ensures Inv(s')
  {
    hide Known, InStep, RequestOpcode, ResponseOpcode, WriteRequest, ReadRequest, ReadResponse, WriteResponse, NulFree;
    match e {
      case Send(r) =>
        SentKnown(s, r);
        forall app ensures InStep(s', app) {
          SentInStep(s, r, app);
        }
      case Serve(answer) =>
        ServedKnown(s, answer);
        ServerHeadKnown(s);
        forall app ensures InStep(s', app) {
          ServedInStep(s, answer, app);
        }
      case Receive =>
        ReceivedKnown(s);
        HeadKnown(s);
        forall app ensures InStep(s', app) {
          ReceivedInStep(s, app);
        }
    }
  }

  lemma ServerHeadKnown(s: State)
    requires Known(s) && s.toServer != []
    ensures RequestKnown(s, s.toServer[0])
  {
  }

  lemma {:induction false} EveryRunKeepsInv(states: seq<State>, events: seq<Event>, n: nat)
    requires Run(states, events) && n <= |events|
    ensures Inv(states[n])
    decreases n
  {
    hide Inv, Step;
    if n == 0 {
      IdleInv();
    } else {
      EveryRunKeepsInv(states, events, n - 1);
      StepKeepsInv(states[n - 1], events[n - 1], states[n]);
    }
  }

  /** The callback a readable response takes is of its application, and is the one of the
      request answered if and only if no earlier request of the application went unanswered.
      Then the opcode is the one expected. */
  ghost predicate Taking(s: State, m: Match)
    requires s.toClient != []
  {
    && m.answers == s.toClient[0].id < |s.requests| && m.callback.id < |s.requests|
    && s.requests[m.callback.id].app == s.requests[m.answers].app
    && (m.callback.id == m.answers <==> forall x :: x in s.lost && Number(s.requests, s.requests[m.answers].app, x) ==> x >= m.answers)
    && (m.callback.id == m.answers ==> m.opcode == m.callback.expected)
  }

  lemma CallbackTaken(s: State)
    requires Inv(s) && s.toClient != [] && ReadResponse(s.toClient[0].payload).Some?
    ensures var app := s.requests[s.toClient[0].id].app;
            && ReadResponse(s.toClient[0].payload).value.app == app && QueueOf(s.queues, app) != []
            && Taking(s, Match(QueueOf(s.queues, app)[0], s.toClient[0].id, s.toClient[0].opcode))
  {
    hide ReadResponse, ResponseOpcode;
    CallbackFound(s);
    HeadKnown(s);
    var p := s.toClient[0];
    var app := s.requests[p.id].app;
    var made, k := Made(s.requests, app), Taken(s.matches, s.requests, app);
    MadeAscends(s.requests, app);
    assert made[k] in made;
    assert Number(s.requests, app, made[k]);
    KeptAtIff(made, s.lost, k);
    forall x | x in s.lost && Number(s.requests, app, x)
      ensures x in made
    {
      MadeHas(s.requests, app, x);
    }
    assert CallbackKnown(s, s.queues[app][0]);
  }

  /** In any run, a response that can be read takes a callback, and takes its own if and only
      if no earlier request of its application went unanswered. */
  lemma CallbackIsOwnIff(states: seq<State>, events: seq<Event>, n: nat)
    requires Run(states, events) && n < |events| && events[n].Receive?
    requires states[n].toClient != [] && ReadResponse(states[n].toClient[0].payload).Some?
    ensures var s := states[n];
            |states[n + 1].matches| == |s.matches| + 1 && Taking(s, states[n + 1].matches[|s.matches|])
  {
    hide ReadResponse, Inv, Taking;
    EveryRunKeepsInv(states, events, n);
    CallbackTaken(states[n]);
    assert Step(states[n], events[n], states[n + 1]);
  }

  /** While no request has gone unanswered, each application's callbacks are those of its
      responses under way and then of its requests under way, in order. */
  lemma CallbacksMatchWhatIsUnderway(states: seq<State>, events: seq<Event>, n: nat, app: Bytes)
    requires Run(states, events) && n <= |events| && states[n].lost == {}
    ensures Ids(QueueOf(states[n].queues, app)) == Outstanding(states[n], app)
  {
    EveryRunKeepsInv(states, events, n);
    var s := states[n];
    assert InStep(s, app);
    hide Known;
    KeptAllIff(Made(s.requests, app), s.lost);
  }

  /** The callback was that of the request answered, and got the opcode it expected. */
  predicate Right(m: Match) {
    m.callback.id == m.answers && m.opcode == m.callback.expected
  }

  lemma MatchesGrow(s: State, e: Event, s': State)
    requires Inv(s) && Step(s, e, s')
    ensures s.lost <= s'.lost
    ensures s'.matches == s.matches || (e.Receive? && ReadResponse(s.toClient[0].payload).Some? && |s'.matches| == |s.matches| + 1 && s.matches <= s'.matches)
  {
    hide Inv, ReadResponse, ReadRequest, RequestOpcode, ResponseOpcode, WriteRequest, WriteResponse, NulFree;
  }

  /** Until a request goes unanswered, every callback gets the answer to its own request and
      the opcode check never fails. */
  lemma {:induction false} EveryMatchIsRight(states: seq<State>, events: seq<Event>, n: nat)
    requires Run(states, events) && n <= |events| && states[n].lost == {}
    ensures forall i :: 0 <= i < |states[n].matches| ==> Right(states[n].matches[i])
    decreases n
  {
    hide Inv, Step, ReadResponse;
    if n > 0 {
      EveryRunKeepsInv(states, events, n - 1);
      MatchesGrow(states[n - 1], events[n - 1], states[n]);
      EveryMatchIsRight(states, events, n - 1);
      if states[n].matches != states[n - 1].matches {
        assert states[n - 1].toClient != [] by {
          ReceivesSomething(states[n - 1], states[n]);
        }
        CallbackIsOwnIff(states, events, n - 1);
      }
    }
  }

  lemma ReceivesSomething(s: State, s': State)
    requires Step(s, Receive, s')
    ensures s.toClient != []
  {
  }

  /** A run in which one request goes unanswered, its store being unknown to the server, and
      its callback gets the answer to the next request of the application. */
  lemma UnansweredRequestMisleads(r0: Request, r1: Request, a: Answer) returns (states: seq<State>, events: seq<Event>)
    requires r0.app == r1.app && NulFree(r0.app) && NulFree(r0.store) && NulFree(r1.store) && SendableRequest(r1) && Sendable(a)
    ensures Run(states, events) && events == [Send(r0), Send(r1), Serve(None), Serve(Some(a)), Receive]
    ensures |states[5].matches| == 1 && states[5].matches[0].callback.id == 0 && states[5].matches[0].answers == 1
  {
    hide NulFree, SendableRequest, Sendable, ReadRequest, ReadResponse, WriteRequest, WriteResponse, RequestOpcode, ResponseOpcode;
    RequestRoundTripIff(r1);
    ResponseRoundTripIff(Response(r1.app, r1.store, a));
    var s1 := Sent(IDLE, r0);
    var s2 := Sent(s1, r1);
    var s3 := Served(s2, None);
    var s4 := Served(s3, Some(a));
    var s5 := Received(s4);
    states, events := [IDLE, s1, s2, s3, s4, s5], [Send(r0), Send(r1), Serve(None), Serve(Some(a)), Receive];
    assert s2.queues[r1.app] == [Registration(ResponseOpcode(r0), 0), Registration(ResponseOpcode(r1), 1)];
    assert s3.toServer == [Packet(RequestOpcode(r1), WriteRequest(r1), 1)] && s3.queues == s2.queues;
    assert s4.toClient == [Packet(ResponseOpcode(r1), WriteResponse(Response(r1.app, r1.store, a)), 1)];
    assert s5.matches == [Match(Registration(ResponseOpcode(r0), 0), 1, ResponseOpcode(r1))];
  }

  /** Every request can be read by the server, and every answer by the client. */
  ghost predicate Readable(e: Event) {
    match e
    case Send(r) => SendableRequest(r)
    case Serve(answer) => answer.Some? && Sendable(answer.value)
    case Receive => true
  }

  ghost predicate AllReadable(s: State) {
    && (forall i :: 0 <= i < |s.requests| ==> SendableRequest(s.requests[i]))
    && (forall i :: 0 <= i < |s.toClient| ==> ReadResponse(s.toClient[i].payload).Some?)
  }

  lemma NothingLostInStep(s: State, e: Event, s': State)
    requires Inv(s) && AllReadable(s) && Step(s, e, s') && Readable(e)
    ensures AllReadable(s') && s'.lost == s.lost
  {
    hide ReadResponse, ReadRequest, RequestOpcode, ResponseOpcode, WriteRequest, WriteResponse, SendableRequest, Sendable;
    if e.Serve? {
      var p := s.toServer[0];
      ServerHeadKnown(s);
      var r := s.requests[p.id];
      RequestRoundTripIff(r);
      ResponseRoundTripIff(Response(r.app, r.store, e.answer.value));
    }
  }

  /** If every request can be read and its store is one the server has, and every answer can
      be read, then nothing goes unanswered. */
  lemma {:induction false} NothingIsLost(states: seq<State>, events: seq<Event>, n: nat)
    requires Run(states, events) && n <= |events|
    requires forall i :: 0 <= i < |events| ==> Readable(events[i])
    ensures AllReadable(states[n]) && states[n].lost == {}
    decreases n
  {
    hide Inv, Step, AllReadable, Readable;
    if n == 0 {
      IdleReadable();
    } else {
      NothingIsLost(states, events, n - 1);
      EveryRunKeepsInv(states, events, n - 1);
      NothingLostInStep(states[n - 1], events[n - 1], states[n]);
    }
  }

  lemma IdleReadable()
    ensures AllReadable(IDLE)
  {
  }

  // The client

  /** The data client, which has the callback queues of a state of the connection. */
  class DataClient {
    var queues: Queues
    var called: seq<Match>

    constructor ()
      ensures queues == IDLE.queues && called == []
    {
      queues, called := map[], [];
    }

    /** Sends the request, numbered as the next, and registers its callback. */
    method Send(r: Request, ghost s: State, id: nat) returns (sent: Packet)
      requires queues == s.queues && id == |s.requests|
      modifies this`queues
      ensures queues == Sent(s, r).queues && s.toServer + [sent] == Sent(s, r).toServer
    {
      sent := Packet(RequestOpcode(r), WriteRequest(r), id);
      queues := queues[r.app := QueueOf(queues, r.app) + [Registration(ResponseOpcode(r), id)]];
    }

    /** Takes the first callback of the application named, and calls it if it expected a
        response with this opcode. While nothing has gone unanswered, that is always so, and
        the callback is that of the request answered. */
    method Receive(p: Packet, ghost s: State)
      requires Inv(s) && queues == s.queues && s.toClient != [] && p == s.toClient[0]
      modifies this`queues, this`called
      ensures queues == Received(s).queues && old(called) <= called
      ensures forall m :: m in called[|old(called)|..] ==> Taking(s, m) && m.opcode == m.callback.expected
      ensures s.lost == {} && ReadResponse(p.payload).Some? ==> |called| == |old(called)| + 1 && Right(called[|old(called)|])
    {
      hide ReadResponse, Inv, Known, AllInStep, InStep;
      var r := ReadResponse(p.payload);
      if r.None? {
        return;
      }
      CallbackTaken(s);
      var q := QueueOf(queues, r.value.app);
      if q != [] {
        queues := queues[r.value.app := q[1..]];
        if p.opcode == q[0].expected {
          called := called + [Match(q[0], p.id, p.opcode)];
        }
      }
    }
  }
}
