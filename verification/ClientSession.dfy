/**
 The GLib client's side of a session: bytes from the server gather in a fixed buffer, and
 messages are delivered from its front, one at a time or as many as there are. Lengths are
 read as signed, so the streams considered are those whose lengths stay below 32768.
 */
module ClientSessions {
  import opened Keys
  import opened Framing

  const SESSION_DISCONNECTED: byte := 0x30
  const SESSION_MESSAGE: byte := 0x31
  const MAX_BUFFER_SIZE: nat := 65538
  const CHUNK_SIZE: nat := 512

  datatype Delivery = Message(payload: Bytes) | Disconnected

  datatype Session = Session(pending: Bytes, connected: bool, acknowledged: bool, delivered: seq<Delivery>)

  /** The length prefix read as a signed short. */
  function SignedLength(b: Bytes): (n: int)
    requires |b| >= 2
    ensures -0x8000 <= n < 0x8000
  {
    if Length(b) < 0x8000 then Length(b) else Length(b) - 0x1_0000
  }

  /** The buffer seems to begin with a whole message. */
  predicate Ready(b: Bytes) {
    |b| >= 3 && |b| >= SignedLength(b) + 3
  }

  /** No message that comes to the front of the buffer has a negative length. */
  predicate Orderly(b: Bytes) {
    Ready(b) ==> SignedLength(b) >= 0 && Orderly(b[SignedLength(b) + 3..])
  }

  function Acknowledged(s: Session): Session {
    Session(s.pending, false, true, if s.acknowledged then s.delivered else s.delivered + [Disconnected])
  }

  /** The message at the front is delivered, or dropped if its opcode means nothing. */
  function Delivered(s: Session): (s': Session)
    requires Ready(s.pending) && SignedLength(s.pending) >= 0
    ensures |s'.pending| < |s.pending|
  {
    var n := SignedLength(s.pending);
    var t := if s.pending[2] == SESSION_MESSAGE then s.(delivered := s.delivered + [Message(s.pending[3..n + 3])])
             else if s.pending[2] == SESSION_DISCONNECTED then Acknowledged(s)
             else s;
    t.(pending := s.pending[n + 3..])
  }

  /** Up to `limit` messages are delivered, or all of them if it is zero; returns the session
      and how many messages were taken. */
  function Attempt(s: Session, limited: bool, limit: nat): (r: (Session, nat))
    requires Orderly(s.pending)
    ensures Orderly(r.0.pending) && |r.0.pending| <= |s.pending| && (r.1 > 0 ==> |r.0.pending| < |s.pending|)
    decreases |s.pending|
  {
    if limited && limit == 0 then (s, 0)
    else if !s.connected then (Acknowledged(s), 0)
    else if !Ready(s.pending) then (s, 0)
    else
      var (t, n) := Attempt(Delivered(s), limited, if limited then limit - 1 else limit);
      (t, n + 1)
  }

  function All(s: Session): (Session, nat)
    requires Orderly(s.pending)
  {
    Attempt(s, false, 0)
  }

  /** One message at a time until a call takes none. */
  function OneByOne(s: Session): (Session, nat)
    requires Orderly(s.pending)
    decreases |s.pending|
  {
    var (t, n) := Attempt(s, true, 1);
    if n == 0 then (t, 0)
    else
      var (u, m) := OneByOne(t);
      (u, m + n)
  }

  /** Taking messages one by one delivers what taking all at once does. */
  lemma {:induction false} OneByOneIsAll(s: Session)
    requires Orderly(s.pending)
    ensures OneByOne(s) == All(s)
    decreases |s.pending|
  {
    if s.connected && Ready(s.pending) {
      assert Attempt(s, true, 1) == (Delivered(s), 1);
      OneByOneIsAll(Delivered(s));
    }
  }

  function Fed(s: Session, chunk: Bytes): Session {
    s.(pending := s.pending + chunk)
  }

  lemma ReadyStays(a: Bytes, b: Bytes)
    requires Ready(a)
    ensures Ready(a + b) && SignedLength(a + b) == SignedLength(a)
    ensures SignedLength(a) >= 0 ==> (a + b)[SignedLength(a) + 3..] == a[SignedLength(a) + 3..] + b
    ensures SignedLength(a) >= 0 ==> (a + b)[3..SignedLength(a) + 3] == a[3..SignedLength(a) + 3] && (a + b)[2] == a[2]
  {
  }

  /** What is left when everything has been taken stays orderly when more arrives. */
  lemma {:induction false} OrderlyParts(s: Session, b: Bytes)
    requires Orderly(s.pending + b)
    ensures Orderly(s.pending) && Orderly(All(s).0.pending + b)
    decreases |s.pending|
  {
    if Ready(s.pending) {
      ReadyStays(s.pending, b);
      OrderlyParts(Delivered(s), b);
    }
  }

  lemma OrderlyUnfolds(b: Bytes)
    requires Orderly(b) && Ready(b)
    ensures SignedLength(b) >= 0 && Orderly(b[SignedLength(b) + 3..])
  {
  }

  lemma AllUnfolds(s: Session)
    requires Orderly(s.pending) && s.connected && Ready(s.pending)
    ensures SignedLength(s.pending) >= 0 && Orderly(Delivered(s).pending)
    ensures All(s) == (All(Delivered(s)).0, All(Delivered(s)).1 + 1)
  {
  }

  lemma AttemptUnfolds(s: Session, limited: bool, limit: nat)
    requires Orderly(s.pending) && (limited ==> limit > 0) && s.connected && Ready(s.pending)
    ensures SignedLength(s.pending) >= 0 && Orderly(Delivered(s).pending)
    ensures var r := Attempt(Delivered(s), limited, if limited then limit - 1 else limit);
            Attempt(s, limited, limit) == (r.0, r.1 + 1)
  {
  }

  lemma AttemptStops(s: Session, limited: bool, limit: nat)
    requires Orderly(s.pending) && (limited ==> limit > 0) && !(s.connected && Ready(s.pending))
    ensures Attempt(s, limited, limit) == (if s.connected then s else Acknowledged(s), 0)
  {
  }

  /** The whole attempt is what was done so far and the attempt on the rest. */
  ghost predicate Ahead(all: (Session, nat), dispatched: nat, s: Session, limited: bool, limit: nat)
    requires Orderly(s.pending)
  {
    var r := Attempt(s, limited, limit);
    all == (r.0, dispatched + r.1)
  }

  lemma AheadOfAll(s: Session, limited: bool, limit: nat)
    requires Orderly(s.pending)
    ensures Ahead(Attempt(s, limited, limit), 0, s, limited, limit)
  {
  }

  lemma AheadStep(all: (Session, nat), dispatched: nat, s: Session, limited: bool, limit: nat)
    requires Orderly(s.pending) && (limited ==> limit > 0) && s.connected && Ready(s.pending)
    requires Ahead(all, dispatched, s, limited, limit)
    ensures SignedLength(s.pending) >= 0 && Orderly(Delivered(s).pending)
    ensures Ahead(all, dispatched + 1, Delivered(s), limited, if limited then limit - 1 else limit)
  {
    AttemptUnfolds(s, limited, limit);
  }

  lemma AheadEnds(all: (Session, nat), dispatched: nat, s: Session, limited: bool, limit: nat)
    requires Orderly(s.pending) && Ahead(all, dispatched, s, limited, limit)
    requires (limited && limit == 0) || !(s.connected && Ready(s.pending))
    ensures all == (if (limited && limit == 0) || s.connected then s else Acknowledged(s), dispatched)
  {
    if limited && limit == 0 {
      AttemptAtLimit(s);
    } else {
      AttemptStops(s, limited, limit);
    }
  }

  lemma AttemptAtLimit(s: Session)
    requires Orderly(s.pending)
    ensures Attempt(s, true, 0) == (s, 0)
  {
  }

  lemma AllStops(s: Session)
    requires Orderly(s.pending) && !(s.connected && Ready(s.pending))
    ensures All(s) == (if s.connected then s else Acknowledged(s), 0)
  {
  }

  /** Reading and dispatching in pieces is the same as reading all and dispatching once. */
  lemma {:induction false} PiecesDoNotMatter(s: Session, b: Bytes)
    requires Orderly(s.pending + b)
    ensures Orderly(s.pending) && Orderly(All(s).0.pending + b)
    ensures All(Fed(All(s).0, b)).0 == All(Fed(s, b)).0
    ensures All(s).1 + All(Fed(All(s).0, b)).1 == All(Fed(s, b)).1
    decreases |s.pending|
  {
    hide All, Attempt, Orderly;
    OrderlyParts(s, b);
    if s.connected && Ready(s.pending) {
      OrderlyUnfolds(s.pending);
      ReadyStays(s.pending, b);
      AllUnfolds(s);
      AllUnfolds(Fed(s, b));
      assert Fed(Delivered(s), b) == Delivered(Fed(s, b));
      PiecesDoNotMatter(Delivered(s), b);
    } else {
      AllStops(s);
      if !s.connected {
        AllStops(Fed(Acknowledged(s), b));
        AllStops(Fed(s, b));
      }
    }
  }

  lemma PieceByPiece(s: Session, before: Bytes, t: Session, b: Bytes)
    requires Orderly(s.pending + (before + b)) && ((t == s && before == []) || (Orderly(s.pending + before) && t == All(Fed(s, before)).0))
    ensures Orderly(s.pending + before) && Orderly(t.pending + b) && All(Fed(t, b)).0 == All(Fed(s, before + b)).0
  {
    hide All, Orderly;
    assert s.pending + (before + b) == s.pending + before + b;
    PiecesDoNotMatter(Fed(s, before), b);
    assert Fed(Fed(s, before), b) == Fed(s, before + b);
    if t == s && before == [] {
      assert s.pending + before == s.pending && Fed(s, before) == s;
    }
  }

  /** The session after any number of pieces were read, all there was being dispatched after
      each: it is as if the whole had been read at once. */
  ghost function InPieces(s: Session, pieces: seq<Bytes>): (t: Session)
    requires Orderly(s.pending + Joined(pieces))
    ensures t == if pieces == [] then s else All(Fed(s, Joined(pieces))).0
    decreases |pieces|
  {
    if pieces == [] then s
    else
      var n := |pieces| - 1;
      var front := pieces[..n];
      assert s.pending + Joined(pieces) == s.pending + Joined(front) + pieces[n];
      OrderlyParts(Fed(s, Joined(front)), pieces[n]);
      var t := InPieces(s, front);
      PieceByPiece(s, Joined(front), t, pieces[n]);
      All(Fed(t, pieces[n])).0
  }

  /** What a run of messages means to the application: nothing after a disconnection. */
  function Meaning(fs: seq<Bytes>): seq<Delivery>
    requires forall i :: 0 <= i < |fs| ==> IsFrame(fs[i])
  {
    if fs == [] then []
    else
      assert IsFrame(fs[0]);
      var opcode := fs[0][2];
      if opcode == SESSION_DISCONNECTED then [Disconnected]
      else (if opcode == SESSION_MESSAGE then [Message(fs[0][3..])] else []) + Meaning(fs[1..])
  }

  lemma FrameReady(f: Bytes, rest: Bytes)
    requires IsFrame(f) && Length(f) < 0x8000
    ensures Ready(f + rest) && SignedLength(f + rest) == |f| - 3
    ensures (f + rest)[|f|..] == rest && (f + rest)[3..|f|] == f[3..] && (f + rest)[2] == f[2]
  {
    assert Length(f + rest) == Length(f);
  }

  lemma {:induction false} FramesAreOrderly(fs: seq<Bytes>)
    requires forall i :: 0 <= i < |fs| ==> IsFrame(fs[i]) && Length(fs[i]) < 0x8000
    ensures Orderly(Concat(fs))
  {
    if fs != [] {
      FrameReady(fs[0], Concat(fs[1..]));
      FramesAreOrderly(fs[1..]);
    }
  }

  /** A frame at the front is delivered, and leaves the session with what follows it. */
  lemma FrameDelivered(s: Session, f: Bytes, rest: Bytes)
    requires IsFrame(f) && Length(f) < 0x8000 && s.pending == f + rest && s.connected && !s.acknowledged
    ensures Ready(s.pending) && SignedLength(s.pending) >= 0
    ensures var t := Delivered(s);
            && t.pending == rest
            && (if f[2] == SESSION_DISCONNECTED then !t.connected && t.acknowledged else t.connected && !t.acknowledged)
            && t.delivered == s.delivered + if f[2] == SESSION_DISCONNECTED then [Disconnected] else MeaningOf(f)
  {
    FrameReady(f, rest);
  }

  /** What one frame means, if it is no disconnection. */
  function MeaningOf(f: Bytes): seq<Delivery>
    requires |f| >= 3
  {
    if f[2] == SESSION_MESSAGE then [Message(f[3..])] else []
  }

  lemma MeaningUnfolds(fs: seq<Bytes>)
    requires fs != [] && forall i :: 0 <= i < |fs| ==> IsFrame(fs[i])
    ensures IsFrame(fs[0]) && Meaning(fs) == if fs[0][2] == SESSION_DISCONNECTED then [Disconnected] else MeaningOf(fs[0]) + Meaning(fs[1..])
  {
  }

  lemma Regrouped(a: seq<Delivery>, b: seq<Delivery>, c: seq<Delivery>)
    ensures a + (b + c) == a + b + c && a + [] == a
  {
  }

  lemma SliceOfSlice(b: Bytes, from: nat, to: nat, len: nat)
    requires from + 3 + len <= to <= |b|
    ensures b[from..to][3..len + 3] == b[from + 3..from + 3 + len] && b[from..to][len + 3..] == b[from + 3 + len..to]
  {
    var s := b[from..to];
    assert forall i :: 0 <= i < |s| ==> s[i] == b[from + i];
    var x, y := s[3..len + 3], b[from + 3..from + 3 + len];
    assert forall i :: 0 <= i < len ==> x[i] == s[3 + i];
    assert forall i :: 0 <= i < len ==> y[i] == b[from + 3 + i];
    assert forall i :: 0 <= i < len ==> x[i] == y[i];
  }

  /** A connected session delivers exactly the messages it was sent, in order, up to the
      first disconnection. */
  lemma {:induction false} DeliversWhatWasSent(fs: seq<Bytes>, s: Session)
    requires forall i :: 0 <= i < |fs| ==> IsFrame(fs[i]) && Length(fs[i]) < 0x8000
    requires s.pending == Concat(fs) && s.connected && !s.acknowledged
    ensures Orderly(s.pending) && All(s).0.delivered == s.delivered + Meaning(fs)
    decreases |fs|
  {
    FramesAreOrderly(fs);
    if fs == [] {
      hide All, Attempt, Orderly, Ready;
      NothingReady(s);
      AllStops(s);
      Regrouped(s.delivered, [], []);
    } else {
      MeaningUnfolds(fs);
      hide All, Attempt, Orderly, Delivered, Ready, SignedLength, Length, IsFrame, Meaning, MeaningOf;
      FrameDelivered(s, fs[0], Concat(fs[1..]));
      AllUnfolds(s);
      var t := Delivered(s);
      if t.connected {
        DeliversWhatWasSent(fs[1..], t);
        Regrouped(s.delivered, MeaningOf(fs[0]), Meaning(fs[1..]));
      } else {
        AllStops(t);
      }
    }
  }

  lemma NothingReady(s: Session)
    requires s.pending == []
    ensures !Ready(s.pending)
  {
  }

  // The session

  class ClientSession {
    const buffer: array<byte>
    var bufferLength: nat
    var connected: bool
    var disconnectAcknowledged: bool

    /** What the application's callbacks have been given. */
    var delivered: seq<Delivery>

    ghost predicate Valid()
      reads this, buffer
    {
      buffer.Length == MAX_BUFFER_SIZE && bufferLength <= MAX_BUFFER_SIZE && Orderly(buffer[..bufferLength])
    }

    ghost function Rest(pending: Bytes): Session
      reads this
    {
      Session(pending, connected, disconnectAcknowledged, delivered)
    }

    ghost function View(): Session
      requires Valid()
      reads this, buffer
    {
      Rest(buffer[..bufferLength])
    }

    constructor ()
      ensures Valid() && fresh(buffer) && View() == Session([], true, false, [])
    {
      buffer := new byte[MAX_BUFFER_SIZE];
      bufferLength, connected, disconnectAcknowledged, delivered := 0, true, false, [];
    }

    method DispatchDisconnected()
      modifies this`connected, this`disconnectAcknowledged, this`delivered
      ensures !connected && disconnectAcknowledged
      ensures delivered == if old(disconnectAcknowledged) then old(delivered) else old(delivered) + [Disconnected]
    {
      connected := false;
      if !disconnectAcknowledged {
        disconnectAcknowledged := true;
        delivered := delivered + [Disconnected];
      }
    }

    /** Delivers one message. */
    method Dispatch(opcode: byte, payload: Bytes)
      modifies this`connected, this`disconnectAcknowledged, this`delivered
      ensures if opcode == SESSION_DISCONNECTED then !connected && disconnectAcknowledged else connected == old(connected) && disconnectAcknowledged == old(disconnectAcknowledged)
      ensures delivered == if opcode == SESSION_MESSAGE then old(delivered) + [Message(payload)]
                           else if opcode == SESSION_DISCONNECTED && !old(disconnectAcknowledged) then old(delivered) + [Disconnected]
                           else old(delivered)
    {
      if opcode == SESSION_MESSAGE {
        delivered := delivered + [Message(payload)];
      } else if opcode == SESSION_DISCONNECTED {
        DispatchDisconnected();
      }
    }

    /** Moves what is left to the front of the buffer. */
    method Compact(offset: nat)
      requires offset <= bufferLength <= buffer.Length
      modifies this`bufferLength, buffer
      ensures bufferLength == old(bufferLength) - offset && buffer[..bufferLength] == old(buffer[offset..bufferLength])
    {
      var n, i := bufferLength - offset, 0;
      while i < n
        modifies buffer
        invariant 0 <= i <= n && bufferLength == old(bufferLength)
        invariant forall k :: 0 <= k < i ==> buffer[k] == old(buffer[offset + k])
        invariant forall k :: i <= k < buffer.Length ==> buffer[k] == old(buffer[k])
      {
        buffer[i] := buffer[offset + i];
        i := i + 1;
      }
      bufferLength := n;
    }

    /** Takes one message from an offset of the buffer, if there is one there. */
    method TakeMessage(offset: nat) returns (taken: nat)
      requires offset <= bufferLength <= buffer.Length && Orderly(buffer[offset..bufferLength]) && connected
      modifies this`connected, this`disconnectAcknowledged, this`delivered
      ensures offset + taken <= bufferLength && (taken > 0 <==> Ready(buffer[offset..bufferLength]))
      ensures taken == 0 ==> Rest(buffer[offset..bufferLength]) == old(Rest(buffer[offset..bufferLength]))
      ensures taken > 0 ==> SignedLength(buffer[offset..bufferLength]) >= 0
      ensures taken > 0 ==> Rest(buffer[offset + taken..bufferLength]) == Delivered(old(Rest(buffer[offset..bufferLength])))
    {
      hide Orderly;
      ghost var rest := buffer[offset..bufferLength];
      taken := 0;
      if bufferLength - offset < 3 {
        return;
      }
      assert rest[0] == buffer[offset] && rest[1] == buffer[offset + 1];
      var len := buffer[offset] as int * 0x100 + buffer[offset + 1] as int;
      len := if len < 0x8000 then len else len - 0x1_0000;
      if bufferLength - offset < len + 3 {
        return;
      }
      OrderlyUnfolds(rest);
      assert rest == buffer[..][offset..bufferLength];
      SliceOfSlice(buffer[..], offset, bufferLength, len);
      Dispatch(buffer[offset + 2], buffer[offset + 3..offset + 3 + len]);
      taken := 3 + len;
    }

    /** Delivers messages from the front of the buffer, up to the limit if there is one. */
    method AttemptDispatch(limit: nat) returns (dispatched: nat)
      requires Valid()
      modifies this, buffer
      ensures Valid() && (View(), dispatched) == Attempt(old(View()), limit != 0, limit)
    {
      hide Orderly, Attempt, Ready, Delivered, Ahead;
      var remaining, offset := limit, 0;
      dispatched := 0;
      assert buffer[0..bufferLength] == buffer[..bufferLength];
      ghost var all, last := Attempt(View(), limit != 0, limit), View();
      AheadOfAll(View(), limit != 0, limit);
      while limit == 0 || remaining > 0
        modifies this`connected, this`disconnectAcknowledged, this`delivered
        invariant offset <= bufferLength && 0 <= remaining <= limit
        invariant last == Rest(buffer[offset..bufferLength]) && Orderly(last.pending)
        invariant Ahead(all, dispatched, last, limit != 0, remaining)
        decreases bufferLength - offset
      {
        if !connected {
          DispatchDisconnected();
          break;
        }
        var taken := TakeMessage(offset);
        if taken == 0 {
          break;
        }
        AheadStep(all, dispatched, last, limit != 0, remaining);
        last := Delivered(last);
        dispatched := dispatched + 1;
        offset := offset + taken;
        if limit != 0 {
          remaining := remaining - 1;
        }
      }
      AheadEnds(all, dispatched, last, limit != 0, remaining);
      if offset > 0 {
        Compact(offset);
      }
    }

    /** Calls for one message at a time until there is none: to the application this is the
        same as one call for all. */
    method DispatchSingly() returns (dispatched: nat)
      requires Valid()
      modifies this, buffer
      ensures Valid() && (View(), dispatched) == All(old(View()))
    {
      hide Orderly, Attempt, All;
      dispatched := 0;
      OneByOneIsAll(View());
      ghost var all := OneByOne(View());
      while true
        invariant Valid() && all == (OneByOne(View()).0, dispatched + OneByOne(View()).1)
        decreases bufferLength
      {
        var n := AttemptDispatch(1);
        if n == 0 {
          return;
        }
        dispatched := dispatched + n;
      }
    }

    /** Takes in what the socket gave, which is no more than was asked of it; nothing was
        asked of it, and the connection is taken to be lost, when the buffer is full. */
    method Read(received: Bytes) returns (ok: bool)
      requires Valid() && Orderly(View().pending + received)
      requires |received| <= CHUNK_SIZE && |received| <= MAX_BUFFER_SIZE - bufferLength
      modifies this`bufferLength, buffer
      ensures Valid() && ok == (received != []) && View() == Fed(old(View()), received)
    {
      hide Orderly;
      var i := 0;
      while i < |received|
        modifies buffer
        invariant 0 <= i <= |received| && bufferLength == old(bufferLength)
        invariant forall k :: 0 <= k < bufferLength ==> buffer[k] == old(buffer[k])
        invariant forall k :: 0 <= k < i ==> buffer[bufferLength + k] == received[k]
      {
        buffer[bufferLength + i] := received[i];
        i := i + 1;
      }
      bufferLength := bufferLength + |received|;
      assert buffer[..bufferLength] == old(buffer[..bufferLength]) + received;
      ok := received != [];
    }
  }
}
