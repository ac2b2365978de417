/**
 How the servers cut a stream of bytes into messages: a two-byte big-endian length, not
 counting the opcode byte that follows it, then the opcode and the payload. The dispatch
 loops are proved to find the same messages however the stream arrives in pieces.
 */
module Framing {
  import opened Keys
  import opened Wrappers

  function Length(b: Bytes): (n: int)
    requires |b| >= 2
    ensures 0 <= n < 0x1_0000
  {
    b[0] as int * 0x100 + b[1] as int
  }

  /** A whole message: prefix, opcode and as much payload as the prefix says. The longest
      length the loops can handle is one less than the prefix can express. */
  predicate IsFrame(f: Bytes) {
    |f| >= 3 && |f| == Length(f) + 3 && Length(f) < 0xffff
  }

  /** The `unsigned short` length with the opcode added, which wraps to zero. */
  function Counted(b: Bytes): (n: int)
    requires |b| >= 2
    ensures 0 <= n < 0x1_0000
  {
    (Length(b) + 1) % 0x1_0000
  }

  /** How many bytes the loop takes off the front as one message, if it takes any. */
  function Taken(b: Bytes): (n: nat)
    ensures n <= |b| && (n > 0 ==> n >= 2 && |b| >= 3)
  {
    if |b| < 3 || Counted(b) > |b| - 2 then 0 else Counted(b) + 2
  }

  /** The messages the loop takes off the front. */
  function Frames(b: Bytes): seq<Bytes> {
    if Taken(b) == 0 then [] else [b[..Taken(b)]] + Frames(b[Taken(b)..])
  }

  /** What it leaves. */
  function Leftover(b: Bytes): (r: Bytes)
    ensures |r| <= |b|
  {
    if Taken(b) == 0 then b else Leftover(b[Taken(b)..])
  }

  function Concat(fs: seq<Bytes>): Bytes {
    if fs == [] then [] else fs[0] + Concat(fs[1..])
  }

  lemma {:induction false} FramesAndLeftover(b: Bytes)
    ensures b == Concat(Frames(b)) + Leftover(b)
  {
    var n := Taken(b);
    if n > 0 {
      FramesAndLeftover(b[n..]);
      assert b == b[..n] + b[n..];
      assert b[..n] + (Concat(Frames(b[n..])) + Leftover(b[n..])) == b[..n] + Concat(Frames(b[n..])) + Leftover(b[n..]);
    }
  }

  lemma Unfold(b: Bytes)
    ensures Taken(b) == 0 ==> Frames(b) == [] && Leftover(b) == b
    ensures Taken(b) > 0 ==> Frames(b) == [b[..Taken(b)]] + Frames(b[Taken(b)..]) && Leftover(b) == Leftover(b[Taken(b)..])
  {
  }

  lemma TakenStays(a: Bytes, b: Bytes)
    requires Taken(a) > 0
    ensures Taken(a + b) == Taken(a)
  {
  }

  /** What has arrived so far is dispatched the same whether or not more follows, and the
      leftover is picked up where it was left: messages do not depend on the pieces. */
  lemma {:induction false} ChunksDoNotMatter(a: Bytes, b: Bytes)
    ensures Frames(a + b) == Frames(a) + Frames(Leftover(a) + b)
    ensures Leftover(a + b) == Leftover(Leftover(a) + b)
    decreases |a|
  {
    hide Frames, Leftover, Taken;
    var n := Taken(a);
    Unfold(a);
    if n > 0 {
      TakenStays(a, b);
      assert (a + b)[..n] == a[..n] && (a + b)[n..] == a[n..] + b;
      Unfold(a + b);
      ChunksDoNotMatter(a[n..], b);
      var l := Leftover(a[n..]) + b;
      assert [a[..n]] + (Frames(a[n..]) + Frames(l)) == [a[..n]] + Frames(a[n..]) + Frames(l);
    } else {
      assert Frames(a) + Frames(a + b) == Frames(a + b);
    }
  }

  lemma FrameTaken(f: Bytes, rest: Bytes)
    requires IsFrame(f)
    ensures Taken(f + rest) == |f|
  {
    assert (f + rest)[0] == f[0] && (f + rest)[1] == f[1];
  }

  lemma OneFrameFirst(f: Bytes, rest: Bytes)
    requires IsFrame(f)
    ensures Frames(f + rest) == [f] + Frames(rest) && Leftover(f + rest) == Leftover(rest)
  {
    FrameTaken(f, rest);
    assert (f + rest)[..|f|] == f && (f + rest)[|f|..] == rest;
  }

  /** Whole messages at the front are dispatched first, in order, each intact. */
  lemma {:induction false} WholeFramesComeFirst(fs: seq<Bytes>, rest: Bytes)
    requires forall i :: 0 <= i < |fs| ==> IsFrame(fs[i])
    ensures Frames(Concat(fs) + rest) == fs + Frames(rest)
    ensures Leftover(Concat(fs) + rest) == Leftover(rest)
  {
    hide IsFrame, Frames, Leftover;
    if fs == [] {
      assert Concat(fs) + rest == rest;
      assert fs + Frames(rest) == Frames(rest);
    } else {
      var tail := Concat(fs[1..]) + rest;
      assert Concat(fs) + rest == fs[0] + tail;
      OneFrameFirst(fs[0], tail);
      WholeFramesComeFirst(fs[1..], rest);
      assert [fs[0]] + (fs[1..] + Frames(rest)) == fs + Frames(rest);
    }
  }

  predicate Wraps(f: Bytes) {
    f == [0xff, 0xff]
  }

  /** Everything dispatched is a whole message, or the bare prefix of a length that wraps. */
  lemma {:induction false} DispatchedAreFrames(b: Bytes)
    ensures forall i :: 0 <= i < |Frames(b)| ==> IsFrame(Frames(b)[i]) || Wraps(Frames(b)[i])
  {
    var n := Taken(b);
    if n > 0 {
      DispatchedAreFrames(b[n..]);
      var f := b[..n];
      assert f[0] == b[0] && f[1] == b[1];
      if Length(b) == 0xffff {
        assert f == [b[0], b[1]];
      }
    }
  }

  /** No more messages could have been taken off the front: if no length wraps, every run of
      whole messages the buffer begins with is within what was dispatched. */
  lemma LongestRunOfFrames(b: Bytes, fs: seq<Bytes>)
    requires forall i :: 0 <= i < |fs| ==> IsFrame(fs[i])
    requires Concat(fs) <= b
    ensures fs <= Frames(b) && |Concat(fs)| <= |b| - |Leftover(b)|
  {
    var rest := b[|Concat(fs)|..];
    assert b == Concat(fs) + rest;
    WholeFramesComeFirst(fs, rest);
  }

  // Receiving

  /** The readiness test made before the loop is entered. */
  predicate CanDispatch(b: Bytes) {
    |b| >= 3 && |b| >= Length(b) + 3
  }

  /** The loop would take something the test is not ready for exactly when the length wraps
      and its payload is not all there. */
  lemma CanDispatchIff(b: Bytes)
    ensures CanDispatch(b) ==> Taken(b) > 0
    ensures Taken(b) > 0 && !CanDispatch(b) <==> 3 <= |b| < 0x1_0002 && b[..2] == [0xff, 0xff]
  {
    if |b| >= 2 {
      assert b[..2] == [b[0], b[1]];
    }
  }

  /** What the socket does with its buffer: it dispatches if the test says so. */
  function Drained(b: Bytes): (seq<Bytes>, Bytes) {
    if CanDispatch(b) then (Frames(b), Leftover(b)) else ([], b)
  }

  lemma {:induction false} NothingLeftToTake(b: Bytes)
    ensures Taken(Leftover(b)) == 0
  {
    if Taken(b) > 0 {
      NothingLeftToTake(b[Taken(b)..]);
    }
  }

  /** The stream cut into any pieces, dispatched as they come. */
  function Arriving(pieces: seq<Bytes>): (seq<Bytes>, Bytes) {
    if pieces == [] then ([], []) else
      var n := |pieces| - 1;
      var (before, left) := Arriving(pieces[..n]);
      var (fs, left') := Drained(left + pieces[n]);
      (before + fs, left')
  }

  function Joined(pieces: seq<Bytes>): Bytes {
    if pieces == [] then [] else Joined(pieces[..|pieces| - 1]) + pieces[|pieces| - 1]
  }

  ghost predicate NoneWraps(fs: seq<Bytes>) {
    forall i :: 0 <= i < |fs| ==> !Wraps(fs[i])
  }

  lemma DrainedIsAll(b: Bytes)
    requires NoneWraps(Frames(b))
    ensures Drained(b) == (Frames(b), Leftover(b))
  {
    CanDispatchIff(b);
    Unfold(b);
    if Taken(b) > 0 {
      assert Frames(b)[0] == b[..Taken(b)];
    }
  }

  /** Unless a length wraps, the pieces do not matter, however many there are: what has been
      dispatched and what is left is the same as for the stream as a whole. */
  lemma {:induction false} ArrivingIsWhole(pieces: seq<Bytes>)
    requires NoneWraps(Frames(Joined(pieces)))
    ensures Arriving(pieces) == (Frames(Joined(pieces)), Leftover(Joined(pieces)))
  {
    if pieces != [] {
      var n := |pieces| - 1;
      var a, b := Joined(pieces[..n]), pieces[n];
      ChunksDoNotMatter(a, b);
      hide Frames, Leftover, Taken, Drained;
      var fs, gs := Frames(a), Frames(Leftover(a) + b);
      assert forall i :: 0 <= i < |fs| ==> fs[i] == (fs + gs)[i];
      assert forall i :: 0 <= i < |gs| ==> gs[i] == (fs + gs)[|fs| + i];
      ArrivingIsWhole(pieces[..n]);
      DrainedIsAll(Leftover(a) + b);
    }
  }

  lemma OneOrTwoPieces(f: Bytes, g: Bytes)
    ensures Arriving([f]) == Drained(f) && Joined([f]) == f && Joined([f, g]) == f + g
    ensures Arriving([f, g]) == (Drained(f).0 + Drained(Drained(f).1 + g).0, Drained(Drained(f).1 + g).1)
  {
    hide Drained;
    assert [f, g][..1] == [f] && [f][..0] == [];
    assert [] + f == f && [] + Drained(f).0 == Drained(f).0;
  }

  lemma WrappedAlone(x: byte)
    ensures Drained([0xff, 0xff, x]) == ([], [0xff, 0xff, x]) && Frames([0xff, 0xff, x]) == [[0xff, 0xff]]
  {
    var g: Bytes := [0xff, 0xff, x];
    Unfold(g);
    Unfold([x]);
    assert Taken(g) == 2 && g[..2] == [0xff, 0xff] && g[2..] == [x];
  }

  /** When a length wraps they do matter: its prefix is dispatched if a message before it came
      in the same piece, and waits if it came in a piece of its own. */
  lemma WrappedLengthDependsOnPieces(opcode: byte, x: byte)
    ensures var f, g: Bytes := [0, 0, opcode], [0xff, 0xff, x];
            && Joined([f, g]) == Joined([f + g])
            && Arriving([f, g]).0 == [f] && Arriving([f + g]).0 == [f, [0xff, 0xff]]
  {
    var f, g: Bytes := [0, 0, opcode], [0xff, 0xff, x];
    OneOrTwoPieces(f, g);
    OneOrTwoPieces(f + g, []);
    WrappedAlone(x);
    OneFrameFirst(f, g);
    OneFrameFirst(f, []);
    assert IsFrame(f) && CanDispatch(f) && CanDispatch(f + g);
    assert Taken([]) == 0;
    hide Drained, Arriving, Joined, Frames, Leftover;
    EmptyHasNone();
    DrainedWhenReady(f);
    DrainedWhenReady(f + g);
    assert f + [] == f && [] + g == g && [f] + [] == [f] && [f] + [[0xff, 0xff]] == [f, [0xff, 0xff]];
  }

  lemma DrainedWhenReady(b: Bytes)
    requires CanDispatch(b)
    ensures Drained(b) == (Frames(b), Leftover(b))
  {
  }

  lemma EmptyHasNone()
    ensures Frames([]) == [] && Leftover([]) == []
  {
  }

  // Sending

  function Format(opcode: byte, payload: Bytes): Bytes {
    [(|payload| / 0x100 % 0x100) as byte, (|payload| % 0x100) as byte, opcode] + payload
  }

  /** A message formatted for sending is a frame exactly when its payload is at most 65534
      bytes long. */
  lemma FormatIsFrameIff(opcode: byte, payload: Bytes)
    ensures IsFrame(Format(opcode, payload)) <==> |payload| <= 0xfffe
  {
    var f, n := Format(opcode, payload), |payload|;
    assert f[0] == (n / 0x100 % 0x100) as byte && f[1] == (n % 0x100) as byte;
    if n < 0x1_0000 {
      assert n / 0x100 < 0x100;
      assert Length(f) == n;
    }
  }

  const MAX_MESSAGE_LENGTH := 0xffff - 3

  /** A message the data client agrees to send arrives as sent, whatever follows it. */
  lemma SentIsReceived(opcode: byte, payload: Bytes, rest: Bytes)
    requires |payload| <= MAX_MESSAGE_LENGTH
    ensures Frames(Format(opcode, payload) + rest) == [Format(opcode, payload)] + Frames(rest)
  {
    FormatIsFrameIff(opcode, payload);
    OneFrameFirst(Format(opcode, payload), rest);
  }

  // The loops

  /** The loop has dispatched these messages, which took this many bytes. */
  ghost predicate Sofar(b: Bytes, done: seq<Bytes>, offset: nat) {
    && offset <= |b|
    && Frames(b) == done + Frames(b[offset..])
    && Leftover(b) == Leftover(b[offset..])
  }

  lemma SofarBegins(b: Bytes)
    ensures Sofar(b, [], 0)
  {
    hide Frames, Leftover;
    assert b[0..] == b && [] + Frames(b) == Frames(b);
  }

  lemma Regrouped(a: seq<Bytes>, f: Bytes, c: seq<Bytes>)
    ensures a + ([f] + c) == a + [f] + c
  {
  }

  lemma SliceParts(b: Bytes, offset: nat, n: nat)
    requires offset + n <= |b|
    ensures b[offset..][..n] == b[offset..offset + n] && b[offset..][n..] == b[offset + n..]
  {
    var s := b[offset..];
    assert forall i :: 0 <= i < |s| ==> s[i] == b[offset + i];
  }

  lemma FirstIsFrame(b: Bytes)
    requires Taken(b) > 0
    ensures IsFrame(b[..Taken(b)]) || Wraps(b[..Taken(b)])
  {
    DispatchedAreFrames(b);
    Unfold(b);
    hide IsFrame, Wraps;
    assert Frames(b)[0] == b[..Taken(b)];
  }

  lemma SofarMore(b: Bytes, done: seq<Bytes>, offset: nat, n: nat)
    requires Sofar(b, done, offset) && Taken(b[offset..]) == n > 0
    ensures offset + n <= |b| && Sofar(b, done + [b[offset..offset + n]], offset + n)
    ensures IsFrame(b[offset..offset + n]) || Wraps(b[offset..offset + n])
  {
    hide Frames, Leftover, Taken, IsFrame, Wraps;
    var rest := b[offset..];
    FirstIsFrame(rest);
    Unfold(rest);
    SliceParts(b, offset, n);
    Regrouped(done, b[offset..offset + n], Frames(b[offset + n..]));
  }

  lemma SofarEnds(b: Bytes, done: seq<Bytes>, offset: nat)
    requires Sofar(b, done, offset) && Taken(b[offset..]) == 0
    ensures Frames(b) == done && |Leftover(b)| == |b| - offset
  {
    Unfold(b[offset..]);
    hide Frames, Leftover, Taken;
    assert done + [] == done;
  }

  /** The length computed at an offset is what the loop takes there. */
  lemma TakenAt(b: Bytes, offset: nat)
    requires offset <= |b|
    ensures |b| - offset < 3 ==> Taken(b[offset..]) == 0
    ensures |b| - offset >= 3 ==>
              var len := (b[offset] as int * 0x100 + b[offset + 1] as int + 1) % 0x1_0000;
              Taken(b[offset..]) == if len > |b| - offset - 2 then 0 else len + 2
  {
  }

  /** Dispatches the messages in the buffer and says how many bytes they took. */
  method ClientDispatch(buffer: Bytes) returns (total: nat, messages: seq<Bytes>)
    ensures messages == Frames(buffer)
    ensures total == |buffer| - |Leftover(buffer)|
  {
    hide Frames, Leftover, Taken, IsFrame, Sofar;
    var offset, remaining := 0, |buffer|;
    total, messages := 0, [];
    SofarBegins(buffer);
    TakenAt(buffer, 0);
    while remaining >= 3
      invariant offset == total <= |buffer| && remaining == |buffer| - offset
      invariant Sofar(buffer, messages, offset)
      decreases remaining
    {
      TakenAt(buffer, offset);
      var len := (buffer[offset] as int * 0x100 + buffer[offset + 1] as int + 1) % 0x1_0000;
      if len > remaining - 2 {
        break;
      }
      SofarMore(buffer, messages, offset, len + 2);
      messages := messages + [buffer[offset..offset + len + 2]];
      offset := offset + 2 + len;
      remaining := remaining - (len + 2);
      total := total + (len + 2);
    }
    TakenAt(buffer, offset);
    SofarEnds(buffer, messages, offset);
  }

  /** The socket's loop around the dispatch: while the test says so, dispatch and drop the
      bytes taken. Once is enough. */
  method Drain(buffer: Bytes) returns (messages: seq<Bytes>, left: Bytes)
    ensures (messages, left) == Drained(buffer) && buffer == Concat(messages) + left
  {
    hide Frames, Leftover, Taken;
    messages, left := [], buffer;
    assert Concat([]) + left == left;
    while left != [] && CanDispatch(left)
      invariant buffer == Concat(messages) + left
      invariant (messages == [] && left == buffer) || ((messages, left) == Drained(buffer) && !CanDispatch(left))
      decreases |left|
    {
      CanDispatchIff(left);
      Unfold(left);
      NothingLeftToTake(left);
      FramesAndLeftover(left);
      var total, fs := ClientDispatch(left);
      left := left[total..];
      assert left == Leftover(buffer);
      CanDispatchIff(left);
      messages := messages + fs;
      assert messages == fs;
    }
  }

  // The router

  datatype Handler = TopLevel | Channels | Data | Sessions | Nobody

  const LOGIN: byte := 0x10
  const REQUEST_OIDS: byte := 0x20
  const REQUEST_VALUE: byte := 0x21
  const REQUEST_NEXT_KEY: byte := 0x22
  const SUBMIT_CHANGESET: byte := 0x30
  const RELEASE_KEY: byte := 0x40
  const RELEASE_KEY_RANGE: byte := 0x42
  const NODE_SESSION_CONNECTED: byte := 0x60
  const NODE_SESSION_DISCONNECTED: byte := 0x61
  const RELAY_DISCONNECT_FROM: byte := 0x62
  const RELAY_SESSION_MESSAGE_FROM: byte := 0x64
  const RELAY_JOIN_FROM: byte := 0x70
  const RELAY_LEAVE_FROM: byte := 0x72
  const RELAY_CHANNEL_MESSAGE_FROM: byte := 0x74
  const RELAY_CLOSE_FROM: byte := 0x76

  /** Who understands an opcode. */
  function HandlerOf(opcode: byte): Handler {
    if opcode == LOGIN then TopLevel
    else if opcode in [RELAY_JOIN_FROM, RELAY_LEAVE_FROM, RELAY_CLOSE_FROM, RELAY_CHANNEL_MESSAGE_FROM] then Channels
    else if opcode in [REQUEST_OIDS, REQUEST_VALUE, REQUEST_NEXT_KEY, SUBMIT_CHANGESET, RELEASE_KEY, RELEASE_KEY_RANGE] then Data
    else if opcode in [NODE_SESSION_CONNECTED, NODE_SESSION_DISCONNECTED, RELAY_DISCONNECT_FROM, RELAY_SESSION_MESSAGE_FROM] then Sessions
    else Nobody
  }

  /** The opcodes by their high digits: each protocol has its own, and answers are nobody's. */
  lemma OpcodesByProtocol(opcode: byte)
    ensures HandlerOf(opcode) == TopLevel <==> opcode == 0x10
    ensures HandlerOf(opcode) == Data <==> opcode in {0x20, 0x21, 0x22, 0x30, 0x40, 0x42}
    ensures HandlerOf(opcode) == Sessions <==> opcode in {0x60, 0x61, 0x62, 0x64}
    ensures HandlerOf(opcode) == Channels <==> opcode in {0x70, 0x72, 0x74, 0x76}
  {
  }

  predicate IsFor(f: Bytes, h: Handler) {
    |f| >= 3 && HandlerOf(f[2]) == h
  }

  /** The messages for one handler, in order. */
  function MessagesFor(fs: seq<Bytes>, h: Handler): seq<Bytes> {
    if fs == [] then []
    else MessagesFor(fs[..|fs| - 1], h) + if IsFor(fs[|fs| - 1], h) then [fs[|fs| - 1]] else []
  }

  lemma MessagesForAppends(fs: seq<Bytes>, f: Bytes, h: Handler)
    ensures MessagesFor(fs + [f], h) == MessagesFor(fs, h) + if IsFor(f, h) then [f] else []
  {
    assert (fs + [f])[..|fs|] == fs;
  }

  /** Handing over two runs of messages is handing over the one and then the other, so each
      handler gets its messages in the order they came. */
  lemma {:induction false} RoutingKeepsOrder(fs: seq<Bytes>, gs: seq<Bytes>, h: Handler)
    ensures MessagesFor(fs + gs, h) == MessagesFor(fs, h) + MessagesFor(gs, h)
    decreases |gs|
  {
    if gs == [] {
      assert fs + gs == fs;
    } else {
      var n := |gs| - 1;
      assert fs + gs == (fs + gs[..n]) + [gs[n]];
      MessagesForAppends(fs + gs[..n], gs[n], h);
      RoutingKeepsOrder(fs, gs[..n], h);
    }
  }

  /** A handler gets a message as often as it came if it understands it, and never if not. */
  lemma {:induction false} EveryMessageIsRouted(fs: seq<Bytes>, f: Bytes, h: Handler)
    ensures multiset(MessagesFor(fs, h))[f] == if IsFor(f, h) then multiset(fs)[f] else 0
  {
    if fs != [] {
      var n := |fs| - 1;
      EveryMessageIsRouted(fs[..n], f, h);
      hide IsFor;
      assert fs == fs[..n] + [fs[n]];
      var last := if IsFor(fs[n], h) then [fs[n]] else [];
      assert multiset(MessagesFor(fs, h)) == multiset(MessagesFor(fs[..n], h)) + multiset(last);
      assert multiset(fs) == multiset(fs[..n]) + multiset([fs[n]]);
    }
  }

  lemma DelegateGetsOne(f: Bytes)
    requires IsFrame(f) || Wraps(f)
    ensures Frames(f) == if IsFrame(f) then [f] else []
  {
    if IsFrame(f) {
      OneFrameFirst(f, []);
      assert f + [] == f && [f] + Frames([]) == [f];
    }
  }

  lemma RoutedMore(done: seq<Bytes>, f: Bytes)
    requires IsFrame(f) || Wraps(f)
    ensures forall h :: MessagesFor(done + [f], h) == MessagesFor(done, h) + if IsFor(f, h) then [f] else []
    ensures Frames(f) == (if |f| >= 3 then [f] else []) && (!Wraps(f) ==> |f| >= 3)
  {
    forall h ensures MessagesFor(done + [f], h) == MessagesFor(done, h) + if IsFor(f, h) then [f] else [] {
      MessagesForAppends(done, f, h);
    }
    DelegateGetsOne(f);
  }

  lemma NothingRouted()
    ensures forall h :: MessagesFor([], h) == []
  {
  }

  /** The meta server's dispatch: each message is handed, in a buffer of its own, to the
      dispatch loop of whoever understands its opcode. */
  method RouterDispatch(buffer: Bytes)
    returns (total: nat, logins: seq<Bytes>, channels: seq<Bytes>, data: seq<Bytes>, sessions: seq<Bytes>)
    ensures total == |buffer| - |Leftover(buffer)|
    ensures channels == MessagesFor(Frames(buffer), Channels)
    ensures data == MessagesFor(Frames(buffer), Data)
    ensures sessions == MessagesFor(Frames(buffer), Sessions)
    ensures (forall f :: f in Frames(buffer) ==> !Wraps(f)) ==> logins == MessagesFor(Frames(buffer), TopLevel)
  {
    hide Frames, Leftover, Taken, IsFrame, Sofar, MessagesFor, HandlerOf;
    var offset, remaining := 0, |buffer|;
    total, logins, channels, data, sessions := 0, [], [], [], [];
    ghost var done := [];
    SofarBegins(buffer);
    NothingRouted();
    while remaining >= 3
      invariant offset == total <= |buffer| && remaining == |buffer| - offset
      invariant Sofar(buffer, done, offset)
      invariant channels == MessagesFor(done, Channels) && data == MessagesFor(done, Data) && sessions == MessagesFor(done, Sessions)
      invariant (forall f :: f in done ==> !Wraps(f)) ==> logins == MessagesFor(done, TopLevel)
      decreases remaining
    {
      TakenAt(buffer, offset);
      var len := (buffer[offset] as int * 0x100 + buffer[offset + 1] as int + 1) % 0x1_0000;
      if len > remaining - 2 {
        break;
      }
      SofarMore(buffer, done, offset, len + 2);
      var opcode := buffer[offset + 2];
      var frame := buffer[offset..offset + len + 2];
      assert |frame| >= 3 ==> frame[2] == opcode;
      RoutedMore(done, frame);
      match HandlerOf(opcode) {
        case TopLevel => logins := logins + [frame];
        case Channels =>
          var n, ms := ClientDispatch(frame);
          channels := channels + ms;
        case Data =>
          var n, ms := ClientDispatch(frame);
          data := data + ms;
        case Sessions =>
          var n, ms := ClientDispatch(frame);
          sessions := sessions + ms;
        case Nobody =>
      }
      assert forall f :: f in done + [frame] <==> f in done || f == frame;
      done := done + [frame];
      offset := offset + 2 + len;
      remaining := remaining - (len + 2);
      total := total + (len + 2);
    }
    TakenAt(buffer, offset);
    SofarEnds(buffer, done, offset);
  }
}
