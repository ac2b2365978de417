/**
 The byte forms of the data protocol: big-endian integers, length-prefixed byte strings,
 lock responses and changesets, and the exact conditions under which reading gives back
 what was written. Names are C strings, so a name holds no NUL byte.
 */
module Codec {
  import opened Keys
  import opened Wrappers

  // Integers

  /** A C conversion to a signed integer of the given width. */
  function Wrapped(n: int, width: int): (r: int)
    requires width > 0
    ensures -width <= r < width
  {
    (n + width) % (2 * width) - width
  }

  function ByteAt(n: int, unit: int): byte
    requires unit > 0
  {
    (n / unit % 256) as byte
  }

  function WriteShort(n: int): (b: Bytes)
    ensures |b| == 2
  {
    [ByteAt(n, 0x100), ByteAt(n, 1)]
  }

  function ReadShort(b: Bytes): int
    requires |b| >= 2
  {
    Wrapped(b[0] as int * 0x100 + b[1] as int, 0x8000)
  }

  function WriteInt(n: int): (b: Bytes)
    ensures |b| == 4
  {
    [ByteAt(n, 0x100_0000), ByteAt(n, 0x1_0000), ByteAt(n, 0x100), ByteAt(n, 1)]
  }

  function ReadInt(b: Bytes): int
    requires |b| >= 4
  {
    Wrapped(b[0] as int * 0x100_0000 + b[1] as int * 0x1_0000 + b[2] as int * 0x100 + b[3] as int, 0x8000_0000)
  }

  lemma ModUnique(n: int, m: int, q: int, r: int)
    requires m > 0 && n == q * m + r && 0 <= r < m
    ensures n % m == r
  {
    var d := n / m - q;
    assert n == n / m * m + n % m;
    assert d * m == r - n % m;
    assert d >= 1 ==> d * m >= m;
    assert d <= -1 ==> d * m <= -m;
  }

  /** The bytes of a number below a unit, and the byte at the unit, make the number below
      the next unit. */
  lemma ByteJoins(n: int, unit: int)
    requires unit > 0
    ensures ByteAt(n, unit) as int * unit + n % unit == n % (0x100 * unit)
  {
    var d := n / unit;
    var low := d % 0x100 * unit + n % unit;
    assert d == d / 0x100 * 0x100 + d % 0x100;
    assert n == d * unit + n % unit;
    assert d * unit == d / 0x100 * (0x100 * unit) + d % 0x100 * unit;
    assert 0 <= d % 0x100 * unit <= 0xff * unit;
    ModUnique(n, 0x100 * unit, d / 0x100, low);
  }

  lemma WrappedAgain(n: int, width: int)
    requires width > 0
    ensures Wrapped(n % (2 * width), width) == Wrapped(n, width)
  {
    var m := 2 * width;
    var k := n % m + width;
    assert n == n / m * m + n % m;
    assert k == k / m * m + k % m;
    assert n + width == (n / m + k / m) * m + k % m;
    ModUnique(n + width, m, n / m + k / m, k % m);
  }

  lemma ShortRoundTrip(n: int, rest: Bytes)
    ensures ReadShort(WriteShort(n) + rest) == Wrapped(n, 0x8000)
  {
    var b := WriteShort(n) + rest;
    assert b[0] == ByteAt(n, 0x100) && b[1] == ByteAt(n, 1);
    ByteJoins(n, 1);
    ByteJoins(n, 0x100);
    WrappedAgain(n, 0x8000);
  }

  lemma IntRoundTrip(n: int, rest: Bytes)
    ensures ReadInt(WriteInt(n) + rest) == Wrapped(n, 0x8000_0000)
  {
    hide ByteAt, Wrapped;
    var b := WriteInt(n) + rest;
    assert b[0] == ByteAt(n, 0x100_0000) && b[1] == ByteAt(n, 0x1_0000) && b[2] == ByteAt(n, 0x100) && b[3] == ByteAt(n, 1);
    ByteJoins(n, 1);
    ByteJoins(n, 0x100);
    ByteJoins(n, 0x1_0000);
    ByteJoins(n, 0x100_0000);
    WrappedAgain(n, 0x8000_0000);
  }

  /** The bytes are those of the number, the most significant first. */
  lemma BigEndian(n: int)
    ensures var b := WriteShort(n); b[0] as int * 0x100 + b[1] as int == n % 0x1_0000
    ensures var b := WriteInt(n); b[0] as int * 0x100_0000 + b[1] as int * 0x1_0000 + b[2] as int * 0x100 + b[3] as int == n % 0x1_0000_0000
  {
    hide ByteAt;
    ByteJoins(n, 1);
    ByteJoins(n, 0x100);
    ByteJoins(n, 0x1_0000);
    ByteJoins(n, 0x100_0000);
  }

  // Strings and byte strings

  ghost predicate NulFree(s: Bytes) {
    0 !in s
  }

  function WriteStr(s: Bytes): Bytes {
    s + [0]
  }

  /** The string at the start of the bytes, up to their first NUL, if they have one. */
  function ReadStr(b: Bytes): (r: Option<Bytes>)
    ensures r.Some? ==> WriteStr(r.value) <= b && NulFree(r.value)
  {
    if b == [] then None
    else if b[0] == 0 then Some([])
    else
      match ReadStr(b[1..])
      case None => None
      case Some(s) => assert b == [b[0]] + b[1..]; Some([b[0]] + s)
  }

  lemma {:induction false} StrRoundTrip(s: Bytes, rest: Bytes)
    requires NulFree(s)
    ensures ReadStr(WriteStr(s) + rest) == Some(s)
  {
    var b := WriteStr(s) + rest;
    if s != [] {
      assert b[0] == s[0] && s[0] in s && s == [s[0]] + s[1..];
      assert b[1..] == WriteStr(s[1..]) + rest;
      assert NulFree(s[1..]) by {
        assert forall x :: x in s[1..] ==> x in s;
      }
      StrRoundTrip(s[1..], rest);
    }
  }

  function WriteBytes(d: Bytes): Bytes {
    WriteShort(|d|) + d
  }

  /** A length-prefixed byte string; the prefix is signed, and a negative one is refused. */
  function ReadBytes(b: Bytes): (r: Option<Bytes>)
    ensures r.Some? ==> |r.value| <= |b| - 2 && |r.value| < 0x8000
  {
    if |b| < 2 then None
    else
      var prefix := ReadShort(b);
      if prefix < 0 || prefix > |b| - 2 then None else Some(b[2..2 + prefix])
  }

  /** Byte strings too long for the prefix are refused or cut short. */
  lemma BytesRoundTrip(d: Bytes, rest: Bytes)
    ensures |d| < 0x8000 ==> ReadBytes(WriteBytes(d) + rest) == Some(d)
    ensures |d| >= 0x8000 ==> ReadBytes(WriteBytes(d) + rest) != Some(d)
  {
    var b := WriteBytes(d) + rest;
    assert b == WriteShort(|d|) + (d + rest);
    ShortRoundTrip(|d|, d + rest);
    if |d| < 0x8000 {
      assert b[2..2 + |d|] == d;
    }
  }

  lemma NoBytes()
    ensures WriteBytes([]) == [0, 0]
  {
  }

  // Responses

  datatype Timeval = Timeval(sec: int, usec: int)

  /** The answer to a lock request: the data that goes with a granted lock, if there is any,
      or how long to wait before asking again. */
  datatype Answer = Granted(data: Option<Bytes>) | Refused(timeout: Timeval)

  datatype Response = Response(app: Bytes, store: Bytes, answer: Answer)

  function WriteAnswer(a: Answer): Bytes {
    match a
    case Granted(None) => [1, 0, 0]
    case Granted(Some(d)) => [1] + WriteBytes(d)
    case Refused(t) => [0] + WriteInt(t.sec) + WriteInt(t.usec)
  }

  function WriteResponse(r: Response): Bytes {
    WriteStr(r.app) + WriteStr(r.store) + WriteAnswer(r.answer)
  }

  function ReadAnswer(b: Bytes): Option<Answer> {
    if b == [] then None
    else if b[0] != 0 then
      match ReadBytes(b[1..])
      case None => None
      case Some(d) => Some(Granted(if d == [] then None else Some(d)))
    else if |b| < 9 then None
    else Some(Refused(Timeval(ReadInt(b[1..]), ReadInt(b[5..]))))
  }

  function ReadResponse(b: Bytes): Option<Response> {
    match ReadStr(b)
    case None => None
    case Some(app) =>
      var b' := b[|app| + 1..];
      match ReadStr(b')
      case None => None
      case Some(store) =>
        match ReadAnswer(b'[|store| + 1..])
        case None => None
        case Some(a) => Some(Response(app, store, a))
  }

  predicate Fits(n: int, width: int) {
    -width <= n < width
  }

  /** The answer survives the wire: data is neither empty nor too long for its signed
      two-byte length, and times fit in four bytes. */
  predicate Sendable(a: Answer) {
    match a
    case Granted(None) => true
    case Granted(Some(d)) => 0 < |d| < 0x8000
    case Refused(t) => Fits(t.sec, 0x8000_0000) && Fits(t.usec, 0x8000_0000)
  }

  lemma AnswerRoundTripIff(a: Answer)
    ensures ReadAnswer(WriteAnswer(a)) == Some(a) <==> Sendable(a)
  {
    hide ReadShort, ReadInt, WriteShort, WriteInt, ReadBytes, WriteBytes;
    var b := WriteAnswer(a);
    match a {
      case Granted(None) =>
        BytesRoundTrip([], []);
        NoBytes();
        assert b[1..] == WriteBytes([]) + [];
      case Granted(Some(d)) =>
        BytesRoundTrip(d, []);
        assert b[1..] == WriteBytes(d) + [];
      case Refused(t) =>
        IntRoundTrip(t.sec, WriteInt(t.usec));
        IntRoundTrip(t.usec, []);
        assert b[1..] == WriteInt(t.sec) + WriteInt(t.usec) && b[5..] == WriteInt(t.usec) + [];
    }
  }

  /** Reading a response gives back what was written exactly when its answer is sendable,
      and if it gives anything, the names are right. */
  lemma ResponseRoundTripIff(r: Response)
    requires NulFree(r.app) && NulFree(r.store)
    ensures ReadResponse(WriteResponse(r)).Some? ==>
              var s := ReadResponse(WriteResponse(r)).value; s.app == r.app && s.store == r.store
    ensures ReadResponse(WriteResponse(r)) == Some(r) <==> Sendable(r.answer)
  {
    hide ReadStr, ReadAnswer, WriteAnswer, Sendable;
    var b := WriteResponse(r);
    var b', b'' := WriteStr(r.store) + WriteAnswer(r.answer), WriteAnswer(r.answer);
    assert b == WriteStr(r.app) + b';
    assert b[|r.app| + 1..] == b' && b'[|r.store| + 1..] == b'';
    StrRoundTrip(r.app, b');
    StrRoundTrip(r.store, b'');
    AnswerRoundTripIff(r.answer);
  }

  /** Responses on the wire. */
  lemma ResponseBytes()
    ensures WriteResponse(Response([97], [115], Granted(Some([7])))) == [97, 0, 115, 0, 1, 0, 1, 7]
    ensures WriteResponse(Response([97], [115], Granted(None))) == [97, 0, 115, 0, 1, 0, 0]
    ensures WriteResponse(Response([97], [115], Refused(Timeval(1, 2)))) == [97, 0, 115, 0, 0, 0, 0, 0, 1, 0, 0, 0, 2]
  {
    assert WriteShort(1) == [0, 1] && WriteInt(1) == [0, 0, 0, 1] && WriteInt(2) == [0, 0, 0, 2];
  }

  // Changesets

  /** A change to one key: a new value, or none to delete the key. */
  datatype Change = Change(store: Bytes, key: Bytes, data: Option<Bytes>)

  datatype Changeset = Changeset(app: Bytes, changes: seq<Change>)

  function WriteChange(c: Change): Bytes {
    WriteStr(c.store) + WriteBytes(c.key) + if c.data.None? then [0, 0] else WriteBytes(c.data.value)
  }

  /** A change at the start of the bytes and how many bytes it takes. */
  function ReadChange(b: Bytes): (r: Option<(Change, nat)>)
    ensures r.Some? ==> 0 < r.value.1 <= |b|
  {
    match ReadStr(b)
    case None => None
    case Some(store) =>
      if store == [] then None else
      var b' := b[|store| + 1..];
      match ReadBytes(b')
      case None => None
      case Some(key) =>
        if key == [] then None else
        match ReadBytes(b'[|key| + 2..])
        case None => None
        case Some(data) =>
          Some((Change(store, key, if data == [] then None else Some(data)), |store| + |key| + |data| + 5))
  }

  predicate SendableChange(c: Change) {
    && c.store != [] && 0 < |c.key| < 0x8000
    && (c.data.Some? ==> 0 < |c.data.value| < 0x8000)
  }

  /** A change is read back, with exactly its own bytes consumed, when it is sendable, and
      is refused or altered when it is not. */
  lemma ChangeRoundTripIff(c: Change, rest: Bytes)
    requires NulFree(c.store)
    ensures SendableChange(c) ==> ReadChange(WriteChange(c) + rest) == Some((c, |WriteChange(c)|))
    ensures !SendableChange(c) ==> ReadChange(WriteChange(c) + rest).None? || ReadChange(WriteChange(c) + rest).value.0 != c
  {
    hide ReadStr, ReadBytes, WriteShort;
    var d := if c.data.None? then [] else c.data.value;
    var b := WriteChange(c) + rest;
    var b', b'' := WriteBytes(c.key) + (WriteBytes(d) + rest), WriteBytes(d) + rest;
    NoBytes();
    assert b == WriteStr(c.store) + b';
    assert b[|c.store| + 1..] == b' && b'[|c.key| + 2..] == b'';
    StrRoundTrip(c.store, b');
    BytesRoundTrip(c.key, b'');
    BytesRoundTrip(d, rest);
  }

  function WriteChanges(cs: seq<Change>): Bytes {
    if cs == [] then [] else WriteChange(cs[0]) + WriteChanges(cs[1..])
  }

  function WriteChangeset(c: Changeset): Bytes {
    WriteStr(c.app) + WriteShort(|c.changes|) + WriteChanges(c.changes)
  }

  /** What the reader makes of a changeset. Its array has as many records as the count said;
      when the bytes give out, those left are zeroed, which is `None` here. */
  datatype Decoded = Decoded(app: Bytes, changes: seq<Option<Change>>)

  function Blank(n: nat): (r: seq<Option<Change>>)
    ensures |r| == n
  {
    seq(n, _ => None)
  }

  function Present(cs: seq<Change>): (r: seq<Option<Change>>)
    ensures |r| == |cs|
  {
    seq(|cs|, i requires 0 <= i < |cs| => Some(cs[i]))
  }

  function ReadChanges(b: Bytes, n: nat): (r: Option<seq<Option<Change>>>)
    ensures r.Some? ==> |r.value| == n
  {
    if n == 0 || b == [] then Some(Blank(n))
    else
      match ReadChange(b)
      case None => None
      case Some((c, size)) =>
        match ReadChanges(b[size..], n - 1)
        case None => None
        case Some(cs) => Some([Some(c)] + cs)
  }

  function ReadChangeset(b: Bytes): Option<Decoded> {
    match ReadStr(b)
    case None => None
    case Some(app) =>
      var b' := b[|app| + 1..];
      if |b'| <= 2 then None
      else if ReadShort(b') <= 0 then Some(Decoded(app, []))
      else
        match ReadChanges(b'[2..], ReadShort(b'))
        case None => None
        case Some(cs) => Some(Decoded(app, cs))
  }

  lemma PresentSplits(cs: seq<Change>, more: nat)
    requires cs != []
    ensures Present(cs) + Blank(more) == [Some(cs[0])] + (Present(cs[1..]) + Blank(more))
  {
  }

  lemma NonePresent(more: nat)
    ensures Present([]) + Blank(more) == Blank(more)
  {
  }

  lemma WrittenFirst(cs: seq<Change>, rest: Bytes)
    requires cs != []
    ensures WriteChanges(cs) + rest == WriteChange(cs[0]) + (WriteChanges(cs[1..]) + rest)
    ensures (WriteChanges(cs) + rest)[|WriteChange(cs[0])|..] == WriteChanges(cs[1..]) + rest
  {
    hide WriteChange;
    var a, t := WriteChange(cs[0]), WriteChanges(cs[1..]);
    assert a + t + rest == a + (t + rest);
    assert (a + (t + rest))[|a|..] == t + rest;
  }

  lemma ReadFirst(b: Bytes, n: nat, c: Change, size: nat)
    requires n > 0 && b != [] && ReadChange(b) == Some((c, size))
    ensures ReadChanges(b, n) == match ReadChanges(b[size..], n - 1) case None => None case Some(cs) => Some([Some(c)] + cs)
  {
    hide ReadChange;
  }

  /** Reading sendable changes gives them back; what the count promises beyond the bytes
      comes out blank. */
  lemma {:induction false} ChangesRoundTrip(cs: seq<Change>, more: nat, rest: Bytes)
    requires forall i :: 0 <= i < |cs| ==> NulFree(cs[i].store) && SendableChange(cs[i])
    requires more == 0 || rest == []
    ensures ReadChanges(WriteChanges(cs) + rest, |cs| + more) == Some(Present(cs) + Blank(more))
  {
    hide NulFree, SendableChange, WriteChange, ReadChange;
    if cs == [] {
      NonePresent(more);
      assert WriteChanges(cs) + rest == rest;
    } else {
      WrittenFirst(cs, rest);
      PresentSplits(cs, more);
      ChangeTakesBytes(cs[0]);
      hide ReadChanges, WriteChanges, Present, Blank;
      ChangeRoundTripIff(cs[0], WriteChanges(cs[1..]) + rest);
      ReadFirst(WriteChanges(cs) + rest, |cs| + more, cs[0], |WriteChange(cs[0])|);
      ChangesRoundTrip(cs[1..], more, rest);
    }
  }

  lemma {:induction false} UnsendableIsNotRead(cs: seq<Change>, rest: Bytes)
    requires forall i :: 0 <= i < |cs| ==> NulFree(cs[i].store)
    requires ReadChanges(WriteChanges(cs) + rest, |cs|) == Some(Present(cs))
    ensures forall i :: 0 <= i < |cs| ==> SendableChange(cs[i])
  {
    hide NulFree, SendableChange, WriteChange, ReadChange;
    if cs != [] {
      var b, tail := WriteChanges(cs) + rest, WriteChanges(cs[1..]) + rest;
      assert b == WriteChange(cs[0]) + tail;
      ChangeRoundTripIff(cs[0], tail);
      var r := Present(cs);
      assert r[0] == Some(cs[0]) && r[1..] == Present(cs[1..]);
      assert ReadChange(b) == Some((cs[0], |WriteChange(cs[0])|)) && b[|WriteChange(cs[0])|..] == tail by {
        assert b != [] by {
          ChangeTakesBytes(cs[0]);
        }
      }
      UnsendableIsNotRead(cs[1..], rest);
      assert forall i :: 0 < i < |cs| ==> cs[i] == cs[1..][i - 1];
    }
  }

  lemma ChangeTakesBytes(c: Change)
    ensures |WriteChange(c)| > 0
  {
  }

  predicate SendableChangeset(c: Changeset) {
    0 < |c.changes| < 0x8000 && forall i :: 0 <= i < |c.changes| ==> SendableChange(c.changes[i])
  }

  /** A changeset is read back exactly when it has from 1 to 32767 changes, each naming a
      store and a key and setting a value or deleting, with no key or value over 32767
      bytes. */
  lemma ChangesetRoundTripIff(c: Changeset)
    requires NulFree(c.app) && forall i :: 0 <= i < |c.changes| ==> NulFree(c.changes[i].store)
    ensures ReadChangeset(WriteChangeset(c)) == Some(Decoded(c.app, Present(c.changes))) <==> SendableChangeset(c)
  {
    hide NulFree, SendableChange, WriteChanges, ReadChanges, ReadStr, ReadShort;
    var n := |c.changes|;
    var b, tail := WriteChangeset(c), WriteChanges(c.changes);
    var b' := WriteShort(n) + tail;
    assert b == WriteStr(c.app) + b';
    StrRoundTrip(c.app, b');
    assert b[|c.app| + 1..] == b' && b'[2..] == tail;
    ShortRoundTrip(n, tail);
    assert tail + [] == tail && Present(c.changes) + Blank(0) == Present(c.changes);
    if n == 0 {
      NoChanges();
    } else if n < 0x8000 {
      ChangesTakeBytes(c.changes);
      if SendableChangeset(c) {
        ChangesRoundTrip(c.changes, 0, []);
      } else if ReadChanges(tail, n) == Some(Present(c.changes)) {
        UnsendableIsNotRead(c.changes, []);
      }
    }
  }

  lemma NoChanges()
    ensures WriteChanges([]) == []
  {
  }

  lemma ChangesTakeBytes(cs: seq<Change>)
    requires cs != []
    ensures |WriteChanges(cs)| > 0
  {
  }

  /** Received bytes whose count is negative when read as signed are read as a changeset with
      no changes, whatever follows the count. */
  lemma NegativeCountReadsAsNone(app: Bytes, count: int, rest: Bytes)
    requires NulFree(app) && 0x8000 <= count < 0x1_0000 && rest != []
    ensures ReadChangeset(WriteStr(app) + WriteShort(count) + rest) == Some(Decoded(app, []))
  {
    hide NulFree, ReadChanges, ReadStr, ReadShort;
    var b := WriteStr(app) + WriteShort(count) + rest;
    var b' := WriteShort(count) + rest;
    assert b == WriteStr(app) + b';
    StrRoundTrip(app, b');
    assert b[|app| + 1..] == b';
    ShortRoundTrip(count, rest);
  }

  /** A changeset of a new value and a deletion on the wire. */
  lemma ChangesetBytes()
    ensures WriteChangeset(Changeset([97], [Change([115], [8, 9], Some([7])), Change([116], [5], None)]))
         == [97, 0, 0, 2, 115, 0, 0, 2, 8, 9, 0, 1, 7, 116, 0, 0, 1, 5, 0, 0]
  {
    var a, b := Change([115], [8, 9], Some([7])), Change([116], [5], None);
    ChangeBytes();
    hide WriteChange;
    assert [a, b][1..] == [b] && [b][1..] == [];
    assert WriteChanges([b]) == WriteChange(b) + WriteChanges([]) && WriteChanges([a, b]) == WriteChange(a) + WriteChanges([b]);
  }

  lemma ChangeBytes()
    ensures WriteChange(Change([115], [8, 9], Some([7]))) == [115, 0, 0, 2, 8, 9, 0, 1, 7]
    ensures WriteChange(Change([116], [5], None)) == [116, 0, 0, 1, 5, 0, 0]
    ensures WriteShort(2) == [0, 2]
  {
    assert WriteShort(1) == [0, 1] && WriteShort(2) == [0, 2];
  }

  // The loops

  lemma {:induction false} WriteChangesAppends(cs: seq<Change>, c: Change)
    ensures WriteChanges(cs + [c]) == WriteChanges(cs) + WriteChange(c)
  {
    if cs == [] {
      assert [c][1..] == [];
    } else {
      assert (cs + [c])[1..] == cs[1..] + [c];
      WriteChangesAppends(cs[1..], c);
    }
  }

  /** Appends to the byte array, change by change. */
  method WriteChangesetBytes(c: Changeset) returns (arr: Bytes)
    ensures arr == WriteChangeset(c)
  {
    hide WriteStr, WriteShort, WriteChange;
    arr := WriteStr(c.app);
    arr := arr + WriteShort(|c.changes|);
    var i := 0;
    while i < |c.changes|
      invariant 0 <= i <= |c.changes|
      invariant arr == WriteStr(c.app) + WriteShort(|c.changes|) + WriteChanges(c.changes[..i])
    {
      assert c.changes[..i + 1] == c.changes[..i] + [c.changes[i]];
      WriteChangesAppends(c.changes[..i], c.changes[i]);
      arr := arr + WriteChange(c.changes[i]);
      i := i + 1;
    }
    assert c.changes[..i] == c.changes;
  }

  /** What a reader that has some records and is to read more will return. */
  function Following(read: seq<Option<Change>>, r: Option<seq<Option<Change>>>): Option<seq<Option<Change>>> {
    if r.None? then None else Some(read + r.value)
  }

  lemma FollowingStep(read: seq<Option<Change>>, b: Bytes, n: nat, c: Change, size: nat)
    requires n > 0 && b != [] && ReadChange(b) == Some((c, size))
    ensures Following(read, ReadChanges(b, n)) == Following(read + [Some(c)], ReadChanges(b[size..], n - 1))
  {
    hide ReadChange;
    var left := ReadChanges(b[size..], n - 1);
    if left.Some? {
      assert read + ([Some(c)] + left.value) == read + [Some(c)] + left.value;
    }
  }

  /** The next of the zeroed records is filled. */
  lemma FilledOne(read: seq<Option<Change>>, n: nat, c: Change)
    requires n > 0
    ensures (read + Blank(n))[|read| := Some(c)] == read + [Some(c)] + Blank(n - 1)
  {
  }

  lemma NothingFollows(read: seq<Option<Change>>, b: Bytes, n: nat)
    requires n == 0 || b == []
    ensures Following(read, ReadChanges(b, n)) == Some(read + Blank(n))
  {
  }

  lemma RestOfRest(b: Bytes, offset: nat, size: nat)
    requires offset + size <= |b|
    ensures b[offset..][size..] == b[offset + size..]
  {
  }

  lemma FillBegins(b: Bytes, count: nat)
    ensures ReadChanges(b, count) == Following([], ReadChanges(b[0..], count)) && Blank(count) == [] + Blank(count)
  {
    assert b[0..] == b;
    var all := ReadChanges(b, count);
    assert all.Some? ==> [] + all.value == all.value;
  }

  /** Fills an array of zeroed records from the bytes, until the count or the bytes are used
      up. */
  method FillChanges(b: Bytes, count: nat) returns (r: Option<seq<Option<Change>>>)
    ensures r == ReadChanges(b, count)
  {
    hide ReadChange, ReadChanges, Blank, Following;
    ghost var all := ReadChanges(b, count);
    var changes := Blank(count);
    var offset, i := 0, 0;
    ghost var read: seq<Option<Change>> := [];
    FillBegins(b, count);
    while i < count && |b| - offset > 0
      invariant 0 <= i == |read| <= count && offset <= |b| && changes == read + Blank(count - i)
      invariant all == Following(read, ReadChanges(b[offset..], count - i))
    {
      var change := ReadChange(b[offset..]);
      if change.None? {
        NothingRead(read, b[offset..], count - i);
        return None;
      }
      var (c, size) := change.value;
      FollowingStep(read, b[offset..], count - i, c, size);
      RestOfRest(b, offset, size);
      FilledOne(read, count - i, c);
      changes := changes[i := Some(c)];
      read := read + [Some(c)];
      offset, i := offset + size, i + 1;
    }
    NothingFollows(read, b[offset..], count - i);
    r := Some(changes);
  }

  lemma NothingRead(read: seq<Option<Change>>, b: Bytes, n: nat)
    requires n > 0 && b != [] && ReadChange(b).None?
    ensures Following(read, ReadChanges(b, n)) == None
  {
  }

  method ReadChangesetBytes(b: Bytes) returns (r: Option<Decoded>)
    ensures r == ReadChangeset(b)
  {
    hide ReadChanges, ReadShort;
    var app := ReadStr(b);
    if app.None? {
      return None;
    }
    var offset := |app.value| + 1;
    if |b| - offset <= 2 {
      return None;
    }
    var count := ReadShort(b[offset..]);
    assert b[offset..][2..] == b[offset + 2..];
    if count <= 0 {
      return Some(Decoded(app.value, []));
    }
    var changes := FillChanges(b[offset + 2..], count);
    r := if changes.None? then None else Some(Decoded(app.value, changes.value));
  }
}
