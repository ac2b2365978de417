/**
 Object ids, taken from reserved blocks by transactions that run side by side. A
 transaction keeps the block it is using to itself, takes another when it runs out, and
 throws away what is left when it ends, however it ends.
 */
module OidBlocks {
  import opened Keys
  import opened Wrappers

  type TxId = nat

  /** A reserved range, as the reservation names it. */
  datatype Range = Range(start: Oid, size: nat)

  /** A block in use: its first id, the next to issue, and its last. */
  datatype Block = Block(first: Oid, next: Oid, last: int)

  /** A block reservation made into a block, as `create_oid_block_state` does. */
  function Opened(r: Range): Block {
    Block(r.start, r.start, r.start + r.size - 1)
  }

  predicate InRange(r: Range, oid: Oid) {
    r.start <= oid < r.start + r.size
  }

  predicate Disjoint(r: Range, s: Range) {
    r.start + r.size <= s.start || s.start + s.size <= r.start
  }

  /** The reservations so far: none empty, no two overlapping. */
  ghost predicate Separate(reserved: seq<Range>) {
    && (forall i :: 0 <= i < |reserved| ==> reserved[i].size > 0)
    && (forall i, j :: 0 <= i < j < |reserved| ==> Disjoint(reserved[i], reserved[j]))
  }

  /** The reservation may follow the others. */
  ghost predicate Follows(reserved: seq<Range>, r: Range) {
    r.size > 0 && forall i :: 0 <= i < |reserved| ==> Disjoint(reserved[i], r)
  }

  /** The block is what is left of a reservation, none of it issued. */
  ghost predicate Whole(reserved: seq<Range>, issued: seq<Oid>, b: Block) {
    && b.first <= b.next <= b.last
    && Range(b.first, b.last - b.first + 1) in reserved
    && (forall oid :: oid in issued ==> oid < b.next || oid > b.last || oid < b.first)
  }

  /** Blocks waiting to be used, and those in use by transactions. */
  ghost predicate Kept(reserved: seq<Range>, issued: seq<Oid>, waiting: seq<Block>, current: map<TxId, Block>) {
    && (forall i :: 0 <= i < |waiting| ==> Whole(reserved, issued, waiting[i]))
    && (forall t :: t in current ==> Whole(reserved, issued, current[t]))
    && (forall i, j :: 0 <= i < j < |waiting| ==> waiting[i].first != waiting[j].first)
    && (forall i, t :: 0 <= i < |waiting| && t in current ==> waiting[i].first != current[t].first)
    && (forall t, u :: t in current && u in current && t != u ==> current[t].first != current[u].first)
  }

  /** No id was issued twice, and each lies in a reservation. */
  ghost predicate Unique(reserved: seq<Range>, issued: seq<Oid>) {
    && (forall i, j :: 0 <= i < j < |issued| ==> issued[i] != issued[j])
    && (forall i :: 0 <= i < |issued| ==> Reserved(reserved, issued[i]))
  }

  ghost predicate Reserved(reserved: seq<Range>, oid: Oid) {
    exists i :: 0 <= i < |reserved| && InRange(reserved[i], oid)
  }

  /** Two blocks of different reservations have no id in common. */
  lemma BlocksApart(reserved: seq<Range>, issued: seq<Oid>, b: Block, c: Block, oid: Oid)
    requires Separate(reserved) && Whole(reserved, issued, b) && Whole(reserved, issued, c) && b.first != c.first
    requires b.first <= oid <= b.last
    ensures oid < c.first || oid > c.last
  {
    var r, s := Range(b.first, b.last - b.first + 1), Range(c.first, c.last - c.first + 1);
    var i :| 0 <= i < |reserved| && reserved[i] == r;
    var j :| 0 <= j < |reserved| && reserved[j] == s;
    assert i < j || j < i;
  }

  lemma WholeAfterOther(reserved: seq<Range>, issued: seq<Oid>, b: Block, c: Block)
    requires Separate(reserved) && Whole(reserved, issued, b) && Whole(reserved, issued, c) && b.first != c.first
    ensures Whole(reserved, issued + [b.next], c)
  {
    BlocksApart(reserved, issued, b, c, b.next);
  }

  /** Issuing the next id of a transaction's block keeps ids unique; the block stays, or goes
      if that was its last. */
  lemma IssueKeeps(reserved: seq<Range>, issued: seq<Oid>, waiting: seq<Block>, current: map<TxId, Block>, t: TxId)
    requires Separate(reserved) && Kept(reserved, issued, waiting, current) && Unique(reserved, issued) && t in current
    ensures var b := current[t];
            && b.next !in issued && Unique(reserved, issued + [b.next])
            && Kept(reserved, issued + [b.next], waiting, if b.next + 1 > b.last then current - {t} else current[t := b.(next := b.next + 1)])
  {
    var b := current[t];
    var issued' := issued + [b.next];
    forall i | 0 <= i < |waiting|
      ensures Whole(reserved, issued', waiting[i])
    {
      WholeAfterOther(reserved, issued, b, waiting[i]);
    }
    forall u | u in current && u != t
      ensures Whole(reserved, issued', current[u])
    {
      WholeAfterOther(reserved, issued, b, current[u]);
    }
    assert Whole(reserved, issued, b);
    var r := Range(b.first, b.last - b.first + 1);
    var k :| 0 <= k < |reserved| && reserved[k] == r;
    assert InRange(reserved[k], b.next);
  }

  /** A new reservation leaves everything as it is. */
  lemma ReserveKeeps(reserved: seq<Range>, issued: seq<Oid>, waiting: seq<Block>, current: map<TxId, Block>, r: Range)
    requires Separate(reserved) && Kept(reserved, issued, waiting, current) && Unique(reserved, issued) && Follows(reserved, r)
    ensures Separate(reserved + [r]) && Kept(reserved + [r], issued, waiting, current) && Unique(reserved + [r], issued)
    ensures Whole(reserved + [r], issued, Opened(r))
    ensures forall i :: 0 <= i < |waiting| ==> waiting[i].first != r.start
    ensures forall t :: t in current ==> current[t].first != r.start
  {
    var reserved' := reserved + [r];
    assert reserved'[|reserved|] == r;
    forall b: Block | Whole(reserved, issued, b)
      ensures Whole(reserved', issued, b) && b.first != r.start
    {
      var i :| 0 <= i < |reserved| && reserved[i] == Range(b.first, b.last - b.first + 1);
      assert reserved'[i] == reserved[i] && Disjoint(reserved[i], r);
    }
    forall i | 0 <= i < |issued|
      ensures Reserved(reserved', issued[i]) && !InRange(r, issued[i])
    {
      assert Reserved(reserved, issued[i]);
      var k :| 0 <= k < |reserved| && InRange(reserved[k], issued[i]);
      assert reserved'[k] == reserved[k] && Disjoint(reserved[k], r);
    }
  }

  lemma TakeUpKeeps(reserved: seq<Range>, issued: seq<Oid>, waiting: seq<Block>, current: map<TxId, Block>, t: TxId, b: Block)
    requires Kept(reserved, issued, waiting, current) && Whole(reserved, issued, b) && t !in current
    requires forall i :: 0 <= i < |waiting| ==> waiting[i].first != b.first
    requires forall u :: u in current ==> current[u].first != b.first
    ensures Kept(reserved, issued, waiting, current[t := b])
  {
    hide Whole;
  }

  lemma SeparateBefore(reserved: seq<Range>, r: Range)
    ensures Separate(reserved + [r]) <==> Separate(reserved) && Follows(reserved, r)
  {
    var all := reserved + [r];
    assert all[|reserved|] == r && forall i :: 0 <= i < |reserved| ==> all[i] == reserved[i];
    if Separate(all) {
      forall i | 0 <= i < |reserved|
        ensures Disjoint(reserved[i], r)
      {
        assert Disjoint(all[i], all[|reserved|]);
      }
    }
  }

  lemma LastIsUnique(reserved: seq<Range>, issued: seq<Oid>, oid: Oid)
    requires Unique(reserved, issued + [oid])
    ensures oid !in issued && Reserved(reserved, oid)
  {
    var all := issued + [oid];
    assert all[|issued|] == oid && forall i :: 0 <= i < |issued| ==> all[i] == issued[i];
  }

  // An application's ids

  /** Blocks to use before reserving more, the block of each transaction, and what has been
      reserved and issued so far. */
  datatype Pool = Pool(waiting: seq<Block>, current: map<TxId, Block>, reserved: seq<Range>, issued: seq<Oid>)

  const EMPTY_POOL: Pool := Pool([], map[], [], [])

  /** As long as no reservation is empty and no two overlap, blocks keep apart and no id has
      been issued twice. */
  ghost predicate Sound(p: Pool) {
    Separate(p.reserved) ==> Kept(p.reserved, p.issued, p.waiting, p.current) && Unique(p.reserved, p.issued)
  }

  /** The transaction gets a block that was waiting, or a new reservation if one is offered. */
  function Supplied(p: Pool, t: TxId, offer: Option<Range>): Pool {
    if p.waiting != [] then p.(waiting := p.waiting[1..], current := p.current[t := p.waiting[0]])
    else if offer.Some? then p.(current := p.current[t := Opened(offer.value)], reserved := p.reserved + [offer.value])
    else p
  }

  /** The next id of the transaction's block is issued; the block goes if that was its last. */
  function Issued(p: Pool, t: TxId): Pool
    requires t in p.current
  {
    var b := p.current[t];
    p.(issued := p.issued + [b.next],
       current := if b.next + 1 > b.last then p.current - {t} else p.current[t := b.(next := b.next + 1)])
  }

  /** A transaction asks for an id: it is supplied with a block if it has none, and again if
      the id was the last of its block. */
  function Asked(p: Pool, t: TxId, offer: Option<Range>, another: Option<Range>): (Pool, Option<Oid>) {
    var q := if t in p.current then p else Supplied(p, t, offer);
    if t !in q.current then (q, None)
    else
      var r := Issued(q, t);
      var u := if t in r.current then r else Supplied(r, t, another);
      (u, if t in u.current then Some(q.current[t].next) else None)
  }

  function Ended(p: Pool, t: TxId): Pool {
    p.(current := p.current - {t})
  }

  lemma SuppliedIsSound(p: Pool, t: TxId, offer: Option<Range>)
    requires Sound(p) && t !in p.current
    ensures Sound(Supplied(p, t, offer))
  {
    hide Separate, Unique, Whole, Follows;
    if p.waiting != [] {
      if Separate(p.reserved) {
        TakeUpKeeps(p.reserved, p.issued, p.waiting[1..], p.current, t, p.waiting[0]);
      }
    } else if offer.Some? {
      var r := offer.value;
      SeparateBefore(p.reserved, r);
      if Separate(p.reserved + [r]) {
        ReserveKeeps(p.reserved, p.issued, p.waiting, p.current, r);
        TakeUpKeeps(p.reserved + [r], p.issued, p.waiting, p.current, t, Opened(r));
      }
    }
  }

  lemma IssuedIsSound(p: Pool, t: TxId)
    requires Sound(p) && t in p.current
    ensures Sound(Issued(p, t))
  {
    if Separate(p.reserved) {
      IssueKeeps(p.reserved, p.issued, p.waiting, p.current, t);
    }
  }

  /** Asking for an id keeps the pool sound. The id given is the last issued and, unless some
      reservation was empty or overlapped another, had not been issued before. */
  lemma AskedIsSound(p: Pool, t: TxId, offer: Option<Range>, another: Option<Range>)
    requires Sound(p)
    ensures var (q, oid) := Asked(p, t, offer, another);
            && Sound(q)
            && (oid.Some? ==> q.issued == p.issued + [oid.value])
            && (oid.Some? && Separate(q.reserved) ==> oid.value !in p.issued && Reserved(q.reserved, oid.value))
  {
    var q := if t in p.current then p else Supplied(p, t, offer);
    if t !in p.current {
      SuppliedIsSound(p, t, offer);
    }
    if t in q.current {
      IssuedIsSound(q, t);
      var r := Issued(q, t);
      if t !in r.current {
        SuppliedIsSound(r, t, another);
      }
      hide Sound, Unique, Separate, Reserved;
      var (u, oid) := Asked(p, t, offer, another);
      if oid.Some? && Separate(u.reserved) {
        SoundIsUnique(u);
        LastIsUnique(u.reserved, p.issued, oid.value);
      }
    }
  }

  lemma SoundIsUnique(p: Pool)
    requires Sound(p) && Separate(p.reserved)
    ensures Unique(p.reserved, p.issued)
  {
  }

  /** The block a transaction's next id comes from: its own, or the first waiting, or the one
      offered. */
  function NextBlock(current: map<TxId, Block>, waiting: seq<Block>, t: TxId, offer: Option<Range>): Option<Block> {
    if t in current then Some(current[t])
    else if waiting != [] then Some(waiting[0])
    else if offer.Some? then Some(Block(offer.value.start, offer.value.start, offer.value.start + offer.value.size - 1))
    else None
  }

  /** A block is waiting beside the one the id comes from. */
  predicate Spare(current: map<TxId, Block>, waiting: seq<Block>, t: TxId) {
    |waiting| > if t in current then 0 else 1
  }

  /** The id a transaction is due: the next of its block, if it has one or can be given one, and,
      when that id is the last of the block, if another block can be had. */
  function DueId(current: map<TxId, Block>, waiting: seq<Block>, t: TxId, offer: Option<Range>, another: Option<Range>): Option<Oid> {
    var b := NextBlock(current, waiting, t, offer);
    if b.Some? && (b.value.next < b.value.last || Spare(current, waiting, t) || another.Some?) then Some(b.value.next) else None
  }

  /** An id is given exactly when one is due, and it is that one. */
  lemma GivenIsDue(p: Pool, t: TxId, offer: Option<Range>, another: Option<Range>)
    ensures Asked(p, t, offer, another).1 == DueId(p.current, p.waiting, t, offer, another)
    ensures Asked(p, t, offer, another).0.issued == p.issued + if NextBlock(p.current, p.waiting, t, offer).Some? then [NextBlock(p.current, p.waiting, t, offer).value.next] else []
  {
  }

  /** A transaction that is offered a reservation and asks as often as it has ids, the only one
      to ask, is issued exactly those ids in order. */
  lemma {:induction false} ReservationIsIssuedInOrder(t: TxId, r: Range, n: nat) returns (events: seq<Event>)
    requires n <= r.size && r.size > 0
    ensures |events| == n && forall i :: 0 <= i < n ==> events[i] == Ask(t, Some(r), None)
    ensures After(events).issued == seq(n, i => r.start + i) && After(events).waiting == []
    ensures n == 0 ==> After(events) == EMPTY_POOL
    ensures 0 < n < r.size ==> After(events).current == map[t := Block(r.start, r.start + n, r.start + r.size - 1)]
  {
    if n == 0 {
      events := [];
    } else {
      var before := ReservationIsIssuedInOrder(t, r, n - 1);
      events := before + [Ask(t, Some(r), None)];
      assert events[..n - 1] == before;
      assert seq(n, i => r.start + i) == seq(n - 1, i => r.start + i) + [r.start + n - 1];
      GivenIsDue(After(before), t, Some(r), None);
    }
  }

  lemma EndedIsSound(p: Pool, t: TxId)
    requires Sound(p)
    ensures Sound(Ended(p, t))
  {
    hide Separate, Unique, Whole;
  }

  datatype Event = Ask(tx: TxId, offer: Option<Range>, another: Option<Range>) | End(tx: TxId)

  /** The pool after any transactions have asked for ids and ended, in any order. */
  function After(events: seq<Event>): Pool {
    if events == [] then EMPTY_POOL
    else
      var p := After(events[..|events| - 1]);
      match events[|events| - 1]
      case Ask(t, offer, another) => Asked(p, t, offer, another).0
      case End(t) => Ended(p, t)
  }

  /** Whatever transactions run side by side and however they end: if no reservation was empty
      and no two overlapped, no id was issued twice and each lies in a reservation. */
  lemma {:induction false} NoIdIsIssuedTwice(events: seq<Event>)
    ensures Sound(After(events))
    ensures Separate(After(events).reserved) ==> Unique(After(events).reserved, After(events).issued)
  {
    if events != [] {
      hide Sound, Separate, Unique;
      var n := |events| - 1;
      NoIdIsIssuedTwice(events[..n]);
      var p := After(events[..n]);
      match events[n] {
        case Ask(t, offer, another) => AskedIsSound(p, t, offer, another);
        case End(t) => EndedIsSound(p, t);
      }
      if Separate(After(events).reserved) {
        SoundIsUnique(After(events));
      }
    }
  }

  /** An empty reservation issues an id all the same, and a reservation disjoint from it issues
      the same id again. */
  lemma EmptyReservationIssuesTwice(start: Oid) returns (events: seq<Event>)
    ensures After(events).issued == [start, start]
    ensures After(events).reserved == [Range(start, 0), Range(start, 1), Range(start + 1, 1)]
    ensures forall i, j :: 0 <= i < j < 3 ==> Disjoint(After(events).reserved[i], After(events).reserved[j])
  {
    var e1, e2 := Ask(1, Some(Range(start, 0)), Some(Range(start, 1))), Ask(1, None, Some(Range(start + 1, 1)));
    events := [e1, e2];
    assert events[..1] == [e1] && [e1][..0] == [];
    var p1 := Asked(EMPTY_POOL, 1, e1.offer, e1.another);
    assert p1.0.issued == [start] && p1.0.waiting == [] && p1.0.current[1] == Block(start, start, start);
    assert After([e1]) == p1.0;
  }

  /** The pool in memory. A reservation is made by the server, or fails; it is told to the
      methods that may need one. */
  class OidPool {
    var waiting: seq<Block>
    var current: map<TxId, Block>
    ghost var reserved: seq<Range>
    ghost var issued: seq<Oid>

    ghost function View(): Pool
      reads this
    {
      Pool(waiting, current, reserved, issued)
    }

    constructor ()
      ensures View() == EMPTY_POOL
    {
      waiting, current, reserved, issued := [], map[], [], [];
    }

    /** Gives a transaction without a block one that was waiting, or a new reservation. */
    method Reserve(t: TxId, offer: Option<Range>)
      modifies this`waiting, this`current, this`reserved
      ensures View() == Supplied(old(View()), t, offer)
    {
      if waiting != [] {
        current, waiting := current[t := waiting[0]], waiting[1..];
      } else if offer.Some? {
        reserved := reserved + [offer.value];
        current := current[t := Opened(offer.value)];
      }
    }

    /** The next id of a transaction, reserving a block when it has none and again as soon as
        its block is used up. When that last reservation fails no id is given, and the one
        taken is not seen again. */
    method NextObjectId(t: TxId, offer: Option<Range>, another: Option<Range>) returns (oid: Option<Oid>)
      requires Sound(View())
      modifies this
      ensures (View(), oid) == Asked(old(View()), t, offer, another) && Sound(View())
      ensures oid == DueId(old(current), old(waiting), t, offer, another)
      ensures oid.Some? && Separate(reserved) ==> oid.value !in old(issued) && Reserved(reserved, oid.value)
    {
      GivenIsDue(View(), t, offer, another);
      hide Sound, Separate, Reserved, DueId;
      AskedIsSound(View(), t, offer, another);
      if t !in current {
        Reserve(t, offer);
      }
      if t !in current {
        return None;
      }
      var b := current[t];
      ghost var supplied := View();
      issued := issued + [b.next];
      current := current[t := b.(next := b.next + 1)];
      if b.next + 1 > b.last {
        current := current - {t};
        assert current == supplied.current - {t} && View() == Issued(supplied, t);
        Reserve(t, another);
        if t !in current {
          return None;
        }
      }
      oid := Some(b.next);
    }

    /** The transaction ends, by commit or rollback; the rest of its block is given up. */
    method End(t: TxId)
      requires Sound(View())
      modifies this`current
      ensures View() == Ended(old(View()), t) && Sound(View())
      ensures t !in current && forall u :: u != t ==> (u in current <==> u in old(current)) && (u in current ==> current[u] == old(current)[u])
    {
      EndedIsSound(View(), t);
      current := current - {t};
    }
  }
}
