/**
 Changesets from the client to the server's reader: written, framed, cut out of the stream
 and read back.
 */
module Messages {
  import opened Keys
  import opened Wrappers
  import opened Codec
  import opened Framing
  import Requests

  /** A message's prefix is its payload's length as every other number is written, and the
      router hands every request for a lock to the data server. */
  lemma RequestsAreForData(r: Requests.Request)
    ensures var f := Format(Requests.RequestOpcode(r), Requests.WriteRequest(r));
            && IsFor(f, Data)
            && f == WriteShort(|Requests.WriteRequest(r)|) + [Requests.RequestOpcode(r)] + Requests.WriteRequest(r)
    ensures Requests.RequestOpcode(r) == if r.ValueRequest? then REQUEST_VALUE else REQUEST_NEXT_KEY
  {
  }

  lemma ChangeHasFiveBytes(c: Change)
    ensures |WriteChange(c)| >= 5
  {
  }

  /** The limit on the payload leaves no room for more changes than the count can express. */
  lemma {:induction false} ChangesTakeFiveBytesEach(cs: seq<Change>)
    ensures |WriteChanges(cs)| >= 5 * |cs|
  {
    if cs != [] {
      ChangeHasFiveBytes(cs[0]);
      ChangesTakeFiveBytesEach(cs[1..]);
    }
  }

  predicate AllSendable(cs: seq<Change>) {
    forall i :: 0 <= i < |cs| ==> SendableChange(cs[i])
  }

  /** A changeset within the client's limit arrives as one message, whatever follows it in the
      stream, and the server reads what the client wrote exactly when there is at least one
      change and each can be sent. */
  lemma ChangesetArrivesIff(c: Changeset, rest: Bytes)
    requires NulFree(c.app) && forall i :: 0 <= i < |c.changes| ==> NulFree(c.changes[i].store)
    requires |WriteChangeset(c)| <= MAX_MESSAGE_LENGTH
    ensures var f := Format(SUBMIT_CHANGESET, WriteChangeset(c));
            && Frames(f + rest) == [f] + Frames(rest) && IsFor(f, Data)
            && (ReadChangeset(f[3..]) == Some(Decoded(c.app, Present(c.changes))) <==> c.changes != [] && AllSendable(c.changes))
  {
    hide NulFree, SendableChange, ReadChangeset, Frames;
    var payload := WriteChangeset(c);
    var f := Format(SUBMIT_CHANGESET, payload);
    SentIsReceived(SUBMIT_CHANGESET, payload, rest);
    assert f[3..] == payload && f[2] == SUBMIT_CHANGESET;
    ChangesTakeFiveBytesEach(c.changes);
    ChangesetRoundTripIff(c);
  }

  /** The client's submission: sent if its byte form is within the limit, refused if not. What
      is sent is read by the server as it was, if it can be sent at all. */
  method SubmitChangeset(c: Changeset) returns (message: Option<Bytes>)
    requires NulFree(c.app) && forall i :: 0 <= i < |c.changes| ==> NulFree(c.changes[i].store)
    ensures message.Some? <==> |WriteChangeset(c)| <= MAX_MESSAGE_LENGTH
    ensures message.Some? ==> Frames(message.value) == [message.value] && IsFor(message.value, Data)
    ensures message.Some? && c.changes != [] && AllSendable(c.changes) ==> ReadChangeset(message.value[3..]) == Some(Decoded(c.app, Present(c.changes)))
  {
    hide NulFree, SendableChange, ReadChangeset, Frames, WriteChangeset;
    var payload := WriteChangesetBytes(c);
    if |payload| <= MAX_MESSAGE_LENGTH {
      message := Some(Format(SUBMIT_CHANGESET, payload));
      ChangesetArrivesIff(c, []);
      EmptyHasNone();
      assert message.value + [] == message.value && [message.value] + [] == [message.value];
    } else {
      message := None;
    }
  }
}
