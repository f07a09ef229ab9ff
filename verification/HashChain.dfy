/** The in-memory audit trail and its hash chain. `hash` stands for SHA-256 of the JSON text
    of the hashed fields. */
module HashChain {
  import opened Wrappers

  /** A JavaScript argument that may be missing. */
  datatype Arg = Undefined | NullArg | Text(s: string)

  datatype Call = Call(eventType: string, actorId: Arg, examId: Arg, metadata: string)

  /** The hashed fields: the arguments as given, and the previous hash. */
  datatype Body = Body(call: Call, prevHash: string)

  datatype Event = Event(
    eventId: string, eventType: string, examId: Arg, entityHash: string, prevHash: string,
    timestamp: string, actorId: Arg, metadata: string, txId: string)

  const GENESIS := "0000000000000000000000000000000000000000000000000000000000000000"

  predicate Truthy(a: Arg) { a.Text? && a.s != "" }

  /** `a || fallback` */
  function OrElse(a: Arg, fallback: string): Arg {
    if Truthy(a) then a else Text(fallback)
  }

  // ---------------------------------------------------------------- the chain of hashes

  /** The head after a sequence of calls. */
  function Head(hash: Body -> string, calls: seq<Call>): string {
    if calls == [] then GENESIS
    else hash(Body(calls[|calls| - 1], Head(hash, calls[..|calls| - 1])))
  }

  /** The body hashed by the i-th call. */
  function BodyAt(hash: Body -> string, calls: seq<Call>, i: nat): Body
    requires i < |calls|
  {
    Body(calls[i], Head(hash, calls[..i]))
  }

  /** Call i of one log and call j of the other hash different bodies alike, or one of them
      hashes to the genesis value. */
  predicate ClashAt(hash: Body -> string, a: seq<Call>, b: seq<Call>, i: nat, j: nat) {
    || (i < |a| && j < |b| && BodyAt(hash, a, i) != BodyAt(hash, b, j)
      && hash(BodyAt(hash, a, i)) == hash(BodyAt(hash, b, j)))
    || (i < |a| && hash(BodyAt(hash, a, i)) == GENESIS)
    || (j < |b| && hash(BodyAt(hash, b, j)) == GENESIS)
  }

  /** Two logs with the same head are the same calls throughout, or clash at two of them. */
  lemma {:induction false} HeadDeterminesLog(hash: Body -> string, a: seq<Call>, b: seq<Call>) returns (i: nat, j: nat)
    requires Head(hash, a) == Head(hash, b)
    ensures a == b || ClashAt(hash, a, b, i, j)
    decreases |a|
  {
    i, j := if a == [] then 0 else |a| - 1, if b == [] then 0 else |b| - 1;
    if a != [] && b != [] && BodyAt(hash, a, i) == BodyAt(hash, b, j) {
      var m, n := i, j;
      i, j := HeadDeterminesLog(hash, a[..m], b[..n]);
      assert a == a[..m] + [a[m]] && b == b[..n] + [b[n]];
      assert i < m ==> a[..m][..i] == a[..i];
      assert j < n ==> b[..n][..j] == b[..j];
    }
  }

  // ---------------------------------------------------------------- the log

  /** What comes from outside with each call. */
  datatype Mark = Mark(eventId: string, timestamp: string, txId: string)

  /** What is stored for a call: the hash of the arguments as given, the arguments with their
      defaults. */
  function Stored(hash: Body -> string, call: Call, prevHash: string, mark: Mark): Event {
    Event(mark.eventId, call.eventType, OrElse(call.examId, ""), hash(Body(call, prevHash)), prevHash,
          mark.timestamp, OrElse(call.actorId, "system"), call.metadata, mark.txId)
  }

  /** The hashed fields as the verifier rebuilds them from a stored event. */
  function Rebuilt(e: Event): Body {
    Body(Call(e.eventType, e.actorId, e.examId, e.metadata), e.prevHash)
  }

  predicate Verifies(hash: Body -> string, e: Event) {
    hash(Rebuilt(e)) == e.entityHash
  }

  /** The arguments that the defaults leave as they are. */
  predicate NothingDefaulted(call: Call) {
    Truthy(call.actorId) && call.examId.Text?
  }

  /** A stored event passes verification exactly when its call had a non-empty actor and a
      string exam id, or the body hashed and the different one rebuilt hash alike. */
  lemma VerifiesExactly(hash: Body -> string, call: Call, prevHash: string, eventId: string, timestamp: string,
    txId: string)
    ensures var e := Stored(hash, call, prevHash, Mark(eventId, timestamp, txId));
            && (Rebuilt(e) == Body(call, prevHash) <==> NothingDefaulted(call))
            && (Verifies(hash, e) <==>
              NothingDefaulted(call)
                || (Rebuilt(e) != Body(call, prevHash) && hash(Rebuilt(e)) == hash(Body(call, prevHash))))
  {
    hide GENESIS;
    var e := Stored(hash, call, prevHash, Mark(eventId, timestamp, txId));
    assert Rebuilt(e) ==
      Body(Call(call.eventType, OrElse(call.actorId, "system"), OrElse(call.examId, ""), call.metadata), prevHash);
  }

  /** A call passes whatever the hash exactly when nothing of it is defaulted; otherwise the
      hash that only tells its body from all others makes it fail. */
  lemma DefaultedFails(call: Call, prevHash: string, eventId: string, timestamp: string, txId: string)
    ensures NothingDefaulted(call) <==>
      forall hash :: Verifies(hash, Stored(hash, call, prevHash, Mark(eventId, timestamp, txId)))
  {
    forall hash
      ensures NothingDefaulted(call) ==> Verifies(hash, Stored(hash, call, prevHash, Mark(eventId, timestamp, txId)))
    {
      VerifiesExactly(hash, call, prevHash, eventId, timestamp, txId);
    }
    if !NothingDefaulted(call) {
      var hash := (b: Body) => if b == Body(call, prevHash) then "a" else "b";
      VerifiesExactly(hash, call, prevHash, eventId, timestamp, txId);
      assert !Verifies(hash, Stored(hash, call, prevHash, Mark(eventId, timestamp, txId)));
    }
  }

  /** Each event is the stored form of its call, made when the head was the one of the calls
      before it. */
  ghost predicate Chain(hash: Body -> string, events: seq<Event>, calls: seq<Call>) {
    && |events| == |calls|
    && forall i :: 0 <= i < |calls| ==> IsStored(hash, events[i], calls[i], Head(hash, calls[..i]))
  }

  predicate IsStored(hash: Body -> string, e: Event, call: Call, prevHash: string) {
    e == Stored(hash, call, prevHash, Mark(e.eventId, e.timestamp, e.txId))
  }

  lemma ChainAppend(hash: Body -> string, events: seq<Event>, calls: seq<Call>, e: Event, call: Call)
    requires Chain(hash, events, calls) && IsStored(hash, e, call, Head(hash, calls))
    ensures Chain(hash, events + [e], calls + [call]) && Head(hash, calls + [call]) == e.entityHash
  {
    hide Stored;
    var more := calls + [call];
    assert more[..|calls|] == calls;
    forall i | 0 <= i < |more|
      ensures IsStored(hash, (events + [e])[i], more[i], Head(hash, more[..i]))
    {
      if i < |calls| { assert more[..i] == calls[..i]; }
    }
    HeadStep(hash, calls, call, e);
  }

  lemma HeadStep(hash: Body -> string, calls: seq<Call>, call: Call, e: Event)
    requires IsStored(hash, e, call, Head(hash, calls))
    ensures Head(hash, calls + [call]) == e.entityHash
  {
    assert (calls + [call])[..|calls|] == calls;
  }

  /** `find`: the first event with an id. */
  ghost predicate IsFirst(events: seq<Event>, i: int, eventId: string) {
    0 <= i < |events| && events[i].eventId == eventId && forall j :: 0 <= j < i ==> events[j].eventId != eventId
  }

  class AuditTrail {
    const hash: Body -> string
    var auditEvents: seq<Event>
    var auditHashChain: string
    /** The calls made so far. */
    ghost var calls: seq<Call>

    /** The events chain up, and the head is the last hash. */
    ghost predicate Valid()
      reads this
    {
      Chain(hash, auditEvents, calls) && auditHashChain == Head(hash, calls)
    }

    constructor (hash: Body -> string)
      ensures Valid() && calls == [] && auditHashChain == GENESIS && this.hash == hash
    {
      this.hash := hash;
      auditEvents, auditHashChain, calls := [], GENESIS, [];
    }

    /** `addAuditEvent`; ids and the time come from outside. */
    method AddAuditEvent(eventType: string, actorId: Arg, examId: Arg, metadata: string, eventId: string,
      timestamp: string, txId: string) returns (event: Event)
      requires Valid()
      modifies this
      ensures Valid() && calls == old(calls) + [Call(eventType, actorId, examId, metadata)]
      ensures auditEvents == old(auditEvents) + [event]
      ensures event ==
        Stored(hash, Call(eventType, actorId, examId, metadata), old(auditHashChain), Mark(eventId, timestamp, txId))
      ensures auditHashChain == event.entityHash
    {
      var prevHash := auditHashChain;
      var entityHash := hash(Body(Call(eventType, actorId, examId, metadata), prevHash));
      auditHashChain := entityHash;
      event := Event(eventId, eventType, OrElse(examId, ""), entityHash, prevHash, timestamp,
        OrElse(actorId, "system"), metadata, txId);
      ChainAppend(hash, auditEvents, calls, event, Call(eventType, actorId, examId, metadata));
      auditEvents := auditEvents + [event];
      calls := calls + [Call(eventType, actorId, examId, metadata)];
    }

    /** The verify endpoint: the first event with the id, `None` when there is none. */
    method Verify(eventId: string) returns (verified: Option<bool>)
      requires Valid()
      ensures verified.None? <==> forall i :: 0 <= i < |auditEvents| ==> auditEvents[i].eventId != eventId
      ensures verified.Some? ==>
        exists i :: IsFirst(auditEvents, i, eventId) && verified.value == Verifies(hash, auditEvents[i])
      ensures verified.Some? && (forall i :: 0 <= i < |calls| ==> NothingDefaulted(calls[i])) ==> verified.value
    {
      var i := 0;
      while i < |auditEvents|
        invariant 0 <= i <= |auditEvents| && forall j :: 0 <= j < i ==> auditEvents[j].eventId != eventId
      {
        var e := auditEvents[i];
        if e.eventId == eventId {
          var expectedHash := hash(Rebuilt(e));
          assert IsFirst(auditEvents, i, eventId);
          VerifiesExactly(hash, calls[i], e.prevHash, e.eventId, e.timestamp, e.txId);
          return Some(expectedHash == e.entityHash);
        }
        i := i + 1;
      }
      verified := None;
    }

    /** The links of a valid trail. */
    lemma Linked(i: nat)
      requires Valid() && i < |auditEvents|
      ensures auditEvents[i].prevHash == if i == 0 then GENESIS else auditEvents[i - 1].entityHash
      ensures auditHashChain == auditEvents[|auditEvents| - 1].entityHash
    {
      assert calls[..|calls|] == calls;
      if i > 0 {
        assert calls[..i][..i - 1] == calls[..i - 1];
      }
    }
  }

  ghost predicate SameFields(x: seq<Event>, y: seq<Event>) {
    && |x| == |y|
    && forall i :: 0 <= i < |x| ==> Rebuilt(x[i]) == Rebuilt(y[i]) && x[i].entityHash == y[i].entityHash
  }

  /** Two trails with the same head hold the same number of events with the same hashed
      fields, in the same order, or clash at two of their calls. */
  lemma SameHeadSameTrail(a: AuditTrail, b: AuditTrail) returns (i: nat, j: nat)
    requires a.Valid() && b.Valid() && a.hash == b.hash && a.auditHashChain == b.auditHashChain
    ensures (a.calls == b.calls && SameFields(a.auditEvents, b.auditEvents)) || ClashAt(a.hash, a.calls, b.calls, i, j)
  {
    i, j := HeadDeterminesLog(a.hash, a.calls, b.calls);
  }
}
