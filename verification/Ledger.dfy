/** The audit chaincode: events under a primary key and three composite-key indexes, and the
    range queries over them. JSON encoding of stored events is not modelled here. */
module Ledger {
  import opened Order
  import opened Sequences
  import opened Wrappers

  datatype Event = Event(
    eventId: string, eventType: string, examId: string, entityHash: string, timestamp: string,
    actorId: string, actorOrg: string, metadata: string, txId: string)

  datatype LedgerError =
    | InvalidEventType | ExamIdRequired | EntityHashRequired | EntityHashInvalid | MetadataInvalid | InvalidKey

  const NUL := '\0'
  const SEP: string := [NUL]

  const VALID_EVENT_TYPES := ["question_create", "encrypt", "key_generate", "distribute", "key_release",
                              "decrypt", "submit", "grade", "scribe_action", "emergency_release"]

  /** A string without the separator. */
  predicate Plain(s: string) { NUL !in s }

  // ---------------------------------------------------------------- composite keys

  /** The key prefix of an object type, and of a first attribute under it. */
  function TypePrefix(objectType: string): string { SEP + (objectType + SEP) }
  function Partial(objectType: string, a: string): string { SEP + (objectType + (SEP + (a + SEP))) }

  /** `createCompositeKey(objectType, [a, b])` */
  function Composite(objectType: string, a: string, b: string): string {
    SEP + (objectType + (SEP + (a + (SEP + (b + SEP)))))
  }

  /** The first attribute of `splitCompositeKey`: up to the separator. */
  function UntilNul(s: string): (r: string)
    ensures Plain(r)
  {
    if s == "" || s[0] == NUL then "" else [s[0]] + UntilNul(s[1..])
  }

  lemma {:induction false} UntilNulOf(a: string, rest: string)
    requires Plain(a)
    ensures UntilNul(a + (SEP + rest)) == a
  {
    if a != "" {
      UntilNulOf(a[1..], rest);
      assert (a + (SEP + rest))[1..] == a[1..] + (SEP + rest);
    }
  }

  /** Two plain strings in front of a separator: equal, or neither is a prefix. */
  lemma Separated(a: string, x: string, b: string, y: string)
    requires Plain(a) && Plain(b)
    ensures a + (SEP + x) == b + (SEP + y) <==> a == b && x == y
    ensures b + SEP <= a + (SEP + x) <==> a == b
  {
    UntilNulOf(a, x);
    UntilNulOf(b, y);
    if a + (SEP + x) == b + (SEP + y) {
      assert x == (a + (SEP + x))[|a| + 1..];
      assert y == (b + (SEP + y))[|b| + 1..];
    }
    if b + SEP <= a + (SEP + x) {
      var rest := (a + (SEP + x))[|b| + 1..];
      assert a + (SEP + x) == b + (SEP + rest);
      UntilNulOf(b, rest);
    }
    if a == b {
      assert a + (SEP + x) == (a + SEP) + x;
    }
  }

  lemma CompositeInjective(t: string, a: string, b: string, u: string, c: string, d: string)
    requires Plain(t) && Plain(a) && Plain(b) && Plain(u) && Plain(c) && Plain(d)
    ensures Composite(t, a, b) == Composite(u, c, d) <==> t == u && a == c && b == d
  {
    var x, y := a + (SEP + (b + SEP)), c + (SEP + (d + SEP));
    Separated(t, x, u, y);
    Separated(a, b + SEP, c, d + SEP);
    Separated(b, "", d, "");
    assert b + (SEP + "") == b + SEP && d + (SEP + "") == d + SEP;
    if Composite(t, a, b) == Composite(u, c, d) {
      assert Composite(t, a, b)[1..] == t + (SEP + x);
      assert Composite(u, c, d)[1..] == u + (SEP + y);
    }
  }

  lemma PrefixCancel(p: string, a: string, b: string)
    ensures p + a <= p + b <==> a <= b
  {
    if p + a <= p + b {
      assert a == (p + a)[|p|..] && b[..|a|] == (p + b)[|p|..|p| + |a|];
    }
    if a <= b {
      assert b == a + b[|a|..];
      assert p + b == (p + a) + b[|a|..];
    }
  }

  /** A composite key matches a partial one exactly on its type and first attribute. */
  lemma PartialMatches(t: string, a: string, b: string, u: string, c: string)
    requires Plain(t) && Plain(a) && Plain(b) && Plain(u) && Plain(c)
    ensures Partial(u, c) <= Composite(t, a, b) <==> t == u && a == c
    ensures TypePrefix(u) <= Composite(t, a, b) <==> t == u
  {
    var x := a + (SEP + (b + SEP));
    Separated(t, x, u, x);
    Separated(a, b + SEP, c, b + SEP);
    assert Composite(t, a, b)[1..] == t + (SEP + x);
    assert TypePrefix(u)[1..] == u + SEP;
    if TypePrefix(u) <= Composite(t, a, b) {
      assert u + SEP == (t + (SEP + x))[..|u| + 1];
    }
    if t == u {
      assert Composite(t, a, b) == TypePrefix(t) + x;
      assert Partial(u, c) == TypePrefix(t) + (c + SEP);
      PrefixCancel(TypePrefix(t), c + SEP, x);
    }
    if Partial(u, c) <= Composite(t, a, b) {
      assert Partial(u, c) == TypePrefix(u) + (c + SEP);
      assert TypePrefix(u) == Composite(t, a, b)[..|TypePrefix(u)|];
    }
  }

  // ---------------------------------------------------------------- key order

  lemma {:induction false} LessAfter(p: string, a: string, b: string)
    ensures Less(p + a, p + b) <==> Less(a, b)
  {
    if p == "" {
      assert p + a == a && p + b == b;
    } else {
      LessAfter(p[1..], a, b);
      assert (p + a)[1..] == p[1..] + a && (p + b)[1..] == p[1..] + b;
    }
  }

  /** The separator sorts before every other character. */
  lemma {:induction false} LessBefore(a: string, x: string, b: string, y: string)
    requires Plain(b) && Less(a, b)
    ensures Less(a + (SEP + x), b + (SEP + y))
  {
    var k, l := a + (SEP + x), b + (SEP + y);
    if a == "" {
      assert k[0] == NUL && l[0] == b[0];
      assert b[0] in b;
    } else if a[0] == b[0] {
      LessBefore(a[1..], x, b[1..], y);
      assert k[1..] == a[1..] + (SEP + x) && l[1..] == b[1..] + (SEP + y);
    }
  }

  /** A part in front of a separator is compared first, the rest only when it is equal. */
  lemma PartOrder(a: string, x: string, c: string, y: string)
    requires Plain(a) && Plain(c)
    ensures Less(a + (SEP + x), c + (SEP + y)) <==> Less(a, c) || (a == c && Less(x, y))
  {
    LessTotal(a, c);
    if a == c {
      LessAfter(a, SEP + x, SEP + y);
      LessAfter(SEP, x, y);
      LessIrreflexive(a);
    } else if Less(a, c) {
      LessBefore(a, x, c, y);
    } else {
      LessBefore(c, y, a, x);
      LessTotal(a + (SEP + x), c + (SEP + y));
    }
  }

  /** Composite keys of one type are ordered by the first attribute, then by the second. */
  lemma KeyOrder(t: string, a: string, b: string, c: string, d: string)
    requires Plain(a) && Plain(b) && Plain(c) && Plain(d)
    ensures Less(Composite(t, a, b), Composite(t, c, d)) <==> Less(a, c) || (a == c && Less(b, d))
  {
    hide Less, Plain;
    LessIrreflexive("");
    var p := SEP + (t + SEP);
    var x, y := b + (SEP + ""), d + (SEP + "");
    assert Composite(t, a, b) == p + (a + (SEP + x));
    assert Composite(t, c, d) == p + (c + (SEP + y));
    LessAfter(p, a + (SEP + x), c + (SEP + y));
    PartOrder(a, x, c, y);
    PartOrder(b, "", d, "");
  }

  // ---------------------------------------------------------------- the world state

  type State = map<string, Event>

  const EXAM: string := "exam~event"
  const TYPE: string := "type~event"
  const TIME: string := "time~event"

  function ExamKey(e: Event): string { Composite(EXAM, e.examId, e.eventId) }
  function TypeKey(e: Event): string { Composite(TYPE, e.eventType, e.eventId) }
  function TimeKey(e: Event): string { Composite(TIME, e.timestamp, e.eventId) }

  /** The four writes of `recordEvent`. */
  function PutAll(s: State, e: Event): State {
    s[e.eventId := e][ExamKey(e) := e][TypeKey(e) := e][TimeKey(e) := e]
  }

  function StateOf(events: seq<Event>): State {
    if events == [] then map[] else PutAll(StateOf(events[..|events| - 1]), events[|events| - 1])
  }

  /** Ids and attributes that Fabric accepts in keys. */
  predicate Storable(e: Event) {
    e.eventId != "" && Plain(e.eventId) && Plain(e.eventType) && Plain(e.examId) && Plain(e.timestamp)
  }

  ghost predicate AllStorable(events: seq<Event>) {
    forall i :: 0 <= i < |events| ==> Storable(events[i])
  }

  ghost predicate DistinctIds(events: seq<Event>) {
    forall i, j :: 0 <= i < j < |events| ==> events[i].eventId != events[j].eventId
  }

  /** The two indexes the queries scan. */
  datatype Index = ByExam | ByTime

  function IndexName(x: Index): string { if x == ByExam then EXAM else TIME }
  function Attribute(x: Index, e: Event): string { if x == ByExam then e.examId else e.timestamp }
  function IndexKey(x: Index, e: Event): string { Composite(IndexName(x), Attribute(x, e), e.eventId) }

  lemma NamesPlain()
    ensures Plain(EXAM) && Plain(TYPE) && Plain(TIME) && EXAM != TYPE && TYPE != TIME && EXAM != TIME
  {
    assert EXAM[0] != TYPE[0] && EXAM[0] != TIME[0] && TYPE[1] != TIME[1];
  }

  /** What one event's four keys are, seen through an index. */
  lemma KeysOfEvent(x: Index, e: Event, f: Event)
    requires Storable(e) && Storable(f)
    ensures IndexKey(x, e) == ExamKey(f) <==> x == ByExam && e.eventId == f.eventId && e.examId == f.examId
    ensures IndexKey(x, e) == TimeKey(f) <==> x == ByTime && e.eventId == f.eventId && e.timestamp == f.timestamp
    ensures IndexKey(x, e) != TypeKey(f) && IndexKey(x, e) != f.eventId
  {
    hide Composite, Plain;
    NamesPlain();
    CompositeInjective(IndexName(x), Attribute(x, e), e.eventId, EXAM, f.examId, f.eventId);
    CompositeInjective(IndexName(x), Attribute(x, e), e.eventId, TIME, f.timestamp, f.eventId);
    CompositeInjective(IndexName(x), Attribute(x, e), e.eventId, TYPE, f.eventType, f.eventId);
    StartsWithNul(IndexName(x), Attribute(x, e), e.eventId, f.eventId);
  }

  lemma StartsWithNul(t: string, a: string, b: string, s: string)
    requires Plain(s) && s != ""
    ensures Composite(t, a, b) != s && !(TypePrefix(t) <= s) && !(Partial(t, a) <= s)
  {
    assert s[0] in s;
  }

  /** With distinct ids, every event is found under its index key. */
  lemma {:induction false} IndexHolds(x: Index, events: seq<Event>, i: nat)
    requires AllStorable(events) && DistinctIds(events) && i < |events|
    ensures IndexKey(x, events[i]) in StateOf(events) && StateOf(events)[IndexKey(x, events[i])] == events[i]
  {
    hide Composite, Plain;
    var n := |events| - 1;
    KeysOfEvent(x, events[i], events[n]);
    if i < n {
      IndexHolds(x, events[..n], i);
    }
  }

  /** A key of an index belongs to a recorded event. */
  lemma {:induction false} IndexOnly(x: Index, events: seq<Event>, k: string)
    requires AllStorable(events) && k in StateOf(events) && TypePrefix(IndexName(x)) <= k
    ensures exists i :: 0 <= i < |events| && k == IndexKey(x, events[i])
  {
    hide Composite, Plain, TypePrefix;
    var n := |events| - 1;
    var e := events[n];
    NamesPlain();
    PartialMatches(EXAM, e.examId, e.eventId, IndexName(x), "");
    PartialMatches(TYPE, e.eventType, e.eventId, IndexName(x), "");
    PartialMatches(TIME, e.timestamp, e.eventId, IndexName(x), "");
    EmptyPlain();
    StartsWithNul(IndexName(x), "", "", e.eventId);
    if k != IndexKey(x, e) {
      IndexOnly(x, events[..n], k);
      var i :| 0 <= i < n && k == IndexKey(x, events[..n][i]);
      assert events[i] == events[..n][i];
    }
  }

  lemma EmptyPlain()
    ensures Plain("")
  {}

  // ---------------------------------------------------------------- scans

  /** `getStateByPartialCompositeKey`: the keys with a prefix, in key order. */
  function Matching(s: State, prefix: string): set<string> {
    set k | k in s && prefix <= k
  }

  function Values(s: State, keys: seq<string>): (r: seq<Event>)
    requires forall i :: 0 <= i < |keys| ==> keys[i] in s
    ensures |r| == |keys| && forall i :: 0 <= i < |keys| ==> r[i] == s[keys[i]]
  {
    seq(|keys|, i requires 0 <= i < |keys| => s[keys[i]])
  }

  /** r lists exactly the recorded events with a property, each once. */
  ghost predicate Exactly(r: seq<Event>, events: seq<Event>, p: Event -> bool) {
    Distinct(r) && forall e :: e in r <==> e in events && p(e)
  }

  predicate Within(e: Event, startTime: string, endTime: string) {
    !Less(e.timestamp, startTime) && !Less(endTime, e.timestamp)
  }

  function OfExam(examId: string): Event -> bool { (e: Event) => e.examId == examId }

  function InRangeOf(startTime: string, endTime: string): Event -> bool { (e: Event) => Within(e, startTime, endTime) }

  /** A scan of an index finds each selected event once and nothing else; the keys are the
      events' own. */
  lemma ScanFinds(x: Index, events: seq<Event>, prefix: string, keys: seq<string>)
    requires AllStorable(events) && DistinctIds(events) && TypePrefix(IndexName(x)) <= prefix
    requires Sorts(keys, Matching(StateOf(events), prefix))
    ensures forall i :: 0 <= i < |keys| ==> keys[i] in StateOf(events)
    ensures forall i :: 0 <= i < |keys| ==> keys[i] == IndexKey(x, StateOf(events)[keys[i]])
    ensures Distinct(Values(StateOf(events), keys))
    ensures forall e :: e in Values(StateOf(events), keys) <==> e in events && prefix <= IndexKey(x, e)
  {
    hide Composite, StateOf, TypePrefix;
    var s := StateOf(events);
    forall i | 0 <= i < |keys|
      ensures keys[i] in s && keys[i] == IndexKey(x, s[keys[i]]) && s[keys[i]] in events && prefix <= keys[i]
    {
      assert keys[i] in ToSet(keys);
      PrefixTransitive(TypePrefix(IndexName(x)), prefix, keys[i]);
      IndexOnly(x, events, keys[i]);
      var j :| 0 <= j < |events| && keys[i] == IndexKey(x, events[j]);
      IndexHolds(x, events, j);
    }
    IncreasingDistinct(keys);
    var r := Values(s, keys);
    forall e | e in events && prefix <= IndexKey(x, e)
      ensures e in r
    {
      var j :| 0 <= j < |events| && events[j] == e;
      IndexHolds(x, events, j);
      assert IndexKey(x, e) in Matching(s, prefix);
      assert IndexKey(x, e) in ToSet(keys);
      var i :| 0 <= i < |keys| && keys[i] == IndexKey(x, e);
      assert r[i] == e;
    }
  }

  lemma PrefixTransitive(a: string, b: string, c: string)
    requires a <= b && b <= c
    ensures a <= c
  {}

  // ---------------------------------------------------------------- the sort by timestamp

  ghost predicate InTime(events: seq<Event>) {
    forall i, j :: 0 <= i < j < |events| ==> !Less(events[j].timestamp, events[i].timestamp)
  }

  /** Stable insertion behind all events that are not strictly later. */
  method InsertEvent(events: seq<Event>, e: Event) returns (r: seq<Event>)
    requires InTime(events)
    ensures InTime(r) && multiset(r) == multiset(events) + multiset{e}
  {
    var i := |events|;
    while i > 0 && Less(e.timestamp, events[i - 1].timestamp)
      invariant 0 <= i <= |events|
      invariant forall k :: i <= k < |events| ==> Less(e.timestamp, events[k].timestamp)
    {
      i := i - 1;
    }
    r := events[..i] + [e] + events[i..];
    assert events == events[..i] + events[i..];
    forall a | 0 <= a < i
      ensures !Less(e.timestamp, events[a].timestamp)
    {
      if Less(e.timestamp, events[a].timestamp) && a < i - 1 {
        LaterAll(e, events[a], events[i - 1]);
      }
    }
    forall a | i <= a < |events|
      ensures !Less(events[a].timestamp, e.timestamp)
    {
      LessTotal(events[a].timestamp, e.timestamp);
    }
  }

  /** Strictly before an event means strictly before every event not earlier than it. */
  lemma LaterAll(e: Event, f: Event, g: Event)
    requires Less(e.timestamp, f.timestamp) && !Less(g.timestamp, f.timestamp)
    ensures Less(e.timestamp, g.timestamp)
  {
    LessTotal(f.timestamp, g.timestamp);
    if Less(f.timestamp, g.timestamp) {
      LessTransitive(e.timestamp, f.timestamp, g.timestamp);
    }
  }

  /** `events.sort((a, b) => a.timestamp.localeCompare(b.timestamp))` */
  method SortByTimestamp(events: seq<Event>) returns (r: seq<Event>)
    ensures InTime(r) && multiset(r) == multiset(events)
  {
    r := [];
    var i := 0;
    while i < |events|
      invariant 0 <= i <= |events| && InTime(r) && multiset(r) == multiset(events[..i])
    {
      assert events[..i + 1] == events[..i] + [events[i]];
      r := InsertEvent(r, events[i]);
      i := i + 1;
    }
    assert events[..|events|] == events;
  }

  lemma {:induction false} OnceOnly(a: seq<Event>, e: Event)
    requires Distinct(a)
    ensures multiset(a)[e] <= 1
  {
    if a != [] {
      var n := |a| - 1;
      assert a == a[..n] + [a[n]];
      OnceOnly(a[..n], e);
      if e == a[n] {
        assert e !in a[..n];
        assert e !in multiset(a[..n]);
      }
    }
  }

  /** The recorded events with a property, in recording order. */
  function Selected(events: seq<Event>, p: Event -> bool): seq<Event> {
    if events == [] then []
    else
      var last := events[|events| - 1];
      Selected(events[..|events| - 1], p) + if p(last) then [last] else []
  }

  lemma {:induction false} SelectedMembers(events: seq<Event>, p: Event -> bool)
    requires DistinctIds(events)
    ensures Distinct(Selected(events, p)) && forall e :: e in Selected(events, p) <==> e in events && p(e)
  {
    if events != [] {
      var n := |events| - 1;
      SelectedMembers(events[..n], p);
      assert events == events[..n] + [events[n]];
      assert events[n] !in events[..n];
    }
  }

  /** A duplicate-free listing of a property is the filter, rearranged. */
  lemma ExactlyIsFilter(r: seq<Event>, events: seq<Event>, p: Event -> bool)
    requires DistinctIds(events) && Exactly(r, events, p)
    ensures multiset(r) == multiset(Selected(events, p)) && |r| == |Selected(events, p)|
  {
    hide Distinct, Selected;
    var f := Selected(events, p);
    SelectedMembers(events, p);
    forall e
      ensures multiset(r)[e] == multiset(f)[e]
    {
      OnceOnly(r, e);
      OnceOnly(f, e);
      assert e in multiset(r) <==> e in r;
      assert e in multiset(f) <==> e in f;
    }
    assert |multiset(r)| == |r| && |multiset(f)| == |f|;
  }

  // ---------------------------------------------------------------- the contract

  /** The white space and line terminators that `trim` removes. */
  const WHITESPACE: string :=
    " \t\n\r\U{0b}\U{0c}\U{a0}\U{1680}\U{2000}\U{2001}\U{2002}\U{2003}" +
    "\U{2004}\U{2005}\U{2006}\U{2007}\U{2008}\U{2009}\U{200a}\U{2028}\U{2029}\U{202f}\U{205f}\U{3000}\U{feff}"

  predicate Blank(s: string) {
    forall i :: 0 <= i < |s| ==> s[i] in WHITESPACE
  }

  predicate IsHex64(s: string) {
    |s| == 64 && forall i :: 0 <= i < 64 ==> s[i] in "0123456789abcdefABCDEF"
  }

  /** The validations of `recordEvent`, in order. */
  function Rejection(isJson: string -> bool, e: Event): Option<LedgerError> {
    if e.eventType !in VALID_EVENT_TYPES then Some(InvalidEventType)
    else if e.examId == "" || Blank(e.examId) then Some(ExamIdRequired)
    else if e.entityHash == "" || Blank(e.entityHash) then Some(EntityHashRequired)
    else if !IsHex64(e.entityHash) then Some(EntityHashInvalid)
    else if !isJson(e.metadata) then Some(MetadataInvalid)
    else if !Storable(e) then Some(InvalidKey)
    else None
  }

  class ExamAuditContract {
    var state: State
    /** The events recorded so far, in order. */
    ghost var recorded: seq<Event>

    ghost predicate Valid()
      reads this
    {
      AllStorable(recorded) && state == StateOf(recorded)
    }

    constructor ()
      ensures Valid() && recorded == []
    {
      state, recorded := map[], [];
    }

    /** `recordEvent`; a rejected transaction writes nothing. */
    method RecordEvent(isJson: string -> bool, e: Event) returns (r: Result<Event, LedgerError>)
      requires Valid()
      modifies this
      ensures Valid()
      ensures Rejection(isJson, e).Some? ==>
        r == Failure(Rejection(isJson, e).value) && recorded == old(recorded) && state == old(state)
      ensures Rejection(isJson, e).None? ==> r == Success(e) && recorded == old(recorded) + [e]
    {
      if e.eventType !in VALID_EVENT_TYPES { return Failure(InvalidEventType); }
      if e.examId == "" || Blank(e.examId) { return Failure(ExamIdRequired); }
      if e.entityHash == "" || Blank(e.entityHash) { return Failure(EntityHashRequired); }
      if !IsHex64(e.entityHash) { return Failure(EntityHashInvalid); }
      if !isJson(e.metadata) { return Failure(MetadataInvalid); }
      if !Storable(e) { return Failure(InvalidKey); }
      state := state[e.eventId := e];
      state := state[ExamKey(e) := e];
      state := state[TypeKey(e) := e];
      state := state[TimeKey(e) := e];
      assert (recorded + [e])[..|recorded|] == recorded;
      recorded := recorded + [e];
      r := Success(e);
    }

    /** The iterator of `getStateByPartialCompositeKey`. */
    method Iterate(prefix: string) returns (keys: seq<string>)
      ensures Sorts(keys, Matching(state, prefix))
    {
      keys := SortedSet(Matching(state, prefix));
    }

    /** `getEventsByExam`: each recorded event of the exam once, in timestamp order. */
    method GetEventsByExam(examId: string) returns (r: Result<seq<Event>, LedgerError>)
      requires Valid() && DistinctIds(recorded)
      ensures r.Success? <==> Plain(examId)
      ensures r.Success? ==> InTime(r.value) && multiset(r.value) == multiset(Selected(recorded, OfExam(examId)))
    {
      hide Composite, StateOf, Partial, TypePrefix, Sorts, InTime, Distinct, IndexKey, Selected;
      if !Plain(examId) { return Failure(InvalidKey); }
      var keys := Iterate(Partial(EXAM, examId));
      ExamScan(recorded, examId, keys);
      var events: seq<Event>, i := [], 0;
      while i < |keys|
        invariant 0 <= i <= |keys| && events == Values(state, keys)[..i]
      {
        events := events + [state[keys[i]]];
        i := i + 1;
      }
      assert events == Values(state, keys);
      var sorted := SortByTimestamp(events);
      ExactlyIsFilter(events, recorded, OfExam(examId));
      r := Success(sorted);
    }

    /** `getEventCount`: as many as there are recorded events of the exam. */
    method GetEventCount(examId: string) returns (r: Result<nat, LedgerError>)
      requires Valid() && DistinctIds(recorded)
      ensures r.Success? <==> Plain(examId)
      ensures r.Success? ==> r.value == |Selected(recorded, OfExam(examId))|
    {
      hide Composite, StateOf, Partial, TypePrefix, Sorts, Distinct, IndexKey, Selected;
      if !Plain(examId) { return Failure(InvalidKey); }
      var keys := Iterate(Partial(EXAM, examId));
      ExamScan(recorded, examId, keys);
      ExactlyIsFilter(Values(state, keys), recorded, OfExam(examId));
      var count, i := 0, 0;
      while i < |keys|
        invariant 0 <= i <= |keys| && count == i
      {
        count := count + 1;
        i := i + 1;
      }
      r := Success(count);
    }

    /** `getEventsByTimeRange`: stopping at the first later timestamp loses nothing. */
    method GetEventsByTimeRange(startTime: string, endTime: string) returns (r: seq<Event>)
      requires Valid() && DistinctIds(recorded)
      ensures InTime(r) && multiset(r) == multiset(Selected(recorded, InRangeOf(startTime, endTime)))
    {
      hide Composite, StateOf, Sorts, InTime, Distinct, IndexKey, Less, UntilNul, Selected;
      var keys := Iterate(TypePrefix(TIME));
      TimeScan(recorded, keys);
      ghost var all := Values(state, keys);
      var events, i, done := [], 0, false;
      NoneInRange(all, startTime, endTime);
      while i < |keys| && !done
        invariant 0 <= i <= |keys|
        invariant InRange(events, all, i, startTime, endTime)
        invariant done ==> i < |keys| && Less(endTime, all[i].timestamp)
        decreases |keys| - i, !done
      {
        var eventTimestamp := UntilNul(keys[i][|TypePrefix(TIME)|..]);
        RangeStep(events, all, i, startTime, endTime);
        if !Less(eventTimestamp, startTime) && !Less(endTime, eventTimestamp) {
          events := events + [state[keys[i]]];
        }
        if Less(endTime, eventTimestamp) {
          done := true;
        } else {
          i := i + 1;
        }
      }
      NothingLater(events, all, i, startTime, endTime);
      r := SortByTimestamp(events);
      ExactlyIsFilter(events, recorded, InRangeOf(startTime, endTime));
    }
  }

  lemma ExamScan(events: seq<Event>, examId: string, keys: seq<string>)
    requires AllStorable(events) && DistinctIds(events) && Plain(examId)
    requires Sorts(keys, Matching(StateOf(events), Partial(EXAM, examId)))
    ensures forall i :: 0 <= i < |keys| ==> keys[i] in StateOf(events)
    ensures Exactly(Values(StateOf(events), keys), events, OfExam(examId))
  {
    hide Composite, StateOf, Plain, Sorts, Matching;
    NamesPlain();
    ExamPrefix(examId);
    ScanFinds(ByExam, events, Partial(EXAM, examId), keys);
    forall e | e in events
      ensures Partial(EXAM, examId) <= IndexKey(ByExam, e) <==> e.examId == examId
    {
      PartialMatches(EXAM, e.examId, e.eventId, EXAM, examId);
    }
  }

  lemma ExamPrefix(examId: string)
    ensures TypePrefix(EXAM) <= Partial(EXAM, examId)
  {
    assert Partial(EXAM, examId) == TypePrefix(EXAM) + (examId + SEP);
  }

  /** All time-indexed events, in timestamp order, their timestamps readable from the keys. */
  lemma TimeScan(events: seq<Event>, keys: seq<string>)
    requires AllStorable(events) && DistinctIds(events)
    requires Sorts(keys, Matching(StateOf(events), TypePrefix(TIME)))
    ensures forall i :: 0 <= i < |keys| ==> keys[i] in StateOf(events)
    ensures Distinct(Values(StateOf(events), keys)) && InTime(Values(StateOf(events), keys))
    ensures forall e :: e in Values(StateOf(events), keys) <==> e in events
    ensures forall i :: 0 <= i < |keys| ==> |TypePrefix(TIME)| <= |keys[i]|
    ensures forall i ::
      0 <= i < |keys| ==> UntilNul(keys[i][|TypePrefix(TIME)|..]) == Values(StateOf(events), keys)[i].timestamp
  {
    hide StateOf, Matching, Less;
    NamesPlain();
    var s := StateOf(events);
    ScanFinds(ByTime, events, TypePrefix(TIME), keys);
    forall e | e in events
      ensures TypePrefix(TIME) <= IndexKey(ByTime, e)
    {
      PartialMatches(TIME, e.timestamp, e.eventId, TIME, "");
      EmptyPlain();
    }
    var all := Values(s, keys);
    forall i | 0 <= i < |keys|
      ensures all[i] in events && Storable(all[i])
      ensures |TypePrefix(TIME)| <= |keys[i]| && UntilNul(keys[i][|TypePrefix(TIME)|..]) == all[i].timestamp
    {
      assert all[i] in all;
      var e := all[i];
      assert keys[i] == TypePrefix(TIME) + (e.timestamp + (SEP + (e.eventId + SEP)));
      UntilNulOf(e.timestamp, e.eventId + SEP);
    }
    forall i, j | 0 <= i < j < |keys|
      ensures !Less(all[j].timestamp, all[i].timestamp)
    {
      assert Less(keys[i], keys[j]);
      KeyOrder(TIME, all[i].timestamp, all[i].eventId, all[j].timestamp, all[j].eventId);
      LessTotal(all[i].timestamp, all[j].timestamp);
    }
  }

  /** The events in range among the first n scanned. */
  ghost predicate InRange(r: seq<Event>, all: seq<Event>, n: nat, startTime: string, endTime: string)
    requires n <= |all|
  {
    Distinct(r) && forall e :: e in r <==> e in all[..n] && Within(e, startTime, endTime)
  }

  lemma NoneInRange(all: seq<Event>, startTime: string, endTime: string)
    ensures InRange([], all, 0, startTime, endTime)
  {}

  lemma RangeStep(r: seq<Event>, all: seq<Event>, n: nat, startTime: string, endTime: string)
    requires n < |all| && Distinct(all) && InRange(r, all, n, startTime, endTime)
    ensures Within(all[n], startTime, endTime) ==> InRange(r + [all[n]], all, n + 1, startTime, endTime)
    ensures !Within(all[n], startTime, endTime) ==> InRange(r, all, n + 1, startTime, endTime)
  {
    hide Within;
    assert all[..n + 1] == all[..n] + [all[n]];
    assert all[n] !in all[..n];
  }

  /** Past the first event after the end no event is in range. */
  lemma NothingLater(r: seq<Event>, all: seq<Event>, n: nat, startTime: string, endTime: string)
    requires n <= |all| && InTime(all) && InRange(r, all, n, startTime, endTime)
    requires n < |all| ==> Less(endTime, all[n].timestamp)
    ensures forall e :: e in r <==> e in all && Within(e, startTime, endTime)
  {
    hide Less;
    forall k | n <= k < |all|
      ensures !Within(all[k], startTime, endTime)
    {
      LessTotal(all[n].timestamp, all[k].timestamp);
      if Less(all[n].timestamp, all[k].timestamp) {
        LessTransitive(endTime, all[n].timestamp, all[k].timestamp);
      }
    }
    assert all == all[..n] + all[n..];
  }
}
