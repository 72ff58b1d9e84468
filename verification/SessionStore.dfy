/** The registry of sessions: idle ones expire, beyond the capacity the least recently used go,
    and each keeps a short history of captured plans. Time only moves forward. */
module SessionStore {
  import opened Options
  import opened Sets

  type Id = string

  const HISTORY: nat := 10

  datatype PlanEntry = PlanEntry(id: Id, capturedAt: int, plan: string)

  /** The rest of a session, which the store does not look at, is its info. */
  datatype Session = Session(id: Id, info: string, createdAt: int, lastPlan: Option<string>, plans: seq<PlanEntry>, lastUsed: int)

  type Sessions = map<Id, Session>

  /** A limit that is not positive is off. */
  datatype Limits = Limits(ttl: int, cap: int, maxPlanBytes: int)

  datatype Reason = EmptyId | NotFound | SizeUnavailable | TooLarge | Captured

  // ------------------------------------------------------------------
  // What the operations do

  function New(id: Id, info: string, now: int): Session {
    Session(id, info, now, None, [], now)
  }

  function Used(s: Session, now: int): Session {
    s.(lastUsed := now)
  }

  function FirstOf<T>(s: seq<T>, n: nat): seq<T> {
    if |s| <= n then s else s[..n]
  }

  /** What becomes of a plan whose size, if it can be told, is given. */
  function Verdict(l: Limits, size: Option<int>): Reason {
    if size.None? then SizeUnavailable
    else if l.maxPlanBytes > 0 && size.value > l.maxPlanBytes then TooLarge
    else Captured
  }

  function AfterCapture(l: Limits, s: Session, plan: string, size: Option<int>, now: int, planId: Id): Session {
    match Verdict(l, size)
    case Captured =>
      Session(s.id, s.info, s.createdAt, Some(plan), FirstOf([PlanEntry(planId, now, plan)] + s.plans, HISTORY), now)
    case TooLarge => s.(lastPlan := None, lastUsed := now)
    case _ => Used(s, now)
  }

  function Expired(l: Limits, s: Session, now: int): bool {
    l.ttl > 0 && s.lastUsed < now - l.ttl
  }

  function Swept(l: Limits, ss: Sessions, now: int): Sessions {
    map id | id in ss && !Expired(l, ss[id], now) :: ss[id]
  }

  lemma {:induction false} SweptWithin(l: Limits, ss: Sessions, now: int)
    ensures Swept(l, ss, now).Keys <= ss.Keys
  {
  }

  ghost predicate Within(after: Sessions, before: Sessions) {
    forall id | id in after :: id in before && after[id] == before[id]
  }

  /** All but those of `left` have been looked at. */
  ghost predicate SweptSoFar(l: Limits, all: Sessions, ss: Sessions, left: set<Id>, now: int) {
    && left <= all.Keys && Within(ss, all)
    && forall id :: id in ss <==> id in all && (id in left || !Expired(l, all[id], now))
  }

  lemma {:induction false} SweptNone(l: Limits, ss: Sessions, now: int)
    ensures SweptSoFar(l, ss, ss, ss.Keys, now)
  {
  }

  lemma {:induction false} SweptOne(l: Limits, all: Sessions, ss: Sessions, left: set<Id>, now: int, id: Id)
    requires SweptSoFar(l, all, ss, left, now) && id in left
    ensures id in ss && ss[id] == all[id]
    ensures SweptSoFar(l, all, if Expired(l, ss[id], now) then ss - {id} else ss, left - {id}, now)
  {
  }

  lemma {:induction false} SweptAll(l: Limits, all: Sessions, ss: Sessions, now: int)
    requires SweptSoFar(l, all, ss, {}, now)
    ensures ss == Swept(l, all, now)
  {
  }

  /** What is gone was used no later than anything that is left. */
  ghost predicate LeastUsedGone(before: Sessions, after: Sessions) {
    && Within(after, before)
    && forall gone, kept | gone in before && gone !in after && kept in after :: before[gone].lastUsed <= before[kept].lastUsed
  }

  /** Room is made for one more, and no more than that. */
  ghost predicate Capped(l: Limits, before: Sessions, after: Sessions) {
    && LeastUsedGone(before, after)
    && (if l.cap <= 0 || |before| < l.cap then after == before else |after| == l.cap - 1)
  }

  lemma {:induction false} NothingGone(ss: Sessions)
    ensures LeastUsedGone(ss, ss)
  {
  }

  lemma {:induction false} OneMoreGone(before: Sessions, now: Sessions, lru: Id)
    requires LeastUsedGone(before, now) && lru in now
    requires forall id | id in now :: now[lru].lastUsed <= now[id].lastUsed
    ensures LeastUsedGone(before, now - {lru}) && |now - {lru}| == |now| - 1
  {
    assert now.Keys == (now - {lru}).Keys + {lru};
  }

  // ------------------------------------------------------------------
  // The program's object

  /** A Go slice of plans: the first `length` elements of an array that others may share. */
  datatype Slice = NoPlans | Slice(backing: array<PlanEntry>, length: nat) {
    predicate Proper() { Slice? ==> length <= backing.Length }

    function Shown(): (plans: seq<PlanEntry>)
      requires Proper()
      reads Arrays()
    {
      if Slice? then backing[..length] else []
    }

    function Arrays(): set<array<PlanEntry>> {
      if Slice? then {backing} else {}
    }
  }

  /** A session as it is kept and handed out: a copy shares the array of its plans. */
  datatype Stored = Stored(id: Id, info: string, createdAt: int, lastPlan: Option<string>, plans: Slice, lastUsed: int) {
    /** What the holder of a copy sees. */
    function Seen(): Session
      requires plans.Proper()
      reads plans.Arrays()
    {
      Session(id, info, createdAt, lastPlan, plans.Shown(), lastUsed)
    }
  }

  ghost predicate ShowsAs(s: Stored, v: Session)
    reads s.plans.Arrays()
  {
    s.plans.Proper() && s.Seen() == v
  }

  ghost predicate Shows(stored: map<Id, Stored>, sessions: Sessions)
    reads set id | id in stored && stored[id].plans.Slice? :: stored[id].plans.backing
  {
    && stored.Keys == sessions.Keys
    && forall id | id in stored :: ShowsAs(stored[id], sessions[id])
  }

  lemma {:induction false} ShownAlike(stored: map<Id, Stored>, sessions: Sessions)
    requires Shows(stored, sessions)
    ensures Alike(stored, sessions)
  {
  }

  /** Whatever is kept of them is kept of both. */
  lemma {:induction false} ShowsPart(stored: map<Id, Stored>, sessions: Sessions, all: map<Id, Stored>, allSessions: Sessions)
    requires Shows(all, allSessions) && PartOf(stored, sessions, all, allSessions)
    ensures Shows(stored, sessions)
  {
  }

  ghost predicate PartOf(stored: map<Id, Stored>, sessions: Sessions, all: map<Id, Stored>, allSessions: Sessions) {
    && stored.Keys == sessions.Keys
    && forall id | id in stored :: id in all && id in allSessions && stored[id] == all[id] && sessions[id] == allSessions[id]
  }

  lemma {:induction false} AlikeWithout(all: map<Id, Stored>, allSessions: Sessions, stored: map<Id, Stored>, sessions: Sessions)
    requires Alike(all, allSessions) && PartOf(stored, sessions, all, allSessions)
    ensures Alike(stored, sessions) && stored.Keys == sessions.Keys
  {
  }

  lemma {:induction false} PartOfAll(stored: map<Id, Stored>, sessions: Sessions)
    requires stored.Keys == sessions.Keys
    ensures PartOf(stored, sessions, stored, sessions)
  {
  }

  lemma {:induction false} PartWithout(stored: map<Id, Stored>, sessions: Sessions, all: map<Id, Stored>, allSessions: Sessions, id: Id)
    requires PartOf(stored, sessions, all, allSessions)
    ensures PartOf(stored - {id}, sessions - {id}, all, allSessions)
  {
  }

  ghost predicate Alike(stored: map<Id, Stored>, sessions: Sessions) {
    stored.Keys == sessions.Keys && forall id | id in stored :: stored[id].lastUsed == sessions[id].lastUsed
  }

  lemma {:induction false} SameCount(stored: map<Id, Stored>, sessions: Sessions)
    requires stored.Keys == sessions.Keys
    ensures |stored| == |sessions|
  {
    assert |stored| == |stored.Keys| && |sessions| == |sessions.Keys|;
  }

  /** append([]PlanEntry{entry}, plans...): the elements move to an array of their own, with
      whatever room to spare; the array they come from is not written to. */
  method Prepended(entry: PlanEntry, plans: Slice, spare: nat) returns (r: Slice)
    requires plans.Proper()
    ensures r.Slice? && r.Proper() && fresh(r.backing) && r.Shown() == [entry] + plans.Shown()
  {
    var n := if plans.Slice? then plans.length else 0;
    var backing := new PlanEntry[1 + n + spare];
    backing[0] := entry;
    var i := 0;
    while i < n
      invariant 0 <= i <= n && backing[0] == entry
      invariant forall j | 0 <= j < i :: backing[1 + j] == plans.backing[j]
    {
      backing[1 + i] := plans.backing[i];
      i := i + 1;
    }
    r := Slice(backing, 1 + n);
  }

  /** No method writes to an array that existed before, so that whoever holds a copy of a
      session sees what it saw when it was handed out. */
  class SessionRegistry {
    const limits: Limits
    var stored: map<Id, Stored>
    ghost var sessions: Sessions

    /** What is stored shows as sessions. */
    ghost predicate Valid()
      reads this, set id | id in stored && stored[id].plans.Slice? :: stored[id].plans.backing
    {
      Shows(stored, sessions)
    }

    constructor (limits: Limits)
      ensures this.limits == limits && sessions == map[] && Valid()
    {
      this.limits := limits;
      stored, sessions := map[], map[];
    }

    method Create(info: string, now: int, newId: Id) returns (s: Stored)
      requires Valid() && "" !in sessions
      modifies this
      ensures Valid() && newId in stored && s == stored[newId] && s.Seen() == New(newId, info, now)
      ensures exists rest :: Capped(limits, Swept(limits, old(sessions), now), rest) && sessions == rest[newId := New(newId, info, now)]
    {
      hide Capped;
      SweepExpired(now);
      SweptWithin(limits, old(sessions), now);
      EnforceCap();
      ghost var rest := sessions;
      s := Stored(newId, info, now, None, NoPlans, now);
      Put(newId, s, New(newId, info, now));
      assert Capped(limits, Swept(limits, old(sessions), now), rest);
    }

    method SweepExpired(now: int)
      requires Valid()
      modifies this
      ensures Valid() && sessions == Swept(limits, old(sessions), now)
    {
      if limits.ttl <= 0 {
        assert Swept(limits, sessions, now) == sessions;
        return;
      }
      ShownAlike(stored, sessions);
      PartOfAll(stored, sessions);
      SweptNone(limits, sessions, now);
      hide Shows, PartOf, SweptSoFar, Swept;
      var cutoff := now - limits.ttl;
      var left := stored.Keys;
      while left != {}
        invariant PartOf(stored, sessions, old(stored), old(sessions)) && Alike(stored, sessions)
        invariant SweptSoFar(limits, old(sessions), sessions, left, now)
        decreases |left|
      {
        var id :| id in left;
        SweptOne(limits, old(sessions), sessions, left, now, id);
        if stored[id].lastUsed < cutoff {
          PartWithout(stored, sessions, old(stored), old(sessions), id);
          stored, sessions := stored - {id}, sessions - {id};
        }
        left := left - {id};
      }
      SweptAll(limits, old(sessions), sessions, now);
      ShowsPart(stored, sessions, old(stored), old(sessions));
    }

    method EnforceCap()
      requires Valid() && "" !in sessions
      modifies this
      ensures Valid() && Capped(limits, old(sessions), sessions)
    {
      if limits.cap <= 0 {
        return;
      }
      ShownAlike(stored, sessions);
      PartOfAll(stored, sessions);
      NothingGone(sessions);
      hide Shows, Alike, PartOf, LeastUsedGone;
      SameCount(stored, sessions);
      while |stored| >= limits.cap
        invariant PartOf(stored, sessions, old(stored), old(sessions)) && Alike(stored, sessions) && |stored| == |sessions|
        invariant LeastUsedGone(old(sessions), sessions)
        invariant sessions == old(sessions) || |old(sessions)| >= limits.cap
        invariant |old(sessions)| >= limits.cap ==> |sessions| >= limits.cap - 1
        invariant "" !in sessions
        decreases |stored|
      {
        var lru := LeastUsed();
        OneMoreGone(old(sessions), sessions, lru);
        PartWithout(stored, sessions, old(stored), old(sessions), lru);
        AlikeWithout(old(stored), old(sessions), stored - {lru}, sessions - {lru});
        SameCount(stored - {lru}, sessions - {lru});
        stored, sessions := stored - {lru}, sessions - {lru};
      }
      ShowsPart(stored, sessions, old(stored), old(sessions));
    }

    method LeastUsed() returns (lru: Id)
      requires Alike(stored, sessions) && "" !in sessions && sessions != map[]
      ensures lru in sessions && forall id | id in sessions :: sessions[lru].lastUsed <= sessions[id].lastUsed
    {
      lru := "";
      var left := stored.Keys;
      while left != {}
        invariant left <= stored.Keys && (lru == "" ==> left == stored.Keys)
        invariant lru != "" ==> lru in stored
        invariant forall id | id in stored && id !in left :: stored[lru].lastUsed <= stored[id].lastUsed
        decreases |left|
      {
        var id :| id in left;
        if lru == "" || stored[id].lastUsed < stored[lru].lastUsed {
          lru := id;
        }
        left := left - {id};
      }
    }

    /** Stores a session in the place of an earlier state of it. */
    method Put(id: Id, session: Stored, ghost shown: Session)
      requires Valid() && ShowsAs(session, shown)
      modifies this
      ensures Valid() && stored == old(stored)[id := session] && sessions == old(sessions)[id := shown]
    {
      stored, sessions := stored[id := session], sessions[id := shown];
    }

    method Get(id: Id, now: int) returns (s: Option<Stored>)
      requires Valid()
      modifies this
      ensures Valid()
      ensures if id in old(sessions)
              then sessions == old(sessions)[id := Used(old(sessions)[id], now)] && s == Some(stored[id])
              else s == None && sessions == old(sessions)
    {
      if id !in stored {
        return None;
      }
      var session := stored[id].(lastUsed := now);
      Put(id, session, Used(sessions[id], now));
      s := Some(session);
    }

    method CapturePlan(id: Id, plan: string, size: Option<int>, now: int, planId: Id, spare: nat) returns (r: Reason)
      requires Valid()
      modifies this
      ensures Valid()
      ensures r == if id == "" then EmptyId else if id !in old(sessions) then NotFound else Verdict(limits, size)
      ensures sessions == if id == "" || id !in old(sessions) then old(sessions)
                          else old(sessions)[id := AfterCapture(limits, old(sessions)[id], plan, size, now, planId)]
    {
      if id == "" {
        return EmptyId;
      }
      if id !in stored {
        return NotFound;
      }
      ghost var after := AfterCapture(limits, sessions[id], plan, size, now, planId);
      var session := stored[id];
      if size.None? {
        session := session.(lastUsed := now);
        Put(id, session, after);
        return SizeUnavailable;
      }
      if limits.maxPlanBytes > 0 && size.value > limits.maxPlanBytes {
        session := session.(lastPlan := None);
        session := session.(lastUsed := now);
        Put(id, session, after);
        return TooLarge;
      }
      var entry := PlanEntry(planId, now, plan);
      var plans := Prepended(entry, session.plans, spare);
      if plans.length > HISTORY {
        plans := plans.(length := HISTORY);
      }
      session := session.(lastPlan := Some(plan), plans := plans);
      session := session.(lastUsed := now);
      assert plans.Shown() == FirstOf([entry] + sessions[id].plans, HISTORY);
      Put(id, session, after);
      r := Captured;
    }

    method PlanById(id: Id, planId: Id) returns (e: Option<PlanEntry>)
      requires Valid()
      ensures e == if id in sessions then FindPlan(sessions[id].plans, planId) else None
    {
      if id !in stored {
        return None;
      }
      var plans := stored[id].plans;
      var n := if plans.Slice? then plans.length else 0;
      ghost var shown := plans.Shown();
      var i := 0;
      while i < n
        invariant 0 <= i <= n == |shown| && FindPlan(shown, planId) == FindPlan(shown[i..], planId)
      {
        if plans.backing[i].id == planId {
          return Some(plans.backing[i]);
        }
        i := i + 1;
      }
      e := None;
    }
  }

  function FindPlan(plans: seq<PlanEntry>, planId: Id): Option<PlanEntry> {
    if plans == [] then None
    else if plans[0].id == planId then Some(plans[0])
    else FindPlan(plans[1..], planId)
  }

  // ------------------------------------------------------------------
  // Whole runs

  datatype Event =
    | Create(id: Id, info: string, now: int)
    | Get(id: Id, now: int)
    | Capture(id: Id, plan: string, size: Option<int>, now: int, planId: Id)

  ghost predicate Step(l: Limits, ss: Sessions, e: Event, ss': Sessions) {
    match e
    case Create(id, info, now) =>
      exists rest :: Capped(l, Swept(l, ss, now), rest) && ss' == rest[id := New(id, info, now)]
    case Get(id, now) =>
      ss' == if id in ss then ss[id := Used(ss[id], now)] else ss
    case Capture(id, plan, size, now, planId) =>
      ss' == if id in ss && id != "" then ss[id := AfterCapture(l, ss[id], plan, size, now, planId)] else ss
  }

  /** The states of a run: states[i] is what events[..i] led to. */
  ghost predicate Run(l: Limits, es: seq<Event>, states: seq<Sessions>) {
    && |states| == |es| + 1 && states[0] == map[]
    && forall i | 0 <= i < |es| :: Step(l, states[i], es[i], states[i + 1])
  }

  /** The clock never goes back, and the ids of new sessions are not empty. */
  ghost predicate Sensible(es: seq<Event>) {
    && (forall i, j | 0 <= i < j < |es| :: es[i].now <= es[j].now)
    && (forall i | 0 <= i < |es| && es[i].Create? :: es[i].id != "")
  }

  /** What the events on this session alone make of it. */
  function Replay(l: Limits, es: seq<Event>, id: Id): Option<Session> {
    if es == [] then None
    else
      var e, before := es[|es| - 1], Replay(l, es[..|es| - 1], id);
      if e.id != id then before
      else match e
        case Create(_, info, now) => Some(New(id, info, now))
        case Get(_, now) => if before.Some? then Some(Used(before.value, now)) else None
        case Capture(_, plan, size, now, planId) =>
          if before.Some? then Some(AfterCapture(l, before.value, plan, size, now, planId)) else None
  }

  ghost predicate LiveOk(l: Limits, es: seq<Event>, id: Id, s: Session) {
    && id != "" && Replay(l, es, id) == Some(s)
    && exists i :: 0 <= i < |es| && es[i].now == s.lastUsed
  }

  /** Every live session is what its own events made of it, and there are not too many. */
  ghost predicate Faithful(l: Limits, es: seq<Event>, ss: Sessions) {
    && (forall id | id in ss :: LiveOk(l, es, id, ss[id]))
    && (l.cap > 0 ==> |ss| <= l.cap)
  }

  lemma {:induction false} ReplayOn(l: Limits, es: seq<Event>, e: Event, id: Id)
    ensures e.id != id ==> Replay(l, es + [e], id) == Replay(l, es, id)
    ensures e.id == id && e.Create? ==> Replay(l, es + [e], id) == Some(New(id, e.info, e.now))
    ensures e.id == id && e.Get? && Replay(l, es, id).Some? ==>
              Replay(l, es + [e], id) == Some(Used(Replay(l, es, id).value, e.now))
    ensures e.id == id && e.Capture? && Replay(l, es, id).Some? ==>
              Replay(l, es + [e], id) == Some(AfterCapture(l, Replay(l, es, id).value, e.plan, e.size, e.now, e.planId))
  {
    assert (es + [e])[..|es|] == es;
  }

  /** A session that the event is not about. */
  lemma {:induction false} LiveStays(l: Limits, es: seq<Event>, e: Event, id: Id, s: Session)
    requires LiveOk(l, es, id, s) && e.id != id
    ensures LiveOk(l, es + [e], id, s)
  {
    ReplayOn(l, es, e, id);
    hide Replay;
    var j :| 0 <= j < |es| && es[j].now == s.lastUsed;
    assert (es + [e])[j] == es[j];
  }

  lemma {:induction false} LiveMoves(l: Limits, es: seq<Event>, e: Event, id: Id, s: Session, s': Session)
    requires LiveOk(l, es, id, s) && e.id == id && s'.lastUsed == e.now
    requires Replay(l, es + [e], id) == Some(s')
    ensures LiveOk(l, es + [e], id, s')
  {
    hide Replay;
    assert (es + [e])[|es|] == e;
  }

  lemma {:induction false} CreateKeeps(l: Limits, es: seq<Event>, ss: Sessions, e: Event, ss': Sessions)
    requires e.id != "" && Faithful(l, es, ss) && e.Create? && Step(l, ss, e, ss')
    ensures Faithful(l, es + [e], ss')
  {
    var rest :| Capped(l, Swept(l, ss, e.now), rest) && ss' == rest[e.id := New(e.id, e.info, e.now)];
    DiscardsLeastUsed(l, ss, e.now, rest);
    RoomMade(l, ss, e.now, rest, e.id, New(e.id, e.info, e.now));
    hide LiveOk, Replay, Capped, Swept;
    forall id | id in ss' ensures LiveOk(l, es + [e], id, ss'[id]) {
      if id == e.id {
        CreatedLive(l, es, e);
      } else {
        assert id in rest && rest[id] == ss[id];
        LiveStays(l, es, e, id, ss[id]);
      }
    }
  }

  lemma {:induction false} RoomMade(l: Limits, ss: Sessions, now: int, rest: Sessions, id: Id, s: Session)
    requires Capped(l, Swept(l, ss, now), rest)
    ensures l.cap > 0 ==> |rest[id := s]| <= l.cap
  {
    assert rest[id := s].Keys == rest.Keys + {id};
  }

  lemma {:induction false} CreatedLive(l: Limits, es: seq<Event>, e: Event)
    requires e.Create? && e.id != ""
    ensures LiveOk(l, es + [e], e.id, New(e.id, e.info, e.now))
  {
    ReplayOn(l, es, e, e.id);
    assert (es + [e])[|es|] == e;
  }

  lemma {:induction false} TouchKeeps(l: Limits, es: seq<Event>, ss: Sessions, e: Event, ss': Sessions)
    requires Faithful(l, es, ss) && !e.Create? && Step(l, ss, e, ss')
    ensures Faithful(l, es + [e], ss')
  {
    hide Replay, AfterCapture;
    forall id | id in ss' ensures LiveOk(l, es + [e], id, ss'[id]) {
      ReplayOn(l, es, e, id);
      if id == e.id {
        CaptureUses(l, ss[id], e);
        LiveMoves(l, es, e, id, ss[id], ss'[id]);
      } else {
        LiveStays(l, es, e, id, ss[id]);
      }
    }
    assert ss'.Keys == ss.Keys;
  }

  lemma {:induction false} CaptureUses(l: Limits, s: Session, e: Event)
    ensures e.Capture? ==> AfterCapture(l, s, e.plan, e.size, e.now, e.planId).lastUsed == e.now
  {
  }

  lemma {:induction false} RunStep(l: Limits, es: seq<Event>, states: seq<Sessions>, i: nat)
    requires Run(l, es, states) && Sensible(es) && i < |es|
    ensures |states| == |es| + 1 && Step(l, states[i], es[i], states[i + 1])
    ensures es[i].Create? ==> es[i].id != ""
  {
    hide Step;
  }

  lemma {:induction false} NothingFaithful(l: Limits, es: seq<Event>, states: seq<Sessions>)
    requires Run(l, es, states)
    ensures Faithful(l, es[..0], states[0])
  {
    hide Step;
  }

  /** Over any run, at every point. */
  lemma {:induction false} RunFaithful(l: Limits, es: seq<Event>, states: seq<Sessions>, n: nat)
    requires Run(l, es, states) && Sensible(es) && n <= |es|
    ensures Faithful(l, es[..n], states[n])
    decreases n
  {
    hide *;
    if n == 0 {
      NothingFaithful(l, es, states);
    } else {
      RunFaithful(l, es, states, n - 1);
      RunStep(l, es, states, n - 1);
      assert es[..n] == es[..n - 1] + [es[n - 1]];
      if es[n - 1].Create? {
        CreateKeeps(l, es[..n - 1], states[n - 1], es[n - 1], states[n]);
      } else {
        TouchKeeps(l, es[..n - 1], states[n - 1], es[n - 1], states[n]);
      }
    }
  }

  // ------------------------------------------------------------------
  // What callers can rely on

  /** The plans captured for the session since it was created, the newest first. */
  function Captures(l: Limits, es: seq<Event>, id: Id): seq<PlanEntry> {
    if es == [] then []
    else
      var e, before := es[|es| - 1], Captures(l, es[..|es| - 1], id);
      if e.id == id && e.Create? then []
      else if e.id == id && e.Capture? && Verdict(l, e.size).Captured? then [PlanEntry(e.planId, e.now, e.plan)] + before
      else before
  }

  lemma {:induction false} ReplayHistory(l: Limits, es: seq<Event>, id: Id)
    requires Replay(l, es, id).Some?
    ensures Replay(l, es, id).value.plans == FirstOf(Captures(l, es, id), HISTORY)
    ensures var s := Replay(l, es, id).value; s.lastPlan == None || (s.plans != [] && s.lastPlan == Some(s.plans[0].plan))
    decreases |es|
  {
    var e, before := es[|es| - 1], es[..|es| - 1];
    if !(e.id == id && e.Create?) {
      ReplayHistory(l, before, id);
      if e.id == id && e.Capture? {
        FirstOfOn(PlanEntry(e.planId, e.now, e.plan), Captures(l, before, id));
      }
    }
  }

  lemma {:induction false} FirstOfOn(e: PlanEntry, all: seq<PlanEntry>)
    ensures FirstOf([e] + FirstOf(all, HISTORY), HISTORY) == FirstOf([e] + all, HISTORY)
  {
  }

  lemma {:induction false} FindsAt(plans: seq<PlanEntry>, k: nat)
    requires k < |plans| && forall j | 0 <= j < k :: plans[j].id != plans[k].id
    ensures FindPlan(plans, plans[k].id) == Some(plans[k])
    decreases k
  {
    if k > 0 { FindsAt(plans[1..], k - 1); }
  }

  lemma {:induction false} FindsNone(plans: seq<PlanEntry>, planId: Id)
    requires forall j | 0 <= j < |plans| :: plans[j].id != planId
    ensures FindPlan(plans, planId) == None
    decreases |plans|
  {
    if plans != [] { FindsNone(plans[1..], planId); }
  }

  /** In any run, a live session knows its last ten captured plans and no others: the k-th
      newest is found by its id while k is below ten and the ids differ. Its latest plan is
      the newest of them or none, its last use is not in the future, and there are never more
      sessions than the capacity. */
  lemma {:induction false} LiveSession(l: Limits, es: seq<Event>, states: seq<Sessions>, n: nat, id: Id, k: nat)
    requires Run(l, es, states) && Sensible(es) && n <= |es| && id in states[n]
    ensures var s, all := states[n][id], Captures(l, es[..n], id);
            && Replay(l, es[..n], id) == Some(s)
            && s.plans == FirstOf(all, HISTORY) && |s.plans| <= HISTORY
            && (s.lastPlan == None || (s.plans != [] && s.lastPlan == Some(s.plans[0].plan)))
            && (k < |all| && (forall i, j | 0 <= i < j < |all| :: all[i].id != all[j].id) ==>
                  FindPlan(s.plans, all[k].id) == if k < HISTORY then Some(all[k]) else None)
    ensures l.cap > 0 ==> |states[n]| <= l.cap
    ensures n > 0 && states[n][id].lastUsed <= es[n - 1].now
  {
    RunFaithful(l, es, states, n);
    assert LiveOk(l, es[..n], id, states[n][id]);
    assert n > 0 && states[n][id].lastUsed <= es[n - 1].now;
    hide Run, Sensible;
    ReplayHistory(l, es[..n], id);
    hide Replay, Captures, FindPlan, Faithful, LiveOk;
    HistoryFinds(Captures(l, es[..n], id), k);
  }

  lemma {:induction false} HistoryFinds(all: seq<PlanEntry>, k: nat)
    ensures k < |all| && (forall i, j | 0 <= i < j < |all| :: all[i].id != all[j].id) ==>
              FindPlan(FirstOf(all, HISTORY), all[k].id) == if k < HISTORY then Some(all[k]) else None
  {
    hide FindPlan;
    var plans := FirstOf(all, HISTORY);
    if k < |all| && forall i, j | 0 <= i < j < |all| :: all[i].id != all[j].id {
      if k < HISTORY {
        assert plans[k] == all[k];
        FindsAt(plans, k);
      } else {
        FindsNone(plans, all[k].id);
      }
    }
  }

  /** Whatever a creation discards, by age or for room, was used no later than what it leaves. */
  lemma {:induction false} DiscardsLeastUsed(l: Limits, ss: Sessions, now: int, rest: Sessions)
    requires Capped(l, Swept(l, ss, now), rest)
    ensures LeastUsedGone(ss, rest)
  {
  }

  /** The sessions used no earlier than the given one, itself among them. */
  ghost function UsedSince(ss: Sessions, id: Id): set<Id>
    requires id in ss
  {
    set x | x in ss && ss[x].lastUsed >= ss[id].lastUsed
  }

  /** A session in time that is among the cap - 1 last used ones is not discarded. */
  lemma {:induction false} RecentSurvives(l: Limits, ss: Sessions, now: int, rest: Sessions, id: Id)
    requires Capped(l, Swept(l, ss, now), rest) && id in ss && !Expired(l, ss[id], now)
    requires l.cap > 0 ==> |UsedSince(ss, id)| < l.cap
    ensures id in rest
  {
    if id !in rest {
      var swept := Swept(l, ss, now);
      assert id in swept;
      forall x | x in rest ensures x in UsedSince(ss, id) - {id} {
        assert x in swept && swept[x] == ss[x];
      }
      Subset(rest.Keys, UsedSince(ss, id) - {id});
    }
  }
}
