/** Admission of remote calls: a limit on all calls in flight and one per target.
    A caller that finds no room waits on the limiter's current channel; a release
    replaces that channel and closes the old one, which wakes all its waiters. */
module InvokeLimiter {
  import opened Options

  type Target = string
  type CallerId = nat

  /** A limit of 0 switches that dimension off. */
  datatype Limits = Limits(global: nat, perTarget: nat)

  /** The two counters. */
  datatype Counts = Counts(globalInUse: nat, perTarget: map<Target, nat>)

  predicate Enabled(l: Limits) {
    l.global > 0 || l.perTarget > 0
  }

  function InUse(c: Counts, t: Target): nat {
    if t in c.perTarget then c.perTarget[t] else 0
  }

  predicate CanAcquire(l: Limits, c: Counts, t: Target) {
    && !(l.global > 0 && c.globalInUse >= l.global)
    && !(t != "" && l.perTarget > 0 && InUse(c, t) >= l.perTarget)
  }

  function Take(c: Counts, t: Target): Counts {
    Counts(c.globalInUse + 1, if t != "" then c.perTarget[t := InUse(c, t) + 1] else c.perTarget)
  }

  function GiveBack(c: Counts, t: Target): Counts {
    Counts(if c.globalInUse > 0 then c.globalInUse - 1 else c.globalInUse,
           if t == "" then c.perTarget
           else if InUse(c, t) <= 1 then c.perTarget - {t}
           else c.perTarget[t := InUse(c, t) - 1])
  }

  // ------------------------------------------------------------------
  // The program's object

  class Channel {
    var closed: bool

    constructor ()
      ensures !closed
    {
      closed := false;
    }
  }

  /** The right to release one admission, at most once. */
  class Grant {
    const target: Target
    var done: bool

    constructor (target: Target)
      ensures this.target == target && !done
    {
      this.target := target;
      done := false;
    }
  }

  class Limiter {
    const limits: Limits
    var globalInUse: nat
    var perTarget: map<Target, nat>
    var notify: Channel

    constructor (globalLimit: int, perTargetLimit: int)
      ensures limits == Limits(if globalLimit < 0 then 0 else globalLimit, if perTargetLimit < 0 then 0 else perTargetLimit)
      ensures Tally() == Counts(0, map[]) && fresh(notify) && !notify.closed
    {
      limits := Limits(if globalLimit < 0 then 0 else globalLimit, if perTargetLimit < 0 then 0 else perTargetLimit);
      globalInUse := 0;
      perTarget := map[];
      notify := new Channel();
    }

    function Tally(): Counts
      reads this
    {
      Counts(globalInUse, perTarget)
    }

    /** One turn of the admission loop: a grant, or the channel to wait on. */
    method TryAcquire(target: Target) returns (grant: Grant?, wait: Channel?)
      modifies this
      ensures notify == old(notify)
      ensures if CanAcquire(limits, old(Tally()), target)
              then grant != null && fresh(grant) && !grant.done && grant.target == target
                   && wait == null && Tally() == Take(old(Tally()), target)
              else grant == null && wait == notify && Tally() == old(Tally())
    {
      if CanAcquire(limits, Tally(), target) {
        globalInUse := globalInUse + 1;
        if target != "" {
          perTarget := perTarget[target := (if target in perTarget then perTarget[target] else 0) + 1];
        }
        grant := new Grant(target);
        wait := null;
      } else {
        grant, wait := null, notify;
      }
    }

    /** A release after the first does nothing. */
    method Release(grant: Grant)
      requires !grant.done ==> !notify.closed
      modifies this, grant, notify
      ensures grant.done
      ensures old(grant.done) ==> Tally() == old(Tally()) && notify == old(notify) && notify.closed == old(notify.closed)
      ensures !old(grant.done) ==>
                && Tally() == GiveBack(old(Tally()), grant.target)
                && fresh(notify) && !notify.closed && old(notify).closed
    {
      if grant.done {
        return;
      }
      grant.done := true;
      if globalInUse > 0 {
        globalInUse := globalInUse - 1;
      }
      var target := grant.target;
      if target != "" {
        var current := if target in perTarget then perTarget[target] else 0;
        if current <= 1 {
          perTarget := perTarget - {target};
        } else {
          perTarget := perTarget[target := current - 1];
        }
      }
      var closing := notify;
      notify := new Channel();
      closing.closed := true;
    }
  }

  // ------------------------------------------------------------------
  // All callers together

  /** Where one call stands. Channels are numbered in the order they were made. */
  datatype Phase =
    | Trying(target: Target)
    | Waiting(target: Target, channel: nat)
    | Holding(target: Target)
    | Released(target: Target)
    | TimedOut(target: Target)
    | Unlimited(target: Target)

  datatype State = State(limits: Limits, counts: Counts, notify: nat, closed: set<nat>, callers: map<CallerId, Phase>)

  /** The lock-held regions and the two ways out of a wait. Which comes next is arbitrary. */
  datatype Event =
    | Call(c: CallerId, target: Target)
    | Try(c: CallerId)
    | Wake(c: CallerId)
    | Expire(c: CallerId)
    | Release(c: CallerId)

  function Initial(l: Limits): State {
    State(l, Counts(0, map[]), 0, {}, map[])
  }

  predicate CanHappen(s: State, e: Event) {
    match e
    case Call(c, _) => c !in s.callers
    case Try(c) => c in s.callers && s.callers[c].Trying?
    case Wake(c) => c in s.callers && s.callers[c].Waiting? && s.callers[c].channel in s.closed
    case Expire(c) => c in s.callers && s.callers[c].Waiting?
    case Release(c) => c in s.callers && (s.callers[c].Holding? || s.callers[c].Released? || s.callers[c].Unlimited?)
  }

  function After(s: State, e: Event): State
    requires CanHappen(s, e)
  {
    match e
    case Call(c, t) => s.(callers := s.callers[c := if Enabled(s.limits) then Trying(t) else Unlimited(t)])
    case Try(c) =>
      var t := s.callers[c].target;
      if CanAcquire(s.limits, s.counts, t)
      then s.(counts := Take(s.counts, t), callers := s.callers[c := Holding(t)])
      else s.(callers := s.callers[c := Waiting(t, s.notify)])
    case Wake(c) => s.(callers := s.callers[c := Trying(s.callers[c].target)])
    case Expire(c) => s.(callers := s.callers[c := TimedOut(s.callers[c].target)])
    case Release(c) =>
      var t := s.callers[c].target;
      if s.callers[c].Holding?
      then s.(counts := GiveBack(s.counts, t), notify := s.notify + 1, closed := s.closed + {s.notify},
              callers := s.callers[c := Released(t)])
      else s
  }

  /** The state after each event in turn; None when one of them could not happen. */
  function Run(s: State, es: seq<Event>): Option<State>
    decreases |es|
  {
    if es == [] then Some(s)
    else if CanHappen(s, es[0]) then Run(After(s, es[0]), es[1..])
    else None
  }

  ghost predicate Reachable(s: State) {
    exists l, es :: Run(Initial(l), es) == Some(s)
  }

  // ------------------------------------------------------------------
  // What every state keeps

  /** The callers that were admitted and have not released. */
  ghost function Holders(s: State): set<CallerId> {
    set c | c in s.callers && s.callers[c].Holding?
  }

  ghost function HoldersOf(s: State, t: Target): set<CallerId> {
    set c | c in s.callers && s.callers[c] == Holding(t)
  }

  ghost predicate CountsHolders(s: State) {
    && s.counts.globalInUse == |Holders(s)|
    && (forall t | t != "" :: InUse(s.counts, t) == |HoldersOf(s, t)|)
    && (forall t | t in s.counts.perTarget :: t != "" && s.counts.perTarget[t] > 0)
  }

  ghost predicate WithinLimits(s: State) {
    && (s.limits.global > 0 ==> s.counts.globalInUse <= s.limits.global)
    && (s.limits.perTarget > 0 ==> forall t | t in s.counts.perTarget :: s.counts.perTarget[t] <= s.limits.perTarget)
  }

  /** Every channel but the current one is closed, and the current one is not: it is
      closed once, when it is replaced. */
  ghost predicate ChannelsClosed(s: State) {
    forall n: nat :: n in s.closed <==> n < s.notify
  }

  /** A caller waiting on the current channel would still find no room; all others can wake. */
  ghost predicate NoLostWakeup(s: State) {
    forall c | c in s.callers && s.callers[c].Waiting? ::
      && s.callers[c].channel <= s.notify
      && (s.callers[c].channel == s.notify ==> !CanAcquire(s.limits, s.counts, s.callers[c].target))
  }

  ghost predicate Inv(s: State) {
    && CountsHolders(s) && WithinLimits(s) && ChannelsClosed(s) && NoLostWakeup(s)
    && (Enabled(s.limits) ==> forall c | c in s.callers :: !s.callers[c].Unlimited?)
    && (!Enabled(s.limits) ==> forall c | c in s.callers :: s.callers[c].Unlimited?)
  }

  lemma {:induction false} InitialInv(l: Limits)
    ensures Inv(Initial(l))
  {
    var s := Initial(l);
    assert Holders(s) == {};
    forall t ensures HoldersOf(s, t) == {} {}
  }

  /** Only a call's own turn changes its phase; this is what that does to the sets of holders. */
  lemma {:induction false} HoldersMove(s: State, s': State, c: CallerId)
    requires c in s'.callers && s'.callers == s.callers[c := s'.callers[c]]
    ensures Holders(s') == if s'.callers[c].Holding? then Holders(s) + {c} else Holders(s) - {c}
    ensures forall t :: HoldersOf(s', t) == if s'.callers[c] == Holding(t) then HoldersOf(s, t) + {c} else HoldersOf(s, t) - {c}
  {
  }

  lemma {:induction false} GlobalCountKept(s: State, e: Event)
    requires CountsHolders(s) && CanHappen(s, e)
    ensures After(s, e).counts.globalInUse == |Holders(After(s, e))|
  {
    var s' := After(s, e);
    if s'.callers != s.callers {
      HoldersMove(s, s', e.c);
      assert e.c in Holders(s) <==> e.c in s.callers && s.callers[e.c].Holding?;
      hide Holders, HoldersOf;
    }
  }

  lemma {:induction false} CountsMove(c: Counts, u: Target, t: Target)
    requires t != ""
    ensures InUse(Take(c, u), t) == InUse(c, t) + if t == u then 1 else 0
    ensures InUse(GiveBack(c, u), t) == if t == u && InUse(c, t) > 0 then InUse(c, t) - 1 else InUse(c, t)
  {
  }

  /** A turn changes the count of a target as it changes its holders. */
  lemma {:induction false} TurnCounts(s: State, e: Event, t: Target)
    requires CanHappen(s, e) && t != "" && After(s, e).callers != s.callers
    requires InUse(s.counts, t) == |HoldersOf(s, t)|
    ensures var was := e.c in s.callers && s.callers[e.c] == Holding(t);
            var now := After(s, e).callers[e.c] == Holding(t);
            InUse(After(s, e).counts, t) == InUse(s.counts, t) - (if was then 1 else 0) + (if now then 1 else 0)
  {
    assert e.c in s.callers && s.callers[e.c] == Holding(t) ==> e.c in HoldersOf(s, t);
    if e.c in s.callers {
      CountsMove(s.counts, s.callers[e.c].target, t);
    }
    hide HoldersOf, InUse, Take, GiveBack;
  }

  lemma {:induction false} TargetCountKept(s: State, e: Event, t: Target)
    requires InUse(s.counts, t) == |HoldersOf(s, t)| && CanHappen(s, e) && t != ""
    ensures InUse(After(s, e).counts, t) == |HoldersOf(After(s, e), t)|
  {
    var s' := After(s, e);
    if s'.callers != s.callers {
      TurnCounts(s, e, t);
      HoldersMove(s, s', e.c);
      assert e.c in HoldersOf(s, t) <==> e.c in s.callers && s.callers[e.c] == Holding(t);
      hide HoldersOf, InUse, After;
    }
  }

  lemma {:induction false} CountsKept(s: State, e: Event)
    requires CountsHolders(s) && CanHappen(s, e)
    ensures CountsHolders(After(s, e))
  {
    hide HoldersOf, Holders;
    GlobalCountKept(s, e);
    forall t | t != "" ensures InUse(After(s, e).counts, t) == |HoldersOf(After(s, e), t)| {
      TargetCountKept(s, e, t);
    }
  }

  lemma {:induction false} LimitsKept(s: State, e: Event)
    requires WithinLimits(s) && CanHappen(s, e)
    ensures WithinLimits(After(s, e))
  {
  }

  /** Taking never makes room, so a caller found without room stays without. */
  lemma {:induction false} WakeupsKept(s: State, e: Event)
    requires ChannelsClosed(s) && NoLostWakeup(s) && CanHappen(s, e)
    ensures ChannelsClosed(After(s, e)) && NoLostWakeup(After(s, e))
  {
  }

  lemma {:induction false} StepKeeps(s: State, e: Event)
    requires Inv(s) && CanHappen(s, e)
    ensures Inv(After(s, e))
  {
    CountsKept(s, e);
    LimitsKept(s, e);
    WakeupsKept(s, e);
  }

  lemma {:induction false} RunKeeps(s: State, es: seq<Event>)
    requires Inv(s) && Run(s, es).Some?
    ensures Inv(Run(s, es).value)
    decreases |es|
  {
    hide Inv;
    if es != [] {
      StepKeeps(s, es[0]);
      RunKeeps(After(s, es[0]), es[1..]);
    }
  }

  /** Every interleaving, from the start, only visits states with all these properties. */
  lemma {:induction false} ReachableInv(s: State)
    requires Reachable(s)
    ensures Inv(s)
  {
    var l, es :| Run(Initial(l), es) == Some(s);
    InitialInv(l);
    RunKeeps(Initial(l), es);
  }

  // ------------------------------------------------------------------
  // What callers can rely on

  /** The counters are the outstanding admissions, and those keep to the limits. */
  lemma {:induction false} OutstandingWithinLimits(s: State, t: Target)
    requires Reachable(s)
    ensures s.counts.globalInUse == |Holders(s)|
    ensures t != "" ==> InUse(s.counts, t) == |HoldersOf(s, t)|
    ensures s.limits.global > 0 ==> |Holders(s)| <= s.limits.global
    ensures t != "" && s.limits.perTarget > 0 ==> |HoldersOf(s, t)| <= s.limits.perTarget
  {
    hide Reachable;
    ReachableInv(s);
  }

  /** A caller is admitted exactly when the admissions still outstanding leave room. */
  lemma {:induction false} AdmittedExactly(s: State, c: CallerId)
    requires Reachable(s) && CanHappen(s, Try(c))
    ensures After(s, Try(c)).callers[c].Holding? <==>
              && (s.limits.global == 0 || |Holders(s)| < s.limits.global)
              && (s.callers[c].target == "" || s.limits.perTarget == 0
                  || |HoldersOf(s, s.callers[c].target)| < s.limits.perTarget)
  {
    hide Reachable;
    ReachableInv(s);
  }

  /** A release never finds a counter at zero, and never closes a closed channel. */
  lemma {:induction false} ReleaseIsExact(s: State, c: CallerId)
    requires Reachable(s) && CanHappen(s, Release(c)) && s.callers[c].Holding?
    ensures s.counts.globalInUse > 0 && s.notify !in s.closed
    ensures s.callers[c].target != "" ==> InUse(s.counts, s.callers[c].target) > 0
    ensures forall w | w in s.callers && s.callers[w].Waiting? :: CanHappen(After(s, Release(c)), Wake(w))
  {
    hide Reachable;
    ReachableInv(s);
    assert c in Holders(s) && c in HoldersOf(s, s.callers[c].target);
  }

  /** Whatever happens after a release, releasing again changes nothing. */
  lemma {:induction false} ReleaseOnce(s: State, es: seq<Event>, c: CallerId)
    requires c in s.callers && s.callers[c].Released? && Run(s, es).Some?
    ensures c in Run(s, es).value.callers && Run(s, es).value.callers[c] == s.callers[c]
    ensures Run(s, es + [Release(c)]) == Run(s, es)
    decreases |es|
  {
    if es == [] {
      assert Run(s, [Release(c)]) == Run(s, []);
    } else {
      ReleaseOnce(After(s, es[0]), es[1..], c);
      assert (es + [Release(c)])[1..] == es[1..] + [Release(c)];
    }
  }

  /** A caller that gave up holds nothing and never will. */
  lemma {:induction false} ExpiredHoldsNothing(s: State, es: seq<Event>, c: CallerId)
    requires c in s.callers && s.callers[c].TimedOut? && Run(s, es).Some?
    ensures c !in Holders(Run(s, es).value)
    decreases |es|
  {
    if es != [] {
      ExpiredHoldsNothing(After(s, es[0]), es[1..], c);
    }
  }

  /** Nobody waits for nothing: somebody's release would wake a caller that still waits. */
  lemma {:induction false} WaiterHasHolder(s: State, c: CallerId)
    requires Reachable(s) && c in s.callers && s.callers[c].Waiting?
    ensures CanHappen(s, Wake(c)) || Holders(s) != {}
  {
    hide Reachable;
    ReachableInv(s);
    assert HoldersOf(s, s.callers[c].target) <= Holders(s);
    assert Holders(s) == {} ==> HoldersOf(s, s.callers[c].target) == {};
  }

  lemma {:induction false} RunOn(s: State, es: seq<Event>, fs: seq<Event>)
    requires Run(s, es).Some?
    ensures Run(s, es + fs) == Run(Run(s, es).value, fs)
    decreases |es|
  {
    if es == [] {
      assert es + fs == fs;
    } else {
      assert (es + fs)[1..] == es[1..] + fs;
      RunOn(After(s, es[0]), es[1..], fs);
    }
  }

  lemma {:induction false} ReachableOn(s: State, es: seq<Event>)
    requires Reachable(s) && Run(s, es).Some?
    ensures Reachable(Run(s, es).value)
  {
    var l, ds :| Run(Initial(l), ds) == Some(s);
    RunOn(Initial(l), ds, es);
    assert Run(Initial(l), ds + es) == Some(Run(s, es).value);
  }

  /** No caller is stuck for good: from wherever the run is, it can still be admitted. */
  lemma {:induction false} AdmissionReachable(s: State, c: CallerId) returns (es: seq<Event>)
    requires Reachable(s) && c in s.callers && (s.callers[c].Waiting? || s.callers[c].Trying?)
    ensures Run(s, es).Some? && c in Holders(Run(s, es).value)
    decreases |Holders(s)|, s.callers[c].Waiting?
  {
    hide Reachable, Run;
    var e: Event;
    if Holders(s) != {} {
      var x :| x in Holders(s);
      e := Release(x);
      assert Holders(After(s, e)) == Holders(s) - {x};
    } else if s.callers[c].Waiting? {
      WaiterHasHolder(s, c);
      e := Wake(c);
      assert Holders(After(s, e)) == {};
    } else {
      AdmittedExactly(s, c);
      assert HoldersOf(s, s.callers[c].target) == {};
      OneStep(s, Try(c));
      return [Try(c)];
    }
    OneStep(s, e);
    ReachableOn(s, [e]);
    var rest := AdmissionReachable(After(s, e), c);
    RunOn(s, [e], rest);
    es := [e] + rest;
  }

  lemma {:induction false} OneStep(s: State, e: Event)
    requires CanHappen(s, e)
    ensures Run(s, [e]) == Some(After(s, e))
  {
    assert Run(After(s, e), []) == Some(After(s, e));
  }
}
