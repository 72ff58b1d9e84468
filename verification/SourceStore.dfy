/** The lazily parsed class store. A class is looked for in the file behind its longest
    indexed prefix, and callers that need the same file share one parse of it. */
module SourceStore {
  import opened Options

  type Fqn = string
  type Path = string
  type CallerId = nat

  /** A parsed class; nothing here depends on what it says beside its name. */
  datatype JavaClass = JavaClass(fqn: Fqn, members: string)

  datatype Parsed = Parsed(ok: bool, classes: seq<JavaClass>)

  type Index = map<Fqn, Path>
  type Cache = map<Fqn, JavaClass>

  // ------------------------------------------------------------------
  // Which file is behind a name

  /** The first n characters of the name are the name itself or one of its outer names. */
  predicate Cut(fqn: Fqn, n: int) {
    0 <= n <= |fqn| && (n == |fqn| || fqn[n] == '.')
  }

  ghost predicate LongestIndexed(index: Index, fqn: Fqn, n: int) {
    && Cut(fqn, n) && fqn[..n] in index
    && forall m | n < m && Cut(fqn, m) :: fqn[..m] !in index
  }

  /** The file of the longest indexed prefix of the first n characters. */
  function PathUpTo(index: Index, fqn: Fqn, n: int): (p: Option<Path>)
    requires -1 <= n <= |fqn|
    ensures p.Some? ==> exists m :: m <= n && Cut(fqn, m) && fqn[..m] in index && index[fqn[..m]] == p.value
                                    && forall k | m < k <= n && Cut(fqn, k) :: fqn[..k] !in index
    ensures p.None? ==> forall m | m <= n && Cut(fqn, m) :: fqn[..m] !in index
    decreases n
  {
    if n < 0 then None
    else if Cut(fqn, n) && fqn[..n] in index then Some(index[fqn[..n]])
    else PathUpTo(index, fqn, n - 1)
  }

  function PathFor(index: Index, fqn: Fqn): Option<Path> {
    PathUpTo(index, fqn, |fqn|)
  }

  lemma {:induction false} PathForLongest(index: Index, fqn: Fqn, n: int)
    requires LongestIndexed(index, fqn, n)
    ensures PathFor(index, fqn) == Some(index[fqn[..n]])
  {
    var p := PathFor(index, fqn);
    if p.Some? {
      var m :| m <= |fqn| && Cut(fqn, m) && fqn[..m] in index && index[fqn[..m]] == p.value
               && forall k | m < k <= |fqn| && Cut(fqn, k) :: fqn[..k] !in index;
    }
  }

  // ------------------------------------------------------------------
  // The cache

  /** The class a file declares under a name: the last one, when there are several. */
  function Declared(classes: seq<JavaClass>, fqn: Fqn): Option<JavaClass> {
    if classes == [] then None
    else if classes[|classes| - 1].fqn == fqn then Some(classes[|classes| - 1])
    else Declared(classes[..|classes| - 1], fqn)
  }

  function Lookup(cache: Cache, fqn: Fqn): Option<JavaClass> {
    if fqn in cache then Some(cache[fqn]) else None
  }

  function StoreAll(cache: Cache, classes: seq<JavaClass>): Cache {
    if classes == [] then cache
    else
      var last := classes[|classes| - 1];
      StoreAll(cache, classes[..|classes| - 1])[last.fqn := last]
  }

  lemma {:induction false} StoredLookup(cache: Cache, classes: seq<JavaClass>, fqn: Fqn)
    ensures Lookup(StoreAll(cache, classes), fqn) ==
            if Declared(classes, fqn).Some? then Declared(classes, fqn) else Lookup(cache, fqn)
    decreases |classes|
  {
    if classes != [] {
      StoredLookup(cache, classes[..|classes| - 1], fqn);
    }
  }

  // ------------------------------------------------------------------
  // The store's shared state; K names the parses in flight

  datatype Core<K> = Core(cache: Cache, inflight: map<Path, K>, failures: set<Fqn>, failureCount: nat)

  datatype Found = Known(cls: JavaClass) | Unindexed | Backed(path: Path)

  datatype Entered<K> = Hit(cls: JavaClass) | Shared(call: K) | Lead

  function Find(index: Index, cache: Cache, fqn: Fqn): Found {
    if fqn in cache then Known(cache[fqn])
    else match PathFor(index, fqn)
      case Some(path) => Backed(path)
      case None => Unindexed
  }

  function Enter<K>(core: Core<K>, fqn: Fqn, path: Path): Entered<K> {
    if fqn in core.cache then Hit(core.cache[fqn])
    else if path in core.inflight then Shared(core.inflight[path])
    else Lead
  }

  function RecordFailure<K>(core: Core<K>, fqn: Fqn): Core<K> {
    if fqn in core.failures then core
    else core.(failures := core.failures + {fqn}, failureCount := core.failureCount + 1)
  }

  function Usable(p: Parsed): bool {
    p.ok && p.classes != []
  }

  /** The owner of a parse is done with it. */
  function Finished<K(==)>(core: Core<K>, fqn: Fqn, path: Path, call: K, p: Parsed): Core<K> {
    var stored := if Usable(p) then core.(cache := StoreAll(core.cache, p.classes)) else core;
    var noted := if Usable(p) && fqn in stored.cache then stored else RecordFailure(stored, fqn);
    if path in noted.inflight && noted.inflight[path] == call then noted.(inflight := noted.inflight - {path}) else noted
  }

  /** What the owner answers; a class cached meanwhile is not looked at after a failed parse. */
  function OwnerAnswer(cache: Cache, fqn: Fqn, p: Parsed): Option<JavaClass> {
    if Usable(p) then Lookup(StoreAll(cache, p.classes), fqn) else None
  }

  // ------------------------------------------------------------------
  // The program's object, one method for each region under its lock

  class ParseCall {
    var done: bool

    constructor ()
      ensures !done
    {
      done := false;
    }
  }

  class Store {
    const index: Index
    var cache: Cache
    var inflight: map<Path, ParseCall>
    var failures: set<Fqn>
    var failureCount: nat

    constructor (index: Index)
      ensures this.index == index && Contents() == Core(map[], map[], {}, 0)
    {
      this.index := index;
      cache, inflight, failures, failureCount := map[], map[], {}, 0;
    }

    ghost function Contents(): Core<ParseCall>
      reads this
    {
      Core(cache, inflight, failures, failureCount)
    }

    method FindIndexedPathFor(fqn: Fqn) returns (p: Option<Path>)
      ensures p == PathFor(index, fqn)
    {
      assert fqn[..|fqn|] == fqn;
      if fqn in index {
        return Some(index[fqn]);
      }
      var candidate := |fqn|;
      while true
        invariant 0 <= candidate <= |fqn| && PathFor(index, fqn) == PathUpTo(index, fqn, candidate - 1)
        decreases candidate
      {
        var cut := candidate - 1;
        while cut >= 0 && fqn[cut] != '.'
          invariant -1 <= cut < candidate && PathFor(index, fqn) == PathUpTo(index, fqn, cut)
        {
          cut := cut - 1;
        }
        if cut < 0 {
          return None;
        }
        candidate := cut;
        if fqn[..candidate] in index {
          return Some(index[fqn[..candidate]]);
        }
      }
    }

    method LookUp(fqn: Fqn) returns (r: Found)
      ensures r == Find(index, cache, fqn)
    {
      if fqn in cache {
        return Known(cache[fqn]);
      }
      var path := FindIndexedPathFor(fqn);
      r := if path.Some? then Backed(path.value) else Unindexed;
    }

    /** Joins the parse of the file that is in flight, or becomes the owner of a new one. */
    method EnterParse(fqn: Fqn, path: Path) returns (r: Entered<ParseCall>, call: ParseCall?)
      modifies this
      ensures r == Enter(old(Contents()), fqn, path)
      ensures r.Lead? <==> call != null
      ensures if call != null
              then fresh(call) && !call.done && Contents() == old(Contents()).(inflight := old(inflight)[path := call])
              else Contents() == old(Contents())
    {
      call := null;
      if fqn in cache {
        return Hit(cache[fqn]), null;
      }
      if path in inflight {
        return Entered.Shared(inflight[path]), null;
      }
      call := new ParseCall();
      inflight := inflight[path := call];
      r := Lead;
    }

    method FinishParse(fqn: Fqn, path: Path, call: ParseCall, p: Parsed) returns (o: Option<JavaClass>)
      requires !call.done
      modifies this, call
      ensures call.done && Contents() == Finished(old(Contents()), fqn, path, call, p)
      ensures o == OwnerAnswer(old(cache), fqn, p)
    {
      o := None;
      if !p.ok || |p.classes| == 0 {
        NoteFailure(fqn);
      } else {
        var i := 0;
        while i < |p.classes|
          invariant 0 <= i <= |p.classes| && cache == StoreAll(old(cache), p.classes[..i])
          invariant inflight == old(inflight) && failures == old(failures) && failureCount == old(failureCount)
          invariant !call.done
        {
          assert p.classes[..i + 1][..i] == p.classes[..i];
          cache := cache[p.classes[i].fqn := p.classes[i]];
          i := i + 1;
        }
        assert p.classes[..i] == p.classes;
        if fqn in cache {
          o := Some(cache[fqn]);
        } else {
          NoteFailure(fqn);
        }
      }
      if path in inflight && inflight[path] == call {
        inflight := inflight - {path};
      }
      call.done := true;
    }

    method NoteFailure(fqn: Fqn)
      modifies this
      ensures Contents() == RecordFailure(old(Contents()), fqn)
    {
      if fqn !in failures {
        failures, failureCount := failures + {fqn}, failureCount + 1;
      }
    }
  }

  // ------------------------------------------------------------------
  // All callers together

  /** What never changes: the index, and what each file parses to. */
  datatype Env = Env(index: Index, parse: Path -> Parsed)

  /** Where a caller stands, between two regions under the lock. */
  datatype Phase =
    | Asking(fqn: Fqn)
    | Located(fqn: Fqn, path: Path)
    | Parsing(fqn: Fqn, path: Path, call: nat)
    | Blocked(fqn: Fqn, call: nat)
    | Missed(fqn: Fqn, call: nat)
    | Answered(fqn: Fqn, answer: Option<JavaClass>)

  /** A parse: its file, who runs it, and how often its done channel was closed. */
  datatype Call = Call(path: Path, owner: CallerId, closes: nat)

  datatype State = State(core: Core<nat>, calls: seq<Call>, callers: map<CallerId, Phase>)

  datatype Event =
    | Ask(c: CallerId, fqn: Fqn)
    | LookUp(c: CallerId)
    | Join(c: CallerId)
    | Finish(c: CallerId)
    | Resume(c: CallerId)
    | Note(c: CallerId)

  const Initial: State := State(Core(map[], map[], {}, 0), [], map[])

  predicate CanHappen(s: State, e: Event) {
    if e.Ask? then e.c !in s.callers
    else
      && e.c in s.callers
      && match e
         case Ask(_, _) => false
         case LookUp(c) => s.callers[c].Asking?
         case Join(c) => s.callers[c].Located?
         case Finish(c) => s.callers[c].Parsing? && s.callers[c].call < |s.calls|
         case Resume(c) => s.callers[c].Blocked? && s.callers[c].call < |s.calls| && s.calls[s.callers[c].call].closes > 0
         case Note(c) => s.callers[c].Missed?
  }

  function Moved(s: State, c: CallerId, p: Phase): State {
    s.(callers := s.callers[c := p])
  }

  function AfterLookUp(env: Env, s: State, c: CallerId, fqn: Fqn): State {
    match Find(env.index, s.core.cache, fqn)
    case Known(cls) => Moved(s, c, Answered(fqn, Some(cls)))
    case Unindexed => Moved(s, c, Answered(fqn, None))
    case Backed(path) => Moved(s, c, Located(fqn, path))
  }

  function AfterJoin(s: State, c: CallerId, fqn: Fqn, path: Path): State {
    match Enter(s.core, fqn, path)
    case Hit(cls) => Moved(s, c, Answered(fqn, Some(cls)))
    case Shared(call) => Moved(s, c, Blocked(fqn, call))
    case Lead =>
      State(s.core.(inflight := s.core.inflight[path := |s.calls|]),
            s.calls + [Call(path, c, 0)],
            s.callers[c := Parsing(fqn, path, |s.calls|)])
  }

  function AfterFinish(env: Env, s: State, c: CallerId, fqn: Fqn, path: Path, call: nat): State
    requires call < |s.calls|
  {
    State(Finished(s.core, fqn, path, call, env.parse(path)),
          s.calls[call := s.calls[call].(closes := s.calls[call].closes + 1)],
          s.callers[c := Answered(fqn, OwnerAnswer(s.core.cache, fqn, env.parse(path)))])
  }

  function After(env: Env, s: State, e: Event): State
    requires CanHappen(s, e)
  {
    match e
    case Ask(c, fqn) => Moved(s, c, Asking(fqn))
    case LookUp(c) => AfterLookUp(env, s, c, s.callers[c].fqn)
    case Join(c) => AfterJoin(s, c, s.callers[c].fqn, s.callers[c].path)
    case Finish(c) => AfterFinish(env, s, c, s.callers[c].fqn, s.callers[c].path, s.callers[c].call)
    case Resume(c) =>
      var fqn := s.callers[c].fqn;
      if fqn in s.core.cache then Moved(s, c, Answered(fqn, Some(s.core.cache[fqn])))
      else Moved(s, c, Missed(fqn, s.callers[c].call))
    case Note(c) =>
      var fqn := s.callers[c].fqn;
      Moved(s.(core := RecordFailure(s.core, fqn)), c, Answered(fqn, None))
  }

  function Run(env: Env, s: State, es: seq<Event>): Option<State>
    decreases |es|
  {
    if es == [] then Some(s)
    else if CanHappen(s, es[0]) then Run(env, After(env, s, es[0]), es[1..])
    else None
  }

  ghost predicate Reachable(env: Env, s: State) {
    exists es :: Run(env, Initial, es) == Some(s)
  }

  // ------------------------------------------------------------------
  // What every state keeps

  /** The parse in flight for a file is one of that file, whose channel is open. */
  ghost predicate InflightOk(s: State, p: Path) {
    p in s.core.inflight ==>
      && s.core.inflight[p] < |s.calls|
      && s.calls[s.core.inflight[p]].path == p && s.calls[s.core.inflight[p]].closes == 0
  }

  /** A channel is closed at most once. While it is open, its parse is the one in flight
      for its file, and its owner is running it. */
  ghost predicate CallOk(s: State, k: nat) {
    k < |s.calls| ==>
      && s.calls[k].closes <= 1
      && (s.calls[k].closes == 0 ==>
            && s.calls[k].path in s.core.inflight && s.core.inflight[s.calls[k].path] == k
            && s.calls[k].owner in s.callers
            && s.callers[s.calls[k].owner].Parsing? && s.callers[s.calls[k].owner].call == k)
  }

  /** Everyone works on, or waits for, the file behind the name asked for, and runs a
      parse only as its owner. */
  ghost predicate CallerOk(env: Env, s: State, c: CallerId) {
    c in s.callers ==>
      match s.callers[c]
      case Located(fqn, path) => PathFor(env.index, fqn) == Some(path)
      case Parsing(fqn, path, k) =>
        PathFor(env.index, fqn) == Some(path) && k < |s.calls| && s.calls[k] == Call(path, c, 0)
      case Blocked(fqn, k) => k < |s.calls| && PathFor(env.index, fqn) == Some(s.calls[k].path)
      case Missed(fqn, k) => k < |s.calls| && PathFor(env.index, fqn) == Some(s.calls[k].path)
      case _ => true
  }

  ghost predicate Inv(env: Env, s: State) {
    && (forall p :: InflightOk(s, p))
    && (forall k :: CallOk(s, k))
    && (forall c :: CallerOk(env, s, c))
    && s.core.failureCount == |s.core.failures|
  }

  /** A step that starts and ends no parse. */
  lemma {:induction false} MoveKeeps(env: Env, s: State, s': State, c: CallerId)
    requires Inv(env, s) && s'.calls == s.calls && s'.core.inflight == s.core.inflight
    requires s'.core.failureCount == |s'.core.failures|
    requires c in s'.callers && s'.callers == s.callers[c := s'.callers[c]]
    requires (c in s.callers ==> !s.callers[c].Parsing?) && !s'.callers[c].Parsing? && CallerOk(env, s', c)
    ensures Inv(env, s')
  {
    hide PathFor;
    forall p ensures InflightOk(s', p) { assert InflightOk(s, p); }
    forall k ensures CallOk(s', k) { assert CallOk(s, k); }
    forall x ensures CallerOk(env, s', x) { assert CallerOk(env, s, x); }
  }

  lemma {:induction false} LeadKeeps(env: Env, s: State, c: CallerId, fqn: Fqn, path: Path)
    requires Inv(env, s) && c in s.callers && s.callers[c] == Located(fqn, path)
    requires Enter(s.core, fqn, path).Lead?
    ensures Inv(env, AfterJoin(s, c, fqn, path))
  {
    hide PathFor;
    var s' := AfterJoin(s, c, fqn, path);
    assert CallerOk(env, s, c);
    forall p ensures InflightOk(s', p) { assert InflightOk(s, p); }
    forall k ensures CallOk(s', k) { assert CallOk(s, k); }
    forall x ensures CallerOk(env, s', x) { assert CallerOk(env, s, x); }
  }

  lemma {:induction false} FinishKeeps(env: Env, s: State, c: CallerId, fqn: Fqn, path: Path, call: nat)
    requires Inv(env, s) && c in s.callers && s.callers[c] == Parsing(fqn, path, call) && call < |s.calls|
    ensures Inv(env, AfterFinish(env, s, c, fqn, path, call))
  {
    var s' := AfterFinish(env, s, c, fqn, path, call);
    var p := env.parse(path);
    assert CallerOk(env, s, c) && CallOk(s, call);
    FinishedKeeps(s.core, fqn, path, call, p);
    hide PathFor, OwnerAnswer, Finished;
    forall q ensures InflightOk(s', q) { assert InflightOk(s, q); }
    forall k ensures CallOk(s', k) { assert CallOk(s, k); }
    forall x ensures CallerOk(env, s', x) { assert CallerOk(env, s, x); }
  }

  lemma {:induction false} FinishedKeeps(core: Core<nat>, fqn: Fqn, path: Path, call: nat, p: Parsed)
    requires path in core.inflight && core.inflight[path] == call && core.failureCount == |core.failures|
    ensures Finished(core, fqn, path, call, p).inflight == core.inflight - {path}
    ensures Finished(core, fqn, path, call, p).failureCount == |Finished(core, fqn, path, call, p).failures|
    ensures Finished(core, fqn, path, call, p).cache == if Usable(p) then StoreAll(core.cache, p.classes) else core.cache
  {
    hide StoreAll, Usable, RecordFailure;
    var stored := if Usable(p) then core.(cache := StoreAll(core.cache, p.classes)) else core;
    FailureRecorded(stored, fqn);
  }

  lemma {:induction false} FailureRecorded(core: Core<nat>, fqn: Fqn)
    requires core.failureCount == |core.failures|
    ensures RecordFailure(core, fqn).failureCount == |RecordFailure(core, fqn).failures|
    ensures RecordFailure(core, fqn).cache == core.cache && RecordFailure(core, fqn).inflight == core.inflight
  {
  }

  lemma {:induction false} JoinKeeps(env: Env, s: State, c: CallerId)
    requires Inv(env, s) && CanHappen(s, Join(c))
    ensures Inv(env, After(env, s, Join(c)))
  {
    hide PathFor, OwnerAnswer;
    var fqn, path := s.callers[c].fqn, s.callers[c].path;
    assert CallerOk(env, s, c);
    if Enter(s.core, fqn, path).Lead? {
      LeadKeeps(env, s, c, fqn, path);
    } else {
      assert InflightOk(s, path);
      MoveKeeps(env, s, AfterJoin(s, c, fqn, path), c);
    }
  }

  /** The other steps move one caller, who neither parses before nor after. */
  lemma {:induction false} QuietMoves(env: Env, s: State, e: Event)
    requires CanHappen(s, e) && !e.Join? && !e.Finish? && CallerOk(env, s, e.c)
    requires s.core.failureCount == |s.core.failures|
    ensures var s' := After(env, s, e);
            && s'.calls == s.calls && s'.core.inflight == s.core.inflight
            && s'.core.failureCount == |s'.core.failures|
            && e.c in s'.callers && s'.callers == s.callers[e.c := s'.callers[e.c]]
            && (e.c in s.callers ==> !s.callers[e.c].Parsing?) && !s'.callers[e.c].Parsing? && CallerOk(env, s', e.c)
  {
    hide PathFor, RecordFailure;
    if e.Note? {
      FailureRecorded(s.core, s.callers[e.c].fqn);
    }
  }

  lemma {:induction false} StepKeeps(env: Env, s: State, e: Event)
    requires Inv(env, s) && CanHappen(s, e)
    ensures Inv(env, After(env, s, e))
  {
    match e {
      case Join(c) => JoinKeeps(env, s, c);
      case Finish(c) => FinishKeeps(env, s, c, s.callers[c].fqn, s.callers[c].path, s.callers[c].call);
      case _ =>
        assert CallerOk(env, s, e.c);
        QuietMoves(env, s, e);
        MoveKeeps(env, s, After(env, s, e), e.c);
    }
  }

  lemma {:induction false} RunKeeps(env: Env, s: State, es: seq<Event>)
    requires Inv(env, s) && Run(env, s, es).Some?
    ensures Inv(env, Run(env, s, es).value)
    decreases |es|
  {
    hide Inv;
    if es != [] {
      StepKeeps(env, s, es[0]);
      RunKeeps(env, After(env, s, es[0]), es[1..]);
    }
  }

  lemma {:induction false} ReachableInv(env: Env, s: State)
    requires Reachable(env, s)
    ensures Inv(env, s)
  {
    var es :| Run(env, Initial, es) == Some(s);
    RunKeeps(env, Initial, es);
  }

  // ------------------------------------------------------------------
  // What callers can rely on, whatever the files hold

  /** Two callers never parse the same file at the same time. */
  lemma {:induction false} OneParsePerFile(env: Env, s: State, c: CallerId, d: CallerId)
    requires Reachable(env, s) && c in s.callers && d in s.callers
    requires s.callers[c].Parsing? && s.callers[d].Parsing? && s.callers[c].path == s.callers[d].path
    ensures c == d
  {
    hide Reachable, PathFor;
    ReachableInv(env, s);
    assert CallerOk(env, s, c) && CallerOk(env, s, d);
    assert CallOk(s, s.callers[c].call) && CallOk(s, s.callers[d].call);
  }

  /** The owner of a parse finds its channel open: closing it is always the first close. */
  lemma {:induction false} ClosedOnce(env: Env, s: State, c: CallerId)
    requires Reachable(env, s) && CanHappen(s, Finish(c))
    ensures s.calls[s.callers[c].call].closes == 0
    ensures After(env, s, Finish(c)).calls[s.callers[c].call].closes == 1
  {
    hide Reachable, PathFor;
    ReachableInv(env, s);
    assert CallerOk(env, s, c);
  }

  /** A caller that has no answer can move, or waits for an owner who can. */
  lemma {:induction false} NobodyStuck(env: Env, s: State, c: CallerId) returns (e: Event)
    requires Reachable(env, s) && c in s.callers && !s.callers[c].Answered?
    ensures CanHappen(s, e) && !e.Ask?
    ensures e.c == c || (s.callers[c].Blocked? && s.callers[c].call < |s.calls| && e == Finish(s.calls[s.callers[c].call].owner))
  {
    hide Reachable, PathFor;
    ReachableInv(env, s);
    assert CallerOk(env, s, c);
    match s.callers[c] {
      case Asking(_) => e := LookUp(c);
      case Located(_, _) => e := Join(c);
      case Parsing(_, _, _) => e := Finish(c);
      case Missed(_, _) => e := Note(c);
      case Blocked(_, k) =>
        assert CallOk(s, k);
        e := if s.calls[k].closes > 0 then Resume(c) else Finish(s.calls[k].owner);
    }
  }

  /** How many more regions a caller can go through. */
  function Left(p: Phase): nat {
    match p
    case Asking(_) => 4
    case Located(_, _) => 3
    case Parsing(_, _, _) => 1
    case Blocked(_, _) => 2
    case Missed(_, _) => 1
    case Answered(_, _) => 0
  }

  /** A caller is answered after at most four turns of its own. */
  lemma {:induction false} TurnsRunOut(env: Env, s: State, e: Event, c: CallerId)
    requires CanHappen(s, e) && c in s.callers
    ensures c in After(env, s, e).callers
    ensures e.c == c ==> Left(After(env, s, e).callers[c]) < Left(s.callers[c])
    ensures e.c != c ==> After(env, s, e).callers[c] == s.callers[c]
  {
  }

  /** The failure counter is the number of names with a recorded failure. */
  lemma {:induction false} FailuresCounted(env: Env, s: State)
    requires Reachable(env, s)
    ensures s.core.failureCount == |s.core.failures|
  {
    ReachableInv(env, s);
  }

  // ------------------------------------------------------------------
  // Which answers are right

  function DeclaredIn(p: Parsed, fqn: Fqn): Option<JavaClass> {
    if Usable(p) then Declared(p.classes, fqn) else None
  }

  /** The intended answer: the class as declared in the file behind its longest indexed prefix. */
  function Reference(env: Env, fqn: Fqn): Option<JavaClass> {
    match PathFor(env.index, fqn)
    case Some(path) => DeclaredIn(env.parse(path), fqn)
    case None => None
  }

  /** Whatever the file declares, looking the name up leads to the same class. */
  ghost predicate FileAgrees(env: Env, path: Path) {
    forall fqn | DeclaredIn(env.parse(path), fqn).Some? :: DeclaredIn(env.parse(path), fqn) == Reference(env, fqn)
  }

  ghost predicate Consistent(env: Env) {
    forall f | f in env.index :: FileAgrees(env, env.index[f])
  }

  ghost predicate CacheRight(env: Env, s: State, fqn: Fqn) {
    fqn in s.core.cache ==> Reference(env, fqn) == Some(s.core.cache[fqn])
  }

  /** What a finished parse found stays cached. */
  ghost predicate CallCached(env: Env, s: State, k: nat) {
    k < |s.calls| && s.calls[k].closes > 0 ==>
      forall fqn | DeclaredIn(env.parse(s.calls[k].path), fqn).Some? :: fqn in s.core.cache
  }

  ghost predicate CallerRight(env: Env, s: State, c: CallerId) {
    c in s.callers ==>
      && (s.callers[c].Missed? ==> Reference(env, s.callers[c].fqn) == None)
      && (s.callers[c].Answered? ==> Reference(env, s.callers[c].fqn) == s.callers[c].answer)
  }

  ghost predicate AllRight(env: Env, s: State) {
    && (forall f :: CacheRight(env, s, f))
    && (forall k :: CallCached(env, s, k))
    && (forall c :: CallerRight(env, s, c))
    && (forall f | f in s.core.failures :: Reference(env, f) == None)
  }

  /** Storing what an agreeing file declares keeps every cached class right. */
  lemma {:induction false} StoredRight(env: Env, cache: Cache, p: Parsed, f: Fqn)
    requires f in cache ==> Reference(env, f) == Some(cache[f])
    requires DeclaredIn(p, f).Some? ==> DeclaredIn(p, f) == Reference(env, f)
    ensures Usable(p) && f in StoreAll(cache, p.classes) ==> Reference(env, f) == Some(StoreAll(cache, p.classes)[f])
    ensures Usable(p) && f in cache ==> f in StoreAll(cache, p.classes)
    ensures DeclaredIn(p, f).Some? ==> Usable(p) && f in StoreAll(cache, p.classes)
    ensures Reference(env, f) == DeclaredIn(p, f) ==> OwnerAnswer(cache, f, p) == Reference(env, f)
  {
    hide Reference;
    StoredLookup(cache, p.classes, f);
  }

  lemma {:induction false} Agrees(env: Env, path: Path, f: Fqn)
    requires FileAgrees(env, path) && DeclaredIn(env.parse(path), f).Some?
    ensures DeclaredIn(env.parse(path), f) == Reference(env, f)
  {
  }

  lemma {:induction false} CacheAfterFinish(env: Env, s: State, c: CallerId, fqn: Fqn, path: Path, call: nat, f: Fqn)
    requires Inv(env, s) && AllRight(env, s) && FileAgrees(env, path)
    requires c in s.callers && s.callers[c] == Parsing(fqn, path, call) && call < |s.calls|
    ensures CacheRight(env, AfterFinish(env, s, c, fqn, path, call), f)
    ensures f in s.core.cache ==> f in AfterFinish(env, s, c, fqn, path, call).core.cache
    ensures DeclaredIn(env.parse(path), f).Some? ==> f in AfterFinish(env, s, c, fqn, path, call).core.cache
  {
    var p := env.parse(path);
    assert CallerOk(env, s, c) && CallOk(s, call);
    FinishedKeeps(s.core, fqn, path, call, p);
    hide PathFor, OwnerAnswer, Finished, DeclaredIn, Reference, StoreAll;
    assert CacheRight(env, s, f);
    if DeclaredIn(p, f).Some? { Agrees(env, path, f); }
    StoredRight(env, s.core.cache, p, f);
  }

  lemma {:induction false} AnswerAtFinish(env: Env, cache: Cache, fqn: Fqn, path: Path)
    requires PathFor(env.index, fqn) == Some(path)
    requires fqn in cache ==> Reference(env, fqn) == Some(cache[fqn])
    ensures OwnerAnswer(cache, fqn, env.parse(path)) == Reference(env, fqn) == DeclaredIn(env.parse(path), fqn)
  {
    StoredRight(env, cache, env.parse(path), fqn);
  }

  lemma {:induction false} FinishRight(env: Env, s: State, c: CallerId, fqn: Fqn, path: Path, call: nat)
    requires Inv(env, s) && AllRight(env, s) && FileAgrees(env, path)
    requires c in s.callers && s.callers[c] == Parsing(fqn, path, call) && call < |s.calls|
    ensures AllRight(env, AfterFinish(env, s, c, fqn, path, call))
  {
    var s' := AfterFinish(env, s, c, fqn, path, call);
    var p := env.parse(path);
    assert CallerOk(env, s, c) && CallOk(s, call) && CacheRight(env, s, fqn);
    AnswerAtFinish(env, s.core.cache, fqn, path);
    FinishedFailures(s.core, fqn, path, call, p);
    StoredLookup(s.core.cache, p.classes, fqn);
    hide PathFor, OwnerAnswer, Finished, Reference, StoreAll, FileAgrees, Declared;
    forall f
      ensures CacheRight(env, s', f) && (f in s.core.cache ==> f in s'.core.cache)
      ensures DeclaredIn(p, f).Some? ==> f in s'.core.cache
    {
      CacheAfterFinish(env, s, c, fqn, path, call, f);
    }
    forall k ensures CallCached(env, s', k) { assert CallCached(env, s, k); }
    forall x ensures CallerRight(env, s', x) { assert CallerRight(env, s, x); }
    forall f | f in s'.core.failures ensures Reference(env, f) == None {}
  }

  lemma {:induction false} FinishedFailures(core: Core<nat>, fqn: Fqn, path: Path, call: nat, p: Parsed)
    ensures Finished(core, fqn, path, call, p).failures ==
            if Usable(p) && fqn in StoreAll(core.cache, p.classes) then core.failures else core.failures + {fqn}
  {
  }

  lemma {:induction false} MoveRight(env: Env, s: State, s': State, c: CallerId)
    requires AllRight(env, s) && s'.core.cache == s.core.cache
    requires forall k | 0 <= k < |s'.calls| && s'.calls[k].closes > 0 :: k < |s.calls| && s'.calls[k] == s.calls[k]
    requires c in s'.callers && s'.callers == s.callers[c := s'.callers[c]] && CallerRight(env, s', c)
    requires forall f | f in s'.core.failures :: f in s.core.failures || Reference(env, f) == None
    ensures AllRight(env, s')
  {
    hide Reference, DeclaredIn;
    forall f ensures CacheRight(env, s', f) { assert CacheRight(env, s, f); }
    forall k ensures CallCached(env, s', k) { assert CallCached(env, s, k); }
    forall x ensures CallerRight(env, s', x) { assert CallerRight(env, s, x); }
  }

  lemma {:induction false} PathIndexed(env: Env, fqn: Fqn, path: Path)
    requires PathFor(env.index, fqn) == Some(path) && Consistent(env)
    ensures FileAgrees(env, path)
  {
    hide FileAgrees;
  }

  /** The caller whose turn it is gets the right answer, or rightly finds nothing. */
  lemma {:induction false} MoverRight(env: Env, s: State, e: Event)
    requires Inv(env, s) && AllRight(env, s) && CanHappen(s, e) && !e.Finish?
    ensures CallerRight(env, After(env, s, e), e.c)
    ensures e.Note? ==> Reference(env, s.callers[e.c].fqn) == None
  {
    hide PathFor, InflightOk, DeclaredIn;
    assert CallerOk(env, s, e.c) && CallerRight(env, s, e.c);
    if !e.Ask? {
      assert CacheRight(env, s, s.callers[e.c].fqn);
    }
    if e.Resume? {
      assert CallCached(env, s, s.callers[e.c].call);
    }
  }

  /** A step that ends no parse leaves the cache and the closed channels alone. */
  lemma {:induction false} MoveShape(env: Env, s: State, e: Event)
    requires CanHappen(s, e) && !e.Finish?
    ensures After(env, s, e).core.cache == s.core.cache
    ensures forall k | 0 <= k < |After(env, s, e).calls| && After(env, s, e).calls[k].closes > 0 ::
              k < |s.calls| && After(env, s, e).calls[k] == s.calls[k]
    ensures e.c in After(env, s, e).callers
    ensures After(env, s, e).callers == s.callers[e.c := After(env, s, e).callers[e.c]]
    ensures After(env, s, e).core.failures == s.core.failures
            || (e.Note? && After(env, s, e).core.failures == s.core.failures + {s.callers[e.c].fqn})
  {
    hide PathUpTo;
  }

  lemma {:induction false} StepRight(env: Env, s: State, e: Event)
    requires Inv(env, s) && AllRight(env, s) && Consistent(env) && CanHappen(s, e)
    ensures AllRight(env, After(env, s, e))
  {
    if e.Finish? {
      hide PathFor, InflightOk, CallOk, AllRight, Finished, FileAgrees;
      assert CallerOk(env, s, e.c);
      PathIndexed(env, s.callers[e.c].fqn, s.callers[e.c].path);
      FinishRight(env, s, e.c, s.callers[e.c].fqn, s.callers[e.c].path, s.callers[e.c].call);
    } else {
      hide After, Inv, AllRight, Reference;
      MoveShape(env, s, e);
      MoverRight(env, s, e);
      MoveRight(env, s, After(env, s, e), e.c);
    }
  }

  lemma {:induction false} RunRight(env: Env, s: State, es: seq<Event>)
    requires Inv(env, s) && AllRight(env, s) && Consistent(env) && Run(env, s, es).Some?
    ensures AllRight(env, Run(env, s, es).value)
    decreases |es|
  {
    hide Inv, AllRight, Consistent;
    if es != [] {
      StepKeeps(env, s, es[0]);
      StepRight(env, s, es[0]);
      RunRight(env, After(env, s, es[0]), es[1..]);
    }
  }

  /** Every caller, in every run, is answered as it should be. */
  ghost predicate AnswersRight(env: Env) {
    forall s, c | Reachable(env, s) && c in s.callers && s.callers[c].Answered? ::
      s.callers[c].answer == Reference(env, s.callers[c].fqn)
  }

  lemma {:induction false} ConsistentIsEnough(env: Env)
    requires Consistent(env)
    ensures AnswersRight(env)
    ensures forall s, f | Reachable(env, s) && f in s.core.failures :: Reference(env, f) == None
  {
    forall s | Reachable(env, s) ensures AllRight(env, s) {
      var es :| Run(env, Initial, es) == Some(s);
      RunRight(env, Initial, es);
    }
    forall s, c | Reachable(env, s) && c in s.callers && s.callers[c].Answered?
      ensures s.callers[c].answer == Reference(env, s.callers[c].fqn)
    {
      assert CallerRight(env, s, c);
    }
  }

  lemma {:induction false} RunOn(env: Env, s: State, es: seq<Event>, e: Event)
    requires Run(env, s, es).Some? && CanHappen(Run(env, s, es).value, e)
    ensures Run(env, s, es + [e]) == Some(After(env, Run(env, s, es).value, e))
    decreases |es|
  {
    if es == [] {
      assert Run(env, After(env, s, e), []) == Some(After(env, s, e));
    } else {
      assert (es + [e])[1..] == es[1..] + [e];
      RunOn(env, After(env, s, es[0]), es[1..], e);
    }
  }

  lemma {:induction false} ReachableOn(env: Env, s: State, e: Event)
    requires Reachable(env, s) && CanHappen(s, e)
    ensures Reachable(env, After(env, s, e))
  {
    var es :| Run(env, Initial, es) == Some(s);
    RunOn(env, Initial, es, e);
  }

  lemma {:induction false} InitialReachable(env: Env)
    ensures Reachable(env, Initial)
  {
    assert Run(env, Initial, []) == Some(Initial);
  }

  /** One caller asks for f alone, and so parses its file. */
  lemma {:induction false} ParseOnce(env: Env, f: Fqn) returns (s: State)
    requires f in env.index && Usable(env.parse(env.index[f]))
    ensures Reachable(env, s) && 1 !in s.callers
    ensures s.core.cache == StoreAll(map[], env.parse(env.index[f]).classes)
  {
    hide Reachable, StoreAll, PathUpTo;
    var path := env.index[f];
    assert f[..|f|] == f;
    PathForLongest(env.index, f, |f|);
    InitialReachable(env);
    s := After(env, Initial, Ask(0, f));
    ReachableOn(env, Initial, Ask(0, f));
    ReachableOn(env, s, LookUp(0));
    s := After(env, s, LookUp(0));
    assert s.callers[0] == Located(f, path);
    ReachableOn(env, s, Join(0));
    s := After(env, s, Join(0));
    assert s.callers[0] == Parsing(f, path, 0) && s.core.inflight == map[path := 0];
    ReachableOn(env, s, Finish(0));
    s := After(env, s, Finish(0));
  }

  /** A class that its file declares but that is looked for elsewhere: once the file is
      parsed, the cache answers with it all the same. */
  lemma {:induction false} StrayClassAnswered(env: Env, f: Fqn, g: Fqn)
    requires f in env.index && DeclaredIn(env.parse(env.index[f]), g).Some?
    requires DeclaredIn(env.parse(env.index[f]), g) != Reference(env, g)
    ensures !AnswersRight(env)
  {
    hide Reachable, StoreAll, PathFor, Reference;
    var s := ParseOnce(env, f);
    var classes := env.parse(env.index[f]).classes;
    StoredLookup(map[], classes, g);
    ReachableOn(env, s, Ask(1, g));
    s := After(env, s, Ask(1, g));
    ReachableOn(env, s, LookUp(1));
    s := After(env, s, LookUp(1));
    assert s.callers[1] == Answered(g, Declared(classes, g));
  }

  /** All answers in all runs are right exactly when every class that an indexed file
      declares is the class its name leads to. */
  lemma {:induction false} AnswersRightExactly(env: Env)
    ensures AnswersRight(env) <==> Consistent(env)
  {
    hide AnswersRight, Reference, DeclaredIn;
    if Consistent(env) {
      ConsistentIsEnough(env);
    } else {
      var f, g :| f in env.index && DeclaredIn(env.parse(env.index[f]), g).Some?
                  && DeclaredIn(env.parse(env.index[f]), g) != Reference(env, g);
      StrayClassAnswered(env, f, g);
    }
  }

  // ------------------------------------------------------------------
  // When files are laid out as Java asks

  ghost predicate Declares(env: Env, path: Path, fqn: Fqn) {
    DeclaredIn(env.parse(path), fqn).Some?
  }

  /** The name is that of the file's indexed class, or of one nested in it, all of whose
      outer classes the file declares as well. */
  ghost predicate NestedIn(env: Env, path: Path, fqn: Fqn, top: int) {
    && Cut(fqn, top) && fqn[..top] in env.index && env.index[fqn[..top]] == path
    && forall n | top <= n && Cut(fqn, n) :: Declares(env, path, fqn[..n])
  }

  ghost predicate Nested(env: Env, path: Path) {
    forall fqn | DeclaredIn(env.parse(path), fqn).Some? :: exists top :: NestedIn(env, path, fqn, top)
  }

  /** No name is declared in two files, and a file declares what it is indexed for. */
  ghost predicate Distinct(env: Env) {
    && (forall f | f in env.index :: Declares(env, env.index[f], f))
    && (forall f, g, fqn | f in env.index && g in env.index
          && Declares(env, env.index[f], fqn) && Declares(env, env.index[g], fqn) :: env.index[f] == env.index[g])
  }

  lemma {:induction false} NestedAgrees(env: Env, f: Fqn, fqn: Fqn, top: int)
    requires Distinct(env) && f in env.index && NestedIn(env, env.index[f], fqn, top)
    ensures DeclaredIn(env.parse(env.index[f]), fqn) == Reference(env, fqn)
  {
    hide DeclaredIn, PathFor, Declares;
    var n := LongestFrom(env.index, fqn, top);
    PathForLongest(env.index, fqn, n);
    assert Declares(env, env.index[f], fqn[..n]);
    assert Declares(env, env.index[fqn[..n]], fqn[..n]);
  }

  lemma {:induction false} LaidOutIsConsistent(env: Env)
    requires Distinct(env) && forall f | f in env.index :: Nested(env, env.index[f])
    ensures Consistent(env)
  {
    hide DeclaredIn, PathFor, Distinct, Reference, NestedIn;
    forall f, fqn | f in env.index && DeclaredIn(env.parse(env.index[f]), fqn).Some?
      ensures DeclaredIn(env.parse(env.index[f]), fqn) == Reference(env, fqn)
    {
      assert Nested(env, env.index[f]);
      var top :| NestedIn(env, env.index[f], fqn, top);
      NestedAgrees(env, f, fqn, top);
    }
  }

  lemma {:induction false} LongestFrom(index: Index, fqn: Fqn, n: int) returns (m: int)
    requires Cut(fqn, n) && fqn[..n] in index
    ensures n <= m && LongestIndexed(index, fqn, m)
    decreases |fqn| - n
  {
    if k :| n < k && Cut(fqn, k) && fqn[..k] in index {
      m := LongestFrom(index, fqn, k);
    } else {
      m := n;
    }
  }
}
