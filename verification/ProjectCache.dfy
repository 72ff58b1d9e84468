/** The cache of contract stores by project. Beside the stores it keeps the project roots in
    the order of their last requests, and beyond its maximum it drops those requested longest ago. */
module ProjectCache {

  type Root = string

  const DEFAULT_MAX: int := 32

  datatype Entry = Entry(root: Root)

  predicate Distinct(s: seq<Root>) {
    forall i, j | 0 <= i < j < |s| :: s[i] != s[j]
  }

  function Without(s: seq<Root>, root: Root): (r: seq<Root>)
    ensures |r| <= |s| && (forall x :: x in r <==> x in s && x != root)
  {
    if s == [] then []
    else if s[|s| - 1] == root then Without(s[..|s| - 1], root)
    else Without(s[..|s| - 1], root) + [s[|s| - 1]]
  }

  /** The last n of a sequence, or all of it. */
  function LastOf(s: seq<Root>, n: nat): (r: seq<Root>)
    ensures |r| == if |s| <= n then |s| else n
  {
    if |s| <= n then s else s[|s| - n..]
  }

  /** All roots ever requested, in the order of their last requests. */
  function Recency(requests: seq<Root>): seq<Root> {
    if requests == [] then []
    else
      var root := requests[|requests| - 1];
      Without(Recency(requests[..|requests| - 1]), root) + [root]
  }

  /** What one request does to the order of the roots that are kept. */
  function Requested(order: seq<Root>, root: Root, max: nat): seq<Root> {
    LastOf(Without(order, root) + [root], max)
  }

  lemma {:induction false} AppendDistinct(s: seq<Root>, root: Root)
    requires Distinct(s) && root !in s
    ensures Distinct(s + [root])
  {
  }

  lemma {:induction false} WithoutDistinct(s: seq<Root>, root: Root)
    requires Distinct(s)
    ensures Distinct(Without(s, root)) && Distinct(Without(s, root) + [root])
    ensures root !in s ==> Without(s, root) == s
    ensures root in s ==> |Without(s, root)| == |s| - 1
    decreases |s|
  {
    if s != [] {
      var init, last := s[..|s| - 1], s[|s| - 1];
      assert s == init + [last] && last !in init && Distinct(init);
      WithoutDistinct(init, root);
      if last != root { AppendDistinct(Without(init, root), last); }
    }
    AppendDistinct(Without(s, root), root);
  }

  lemma {:induction false} WithoutFirst(s: seq<Root>, root: Root)
    requires s != []
    ensures Without(s, root) == (if s[0] == root then [] else [s[0]]) + Without(s[1..], root)
    decreases |s|
  {
    if |s| > 1 {
      var init := s[..|s| - 1];
      WithoutFirst(init, root);
      assert init[1..] == s[1..][..|s| - 2];
    }
  }

  lemma {:induction false} WithoutLast(s: seq<Root>, x: Root, root: Root)
    ensures Without(s + [x], root) == if x == root then Without(s, root) else Without(s, root) + [x]
  {
    assert (s + [x])[..|s|] == s;
  }

  lemma {:induction false} RecencyDistinct(requests: seq<Root>)
    ensures Distinct(Recency(requests))
    decreases |requests|
  {
    if requests != [] {
      RecencyDistinct(requests[..|requests| - 1]);
      WithoutDistinct(Recency(requests[..|requests| - 1]), requests[|requests| - 1]);
    }
  }

  lemma {:induction false} WithoutAt(s: seq<Root>, i: nat)
    requires Distinct(s) && i < |s|
    ensures Without(s, s[i]) == s[..i] + s[i + 1..]
    decreases |s|
  {
    var init := s[..|s| - 1];
    if i < |s| - 1 {
      WithoutAt(init, i);
      assert s[i + 1..] == init[i + 1..] + [s[|s| - 1]];
    } else {
      WithoutDistinct(init, s[i]);
      assert s[i + 1..] == [];
    }
  }

  /** Closing the gap at i and putting its element last is moving it to the end. */
  lemma {:induction false} ShiftedIsMoved(s: seq<Root>, i: nat)
    requires Distinct(s) && i < |s|
    ensures |s[..i] + s[i + 1..] + s[|s| - 1..]| == |s|
    ensures (s[..i] + s[i + 1..] + s[|s| - 1..])[|s| - 1 := s[i]] == Without(s, s[i]) + [s[i]]
  {
    WithoutAt(s, i);
    hide Without, Distinct;
    assert (s[..i] + s[i + 1..] + s[|s| - 1..])[|s| - 1 := s[i]] == s[..i] + s[i + 1..] + [s[i]];
  }

  lemma {:induction false} WithoutTail(s: seq<Root>, k: nat, root: Root)
    requires k <= |s|
    ensures Without(s, root) == Without(s[..k], root) + Without(s[k..], root)
    decreases |s|
  {
    if k < |s| {
      var init := s[..|s| - 1];
      WithoutTail(init, k, root);
      assert init[..k] == s[..k] && s[k..] == init[k..] + [s[|s| - 1]];
      WithoutLast(init[k..], s[|s| - 1], root);
    } else {
      assert s[..k] == s && s[k..] == [];
    }
  }

  /** Dropping the oldest first and taking a root out later is the same as taking it out first. */
  lemma {:induction false} LastOfRequested(s: seq<Root>, root: Root, max: nat)
    requires Distinct(s) && max > 0
    ensures Requested(LastOf(s, max), root, max) == LastOf(Without(s, root) + [root], max)
  {
    if |s| > max {
      var k := |s| - max;
      var old_, last := s[..k], s[k..];
      WithoutTail(s, k, root);
      assert Distinct(last) by { assert forall i, j | 0 <= i < j < |last| :: last[i] == s[k + i] && last[j] == s[k + j]; }
      WithoutDistinct(last, root);
      hide Without, Distinct;
      var a, b := Without(old_, root), Without(last, root) + [root];
      assert Without(s, root) + [root] == a + b;
      assert |b| >= max;
      LastOfAppended(a, b, max);
    }
  }

  lemma {:induction false} LastOfAppended(a: seq<Root>, b: seq<Root>, n: nat)
    requires n <= |b|
    ensures LastOf(a + b, n) == LastOf(b, n)
  {
  }

  /** The roots kept after each request in turn. */
  function Kept(requests: seq<Root>, max: nat): seq<Root> {
    if requests == [] then [] else Requested(Kept(requests[..|requests| - 1], max), requests[|requests| - 1], max)
  }

  /** Through any run of requests the cache holds exactly the most recently requested roots. */
  lemma {:induction false} KeepsMostRecent(requests: seq<Root>, max: nat)
    requires max > 0
    ensures Kept(requests, max) == LastOf(Recency(requests), max)
    decreases |requests|
  {
    if requests != [] {
      var before := requests[..|requests| - 1];
      KeepsMostRecent(before, max);
      RecencyDistinct(before);
      LastOfRequested(Recency(before), requests[|requests| - 1], max);
    }
  }

  /** When the root was last requested; -1 if never. */
  function LastRequest(requests: seq<Root>, root: Root): (i: int)
    ensures -1 <= i < |requests|
  {
    if requests == [] then -1
    else if requests[|requests| - 1] == root then |requests| - 1
    else LastRequest(requests[..|requests| - 1], root)
  }

  ghost predicate ByLastRequest(requests: seq<Root>, order: seq<Root>) {
    forall i, j | 0 <= i < j < |order| :: LastRequest(requests, order[i]) < LastRequest(requests, order[j])
  }

  lemma {:induction false} WithoutByLastRequest(requests: seq<Root>, order: seq<Root>, root: Root)
    requires ByLastRequest(requests, order)
    ensures ByLastRequest(requests, Without(order, root))
    decreases |order|
  {
    if order != [] {
      var init, last := order[..|order| - 1], order[|order| - 1];
      WithoutByLastRequest(requests, init, root);
      var rest := Without(init, root);
      forall i | 0 <= i < |rest| ensures LastRequest(requests, rest[i]) < LastRequest(requests, last) {
        assert rest[i] in init;
      }
    }
  }

  /** Recency lists what was requested, by the time of the last request. */
  lemma {:induction false} RecencyMeans(requests: seq<Root>)
    ensures forall root :: root in Recency(requests) <==> LastRequest(requests, root) >= 0
    ensures ByLastRequest(requests, Recency(requests))
    decreases |requests|
  {
    if requests != [] {
      var before, root := requests[..|requests| - 1], requests[|requests| - 1];
      var rest := Without(Recency(before), root);
      RecencyMeans(before);
      WithoutByLastRequest(before, Recency(before), root);
      hide Without, ByLastRequest, LastRequest;
      RequestedLast(before, requests, rest, root);
    }
  }

  lemma {:induction false} RequestedLast(before: seq<Root>, requests: seq<Root>, rest: seq<Root>, root: Root)
    requires ByLastRequest(before, rest) && root !in rest && requests != [] && before == requests[..|requests| - 1]
    requires root == requests[|requests| - 1]
    ensures ByLastRequest(requests, rest + [root])
    ensures forall x :: LastRequest(requests, x) == if x == root then |requests| - 1 else LastRequest(before, x)
  {
    var order := rest + [root];
    forall i, j | 0 <= i < j < |order| ensures LastRequest(requests, order[i]) < LastRequest(requests, order[j]) {
      assert order[i] == rest[i] && rest[i] in rest && (j < |rest| ==> order[j] == rest[j] && rest[j] in rest);
    }
  }

  /** A root dropped by a request was last requested before every root that is still kept. */
  lemma {:induction false} DroppedIsOldest(requests: seq<Root>, root: Root, max: nat, victim: Root, survivor: Root)
    requires max > 0 && victim in Kept(requests, max) && victim !in Kept(requests + [root], max)
    requires survivor in Kept(requests + [root], max)
    ensures LastRequest(requests + [root], victim) < LastRequest(requests + [root], survivor)
  {
    var all := requests + [root];
    assert all[..|requests|] == requests;
    KeepsMostRecent(requests, max);
    KeepsMostRecent(all, max);
    RecencyMeans(requests);
    RecencyMeans(all);
    LastOfPart(Recency(requests), max);
    LastOfPart(Recency(all), max);
    assert victim in Recency(requests);
    hide Recency, LastOf, Kept;
    var i, j := DroppedFirst(Recency(all), max, victim, survivor);
  }

  lemma {:induction false} LastOfPart(s: seq<Root>, n: nat)
    ensures forall x | x in LastOf(s, n) :: x in s
  {
  }

  lemma {:induction false} DroppedFirst(s: seq<Root>, n: nat, victim: Root, survivor: Root) returns (i: nat, j: nat)
    requires victim in s && victim !in LastOf(s, n) && survivor in LastOf(s, n)
    ensures i < j < |s| && s[i] == victim && s[j] == survivor
  {
    LastOfHas(s, n);
    i :| 0 <= i < |s| && s[i] == victim;
    var k :| 0 <= k < |LastOf(s, n)| && LastOf(s, n)[k] == survivor;
    j := |s| - |LastOf(s, n)| + k;
  }

  lemma {:induction false} LastOfHas(s: seq<Root>, n: nat)
    ensures forall i | 0 <= i < |s| && (|s| <= n || i >= |s| - n) :: s[i] in LastOf(s, n)
  {
    forall i | 0 <= i < |s| && (|s| <= n || i >= |s| - n) ensures s[i] in LastOf(s, n) {
      if |s| > n { assert s[i] == LastOf(s, n)[i - (|s| - n)]; }
    }
  }

  // ------------------------------------------------------------------
  // The program's object

  class ContractHolder {
    var projects: map<Root, Entry>
    var order: seq<Root>
    var projectMax: int

    constructor (projectMax: int)
      ensures Valid() && order == [] && this.projectMax == projectMax
    {
      projects, order := map[], [];
      this.projectMax := projectMax;
    }

    function Max(): (m: nat)
      reads this`projectMax
      ensures m > 0
    {
      if projectMax <= 0 then DEFAULT_MAX else projectMax
    }

    /** The order is the keys of the map, each once. */
    ghost predicate Ordered()
      reads this
    {
      Distinct(order) && (forall root :: root in order <==> root in projects)
      && forall root | root in projects :: projects[root].root == root
    }

    ghost predicate Valid()
      reads this
    {
      Ordered() && |order| <= Max()
    }

    method ForProject(root: Root) returns (entry: Entry)
      requires Valid()
      modifies this
      ensures Valid() && projectMax == old(projectMax) && order == Requested(old(order), root, Max())
      ensures entry == Entry(root) && root in projects && order[|order| - 1] == root && |projects| <= Max()
    {
      hide Distinct, Without;
      WithoutDistinct(order, root);
      if root !in projects {
        entry := Entry(root);
        projects := projects[root := entry];
        AppendDistinct(order, root);
        order := order + [root];
        Evict(root);
      } else {
        entry := projects[root];
        Touch(root);
      }
      SameSize(order, projects.Keys);
    }

    method Touch(root: Root)
      requires Distinct(order)
      modifies this`order
      ensures Distinct(order) && order == Without(old(order), root) + [root]
    {
      WithoutDistinct(order, root);
      hide Distinct, Without;
      var i := 0;
      while i < |order|
        invariant 0 <= i <= |order| && order == old(order) && root !in order[..i]
      {
        if order[i] == root {
          ShiftedIsMoved(order, i);
          order := (order[..i] + order[i + 1..] + order[|order| - 1..])[|order| - 1 := root];
          return;
        }
        i := i + 1;
      }
      assert order[..i] == order;
      order := order + [root];
    }

    /** Drops the oldest roots until the maximum is kept, passing over the one to keep. */
    method Evict(keep: Root)
      requires Ordered() && keep in order
      modifies this`projects, this`order
      ensures Ordered() && keep in order && |order| == (if |old(order)| <= Max() then |old(order)| else Max())
      ensures old(order)[|old(order)| - 1] == keep ==> order == LastOf(old(order), Max())
      ensures exists k: nat :: k <= |Without(old(order), keep)| && Without(order, keep) == Without(old(order), keep)[k..]
    {
      hide Distinct, Without, Ordered;
      var max := Max();
      OrderedSize();
      ghost var k := 0;
      ghost var others := Without(order, keep);
      while |projects| > max && |order| > 0
        invariant Ordered() && keep in order && max == Max() && |projects| == |order| <= |old(order)|
        invariant |order| >= max || order == old(order)
        invariant old(order)[|old(order)| - 1] == keep ==> order == old(order)[|old(order)| - |order|..]
        invariant k <= |others| && Without(order, keep) == others[k..]
        decreases |projects|, order[0] == keep
      {
        ghost var front := order[0];
        OldestOrKeep(keep);
        if front != keep {
          k := k + 1;
        }
      }
    }

    lemma {:induction false} OrderedSize()
      requires Ordered()
      ensures |projects| == |order|
    {
      SameSize(order, projects.Keys);
    }

    /** Drops the oldest root, unless that is to be kept: then it becomes the newest. */
    method OldestOrKeep(keep: Root)
      requires Ordered() && keep in order && |order| > 1
      modifies this`projects, this`order
      ensures Ordered() && keep in order && |projects| == |order|
      ensures if old(order)[0] == keep
              then |order| == |old(order)| && order[0] != keep && Without(order, keep) == Without(old(order), keep)
                   && old(order)[|old(order)| - 1] != keep
              else order == old(order)[1..] && |Without(old(order), keep)| > 0
                   && Without(order, keep) == Without(old(order), keep)[1..]
    {
      hide Without, Distinct;
      FrontRemoved(order, keep);
      var root := order[0];
      order := order[1..];
      if root == keep {
        order := order + [root];
      } else {
        projects := projects - {root};
      }
      SameSize(order, projects.Keys);
    }
  }

  lemma {:induction false} FrontRemoved(order: seq<Root>, keep: Root)
    requires Distinct(order) && keep in order && |order| > 1
    ensures Distinct(order[1..]) && forall x :: x in order[1..] <==> x in order && x != order[0]
    ensures order[0] == keep ==>
              && Distinct(order[1..] + [keep]) && Without(order[1..] + [keep], keep) == Without(order, keep)
              && order[1] != keep && order[|order| - 1] != keep
    ensures order[0] != keep ==> |Without(order, keep)| > 0 && Without(order[1..], keep) == Without(order, keep)[1..]
  {
    var rest := order[1..];
    assert order == [order[0]] + rest;
    WithoutFirst(order, keep);
    hide Without;
    if order[0] == keep {
      AppendDistinct(rest, keep);
      WithoutLast(rest, keep, keep);
    }
  }

  lemma {:induction false} SameSize(order: seq<Root>, keys: set<Root>)
    requires Distinct(order) && forall root :: root in order <==> root in keys
    ensures |order| == |keys|
    decreases |order|
  {
    if order != [] {
      var init, last := order[..|order| - 1], order[|order| - 1];
      assert order == init + [last];
      SameSize(init, keys - {last});
    } else {
      assert keys == {};
    }
  }
}
