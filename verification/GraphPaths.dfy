/** Paths through the objects a value reaches: a value has a finite tree unless a path
    from it comes back to where it has been. */
module GraphPaths {
  import opened Bytes
  import opened GoValues
  import opened HessianDecoding

  ghost predicate Child(h: Heap, v: GoVal, c: GoVal) {
    IsContainer(v) && ValidVal(h, v) &&
    match h[v.addr]
    case OMap(m) => exists k :: k in m && m[k] == c
    case OSlice(s) => c in s
  }

  /** Each value of the trail is directly inside the one before it. */
  ghost predicate Trail(h: Heap, p: seq<GoVal>) {
    forall i | 0 <= i < |p| - 1 :: Child(h, p[i], p[i + 1])
  }

  /** Below a value with a finite tree, trees only get smaller. */
  lemma {:induction false} TrailShrinks(h: Heap, p: seq<GoVal>, t: Tree) returns (u: Tree)
    requires |p| > 0 && Trail(h, p) && Rep(h, 0, |h|, p[0], t)
    ensures Rep(h, 0, |h|, p[|p| - 1], u) && (|p| > 1 ==> u < t) && (|p| == 1 ==> u == t)
    decreases |p|
  {
    if |p| == 1 {
      u := t;
    } else {
      assert Child(h, p[0], p[1]);
      var c: Tree;
      match h[p[0].addr] {
        case OMap(m) =>
          var k :| k in m && m[k] == p[1];
          c := t.entries[k];
        case OSlice(s) =>
          var i :| 0 <= i < |s| && s[i] == p[1];
          c := t.items[i];
      }
      assert forall i | 0 <= i < |p[1..]| - 1 :: Child(h, p[1..][i], p[1..][i + 1]) by {
        forall i | 0 <= i < |p[1..]| - 1 ensures Child(h, p[1..][i], p[1..][i + 1]) {
          assert Child(h, p[i + 1], p[i + 2]);
        }
      }
      u := TrailShrinks(h, p[1..], c);
    }
  }

  lemma {:induction false} TrailParts(h: Heap, p: seq<GoVal>, i: nat)
    requires Trail(h, p) && i < |p|
    ensures Trail(h, p[..i + 1]) && Trail(h, p[i..])
  {
    var front, back := p[..i + 1], p[i..];
    forall j | 0 <= j < |front| - 1 ensures Child(h, front[j], front[j + 1]) {
      assert Child(h, p[j], p[j + 1]);
    }
    forall j | 0 <= j < |back| - 1 ensures Child(h, back[j], back[j + 1]) {
      assert Child(h, p[i + j], p[i + j + 1]);
    }
  }

  /** A value from which a cycle can be reached has no finite tree. */
  lemma {:induction false} CycleHasNoTree(h: Heap, p: seq<GoVal>, i: nat)
    requires Trail(h, p) && i < |p| - 1 && p[i] == p[|p| - 1]
    ensures !HasTree(h, p[0])
  {
    if HasTree(h, p[0]) {
      var t :| Rep(h, 0, |h|, p[0], t);
      TrailParts(h, p, i);
      var u := TrailShrinks(h, p[..i + 1], t);
      var w := TrailShrinks(h, p[i..], u);
      RepUnique(h, p[i], u, w);
    }
  }

  /** Where unfolding to some depth stops short, a trail of more containers goes on. */
  lemma {:induction false} LongTrail(h: Heap, v: GoVal, fuel: nat) returns (p: seq<GoVal>)
    requires ValidHeap(h) && ValidVal(h, v) && Unfold(h, v, fuel).None?
    ensures |p| == fuel + 1 && p[0] == v && Trail(h, p)
    ensures forall i | 0 <= i < |p| :: IsContainer(p[i]) && ValidVal(h, p[i])
    decreases fuel
  {
    p := [v];
    if fuel > 0 {
      assert ValidObj(h, h[v.addr]);
      var c: GoVal;
      match h[v.addr] {
        case OMap(m) =>
          var k :| k in m && Unfold(h, m[k], fuel - 1).None?;
          c := m[k];
        case OSlice(s) =>
          var i :| 0 <= i < |s| && Unfold(h, s[i], fuel - 1).None?;
          c := s[i];
      }
      var q := LongTrail(h, c, fuel - 1);
      p := [v] + q;
      assert Child(h, v, c);
      forall i | 0 <= i < |p| - 1 ensures Child(h, p[i], p[i + 1]) {
        if i > 0 { assert Child(h, q[i - 1], q[i]); }
      }
    }
  }

  /** More containers than there are objects: one comes up twice. */
  lemma {:induction false} TwiceOnTrail(h: Heap, p: seq<GoVal>) returns (i: nat, j: nat)
    requires |p| > |h| && forall i | 0 <= i < |p| :: IsContainer(p[i]) && ValidVal(h, p[i])
    ensures i < j < |p| && p[i] == p[j]
  {
    if forall i, j | 0 <= i < j < |p| :: p[i] != p[j] {
      var n := 0;
      var seen: set<nat> := {};
      while n < |p|
        invariant 0 <= n <= |p| && |seen| == n
        invariant forall a | a in seen :: a < |h| && exists i | 0 <= i < n :: p[i] == ValueAt(h, a)
      {
        assert p[n] == ValueAt(h, p[n].addr);
        seen := seen + {p[n].addr};
        n := n + 1;
      }
      Addresses(seen, |h|);
    }
    i, j :| 0 <= i < j < |p| && p[i] == p[j];
  }

  /** A trail from v comes back to a value it has been at. */
  ghost predicate ReachesCycle(h: Heap, v: GoVal) {
    exists p, i: nat :: Trail(h, p) && i < |p| - 1 && p[0] == v && p[i] == p[|p| - 1]
  }

  /** The values without a finite tree are exactly those from which a cycle can be reached. */
  lemma {:induction false} FiniteUnlessCyclic(h: Heap, v: GoVal)
    requires ValidHeap(h) && ValidVal(h, v)
    ensures HasTree(h, v) <==> !ReachesCycle(h, v)
  {
    hide Child, Unfold, Trail;
    if ReachesCycle(h, v) {
      var p, i: nat :| Trail(h, p) && i < |p| - 1 && p[0] == v && p[i] == p[|p| - 1];
      CycleHasNoTree(h, p, i);
    }
    if !HasTree(h, v) {
      UnfoldFindsTree(h, v);
      var p := LongTrail(h, v, |h|);
      var i, j := TwiceOnTrail(h, p);
      TrailParts(h, p, j);
      var q := p[..j + 1];
      assert Trail(h, q) && i < |q| - 1 && q[0] == v && q[i] == q[|q| - 1];
    }
  }

  // ------------------------------------------------------------------
  // Map keys that contain themselves

  /** A decoded map entry is stored, unless its key is a container from which a cycle can
      be reached: rendering that key as text never ends. */
  lemma {:induction false} StoreEntryEnds(inp: Input, s: DState, a: nat, key: GoVal, v: GoVal)
    requires Valid(inp, s) && a < |s.heap| && s.heap[a].OMap?
    requires |s.heap[a].entries| < inp.limits.maxItems + 3
    requires ValidVal(s.heap, key) && ValidVal(s.heap, v)
    ensures StoreEntry(inp, s, a, key, v).Diverge? <==> ReachesCycle(s.heap, key)
    ensures StoreEntry(inp, s, a, key, v).Ok? <==> !ReachesCycle(s.heap, key)
  {
    FiniteUnlessCyclic(s.heap, key);
    UnfoldFindsTree(s.heap, key);
    if key.GString? {
      UnfoldLeaf(s.heap, key, |s.heap|);
    }
  }

  /** Such a key exists: a map that is its own entry. */
  lemma {:induction false} SelfContainingKey(k: GoString)
    ensures ValidHeap([OMap(map[k := GMap(0)])]) && ReachesCycle([OMap(map[k := GMap(0)])], GMap(0))
  {
    var h := [OMap(map[k := GMap(0)])];
    var p := [GMap(0), GMap(0)];
    assert h[0].entries[k] == GMap(0) && Child(h, p[0], p[1]);
    assert Trail(h, p) && 0 < |p| - 1 && p[0] == p[|p| - 1];
  }
}
