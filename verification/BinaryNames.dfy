/** Class names as callers spell them, resolved to the names the store knows and from there
    to the names the Java virtual machine loads. All work in one request shares a budget
    and a memo. */
module BinaryNames {
  import opened Options
  import opened TypeLanguage

  const MAX_NAME_LENGTH: nat := 4096
  const MAX_SEPARATORS: nat := 64
  const MAX_CANDIDATES: nat := 256
  const MAX_MEMO: nat := 256

  /** What the store says of a class: its binary name, if it has one. */
  datatype ClassInfo = ClassInfo(binaryName: string, superclass: string, interfaces: seq<string>)

  type Store = map<string, ClassInfo>

  // ------------------------------------------------------------------
  // Resolving one name

  function Dollars(s: string): (n: nat)
    ensures n == 0 <==> '$' !in s
  {
    if s == "" then 0 else Dollars(s[..|s| - 1]) + if s[|s| - 1] == '$' then 1 else 0
  }

  /** The last dollar made a dot. */
  function DottedOnce(s: string): (r: string)
    requires Dollars(s) > 0
    ensures Dollars(r) == Dollars(s) - 1
    decreases |s|
  {
    var n := |s| - 1;
    if s[n] == '$' then
      assert (s[..n] + ".")[..n] == s[..n];
      s[..n] + "."
    else
      var r := DottedOnce(s[..n]);
      assert (r + [s[n]])[..|r|] == r;
      r + [s[n]]
  }

  /** The name with its last k dollars made dots. */
  function Convert(name: string, k: nat): (r: string)
    requires k <= Dollars(name)
    ensures Dollars(r) == Dollars(name) - k
    decreases k
  {
    if k == 0 then name else DottedOnce(Convert(name, k - 1))
  }

  /** The first conversion that the store knows, at most budget ones being tried; and what
      is left of the budget. */
  function Search(store: Store, candidate: string, budget: nat): (r: (Option<string>, nat))
    ensures r.1 <= budget
    decreases budget
  {
    if budget == 0 || Dollars(candidate) == 0 then (None, budget)
    else
      var next := DottedOnce(candidate);
      if next in store then (Some(next), budget - 1) else Search(store, next, budget - 1)
  }

  /** Dollars are looked into at all. */
  predicate Searched(store: Store, name: string) {
    '$' in name && name !in store && |name| <= MAX_NAME_LENGTH && Dollars(name) <= MAX_SEPARATORS
  }

  function ResolveWith(store: Store, name: string, budget: nat): (r: (string, nat))
    ensures r.1 <= budget
  {
    if Searched(store, name) then
      var found := Search(store, name, budget);
      (if found.0.Some? then found.0.value else name, found.1)
    else (name, budget)
  }

  /** The name the store knows the class by, as far as it can tell. */
  function Resolve(store: Store, name: string): string {
    ResolveWith(store, name, MAX_SEPARATORS).0
  }

  ghost predicate ShortestKnown(store: Store, name: string, k: nat) {
    && 0 < k <= Dollars(name) && Convert(name, k) in store
    && forall j: nat | j < k :: Convert(name, j) !in store
  }

  ghost predicate NoneKnown(store: Store, name: string, k: nat) {
    k <= Dollars(name) && forall i: nat | i <= k :: Convert(name, i) !in store
  }

  lemma {:induction false} NextConversion(store: Store, name: string, j: nat)
    requires j < Dollars(name) && NoneKnown(store, name, j)
    ensures Convert(name, j + 1) == DottedOnce(Convert(name, j)) && Dollars(Convert(name, j)) > 0
    ensures if Convert(name, j + 1) in store then ShortestKnown(store, name, j + 1) else NoneKnown(store, name, j + 1)
  {
    hide DottedOnce;
  }

  /** Searching from the j-th conversion on stops at the k-th: a known one, or where the
      dollars or the budget end. */
  lemma {:induction false} SearchFinds(store: Store, name: string, j: nat, budget: nat) returns (k: nat)
    requires j <= Dollars(name) && NoneKnown(store, name, j)
    ensures j <= k <= Dollars(name) && j + budget == k + Search(store, Convert(name, j), budget).1
    ensures match Search(store, Convert(name, j), budget).0
            case Some(found) => ShortestKnown(store, name, k) && found == Convert(name, k)
            case None => NoneKnown(store, name, k) && (Search(store, Convert(name, j), budget).1 == 0 || k == Dollars(name))
    decreases budget
  {
    hide NoneKnown, ShortestKnown, DottedOnce;
    k := j;
    if budget > 0 && j < Dollars(name) {
      NextConversion(store, name, j);
      k := j + 1;
      if Convert(name, j + 1) !in store {
        k := SearchFinds(store, name, j + 1, budget - 1);
      }
    }
  }

  lemma {:induction false} ShortestUnique(store: Store, name: string, k: nat, m: nat)
    requires ShortestKnown(store, name, k) && (ShortestKnown(store, name, m) || NoneKnown(store, name, m))
    ensures if ShortestKnown(store, name, m) then k == m else m < k
  {
  }

  /** A name that resolves to another one resolves to a known class, with as few dollars read
      as separators as possible; and a name that stays is known, is out of bounds, or is known
      under no reading. */
  lemma {:induction false} ResolveMeans(store: Store, name: string)
    ensures Resolve(store, name) != name ==>
              Searched(store, name) && exists k :: ShortestKnown(store, name, k) && Resolve(store, name) == Convert(name, k)
    ensures Resolve(store, name) == name && Searched(store, name) ==>
              forall k: nat | k <= Dollars(name) :: Convert(name, k) !in store
  {
    if Searched(store, name) {
      assert Convert(name, 0) == name;
      var k := SearchFinds(store, name, 0, MAX_SEPARATORS);
      if Search(store, name, MAX_SEPARATORS).0.Some? {
        assert Dollars(Convert(name, k)) < Dollars(name);
      }
    }
  }

  /** While some budget is left, the answer is what an unlimited search gives; a spent budget
      can only leave the name as it was. */
  lemma {:induction false} BudgetHarmless(store: Store, name: string, budget: nat)
    ensures ResolveWith(store, name, budget).1 > 0 ==> ResolveWith(store, name, budget).0 == Resolve(store, name)
    ensures ResolveWith(store, name, budget).0 == Resolve(store, name) || ResolveWith(store, name, budget).0 == name
  {
    if Searched(store, name) {
      assert Convert(name, 0) == name;
      var k := SearchFinds(store, name, 0, budget);
      var m := SearchFinds(store, name, 0, MAX_SEPARATORS);
      if Search(store, name, budget).0.Some? {
        ShortestUnique(store, name, k, m);
      } else if Search(store, name, MAX_SEPARATORS).0.Some? {
        ShortestUnique(store, name, m, k);
      }
    }
  }

  // ------------------------------------------------------------------
  // What is read as what, character by character

  /** Every dollar a dot, all else as it is. */
  function AllDotted(s: string): (r: string)
    ensures |r| == |s| && forall i | 0 <= i < |s| :: r[i] == if s[i] == '$' then '.' else s[i]
  {
    seq(|s|, i requires 0 <= i < |s| => if s[i] == '$' then '.' else s[i])
  }

  /** The name with its dollars from p on read as separators. */
  function ReadFrom(name: string, p: nat): string
    requires p <= |name|
  {
    name[..p] + AllDotted(name[p..])
  }

  lemma {:induction false} DollarsCounted(s: string)
    ensures Dollars(s) == multiset(s)['$']
    decreases |s|
  {
    if s != "" {
      assert s == s[..|s| - 1] + [s[|s| - 1]];
      DollarsCounted(s[..|s| - 1]);
    }
  }

  /** One dollar is made a dot, the last one, and nothing else is touched. */
  lemma {:induction false} LastDotted(s: string) returns (i: nat)
    requires Dollars(s) > 0
    ensures i < |s| && s[i] == '$' && '$' !in s[i + 1..] && DottedOnce(s) == s[i := '.']
    decreases |s|
  {
    hide DottedOnce, Dollars;
    var n := |s| - 1;
    DottedLast(s);
    if s[n] == '$' {
      i := n;
    } else {
      i := LastDotted(s[..n]);
      DottedOn(s[..n], i, s[n]);
      assert s == s[..n] + [s[n]];
    }
  }

  lemma {:induction false} DottedLast(s: string)
    requires Dollars(s) > 0
    ensures var n := |s| - 1;
            if s[n] == '$' then DottedOnce(s) == s[n := '.'] && s[n + 1..] == []
            else Dollars(s[..n]) > 0 && DottedOnce(s) == DottedOnce(s[..n]) + [s[n]]
  {
    var n := |s| - 1;
    assert s[n] == '$' ==> s[n := '.'] == s[..n] + ".";
  }

  lemma {:induction false} DottedOn(s: string, i: nat, c: char)
    requires i < |s| && s[i] == '$' && '$' !in s[i + 1..] && c != '$'
    ensures (s + [c])[i := '.'] == s[i := '.'] + [c] && '$' !in (s + [c])[i + 1..]
  {
    assert (s + [c])[i + 1..] == s[i + 1..] + [c];
  }

  lemma {:induction false} ReadOn(name: string, p: nat, i: nat)
    requires i < p <= |name| && name[i] == '$' && '$' !in name[i + 1..p]
    ensures ReadFrom(name, p)[i] == '$' && '$' !in ReadFrom(name, p)[i + 1..]
    ensures ReadFrom(name, i) == ReadFrom(name, p)[i := '.']
    ensures forall q | i < q <= p :: ReadFrom(name, q) == ReadFrom(name, p)
  {
    var r := ReadFrom(name, p);
    forall j | i < j < |r| ensures r[j] != '$' {
      assert j < p ==> name[i + 1..p][j - i - 1] == name[j];
    }
    forall q | i < q <= p ensures ReadFrom(name, q) == r {
      forall j | q <= j < p ensures name[j] != '$' {
        assert name[i + 1..p][j - i - 1] == name[j];
      }
    }
    forall j | i < j < p ensures name[j] != '$' {
      assert name[i + 1..p][j - i - 1] == name[j];
    }
    assert ReadFrom(name, i) == r[i := '.'];
  }

  /** The next dollar to be read is the last one before p. */
  lemma {:induction false} ReadNext(name: string, p: nat, r: string) returns (i: nat)
    requires p <= |name| && r == ReadFrom(name, p) && Dollars(r) > 0
    ensures i < p && name[i] == '$' && DottedOnce(r) == ReadFrom(name, i)
    ensures forall q | i < q <= p :: ReadFrom(name, q) == r
  {
    i := LastDotted(r);
    assert i < p;
    forall j | i < j < p ensures name[j] != '$' {
      assert r[i + 1..][j - i - 1] == r[j] == name[j];
    }
    ReadOn(name, p, i);
  }

  ghost predicate ReadBy(name: string, q: nat, k: nat)
    requires q <= |name| && k <= Dollars(name)
  {
    exists j: nat :: j <= k && Convert(name, j) == ReadFrom(name, q)
  }

  ghost predicate AllReadBy(name: string, p: nat, k: nat)
    requires k <= Dollars(name)
  {
    forall q | p <= q <= |name| :: ReadBy(name, q, k)
  }

  /** The k-th conversion reads the last k dollars as separators: from some place on all of
      them, and none before. */
  lemma {:induction false} ConvertReads(name: string, k: nat) returns (p: nat)
    requires k <= Dollars(name)
    ensures p <= |name| && Convert(name, k) == ReadFrom(name, p)
    ensures AllReadBy(name, p, k)
    ensures k > 0 ==> p < |name| && name[p] == '$' && AllReadBy(name, p + 1, k - 1)
    decreases k
  {
    hide DottedOnce, ReadFrom, Dollars;
    ReadWhole(name);
    if k == 0 {
      p := |name|;
    } else {
      var before := ConvertReads(name, k - 1);
      p := ReadNext(name, before, Convert(name, k - 1));
      var m := k - 1;
      forall q | p + 1 <= q <= |name| ensures ReadBy(name, q, m) {
        if q <= before { assert Convert(name, m) == ReadFrom(name, q); }
      }
      forall q | p <= q <= |name| ensures ReadBy(name, q, k) {
        if q == p {
          assert Convert(name, k) == ReadFrom(name, q);
        } else {
          ReadByMore(name, q, m);
        }
      }
    }
  }

  lemma {:induction false} ReadWhole(name: string)
    ensures ReadFrom(name, |name|) == name
  {
  }

  lemma {:induction false} ReadByMore(name: string, q: nat, k: nat)
    requires q <= |name| && k < Dollars(name) && ReadBy(name, q, k)
    ensures ReadBy(name, q, k + 1)
  {
    var j: nat :| j <= k && Convert(name, j) == ReadFrom(name, q);
  }

  /** The answer is that of the first dollar, from the right, that makes a name the store
      knows when it and all dollars behind it are read as separators; the name itself when it
      is known, too long, has too many dollars, or is known under no such reading. */
  ghost predicate ReadsAs(store: Store, name: string, r: string) {
    if '$' in name && name !in store && |name| <= 4096 && multiset(name)['$'] <= 64 then
      || (exists p :: KnownFrom(store, name, p) && r == ReadFrom(name, p))
      || (r == name && forall p | 0 <= p <= |name| :: ReadFrom(name, p) !in store)
    else
      r == name
  }

  ghost predicate KnownFrom(store: Store, name: string, p: nat) {
    && p < |name| && name[p] == '$' && ReadFrom(name, p) in store
    && forall q | p < q <= |name| :: ReadFrom(name, q) !in store
  }

  lemma {:induction false} ResolveReads(store: Store, name: string)
    ensures ReadsAs(store, name, Resolve(store, name))
  {
    DollarsCounted(name);
    ConvertNone(name);
    hide Convert, Search, Dollars, DottedOnce, ReadFrom;
    if Searched(store, name) {
      var k := SearchFinds(store, name, 0, MAX_SEPARATORS);
      if Search(store, name, MAX_SEPARATORS).0.Some? {
        var p := ShortestReads(store, name, k);
      } else {
        NoneReads(store, name);
      }
    }
  }

  lemma {:induction false} ConvertNone(name: string)
    ensures Convert(name, 0) == name
  {
  }

  lemma {:induction false} ShortestReads(store: Store, name: string, k: nat) returns (p: nat)
    requires ShortestKnown(store, name, k)
    ensures KnownFrom(store, name, p) && Convert(name, k) == ReadFrom(name, p)
  {
    hide Convert, Dollars, DottedOnce, ReadFrom;
    p := ConvertReads(name, k);
    forall q | p < q <= |name| ensures ReadFrom(name, q) !in store {
      assert ReadBy(name, q, k - 1);
      var j: nat :| j <= k - 1 && Convert(name, j) == ReadFrom(name, q);
    }
  }

  lemma {:induction false} NoneReads(store: Store, name: string)
    requires NoneKnown(store, name, Dollars(name))
    ensures forall p | 0 <= p <= |name| :: ReadFrom(name, p) !in store
  {
    hide Convert, Dollars, DottedOnce, ReadFrom;
    var p := ConvertReads(name, Dollars(name));
    forall q | 0 <= q <= |name| ensures ReadFrom(name, q) !in store {
      ReadByAll(name, p, q);
      var j: nat :| j <= Dollars(name) && Convert(name, j) == ReadFrom(name, q);
    }
  }

  /** Nothing is left to be read before p. */
  lemma {:induction false} ReadByAll(name: string, p: nat, q: nat)
    requires p <= |name| && q <= |name| && Convert(name, Dollars(name)) == ReadFrom(name, p)
    requires AllReadBy(name, p, Dollars(name))
    ensures ReadBy(name, q, Dollars(name))
  {
    if q < p {
      var r := ReadFrom(name, p);
      assert Dollars(r) == 0;
      ReadSame(name, q, p);
    }
  }

  lemma {:induction false} ReadSame(name: string, q: nat, p: nat)
    requires q <= p <= |name| && '$' !in ReadFrom(name, p)
    ensures ReadFrom(name, q) == ReadFrom(name, p)
  {
    var r, r' := ReadFrom(name, p), ReadFrom(name, q);
    forall i | 0 <= i < |name| ensures r'[i] == r[i] {
      if q <= i < p { assert r[i] == name[i] != '$'; }
    }
  }

  // ------------------------------------------------------------------
  // Names, expressions and values on the wire, with no limit on the work

  predicate Blank(s: string) {
    Trim(s) == ""
  }

  function StoreName(store: Store, name: string): string {
    Resolve(store, Trim(name))
  }

  function BinaryName(store: Store, known: string): Option<string> {
    if known in store && store[known].binaryName != "" then Some(store[known].binaryName) else None
  }

  function WireName(store: Store, name: string): string {
    match BinaryName(store, StoreName(store, name))
    case Some(binary) => binary
    case None => name
  }

  predicate NameChar(c: char) {
    c == '.' || c == '$' || c == '_' || '0' <= c <= '9' || 'A' <= c <= 'Z' || 'a' <= c <= 'z'
  }

  /** How far the name at the start of the text goes. */
  function TokenEnd(s: string): (n: nat)
    ensures n <= |s| && (forall i | 0 <= i < n :: NameChar(s[i])) && (n < |s| ==> !NameChar(s[n]))
  {
    if s == "" || !NameChar(s[0]) then 0 else 1 + TokenEnd(s[1..])
  }

  /** Every maximal name in the text on its own, and all other characters as they are. */
  function WireExpr(store: Store, s: string): string
    decreases |s|
  {
    if s == "" then ""
    else
      var n := TokenEnd(s);
      if n == 0 then s[..1] + WireExpr(store, s[1..])
      else WireName(store, s[..n]) + WireExpr(store, s[n..])
  }

  /** JSON-like arguments. */
  datatype Json =
    | JString(s: string)
    | JOther(text: string)
    | JList(items: seq<Json>)
    | JMap(entries: map<string, Json>)

  const TYPE_KEY: string := "@type"

  predicate TypeEntry(k: string, v: Json) {
    k == TYPE_KEY && v.JString? && !Blank(v.s)
  }

  function WireValue(store: Store, v: Json): Json
    decreases v
  {
    match v
    case JMap(m) =>
      JMap(map k | k in m :: if TypeEntry(k, m[k]) then JString(WireName(store, Trim(m[k].s))) else WireValue(store, m[k]))
    case JList(s) => JList(seq(|s|, i requires 0 <= i < |s| => WireValue(store, s[i])))
    case _ => v
  }

  // ------------------------------------------------------------------
  // The program's resolver

  class Resolver {
    const store: Store
    var budget: nat
    var memo: map<string, string>
    ghost var built: nat

    constructor (store: Store)
      ensures this.store == store && budget == MAX_CANDIDATES && memo == map[] && built == 0 && Valid()
    {
      this.store := store;
      budget, memo, built := MAX_CANDIDATES, map[], 0;
    }

    /** No more candidates are built than the budget allows, and what the memo says is
        what a search said: right, or the name itself if the budget ran out. */
    ghost predicate Valid()
      reads this
    {
      && built + budget == MAX_CANDIDATES && |memo| <= MAX_MEMO
      && forall name | name in memo ::
           (memo[name] == Resolve(store, name) || (budget == 0 && memo[name] == name))
    }

    method TrySeparators(name: string) returns (r: string)
      requires Searched(store, name) && Valid()
      modifies this`budget, this`built
      ensures (r, budget) == ResolveWith(store, name, old(budget)) && budget + built == old(budget) + old(built)
    {
      var candidate := name;
      while true
        invariant budget + built == old(budget) + old(built)
        invariant Search(store, name, old(budget)) == Search(store, candidate, budget)
        decreases Dollars(candidate)
      {
        if budget == 0 || '$' !in candidate {
          return name;
        }
        budget, built := budget - 1, built + 1;
        candidate := DottedOnce(candidate);
        if candidate in store {
          return candidate;
        }
      }
    }

    method ResolveName(name: string) returns (r: string)
      requires Valid()
      modifies this
      ensures Valid() && budget <= old(budget)
      ensures r == StoreName(store, name) || (budget == 0 && r == Trim(name))
      ensures ReadsAs(store, Trim(name), r) || (budget == 0 && r == Trim(name))
    {
      hide Search, ReadsAs;
      ResolveReads(store, Trim(name));
      var trimmed := Trim(name);
      if '$' !in trimmed {
        return trimmed;
      }
      if trimmed in memo {
        return memo[trimmed];
      }
      BudgetHarmless(store, trimmed, budget);
      if Searched(store, trimmed) {
        r := TrySeparators(trimmed);
      } else {
        r := trimmed;
      }
      if |memo| < MAX_MEMO {
        memo := memo[trimmed := r];
      }
    }

    method Wire(name: string) returns (r: string)
      requires Valid()
      modifies this
      ensures Valid() && budget <= old(budget)
      ensures r == WireName(store, name) || (budget == 0 && r == name)
    {
      var known := ResolveName(name);
      r := if known in store && store[known].binaryName != "" then store[known].binaryName else name;
    }

    /** Rewrites the names in a type expression in a single pass. */
    method WireTypeExpr(expr: string) returns (r: string)
      requires Valid()
      modifies this
      ensures Valid() && budget <= old(budget)
      ensures budget > 0 ==> r == WireExpr(store, expr)
    {
      hide WireName, WireExpr, Valid;
      var b := "";
      var changed := false;
      var i := 0;
      assert expr[0..] == expr;
      while i < |expr|
        invariant 0 <= i <= |expr| && Valid() && budget <= old(budget)
        invariant budget > 0 ==> b + WireExpr(store, expr[i..]) == WireExpr(store, expr)
        invariant !changed ==> b == expr[..i]
      {
        WireExprStep(store, expr, i);
        if !NameChar(expr[i]) {
          b := b + [expr[i]];
          i := i + 1;
        } else {
          var j := i + TokenEnd(expr[i..]);
          var token := expr[i..j];
          var wire := Wire(token);
          if wire != token {
            changed := true;
          }
          assert expr[..j] == expr[..i] + token;
          b := b + wire;
          i := j;
        }
      }
      assert expr[..i] == expr;
      assert expr[i..] == "";
      WireExprEnd(store);
      if !changed {
        return expr;
      }
      r := b;
    }

    /** Rewrites every type name in a tree of arguments, and nothing else. */
    method RewriteValue(v: Json) returns (r: Json)
      requires Valid()
      modifies this
      ensures Valid() && budget <= old(budget)
      ensures Partly(store, v, r) && (budget > 0 ==> r == WireValue(store, v))
      decreases v, 2
    {
      match v
      case JMap(m) =>
        var entries := RewriteEntries(v, m);
        r := JMap(entries);
      case JList(s) =>
        var items := RewriteItems(v, s);
        r := JList(items);
      case _ =>
        r := v;
    }

    method RewriteItems(ghost v: Json, s: seq<Json>) returns (out: seq<Json>)
      requires Valid() && v == JList(s)
      modifies this
      ensures Valid() && budget <= old(budget)
      ensures Partly(store, v, JList(out)) && (budget > 0 ==> JList(out) == WireValue(store, v))
      decreases v, 1
    {
      out := [];
      var i := 0;
      while i < |s|
        invariant 0 <= i <= |s| && |out| == i && Valid() && budget <= old(budget)
        invariant forall j | 0 <= j < i :: Partly(store, s[j], out[j])
        invariant budget > 0 ==> forall j | 0 <= j < i :: out[j] == WireValue(store, s[j])
      {
        hide Partly, WireValue, Valid;
        var item := RewriteValue(s[i]);
        out := out + [item];
        i := i + 1;
      }
      hide Valid;
      assert budget > 0 ==> out == WireValue(store, v).items;
    }

    method RewriteEntries(ghost v: Json, m: map<string, Json>) returns (out: map<string, Json>)
      requires Valid() && v == JMap(m)
      modifies this
      ensures Valid() && budget <= old(budget)
      ensures Partly(store, v, JMap(out)) && (budget > 0 ==> JMap(out) == WireValue(store, v))
      decreases v, 1
    {
      out := map[];
      var left := m.Keys;
      while left != {}
        invariant Valid() && budget <= old(budget) && left <= m.Keys && out.Keys == m.Keys - left
        invariant forall k | k in out :: EntryPartly(store, k, m[k], out[k])
        invariant budget > 0 ==> forall k | k in out :: out[k] == EntryWired(store, k, m[k])
        decreases |left|
      {
        hide EntryPartly, EntryWired, Valid;
        var k :| k in left;
        var item := RewriteEntry(v, m, k);
        out := out[k := item];
        left := left - {k};
      }
      hide EntryPartly, WireName, Valid, EntryWired, WireValue;
      assert out.Keys == m.Keys;
      EntriesPartly(store, m, out);
      if budget > 0 {
        EntriesWired(store, m, out);
      }
    }

    method RewriteEntry(ghost v: Json, m: map<string, Json>, k: string) returns (item: Json)
      requires Valid() && v == JMap(m) && k in m
      modifies this
      ensures Valid() && budget <= old(budget)
      ensures EntryPartly(store, k, m[k], item) && (budget > 0 ==> item == EntryWired(store, k, m[k]))
      decreases v, 0
    {
      if TypeEntry(k, m[k]) {
        hide WireName;
        var name := Wire(Trim(m[k].s));
        item := JString(name);
      } else {
        item := RewriteValue(m[k]);
      }
    }
  }

  lemma {:induction false} EntriesPartly(store: Store, m: map<string, Json>, out: map<string, Json>)
    requires out.Keys == m.Keys && forall k | k in m :: EntryPartly(store, k, m[k], out[k])
    ensures Partly(store, JMap(m), JMap(out))
  {
    hide EntryPartly;
  }

  lemma {:induction false} EntriesWired(store: Store, m: map<string, Json>, out: map<string, Json>)
    requires out.Keys == m.Keys && forall k | k in m :: out[k] == EntryWired(store, k, m[k])
    ensures JMap(out) == WireValue(store, JMap(m))
  {
    hide WireName;
    assert out == WireValue(store, JMap(m)).entries;
  }

  lemma {:induction false} WireExprStep(store: Store, s: string, i: nat)
    requires i < |s|
    ensures var n := TokenEnd(s[i..]);
            && (n == 0 <==> !NameChar(s[i]))
            && WireExpr(store, s[i..]) ==
               if n == 0 then [s[i]] + WireExpr(store, s[i + 1..]) else WireName(store, s[i..i + n]) + WireExpr(store, s[i + n..])
  {
    hide WireName;
    var n := TokenEnd(s[i..]);
    assert s[i..][..1] == [s[i]] && s[i..][1..] == s[i + 1..] && s[i..][..n] == s[i..i + n] && s[i..][n..] == s[i + n..];
  }

  /** A name in the text is rewritten as a whole, up to the first character that no name has. */
  lemma {:induction false} WireExprName(store: Store, name: string, rest: string)
    requires AllNameChars(name) && (rest == "" || !NameChar(rest[0]))
    ensures WireExpr(store, name + rest) == WireName(store, name) + WireExpr(store, rest)
  {
    hide WireName;
    TokenEndOf(name, rest);
    assert (name + rest)[..|name|] == name && (name + rest)[|name|..] == rest;
  }

  /** All other characters stay where they are. */
  lemma {:induction false} WireExprOther(store: Store, c: char, rest: string)
    requires !NameChar(c)
    ensures WireExpr(store, [c] + rest) == [c] + WireExpr(store, rest) && WireExpr(store, "") == ""
  {
    hide WireName;
    assert ([c] + rest)[..1] == [c] && ([c] + rest)[1..] == rest;
  }

  lemma {:induction false} WireExprEnd(store: Store)
    ensures WireExpr(store, "") == ""
  {
  }

  /** Every entry that names a type names it by its wire name, and nothing else is touched. */
  ghost predicate Wired(store: Store, v: Json, r: Json)
    decreases v
  {
    match v
    case JMap(m) =>
      && r.JMap? && r.entries.Keys == m.Keys
      && forall k | k in m ::
           if k == "@type" && m[k].JString? && Trim(m[k].s) != "" then r.entries[k] == JString(WireName(store, Trim(m[k].s)))
           else Wired(store, m[k], r.entries[k])
    case JList(s) => r.JList? && |r.items| == |s| && forall i | 0 <= i < |s| :: Wired(store, s[i], r.items[i])
    case _ => r == v
  }

  lemma {:induction false} ValueWired(store: Store, v: Json)
    ensures Wired(store, v, WireValue(store, v))
    decreases v
  {
    hide WireName, Trim;
    match v
    case JMap(m) =>
      forall k | k in m && !TypeEntry(k, m[k]) ensures Wired(store, m[k], WireValue(store, m[k])) { ValueWired(store, m[k]); }
    case JList(s) =>
      forall i | 0 <= i < |s| ensures Wired(store, s[i], WireValue(store, s[i])) { ValueWired(store, s[i]); }
    case _ =>
  }

  function EntryWired(store: Store, k: string, v: Json): Json
    decreases v, 1
  {
    if TypeEntry(k, v) then JString(WireName(store, Trim(v.s))) else WireValue(store, v)
  }

  ghost predicate EntryPartly(store: Store, k: string, v: Json, r: Json)
    decreases v, 1
  {
    if TypeEntry(k, v) then r == JString(WireName(store, Trim(v.s))) || r == JString(Trim(v.s)) else Partly(store, v, r)
  }

  /** The second value is the first with some of its type names rewritten. */
  ghost predicate Partly(store: Store, v: Json, r: Json)
    decreases v, 0
  {
    match v
    case JMap(m) => r.JMap? && r.entries.Keys == m.Keys && forall k | k in m :: EntryPartly(store, k, m[k], r.entries[k])
    case JList(s) => r.JList? && |r.items| == |s| && forall i | 0 <= i < |s| :: Partly(store, s[i], r.items[i])
    case _ => r == v
  }

  // ------------------------------------------------------------------
  // Rewriting twice

  /** Binary names lead back to their classes: each is the class's own name with its
      separators made dollars, and read any shorter way it names no class. */
  ghost predicate LeadsBack(store: Store, known: string, binary: string, k: nat) {
    && k <= Dollars(binary) && Convert(binary, k) == known
    && forall j: nat | j < k :: Convert(binary, j) !in store
  }

  ghost predicate Regular(store: Store) {
    forall known | BinaryName(store, known).Some? ::
      var binary := BinaryName(store, known).value;
      && |binary| <= MAX_NAME_LENGTH && Dollars(binary) <= MAX_SEPARATORS
      && (forall i | 0 <= i < |binary| :: NameChar(binary[i]))
      && exists k :: LeadsBack(store, known, binary, k)
  }

  lemma {:induction false} BinaryResolves(store: Store, known: string)
    requires Regular(store) && BinaryName(store, known).Some?
    ensures Resolve(store, BinaryName(store, known).value) == known
  {
    var binary := BinaryName(store, known).value;
    var k :| LeadsBack(store, known, binary, k);
    assert Convert(binary, 0) == binary;
    if k > 0 {
      assert ShortestKnown(store, binary, k);
      var m := SearchFinds(store, binary, 0, MAX_SEPARATORS);
      ShortestUnique(store, binary, k, m);
    }
  }

  lemma {:induction false} ConvertOn(name: string, j: nat, i: nat)
    requires j + i <= Dollars(name)
    ensures Convert(Convert(name, j), i) == Convert(name, j + i)
    decreases i
  {
    hide DottedOnce;
    if i > 0 {
      ConvertOn(name, j, i - 1);
    }
  }

  /** However many of its separators one writes as dollars, a class of a regular store has one
      name on the wire, its binary name. */
  lemma {:induction false} SpellingsAgree(store: Store, known: string, k: nat, j: nat)
    requires Regular(store) && known in store && store[known].binaryName != ""
    requires LeadsBack(store, known, store[known].binaryName, k) && j <= k
    ensures WireName(store, Convert(store[known].binaryName, j)) == store[known].binaryName
  {
    var binary := store[known].binaryName;
    assert BinaryName(store, known) == Some(binary);
    SpellingTight(binary, j);
    SpellingResolves(store, known, binary, k, j);
  }

  lemma {:induction false} SpellingResolves(store: Store, known: string, binary: string, k: nat, j: nat)
    requires known in store && LeadsBack(store, known, binary, k) && j <= k
    requires |binary| <= MAX_NAME_LENGTH && Dollars(binary) <= MAX_SEPARATORS
    ensures Resolve(store, Convert(binary, j)) == known
  {
    hide Convert, DottedOnce, Search;
    var spelling := Convert(binary, j);
    ConvertLength(binary, j);
    ConvertOn(binary, j, k - j);
    ConvertNone(spelling);
    forall i: nat | i < k - j ensures Convert(spelling, i) !in store { ConvertOn(binary, j, i); }
    if k > j {
      assert ShortestKnown(store, spelling, k - j);
      var m := SearchFinds(store, spelling, 0, MAX_SEPARATORS);
      ShortestUnique(store, spelling, k - j, m);
    }
  }

  lemma {:induction false} ConvertLength(name: string, k: nat)
    requires k <= Dollars(name)
    ensures |Convert(name, k)| == |name|
  {
    hide DottedOnce, Dollars;
    var p := ConvertReads(name, k);
  }

  lemma {:induction false} SpellingTight(name: string, k: nat)
    requires k <= Dollars(name) && forall i | 0 <= i < |name| :: NameChar(name[i])
    ensures Trim(Convert(name, k)) == Convert(name, k)
  {
    hide DottedOnce, Dollars, Trim;
    var p := ConvertReads(name, k);
    var r := Convert(name, k);
    if name != "" {
      forall i | 0 <= i < |r| ensures NameChar(r[i]) { assert NameChar(name[i]); }
      NamesAreTight(r);
    } else {
      BlankTight();
    }
  }

  lemma {:induction false} BlankTight()
    ensures Trim("") == ""
  {
  }

  ghost predicate AllNameChars(s: string) {
    s != "" && forall i | 0 <= i < |s| :: NameChar(s[i])
  }

  lemma {:induction false} NamesAreTight(s: string)
    requires AllNameChars(s)
    ensures Trim(s) == s
  {
    assert NameChar(s[0]) && NameChar(s[|s| - 1]);
    TrimTight(s);
  }

  lemma {:induction false} WireNameStays(store: Store, name: string)
    requires Regular(store)
    ensures WireName(store, WireName(store, name)) == WireName(store, name)
    ensures AllNameChars(name) ==> AllNameChars(WireName(store, name))
    ensures WireName(store, name) == name || AllNameChars(WireName(store, name))
  {
    hide Resolve, Trim;
    var known := StoreName(store, name);
    if BinaryName(store, known).Some? {
      BinaryResolves(store, known);
      NamesAreTight(BinaryName(store, known).value);
    }
  }

  lemma {:induction false} TokenEndOf(s: string, t: string)
    requires (forall i | 0 <= i < |s| :: NameChar(s[i])) && (t == "" || !NameChar(t[0]))
    ensures TokenEnd(s + t) == |s|
  {
    var n := TokenEnd(s + t);
    assert forall i | 0 <= i < |s| :: NameChar((s + t)[i]);
    assert t != "" ==> (s + t)[|s|] == t[0];
  }

  lemma {:induction false} WireExprStart(store: Store, s: string)
    requires s == "" || !NameChar(s[0])
    ensures WireExpr(store, s) == "" || !NameChar(WireExpr(store, s)[0])
  {
  }

  /** Rewriting an expression that has been rewritten changes nothing. */
  lemma {:induction false} WireExprStays(store: Store, s: string)
    requires Regular(store)
    ensures WireExpr(store, WireExpr(store, s)) == WireExpr(store, s)
    decreases |s|
  {
    if s != "" {
      hide WireName, Regular;
      var n := TokenEnd(s);
      if n == 0 {
        var rest := WireExpr(store, s[1..]);
        WireExprStays(store, s[1..]);
        assert (s[..1] + rest)[1..] == rest && (s[..1] + rest)[..1] == s[..1];
      } else {
        var name, rest := WireName(store, s[..n]), WireExpr(store, s[n..]);
        WireNameStays(store, s[..n]);
        WireExprStays(store, s[n..]);
        WireExprStart(store, s[n..]);
        TokenEndOf(name, rest);
        assert (name + rest)[|name|..] == rest && (name + rest)[..|name|] == name;
      }
    }
  }

  /** Nor does rewriting arguments again. */
  lemma {:induction false} WireValueStays(store: Store, v: Json)
    requires Regular(store)
    ensures WireValue(store, WireValue(store, v)) == WireValue(store, v)
    decreases v
  {
    hide WireName, Regular, Trim;
    match v
    case JMap(m) =>
      var m' := WireValue(store, v).entries;
      var m'' := WireValue(store, WireValue(store, v)).entries;
      forall k | k in m ensures m''[k] == m'[k] {
        if TypeEntry(k, m[k]) {
          TrimTwice(m[k].s);
          WireNameStays(store, Trim(m[k].s));
          if AllNameChars(m'[k].s) { NamesAreTight(m'[k].s); }
        } else {
          WireValueStays(store, m[k]);
        }
      }
      assert m'' == m';
    case JList(s) =>
      forall i | 0 <= i < |s| ensures WireValue(store, WireValue(store, s[i])) == WireValue(store, s[i]) {
        WireValueStays(store, s[i]);
      }
      assert WireValue(store, WireValue(store, v)).items == WireValue(store, v).items;
    case _ =>
  }

  // ------------------------------------------------------------------
  // A whole request

  /** All parameter types of a request share one resolver. */
  method WireParamTypes(paramTypes: seq<string>, store: Store) returns (out: seq<string>, ghost built: nat)
    ensures |out| == |paramTypes| && built <= MAX_CANDIDATES
    ensures built < MAX_CANDIDATES ==> forall i | 0 <= i < |out| :: out[i] == WireExpr(store, paramTypes[i])
  {
    hide WireExpr;
    var resolver := new Resolver(store);
    out := [];
    var i := 0;
    while i < |paramTypes|
      invariant 0 <= i <= |paramTypes| && |out| == i && resolver.Valid()
      invariant resolver.budget > 0 ==> forall j | 0 <= j < i :: out[j] == WireExpr(store, paramTypes[j])
      modifies resolver
    {
      var wired := resolver.WireTypeExpr(paramTypes[i]);
      out := out + [wired];
      i := i + 1;
    }
    built := resolver.built;
  }

  method RewriteWireTypeNames(args: seq<Json>, store: Store) returns (out: seq<Json>, ghost built: nat)
    ensures built <= MAX_CANDIDATES && Partly(store, JList(args), JList(out))
    ensures built < MAX_CANDIDATES ==> JList(out) == WireValue(store, JList(args))
  {
    hide WireValue, Partly;
    var resolver := new Resolver(store);
    out := resolver.RewriteItems(JList(args), args);
    built := resolver.built;
  }
}
