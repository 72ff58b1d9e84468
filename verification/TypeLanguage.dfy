/** Java type expressions: the parser and the printer, and that they undo each other. */
module TypeLanguage {
  import opened Options

  datatype Wildcard = NoWildcard | Any | Extends | Super

  datatype TypeSpec = TypeSpec(base: string, args: seq<TypeSpec>, arrayDepth: nat, wildcard: Wildcard)

  const ZERO: TypeSpec := TypeSpec("", [], 0, NoWildcard)
  const OBJECT: string := "java.lang.Object"

  // ------------------------------------------------------------------
  // Text

  predicate IsSpace(c: char) {
    || '\t' <= c <= '\r' || c == ' ' || c == '\U{0085}' || c == '\U{00A0}' || c == '\U{1680}'
    || '\U{2000}' <= c <= '\U{200A}' || c == '\U{2028}' || c == '\U{2029}' || c == '\U{202F}'
    || c == '\U{205F}' || c == '\U{3000}'
  }

  function TrimLeft(s: string): (r: string)
    ensures |r| <= |s|
  {
    if s != "" && IsSpace(s[0]) then TrimLeft(s[1..]) else s
  }

  function TrimRight(s: string): (r: string)
    ensures |r| <= |s|
  {
    if s != "" && IsSpace(s[|s| - 1]) then TrimRight(s[..|s| - 1]) else s
  }

  function Trim(s: string): (r: string)
    ensures |r| <= |s|
  {
    TrimRight(TrimLeft(s))
  }

  predicate HasSuffix(s: string, t: string) {
    |t| <= |s| && s[|s| - |t|..] == t
  }

  /** Nothing to trim. */
  predicate Tight(s: string) {
    s != "" && !IsSpace(s[0]) && !IsSpace(s[|s| - 1])
  }

  lemma {:induction false} TrimTight(s: string)
    requires Tight(s)
    ensures Trim(s) == s && Trim(" " + s) == s
  {
    assert (" " + s)[1..] == s;
    assert TrimLeft(" " + s) == TrimLeft(s) == s;
  }

  // ------------------------------------------------------------------
  // The parser

  /** The text up to the bracket that closes the open ones; None when none does. */
  function Enclosed(cur: string, rest: string, depth: nat): (r: Option<string>)
    ensures r.Some? ==> |r.value| < |cur| + |rest|
    decreases |rest|
  {
    if rest == "" then None
    else if rest[0] == '<' then Enclosed(cur + rest[..1], rest[1..], depth + 1)
    else if rest[0] == '>' then
      if depth <= 1 then Some(cur) else Enclosed(cur + rest[..1], rest[1..], depth - 1)
    else Enclosed(cur + rest[..1], rest[1..], depth)
  }

  function NextDepth(c: char, depth: nat): nat {
    if c == '<' then depth + 1 else if c == '>' && depth > 0 then depth - 1 else depth
  }

  /** The trimmed pieces between commas that are in no bracket; an empty last one is dropped. */
  function Pieces(cur: string, rest: string, depth: nat): (r: seq<string>)
    ensures forall i | 0 <= i < |r| :: |r[i]| <= |cur| + |rest|
    decreases |rest|
  {
    if rest == "" then if Trim(cur) != "" then [Trim(cur)] else []
    else if rest[0] == ',' && depth == 0 then [Trim(cur)] + Pieces("", rest[1..], 0)
    else Pieces(cur + rest[..1], rest[1..], NextDepth(rest[0], depth))
  }

  /** Where the character first comes, or the length of the text. */
  function IndexOf(s: string, c: char): (i: nat)
    ensures i <= |s| && (i < |s| ==> s[i] == c) && forall j | 0 <= j < i :: s[j] != c
  {
    if s == "" || s[0] == c then 0 else 1 + IndexOf(s[1..], c)
  }

  function BaseOf(s: string): (r: string)
    ensures |r| <= |s|
  {
    Trim(s[..IndexOf(s, '<')])
  }

  /** The texts of the type arguments. */
  function ArgsOf(s: string): (r: seq<string>)
    ensures forall i | 0 <= i < |r| :: |r[i]| < |s|
  {
    var lt := IndexOf(s, '<');
    if lt == |s| then []
    else match Enclosed("", s[lt + 1..], 1)
      case Some(inner) => Pieces("", inner, 0)
      case None => []
  }

  /** The text without its trailing array brackets, and how many there were. */
  function StripArrays(s: string): (r: (string, nat))
    ensures |r.0| <= |s|
    decreases |s|
  {
    if HasSuffix(s, "[]") then
      var (t, n) := StripArrays(Trim(s[..|s| - 2]));
      (t, n + 1)
    else (s, 0)
  }

  const EXTENDS: string := "? extends "
  const SUPER: string := "? super "

  function Bounded(t: TypeSpec, w: Wildcard): TypeSpec {
    TypeSpec(if t.base == "" then OBJECT else t.base, t.args, t.arrayDepth, w)
  }

  function Parse(text: string): TypeSpec
    decreases |text|, 1
  {
    var s := Trim(text);
    if s == "" then ZERO
    else if s == "?" then TypeSpec(OBJECT, [], 0, Any)
    else if EXTENDS <= s then Bounded(Parse(s[|EXTENDS|..]), Extends)
    else if SUPER <= s then Bounded(Parse(s[|SUPER|..]), Super)
    else ParsePlain(s)
  }

  /** A type expression that is no wildcard. */
  function ParsePlain(s: string): TypeSpec
    decreases |s|, 0
  {
    var (t, depth) := StripArrays(s);
    var args := ArgsOf(Trim(t));
    TypeSpec(BaseOf(Trim(t)), seq(|args|, i requires 0 <= i < |args| => Parse(args[i])), depth, NoWildcard)
  }

  /** The class name in a type expression. */
  function RawName(text: string): string {
    var t := Parse(Trim(text));
    if t.base == "" then Trim(text) else t.base
  }

  /** What a wildcard stands for. */
  function Effective(t: TypeSpec): TypeSpec {
    if t.wildcard.NoWildcard? then t else TypeSpec(if t.base == "" then OBJECT else t.base, t.args, t.arrayDepth, NoWildcard)
  }

  // ------------------------------------------------------------------
  // The printer

  function Join(parts: seq<string>): string {
    if parts == [] then "" else if |parts| == 1 then parts[0] else parts[0] + ", " + Join(parts[1..])
  }

  function Brackets(n: nat): string {
    if n == 0 then "" else Brackets(n - 1) + "[]"
  }

  function Format(t: TypeSpec): string {
    if t.wildcard.Any? then "?"
    else
      var generic := if t.args == [] then t.base else t.base + "<" + Join(FormatAll(t.args)) + ">";
      var text := generic + Brackets(t.arrayDepth);
      match t.wildcard
      case Extends => EXTENDS + text
      case Super => SUPER + text
      case _ => text
  }

  function FormatAll(ts: seq<TypeSpec>): (r: seq<string>)
    ensures |r| == |ts| && forall i | 0 <= i < |r| :: r[i] == Format(ts[i])
  {
    if ts == [] then [] else [Format(ts[0])] + FormatAll(ts[1..])
  }

  // ------------------------------------------------------------------
  // The program's loops

  lemma {:induction false} PiecesStep(s: string, a: nat, i: nat, depth: nat)
    requires a <= i < |s|
    ensures Pieces(s[a..i], s[i..], depth) ==
            if s[i] == ',' && depth == 0 then [Trim(s[a..i])] + Pieces(s[i + 1..i + 1], s[i + 1..], 0)
            else Pieces(s[a..i + 1], s[i + 1..], NextDepth(s[i], depth))
  {
    assert s[i..][1..] == s[i + 1..] && s[a..i] + s[i..][..1] == s[a..i + 1];
    hide Trim;
  }

  lemma {:induction false} PiecesEnd(cur: string, depth: nat)
    ensures Pieces(cur, "", depth) == if Trim(cur) != "" then [Trim(cur)] else []
  {
    hide Trim;
  }

  lemma {:induction false} EnclosedStep(s: string, a: nat, i: nat, depth: nat)
    requires a <= i < |s| && depth > 0
    ensures Enclosed(s[a..i], s[i..], depth) ==
            if s[i] == '<' then Enclosed(s[a..i + 1], s[i + 1..], depth + 1)
            else if s[i] != '>' then Enclosed(s[a..i + 1], s[i + 1..], depth)
            else if depth == 1 then Some(s[a..i])
            else Enclosed(s[a..i + 1], s[i + 1..], depth - 1)
  {
    assert s[i..][1..] == s[i + 1..] && s[a..i] + s[i..][..1] == s[a..i + 1];
  }

  lemma {:induction false} Regroup(out: seq<string>, piece: string, rest: seq<string>)
    ensures out + ([piece] + rest) == (out + [piece]) + rest
  {
  }

  method SplitTopLevelCommas(s: string) returns (out: seq<string>)
    ensures out == Pieces("", s, 0)
  {
    if s == "" {
      PiecesEnd("", 0);
      return [];
    }
    assert s[0..0] == "" && s[0..] == s;
    hide Pieces, Trim;
    out := [];
    var depth, start, i := 0, 0, 0;
    while i < |s|
      invariant 0 <= start <= i <= |s| && 0 <= depth
      invariant Pieces("", s, 0) == out + Pieces(s[start..i], s[i..], depth)
    {
      PiecesStep(s, start, i, depth);
      if s[i] == ',' && depth == 0 {
        Regroup(out, Trim(s[start..i]), Pieces(s[i + 1..i + 1], s[i + 1..], 0));
        out := out + [Trim(s[start..i])];
        start := i + 1;
      } else {
        depth := NextDepth(s[i], depth);
      }
      i := i + 1;
    }
    var tail := Trim(s[start..]);
    assert s[start..i] == s[start..] && s[i..] == "";
    PiecesEnd(s[start..], depth);
    if tail != "" {
      out := out + [tail];
    }
  }

  method SplitGenericArgs(text: string) returns (base: string, args: seq<string>)
    ensures base == BaseOf(Trim(text)) && args == ArgsOf(Trim(text))
  {
    var s := Trim(text);
    TrimTwice(text);
    hide Trim, Pieces, Enclosed;
    var lt := IndexOf(s, '<');
    if lt == |s| {
      assert s[..lt] == s;
      return s, [];
    }
    base := Trim(s[..lt]);
    var depth, i := 1, lt + 1;
    assert s[lt + 1..i] == "" && s[i..] == s[lt + 1..];
    while i < |s|
      invariant lt < i <= |s| && depth > 0
      invariant Enclosed("", s[lt + 1..], 1) == Enclosed(s[lt + 1..i], s[i..], depth)
    {
      EnclosedStep(s, lt + 1, i, depth);
      if s[i] == '<' {
        depth := depth + 1;
      } else if s[i] == '>' {
        depth := depth - 1;
        if depth == 0 {
          args := SplitTopLevelCommas(s[lt + 1..i]);
          return;
        }
      }
      i := i + 1;
    }
    assert Enclosed(s[lt + 1..i], "", depth) == None by { NothingEnclosed(s[lt + 1..i], depth); }
    args := [];
  }

  lemma {:induction false} NothingEnclosed(cur: string, depth: nat)
    ensures Enclosed(cur, "", depth) == None
  {
  }

  lemma {:induction false} TrimTwice(s: string)
    ensures Trim(Trim(s)) == Trim(s)
  {
    TrimLeftClean(s);
    TrimRightClean(TrimLeft(s));
    var t := Trim(s);
    if t != "" {
      assert TrimLeft(t) == t && TrimRight(t) == t;
    }
  }

  lemma {:induction false} TrimLeftClean(s: string)
    ensures TrimLeft(s) == "" || !IsSpace(TrimLeft(s)[0])
    decreases |s|
  {
    if s != "" && IsSpace(s[0]) { TrimLeftClean(s[1..]); }
  }

  lemma {:induction false} TrimRightClean(s: string)
    ensures TrimRight(s) == "" || !IsSpace(TrimRight(s)[|TrimRight(s)| - 1])
    ensures TrimRight(s) <= s
    decreases |s|
  {
    if s != "" && IsSpace(s[|s| - 1]) { TrimRightClean(s[..|s| - 1]); }
  }

  method ParseTypeSpec(text: string) returns (spec: TypeSpec)
    ensures spec == Parse(text)
    decreases |text|
  {
    hide Trim, StripArrays, ArgsOf, BaseOf;
    var s := Trim(text);
    if s == "" {
      return ZERO;
    }
    if s == "?" {
      return TypeSpec(OBJECT, [], 0, Any);
    }
    if EXTENDS <= s {
      spec := ParseTypeSpec(s[|EXTENDS|..]);
      return Bounded(spec, Extends);
    }
    if SUPER <= s {
      spec := ParseTypeSpec(s[|SUPER|..]);
      return Bounded(spec, Super);
    }
    assert Parse(text) == ParsePlain(s);
    hide Parse;
    var whole := s;
    var depth := 0;
    while HasSuffix(s, "[]")
      invariant |s| <= |whole| && StripArrays(whole).0 == StripArrays(s).0 && StripArrays(whole).1 == StripArrays(s).1 + depth
      decreases |s|
    {
      StripOne(s);
      depth := depth + 1;
      s := Trim(s[..|s| - 2]);
    }
    StripNone(s);
    var base, texts := SplitGenericArgs(s);
    var args: seq<TypeSpec> := [];
    var i := 0;
    while i < |texts|
      invariant 0 <= i <= |texts| && |args| == i
      invariant forall j | 0 <= j < i :: args[j] == Parse(texts[j])
    {
      var arg := ParseTypeSpec(texts[i]);
      args := args + [arg];
      i := i + 1;
    }
    spec := TypeSpec(base, args, depth, NoWildcard);
    assert args == ParsePlain(whole).args;
  }

  lemma {:induction false} StripOne(s: string)
    requires HasSuffix(s, "[]")
    ensures StripArrays(s).0 == StripArrays(Trim(s[..|s| - 2])).0
    ensures StripArrays(s).1 == StripArrays(Trim(s[..|s| - 2])).1 + 1
  {
  }

  lemma {:induction false} StripNone(s: string)
    requires !HasSuffix(s, "[]")
    ensures StripArrays(s).0 == s && StripArrays(s).1 == 0
  {
  }

  // ------------------------------------------------------------------
  // Printed text, seen by the parser

  /** A name as Java writes one; what else it may contain does not matter here. */
  predicate Name(s: string) {
    s != "" && forall i | 0 <= i < |s| :: !Reserved(s[i]) && !IsSpace(s[i])
  }

  predicate Splits(c: char) {
    c == '<' || c == '>' || c == ','
  }

  predicate Reserved(c: char) {
    Splits(c) || c == '[' || c == ']' || c == '?'
  }

  ghost predicate Flat(s: string) {
    forall i | 0 <= i < |s| :: !Splits(s[i])
  }

  predicate WellFormed(t: TypeSpec) {
    && Name(t.base)
    && (forall i | 0 <= i < |t.args| :: WellFormed(t.args[i]))
    && (t.wildcard.Any? ==> t == TypeSpec(OBJECT, [], 0, Any))
  }

  /** The bracket depth after the text; None if it closes more than is open, or has a
      comma outside all brackets. */
  function Walk(s: string, depth: nat): Option<nat>
    decreases |s|
  {
    if s == "" then Some(depth)
    else if depth == 0 && (s[0] == '>' || s[0] == ',') then None
    else Walk(s[1..], NextDepth(s[0], depth))
  }

  predicate Neutral(s: string) {
    Walk(s, 0) == Some(0)
  }

  lemma {:induction false} WalkOn(s: string, t: string, depth: nat)
    requires Walk(s, depth).Some?
    ensures Walk(s + t, depth) == Walk(t, Walk(s, depth).value)
    decreases |s|
  {
    if s == "" {
      assert s + t == t;
    } else {
      assert (s + t)[1..] == s[1..] + t;
      WalkOn(s[1..], t, NextDepth(s[0], depth));
    }
  }

  lemma {:induction false} WalkDeeper(s: string, depth: nat)
    requires Walk(s, depth).Some?
    ensures Walk(s, depth + 1) == Some(Walk(s, depth).value + 1)
    decreases |s|
  {
    if s != "" {
      WalkDeeper(s[1..], NextDepth(s[0], depth));
    }
  }

  lemma {:induction false} WalkPlain(s: string, depth: nat)
    requires Flat(s)
    ensures Walk(s, depth) == Some(depth)
    decreases |s|
  {
    if s != "" { WalkPlain(s[1..], depth); }
  }

  lemma {:induction false} EnclosedPass(cur: string, s: string, t: string, depth: nat)
    requires Walk(s, depth).Some?
    ensures Enclosed(cur, s + t, depth + 1) == Enclosed(cur + s, t, Walk(s, depth).value + 1)
    decreases |s|
  {
    if s == "" {
      assert s + t == t && cur + s == cur;
    } else {
      assert (s + t)[1..] == s[1..] + t && cur + (s + t)[..1] + s[1..] == cur + s;
      EnclosedPass(cur + (s + t)[..1], s[1..], t, NextDepth(s[0], depth));
    }
  }

  lemma {:induction false} PiecesPass(cur: string, s: string, t: string, depth: nat)
    requires Walk(s, depth).Some?
    ensures Pieces(cur, s + t, depth) == Pieces(cur + s, t, Walk(s, depth).value)
    decreases |s|
  {
    hide Trim;
    if s == "" {
      assert s + t == t && cur + s == cur;
    } else {
      assert (s + t)[1..] == s[1..] + t && cur + (s + t)[..1] + s[1..] == cur + s;
      PiecesPass(cur + (s + t)[..1], s[1..], t, NextDepth(s[0], depth));
    }
  }

  ghost predicate Parts(parts: seq<string>) {
    forall i | 0 <= i < |parts| :: Neutral(parts[i]) && Tight(parts[i])
  }

  lemma {:induction false} CommaWalk(t: string)
    ensures Walk(", " + t, 1) == Walk(t, 1)
  {
    assert (", " + t)[1..] == " " + t && (" " + t)[1..] == t;
  }

  /** Inside brackets the commas between the parts do not matter. */
  lemma {:induction false} JoinWalk(parts: seq<string>)
    requires Parts(parts)
    ensures Walk(Join(parts), 1) == Some(1)
    decreases |parts|
  {
    if parts == [] {
      assert Walk("", 1) == Some(1);
    } else {
      assert Neutral(parts[0]);
      WalkDeeper(parts[0], 0);
      hide Walk, Tight;
      if |parts| > 1 {
        var rest := Join(parts[1..]);
        JoinWalk(parts[1..]);
        WalkOn(parts[0], ", " + rest, 1);
        CommaWalk(rest);
        assert Join(parts) == parts[0] + (", " + rest);
      }
    }
  }

  lemma {:induction false} EnclosedJoin(cur: string, parts: seq<string>, t: string)
    requires Parts(parts)
    ensures Enclosed(cur, Join(parts) + t, 1) == Enclosed(cur + Join(parts), t, 1)
    decreases |parts|
  {
    if |parts| == 0 {
      assert "" + t == t && cur + "" == cur;
    } else if |parts| == 1 {
      EnclosedPass(cur, parts[0], t, 0);
    } else {
      var rest := Join(parts[1..]);
      var more := ", " + (rest + t);
      assert Join(parts) + t == parts[0] + more;
      EnclosedPass(cur, parts[0], more, 0);
      CommaEnclosed(cur + parts[0], rest + t);
      EnclosedJoin(cur + parts[0] + ", ", parts[1..], t);
      assert cur + parts[0] + ", " + rest == cur + Join(parts);
    }
  }

  lemma {:induction false} CommaEnclosed(cur: string, t: string)
    ensures Enclosed(cur, ", " + t, 1) == Enclosed(cur + ", ", t, 1)
  {
    assert (", " + t)[1..] == " " + t && (" " + t)[1..] == t;
    assert cur + "," + " " == cur + ", ";
    assert (", " + t)[..1] == "," && (" " + t)[..1] == " ";
    assert Enclosed(cur, ", " + t, 1) == Enclosed(cur + ",", " " + t, 1);
  }

  lemma {:induction false} LastPiece(cur: string, p: string)
    requires Neutral(p) && Tight(p) && (cur == "" || cur == " ")
    ensures Pieces(cur, p, 0) == [p] && Trim(cur + p) == p
  {
    TrimTight(p);
    hide Trim, IsSpace;
    assert "" + p == p && p + "" == p;
    PiecesPass(cur, p, "", 0);
    PiecesEnd(cur + p, 0);
  }

  lemma {:induction false} FirstPiece(cur: string, p: string, rest: string)
    requires Neutral(p) && Tight(p) && (cur == "" || cur == " ")
    ensures Pieces(cur, p + (", " + rest), 0) == [p] + Pieces(" ", rest, 0)
  {
    LastPiece(cur, p);
    hide Trim, IsSpace, Pieces;
    PiecesPass(cur, p, ", " + rest, 0);
    CommaPieces(cur + p, rest);
  }

  /** Splitting takes a joined list apart again. */
  lemma {:induction false} PiecesJoin(cur: string, parts: seq<string>)
    requires Parts(parts) && parts != [] && (cur == "" || cur == " ")
    ensures Pieces(cur, Join(parts), 0) == parts
    decreases |parts|
  {
    hide Pieces, Neutral, Tight;
    if |parts| == 1 {
      LastPiece(cur, parts[0]);
    } else {
      var rest := Join(parts[1..]);
      assert Join(parts) == parts[0] + (", " + rest);
      FirstPiece(cur, parts[0], rest);
      PiecesJoin(" ", parts[1..]);
    }
  }

  lemma {:induction false} CommaPieces(cur: string, t: string)
    ensures Pieces(cur, ", " + t, 0) == [Trim(cur)] + Pieces(" ", t, 0)
  {
    hide Trim;
    assert (", " + t)[1..] == " " + t && (" " + t)[1..] == t && (" " + t)[..1] == " " && "" + " " == " ";
  }

  function Generic(t: TypeSpec): string {
    if t.args == [] then t.base else t.base + "<" + Join(FormatAll(t.args)) + ">"
  }

  lemma {:induction false} NeutralOn(s: string, t: string)
    requires Neutral(s) && Neutral(t)
    ensures Neutral(s + t)
  {
    WalkOn(s, t, 0);
  }

  lemma {:induction false} NeutralBrackets(inner: string)
    requires Walk(inner, 1) == Some(1)
    ensures Neutral("<" + (inner + ">"))
  {
    assert ("<" + (inner + ">"))[1..] == inner + ">";
    WalkOn(inner, ">", 1);
    assert Walk(">", 1) == Walk(">"[1..], 0);
  }

  /** Printed types are tight, balanced, and show no comma to the type around them. */
  lemma {:induction false} FormatNeutral(t: TypeSpec)
    requires WellFormed(t)
    ensures Neutral(Format(t)) && Tight(Format(t))
    decreases t, 2
  {
    NotSpace();
    if t.wildcard.Any? {
      WalkPlain("?", 0);
    } else {
      PlainNeutral(t);
      FormatText(t);
      var text := Generic(t) + Brackets(t.arrayDepth);
      var prefix := if t.wildcard.Extends? then EXTENDS else if t.wildcard.Super? then SUPER else "";
      PrefixNeutral(prefix, text);
    }
  }

  lemma {:induction false} PrefixNeutral(prefix: string, text: string)
    requires Neutral(text) && Tight(text) && Flat(prefix) && (prefix == "" || prefix[0] == '?')
    ensures Neutral(prefix + text) && Tight(prefix + text)
  {
    NotSpace();
    WalkPlain(prefix, 0);
    hide Walk, IsSpace, Flat;
    if prefix == "" { assert prefix + text == text; }
    NeutralOn(prefix, text);
  }

  lemma {:induction false} GenericNeutral(t: TypeSpec)
    requires WellFormed(t)
    ensures Neutral(Generic(t))
    decreases t, 0
  {
    WalkPlain(t.base, 0);
    hide Walk, IsSpace, Join, Tight, Format;
    if t.args != [] {
      var parts := FormatAll(t.args);
      forall i | 0 <= i < |parts| ensures Neutral(parts[i]) && Tight(parts[i]) {
        FormatNeutral(t.args[i]);
      }
      JoinWalk(parts);
      var inner := Join(parts);
      NeutralBrackets(inner);
      GenericText(t);
      hide Neutral, WellFormed, FormatAll, Generic;
      NeutralOn(t.base, "<" + (inner + ">"));
    }
  }

  lemma {:induction false} GenericText(t: TypeSpec)
    requires t.args != []
    ensures Generic(t) == t.base + ("<" + (Join(FormatAll(t.args)) + ">"))
  {
    hide Join, FormatAll;
  }

  lemma {:induction false} PlainNeutral(t: TypeSpec)
    requires WellFormed(t)
    ensures Neutral(Generic(t) + Brackets(t.arrayDepth)) && Tight(Generic(t) + Brackets(t.arrayDepth))
    decreases t, 1
  {
    hide Generic, Brackets, Walk, Flat, Tight, Format, FormatAll;
    GenericTight(t);
    GenericNeutral(t);
    BracketsPlain(t.arrayDepth);
    WalkPlain(Brackets(t.arrayDepth), 0);
    NeutralOn(Generic(t), Brackets(t.arrayDepth));
    BracketsKeepTight(Generic(t), t.arrayDepth);
  }

  lemma {:induction false} BracketsKeepTight(s: string, n: nat)
    requires Tight(s)
    ensures Tight(s + Brackets(n))
  {
    NotSpace();
    BracketsPlain(n);
    hide IsSpace;
    if n == 0 { assert s + "" == s; }
  }

  lemma {:induction false} BracketsPlain(n: nat)
    ensures Flat(Brackets(n)) && (n > 0 ==> |Brackets(n)| > 1 && Brackets(n)[|Brackets(n)| - 1] == ']')
  {
    if n > 0 { BracketsPlain(n - 1); }
  }

  lemma {:induction false} FormatText(t: TypeSpec)
    requires !t.wildcard.Any?
    ensures Format(t) ==
            (if t.wildcard.Extends? then EXTENDS else if t.wildcard.Super? then SUPER else "")
            + (Generic(t) + Brackets(t.arrayDepth))
  {
  }

  // ------------------------------------------------------------------
  // The parser undoes the printer

  lemma {:induction false} OneBracketLess(s: string, n: nat)
    requires Tight(s) && n > 0
    ensures HasSuffix(s + Brackets(n), "[]")
    ensures (s + Brackets(n))[..|s + Brackets(n)| - 2] == s + Brackets(n - 1)
    ensures Tight(s + Brackets(n - 1))
  {
    NotSpace();
    BracketsPlain(n - 1);
    hide IsSpace;
    var less := s + Brackets(n - 1);
    assert s + Brackets(n) == less + "[]";
    if n > 1 {
      assert Brackets(n - 1) == Brackets(n - 2) + "[]";
      assert less[|less| - 1] == ']';
    }
  }

  lemma {:induction false} StripBrackets(s: string, n: nat)
    requires Tight(s) && !HasSuffix(s, "[]")
    ensures StripArrays(s + Brackets(n)) == (s, n)
    decreases n
  {
    hide Tight, Trim, StripArrays, HasSuffix;
    if n == 0 {
      assert s + "" == s;
      StripNone(s);
    } else {
      OneBracketLess(s, n);
      TrimTight(s + Brackets(n - 1));
      hide Brackets;
      StripOne(s + Brackets(n));
      StripBrackets(s, n - 1);
    }
  }

  lemma {:induction false} IndexOfIs(s: string, c: char, t: string)
    requires c !in s
    ensures IndexOf(s + [c] + t, c) == |s| && IndexOf(s, c) == |s|
  {
    var whole := s + [c] + t;
    assert whole[|s|] == c && whole[..|s|] == s;
    assert forall j | 0 <= j < |s| :: whole[j] == s[j] && whole[j] != c;
  }

  lemma {:induction false} GenericTight(t: TypeSpec)
    requires WellFormed(t)
    ensures Tight(Generic(t)) && !HasSuffix(Generic(t), "[]")
  {
    hide IsSpace;
    var g := Generic(t);
    if t.args != [] {
      assert g[|g| - 1] == '>' && !IsSpace('>') by { assert !IsSpace('>') by { NotSpace(); } }
    }
  }

  lemma {:induction false} NotSpace()
    ensures !IsSpace('>') && !IsSpace('?') && !IsSpace('[') && !IsSpace(']')
  {
  }

  /** A printed type without wildcard and array brackets falls apart into its name and arguments. */
  lemma {:induction false} GenericParts(t: TypeSpec)
    requires WellFormed(t)
    ensures BaseOf(Generic(t)) == t.base && ArgsOf(Generic(t)) == FormatAll(t.args)
  {
    TrimTight(t.base);
    hide IsSpace, Trim;
    if t.args == [] {
      IndexOfIs(t.base, '<', "");
      assert t.base[..|t.base|] == t.base;
    } else {
      var parts := FormatAll(t.args);
      forall i | 0 <= i < |parts| ensures Neutral(parts[i]) && Tight(parts[i]) {
        FormatNeutral(t.args[i]);
      }
      var inner := Join(parts);
      assert Generic(t) == t.base + ['<'] + (inner + ">");
      EnclosedJoin("", parts, ">");
      assert "" + inner == inner;
      assert Enclosed(inner, ">", 1) == Some(inner);
      PiecesJoin("", parts);
      SplitAt(t.base, inner);
    }
  }

  lemma {:induction false} SplitAt(base: string, inner: string)
    requires '<' !in base && Trim(base) == base && Enclosed("", inner + ">", 1) == Some(inner)
    ensures BaseOf(base + ['<'] + (inner + ">")) == base
    ensures ArgsOf(base + ['<'] + (inner + ">")) == Pieces("", inner, 0)
  {
    hide Trim, Pieces, Enclosed;
    var g := base + ['<'] + (inner + ">");
    IndexOfIs(base, '<', inner + ">");
    assert g[..|base|] == base && g[|base| + 1..] == inner + ">";
  }

  /** The same without the wildcard; the parser reads that off first. */
  function Plain(t: TypeSpec): TypeSpec {
    t.(wildcard := NoWildcard)
  }

  lemma {:induction false} ParsePlainFrom(s: string, g: string, t: TypeSpec)
    requires StripArrays(s) == (g, t.arrayDepth) && Trim(g) == g
    requires BaseOf(g) == t.base && |ArgsOf(g)| == |t.args|
    requires forall i | 0 <= i < |t.args| :: Parse(ArgsOf(g)[i]) == t.args[i]
    ensures ParsePlain(s) == Plain(t)
  {
    hide Trim, StripArrays, BaseOf, ArgsOf, Parse;
    assert ParsePlain(s).args == t.args;
  }

  lemma {:induction false} ParseFormatPlain(t: TypeSpec)
    requires WellFormed(t)
    ensures ParsePlain(Format(Plain(t))) == Plain(t)
    decreases t, 0
  {
    GenericParts(t);
    GenericTight(t);
    FormatText(Plain(t));
    assert Generic(Plain(t)) == Generic(t);
    hide IsSpace, Tight, Trim, StripArrays, BaseOf, ArgsOf, Parse, Generic, HasSuffix, Format, ParsePlain, Brackets;
    StripBrackets(Generic(t), t.arrayDepth);
    TrimTight(Generic(t));
    assert "" + (Generic(t) + Brackets(t.arrayDepth)) == Generic(t) + Brackets(t.arrayDepth);
    forall i | 0 <= i < |t.args| ensures Parse(FormatAll(t.args)[i]) == t.args[i] {
      ParseFormat(t.args[i]);
    }
    ParsePlainFrom(Format(Plain(t)), Generic(t), t);
  }

  /** The parser undoes the printer on every well-formed type. */
  lemma {:induction false} ParseFormat(t: TypeSpec)
    requires WellFormed(t)
    ensures Parse(Format(t)) == t
    decreases t, 1
  {
    hide IsSpace, Trim, ParsePlain;
    if t.wildcard.Any? {
      ParseAny();
    } else {
      var plain := Plain(t);
      FormatNeutral(plain);
      FormatText(t);
      FormatText(plain);
      PlainStart(plain);
      ParseFormatPlain(t);
      hide Format, WellFormed, Parse;
      ParsePrefixed(Format(plain));
    }
  }

  lemma {:induction false} ParseAny()
    ensures Parse("?") == TypeSpec(OBJECT, [], 0, Any)
  {
    TrimTight("?");
    hide Trim, ParsePlain;
  }

  lemma {:induction false} PlainStart(t: TypeSpec)
    requires WellFormed(t) && t.wildcard.NoWildcard?
    ensures |Format(t)| > 0 && Format(t)[0] == t.base[0] != '?'
  {
  }

  lemma {:induction false} ParsePrefixed(text: string)
    requires Tight(text) && text[0] != '?'
    ensures Parse(text) == ParsePlain(text)
    ensures Parse(EXTENDS + text) == Bounded(ParsePlain(text), Extends)
    ensures Parse(SUPER + text) == Bounded(ParsePlain(text), Super)
  {
    TrimTight(text);
    hide Trim, ParsePlain, Tight, Parse;
    ParseTightPlain(text);
    ParseExtends(text);
    ParseSuper(text);
  }

  lemma {:induction false} ParseExtends(text: string)
    requires Tight(text)
    ensures Parse(EXTENDS + text) == Bounded(Parse(text), Extends)
  {
    NotSpace();
    hide IsSpace;
    TrimTight(EXTENDS + text);
    hide Trim, ParsePlain;
    assert (EXTENDS + text)[|EXTENDS|..] == text;
  }

  lemma {:induction false} ParseSuper(text: string)
    requires Tight(text)
    ensures Parse(SUPER + text) == Bounded(Parse(text), Super)
  {
    NotSpace();
    hide IsSpace;
    TrimTight(SUPER + text);
    hide Trim, ParsePlain;
    assert (SUPER + text)[|SUPER|..] == text;
    assert !(EXTENDS <= SUPER + text) by { assert (SUPER + text)[2] == 's' && EXTENDS[2] == 'e'; }
  }

  lemma {:induction false} ParseTightPlain(text: string)
    requires text != "" && Trim(text) == text && text[0] != '?'
    ensures Parse(text) == ParsePlain(text)
  {
    hide Trim, ParsePlain;
    assert text[0] != EXTENDS[0] && text[0] != SUPER[0];
  }
}
