/** Comments and literals of a Java source text blanked out, character by character in place.
    The text keeps its length and its lines. */
module JavaSanitizer {

  type Text = seq<char>

  datatype State = Normal | LineComment | BlockComment | SingleQuote | DoubleQuote

  // ------------------------------------------------------------------
  // What the text is made of

  /** A stretch of source text: one plain character, or a whole comment or literal. */
  datatype Kind = Plain | Line | Block | Literal(quote: char)

  datatype Token = Token(kind: Kind, text: Text)

  /** Up to the next line end, which is not part of it. */
  function LineEnd(s: Text): (n: nat)
    ensures n <= |s|
  {
    if s == [] || s[0] == '\n' then 0 else 1 + LineEnd(s[1..])
  }

  /** Up to and with the end of the block comment, or to the end of the text. */
  function BlockEnd(s: Text): (n: nat)
    ensures n <= |s|
  {
    if |s| >= 2 && s[0] == '*' && s[1] == '/' then 2
    else if s == [] then 0
    else 1 + BlockEnd(s[1..])
  }

  /** Up to and with the closing quote that no backslash escapes, or to the end of the text. */
  function QuoteEnd(s: Text, quote: char): (n: nat)
    ensures n <= |s|
    decreases |s|
  {
    if s == [] then 0
    else if s[0] == '\\' && |s| >= 2 then 2 + QuoteEnd(s[2..], quote)
    else if s[0] == quote then 1
    else 1 + QuoteEnd(s[1..], quote)
  }

  predicate Starts(s: Text, a: char, b: char) {
    |s| >= 2 && s[0] == a && s[1] == b
  }

  predicate IsQuote(c: char) {
    c == '\'' || c == '"'
  }

  /** The token at the start of the text. */
  function First(s: Text): (t: Token)
    requires s != []
    ensures t.text != [] && t.text <= s
  {
    if Starts(s, '/', '/') then
      var n := 2 + LineEnd(s[2..]);
      Token(Line, s[..n])
    else if Starts(s, '/', '*') then Token(Block, s[..2 + BlockEnd(s[2..])])
    else if IsQuote(s[0]) then Token(Literal(s[0]), s[..1 + QuoteEnd(s[1..], s[0])])
    else Token(Plain, s[..1])
  }

  function Tokens(s: Text): seq<Token>
    decreases |s|
  {
    if s == [] then [] else [First(s)] + Tokens(s[|First(s).text|..])
  }

  function LineBreak(c: char): bool {
    c == '\n' || c == '\r'
  }

  /** The character of a comment or literal body as it is left behind. */
  function Blank(c: char): char {
    if LineBreak(c) then c else ' '
  }

  /** A literal's body, where an escaped character goes whatever it is. */
  function BlankBody(s: Text): (r: Text)
    ensures |r| == |s|
    decreases |s|
  {
    if s == [] then []
    else if s[0] == '\\' && |s| >= 2 then [' ', ' '] + BlankBody(s[2..])
    else [Blank(s[0])] + BlankBody(s[1..])
  }

  function Spaces(n: nat): (r: Text)
    ensures |r| == n && forall i | 0 <= i < n :: r[i] == ' '
  {
    seq(n, i => ' ')
  }

  function BlankAll(s: Text): (r: Text)
    ensures |r| == |s|
  {
    seq(|s|, i requires 0 <= i < |s| => Blank(s[i]))
  }

  function Blanked(t: Token): (r: Text)
    ensures |r| == |t.text|
  {
    match t.kind
    case Plain => t.text
    case Line => Spaces(|t.text|)
    case Block => BlankAll(t.text)
    case Literal(_) => BlankBody(t.text)
  }

  /** The text with all its comments and literals blanked. */
  function Sanitized(s: Text): (r: Text)
    ensures |r| == |s|
    decreases |s|
  {
    if s == [] then [] else Blanked(First(s)) + Sanitized(s[|First(s).text|..])
  }

  // ------------------------------------------------------------------
  // The state machine

  /** What the loop makes of the rest of the text from a state. */
  function Scan(s: Text, state: State): (r: Text)
    ensures |r| == |s|
    decreases |s|
  {
    if s == [] then []
    else match state
      case Normal =>
        if Starts(s, '/', '/') then [' ', ' '] + Scan(s[2..], LineComment)
        else if Starts(s, '/', '*') then [' ', ' '] + Scan(s[2..], BlockComment)
        else if s[0] == '\'' then [' '] + Scan(s[1..], SingleQuote)
        else if s[0] == '"' then [' '] + Scan(s[1..], DoubleQuote)
        else s[..1] + Scan(s[1..], Normal)
      case LineComment =>
        if s[0] == '\n' then s[..1] + Scan(s[1..], Normal) else [' '] + Scan(s[1..], LineComment)
      case BlockComment =>
        if Starts(s, '*', '/') then [' ', ' '] + Scan(s[2..], Normal)
        else [Blank(s[0])] + Scan(s[1..], BlockComment)
      case _ =>
        if s[0] == '\\' && |s| >= 2 then [' ', ' '] + Scan(s[2..], state)
        else if s[0] == (if state.SingleQuote? then '\'' else '"') then [' '] + Scan(s[1..], Normal)
        else [Blank(s[0])] + Scan(s[1..], state)
  }

  method Copied(src: Text) returns (buf: array<char>)
    ensures fresh(buf) && buf[..] == src
  {
    buf := new char[|src|];
    var j := 0;
    while j < |src|
      invariant 0 <= j <= |src| && buf[..j] == src[..j]
    {
      buf[j] := src[j];
      j := j + 1;
    }
  }

  method SanitizeJava(src: Text) returns (out: Text)
    ensures out == Sanitized(src)
  {
    var buf := Copied(src);
    assert src[0..] == src;
    var state := Normal;
    var i := 0;
    while i < buf.Length
      invariant 0 <= i <= buf.Length && buf[i..] == src[i..]
      invariant buf[..i] + Scan(src[i..], state) == Scan(src, Normal)
    {
      hide Scan;
      ghost var before, done := i, buf[..i];
      state, i := Step(buf, src, i, state);
      assert buf[..i] == done + buf[before..i];
      Regroup(done, buf[before..i], Scan(src[i..], state));
    }
    assert buf[..i] == buf[..];
    out := buf[..];
    ScanIsSanitized(src);
  }

  /** One turn of the loop: it blanks what it must, and says where to go on and in which state. */
  method Step(buf: array<char>, ghost src: Text, i: nat, state: State) returns (next: State, k: nat)
    requires |src| == buf.Length && i < buf.Length && buf[i..] == src[i..]
    modifies buf
    ensures i < k <= buf.Length && buf[..i] == old(buf[..i]) && buf[k..] == src[k..]
    ensures Scan(src[i..], state) == buf[i..k] + Scan(src[k..], next)
  {
    hide Scan;
    match state {
      case Normal => next, k := StepNormal(buf, src, i);
      case LineComment => next, k := StepLine(buf, src, i);
      case BlockComment => next, k := StepBlock(buf, src, i);
      case _ => next, k := StepLiteral(buf, src, i, state);
    }
  }

  method StepNormal(buf: array<char>, ghost src: Text, i: nat) returns (next: State, k: nat)
    requires |src| == buf.Length && i < buf.Length && buf[i..] == src[i..]
    modifies buf
    ensures i < k <= buf.Length && buf[..i] == old(buf[..i]) && buf[k..] == src[k..]
    ensures Scan(src[i..], Normal) == buf[i..k] + Scan(src[k..], next)
  {
    ghost var rest := src[i..];
    var pair := i + 1 < buf.Length;
    assert rest[1..] == src[i + 1..] && (pair ==> rest[2..] == src[i + 2..]);
    assert buf[i] == rest[0] && (pair ==> buf[i + 1] == rest[1]);
    next, k := Normal, i + 1;
    if pair && buf[i] == '/' && buf[i + 1] == '/' {
      buf[i], buf[i + 1] := ' ', ' ';
      next, k := LineComment, i + 2;
    } else if pair && buf[i] == '/' && buf[i + 1] == '*' {
      buf[i], buf[i + 1] := ' ', ' ';
      next, k := BlockComment, i + 2;
    } else if buf[i] == '\'' {
      buf[i] := ' ';
      next := SingleQuote;
    } else if buf[i] == '"' {
      buf[i] := ' ';
      next := DoubleQuote;
    }
  }

  method StepLine(buf: array<char>, ghost src: Text, i: nat) returns (next: State, k: nat)
    requires |src| == buf.Length && i < buf.Length && buf[i..] == src[i..]
    modifies buf
    ensures i < k <= buf.Length && buf[..i] == old(buf[..i]) && buf[k..] == src[k..]
    ensures Scan(src[i..], LineComment) == buf[i..k] + Scan(src[k..], next)
  {
    ghost var rest := src[i..];
    var pair := i + 1 < buf.Length;
    assert rest[1..] == src[i + 1..] && (pair ==> rest[2..] == src[i + 2..]);
    assert buf[i] == rest[0] && (pair ==> buf[i + 1] == rest[1]);
    next, k := LineComment, i + 1;
    if buf[i] == '\n' {
      next := Normal;
    } else {
      buf[i] := ' ';
    }
  }

  method StepBlock(buf: array<char>, ghost src: Text, i: nat) returns (next: State, k: nat)
    requires |src| == buf.Length && i < buf.Length && buf[i..] == src[i..]
    modifies buf
    ensures i < k <= buf.Length && buf[..i] == old(buf[..i]) && buf[k..] == src[k..]
    ensures Scan(src[i..], BlockComment) == buf[i..k] + Scan(src[k..], next)
  {
    ghost var rest := src[i..];
    var pair := i + 1 < buf.Length;
    assert rest[1..] == src[i + 1..] && (pair ==> rest[2..] == src[i + 2..]);
    assert buf[i] == rest[0] && (pair ==> buf[i + 1] == rest[1]);
    next, k := BlockComment, i + 1;
    if pair && buf[i] == '*' && buf[i + 1] == '/' {
      buf[i], buf[i + 1] := ' ', ' ';
      next, k := Normal, i + 2;
    } else if buf[i] != '\n' && buf[i] != '\r' {
      buf[i] := ' ';
    }
  }

  method StepLiteral(buf: array<char>, ghost src: Text, i: nat, state: State) returns (next: State, k: nat)
    requires |src| == buf.Length && i < buf.Length && buf[i..] == src[i..]
    requires state.SingleQuote? || state.DoubleQuote?
    modifies buf
    ensures i < k <= buf.Length && buf[..i] == old(buf[..i]) && buf[k..] == src[k..]
    ensures Scan(src[i..], state) == buf[i..k] + Scan(src[k..], next)
  {
    ghost var rest := src[i..];
    var pair := i + 1 < buf.Length;
    assert rest[1..] == src[i + 1..] && (pair ==> rest[2..] == src[i + 2..]);
    assert buf[i] == rest[0] && (pair ==> buf[i + 1] == rest[1]);
    next, k := state, i + 1;
    if buf[i] == '\\' && pair {
      buf[i], buf[i + 1] := ' ', ' ';
      k := i + 2;
    } else if buf[i] == (if state.SingleQuote? then '\'' else '"') {
      buf[i] := ' ';
      next := Normal;
    } else if buf[i] != '\n' && buf[i] != '\r' {
      buf[i] := ' ';
    }
  }

  /** Inside a comment or literal: its end is blanked, and the text after it is scanned anew. */
  lemma {:induction false} ScanLine(s: Text)
    ensures Scan(s, LineComment) == Spaces(LineEnd(s)) + Scan(s[LineEnd(s)..], Normal)
    decreases |s|
  {
    if s != [] && s[0] != '\n' {
      ScanLine(s[1..]);
      assert s[1..][LineEnd(s[1..])..] == s[LineEnd(s)..];
      assert Spaces(LineEnd(s)) == [' '] + Spaces(LineEnd(s[1..]));
    } else if s != [] {
      assert s[0..] == s && !Starts(s, '/', '/') && !Starts(s, '/', '*');
    }
  }

  lemma {:induction false} Tail(s: Text, k: nat, n: nat)
    requires k <= n <= |s|
    ensures s[k..][n - k..] == s[n..] && s[..n][k..] == s[k..][..n - k]
  {
  }

  lemma {:induction false} BlankAllOn(s: Text, k: nat, n: nat)
    requires k <= n <= |s|
    ensures BlankAll(s[..n]) == BlankAll(s[..k]) + BlankAll(s[k..][..n - k])
  {
  }

  lemma {:induction false} ScanBlockStep(s: Text)
    requires s != []
    ensures Scan(s, BlockComment) ==
            if Starts(s, '*', '/') then BlankAll(s[..2]) + Scan(s[2..], Normal) else BlankAll(s[..1]) + Scan(s[1..], BlockComment)
  {
  }

  lemma {:induction false} Regroup(a: Text, b: Text, c: Text)
    ensures a + (b + c) == a + b + c
  {
  }

  lemma {:induction false} ScanBlock(s: Text)
    ensures Scan(s, BlockComment) == BlankAll(s[..BlockEnd(s)]) + Scan(s[BlockEnd(s)..], Normal)
    decreases |s|
  {
    var n := BlockEnd(s);
    if s != [] {
      ScanBlockStep(s);
      if !Starts(s, '*', '/') {
        ScanBlock(s[1..]);
        hide Scan, BlankAll;
        Tail(s, 1, n);
        BlankAllOn(s, 1, n);
        Regroup(BlankAll(s[..1]), BlankAll(s[1..][..n - 1]), Scan(s[n..], Normal));
      }
    }
  }

  lemma {:induction false} ScanLiteralStep(s: Text, state: State, quote: char)
    requires (state == SingleQuote && quote == '\'') || (state == DoubleQuote && quote == '"')
    requires s != []
    ensures var k := if s[0] == '\\' && |s| >= 2 then 2 else 1;
            && Scan(s, state) == BlankBody(s[..k]) + Scan(s[k..], if k == 1 && s[0] == quote then Normal else state)
            && |BlankBody(s[..k])| == k
  {
    var k := if s[0] == '\\' && |s| >= 2 then 2 else 1;
    assert BlankBody(s[..k][k..]) == [];
  }

  lemma {:induction false} BlankBodyOn(s: Text, n: nat)
    requires s != []
    requires var k := if s[0] == '\\' && |s| >= 2 then 2 else 1; k <= n <= |s|
    ensures var k := if s[0] == '\\' && |s| >= 2 then 2 else 1;
            BlankBody(s[..n]) == BlankBody(s[..k]) + BlankBody(s[k..][..n - k])
  {
    var k := if s[0] == '\\' && |s| >= 2 then 2 else 1;
    assert BlankBody(s[..k][k..]) == [];
    Tail(s, k, n);
  }

  lemma {:induction false} ScanLiteral(s: Text, state: State, quote: char)
    requires (state == SingleQuote && quote == '\'') || (state == DoubleQuote && quote == '"')
    ensures Scan(s, state) == BlankBody(s[..QuoteEnd(s, quote)]) + Scan(s[QuoteEnd(s, quote)..], Normal)
    decreases |s|
  {
    var n := QuoteEnd(s, quote);
    if s != [] {
      ScanLiteralStep(s, state, quote);
      hide Scan, BlankBody;
      var k := if s[0] == '\\' && |s| >= 2 then 2 else 1;
      if k == 2 || s[0] != quote {
        ScanLiteral(s[k..], state, quote);
        Tail(s, k, n);
        BlankBodyOn(s, n);
        Regroup(BlankBody(s[..k]), BlankBody(s[k..][..n - k]), Scan(s[n..], Normal));
      }
    }
  }

  lemma {:induction false} FirstScanned(s: Text)
    requires s != []
    ensures Scan(s, Normal) == Blanked(First(s)) + Scan(s[|First(s).text|..], Normal)
  {
    if Starts(s, '/', '/') {
      FirstLine(s);
    } else if Starts(s, '/', '*') {
      FirstBlock(s);
    } else if IsQuote(s[0]) {
      FirstLiteral(s);
    }
  }

  lemma {:induction false} FirstLine(s: Text)
    requires Starts(s, '/', '/')
    ensures var n := 2 + LineEnd(s[2..]); Scan(s, Normal) == Spaces(n) + Scan(s[n..], Normal)
  {
    var n := 2 + LineEnd(s[2..]);
    assert Scan(s, Normal) == Spaces(2) + Scan(s[2..], LineComment);
    ScanLine(s[2..]);
    hide Scan;
    Tail(s, 2, n);
    assert Spaces(n) == Spaces(2) + Spaces(n - 2);
  }

  lemma {:induction false} FirstBlock(s: Text)
    requires Starts(s, '/', '*')
    ensures var n := 2 + BlockEnd(s[2..]); Scan(s, Normal) == BlankAll(s[..n]) + Scan(s[n..], Normal)
  {
    var n := 2 + BlockEnd(s[2..]);
    assert Scan(s, Normal) == BlankAll(s[..2]) + Scan(s[2..], BlockComment);
    ScanBlock(s[2..]);
    hide Scan, BlankAll;
    Tail(s, 2, n);
    BlankAllOn(s, 2, n);
    Regroup(BlankAll(s[..2]), BlankAll(s[2..][..n - 2]), Scan(s[n..], Normal));
  }

  lemma {:induction false} OpeningQuote(s: Text, state: State)
    requires s != [] && IsQuote(s[0]) && state == if s[0] == '"' then DoubleQuote else SingleQuote
    ensures Scan(s, Normal) == BlankBody(s[..1]) + Scan(s[1..], state)
  {
    assert s[..1][1..] == [] && BlankBody(s[..1]) == [' '];
  }

  lemma {:induction false} FirstLiteral(s: Text)
    requires s != [] && IsQuote(s[0])
    ensures var n := 1 + QuoteEnd(s[1..], s[0]); Scan(s, Normal) == BlankBody(s[..n]) + Scan(s[n..], Normal)
  {
    hide Scan, BlankBody;
    var n := 1 + QuoteEnd(s[1..], s[0]);
    var state := if s[0] == '"' then DoubleQuote else SingleQuote;
    OpeningQuote(s, state);
    ScanLiteral(s[1..], state, s[0]);
    Tail(s, 1, n);
    BlankBodyOn(s, n);
    Regroup(BlankBody(s[..1]), BlankBody(s[1..][..n - 1]), Scan(s[n..], Normal));
  }

  /** The state machine blanks whole comments and literals, and nothing else. */
  lemma {:induction false} ScanIsSanitized(s: Text)
    ensures Scan(s, Normal) == Sanitized(s)
    decreases |s|
  {
    if s != [] {
      FirstScanned(s);
      ScanIsSanitized(s[|First(s).text|..]);
    }
  }

  // ------------------------------------------------------------------
  // What is kept

  /** The tokens are the text. */
  function Joined(ts: seq<Token>): Text {
    if ts == [] then [] else ts[0].text + Joined(ts[1..])
  }

  lemma {:induction false} TokensJoin(s: Text)
    ensures Joined(Tokens(s)) == s
    decreases |s|
  {
    hide First;
    if s != [] {
      var n := |First(s).text|;
      TokensJoin(s[n..]);
      assert s == First(s).text + s[n..];
    }
  }

  function BlankedAll(ts: seq<Token>): Text {
    if ts == [] then [] else Blanked(ts[0]) + BlankedAll(ts[1..])
  }

  /** Token by token, plain characters stay and everything else is blanked. */
  lemma {:induction false} SanitizedByTokens(s: Text)
    ensures Sanitized(s) == BlankedAll(Tokens(s))
    decreases |s|
  {
    if s != [] {
      SanitizedByTokens(s[|First(s).text|..]);
    }
  }

  /** The character at i is escaped by a backslash inside a literal. */
  predicate EscapedIn(s: Text, i: nat)
    requires i < |s|
    decreases |s|
  {
    if s[0] == '\\' && |s| >= 2 then i == 1 || (i >= 2 && EscapedIn(s[2..], i - 2))
    else i >= 1 && EscapedIn(s[1..], i - 1)
  }

  predicate Escaped(s: Text, i: nat)
    requires i < |s|
    decreases |s|
  {
    var t := First(s);
    if i < |t.text| then t.kind.Literal? && EscapedIn(t.text, i) else Escaped(s[|t.text|..], i - |t.text|)
  }

  lemma {:induction false} BodyLines(s: Text, i: nat)
    requires i < |s|
    ensures BlankBody(s)[i] == if EscapedIn(s, i) then ' ' else Blank(s[i])
    decreases |s|
  {
    if s[0] == '\\' && |s| >= 2 {
      if i >= 2 { BodyLines(s[2..], i - 2); }
    } else if i >= 1 {
      BodyLines(s[1..], i - 1);
    }
  }

  lemma {:induction false} NoLineEnd(s: Text, i: nat)
    requires i < LineEnd(s)
    ensures s[i] != '\n'
  {
    if i > 0 { NoLineEnd(s[1..], i - 1); }
  }

  /** Lines stay: a line feed that no backslash escapes in a literal stays one, and no
      other character becomes one. */
  lemma {:induction false} LinesKept(s: Text, i: nat)
    requires i < |s|
    ensures Sanitized(s)[i] == '\n' <==> s[i] == '\n' && !Escaped(s, i)
    decreases |s|
  {
    var t := First(s);
    var n := |t.text|;
    if i >= n {
      LinesKept(s[n..], i - n);
    } else {
      hide BlankBody, EscapedIn;
      assert Sanitized(s)[i] == Blanked(t)[i] && t.text[i] == s[i];
      match t.kind {
        case Line => if i >= 2 { NoLineEnd(s[2..], i - 2); }
        case Literal(_) => BodyLines(t.text, i);
        case _ =>
      }
    }
  }

  // ------------------------------------------------------------------
  // Doing it twice

  /** No comment or literal starts anywhere. */
  ghost predicate Clean(s: Text) {
    forall i | 0 <= i < |s| :: !IsQuote(s[i]) && !(s[i] == '/' && i + 1 < |s| && (s[i + 1] == '/' || s[i + 1] == '*'))
  }

  lemma {:induction false} CleanStays(s: Text)
    requires Clean(s)
    ensures Sanitized(s) == s
    decreases |s|
  {
    if s != [] {
      forall i | 0 <= i < |s[1..]|
        ensures !IsQuote(s[1..][i]) && !(s[1..][i] == '/' && i + 1 < |s[1..]| && (s[1..][i + 1] == '/' || s[1..][i + 1] == '*'))
      {
        assert s[1..][i] == s[i + 1];
      }
      CleanStays(s[1..]);
    }
  }

  predicate Empty(c: char) {
    c == ' ' || LineBreak(c)
  }

  lemma {:induction false} BlankedIsEmpty(t: Token, i: nat)
    requires !t.kind.Plain? && i < |t.text|
    ensures Empty(Blanked(t)[i])
  {
    hide BlankBody;
    if t.kind.Literal? { BodyLines(t.text, i); }
  }

  lemma {:induction false} SanitizedClean(s: Text)
    ensures Clean(Sanitized(s))
    ensures s != [] && !Empty(Sanitized(s)[0]) ==> First(s).kind.Plain? && Sanitized(s)[0] == s[0]
    decreases |s|
  {
    if s != [] {
      var t := First(s);
      var n := |t.text|;
      var rest := Sanitized(s[n..]);
      SanitizedClean(s[n..]);
      forall i | 0 <= i < |s|
        ensures !IsQuote(Sanitized(s)[i])
                && !(Sanitized(s)[i] == '/' && i + 1 < |s| && (Sanitized(s)[i + 1] == '/' || Sanitized(s)[i + 1] == '*'))
      {
        if i < n && !t.kind.Plain? {
          BlankedIsEmpty(t, i);
        }
        if i >= n { assert Sanitized(s)[i] == rest[i - n]; }
        if i + 1 >= n && i + 1 < |s| { assert Sanitized(s)[i + 1] == rest[i + 1 - n]; }
      }
      if !t.kind.Plain? { BlankedIsEmpty(t, 0); }
    }
  }

  /** A sanitized text has nothing left to sanitize. */
  lemma {:induction false} SanitizedStays(s: Text)
    ensures Sanitized(Sanitized(s)) == Sanitized(s)
  {
    SanitizedClean(s);
    CleanStays(Sanitized(s));
  }
}
