/** The texts that jsmn accepts, as a grammar with its characters written out, and the tokens they have. */
module JsmnGrammar {
  import opened JsmnModel
  import opened JsmnResume
  import opened JsmnStructure

  // ----- the grammar -----

  /** A piece of text: a bracket, a string, a primitive, or a character between them. */
  datatype Lexeme = Opening(c: char) | Closing(c: char) | Quoted(body: string) | Bare(text: string) | Gap(c: char)

  /** The characters that end a primitive. */
  const ENDS := "\t\r\n ,]}"

  /** The inside of a string: characters other than quote, backslash and NUL, and escapes. */
  predicate Body(s: string) {
    if s == "" then true
    else if s[0] != '\\' then s[0] != '\"' && s[0] != '\0' && Body(s[1..])
    else if |s| < 2 then false
    else if s[1] == 'u' then
      |s| >= 6 && (forall i :: 2 <= i < 6 ==> s[i] in "0123456789abcdefABCDEF") && Body(s[6..])
    else s[1] in "\"/\\bfrnt" && Body(s[2..])
  }

  /** A primitive: what its first character may be, and all of them. */
  predicate Word(s: string) {
    s != "" && s[0] in "-0123456789tfn" && Plain(s)
  }

  predicate Plain(s: string) {
    forall i :: 0 <= i < |s| ==> ' ' < s[i] <= '~' && s[i] !in ENDS
  }

  predicate Correct(x: Lexeme) {
    match x
    case Opening(c) => c in "{["
    case Closing(c) => c in "}]"
    case Quoted(body) => Body(body)
    case Bare(text) => Word(text)
    case Gap(c) => c in "\t\r\n :,"
  }

  function Text(x: Lexeme): string {
    match x
    case Quoted(body) => "\"" + body + "\""
    case Bare(text) => text
    case _ => [x.c]
  }

  function TextOf(xs: seq<Lexeme>): string {
    if xs == [] then "" else Text(xs[0]) + TextOf(xs[1..])
  }

  /** Correct pieces, every primitive with one of the characters behind it that end it. */
  predicate Lexed(xs: seq<Lexeme>) {
    xs == [] ||
    (Correct(xs[0]) && Lexed(xs[1..]) && (xs[0].Bare? ==> |xs| > 1 && Text(xs[1]) != "" && Text(xs[1])[0] in ENDS))
  }

  /** A closing bracket belongs to the last open one. */
  predicate Fits(x: Lexeme, open: string) {
    x.Closing? ==> open != "" && open[|open| - 1] == if x.c == '}' then '{' else '['
  }

  function After(x: Lexeme, open: string): string
    requires Fits(x, open)
  {
    match x
    case Opening(c) => open + [c]
    case Closing(_) => open[..|open| - 1]
    case _ => open
  }

  /** The brackets of the pieces close the open ones, and each other. */
  predicate Nested(xs: seq<Lexeme>, open: string) {
    if xs == [] then open == "" else Fits(xs[0], open) && Nested(xs[1..], After(xs[0], open))
  }

  /** Opening brackets, strings and primitives: one token each. */
  function Thing(x: Lexeme): nat {
    if x.Closing? || x.Gap? then 0 else 1
  }

  function Things(xs: seq<Lexeme>): nat {
    if xs == [] then 0 else Thing(xs[0]) + Things(xs[1..])
  }

  /** The rest of the text, up to its end, is these pieces. */
  ghost predicate Rest(js: string, len: nat, pos: nat, xs: seq<Lexeme>) {
    var e := pos + |TextOf(xs)|;
    Lexed(xs) && e < |js| && e <= len && js[pos..e] == TextOf(xs) && (e == len || js[e] == '\0')
  }

  /** The whole text is these pieces, and its brackets match. */
  ghost predicate Accepted(js: string, len: nat, xs: seq<Lexeme>) {
    Rest(js, len, 0, xs) && Nested(xs, "")
  }

  // ----- strings and primitives -----

  lemma HexIs(c: char)
    ensures HexDigit(c) <==> c in "0123456789abcdefABCDEF"
  {
  }

  lemma SimpleIs(c: char)
    ensures SimpleEscape(c) <==> c in "\"/\\bfrnt"
  {
  }

  lemma EndsIs(c: char)
    ensures Delimiter(c) <==> c in ENDS
  {
  }

  lemma StartIs(c: char)
    ensures PrimitiveStart(c) <==> c in "-0123456789tfn"
  {
  }

  lemma HexScanned(js: string, pos: nat)
    requires Terminated(js) && pos + 4 < |js| && forall i :: pos <= i < pos + 4 ==> js[i] in "0123456789abcdefABCDEF"
    ensures ScanHex(js, pos, 4) == Found(pos + 4)
  {
    forall i | pos <= i < pos + 4
      ensures HexDigit(js[i]) && js[i] != '\0'
    {
      HexIs(js[i]);
    }
    hide HexDigit;
    assert ScanHex(js, pos + 2, 2) == Found(pos + 4);
  }

  lemma {:induction false} ScannedHex(js: string, pos: nat, n: nat)
    requires Terminated(js) && pos < |js| && ScanHex(js, pos, n).Found?
    ensures var e := ScanHex(js, pos, n).end;
            e <= pos + n && (e < pos + n ==> js[e] == '\0')
            && forall i :: pos <= i < e ==> js[i] in "0123456789abcdefABCDEF"
    decreases n
  {
    if n > 0 && js[pos] != '\0' {
      HexIs(js[pos]);
      ScannedHex(js, pos + 1, n - 1);
    }
  }

  lemma {:induction false} BodyScanned(js: string, len: nat, pos: nat, e: nat)
    requires Terminated(js) && pos <= e < |js| && e < len && js[e] == '\"' && Body(js[pos..e])
    ensures ScanString(js, len, pos) == Found(e)
    decreases e - pos
  {
    var s := js[pos..e];
    if s == "" {
    } else if s[0] != '\\' {
      assert s[1..] == js[pos + 1..e];
      BodyScanned(js, len, pos + 1, e);
    } else if s[1] == 'u' {
      assert s[6..] == js[pos + 6..e];
      forall i | pos + 2 <= i < pos + 6
        ensures js[i] in "0123456789abcdefABCDEF"
      {
        assert js[i] == s[i - pos];
      }
      HexScanned(js, pos + 2);
      BodyScanned(js, len, pos + 6, e);
    } else {
      SimpleIs(s[1]);
      assert s[2..] == js[pos + 2..e];
      BodyScanned(js, len, pos + 2, e);
    }
  }

  lemma {:induction false} ScannedBody(js: string, len: nat, pos: nat)
    requires Terminated(js) && pos < |js| && ScanString(js, len, pos).Found?
    ensures Body(js[pos..ScanString(js, len, pos).end])
    decreases |js| - pos
  {
    var e := ScanString(js, len, pos).end;
    var s := js[pos..e];
    if js[pos] == '\"' {
    } else if js[pos] != '\\' {
      ScannedBody(js, len, pos + 1);
      assert s[1..] == js[pos + 1..e];
    } else if SimpleEscape(js[pos + 1]) {
      SimpleIs(js[pos + 1]);
      ScannedBody(js, len, pos + 2);
      assert s[2..] == js[pos + 2..e];
    } else {
      var h := ScanHex(js, pos + 2, 4);
      ScannedHex(js, pos + 2, 4);
      assert h.end == pos + 6;
      ScannedBody(js, len, pos + 6);
      assert s[6..] == js[pos + 6..e];
      forall i | 2 <= i < 6
        ensures s[i] in "0123456789abcdefABCDEF"
      {
        assert s[i] == js[pos + i];
      }
    }
  }

  lemma {:induction false} PlainScanned(js: string, len: nat, pos: nat, e: nat)
    requires Terminated(js) && pos <= e < |js| && e < len && js[e] in ENDS && Plain(js[pos..e])
    ensures ScanPrimitive(js, len, pos) == Found(e)
    decreases e - pos
  {
    EndsIs(js[pos]);
    if pos < e {
      assert js[pos] == js[pos..e][0];
      assert js[pos + 1..e] == js[pos..e][1..];
      PlainScanned(js, len, pos + 1, e);
    }
  }

  lemma {:induction false} ScannedPlain(js: string, len: nat, pos: nat)
    requires Terminated(js) && pos < |js| && ScanPrimitive(js, len, pos).Found?
    ensures var e := ScanPrimitive(js, len, pos).end; Plain(js[pos..e]) && js[e] in ENDS
    decreases |js| - pos
  {
    EndsIs(js[pos]);
    if !Delimiter(js[pos]) {
      ScannedPlain(js, len, pos + 1);
      var e := ScanPrimitive(js, len, pos).end;
      assert js[pos..e] == [js[pos]] + js[pos + 1..e];
    }
  }

  // ----- open brackets -----

  /** The brackets of the open tokens. */
  function Brackets(toks: seq<Token>): string {
    if toks == [] then ""
    else
      var t := toks[|toks| - 1];
      Brackets(toks[..|toks| - 1]) + if Open(t) then [if t.kind == Object then '{' else '['] else ""
  }

  lemma {:induction false} BracketsSame(toks: seq<Token>, toks': seq<Token>)
    requires |toks| == |toks'|
    requires forall i :: 0 <= i < |toks| ==> (Open(toks[i]) <==> Open(toks'[i])) && toks[i].kind == toks'[i].kind
    ensures Brackets(toks) == Brackets(toks')
  {
    if toks != [] {
      BracketsSame(toks[..|toks| - 1], toks'[..|toks| - 1]);
    }
  }

  lemma {:induction false} BracketsClosed(toks: seq<Token>, i: nat, end: int)
    requires i < |toks| && LastOpen(toks) == i && end != -1
    ensures var b := Brackets(toks);
            && b != "" && b[|b| - 1] == (if toks[i].kind == Object then '{' else '[')
            && Brackets(toks[i := toks[i].(end := end)]) == b[..|b| - 1]
  {
    var n := |toks| - 1;
    var toks' := toks[i := toks[i].(end := end)];
    if i == n {
      assert toks'[..n] == toks[..n];
    } else {
      assert toks'[..n] == toks[..n][i := toks[i].(end := end)];
      BracketsClosed(toks[..n], i, end);
    }
  }

  lemma {:induction false} BracketsNone(toks: seq<Token>)
    ensures LastOpen(toks) == -1 <==> Brackets(toks) == ""
  {
    if toks != [] {
      BracketsNone(toks[..|toks| - 1]);
    }
  }

  // ----- the tokens of pieces -----

  /** What is stored for a piece at p when it is met: a bracket's end is still open. */
  function Begun(x: Lexeme, p: nat): seq<Token> {
    match x
    case Opening(c) => [Token(if c == '{' then Object else Array, p, -1, 0)]
    case Quoted(body) => [Token(String, p + 1, p + 1 + |body|, 0)]
    case Bare(text) => [Token(Primitive, p, p + |text|, 0)]
    case _ => []
  }

  function AllBegun(xs: seq<Lexeme>, p: nat): seq<Token> {
    if xs == [] then [] else Begun(xs[0], p) + AllBegun(xs[1..], p + |Text(xs[0])|)
  }

  /** The token is of that kind and starts there; a string or primitive also ends there. */
  predicate Leads(t: Token, b: Token) {
    t.kind == b.kind && t.start == b.start && (b.end != -1 ==> t.end == b.end)
  }

  ghost predicate AllLead(toks: seq<Token>, begun: seq<Token>) {
    |toks| == |begun| && forall i :: 0 <= i < |toks| ==> Leads(toks[i], begun[i])
  }

  ghost predicate OpenContainers(toks: seq<Token>) {
    forall i :: 0 <= i < |toks| ==> (Open(toks[i]) ==> Container(toks[i])) && toks[i].start >= 0
  }

  /** The state after some pieces: the brackets still open, and the tokens begun. */
  ghost predicate Good(st: State, open: string, begun: seq<Token>) {
    Sound(st) && OpenContainers(st.toks) && Brackets(st.toks) == open && AllLead(st.toks, begun)
  }

  lemma AddGood(st: State, t: Token, pos: nat, open: string, begun: seq<Token>)
    requires Good(st, open, begun) && t.start >= 0 && (Open(t) ==> Container(t))
    ensures Sound(st) && Add(st, t, pos).pos == pos && |Add(st, t, pos).toks| == |st.toks| + 1
    ensures Good(Add(st, t, pos), open + if Open(t) then [if t.kind == Object then '{' else '['] else "", begun + [t])
  {
    var bumped := Bump(st.toks, st.super);
    BracketsSame(st.toks, bumped);
    assert (bumped + [t])[..|bumped|] == bumped;
  }

  lemma CloseGood(st: State, open: string, begun: seq<Token>)
    requires Good(st, open, begun) && open != ""
    ensures var i := LastOpen(st.toks);
            && i >= 0 && open[|open| - 1] == (if st.toks[i].kind == Object then '{' else '[') && Container(st.toks[i])
            && Close(st, i).pos == st.pos + 1 && |Close(st, i).toks| == |st.toks|
            && Sound(st) && Good(Close(st, i), open[..|open| - 1], begun)
  {
    BracketsNone(st.toks);
    var i := LastOpen(st.toks);
    BracketsClosed(st.toks, i, st.pos + 1);
  }

  lemma CloseUnopened(st: State, begun: seq<Token>)
    requires Good(st, "", begun)
    ensures LastOpen(st.toks) == -1
  {
    BracketsNone(st.toks);
  }

  // ----- one piece -----

  /** The step at a piece reads it: what it counts, and the state behind it. */
  ghost predicate Reads(js: string, len: nat, num: nat, st: State, x: Lexeme, open: string, begun: seq<Token>, s: Step)
    requires Fits(x, open)
  {
    && s.Next? && s.counted == Thing(x) && s.st.pos == st.pos + |Text(x)| && |s.st.toks| == |st.toks| + Thing(x)
    && Good(s.st, After(x, open), begun + Begun(x, st.pos))
  }

  /** A correct piece stands at the position. */
  predicate Stands(js: string, len: nat, pos: nat, x: Lexeme) {
    var e := pos + |Text(x)|;
    && Correct(x) && e < |js| && e <= len && js[pos..e] == Text(x)
    && (x.Bare? ==> e < len && js[e] in ENDS)
  }

  lemma QuotedAt(js: string, pos: nat, body: string)
    requires var e := pos + 1 + |body|; e < |js| && js[pos..e + 1] == "\"" + body + "\""
    ensures js[pos] == '\"' && js[pos + 1..pos + 1 + |body|] == body && js[pos + 1 + |body|] == '\"'
  {
    var s, e := js[pos..pos + |body| + 2], pos + 1 + |body|;
    assert s[0] == js[pos] && s[|body| + 1] == js[e];
    forall i | 0 <= i < |body|
      ensures js[pos + 1..e][i] == body[i]
    {
      assert s[i + 1] == js[pos + 1 + i];
    }
  }

  lemma FirstOfWord(js: string, pos: nat, text: string)
    requires pos + |text| < |js| && js[pos..pos + |text|] == text && Word(text)
    ensures js[pos] in "-0123456789tfn" && js[pos] == text[0]
  {
    assert js[pos..pos + |text|][0] == js[pos];
  }

  lemma QuotedFound(js: string, len: nat, pos: nat, x: Lexeme)
    requires Terminated(js) && x.Quoted? && Stands(js, len, pos, x)
    ensures pos < len && pos + 1 < |js| && js[pos] == '\"'
    ensures ScanString(js, len, pos + 1) == Found(pos + 1 + |x.body|)
  {
    hide Body;
    QuotedAt(js, pos, x.body);
    BodyScanned(js, len, pos + 1, pos + 1 + |x.body|);
  }

  lemma BareFound(js: string, len: nat, pos: nat, x: Lexeme)
    requires Terminated(js) && x.Bare? && Stands(js, len, pos, x)
    ensures pos < len && PrimitiveStart(js[pos]) && ScanPrimitive(js, len, pos) == Found(pos + |x.text|)
  {
    hide Plain, PrimitiveStart;
    FirstOfWord(js, pos, x.text);
    StartIs(js[pos]);
    PlainScanned(js, len, pos, pos + |x.text|);
  }

  lemma StartOther(c: char)
    ensures PrimitiveStart(c) ==> c !in "{}[]\"" && !Skipped(c) && c != '\0'
  {
  }

  lemma OpeningAccepts(js: string, len: nat, num: nat, st: State, x: Lexeme, open: string, begun: seq<Token>)
    requires Terminated(js) && st.pos < |js| && Stands(js, len, st.pos, x) && Fits(x, open) && Good(st, open, begun)
    requires |st.toks| + Thing(x) <= num && x.Opening?
    ensures More(js, len, st.pos) && Reads(js, len, num, st, x, open, begun, StepAt(js, len, Slots(num), st))
  {
    hide Good, Add, Open;
    var t := Token(if x.c == '{' then Object else Array, st.pos, -1, 0);
    OneCharacter(js, len, st.pos, x);
    OpenIs(t);
    AddGood(st, t, st.pos + 1, open, begun);
  }

  lemma ClosingAccepts(js: string, len: nat, num: nat, st: State, x: Lexeme, open: string, begun: seq<Token>)
    requires Terminated(js) && st.pos < |js| && Stands(js, len, st.pos, x) && Fits(x, open) && Good(st, open, begun)
    requires |st.toks| + Thing(x) <= num && x.Closing?
    ensures More(js, len, st.pos) && Reads(js, len, num, st, x, open, begun, StepAt(js, len, Slots(num), st))
  {
    hide Good, Close;
    OneCharacter(js, len, st.pos, x);
    CloseGood(st, open, begun);
    assert begun + [] == begun;
  }

  lemma QuotedAccepts(js: string, len: nat, num: nat, st: State, x: Lexeme, open: string, begun: seq<Token>)
    requires Terminated(js) && st.pos < |js| && Stands(js, len, st.pos, x) && Fits(x, open) && Good(st, open, begun)
    requires |st.toks| + Thing(x) <= num && x.Quoted?
    ensures More(js, len, st.pos) && Reads(js, len, num, st, x, open, begun, StepAt(js, len, Slots(num), st))
  {
    hide Good, Add, Open, Stands, ScanString;
    var e := st.pos + 1 + |x.body|;
    var t := Token(String, st.pos + 1, e, 0);
    QuotedFound(js, len, st.pos, x);
    OpenIs(t);
    assert open + "" == open;
    AddGood(st, t, e + 1, open, begun);
  }

  lemma BareAccepts(js: string, len: nat, num: nat, st: State, x: Lexeme, open: string, begun: seq<Token>)
    requires Terminated(js) && st.pos < |js| && Stands(js, len, st.pos, x) && Fits(x, open) && Good(st, open, begun)
    requires |st.toks| + Thing(x) <= num && x.Bare?
    ensures More(js, len, st.pos) && Reads(js, len, num, st, x, open, begun, StepAt(js, len, Slots(num), st))
  {
    hide Good, Add, Open, Stands, ScanPrimitive, PrimitiveStart, Skipped;
    var e := st.pos + |x.text|;
    var t := Token(Primitive, st.pos, e, 0);
    BareFound(js, len, st.pos, x);
    StartOther(js[st.pos]);
    OpenIs(t);
    assert open + "" == open;
    AddGood(st, t, e, open, begun);
  }

  lemma GapAccepts(js: string, len: nat, num: nat, st: State, x: Lexeme, open: string, begun: seq<Token>)
    requires Terminated(js) && st.pos < |js| && Stands(js, len, st.pos, x) && Fits(x, open) && Good(st, open, begun)
    requires |st.toks| + Thing(x) <= num && x.Gap?
    ensures More(js, len, st.pos) && Reads(js, len, num, st, x, open, begun, StepAt(js, len, Slots(num), st))
  {
    hide Good;
    OneCharacter(js, len, st.pos, x);
    SkipGood(st, open, begun, st.pos + 1);
    assert begun + [] == begun;
  }

  /** A correct piece that fits is read. */
  lemma StepAccepts(js: string, len: nat, num: nat, st: State, x: Lexeme, open: string, begun: seq<Token>)
    requires Terminated(js) && st.pos < |js| && Stands(js, len, st.pos, x) && Fits(x, open) && Good(st, open, begun)
    requires |st.toks| + Thing(x) <= num
    ensures More(js, len, st.pos) && Reads(js, len, num, st, x, open, begun, StepAt(js, len, Slots(num), st))
  {
    hide Good, Stands, Reads, StepAt;
    match x
    case Opening(_) => OpeningAccepts(js, len, num, st, x, open, begun);
    case Closing(_) => ClosingAccepts(js, len, num, st, x, open, begun);
    case Quoted(_) => QuotedAccepts(js, len, num, st, x, open, begun);
    case Bare(_) => BareAccepts(js, len, num, st, x, open, begun);
    case Gap(_) => GapAccepts(js, len, num, st, x, open, begun);
  }

  lemma OneCharacter(js: string, len: nat, pos: nat, x: Lexeme)
    requires Stands(js, len, pos, x) && !x.Quoted? && !x.Bare?
    ensures pos + 1 < |js| && pos < len && js[pos] == x.c && Correct(x)
  {
    assert js[pos..pos + 1] == [x.c];
    assert js[pos..pos + 1][0] == js[pos];
  }

  lemma OpenIs(t: Token)
    requires t.start >= 0 && t.end >= -1
    ensures Open(t) <==> t.end == -1
  {
  }

  lemma SkipGood(st: State, open: string, begun: seq<Token>, pos: nat)
    requires Good(st, open, begun)
    ensures Sound(st) && Good(st.(pos := pos), open, begun)
  {
  }

  /** And whatever a step reads is a correct piece. */
  lemma StepReads(js: string, len: nat, num: nat, st: State, open: string, begun: seq<Token>) returns (x: Lexeme)
    requires Terminated(js) && st.pos < |js| && Good(st, open, begun) && More(js, len, st.pos)
    requires StepAt(js, len, Slots(num), st).Next?
    ensures Stands(js, len, st.pos, x) && Fits(x, open) && (Thing(x) == 0 || |st.toks| < num)
  {
    hide Good, Body, Plain, PrimitiveStart, Add, Close;
    var pos, c := st.pos, js[st.pos];
    StartIs(c);
    assert js[pos..pos + 1] == [c];
    if c == '{' || c == '[' {
      x := Opening(c);
    } else if c == '}' || c == ']' {
      x := Closing(c);
      if open == "" {
        CloseUnopened(st, begun);
      }
      CloseGood(st, open, begun);
    } else if c == '\"' {
      x := ReadString(js, len, pos);
    } else if Skipped(c) {
      x := Gap(c);
    } else {
      x := ReadWord(js, len, pos);
    }
  }

  lemma ReadString(js: string, len: nat, pos: nat) returns (x: Lexeme)
    requires Terminated(js) && pos + 1 < |js| && js[pos] == '\"' && ScanString(js, len, pos + 1).Found?
    ensures x.Quoted? && Stands(js, len, pos, x)
  {
    hide Body;
    ScannedBody(js, len, pos + 1);
    var e := ScanString(js, len, pos + 1).end;
    x := Quoted(js[pos + 1..e]);
    BetweenQuotes(js, pos, e);
  }

  lemma BetweenQuotes(js: string, pos: nat, e: nat)
    requires pos < e < |js| && js[pos] == js[e] == '\"'
    ensures js[pos..e + 1] == "\"" + js[pos + 1..e] + "\""
  {
  }

  lemma ReadWord(js: string, len: nat, pos: nat) returns (x: Lexeme)
    requires Terminated(js) && pos < |js| && PrimitiveStart(js[pos]) && ScanPrimitive(js, len, pos).Found?
    requires More(js, len, pos)
    ensures x.Bare? && Stands(js, len, pos, x)
  {
    StartIs(js[pos]);
    ScannedPlain(js, len, pos);
    PrimitiveProgress(js, len, pos);
    hide Plain, PrimitiveStart, ScanPrimitive, Stands;
    var e := ScanPrimitive(js, len, pos).end;
    WordStands(js, len, pos, e);
    x := Bare(js[pos..e]);
  }

  lemma WordStands(js: string, len: nat, pos: nat, e: nat)
    requires pos < e < |js| && e < len && js[pos] in "-0123456789tfn" && Plain(js[pos..e]) && js[e] in ENDS
    ensures Stands(js, len, pos, Bare(js[pos..e]))
  {
    hide Plain;
    assert js[pos..e][0] == js[pos];
  }

  // ----- runs -----

  lemma SliceParts(js: string, a: nat, m: nat, e: nat, u: string, v: string)
    requires a <= m <= e <= |js| && js[a..e] == u + v && |u| == m - a
    ensures js[a..m] == u && js[m..e] == v
  {
    assert js[a..m] == js[a..e][..m - a] && js[m..e] == js[a..e][m - a..];
  }

  lemma SliceJoin(js: string, a: nat, m: nat, e: nat)
    requires a <= m <= e <= |js|
    ensures js[a..e] == js[a..m] + js[m..e]
  {
  }

  lemma LexedParts(xs: seq<Lexeme>)
    requires xs != [] && Lexed(xs)
    ensures Correct(xs[0]) && Lexed(xs[1..])
    ensures xs[0].Bare? ==> xs[1..] != [] && Text(xs[1..][0]) != "" && Text(xs[1..][0])[0] in ENDS
  {
    hide Correct, Text;
  }

  lemma LexedJoined(x: Lexeme, ys: seq<Lexeme>)
    requires Correct(x) && Lexed(ys) && (x.Bare? ==> ys != [] && Text(ys[0]) != "" && Text(ys[0])[0] in ENDS)
    ensures Lexed([x] + ys)
  {
    hide Correct, Text;
    assert ([x] + ys)[1..] == ys;
  }

  lemma RestParts(js: string, len: nat, pos: nat, xs: seq<Lexeme>)
    requires Terminated(js) && xs != [] && Rest(js, len, pos, xs)
    ensures Stands(js, len, pos, xs[0]) && Rest(js, len, pos + |Text(xs[0])|, xs[1..])
  {
    hide Correct, Text, Lexed;
    LexedParts(xs);
    var x, ys, e := xs[0], xs[1..], pos + |TextOf(xs)|;
    var m := pos + |Text(x)|;
    SliceParts(js, pos, m, e, Text(x), TextOf(ys));
    if x.Bare? {
      FirstText(js, len, m, ys);
    }
  }

  lemma RestJoined(js: string, len: nat, pos: nat, x: Lexeme, ys: seq<Lexeme>)
    requires Terminated(js) && Stands(js, len, pos, x) && Rest(js, len, pos + |Text(x)|, ys)
    ensures Rest(js, len, pos, [x] + ys)
  {
    hide Correct, Text, Lexed;
    var xs, m := [x] + ys, pos + |Text(x)|;
    assert xs[1..] == ys;
    SliceJoin(js, pos, m, m + |TextOf(ys)|);
    if x.Bare? {
      EndIsText(js, m);
      assert ys != [];
      FirstText(js, len, m, ys);
    }
    LexedJoined(x, ys);
  }

  lemma EndIsText(js: string, m: nat)
    requires m < |js| && js[m] in ENDS
    ensures js[m] != '\0'
  {
  }

  lemma FirstText(js: string, len: nat, pos: nat, ys: seq<Lexeme>)
    requires ys != [] && Rest(js, len, pos, ys)
    ensures pos < |js| && Text(ys[0]) != "" && Text(ys[0])[0] == js[pos] && (js[pos] in ENDS ==> pos < len)
  {
    LexedParts(ys);
    TextNonempty(ys[0]);
    hide Correct, Text, Lexed;
    assert TextOf(ys)[0] == Text(ys[0])[0];
    assert js[pos..pos + |TextOf(ys)|][0] == js[pos];
  }

  lemma TextNonempty(x: Lexeme)
    requires Correct(x)
    ensures Text(x) != ""
  {
  }

  lemma NothingLeft(js: string, len: nat, pos: nat)
    requires Terminated(js) && pos < |js|
    ensures Rest(js, len, pos, []) <==> pos <= len && !More(js, len, pos)
  {
    assert js[pos..pos] == "";
  }

  lemma FinalRun(js: string, len: nat, num: nat, st: State, count: nat, open: string, begun: seq<Token>)
    requires Terminated(js) && st.pos < |js| && Good(st, open, begun) && !More(js, len, st.pos)
    ensures Sound(st) && Run(js, len, Slots(num), st, count) == (st, if open == "" then Count(count) else Part)
  {
    BracketsNone(st.toks);
  }

  lemma StepOn(js: string, len: nat, num: nat, st: State, count: nat)
    requires Terminated(js) && st.pos < |js| && Sound(st) && More(js, len, st.pos)
    ensures var s, r := StepAt(js, len, Slots(num), st), Run(js, len, Slots(num), st, count);
            r == if s.Next? then Run(js, len, Slots(num), s.st, count + s.counted) else (st, s.r)
  {
    hide StepAt;
  }

  lemma GoodSound(st: State, open: string, begun: seq<Token>)
    requires Good(st, open, begun)
    ensures Sound(st)
  {
  }

  /** Pieces that make up the rest of the text, with brackets that fit, are read to the end. */
  lemma {:induction false} RunAccepts(js: string, len: nat, num: nat, st: State, count: nat,
                                      xs: seq<Lexeme>, open: string, begun: seq<Token>)
    requires Terminated(js) && st.pos < |js| && Good(st, open, begun)
    requires Rest(js, len, st.pos, xs) && Nested(xs, open) && |st.toks| + Things(xs) <= num
    ensures Sound(st)
    ensures var r := Run(js, len, Slots(num), st, count);
            && r.1 == Count(count + Things(xs)) && r.0.pos == st.pos + |TextOf(xs)|
            && Good(r.0, "", begun + AllBegun(xs, st.pos))
    decreases |xs|
  {
    hide Good, StepAt, Run, Rest, Stands, More, After, Text, Begun;
    GoodSound(st, open, begun);
    if xs == [] {
      NothingLeft(js, len, st.pos);
      FinalRun(js, len, num, st, count, open, begun);
      assert begun + [] == begun;
    } else {
      var x := xs[0];
      RestParts(js, len, st.pos, xs);
      StepAccepts(js, len, num, st, x, open, begun);
      StepOn(js, len, num, st, count);
      var s := StepAt(js, len, Slots(num), st);
      RunAccepts(js, len, num, s.st, count + s.counted, xs[1..], After(x, open), begun + Begun(x, st.pos));
      assert begun + Begun(x, st.pos) + AllBegun(xs[1..], s.st.pos) == begun + AllBegun(xs, st.pos);
    }
  }

  /** And a run that succeeds has read such pieces. */
  lemma {:induction false} RunReads(js: string, len: nat, num: nat, st: State, count: nat, open: string, begun: seq<Token>)
    returns (xs: seq<Lexeme>)
    requires Terminated(js) && st.pos < |js| && st.pos <= len && Good(st, open, begun)
    requires Sound(st) && Run(js, len, Slots(num), st, count).1.Count?
    ensures Rest(js, len, st.pos, xs) && Nested(xs, open) && (Things(xs) == 0 || |st.toks| + Things(xs) <= num)
    decreases |js| - st.pos
  {
    hide Good, StepAt, Run, Rest, Stands, More, After, Begun, Correct;
    if !More(js, len, st.pos) {
      NothingLeft(js, len, st.pos);
      FinalRun(js, len, num, st, count, open, begun);
      xs := [];
    } else {
      StepOn(js, len, num, st, count);
      var s := StepAt(js, len, Slots(num), st);
      var x := StepReads(js, len, num, st, open, begun);
      StepTakes(js, len, num, st, x, open, begun);
      var ys := RunReads(js, len, num, s.st, count + s.counted, After(x, open), begun + Begun(x, st.pos));
      RestJoined(js, len, st.pos, x, ys);
      xs := [x] + ys;
      assert xs[1..] == ys;
    }
  }

  lemma StepTakes(js: string, len: nat, num: nat, st: State, x: Lexeme, open: string, begun: seq<Token>)
    requires Terminated(js) && st.pos < |js| && Stands(js, len, st.pos, x) && Fits(x, open) && Good(st, open, begun)
    requires Thing(x) == 0 || |st.toks| < num
    ensures Sound(st) && More(js, len, st.pos) && Reads(js, len, num, st, x, open, begun, StepAt(js, len, Slots(num), st))
    ensures st.pos + |Text(x)| <= len
  {
    hide Good, Body, Plain;
    GoodSound(st, open, begun);
    if Thing(x) == 0 {
      FreeStep(js, len, num, st, x);
      StepAccepts(js, len, num + |st.toks|, st, x, open, begun);
    } else {
      StepAccepts(js, len, num, st, x, open, begun);
    }
  }

  /** A piece without a token needs no slot. */
  lemma FreeStep(js: string, len: nat, num: nat, st: State, x: Lexeme)
    requires Terminated(js) && st.pos < |js| && Stands(js, len, st.pos, x) && Thing(x) == 0 && Sound(st)
    ensures More(js, len, st.pos) ==>
              StepAt(js, len, Slots(num), st) == StepAt(js, len, Slots(num + |st.toks|), st)
  {
    OneCharacter(js, len, st.pos, x);
  }

  // ----- too few slots -----

  /** A piece that needs a slot, and none is left. */
  lemma StepFull(js: string, len: nat, num: nat, st: State, x: Lexeme)
    requires Terminated(js) && st.pos < |js| && Stands(js, len, st.pos, x) && Sound(st)
    requires Thing(x) == 1 && |st.toks| >= num
    ensures More(js, len, st.pos) && StepAt(js, len, Slots(num), st) == Stop(NoMem)
  {
    hide Stands, ScanString, ScanPrimitive;
    match x
    case Opening(_) => OneCharacter(js, len, st.pos, x);
    case Quoted(_) => QuotedFound(js, len, st.pos, x);
    case Bare(_) => BareFound(js, len, st.pos, x);
  }

  lemma {:induction false} RunFull(js: string, len: nat, num: nat, st: State, count: nat,
                                   xs: seq<Lexeme>, open: string, begun: seq<Token>)
    requires Terminated(js) && st.pos < |js| && Good(st, open, begun)
    requires Rest(js, len, st.pos, xs) && Nested(xs, open) && |st.toks| <= num < |st.toks| + Things(xs)
    ensures Sound(st)
    ensures var r := Run(js, len, Slots(num), st, count); r.1 == NoMem && |r.0.toks| == num
    decreases |xs|
  {
    hide Good, StepAt, Run, Rest, Stands, More, After, Text, Begun;
    GoodSound(st, open, begun);
    var x := xs[0];
    RestParts(js, len, st.pos, xs);
    if Thing(x) == 1 && |st.toks| == num {
      StepFull(js, len, num, st, x);
      StepOn(js, len, num, st, count);
    } else {
      StepAccepts(js, len, num, st, x, open, begun);
      StepOn(js, len, num, st, count);
      var s := StepAt(js, len, Slots(num), st);
      RunFull(js, len, num, s.st, count + s.counted, xs[1..], After(x, open), begun + Begun(x, st.pos));
    }
  }

  // ----- the whole text -----

  lemma InitialGood()
    ensures Good(INITIAL, "", [])
  {
  }

  /** A text of pieces with matched brackets: with enough slots every token is found, of its kind and where its piece
      stands; with too few the slots are filled; without a token array the tokens are counted. */
  lemma TokensOfText(js: string, len: nat, num: nat, xs: seq<Lexeme>)
    requires Terminated(js) && Accepted(js, len, xs)
    ensures var r := Run(js, len, Slots(num), INITIAL, 0);
            if Things(xs) <= num then
              r.1 == Count(Things(xs)) && r.0.pos == |TextOf(xs)|
              && AllLead(r.0.toks, AllBegun(xs, 0)) && WellFormed(js, r.0.toks)
            else r.1 == NoMem && |r.0.toks| == num
    ensures Run(js, len, Null, INITIAL, 0).1 == Count(Things(xs))
  {
    hide Run, Rest, Nested;
    InitialGood();
    if Things(xs) <= num {
      RunAccepts(js, len, num, INITIAL, 0, xs, "", []);
      SuccessStructure(js, len, num);
    } else {
      RunFull(js, len, num, INITIAL, 0, xs, "", []);
    }
    RunAccepts(js, len, Things(xs), INITIAL, 0, xs, "", []);
    NullRunAgrees(js, len, Things(xs), INITIAL, 0);
  }

  /** jsmn accepts exactly the texts of the grammar that have no more tokens than there are slots. */
  lemma AcceptsExactly(js: string, len: nat, num: nat)
    requires Terminated(js)
    ensures Run(js, len, Slots(num), INITIAL, 0).1.Count? <==> exists xs :: Accepted(js, len, xs) && Things(xs) <= num
  {
    hide Run, Rest, Nested;
    InitialGood();
    if Run(js, len, Slots(num), INITIAL, 0).1.Count? {
      var xs := RunReads(js, len, num, INITIAL, 0, "", []);
      assert Accepted(js, len, xs);
    }
    forall xs | Accepted(js, len, xs) && Things(xs) <= num
      ensures Run(js, len, Slots(num), INITIAL, 0).1.Count?
    {
      TokensOfText(js, len, num, xs);
    }
  }

  // ----- the spans of strings and primitives -----

  /** A string's span is the inside of a string between quotes; a primitive's is a word with an end behind it. */
  predicate Span(js: string, t: Token) {
    match t.kind
    case String => 0 < t.start <= t.end < |js| && js[t.start - 1] == js[t.end] == '\"' && Body(js[t.start..t.end])
    case Primitive => 0 <= t.start < t.end < |js| && Word(js[t.start..t.end]) && js[t.end] in ENDS
    case _ => true
  }

  lemma {:induction false} BegunSpans(js: string, len: nat, pos: nat, xs: seq<Lexeme>)
    requires Terminated(js) && Rest(js, len, pos, xs)
    ensures forall i :: 0 <= i < |AllBegun(xs, pos)| ==> Span(js, AllBegun(xs, pos)[i])
    decreases |xs|
  {
    hide Rest, Stands, Span, Text, Begun;
    if xs != [] {
      RestParts(js, len, pos, xs);
      BegunSpan(js, len, pos, xs[0]);
      BegunSpans(js, len, pos + |Text(xs[0])|, xs[1..]);
    }
  }

  lemma BegunSpan(js: string, len: nat, pos: nat, x: Lexeme)
    requires Stands(js, len, pos, x)
    ensures forall i :: 0 <= i < |Begun(x, pos)| ==> Span(js, Begun(x, pos)[i])
  {
    hide Body, Plain;
    match x
    case Quoted(body) => QuotedAt(js, pos, body);
    case Bare(text) => assert js[pos..pos + |text|] == text;
    case _ =>
  }

  lemma LedSpan(js: string, t: Token, b: Token)
    requires Leads(t, b) && Span(js, b)
    ensures Span(js, t)
  {
    hide Body, Word;
  }

  /** So it is for the tokens of every run that succeeds. */
  lemma SuccessSpans(js: string, len: nat, num: nat)
    requires Terminated(js)
    ensures var r := Run(js, len, Slots(num), INITIAL, 0);
            r.1.Count? ==> forall i :: 0 <= i < |r.0.toks| ==> Span(js, r.0.toks[i])
  {
    hide Run, Rest, Nested, Span, Leads;
    var r := Run(js, len, Slots(num), INITIAL, 0);
    if r.1.Count? {
      AcceptsExactly(js, len, num);
      var xs :| Accepted(js, len, xs) && Things(xs) <= num;
      TokensOfText(js, len, num, xs);
      BegunSpans(js, len, 0, xs);
      forall i | 0 <= i < |r.0.toks|
        ensures Span(js, r.0.toks[i])
      {
        LedSpan(js, r.0.toks[i], AllBegun(xs, 0)[i]);
      }
    }
  }
}
