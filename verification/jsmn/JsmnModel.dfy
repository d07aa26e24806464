/** The jsmn tokenizer as a function of text, length, slots and parser state (strict mode, no parent links). */
module JsmnModel {

  datatype Kind = Primitive | Object | Array | String

  datatype Token = Token(kind: Kind, start: int, end: int, size: int)

  /** The parser's fields, with the tokens allocated so far. */
  datatype State = State(pos: nat, toks: seq<Token>, super: int)

  /** The token argument: NULL, or that many slots. */
  datatype Slots = Null | Slots(num: nat)

  datatype Result = Count(n: nat) | NoMem | Inval | Part

  const INITIAL := State(0, [], -1)

  /** js is NUL-terminated; the part before the last NUL may contain others. */
  predicate Terminated(js: string) {
    |js| > 0 && js[|js| - 1] == '\0'
  }

  /** The loop guard: more text to read. */
  predicate More(js: string, len: nat, pos: nat)
    requires pos < |js|
  {
    pos < len && js[pos] != '\0'
  }

  // ----- strings and primitives -----

  datatype Scan = Found(end: nat) | Bad | Unfinished

  predicate Delimiter(c: char) {
    c == '\t' || c == '\r' || c == '\n' || c == ' ' || c == ',' || c == ']' || c == '}'
  }

  predicate Printable(c: char) {
    32 <= c as int < 127
  }

  predicate PrimitiveStart(c: char) {
    c == '-' || '0' <= c <= '9' || c == 't' || c == 'f' || c == 'n'
  }

  /** The loop of jsmn_parse_primitive. */
  function ScanPrimitive(js: string, len: nat, pos: nat): (r: Scan)
    requires Terminated(js) && pos < |js|
    ensures r.Found? ==> pos <= r.end < |js| && r.end < len && Delimiter(js[r.end])
    decreases |js| - pos
  {
    if !More(js, len, pos) then Unfinished
    else if Delimiter(js[pos]) then Found(pos)
    else if !Printable(js[pos]) then Bad
    else ScanPrimitive(js, len, pos + 1)
  }

  predicate HexDigit(c: char) {
    '0' <= c <= '9' || 'A' <= c <= 'F' || 'a' <= c <= 'f'
  }

  predicate SimpleEscape(c: char) {
    c == '\"' || c == '/' || c == '\\' || c == 'b' || c == 'f' || c == 'r' || c == 'n' || c == 't'
  }

  /** Up to n hex digits; a NUL ends them early. */
  function ScanHex(js: string, pos: nat, n: nat): (r: Scan)
    requires Terminated(js) && pos < |js|
    ensures !r.Unfinished? && (r.Found? ==> pos <= r.end < |js|)
    decreases n
  {
    if n == 0 || js[pos] == '\0' then Found(pos)
    else if !HexDigit(js[pos]) then Bad
    else ScanHex(js, pos + 1, n - 1)
  }

  /** The loop of jsmn_parse_string, from after the opening quote. An escape is read to its end even where
      it runs past len. */
  function ScanString(js: string, len: nat, pos: nat): (r: Scan)
    requires Terminated(js) && pos < |js|
    ensures r.Found? ==> pos <= r.end < |js| - 1 && r.end < len && js[r.end] == '\"'
    decreases |js| - pos
  {
    if !More(js, len, pos) then Unfinished
    else if js[pos] == '\"' then Found(pos)
    else if js[pos] != '\\' then ScanString(js, len, pos + 1)
    else if SimpleEscape(js[pos + 1]) then ScanString(js, len, pos + 2)
    else if js[pos + 1] == 'u' then
      var h := ScanHex(js, pos + 2, 4);
      if h.Found? then ScanString(js, len, h.end) else Bad
    else Bad
  }

  // ----- tokens -----

  predicate Open(t: Token) {
    t.start != -1 && t.end == -1
  }

  predicate Container(t: Token) {
    t.kind == Object || t.kind == Array
  }

  /** The backward search for an unclosed token. */
  function LastOpen(toks: seq<Token>): (i: int)
    ensures -1 <= i < |toks|
    ensures i >= 0 ==> Open(toks[i])
    ensures forall k :: i < k < |toks| ==> !Open(toks[k])
  {
    if toks == [] then -1
    else if Open(toks[|toks| - 1]) then |toks| - 1
    else LastOpen(toks[..|toks| - 1])
  }

  /** size++ on the superior token, if there is one. */
  function Bump(toks: seq<Token>, i: int): (r: seq<Token>)
    requires -1 <= i < |toks|
    ensures |r| == |toks|
  {
    if i == -1 then toks else toks[i := toks[i].(size := toks[i].size + 1)]
  }

  predicate Sound(st: State) {
    -1 <= st.super < |st.toks|
  }

  /** A new token, counted by the superior one; an open one becomes the superior. */
  function Add(st: State, t: Token, pos: nat): (r: State)
    requires Sound(st)
    ensures Sound(r)
  {
    State(pos, Bump(st.toks, st.super) + [t], if Open(t) then |st.toks| else st.super)
  }

  /** The innermost open token is closed at pos, and the next one out becomes the superior. */
  function Close(st: State, i: nat): (r: State)
    requires i < |st.toks|
    ensures Sound(r)
  {
    var toks := st.toks[i := st.toks[i].(end := st.pos + 1)];
    State(st.pos + 1, toks, LastOpen(toks[..i]))
  }

  // ----- one character of the main loop -----

  datatype Step = Next(st: State, counted: nat) | Stop(r: Result)

  /** Room for one more token; NULL has room for none and needs none. */
  function Store(st: State, slots: Slots, t: Token, pos: nat): Step
    requires Sound(st)
  {
    if slots.Null? then Next(st.(pos := pos), 1)
    else if |st.toks| >= slots.num then Stop(NoMem)
    else Next(Add(st, t, pos), 1)
  }

  function CloseStep(st: State, slots: Slots, kind: Kind): Step
    requires Sound(st)
  {
    if slots.Null? then Next(st.(pos := st.pos + 1), 0)
    else
      var i := LastOpen(st.toks);
      if i == -1 || st.toks[i].kind != kind then Stop(Inval) else Next(Close(st, i), 0)
  }

  function StringStep(js: string, len: nat, slots: Slots, st: State): Step
    requires Terminated(js) && st.pos < |js| - 1 && Sound(st)
  {
    match ScanString(js, len, st.pos + 1)
    case Found(end) => Store(st, slots, Token(String, st.pos + 1, end, 0), end + 1)
    case Bad => Stop(Inval)
    case Unfinished => Stop(Part)
  }

  function PrimitiveStep(js: string, len: nat, slots: Slots, st: State): Step
    requires Terminated(js) && st.pos < |js| && Sound(st)
  {
    match ScanPrimitive(js, len, st.pos)
    case Found(end) => Store(st, slots, Token(Primitive, st.pos, end, 0), end)
    case Bad => Stop(Inval)
    case Unfinished => Stop(Part)
  }

  predicate Skipped(c: char) {
    c == '\t' || c == '\r' || c == '\n' || c == ':' || c == ',' || c == ' '
  }

  function StepAt(js: string, len: nat, slots: Slots, st: State): (r: Step)
    requires Terminated(js) && st.pos < |js| && Sound(st) && More(js, len, st.pos)
    ensures r.Next? ==> st.pos < r.st.pos < |js| && Sound(r.st)
    ensures r.Stop? ==> !r.r.Count?
  {
    var c := js[st.pos];
    if c == '{' then Store(st, slots, Token(Object, st.pos, -1, 0), st.pos + 1)
    else if c == '[' then Store(st, slots, Token(Array, st.pos, -1, 0), st.pos + 1)
    else if c == '}' then CloseStep(st, slots, Object)
    else if c == ']' then CloseStep(st, slots, Array)
    else if c == '\"' then StringStep(js, len, slots, st)
    else if Skipped(c) then Next(st.(pos := st.pos + 1), 0)
    else if PrimitiveStart(c) then PrimitiveProgress(js, len, st.pos); PrimitiveStep(js, len, slots, st)
    else Stop(Inval)
  }

  lemma PrimitiveProgress(js: string, len: nat, pos: nat)
    requires Terminated(js) && pos < |js| && More(js, len, pos) && PrimitiveStart(js[pos])
    ensures var r := ScanPrimitive(js, len, pos); r.Found? ==> r.end > pos
  {
  }

  // ----- the main loop -----

  /** jsmn_parse from a state, with tokens counted so far. */
  function Run(js: string, len: nat, slots: Slots, st: State, count: nat): (r: (State, Result))
    requires Terminated(js) && st.pos < |js| && Sound(st)
    ensures st.pos <= r.0.pos < |js| && Sound(r.0)
    decreases |js| - st.pos
  {
    if !More(js, len, st.pos) then
      (st, if LastOpen(st.toks) >= 0 then Part else Count(count))
    else
      match StepAt(js, len, slots, st)
      case Stop(e) => (st, e)
      case Next(st', counted) => Run(js, len, slots, st', count + counted)
  }
}
