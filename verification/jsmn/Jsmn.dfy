/** jsmn.c: the parser object and its token array, updated in place. */
module Jsmn {
  import opened JsmnModel
  import opened JsmnResume
  import opened JsmnStructure
  import opened JsmnGrammar

  class Parser {
    var pos: nat
    var toknext: nat
    var toksuper: int

    /** jsmn_init. */
    constructor ()
      ensures pos == INITIAL.pos && toknext == |INITIAL.toks| && toksuper == INITIAL.super
    {
      pos, toknext, toksuper := 0, 0, -1;
    }

    /** The parser belongs to this text and this token array. */
    ghost predicate Ready(js: string, tokens: array?<Token>, num: nat)
      reads this
    {
      Terminated(js) && pos < |js| && -1 <= toksuper < toknext
      && (if tokens == null then toknext == 0 else num <= tokens.Length && toknext <= tokens.Length)
    }

    /** What the model calls the state. */
    ghost function Abstract(js: string, tokens: array?<Token>, num: nat): (st: State)
      requires Ready(js, tokens, num)
      reads this, tokens
      ensures Sound(st) && st.pos < |js|
    {
      State(pos, if tokens == null then [] else tokens[..toknext], toksuper)
    }
  }

  ghost function Available(tokens: array?<Token>, num: nat): Slots {
    if tokens == null then Null else Slots(num)
  }

  /** jsmn_alloc_token: the next token, emptied, or -1 when the slots are used up. */
  method AllocToken(p: Parser, tokens: array<Token>, num: nat) returns (i: int)
    requires num <= tokens.Length && p.toknext <= tokens.Length
    modifies p`toknext, tokens
    ensures i == -1 <==> old(p.toknext) >= num
    ensures i == -1 ==> p.toknext == old(p.toknext) && tokens[..] == old(tokens[..])
    ensures i != -1 ==> i == old(p.toknext) && p.toknext == i + 1
    ensures i != -1 ==> tokens[..] == old(tokens[..])[i := old(tokens[i]).(start := -1, end := -1, size := 0)]
  {
    if p.toknext >= num {
      return -1;
    }
    i := p.toknext;
    p.toknext := p.toknext + 1;
    tokens[i] := tokens[i].(start := -1, end := -1);
    tokens[i] := tokens[i].(size := 0);
  }

  /** The common end of jsmn_parse_primitive and jsmn_parse_string: the token found is stored. */
  method StoreToken(p: Parser, tokens: array?<Token>, num: nat, kind: Kind, start: nat, end: nat) returns (ok: bool)
    requires tokens != null ==> num <= tokens.Length && p.toknext <= tokens.Length
    modifies p`toknext, tokens
    ensures ok <==> tokens == null || old(p.toknext) < num
    ensures tokens == null || !ok ==> p.toknext == old(p.toknext)
    ensures tokens != null && !ok ==> tokens[..] == old(tokens[..])
    ensures tokens != null && ok ==> old(p.toknext) < p.toknext <= tokens.Length
    ensures tokens != null && ok ==> tokens[..p.toknext] == old(tokens[..p.toknext]) + [Token(kind, start, end, 0)]
    ensures tokens != null && ok ==> tokens[p.toknext..] == old(tokens[..])[p.toknext..]
  {
    if tokens == null {
      return true;
    }
    var i := AllocToken(p, tokens, num);
    if i == -1 {
      return false;
    }
    tokens[i] := Token(kind, start, end, 0);
    return true;
  }

  /** jsmn_parse_primitive. On success the position is the last one of the primitive; otherwise its start. */
  method ParsePrimitive(p: Parser, js: string, len: nat, tokens: array?<Token>, num: nat) returns (r: Result)
    requires p.Ready(js, tokens, num) && More(js, len, p.pos) && PrimitiveStart(js[p.pos])
    modifies p`pos, p`toknext, tokens
    ensures p.Ready(js, tokens, num)
    ensures var scan := ScanPrimitive(js, len, old(p.pos));
            r == match scan
                 case Bad => Inval
                 case Unfinished => Part
                 case Found(end) => if tokens == null || old(p.toknext) < num then Count(0) else NoMem
    ensures r.Count? ==> p.pos + 1 == ScanPrimitive(js, len, old(p.pos)).end
    ensures r.Count? && tokens != null ==>
              && p.toknext > old(p.toknext)
              && tokens[..p.toknext] == old(tokens[..p.toknext]) + [Token(Primitive, old(p.pos), p.pos + 1, 0)]
    ensures !r.Count? ==> p.pos == old(p.pos)
    ensures !r.Count? || tokens == null ==> p.toknext == old(p.toknext)
    ensures !r.Count? && tokens != null ==> tokens[..] == old(tokens[..])
  {
    var start := p.pos;
    PrimitiveProgress(js, len, start);
    while p.pos < len && js[p.pos] != '\0'
      invariant start <= p.pos < |js| && p.toknext == old(p.toknext)
      invariant tokens != null ==> tokens[..] == old(tokens[..])
      invariant ScanPrimitive(js, len, start) == ScanPrimitive(js, len, p.pos)
      decreases |js| - p.pos
    {
      if Delimiter(js[p.pos]) {
        var ok := StoreToken(p, tokens, num, Primitive, start, p.pos);
        if !ok {
          p.pos := start;
          return NoMem;
        }
        p.pos := p.pos - 1;
        return Count(0);
      }
      if js[p.pos] as int < 32 || js[p.pos] as int >= 127 {
        p.pos := start;
        return Inval;
      }
      p.pos := p.pos + 1;
    }
    p.pos := start;
    return Part;
  }

  /** The four digits after \u, or fewer before a NUL. */
  method SkipHex(p: Parser, js: string) returns (ok: bool)
    requires Terminated(js) && p.pos < |js|
    modifies p`pos
    ensures ok <==> ScanHex(js, old(p.pos), 4).Found?
    ensures ok ==> p.pos == ScanHex(js, old(p.pos), 4).end
  {
    var i := 0;
    while i < 4 && js[p.pos] != '\0'
      invariant 0 <= i <= 4 && p.pos < |js|
      invariant ScanHex(js, old(p.pos), 4) == ScanHex(js, p.pos, 4 - i)
    {
      if !HexDigit(js[p.pos]) {
        return false;
      }
      p.pos := p.pos + 1;
      i := i + 1;
    }
    return true;
  }

  /** The body of the string loop after a backslash: the position moves to the last character of the escape. */
  method SkipEscape(p: Parser, js: string) returns (ok: bool)
    requires Terminated(js) && p.pos + 1 < |js| && js[p.pos] == '\\'
    modifies p`pos
    ensures var c, h := js[old(p.pos) + 1], if old(p.pos) + 2 < |js| then ScanHex(js, old(p.pos) + 2, 4) else Bad;
            && (ok <==> SimpleEscape(c) || (c == 'u' && h.Found?))
            && (ok ==> p.pos + 1 == if SimpleEscape(c) then old(p.pos) + 2 else h.end)
  {
    p.pos := p.pos + 1;
    if SimpleEscape(js[p.pos]) {
      return true;
    }
    if js[p.pos] != 'u' {
      return false;
    }
    p.pos := p.pos + 1;
    ok := SkipHex(p, js);
    p.pos := if ok then p.pos - 1 else p.pos;
  }

  /** jsmn_parse_string. On success the position is that of the closing quote; otherwise that of the opening one. */
  method ParseString(p: Parser, js: string, len: nat, tokens: array?<Token>, num: nat) returns (r: Result)
    requires p.Ready(js, tokens, num) && More(js, len, p.pos) && js[p.pos] == '\"'
    modifies p`pos, p`toknext, tokens
    ensures p.Ready(js, tokens, num)
    ensures var scan := ScanString(js, len, old(p.pos) + 1);
            r == match scan
                 case Bad => Inval
                 case Unfinished => Part
                 case Found(end) => if tokens == null || old(p.toknext) < num then Count(0) else NoMem
    ensures r.Count? ==> p.pos == ScanString(js, len, old(p.pos) + 1).end
    ensures r.Count? && tokens != null ==>
              && p.toknext > old(p.toknext)
              && tokens[..p.toknext] == old(tokens[..p.toknext]) + [Token(String, old(p.pos) + 1, p.pos, 0)]
    ensures !r.Count? ==> p.pos == old(p.pos)
    ensures !r.Count? || tokens == null ==> p.toknext == old(p.toknext)
    ensures !r.Count? && tokens != null ==> tokens[..] == old(tokens[..])
  {
    var start := p.pos;
    p.pos := p.pos + 1;
    while p.pos < len && js[p.pos] != '\0'
      invariant start < p.pos < |js| && p.toknext == old(p.toknext)
      invariant tokens != null ==> tokens[..] == old(tokens[..])
      invariant ScanString(js, len, start + 1) == ScanString(js, len, p.pos)
      decreases |js| - p.pos
    {
      if js[p.pos] == '\"' {
        var ok := StoreToken(p, tokens, num, String, start + 1, p.pos);
        if !ok {
          p.pos := start;
          return NoMem;
        }
        return Count(0);
      }
      if js[p.pos] == '\\' {
        var ok := SkipEscape(p, js);
        if !ok {
          p.pos := start;
          return Inval;
        }
      }
      p.pos := p.pos + 1;
    }
    p.pos := start;
    return Part;
  }

  /** size++ on the superior token. */
  method CountChild(p: Parser, tokens: array?<Token>)
    requires tokens != null ==> p.toknext <= tokens.Length && -1 <= p.toksuper < p.toknext
    modifies tokens
    ensures tokens != null ==> |old(tokens[..p.toknext])| == p.toknext
    ensures tokens != null ==> tokens[..p.toknext] == Bump(old(tokens[..p.toknext]), p.toksuper)
  {
    if p.toksuper != -1 && tokens != null {
      tokens[p.toksuper] := tokens[p.toksuper].(size := tokens[p.toksuper].size + 1);
    }
  }

  /** The cases '{' and '['. */
  method OpenBracket(p: Parser, js: string, tokens: array?<Token>, num: nat, kind: Kind) returns (ok: bool)
    requires p.Ready(js, tokens, num) && p.pos + 1 < |js| && (kind == Object || kind == Array)
    modifies p`toknext, p`toksuper, tokens
    ensures p.Ready(js, tokens, num)
    ensures var st := old(p.Abstract(js, tokens, num));
            var s := Store(st, Available(tokens, num), Token(kind, st.pos, -1, 0), st.pos + 1);
            if ok then s.Next? && s.st == p.Abstract(js, tokens, num).(pos := st.pos + 1) && s.counted == 1
            else s == Stop(NoMem) && p.Abstract(js, tokens, num) == st
  {
    if tokens == null {
      return true;
    }
    var i := AllocToken(p, tokens, num);
    if i == -1 {
      return false;
    }
    if p.toksuper != -1 {
      tokens[p.toksuper] := tokens[p.toksuper].(size := tokens[p.toksuper].size + 1);
    }
    tokens[i] := tokens[i].(kind := kind);
    tokens[i] := tokens[i].(start := p.pos);
    p.toksuper := p.toknext - 1;
    return true;
  }

  /** The first backward search for an unclosed token. */
  method FindOpen(tokens: array<Token>, n: nat) returns (i: int)
    requires n <= tokens.Length
    ensures -1 <= i < n && i == LastOpen(tokens[..n])
  {
    i := n - 1;
    while i >= 0
      invariant -1 <= i < n
      invariant forall k :: i < k < n ==> !Open(tokens[k])
    {
      if tokens[i].start != -1 && tokens[i].end == -1 {
        break;
      }
      i := i - 1;
    }
    LastOpenUnique(tokens[..n], i);
  }

  /** The second backward search, which goes on from where the first one stopped. */
  method FindSuper(p: Parser, tokens: array<Token>, n: nat)
    requires n <= tokens.Length && p.toksuper == -1
    modifies p`toksuper
    ensures p.toksuper == LastOpen(tokens[..n])
  {
    var i := n - 1;
    while i >= 0
      invariant -1 <= i < n && p.toksuper == -1
      invariant forall k :: i < k < n ==> !Open(tokens[k])
    {
      if tokens[i].start != -1 && tokens[i].end == -1 {
        p.toksuper := i;
        break;
      }
      i := i - 1;
    }
    LastOpenUnique(tokens[..n], i);
  }

  /** The cases '}' and ']'. */
  method CloseBracket(p: Parser, js: string, tokens: array?<Token>, num: nat, kind: Kind) returns (ok: bool)
    requires p.Ready(js, tokens, num) && p.pos + 1 < |js|
    modifies p`toksuper, tokens
    ensures p.Ready(js, tokens, num)
    ensures var st := old(p.Abstract(js, tokens, num));
            var s := CloseStep(st, Available(tokens, num), kind);
            if ok then s.Next? && s.st == p.Abstract(js, tokens, num).(pos := st.pos + 1) && s.counted == 0
            else s == Stop(Inval) && p.Abstract(js, tokens, num) == st
  {
    if tokens == null {
      return true;
    }
    var i := FindOpen(tokens, p.toknext);
    if i == -1 || tokens[i].kind != kind {
      return false;
    }
    p.toksuper := -1;
    tokens[i] := tokens[i].(end := p.pos + 1);
    FindSuper(p, tokens, i + 1);
    assert tokens[..i + 1][..i] == tokens[..i] == tokens[..p.toknext][..i];
    return true;
  }

  /** The case '\"': the token is stored, then counted by its container. */
  method StringToken(p: Parser, js: string, len: nat, tokens: array?<Token>, num: nat) returns (r: Result)
    requires p.Ready(js, tokens, num) && More(js, len, p.pos) && js[p.pos] == '\"'
    modifies p`pos, p`toknext, tokens
    ensures p.Ready(js, tokens, num)
    ensures var st := old(p.Abstract(js, tokens, num));
            var s := StringStep(js, len, Available(tokens, num), st);
            if r.Count? then s == Next(p.Abstract(js, tokens, num).(pos := p.pos + 1), 1) && p.pos + 1 < |js|
            else s == Stop(r) && p.Abstract(js, tokens, num) == st
  {
    r := ParseString(p, js, len, tokens, num);
    if r.Count? {
      CountChild(p, tokens);
    }
  }

  /** A primitive: likewise. */
  method PrimitiveToken(p: Parser, js: string, len: nat, tokens: array?<Token>, num: nat) returns (r: Result)
    requires p.Ready(js, tokens, num) && More(js, len, p.pos) && PrimitiveStart(js[p.pos])
    modifies p`pos, p`toknext, tokens
    ensures p.Ready(js, tokens, num)
    ensures var st := old(p.Abstract(js, tokens, num));
            var s := PrimitiveStep(js, len, Available(tokens, num), st);
            if r.Count? then s == Next(p.Abstract(js, tokens, num).(pos := p.pos + 1), 1) && p.pos + 1 < |js|
            else s == Stop(r) && p.Abstract(js, tokens, num) == st
  {
    PrimitiveProgress(js, len, p.pos);
    r := ParsePrimitive(p, js, len, tokens, num);
    if r.Count? {
      CountChild(p, tokens);
    }
  }

  /** One turn of the loop of jsmn_parse, without the final pos++: nothing in r means that the loop goes on. */
  method ParseChar(p: Parser, js: string, len: nat, tokens: array?<Token>, num: nat, count: nat)
    returns (r: Result)
    requires p.Ready(js, tokens, num) && More(js, len, p.pos)
    modifies p, tokens
    ensures p.Ready(js, tokens, num)
    ensures var st := old(p.Abstract(js, tokens, num));
            var s := StepAt(js, len, Available(tokens, num), st);
            if r.Count? then s.Next? && s.st == p.Abstract(js, tokens, num).(pos := p.pos + 1) && r.n == count + s.counted
            else s == Stop(r) && p.Abstract(js, tokens, num) == st
  {
    var c := js[p.pos];
    if c == '{' || c == '[' {
      var ok := OpenBracket(p, js, tokens, num, if c == '{' then Object else Array);
      return if ok then Count(count + 1) else NoMem;
    }
    if c == '}' || c == ']' {
      var ok := CloseBracket(p, js, tokens, num, if c == '}' then Object else Array);
      return if ok then Count(count) else Inval;
    }
    if c == '\"' {
      r := StringToken(p, js, len, tokens, num);
      return if r.Count? then Count(count + 1) else r;
    }
    if Skipped(c) {
      return Count(count);
    }
    if PrimitiveStart(c) {
      r := PrimitiveToken(p, js, len, tokens, num);
      return if r.Count? then Count(count + 1) else r;
    }
    return Inval;
  }

  /** jsmn_parse. */
  method Parse(p: Parser, js: string, len: nat, tokens: array?<Token>, num: nat) returns (r: Result)
    requires p.Ready(js, tokens, num)
    modifies p, tokens
    ensures p.Ready(js, tokens, num)
    ensures (p.Abstract(js, tokens, num), r) == Run(js, len, Available(tokens, num), old(p.Abstract(js, tokens, num)), 0)
    ensures tokens != null && old(p.Abstract(js, tokens, num)) == INITIAL && r.Count? ==>
              r.n == p.toknext && WellFormed(js, tokens[..p.toknext]) && !More(js, len, p.pos)
    ensures tokens != null && old(p.Abstract(js, tokens, num)) == INITIAL && r.Count? ==>
              forall i :: 0 <= i < p.toknext ==> Span(js, tokens[..p.toknext][i])
    ensures tokens != null && old(p.Abstract(js, tokens, num)) == INITIAL ==>
              (r.Count? <==> exists xs :: Accepted(js, len, xs) && Things(xs) <= num)
  {
    hide Run, WellFormed, Span, Accepted;
    SuccessStructure(js, len, num);
    SuccessSpans(js, len, num);
    AcceptsExactly(js, len, num);
    r := ParseLoop(p, js, len, tokens, num);
  }

  /** The loops of jsmn_parse. */
  method ParseLoop(p: Parser, js: string, len: nat, tokens: array?<Token>, num: nat) returns (r: Result)
    requires p.Ready(js, tokens, num)
    modifies p, tokens
    ensures p.Ready(js, tokens, num)
    ensures (p.Abstract(js, tokens, num), r) == Run(js, len, Available(tokens, num), old(p.Abstract(js, tokens, num)), 0)
  {
    hide StepAt;
    ghost var slots, all := Available(tokens, num), Run(js, len, Available(tokens, num), p.Abstract(js, tokens, num), 0);
    var count := 0;
    while p.pos < len && js[p.pos] != '\0'
      invariant p.Ready(js, tokens, num)
      invariant Run(js, len, slots, p.Abstract(js, tokens, num), count) == all
      decreases |js| - p.pos
    {
      ghost var st, k := p.Abstract(js, tokens, num), count;
      r := ParseChar(p, js, len, tokens, num, count);
      if !r.Count? {
        return;
      }
      count := r.n;
      p.pos := p.pos + 1;
      RunNext(js, len, slots, st, k);
    }
    if tokens != null {
      var i := FindOpen(tokens, p.toknext);
      if i >= 0 {
        return Part;
      }
    }
    return Count(count);
  }
}
