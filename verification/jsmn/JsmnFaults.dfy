/** Where and why jsmn stops: the three errors, from the characters at the place where it stopped. */
module JsmnFaults {
  import opened JsmnModel
  import opened JsmnResume
  import opened JsmnGrammar

  const HEX := "0123456789abcdefABCDEF"

  // ----- the reasons -----

  /** n hex digits from k on. */
  predicate Digits(js: string, k: nat, n: nat) {
    k + n < |js| && forall i :: k <= i < k + n ==> js[i] in HEX
  }

  /** Fewer than four digits, and then a character that is neither a digit nor the end. */
  ghost predicate BadDigits(js: string, k: nat) {
    exists n :: 0 <= n < 4 && Digits(js, k, n) && js[k + n] !in HEX && js[k + n] != '\0'
  }

  /** Fewer than four digits, and then the end. */
  ghost predicate CutDigits(js: string, k: nat) {
    exists n :: 0 <= n < 4 && Digits(js, k, n) && js[k + n] == '\0'
  }

  /** A backslash with no escape behind it. */
  ghost predicate BadEscape(js: string, k: nat) {
    k + 1 < |js| && js[k] == '\\' &&
    (js[k + 1] !in "\"/\\bfrntu" || (js[k + 1] == 'u' && BadDigits(js, k + 2)))
  }

  /** An escape with fewer than four digits before the NUL. */
  ghost predicate CutEscape(js: string, k: nat) {
    k + 1 < |js| && js[k] == '\\' && js[k + 1] == 'u' && CutDigits(js, k + 2)
  }

  ghost predicate FaultyString(js: string, len: nat, pos: nat) {
    exists k :: pos <= k < |js| && k < len && Body(js[pos..k]) && BadEscape(js, k)
  }

  ghost predicate UnendedString(js: string, len: nat, pos: nat) {
    exists k :: pos <= k < |js| && Body(js[pos..k]) && (k >= len || js[k] == '\0' || CutEscape(js, k))
  }

  ghost predicate FaultyWord(js: string, len: nat, pos: nat) {
    exists k :: pos <= k < |js| && k < len && Plain(js[pos..k]) && js[k] != '\0' && js[k] !in ENDS && !(' ' <= js[k] <= '~')
  }

  ghost predicate UnendedWord(js: string, len: nat, pos: nat) {
    exists k :: pos <= k < |js| && Plain(js[pos..k]) && (k >= len || js[k] == '\0')
  }

  const STARTS := "-0123456789tfn"

  /** The reason for an error at a position, with these brackets open. */
  ghost predicate Reason(js: string, len: nat, num: nat, st: State, open: string, r: Result) {
    var pos := st.pos;
    pos < |js| &&
    match r
    case Count(_) => !More(js, len, pos) && open == ""
    case NoMem => |st.toks| >= num && exists x :: Stands(js, len, pos, x) && Thing(x) == 1
    case Inval =>
      More(js, len, pos) &&
      (js[pos] !in "{}[]\"\t\r\n :,-0123456789tfn"
       || (js[pos] in "}]" && !Fits(Closing(js[pos]), open))
       || (js[pos] == '\"' && FaultyString(js, len, pos + 1))
       || (js[pos] in STARTS && FaultyWord(js, len, pos)))
    case Part =>
      if !More(js, len, pos) then open != ""
      else (js[pos] == '\"' && UnendedString(js, len, pos + 1)) || (js[pos] in STARTS && UnendedWord(js, len, pos))
  }

  /** Pieces that lead from these open brackets to those. */
  predicate Leads(xs: seq<Lexeme>, open: string, left: string) {
    if xs == [] then open == left
    else Correct(xs[0]) && Fits(xs[0], open) && Leads(xs[1..], After(xs[0], open), left)
  }

  // ----- strings and primitives -----

  lemma {:induction false} HexBad(js: string, pos: nat, n: nat)
    requires Terminated(js) && pos < |js| && ScanHex(js, pos, n).Bad?
    ensures exists m :: 0 <= m < n && Digits(js, pos, m) && js[pos + m] !in HEX && js[pos + m] != '\0'
    decreases n
  {
    HexIs(js[pos]);
    if !HexDigit(js[pos]) {
      assert Digits(js, pos, 0);
    } else {
      HexBad(js, pos + 1, n - 1);
      var m :| 0 <= m < n - 1 && Digits(js, pos + 1, m) && js[pos + 1 + m] !in HEX && js[pos + 1 + m] != '\0';
      DigitsMore(js, pos, m);
    }
  }

  lemma DigitsMore(js: string, pos: nat, m: nat)
    requires pos < |js| && js[pos] in HEX && Digits(js, pos + 1, m)
    ensures Digits(js, pos, m + 1)
  {
  }

  lemma HexCut(js: string, pos: nat)
    requires Terminated(js) && pos < |js| && ScanHex(js, pos, 4).Found? && ScanHex(js, pos, 4).end != pos + 4
    ensures CutDigits(js, pos)
  {
    ScannedHex(js, pos, 4);
    hide ScanHex;
    var n := ScanHex(js, pos, 4).end - pos;
    assert Digits(js, pos, n);
  }

  /** One more unit in front of a string's inside. */
  lemma BodyMore(js: string, pos: nat, m: nat, k: nat)
    requires pos < m <= k <= |js| && Body(js[m..k])
    requires
      || (m == pos + 1 && js[pos] != '\\' && js[pos] != '\"' && js[pos] != '\0')
      || (m == pos + 2 && js[pos] == '\\' && js[pos + 1] in "\"/\\bfrnt")
      || (m == pos + 6 && js[pos] == '\\' && js[pos + 1] == 'u' && forall i :: pos + 2 <= i < pos + 6 ==> js[i] in HEX)
    ensures Body(js[pos..k])
  {
    var s := js[pos..k];
    assert s[m - pos..] == js[m..k];
    if m == pos + 6 {
      forall i | 2 <= i < 6
        ensures s[i] in "0123456789abcdefABCDEF"
      {
        assert s[i] == js[pos + i];
      }
    }
  }

  lemma {:induction false} StringBad(js: string, len: nat, pos: nat)
    requires Terminated(js) && pos < |js| && ScanString(js, len, pos).Bad?
    ensures FaultyString(js, len, pos)
    decreases |js| - pos
  {
    hide BadEscape;
    if js[pos] != '\\' {
      StringBad(js, len, pos + 1);
      FaultBefore(js, len, pos, pos + 1);
    } else if SimpleEscape(js[pos + 1]) {
      SimpleIs(js[pos + 1]);
      StringBad(js, len, pos + 2);
      FaultBefore(js, len, pos, pos + 2);
    } else if js[pos + 1] == 'u' && ScanHex(js, pos + 2, 4).Found? {
      WholeEscape(js, len, pos);
      StringBad(js, len, pos + 6);
      FaultBefore(js, len, pos, pos + 6);
    } else {
      EscapeBad(js, pos);
      assert js[pos..pos] == "";
    }
  }

  lemma EscapeBad(js: string, pos: nat)
    requires Terminated(js) && pos + 1 < |js| && js[pos] == '\\' && !SimpleEscape(js[pos + 1])
    requires js[pos + 1] == 'u' ==> pos + 2 < |js| && ScanHex(js, pos + 2, 4).Bad?
    ensures BadEscape(js, pos)
  {
    SimpleIs(js[pos + 1]);
    if js[pos + 1] == 'u' {
      HexBad(js, pos + 2, 4);
    }
  }

  /** Four digits were there, if the scan went on behind them. */
  lemma WholeEscape(js: string, len: nat, pos: nat)
    requires Terminated(js) && pos + 2 < |js| && js[pos] == '\\' && js[pos + 1] == 'u'
    requires ScanHex(js, pos + 2, 4).Found? && !ScanString(js, len, ScanHex(js, pos + 2, 4).end).Unfinished?
    ensures ScanHex(js, pos + 2, 4).end == pos + 6 && forall i :: pos + 2 <= i < pos + 6 ==> js[i] in HEX
  {
    ScannedHex(js, pos + 2, 4);
  }

  lemma FaultBefore(js: string, len: nat, pos: nat, m: nat)
    requires pos < m < |js| && FaultyString(js, len, m)
    requires
      || (m == pos + 1 && js[pos] != '\\' && js[pos] != '\"' && js[pos] != '\0')
      || (m == pos + 2 && js[pos] == '\\' && js[pos + 1] in "\"/\\bfrnt")
      || (m == pos + 6 && js[pos] == '\\' && js[pos + 1] == 'u' && forall i :: pos + 2 <= i < pos + 6 ==> js[i] in HEX)
    ensures FaultyString(js, len, pos)
  {
    hide Body, BadEscape;
    var k :| m <= k < |js| && k < len && Body(js[m..k]) && BadEscape(js, k);
    BodyMore(js, pos, m, k);
  }

  lemma {:induction false} StringUnended(js: string, len: nat, pos: nat)
    requires Terminated(js) && pos < |js| && ScanString(js, len, pos).Unfinished?
    ensures UnendedString(js, len, pos)
    decreases |js| - pos
  {
    hide CutEscape;
    if !More(js, len, pos) {
      assert js[pos..pos] == "";
    } else if js[pos] != '\\' {
      StringUnended(js, len, pos + 1);
      UnendedBefore(js, len, pos, pos + 1);
    } else if SimpleEscape(js[pos + 1]) {
      SimpleIs(js[pos + 1]);
      StringUnended(js, len, pos + 2);
      UnendedBefore(js, len, pos, pos + 2);
    } else {
      ScannedHex(js, pos + 2, 4);
      var e := ScanHex(js, pos + 2, 4).end;
      if e == pos + 6 {
        StringUnended(js, len, pos + 6);
        UnendedBefore(js, len, pos, pos + 6);
      } else {
        EscapeCut(js, pos);
        assert js[pos..pos] == "";
      }
    }
  }

  lemma EscapeCut(js: string, pos: nat)
    requires Terminated(js) && pos + 2 < |js| && js[pos] == '\\' && js[pos + 1] == 'u'
    requires ScanHex(js, pos + 2, 4).Found? && ScanHex(js, pos + 2, 4).end != pos + 6
    ensures CutEscape(js, pos)
  {
    HexCut(js, pos + 2);
  }

  lemma UnendedBefore(js: string, len: nat, pos: nat, m: nat)
    requires pos < m < |js| && UnendedString(js, len, m)
    requires
      || (m == pos + 1 && js[pos] != '\\' && js[pos] != '\"' && js[pos] != '\0')
      || (m == pos + 2 && js[pos] == '\\' && js[pos + 1] in "\"/\\bfrnt")
      || (m == pos + 6 && js[pos] == '\\' && js[pos + 1] == 'u' && forall i :: pos + 2 <= i < pos + 6 ==> js[i] in HEX)
    ensures UnendedString(js, len, pos)
  {
    hide Body, CutEscape;
    var k :| m <= k < |js| && Body(js[m..k]) && (k >= len || js[k] == '\0' || CutEscape(js, k));
    BodyMore(js, pos, m, k);
  }

  lemma {:induction false} WordStops(js: string, len: nat, pos: nat)
    requires Terminated(js) && pos < |js|
    ensures ScanPrimitive(js, len, pos).Bad? ==> FaultyWord(js, len, pos)
    ensures ScanPrimitive(js, len, pos).Unfinished? ==> UnendedWord(js, len, pos)
    decreases |js| - pos
  {
    EndsIs(js[pos]);
    assert js[pos..pos] == "";
    if More(js, len, pos) && !Delimiter(js[pos]) && Printable(js[pos]) {
      WordStops(js, len, pos + 1);
      WordBefore(js, len, pos);
    }
  }

  lemma WordBefore(js: string, len: nat, pos: nat)
    requires pos + 1 < |js| && ' ' < js[pos] <= '~' && js[pos] !in ENDS
    ensures FaultyWord(js, len, pos + 1) ==> FaultyWord(js, len, pos)
    ensures UnendedWord(js, len, pos + 1) ==> UnendedWord(js, len, pos)
  {
    forall k | pos + 1 <= k < |js| && Plain(js[pos + 1..k])
      ensures Plain(js[pos..k])
    {
      PlainMore(js, pos, k);
    }
    hide Plain;
    if FaultyWord(js, len, pos + 1) {
      var k :| pos + 1 <= k < |js| && k < len && Plain(js[pos + 1..k])
               && js[k] != '\0' && js[k] !in ENDS && !(' ' <= js[k] <= '~');
      assert Plain(js[pos..k]);
    }
    if UnendedWord(js, len, pos + 1) {
      var k :| pos + 1 <= k < |js| && Plain(js[pos + 1..k]) && (k >= len || js[k] == '\0');
      assert Plain(js[pos..k]);
    }
  }

  lemma PlainMore(js: string, pos: nat, k: nat)
    requires pos < k <= |js| && Plain(js[pos + 1..k]) && ' ' < js[pos] <= '~' && js[pos] !in ENDS
    ensures Plain(js[pos..k])
  {
    assert js[pos..k] == [js[pos]] + js[pos + 1..k];
  }

  // ----- runs -----

  /** A step that stops has a reason. */
  lemma StepReason(js: string, len: nat, num: nat, st: State, open: string, begun: seq<Token>)
    requires Terminated(js) && st.pos < |js| && Good(st, open, begun) && More(js, len, st.pos)
    ensures Sound(st)
    ensures var s := StepAt(js, len, Slots(num), st); s.Stop? ==> Reason(js, len, num, st, open, s.r)
  {
    hide Good, FaultyString, FaultyWord, UnendedString, UnendedWord, Stands;
    GoodSound(st, open, begun);
    var pos, c := st.pos, js[st.pos];
    StartIs(c);
    if c == '{' || c == '[' {
      OpeningStands(js, len, pos);
    } else if c == '}' || c == ']' {
      if Fits(Closing(c), open) {
        CloseGood(st, open, begun);
      }
    } else if c == '\"' {
      match ScanString(js, len, pos + 1)
      case Found(_) => var x := ReadString(js, len, pos);
      case Bad => StringBad(js, len, pos + 1);
      case Unfinished => StringUnended(js, len, pos + 1);
    } else if !Skipped(c) && PrimitiveStart(c) {
      WordStops(js, len, pos);
      if ScanPrimitive(js, len, pos).Found? {
        var x := ReadWord(js, len, pos);
      }
    }
  }

  lemma OpeningStands(js: string, len: nat, pos: nat)
    requires Terminated(js) && pos < |js| && More(js, len, pos) && js[pos] in "{["
    ensures Stands(js, len, pos, Opening(js[pos]))
  {
    assert js[pos..pos + 1] == [js[pos]];
  }

  lemma JoinText(js: string, pos: nat, x: Lexeme, ys: seq<Lexeme>, e: nat)
    requires pos + |Text(x)| <= e <= |js| && js[pos..pos + |Text(x)|] == Text(x) && js[pos + |Text(x)|..e] == TextOf(ys)
    ensures js[pos..e] == TextOf([x] + ys)
  {
    assert ([x] + ys)[1..] == ys;
    assert js[pos..e] == js[pos..pos + |Text(x)|] + js[pos + |Text(x)|..e];
  }

  /** Every run reads pieces whose brackets fit, and then stops for a reason. */
  lemma {:induction false} RunReason(js: string, len: nat, num: nat, st: State, count: nat, open: string, begun: seq<Token>)
    returns (xs: seq<Lexeme>, left: string)
    requires Terminated(js) && st.pos < |js| && Good(st, open, begun)
    ensures Sound(st)
    ensures var r := Run(js, len, Slots(num), st, count);
            && js[st.pos..r.0.pos] == TextOf(xs) && Leads(xs, open, left)
            && Good(r.0, left, begun + AllBegun(xs, st.pos)) && Reason(js, len, num, r.0, left, r.1)
    decreases |js| - st.pos
  {
    hide Good, StepAt, Run, Stands, After, Begun, Correct, Reason, More, Fits, Leads, TextOf, AllBegun;
    GoodSound(st, open, begun);
    if !More(js, len, st.pos) {
      FinalRun(js, len, num, st, count, open, begun);
      FinalReason(js, len, num, st, open, count);
      xs, left := [], open;
      NoPieces(js, st.pos, open, begun);
    } else {
      StepOn(js, len, num, st, count);
      StepReason(js, len, num, st, open, begun);
      var s := StepAt(js, len, Slots(num), st);
      if s.Stop? {
        xs, left := [], open;
        NoPieces(js, st.pos, open, begun);
      } else {
        var x := StepReads(js, len, num, st, open, begun);
        StepTakes(js, len, num, st, x, open, begun);
        var ys;
        ys, left := RunReason(js, len, num, s.st, count + s.counted, After(x, open), begun + Begun(x, st.pos));
        xs := [x] + ys;
        StandsText(js, len, st.pos, x);
        JoinText(js, st.pos, x, ys, Run(js, len, Slots(num), st, count).0.pos);
        MorePieces(x, ys, open, left, begun, st.pos);
      }
    }
  }

  lemma FinalReason(js: string, len: nat, num: nat, st: State, open: string, count: nat)
    requires st.pos < |js| && !More(js, len, st.pos)
    ensures Reason(js, len, num, st, open, if open == "" then Count(count) else Part)
  {
  }

  lemma NoPieces(js: string, pos: nat, open: string, begun: seq<Token>)
    requires pos <= |js|
    ensures js[pos..pos] == TextOf([]) && Leads([], open, open) && begun + AllBegun([], pos) == begun
  {
  }

  lemma MorePieces(x: Lexeme, ys: seq<Lexeme>, open: string, left: string, begun: seq<Token>, pos: nat)
    requires Correct(x) && Fits(x, open) && Leads(ys, After(x, open), left)
    ensures Leads([x] + ys, open, left)
    ensures begun + Begun(x, pos) + AllBegun(ys, pos + |Text(x)|) == begun + AllBegun([x] + ys, pos)
  {
    hide Correct, Begun;
    assert ([x] + ys)[1..] == ys;
  }

  lemma StandsText(js: string, len: nat, pos: nat, x: Lexeme)
    requires Stands(js, len, pos, x)
    ensures Correct(x) && pos + |Text(x)| < |js| && js[pos..pos + |Text(x)|] == Text(x)
  {
  }

  /** From a fresh parser: the text up to where it stopped is pieces, their tokens are stored, and the result says why it
      stopped there: all read and closed, no slot for the piece that follows, no piece can follow, or the text ends
      inside one. */
  lemma StopsForReason(js: string, len: nat, num: nat) returns (xs: seq<Lexeme>, left: string)
    requires Terminated(js)
    ensures var r := Run(js, len, Slots(num), INITIAL, 0);
            && js[..r.0.pos] == TextOf(xs) && Leads(xs, "", left)
            && AllLead(r.0.toks, AllBegun(xs, 0)) && Reason(js, len, num, r.0, left, r.1)
  {
    hide Run, Reason;
    InitialGood();
    xs, left := RunReason(js, len, num, INITIAL, 0, "", []);
    assert [] + AllBegun(xs, 0) == AllBegun(xs, 0);
    assert js[0..Run(js, len, Slots(num), INITIAL, 0).0.pos] == js[..Run(js, len, Slots(num), INITIAL, 0).0.pos];
  }
}
