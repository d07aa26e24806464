/** The tokens of a successful run describe the bracket structure of the text. */
module JsmnStructure {
  import opened JsmnModel
  import opened JsmnResume

  // ----- what the tokens of a text look like -----

  function OpeningBracket(kind: Kind): char
    requires kind == Object || kind == Array
  {
    if kind == Object then '{' else '['
  }

  function ClosingBracket(kind: Kind): char
    requires kind == Object || kind == Array
  {
    if kind == Object then '}' else ']'
  }

  /** The span of a closed token, with what stands at its borders. */
  ghost predicate Spans(js: string, t: Token) {
    0 <= t.start <= t.end < |js| &&
    match t.kind
    case Object => t.start + 2 <= t.end && js[t.start] == '{' && js[t.end - 1] == '}'
    case Array => t.start + 2 <= t.end && js[t.start] == '[' && js[t.end - 1] == ']'
    case String => t.start > 0 && js[t.start - 1] == '\"' && js[t.end] == '\"'
    case Primitive => t.start < t.end && PrimitiveStart(js[t.start]) && Delimiter(js[t.end])
  }

  /** u starts after t; it ends before t does, or t ended before it. */
  ghost predicate NestedOrDisjoint(t: Token, u: Token) {
    t.start < u.start && (t.end <= u.start || (Container(t) && u.end < t.end))
  }

  /** c is a container, still open or closed behind t's start, that began before t. */
  predicate Encloses(c: Token, t: Token) {
    Container(c) && c.start < t.start && (Open(c) || t.start < c.end)
  }

  /** The last token before k that encloses token j, or -1. */
  function ParentBelow(toks: seq<Token>, j: nat, k: nat): (i: int)
    requires k <= j < |toks|
    ensures -1 <= i < k && (i >= 0 ==> Encloses(toks[i], toks[j]))
    ensures forall m :: i < m < k ==> !Encloses(toks[m], toks[j])
  {
    if k == 0 then -1 else if Encloses(toks[k - 1], toks[j]) then k - 1 else ParentBelow(toks, j, k - 1)
  }

  /** The innermost container around token j. */
  function Parent(toks: seq<Token>, j: nat): (i: int)
    requires j < |toks|
    ensures -1 <= i < j
  {
    ParentBelow(toks, j, j)
  }

  /** How many of the first n tokens have token i as their innermost container. */
  function Children(toks: seq<Token>, i: nat, n: nat): nat
    requires n <= |toks|
  {
    if n == 0 then 0 else Children(toks, i, n - 1) + if Parent(toks, n - 1) == i then 1 else 0
  }

  ghost predicate WellFormed(js: string, toks: seq<Token>) {
    (forall i :: 0 <= i < |toks| ==> Spans(js, toks[i]))
    && (forall i, j :: 0 <= i < j < |toks| ==> NestedOrDisjoint(toks[i], toks[j]))
    && (forall i :: 0 <= i < |toks| ==> toks[i].size == Children(toks, i, |toks|))
  }

  // ----- the invariant of a run -----

  ghost predicate Placed(js: string, pos: nat, t: Token) {
    0 <= t.start < pos < |js| &&
    if Open(t) then Container(t) && js[t.start] == OpeningBracket(t.kind)
    else t.end <= pos && (t.kind == String ==> t.end < pos) && Spans(js, t)
  }

  ghost predicate Ordered(t: Token, u: Token) {
    t.start < u.start && (Open(t) || t.end <= u.start || (Container(t) && !Open(u) && u.end < t.end))
  }

  ghost predicate Sized(toks: seq<Token>) {
    forall i :: 0 <= i < |toks| ==> toks[i].size == Children(toks, i, |toks|)
  }

  ghost predicate AllPlaced(js: string, pos: nat, toks: seq<Token>) {
    forall i :: 0 <= i < |toks| ==> Placed(js, pos, toks[i])
  }

  ghost predicate AllOrdered(toks: seq<Token>) {
    forall i, j :: 0 <= i < j < |toks| ==> Ordered(toks[i], toks[j])
  }

  ghost predicate Inv(js: string, st: State) {
    st.pos < |js|
    && AllPlaced(js, st.pos, st.toks)
    && AllOrdered(st.toks)
    && st.super == LastOpen(st.toks)
    && Sized(st.toks)
  }

  // ----- parents and sizes under the two changes -----

  /** Tokens that enclose the same ones have the same children. */
  lemma {:induction false} ParentSame(toks: seq<Token>, toks': seq<Token>, j: nat, k: nat)
    requires k <= j < |toks| && j < |toks'|
    requires forall m :: 0 <= m < k ==> (Encloses(toks[m], toks[j]) <==> Encloses(toks'[m], toks'[j]))
    ensures ParentBelow(toks, j, k) == ParentBelow(toks', j, k)
  {
    if k > 0 {
      ParentSame(toks, toks', j, k - 1);
    }
  }

  ghost predicate SameShape(toks: seq<Token>, toks': seq<Token>, n: nat) {
    n <= |toks| && n <= |toks'|
    && forall i, j :: 0 <= i < j < n ==> (Encloses(toks[i], toks[j]) <==> Encloses(toks'[i], toks'[j]))
  }

  lemma {:induction false} ChildrenSame(toks: seq<Token>, toks': seq<Token>, i: nat, n: nat)
    requires SameShape(toks, toks', n)
    ensures Children(toks, i, n) == Children(toks', i, n)
  {
    if n > 0 {
      ChildrenSame(toks, toks', i, n - 1);
      ParentSame(toks, toks', n - 1, n - 1);
    }
  }

  /** No token among the first n has a parent at n or behind. */
  lemma {:induction false} NoChildrenYet(toks: seq<Token>, i: nat, n: nat)
    requires n <= |toks| && n <= i + 1
    ensures Children(toks, i, n) == 0
  {
    if n > 0 {
      NoChildrenYet(toks, i, n - 1);
    }
  }

  /** t starts behind every start and every end; what is open is a container. */
  ghost predicate Behind(toks: seq<Token>, t: Token) {
    forall i :: 0 <= i < |toks| ==>
      toks[i].start < t.start && if Open(toks[i]) then Container(toks[i]) else toks[i].end <= t.start
  }

  /** The parent of a token behind all closed ones is the last open one. */
  lemma {:induction false} NewestParent(toks: seq<Token>, t: Token)
    requires Behind(toks, t)
    ensures Parent(toks + [t], |toks|) == LastOpen(toks)
  {
    var all, n := toks + [t], |toks|;
    var p, o := Parent(all, n), LastOpen(toks);
    if o >= 0 {
      assert Encloses(all[o], all[n]);
    }
    if p >= 0 {
      assert Open(toks[p]);
    }
  }

  /** A token is added behind all others. */
  lemma AddSizes(toks: seq<Token>, t: Token)
    requires Sized(toks) && t.size == 0 && Behind(toks, t)
    ensures Sized(Bump(toks, LastOpen(toks)) + [t])
  {
    var o, n := LastOpen(toks), |toks|;
    var all := Bump(toks, o) + [t];
    assert Parent(all, n) == o by {
      NewestParent(toks, t);
      ParentSame(toks + [t], all, n, n);
    }
    forall i | 0 <= i < |all|
      ensures all[i].size == Children(all, i, |all|)
    {
      AddSize(toks, o, all, t, i);
    }
  }

  lemma AddSize(toks: seq<Token>, o: int, all: seq<Token>, t: Token, i: nat)
    requires -1 <= o < |toks| && all == Bump(toks, o) + [t] && i < |all| && t.size == 0
    requires Parent(all, |toks|) == o && (i < |toks| ==> toks[i].size == Children(toks, i, |toks|))
    ensures all[i].size == Children(all, i, |all|)
  {
    hide Children, Parent, Bump, SameShape;
    var n := |toks|;
    BumpedSize(toks, o, t, i);
    if i < n {
      BumpedShape(toks, o, t);
      ChildrenSame(toks, all, i, n);
    } else {
      NoChildrenYet(all, i, n);
    }
    ChildrenLast(all, i);
  }

  lemma BumpedSize(toks: seq<Token>, j: int, t: Token, i: nat)
    requires -1 <= j < |toks| && i <= |toks|
    ensures var all := Bump(toks, j) + [t];
            all[i].size == if i < |toks| then toks[i].size + (if i == j then 1 else 0) else t.size
  {
  }

  lemma ChildrenLast(toks: seq<Token>, i: nat)
    requires toks != []
    ensures var n := |toks| - 1; Children(toks, i, n + 1) == Children(toks, i, n) + if Parent(toks, n) == i then 1 else 0
  {
  }

  lemma BumpedShape(toks: seq<Token>, i: int, t: Token)
    requires -1 <= i < |toks|
    ensures SameShape(toks, Bump(toks, i) + [t], |toks|)
  {
  }

  lemma {:induction false} LastOpenOfBumped(toks: seq<Token>, i: int)
    requires -1 <= i < |toks|
    ensures LastOpen(Bump(toks, i)) == LastOpen(toks)
  {
    LastOpenUnique(Bump(toks, i), LastOpen(toks));
  }

  lemma LastOpenOfAppended(toks: seq<Token>, t: Token)
    ensures LastOpen(toks + [t]) == if Open(t) then |toks| else LastOpen(toks)
  {
    assert (toks + [t])[..|toks|] == toks;
  }

  lemma NewIsBehind(js: string, toks: seq<Token>, pos: nat, t: Token)
    requires AllPlaced(js, pos, toks) && pos <= t.start
    ensures Behind(toks, t)
  {
    forall i | 0 <= i < |toks|
      ensures toks[i].start < t.start && if Open(toks[i]) then Container(toks[i]) else toks[i].end <= t.start
    {
      assert Placed(js, pos, toks[i]);
    }
  }

  lemma PlacedLater(js: string, pos: nat, pos': nat, t: Token, t': Token)
    requires Placed(js, pos, t) && pos <= pos' < |js| && t' == t.(size := t'.size)
    ensures Placed(js, pos', t')
  {
  }

  lemma AddPlaced(js: string, toks: seq<Token>, pos: nat, i: int, t: Token, pos': nat)
    requires AllPlaced(js, pos, toks) && -1 <= i < |toks| && pos <= pos' < |js| && Placed(js, pos', t)
    ensures AllPlaced(js, pos', Bump(toks, i) + [t])
  {
    hide Placed;
    var all := Bump(toks, i) + [t];
    forall k | 0 <= k < |all|
      ensures Placed(js, pos', all[k])
    {
      if k < |toks| {
        assert Placed(js, pos, toks[k]);
        PlacedLater(js, pos, pos', toks[k], all[k]);
      }
    }
  }

  lemma AddOrdered(toks: seq<Token>, i: int, t: Token)
    requires AllOrdered(toks) && -1 <= i < |toks| && Behind(toks, t)
    ensures AllOrdered(Bump(toks, i) + [t])
  {
    var all := Bump(toks, i) + [t];
    forall j, k | 0 <= j < k < |all|
      ensures Ordered(all[j], all[k])
    {
      if k < |toks| {
        assert Ordered(toks[j], toks[k]);
      }
    }
  }

  lemma AddKeepsInv(js: string, st: State, t: Token, pos: nat)
    requires Inv(js, st) && Sound(st) && t.size == 0 && st.pos <= t.start && st.pos <= pos && Placed(js, pos, t)
    ensures Inv(js, Add(st, t, pos))
  {
    hide AllPlaced, AllOrdered, Sized, Behind;
    assert pos < |js|;
    NewIsBehind(js, st.toks, st.pos, t);
    AddPlaced(js, st.toks, st.pos, st.super, t, pos);
    AddOrdered(st.toks, st.super, t);
    AddSizes(st.toks, t);
    LastOpenOfBumped(st.toks, st.super);
    LastOpenOfAppended(Bump(st.toks, st.super), t);
  }

  // ----- closing -----

  lemma CloseSizes(toks: seq<Token>, toks': seq<Token>, i: nat, end: int)
    requires i < |toks| && i == LastOpen(toks) && toks' == toks[i := toks[i].(end := end)] && Sized(toks)
    requires Container(toks[i]) && end != -1
    requires forall j :: i < j < |toks| ==> toks[i].start < toks[j].start < end
    ensures Sized(toks')
  {
    forall k | 0 <= k < |toks'|
      ensures toks'[k].size == Children(toks', k, |toks'|)
    {
      ChildrenSame(toks, toks', k, |toks|);
    }
  }

  lemma CloseSuper(toks: seq<Token>, toks': seq<Token>, i: nat, end: int)
    requires i < |toks| && i == LastOpen(toks) && toks' == toks[i := toks[i].(end := end)] && end != -1
    ensures LastOpen(toks') == LastOpen(toks'[..i])
  {
    var o := LastOpen(toks'[..i]);
    forall k | o < k < |toks'|
      ensures !Open(toks'[k])
    {
      if k < i {
        assert toks'[k] == toks'[..i][k];
      }
    }
    LastOpenUnique(toks', o);
  }

  lemma CloseOrdered(js: string, pos: nat, toks: seq<Token>, toks': seq<Token>, i: nat)
    requires AllOrdered(toks) && AllPlaced(js, pos, toks) && i < |toks| && i == LastOpen(toks) && Container(toks[i])
    requires toks' == toks[i := toks[i].(end := pos + 1)]
    ensures AllOrdered(toks')
  {
    forall j, k | 0 <= j < k < |toks'|
      ensures Ordered(toks'[j], toks'[k])
    {
      assert Ordered(toks[j], toks[k]) && Placed(js, pos, toks[k]) && Placed(js, pos, toks[j]);
    }
  }

  lemma ClosePlaced(js: string, pos: nat, toks: seq<Token>, toks': seq<Token>, i: nat)
    requires AllPlaced(js, pos, toks) && i < |toks| && Open(toks[i]) && pos + 1 < |js|
    requires toks' == toks[i := toks[i].(end := pos + 1)]
    requires Container(toks[i]) && js[pos] == ClosingBracket(toks[i].kind)
    ensures AllPlaced(js, pos + 1, toks')
  {
    forall k | 0 <= k < |toks'|
      ensures Placed(js, pos + 1, toks'[k])
    {
      assert Placed(js, pos, toks[k]);
    }
  }

  lemma CloseKeepsInv(js: string, st: State, i: nat)
    requires Inv(js, st) && Sound(st) && st.pos < |js| - 1 && i < |st.toks| && i == LastOpen(st.toks)
    requires Container(st.toks[i]) && js[st.pos] == ClosingBracket(st.toks[i].kind)
    ensures Inv(js, Close(st, i))
  {
    hide AllPlaced, AllOrdered, Sized;
    var toks := st.toks[i := st.toks[i].(end := st.pos + 1)];
    CloseSuper(st.toks, toks, i, st.pos + 1);
    CloseOrdered(js, st.pos, st.toks, toks, i);
    ClosePlaced(js, st.pos, st.toks, toks, i);
    Inside(js, st.pos, st.toks, i);
    CloseSizes(st.toks, toks, i, st.pos + 1);
  }

  lemma Inside(js: string, pos: nat, toks: seq<Token>, i: nat)
    requires AllOrdered(toks) && AllPlaced(js, pos, toks) && i < |toks|
    ensures forall j :: i < j < |toks| ==> toks[i].start < toks[j].start < pos + 1
  {
    forall j | i < j < |toks|
      ensures toks[i].start < toks[j].start < pos + 1
    {
      assert Ordered(toks[i], toks[j]) && Placed(js, pos, toks[j]);
    }
  }

  lemma LastOpenUnique(toks: seq<Token>, i: int)
    requires -1 <= i < |toks| && (i >= 0 ==> Open(toks[i])) && forall k :: i < k < |toks| ==> !Open(toks[k])
    ensures i == LastOpen(toks)
  {
  }

  // ----- steps and runs -----

  lemma SkipKeepsInv(js: string, st: State, pos: nat)
    requires Inv(js, st) && st.pos <= pos < |js|
    ensures Inv(js, st.(pos := pos))
  {
    forall k | 0 <= k < |st.toks|
      ensures Placed(js, pos, st.toks[k])
    {
      assert Placed(js, st.pos, st.toks[k]);
    }
  }

  lemma StepKeepsInv(js: string, len: nat, num: nat, st: State)
    requires Terminated(js) && st.pos < |js| && Inv(js, st) && Sound(st) && More(js, len, st.pos)
    ensures var s := StepAt(js, len, Slots(num), st); s.Next? ==> Inv(js, s.st)
  {
    hide Inv;
    var c := js[st.pos];
    if c == '{' {
      AddKeepsInv(js, st, Token(Object, st.pos, -1, 0), st.pos + 1);
    } else if c == '[' {
      AddKeepsInv(js, st, Token(Array, st.pos, -1, 0), st.pos + 1);
    } else if c == '}' || c == ']' {
      var i := LastOpen(st.toks);
      if i >= 0 && st.toks[i].kind == (if c == '}' then Object else Array) {
        CloseKeepsInv(js, st, i);
      }
    } else if c == '\"' {
      var r := ScanString(js, len, st.pos + 1);
      if r.Found? {
        AddKeepsInv(js, st, Token(String, st.pos + 1, r.end, 0), r.end + 1);
      }
    } else if Skipped(c) {
      SkipKeepsInv(js, st, st.pos + 1);
    } else if PrimitiveStart(c) {
      var r := ScanPrimitive(js, len, st.pos);
      PrimitiveProgress(js, len, st.pos);
      if r.Found? {
        AddKeepsInv(js, st, Token(Primitive, st.pos, r.end, 0), r.end);
      }
    }
  }

  lemma {:induction false} RunKeepsInv(js: string, len: nat, num: nat, st: State, count: nat)
    requires Terminated(js) && st.pos < |js| && Inv(js, st) && Sound(st)
    ensures Inv(js, Run(js, len, Slots(num), st, count).0)
    decreases |js| - st.pos
  {
    hide Inv, StepAt;
    if More(js, len, st.pos) {
      StepKeepsInv(js, len, num, st);
      var s := StepAt(js, len, Slots(num), st);
      if s.Next? {
        RunKeepsInv(js, len, num, s.st, count + s.counted);
        RunNext(js, len, Slots(num), st, count);
      } else {
        RunStops(js, len, Slots(num), st, count);
      }
    } else {
      RunStops(js, len, Slots(num), st, count);
    }
  }

  /** Success means that everything was read and every bracket was closed. */
  lemma {:induction false} SuccessMeans(js: string, len: nat, slots: Slots, st: State, count: nat)
    requires Terminated(js) && st.pos < |js| && Sound(st)
    ensures var r := Run(js, len, slots, st, count);
            r.1.Count? ==> !More(js, len, r.0.pos) && LastOpen(r.0.toks) == -1
    decreases |js| - st.pos
  {
    hide StepAt;
    if More(js, len, st.pos) {
      var s := StepAt(js, len, slots, st);
      if s.Next? {
        SuccessMeans(js, len, slots, s.st, count + s.counted);
      }
    }
  }

  /** The tokens of a successful run from the initial state: as many as it returns, their spans in the text
      in increasing order, nested or disjoint, with their brackets and quotes, and each size the number of
      tokens whose innermost container it is. */
  lemma SuccessStructure(js: string, len: nat, num: nat)
    requires Terminated(js)
    ensures var r := Run(js, len, Slots(num), INITIAL, 0);
            r.1.Count? ==> r.1.n == |r.0.toks| && WellFormed(js, r.0.toks) && !More(js, len, r.0.pos)
  {
    var r := Run(js, len, Slots(num), INITIAL, 0);
    RunKeepsInv(js, len, num, INITIAL, 0);
    RunCounts(js, len, num, INITIAL, 0);
    SuccessMeans(js, len, Slots(num), INITIAL, 0);
    if r.1.Count? {
      Closed(js, r.0);
    }
  }

  lemma Closed(js: string, st: State)
    requires Inv(js, st) && LastOpen(st.toks) == -1
    ensures WellFormed(js, st.toks)
  {
    forall i | 0 <= i < |st.toks|
      ensures Spans(js, st.toks[i])
    {
      assert Placed(js, st.pos, st.toks[i]);
    }
    forall i, j | 0 <= i < j < |st.toks|
      ensures NestedOrDisjoint(st.toks[i], st.toks[j])
    {
      assert Ordered(st.toks[i], st.toks[j]);
    }
  }
}
