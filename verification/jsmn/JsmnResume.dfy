/** Stopping and continuing: more slots or more text lead to the same tokens as one run. */
module JsmnResume {
  import opened JsmnModel

  /** The later call sees at least as much text and has at least as many slots. */
  predicate Extends(len: nat, num: nat, len': nat, num': nat) {
    len <= len' && num <= num'
  }

  lemma {:induction false} PrimitiveLonger(js: string, len: nat, len': nat, pos: nat)
    requires Terminated(js) && pos < |js| && len <= len'
    requires !ScanPrimitive(js, len, pos).Unfinished?
    ensures ScanPrimitive(js, len', pos) == ScanPrimitive(js, len, pos)
    decreases |js| - pos
  {
    if !Delimiter(js[pos]) && Printable(js[pos]) {
      PrimitiveLonger(js, len, len', pos + 1);
    }
  }

  lemma {:induction false} StringLonger(js: string, len: nat, len': nat, pos: nat)
    requires Terminated(js) && pos < |js| && len <= len'
    requires !ScanString(js, len, pos).Unfinished?
    ensures ScanString(js, len', pos) == ScanString(js, len, pos)
    decreases |js| - pos
  {
    if js[pos] == '\"' {
    } else if js[pos] != '\\' {
      StringLonger(js, len, len', pos + 1);
    } else if SimpleEscape(js[pos + 1]) {
      StringLonger(js, len, len', pos + 2);
    } else if js[pos + 1] == 'u' {
      var h := ScanHex(js, pos + 2, 4);
      if h.Found? {
        StringLonger(js, len, len', h.end);
      }
    }
  }

  /** What a step does, a step with more text and more slots does too. */
  lemma StepLonger(js: string, len: nat, num: nat, len': nat, num': nat, st: State)
    requires Terminated(js) && st.pos < |js| && Sound(st) && More(js, len, st.pos) && Extends(len, num, len', num')
    ensures var s := StepAt(js, len, Slots(num), st);
            s.Next? || s == Stop(Inval) ==> StepAt(js, len', Slots(num'), st) == s
  {
    var c := js[st.pos];
    if c == '\"' {
      if !ScanString(js, len, st.pos + 1).Unfinished? {
        StringLonger(js, len, len', st.pos + 1);
      }
    } else if PrimitiveStart(c) {
      if !ScanPrimitive(js, len, st.pos).Unfinished? {
        PrimitiveLonger(js, len, len', st.pos);
      }
    }
  }

  /** The same result, with k more tokens counted. */
  function Shifted(r: Result, k: int): Result {
    if r.Count? && r.n + k >= 0 then Count(r.n + k) else r
  }

  lemma {:induction false} RunShifted(js: string, len: nat, slots: Slots, st: State, count: nat, k: nat)
    requires Terminated(js) && st.pos < |js| && Sound(st)
    ensures Run(js, len, slots, st, count + k).0 == Run(js, len, slots, st, count).0
    ensures Run(js, len, slots, st, count + k).1 == Shifted(Run(js, len, slots, st, count).1, k)
    decreases |js| - st.pos
  {
    hide StepAt;
    if More(js, len, st.pos) {
      var s := StepAt(js, len, slots, st);
      if s.Next? {
        RunShifted(js, len, slots, s.st, count + s.counted, k);
      }
    }
  }

  /** A step counts exactly the tokens it stores. */
  lemma StepCounts(js: string, len: nat, num: nat, st: State)
    requires Terminated(js) && st.pos < |js| && Sound(st) && More(js, len, st.pos)
    ensures var s := StepAt(js, len, Slots(num), st); s.Next? ==> |s.st.toks| == |st.toks| + s.counted
  {
  }

  /** So a run that ends well returns the number of tokens it stored. */
  lemma {:induction false} RunCounts(js: string, len: nat, num: nat, st: State, count: nat)
    requires Terminated(js) && st.pos < |js| && Sound(st)
    ensures var r := Run(js, len, Slots(num), st, count);
            |r.0.toks| >= |st.toks| && (r.1.Count? ==> r.1.n == count + |r.0.toks| - |st.toks|)
    decreases |js| - st.pos
  {
    hide StepAt;
    if More(js, len, st.pos) {
      var s := StepAt(js, len, Slots(num), st);
      StepCounts(js, len, num, st);
      if s.Next? {
        RunCounts(js, len, num, s.st, count + s.counted);
      }
    }
  }

  lemma RunNext(js: string, len: nat, slots: Slots, st: State, count: nat)
    requires Terminated(js) && st.pos < |js| && Sound(st) && More(js, len, st.pos)
    requires StepAt(js, len, slots, st).Next?
    ensures var s := StepAt(js, len, slots, st);
            Run(js, len, slots, st, count) == Run(js, len, slots, s.st, count + s.counted)
  {
  }

  lemma RunStops(js: string, len: nat, slots: Slots, st: State, count: nat)
    requires Terminated(js) && st.pos < |js| && Sound(st)
    requires More(js, len, st.pos) ==> StepAt(js, len, slots, st).Stop?
    ensures Run(js, len, slots, st, count).0 == st
  {
  }

  /** A run stopped by smaller limits, resumed with larger ones, is a single run with the larger limits. */
  ghost predicate Resumes(js: string, len: nat, num: nat, len': nat, num': nat, st: State, count: nat)
    requires Terminated(js) && st.pos < |js| && Sound(st)
  {
    var stopped := Run(js, len, Slots(num), st, count).0;
    var resumed := Run(js, len', Slots(num'), stopped, 0);
    var single := Run(js, len', Slots(num'), st, count);
    single.0 == resumed.0 && single.1 == Shifted(resumed.1, count + |stopped.toks| - |st.toks|)
  }

  lemma ResumesBefore(js: string, len: nat, num: nat, len': nat, num': nat, st: State, count: nat, st': State, counted: nat)
    requires Terminated(js) && st.pos < |js| && Sound(st) && st'.pos < |js| && Sound(st')
    requires Run(js, len, Slots(num), st, count) == Run(js, len, Slots(num), st', count + counted)
    requires Run(js, len', Slots(num'), st, count) == Run(js, len', Slots(num'), st', count + counted)
    requires |st'.toks| == |st.toks| + counted && Resumes(js, len, num, len', num', st', count + counted)
    ensures Resumes(js, len, num, len', num', st, count)
  {
  }

  /** However a run ended, continuing from where it stopped with at least as much text and as many slots
      ends in the state, tokens and error that one run with the larger limits ends in. Only the count
      differs, by the tokens stored before the stop. */
  lemma {:induction false} Resume(js: string, len: nat, num: nat, len': nat, num': nat, st: State, count: nat)
    requires Terminated(js) && st.pos < |js| && Sound(st) && Extends(len, num, len', num')
    ensures Resumes(js, len, num, len', num', st, count)
    decreases |js| - st.pos
  {
    hide StepAt;
    if !More(js, len, st.pos) {
      RunShifted(js, len', Slots(num'), st, 0, count);
    } else {
      var s := StepAt(js, len, Slots(num), st);
      StepLonger(js, len, num, len', num', st);
      StepCounts(js, len, num, st);
      if s.Next? {
        Resume(js, len, num, len', num', s.st, count + s.counted);
        RunNext(js, len, Slots(num), st, count);
        RunNext(js, len', Slots(num'), st, count);
        ResumesBefore(js, len, num, len', num', st, count, s.st, s.counted);
      } else {
        RunShifted(js, len', Slots(num'), st, 0, count);
      }
    }
  }

  // ----- any number of interruptions -----

  /** Limits that never shrink from call to call. */
  ghost predicate Growing(plan: seq<(nat, nat)>) {
    forall i, j :: 0 <= i < j < |plan| ==> Extends(plan[i].0, plan[i].1, plan[j].0, plan[j].1)
  }

  /** One call per entry of the plan, each from the state the one before it left. */
  function RunAll(js: string, plan: seq<(nat, nat)>, st: State): (r: (State, Result))
    requires Terminated(js) && st.pos < |js| && Sound(st) && plan != []
    ensures r.0.pos < |js| && Sound(r.0)
    decreases |plan|
  {
    var first := Run(js, plan[0].0, Slots(plan[0].1), st, 0);
    if |plan| == 1 then first else RunAll(js, plan[1..], first.0)
  }

  /** A text parsed in any number of calls, with limits that only grow, gives the tokens, parser state and
      outcome of one call with the last limits. */
  lemma {:induction false} ResumeMany(js: string, plan: seq<(nat, nat)>, st: State)
    requires Terminated(js) && st.pos < |js| && Sound(st) && plan != [] && Growing(plan)
    ensures var last := plan[|plan| - 1];
            var single := Run(js, last.0, Slots(last.1), st, 0);
            var pieces := RunAll(js, plan, st);
            pieces.0 == single.0 && (pieces.1.Count? <==> single.1.Count?) && (!single.1.Count? ==> pieces.1 == single.1)
    decreases |plan|
  {
    if |plan| > 1 {
      var first, last := plan[0], plan[|plan| - 1];
      var stopped := Run(js, first.0, Slots(first.1), st, 0).0;
      assert plan[1..][|plan| - 2] == last;
      ResumeMany(js, plan[1..], stopped);
      RunCounts(js, first.0, first.1, st, 0);
      Resume(js, first.0, first.1, last.0, last.1, st, 0);
    }
  }

  // ----- counting without storing -----

  function Unstored(st: State): State {
    State(st.pos, [], -1)
  }

  lemma NullStep(js: string, len: nat, num: nat, st: State)
    requires Terminated(js) && st.pos < |js| && Sound(st) && More(js, len, st.pos)
    requires StepAt(js, len, Slots(num), st).Next?
    ensures var s := StepAt(js, len, Slots(num), st);
            StepAt(js, len, Null, Unstored(st)) == Next(Unstored(s.st), s.counted)
  {
  }

  /** A run without a token array returns the count of a run that stores its tokens and succeeds. */
  lemma {:induction false} NullRunAgrees(js: string, len: nat, num: nat, st: State, count: nat)
    requires Terminated(js) && st.pos < |js| && Sound(st)
    requires Run(js, len, Slots(num), st, count).1.Count?
    ensures Run(js, len, Null, Unstored(st), count).1 == Run(js, len, Slots(num), st, count).1
    ensures Run(js, len, Null, Unstored(st), count).0 == Unstored(Run(js, len, Slots(num), st, count).0)
    decreases |js| - st.pos
  {
    hide StepAt;
    if More(js, len, st.pos) {
      var s := StepAt(js, len, Slots(num), st);
      NullStep(js, len, num, st);
      NullRunAgrees(js, len, num, s.st, count + s.counted);
    }
  }
}
