/** What the tokenizer promises, proved about the functions that specify it. */
module JsmnTheory {
  import opened JsmnSpec

  // ---------------------------------------------------------------- resuming

  /** A larger array changes nothing until the smaller one is full. */
  lemma StepWithMoreRoom(js: string, cap: nat, cap': nat, st: State)
    requires Sound(st) && !AtEnd(js, st.pos) && cap <= cap'
    requires Step(js, cap, st) != Stop(NOMEM)
    ensures Step(js, cap', st) == Step(js, cap, st)
  {
  }

  lemma {:induction false} RunWithMoreRoom(js: string, cap: nat, cap': nat, st: State)
    requires Sound(st) && cap <= cap'
    ensures Run(js, cap, st).0 != NOMEM ==> Run(js, cap', st) == Run(js, cap, st)
    ensures Run(js, cap, st).0 == NOMEM ==> Run(js, cap', st) == Run(js, cap', Run(js, cap, st).1)
    decreases |js| - st.pos
  {
    if !AtEnd(js, st.pos) && Step(js, cap, st) != Stop(NOMEM) {
      StepWithMoreRoom(js, cap, cap', st);
      match Step(js, cap, st)
      case Stop(_) =>
      case Next(st') => RunWithMoreRoom(js, cap, cap', st');
    }
  }

  /** Running out of tokens leaves everything as it was before the character that
      needed one: the array is exactly full, the character begins a token, and
      parsing again with the same array fails at once in the same way. */
  lemma {:induction false} NomemStopsBefore(js: string, cap: nat, st: State)
    requires Sound(st) && |st.toks| <= cap && Run(js, cap, st).0 == NOMEM
    ensures var full := Run(js, cap, st).1;
      && !AtEnd(js, full.pos) && BeginsToken(js[full.pos])
      && |full.toks| == cap
      && Run(js, cap, full) == (NOMEM, full)
    decreases |js| - st.pos
  {
    match Step(js, cap, st)
    case Stop(_) =>
    case Next(st') => NomemStopsBefore(js, cap, st');
  }

  /** So parsing on in a larger array gives what one run with that array gives. */
  lemma ResumeAfterNomem(js: string, cap: nat, cap': nat, st: State)
    requires Sound(st) && |st.toks| <= cap <= cap' && Run(js, cap, st).0 == NOMEM
    ensures Run(js, cap', Run(js, cap, st).1) == Run(js, cap', st)
  {
    RunWithMoreRoom(js, cap, cap', st);
  }

  // ---------------------------------------------------------------- counting

  lemma StepCounts(js: string, cap: nat, st: State)
    requires Sound(st) && !AtEnd(js, st.pos)
    ensures match Step(js, cap, st)
      case Next(st') => CountStep(js, st.pos) == Ends(st'.pos)
                        && |st'.toks| == |st.toks| + if BeginsToken(js[st.pos]) then 1 else 0
      case Stop(code) => code == NOMEM ==> CountStep(js, st.pos).Ends? && BeginsToken(js[st.pos]) && |st.toks| >= cap
  {
  }

  /** Filling mode, where it succeeds, returns the number of tokens used, and
      counting mode returns the same number. */
  lemma {:induction false} CountAgrees(js: string, cap: nat, st: State)
    requires Sound(st) && Run(js, cap, st).0 >= 0
    ensures Run(js, cap, st).0 == |Run(js, cap, st).1.toks| == Count(js, st.pos, |st.toks|)
    decreases |js| - st.pos
  {
    if !AtEnd(js, st.pos) {
      StepCounts(js, cap, st);
      CountAgrees(js, cap, Step(js, cap, st).st);
    }
  }

  /** An array of as many tokens as counting mode returns is never too small. */
  lemma {:induction false} CountIsEnough(js: string, cap: nat, st: State)
    requires Sound(st) && 0 <= Count(js, st.pos, |st.toks|) <= cap
    ensures Run(js, cap, st).0 != NOMEM
    decreases |js| - st.pos
  {
    if !AtEnd(js, st.pos) {
      StepCounts(js, cap, st);
      match Step(js, cap, st)
      case Next(st') => CountIsEnough(js, cap, st');
      case Stop(_) =>
    }
  }

  /** And any smaller one is: with fewer tokens than counting mode returns, filling
      mode never succeeds. */
  lemma FewerIsTooFew(js: string, cap: nat, st: State)
    requires Sound(st) && |st.toks| <= cap < Count(js, st.pos, |st.toks|)
    ensures Run(js, cap, st).0 < 0
  {
    if Run(js, cap, st).0 >= 0 {
      CountAgrees(js, cap, st);
      StaysInside(js, cap, st);
    }
  }

  lemma {:induction false} StaysInside(js: string, cap: nat, st: State)
    requires Sound(st) && |st.toks| <= cap
    ensures |Run(js, cap, st).1.toks| <= cap
    decreases |js| - st.pos
  {
    if !AtEnd(js, st.pos) && Step(js, cap, st).Next? { StaysInside(js, cap, Step(js, cap, st).st); }
  }

  // ---------------------------------------------------------------- failing

  /** The character at which the run stops is wrong: a bracket that does not close the
      last open token, or a string or a primitive that is invalid. */
  ghost predicate Wrong(js: string, st: State) {
    && !AtEnd(js, st.pos)
    && var c, i := js[st.pos], LastOpen(st.toks);
      || (c == '}' && (i == -1 || st.toks[i].kind != Object))
      || (c == ']' && (i == -1 || st.toks[i].kind != Array))
      || (c == '"' && StringEnd(js, st.pos + 1).Invalid?)
      || (BeginsToken(c) && c != '{' && c != '[' && c != '"' && PrimitiveEnd(js, st.pos).Invalid?)
  }

  /** The text ends inside an open container or inside a string. */
  ghost predicate Unfinished(js: string, st: State) {
    if AtEnd(js, st.pos) then LastOpen(st.toks) != -1
    else js[st.pos] == '"' && StringEnd(js, st.pos + 1).Partial?
  }

  /** The character begins a whole token for which there is no room. */
  ghost predicate Full(js: string, cap: nat, st: State) {
    && !AtEnd(js, st.pos) && |st.toks| >= cap && BeginsToken(js[st.pos])
    && (js[st.pos] == '{' || js[st.pos] == '[' || CountStep(js, st.pos).Ends?)
  }

  /** A run stops at the end with all tokens closed, and returns how many there are, or
      for one of three causes, each with its own code. */
  lemma {:induction false} FailsExactly(js: string, cap: nat, st: State)
    requires Sound(st)
    ensures var (code, t) := Run(js, cap, st);
      && (code == INVAL <==> Wrong(js, t)) && (code == PART <==> Unfinished(js, t)) && (code == NOMEM <==> Full(js, cap, t))
      && (code >= 0 <==> AtEnd(js, t.pos) && LastOpen(t.toks) == -1) && (code >= 0 ==> code == |t.toks|)
    decreases |js| - st.pos
  {
    if !AtEnd(js, st.pos) {
      match Step(js, cap, st)
      case Stop(_) =>
      case Next(st') => FailsExactly(js, cap, st');
    }
  }

  // ---------------------------------------------------------------- the stack

  /** The indices of the open tokens, outermost first. */
  function Opens(toks: seq<Token>): (stack: seq<nat>)
    ensures forall i <- stack :: i < |toks|
  {
    if toks == [] then []
    else Opens(toks[..|toks| - 1]) + if IsOpen(toks[|toks| - 1]) then [|toks| - 1] else []
  }

  lemma {:induction false} LastOpenIsTop(toks: seq<Token>)
    ensures LastOpen(toks) == if Opens(toks) == [] then -1 else Opens(toks)[|Opens(toks)| - 1]
  {
    if toks != [] { LastOpenIsTop(toks[..|toks| - 1]); }
  }

  lemma OpensSnoc(toks: seq<Token>, t: Token)
    ensures Opens(toks + [t]) == Opens(toks) + if IsOpen(t) then [|toks|] else []
  {
    assert (toks + [t])[..|toks|] == toks;
  }

  /** Sizes have no part in it. */
  lemma {:induction false} OpensSame(a: seq<Token>, b: seq<Token>)
    requires |a| == |b| && forall i :: 0 <= i < |a| ==> (IsOpen(a[i]) <==> IsOpen(b[i]))
    ensures Opens(a) == Opens(b)
  {
    if a != [] { OpensSame(a[..|a| - 1], b[..|b| - 1]); }
  }

  lemma {:induction false} OpensClose(toks: seq<Token>, t: Token)
    requires LastOpen(toks) != -1 && !IsOpen(t)
    ensures Opens(toks) != [] && Opens(toks[LastOpen(toks) := t]) == Opens(toks)[..|Opens(toks)| - 1]
  {
    LastOpenIsTop(toks);
    var i, n := LastOpen(toks), |toks| - 1;
    if i == n {
      assert toks[i := t][..n] == toks[..n];
    } else {
      OpensClose(toks[..n], t);
      assert toks[i := t][..n] == toks[..n][i := t];
    }
  }

  /** A tokenizer that keeps a stack of its open containers. */
  datatype Machine = Machine(st: State, stack: seq<nat>)

  datatype MachineOutcome = On(m: Machine) | Halt(code: int)

  ghost predicate InStep(m: Machine) {
    Sound(m.st) && m.stack == Opens(m.st.toks)
  }

  function Top(stack: seq<nat>): (r: int) {
    if stack == [] then -1 else stack[|stack| - 1]
  }

  /** It never looks back over the tokens: a bracket pops the stack, the superior
      token becomes the new top, and a comma returns to the top. */
  function MachineStep(js: string, cap: nat, m: Machine): (r: MachineOutcome)
    requires Sound(m.st) && !AtEnd(js, m.st.pos) && forall i <- m.stack :: i < |m.st.toks|
  {
    var st, c := m.st, js[m.st.pos];
    if c == '{' || c == '[' then
      match Step(js, cap, st)
      case Next(st') => On(Machine(st', m.stack + [|st.toks|]))
      case Stop(code) => Halt(code)
    else if c == '}' || c == ']' then
      if m.stack == [] then Halt(INVAL) else
      var i := m.stack[|m.stack| - 1];
      assert i in m.stack;
      var rest := m.stack[..|m.stack| - 1];
      if st.toks[i].kind != (if c == '}' then Object else Array) then Halt(INVAL) else
      On(Machine(State(st.pos + 1, st.toks[i := st.toks[i].(end := st.pos + 1)], Top(rest)), rest))
    else if c == ',' then
      if st.super != -1 && !IsContainer(st.toks[st.super].kind) && m.stack != []
      then On(Machine(State(st.pos + 1, st.toks, Top(m.stack)), m.stack))
      else On(Machine(st.(pos := st.pos + 1), m.stack))
    else
      match Step(js, cap, st)
      case Next(st') => On(Machine(st', m.stack))
      case Stop(code) => Halt(code)
  }

  lemma BumpKeepsOpens(toks: seq<Token>, super: int)
    requires -1 <= super < |toks|
    ensures Opens(Bump(toks, super)) == Opens(toks)
  {
    OpensSame(Bump(toks, super), toks);
  }

  /** Only containers are ever open. */
  ghost predicate OpensAreContainers(toks: seq<Token>) {
    forall i :: 0 <= i < |toks| && IsOpen(toks[i]) ==> IsContainer(toks[i].kind)
  }

  lemma {:induction false} OpenContainerIsOpen(toks: seq<Token>)
    requires OpensAreContainers(toks)
    ensures LastOpenContainer(toks) == LastOpen(toks)
  {
    if toks != [] { OpenContainerIsOpen(toks[..|toks| - 1]); }
  }

  ghost predicate Agree(o: Outcome, mo: MachineOutcome) {
    match mo
    case On(m) => o == Next(m.st) && InStep(m)
    case Halt(code) => o == Stop(code)
  }

  lemma CloseIsPop(js: string, cap: nat, m: Machine)
    requires InStep(m) && !AtEnd(js, m.st.pos) && (js[m.st.pos] == '}' || js[m.st.pos] == ']')
    ensures Agree(Step(js, cap, m.st), MachineStep(js, cap, m))
  {
    var toks, i := m.st.toks, LastOpen(m.st.toks);
    LastOpenIsTop(toks);
    if i != -1 {
      var t := toks[i].(end := m.st.pos + 1);
      OpensClose(toks, t);
      LastOpenIsTop(toks[i := t]);
    }
  }

  lemma AddIsPush(st: State, cap: nat, t: Token, super': int, pos': nat)
    requires Sound(st) && Add(st, cap, t, super', pos').Next?
    ensures Opens(Add(st, cap, t, super', pos').st.toks) == Opens(st.toks) + if IsOpen(t) then [|st.toks|] else []
  {
    BumpKeepsOpens(st.toks, st.super);
    OpensSnoc(Bump(st.toks, st.super), t);
  }

  /** The backward scans of the token array compute the stack machine. */
  lemma ScanIsStack(js: string, cap: nat, m: Machine)
    requires InStep(m) && OpensAreContainers(m.st.toks) && !AtEnd(js, m.st.pos)
    ensures Agree(Step(js, cap, m.st), MachineStep(js, cap, m))
  {
    hide Opens, Bump, LastOpen, LastOpenContainer;
    var st, c := m.st, js[m.st.pos];
    if c == '}' || c == ']' {
      CloseIsPop(js, cap, m);
    } else if c == ',' {
      LastOpenIsTop(st.toks);
      OpenContainerIsOpen(st.toks);
    } else if |st.toks| < cap {
      if c == '{' || c == '[' {
        AddIsPush(st, cap, Token(if c == '{' then Object else Array, st.pos, -1, 0), |st.toks|, st.pos + 1);
      } else if c == '"' {
        if StringEnd(js, st.pos + 1).Ends? {
          var q := StringEnd(js, st.pos + 1).at;
          AddIsPush(st, cap, Token(String, st.pos + 1, q, 0), st.super, q + 1);
        }
      } else if PrimitiveEnd(js, st.pos).Ends? {
        var q := PrimitiveEnd(js, st.pos).at;
        AddIsPush(st, cap, Token(Primitive, st.pos, q, 0), st.super, q);
      }
    }
  }

  /** The whole run of the machine with a stack ... */
  function MachineRun(js: string, cap: nat, m: Machine): (r: (int, State))
    requires InStep(m) && OpensAreContainers(m.st.toks)
    decreases |js| - m.st.pos
  {
    if AtEnd(js, m.st.pos) then (if m.stack != [] then PART else |m.st.toks|, m.st) else
    ScanIsStack(js, cap, m);
    StepKeepsContainers(js, cap, m.st);
    match MachineStep(js, cap, m)
    case Halt(code) => (code, m.st)
    case On(m') => MachineRun(js, cap, m')
  }

  lemma StepKeepsContainers(js: string, cap: nat, st: State)
    requires Sound(st) && OpensAreContainers(st.toks) && !AtEnd(js, st.pos)
    ensures Step(js, cap, st).Next? ==> OpensAreContainers(Step(js, cap, st).st.toks)
  {
  }

  /** ... is the run of the tokenizer without one. */
  lemma {:induction false} RunIsMachineRun(js: string, cap: nat, m: Machine)
    requires InStep(m) && OpensAreContainers(m.st.toks)
    ensures Run(js, cap, m.st) == MachineRun(js, cap, m)
    decreases |js| - m.st.pos
  {
    LastOpenIsTop(m.st.toks);
    if !AtEnd(js, m.st.pos) {
      ScanIsStack(js, cap, m);
      StepKeepsContainers(js, cap, m.st);
      if MachineStep(js, cap, m).On? { RunIsMachineRun(js, cap, MachineStep(js, cap, m).m); }
    }
  }

  // ---------------------------------------------------------------- the forest

  /** A token and the text it stands for. */
  predicate Stands(js: string, pos: nat, t: Token) {
    && 0 <= t.start < pos
    && (t.end == -1 || t.start <= t.end <= pos)
    && (t.end == -1 ==> IsContainer(t.kind))
    && (match t.kind
        case Object => t.start < |js| && js[t.start] == '{' && (t.end != -1 ==> t.start < t.end <= |js| && js[t.end - 1] == '}')
        case Array => t.start < |js| && js[t.start] == '[' && (t.end != -1 ==> t.start < t.end <= |js| && js[t.end - 1] == ']')
        case String => 0 < t.start && t.end < |js| && t.end < pos && js[t.start - 1] == '"' && js[t.end] == '"'
        case Primitive => t.start < t.end <= |js| && !IsDelimiter(js[t.start])
        case Undefined => false)
  }

  /** Two tokens in the order of the array: the later one starts later, and unless
      the earlier one is open it lies inside it or behind it. */
  predicate Apart(a: Token, b: Token) {
    && a.start < b.start
    && (a.end != -1 ==> a.end <= b.start || (b.end != -1 && b.end <= a.end))
  }

  ghost predicate Forest(js: string, st: State) {
    && Sound(st) && st.pos <= |js|
    && (forall i :: 0 <= i < |st.toks| ==> Stands(js, st.pos, st.toks[i]))
    && (forall i, j :: 0 <= i < j < |st.toks| ==> Apart(st.toks[i], st.toks[j]))
  }

  lemma StandsLater(js: string, pos: nat, pos': nat, t: Token)
    requires Stands(js, pos, t) && pos <= pos'
    ensures Stands(js, pos', t)
  {
  }

  lemma ForestMoves(js: string, st: State, st': State)
    requires Forest(js, st) && Sound(st') && st'.toks == st.toks && st.pos <= st'.pos <= |js|
    ensures Forest(js, st')
  {
    forall i | 0 <= i < |st'.toks| ensures Stands(js, st'.pos, st'.toks[i]) {
      StandsLater(js, st.pos, st'.pos, st.toks[i]);
    }
  }

  /** A new token starts at or behind the position, where all others end. */
  lemma ForestAdds(js: string, cap: nat, st: State, t: Token, super': int, pos': nat)
    requires Forest(js, st) && |st.toks| < cap
    requires st.pos <= t.start && st.pos < pos' <= |js| && Stands(js, pos', t) && -1 <= super' <= |st.toks|
    ensures Forest(js, Add(st, cap, t, super', pos').st)
  {
    var st' := Add(st, cap, t, super', pos').st;
    var n := |st.toks|;
    forall i | 0 <= i < |st'.toks| ensures Stands(js, st'.pos, st'.toks[i]) {
      if i < n {
        assert Stands(js, st.pos, st.toks[i]);
        StandsLater(js, st.pos, pos', st.toks[i]);
      }
    }
    forall i, j | 0 <= i < j < |st'.toks| ensures Apart(st'.toks[i], st'.toks[j]) {
      assert Stands(js, st.pos, st.toks[i]);
      if j < n { assert Apart(st.toks[i], st.toks[j]); }
    }
  }

  /** All tokens behind the last open one are closed before the bracket. */
  lemma ForestCloses(js: string, st: State, kind: Kind)
    requires Forest(js, st) && st.pos < |js| && js[st.pos] == (if kind == Object then '}' else ']') && IsContainer(kind)
    requires Close(st, kind).Next?
    ensures Forest(js, Close(st, kind).st)
  {
    var st', n := Close(st, kind).st, LastOpen(st.toks);
    forall i | 0 <= i < |st'.toks| ensures Stands(js, st'.pos, st'.toks[i]) {
      assert Stands(js, st.pos, st.toks[i]);
      if i != n { StandsLater(js, st.pos, st'.pos, st.toks[i]); }
    }
    forall i, j | 0 <= i < j < |st'.toks| ensures Apart(st'.toks[i], st'.toks[j]) {
      assert Stands(js, st.pos, st.toks[i]) && Stands(js, st.pos, st.toks[j]);
      assert Apart(st.toks[i], st.toks[j]);
      assert j > n ==> !IsOpen(st.toks[j]);
    }
  }

  lemma ForestStep(js: string, cap: nat, st: State)
    requires Forest(js, st) && !AtEnd(js, st.pos) && Step(js, cap, st).Next?
    ensures Forest(js, Step(js, cap, st).st)
  {
    var c := js[st.pos];
    if c == '{' || c == '[' {
      ForestAdds(js, cap, st, Token(if c == '{' then Object else Array, st.pos, -1, 0), |st.toks|, st.pos + 1);
    } else if c == '}' || c == ']' {
      ForestCloses(js, st, if c == '}' then Object else Array);
    } else if c == '"' {
      var q := StringEnd(js, st.pos + 1).at;
      ForestAdds(js, cap, st, Token(String, st.pos + 1, q, 0), st.super, q + 1);
    } else if BeginsToken(c) {
      var q := PrimitiveEnd(js, st.pos).at;
      ForestAdds(js, cap, st, Token(Primitive, st.pos, q, 0), st.super, q);
    } else {
      ForestMoves(js, st, Step(js, cap, st).st);
    }
  }

  lemma {:induction false} ForestRun(js: string, cap: nat, st: State)
    requires Sound(st) && Forest(js, st)
    ensures Forest(js, Run(js, cap, st).1)
    decreases |js| - st.pos
  {
    hide Forest;
    if !AtEnd(js, st.pos) && Step(js, cap, st).Next? {
      ForestStep(js, cap, st);
      ForestRun(js, cap, Step(js, cap, st).st);
    }
  }

  lemma {:induction false} SuccessIsClosed(js: string, cap: nat, st: State)
    requires Sound(st) && Run(js, cap, st).0 >= 0
    ensures forall t <- Run(js, cap, st).1.toks :: !IsOpen(t)
    decreases |js| - st.pos
  {
    if !AtEnd(js, st.pos) { SuccessIsClosed(js, cap, Step(js, cap, st).st); }
  }

  /** A fresh parse that succeeds has turned the text into a forest: every token
      lies in the text and between the right characters, starts increase, and any
      two tokens are nested or disjoint. */
  lemma ParseIsForest(js: string, cap: nat)
    requires Run(js, cap, FRESH).0 >= 0
    ensures var toks := Run(js, cap, FRESH).1.toks;
      && Run(js, cap, FRESH).0 == |toks| <= cap
      && (forall t <- toks :: 0 <= t.start <= t.end <= |js| && Stands(js, |js|, t))
      && (forall i, j :: 0 <= i < j < |toks| ==>
            toks[i].start < toks[j].start && (toks[i].end <= toks[j].start || toks[j].end <= toks[i].end))
  {
    var st := Run(js, cap, FRESH).1;
    ForestRun(js, cap, FRESH);
    SuccessIsClosed(js, cap, FRESH);
    CountAgrees(js, cap, FRESH);
    StaysInside(js, cap, FRESH);
    forall t <- st.toks ensures 0 <= t.start <= t.end <= |js| && Stands(js, |js|, t) {
      assert Stands(js, st.pos, t) && !IsOpen(t);
      StandsLater(js, st.pos, |js|, t);
    }
    forall i, j | 0 <= i < j < |st.toks|
      ensures st.toks[i].start < st.toks[j].start && (st.toks[i].end <= st.toks[j].start || st.toks[j].end <= st.toks[i].end)
    {
      assert Apart(st.toks[i], st.toks[j]) && Stands(js, st.pos, st.toks[i]) && !IsOpen(st.toks[i]);
    }
  }

  /** Counting and filling agree on every text and every array. */
  lemma CountingAndFilling(js: string, cap: nat)
    ensures Run(js, cap, FRESH).0 >= 0 ==> Run(js, cap, FRESH).0 == Count(js, 0, 0)
    ensures 0 <= Count(js, 0, 0) <= cap ==> Run(js, cap, FRESH).0 != NOMEM
    ensures Count(js, 0, 0) > cap ==> Run(js, cap, FRESH).0 < 0
  {
    if Run(js, cap, FRESH).0 >= 0 { CountAgrees(js, cap, FRESH); }
    if 0 <= Count(js, 0, 0) <= cap { CountIsEnough(js, cap, FRESH); }
    if Count(js, 0, 0) > cap { FewerIsTooFew(js, cap, FRESH); }
  }
}
