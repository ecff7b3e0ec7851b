/** Which token belongs to which: a reader that keeps a stack and, for each item, the
    item it belongs to, and never looks at sizes; and what belonging means in the
    text. */
module JsmnTree {
  import opened JsmnSpec
  import opened JsmnTheory

  datatype Item = Item(kind: Kind, start: int, end: int, parent: int)

  /** What the next item belongs to: the innermost open container, or the item that
      a colon has pointed to. */
  datatype Attach = Inside | Under(i: nat)

  datatype Reader = Reader(pos: nat, items: seq<Item>, stack: seq<nat>, attach: Attach)

  datatype ReadOutcome = More(r: Reader) | Fail(code: int)

  const NEW_READER := Reader(0, [], [], Inside)

  function Parent(r: Reader): (p: int) {
    match r.attach
    case Inside => Top(r.stack)
    case Under(i) => i
  }

  function AddItem(r: Reader, cap: nat, kind: Kind, start: int, end: int, r': Reader): (o: ReadOutcome) {
    if |r.items| >= cap then Fail(-1) else More(r'.(items := r.items + [Item(kind, start, end, Parent(r))]))
  }

  predicate Kept(r: Reader) {
    (forall i <- r.stack :: i < |r.items|) && (r.attach.Under? ==> r.attach.i < |r.items|)
  }

  /** Brackets open and close; a colon makes the last item the one to belong to, and a
      comma behind a string or a primitive takes that back inside a container. */
  function ReadStep(js: string, cap: nat, r: Reader): (o: ReadOutcome)
    requires Kept(r) && !AtEnd(js, r.pos)
    ensures o.More? ==> r.pos < o.r.pos <= |js|
  {
    var c := js[r.pos];
    var next := r.(pos := r.pos + 1);
    if c == '{' || c == '[' then
      AddItem(r, cap, if c == '{' then Object else Array, r.pos, -1,
              next.(stack := r.stack + [|r.items|], attach := Inside))
    else if c == '}' || c == ']' then
      if r.stack == [] then Fail(-2) else
      var i := r.stack[|r.stack| - 1];
      assert i in r.stack;
      if r.items[i].kind != (if c == '}' then Object else Array) then Fail(-2) else
      More(Reader(r.pos + 1, r.items[i := r.items[i].(end := r.pos + 1)], r.stack[..|r.stack| - 1], Inside))
    else if c == '"' then
      match StringEnd(js, r.pos + 1)
      case Invalid => Fail(-2)
      case Partial => Fail(-3)
      case Ends(q) => AddItem(r, cap, String, r.pos + 1, q, r.(pos := q + 1))
    else if c == ':' then
      More(if r.items == [] then next else next.(attach := Under(|r.items| - 1)))
    else if c == ',' then
      More(if r.attach.Under? && !IsContainer(r.items[r.attach.i].kind) && r.stack != [] then next.(attach := Inside) else next)
    else if c == '\t' || c == '\r' || c == '\n' || c == ' ' then More(next)
    else
      match PrimitiveEnd(js, r.pos)
      case Ends(q) => AddItem(r, cap, Primitive, r.pos, q, r.(pos := q))
      case _ => Fail(-2)
  }

  lemma ReadKeeps(js: string, cap: nat, r: Reader)
    requires Kept(r) && !AtEnd(js, r.pos)
    ensures ReadStep(js, cap, r).More? ==> Kept(ReadStep(js, cap, r).r)
  {
    var o, c := ReadStep(js, cap, r), js[r.pos];
    if o.More? {
      if c == '{' || c == '[' {
        assert |o.r.items| == |r.items| + 1 && o.r.stack == r.stack + [|r.items|];
      } else if c == '}' || c == ']' {
        assert r.stack[|r.stack| - 1] in r.stack;
        assert |o.r.items| == |r.items| && o.r.stack == r.stack[..|r.stack| - 1];
        assert forall i <- o.r.stack :: i in r.stack;
      } else {
        assert |o.r.items| >= |r.items| && o.r.stack == r.stack;
      }
    }
  }

  function ReadRun(js: string, cap: nat, r: Reader): (o: (int, Reader))
    requires Kept(r)
    decreases |js| - r.pos
  {
    if AtEnd(js, r.pos) then (if r.stack != [] then -3 else |r.items|, r) else
    ReadKeeps(js, cap, r);
    match ReadStep(js, cap, r)
    case Fail(code) => (code, r)
    case More(r') => ReadRun(js, cap, r')
  }

  /** How many items belong to the one at k. */
  function Children(items: seq<Item>, k: int): (n: nat) {
    if items == [] then 0
    else Children(items[..|items| - 1], k) + if items[|items| - 1].parent == k then 1 else 0
  }

  lemma ChildrenSnoc(items: seq<Item>, x: Item, k: int)
    ensures Children(items + [x], k) == Children(items, k) + if x.parent == k then 1 else 0
  {
    assert (items + [x])[..|items|] == items;
  }

  lemma {:induction false} ChildrenSame(a: seq<Item>, b: seq<Item>, k: int)
    requires |a| == |b| && forall i :: 0 <= i < |a| ==> a[i].parent == b[i].parent
    ensures Children(a, k) == Children(b, k)
  {
    if a != [] { ChildrenSame(a[..|a| - 1], b[..|b| - 1], k); }
  }

  lemma {:induction false} NoChildren(items: seq<Item>, k: int)
    requires forall x <- items :: x.parent < k
    ensures Children(items, k) == 0
  {
    if items != [] {
      assert items[|items| - 1] in items && forall x <- items[..|items| - 1] :: x in items;
      NoChildren(items[..|items| - 1], k);
    }
  }

  // ------------------------------------------------------------- the tokens

  predicate SameToken(x: Item, t: Token) {
    t.kind == x.kind && t.start == x.start && t.end == x.end
  }

  /** The tokens are the items, and each one's size is the number that belongs to it. */
  ghost predicate Mirrors(r: Reader, st: State) {
    && Sound(st) && Kept(r) && st.pos == r.pos && |st.toks| == |r.items|
    && r.stack == Opens(st.toks) && st.super == Parent(r) && OpensAreContainers(st.toks)
    && (forall k :: 0 <= k < |r.items| ==> SameToken(r.items[k], st.toks[k]))
    && (forall k :: 0 <= k < |r.items| ==> st.toks[k].size == Children(r.items, k))
    && (forall x <- r.items :: x.parent < |r.items|)
  }

  ghost predicate SameOutcome(o: Outcome, ro: ReadOutcome) {
    match ro
    case More(r) => o.Next? && Mirrors(r, o.st)
    case Fail(code) => o == Stop(code)
  }

  lemma BumpAt(toks: seq<Token>, super: int, k: nat)
    requires -1 <= super < |toks| && k < |toks|
    ensures Bump(toks, super)[k] == toks[k].(size := toks[k].size + if k == super then 1 else 0)
  {
  }

  lemma AddedMatches(r: Reader, st: State, t: Token, x: Item, k: nat)
    requires Mirrors(r, st) && t.size == 0 && x == Item(t.kind, t.start, t.end, Parent(r)) && k <= |r.items|
    ensures var items, toks := r.items + [x], Bump(st.toks, st.super) + [t];
      SameToken(items[k], toks[k]) && toks[k].size == Children(items, k)
  {
    hide Opens, Bump, Children, OpensAreContainers;
    ChildrenSnoc(r.items, x, k);
    if k < |r.items| {
      BumpAt(st.toks, st.super, k);
      assert SameToken(r.items[k], st.toks[k]);
    } else {
      NoChildren(r.items, k);
    }
  }

  lemma MirrorsAdd(r: Reader, st: State, cap: nat, t: Token, super': int, r': Reader)
    requires Mirrors(r, st) && t.size == 0 && -1 <= super' <= |st.toks| && (IsOpen(t) ==> IsContainer(t.kind))
    requires r'.stack == r.stack + (if IsOpen(t) then [|r.items|] else [])
    requires super' == Parent(r') && (r'.attach.Under? ==> r'.attach.i < |r.items|)
    ensures SameOutcome(Add(st, cap, t, super', r'.pos), AddItem(r, cap, t.kind, t.start, t.end, r'))
  {
    hide Opens, Bump, Children;
    if |st.toks| < cap {
      var toks := Bump(st.toks, st.super) + [t];
      var x := Item(t.kind, t.start, t.end, Parent(r));
      var items := r.items + [x];
      AddIsPush(st, cap, t, super', r'.pos);
      forall k | 0 <= k < |items| ensures SameToken(items[k], toks[k]) && toks[k].size == Children(items, k) {
        AddedMatches(r, st, t, x, k);
      }
      forall y <- items ensures y.parent < |items| { assert y == x || y in r.items; }
      forall i | 0 <= i < |toks| && IsOpen(toks[i]) ensures IsContainer(toks[i].kind) {
        if i < |st.toks| { BumpAt(st.toks, st.super, i); }
      }
    }
  }

  lemma ClosedMatches(r: Reader, st: State, i: nat, end: int)
    requires Mirrors(r, st) && i < |r.items|
    ensures var toks', items' := st.toks[i := st.toks[i].(end := end)], r.items[i := r.items[i].(end := end)];
      && (forall k :: 0 <= k < |items'| ==> SameToken(items'[k], toks'[k]))
      && (forall k :: 0 <= k < |items'| ==> toks'[k].size == Children(items', k))
      && (forall y <- items' :: y.parent < |items'|)
  {
    hide Opens, Children;
    var toks', items' := st.toks[i := st.toks[i].(end := end)], r.items[i := r.items[i].(end := end)];
    forall k | 0 <= k < |items'| ensures SameToken(items'[k], toks'[k]) && toks'[k].size == Children(items', k) {
      assert SameToken(r.items[k], st.toks[k]);
      ChildrenSame(items', r.items, k);
    }
    forall y <- items' ensures y.parent < |items'| {
      var k :| 0 <= k < |items'| && items'[k] == y;
      assert r.items[k] in r.items;
    }
  }

  lemma MirrorsClose(js: string, cap: nat, r: Reader, st: State)
    requires Mirrors(r, st) && !AtEnd(js, r.pos) && (js[r.pos] == '}' || js[r.pos] == ']')
    ensures SameOutcome(Step(js, cap, st), ReadStep(js, cap, r))
  {
    hide Opens, LastOpen, Children;
    var toks, i := st.toks, LastOpen(st.toks);
    LastOpenIsTop(toks);
    if r.stack != [] {
      var t := toks[i].(end := st.pos + 1);
      assert SameToken(r.items[i], toks[i]);
      OpensClose(toks, t);
      LastOpenIsTop(toks[i := t]);
      ClosedMatches(r, st, i, st.pos + 1);
      assert forall j <- r.stack[..|r.stack| - 1] :: j in r.stack;
      StepKeepsContainers(js, cap, st);
    }
  }

  lemma MirrorsMove(r: Reader, st: State, r': Reader, st': State)
    requires Mirrors(r, st) && r'.items == r.items && r'.stack == r.stack && st'.toks == st.toks
    requires st'.pos == r'.pos && st'.super == Parent(r') && Sound(st') && Kept(r')
    ensures Mirrors(r', st')
  {
  }

  /** White space, colons and commas. */
  lemma StaysMirrors(js: string, cap: nat, r: Reader, st: State)
    requires Mirrors(r, st) && !AtEnd(js, r.pos) && !BeginsToken(js[r.pos]) && js[r.pos] != '}' && js[r.pos] != ']'
    ensures SameOutcome(Step(js, cap, st), ReadStep(js, cap, r))
  {
    hide Opens, LastOpen, LastOpenContainer, Children;
    LastOpenIsTop(st.toks);
    OpenContainerIsOpen(st.toks);
    if r.attach.Under? { assert SameToken(r.items[r.attach.i], st.toks[r.attach.i]); }
    if Parent(r) != -1 && r.attach.Inside? { TopIsContainer(st.toks); }
    ReadKeeps(js, cap, r);
    MirrorsMove(r, st, ReadStep(js, cap, r).r, Step(js, cap, st).st);
  }

  lemma StepMirrors(js: string, cap: nat, r: Reader, st: State)
    requires Mirrors(r, st) && !AtEnd(js, r.pos)
    ensures SameOutcome(Step(js, cap, st), ReadStep(js, cap, r))
  {
    hide Mirrors, Add, AddItem;
    MirrorsIs(r, st);
    var c, p := js[r.pos], r.pos;
    if c == '{' || c == '[' {
      var t := Token(if c == '{' then Object else Array, p, -1, 0);
      MirrorsAdd(r, st, cap, t, |st.toks|, r.(pos := p + 1, stack := r.stack + [|r.items|], attach := Inside));
    } else if c == '}' || c == ']' {
      MirrorsClose(js, cap, r, st);
    } else if c == '"' {
      if StringEnd(js, p + 1).Ends? {
        var q := StringEnd(js, p + 1).at;
        MirrorsAdd(r, st, cap, Token(String, p + 1, q, 0), st.super, r.(pos := q + 1));
      }
    } else if BeginsToken(c) {
      if PrimitiveEnd(js, p).Ends? {
        var q := PrimitiveEnd(js, p).at;
        MirrorsAdd(r, st, cap, Token(Primitive, p, q, 0), st.super, r.(pos := q));
      }
    } else {
      StaysMirrors(js, cap, r, st);
    }
  }

  lemma TopIsContainer(toks: seq<Token>)
    requires OpensAreContainers(toks) && LastOpen(toks) != -1
    ensures IsContainer(toks[LastOpen(toks)].kind)
  {
  }

  /** The run of the tokenizer is the run of this reader: same result, and in the end,
      as all along, each token's size is the number of items that belong to it. */
  lemma {:induction false} RunIsReadRun(js: string, cap: nat, r: Reader, st: State)
    requires Mirrors(r, st)
    ensures Run(js, cap, st).0 == ReadRun(js, cap, r).0 && Mirrors(ReadRun(js, cap, r).1, Run(js, cap, st).1)
    decreases |js| - r.pos
  {
    hide Mirrors, Step, ReadStep;
    MirrorsIs(r, st);
    if !AtEnd(js, r.pos) {
      StepMirrors(js, cap, r, st);
      ReadKeeps(js, cap, r);
      match ReadStep(js, cap, r)
      case Fail(_) =>
      case More(r') => RunIsReadRun(js, cap, r', Step(js, cap, st).st);
    }
  }

  lemma MirrorsIs(r: Reader, st: State)
    requires Mirrors(r, st)
    ensures Sound(st) && Kept(r) && st.pos == r.pos && |st.toks| == |r.items| && st.super == Parent(r)
    ensures r.stack == [] <==> LastOpen(st.toks) == -1
  {
    LastOpenIsTop(st.toks);
  }

  lemma NewMirrors()
    ensures Mirrors(NEW_READER, FRESH)
  {
  }

  // ------------------------------------------------------------- in the text

  /** The last of the first n items that is a container still open at position `at`. */
  function Innermost(items: seq<Item>, n: nat, at: int): (i: int)
    requires n <= |items|
    ensures -1 <= i < n
  {
    if n == 0 then -1
    else if IsContainer(items[n - 1].kind) && (items[n - 1].end == -1 || items[n - 1].end > at) then n - 1
    else Innermost(items, n - 1, at)
  }

  /** Position q lies between the quotes of one of the items. */
  ghost predicate Quoted(items: seq<Item>, q: int) {
    exists k :: 0 <= k < |items| && items[k].kind == String && items[k].start <= q < items[k].end
  }

  /** The colon at p, with the item i the last that begins before it, still counts at
      position `at` for an item that comes behind the first n: no bracket has opened
      or closed since, and, if i is no container and some container is open, no comma
      has come but in quotes. */
  ghost predicate Points(js: string, items: seq<Item>, n: nat, i: int, p: int, at: int)
    requires n <= |items|
  {
    && 0 <= i < n && 0 <= p < at <= |js| && js[p] == ':' && items[i].start < p
    && (forall k :: i < k < n ==> items[k].start > p && !IsContainer(items[k].kind))
    && (forall k :: 0 <= k < n && IsContainer(items[k].kind) ==> items[k].end <= p || items[k].end > at)
    && (IsContainer(items[i].kind) || Innermost(items, n, at) == -1 ||
        forall q :: p < q < at && js[q] == ',' ==> Quoted(items, q))
  }

  /** What an item belongs to: the innermost container open where it begins, or the
      item before a colon. */
  ghost predicate Belongs(js: string, items: seq<Item>, j: nat)
    requires j < |items|
  {
    var x := items[j];
    x.parent == Innermost(items, j, x.start) || exists p :: Points(js, items, j, x.parent, p, x.start)
  }

  // ------------------------------------------------------------- items stay where they belong

  /** Later, items have been added, and containers that were open may have closed at e
      or later. */
  ghost predicate Grown(items: seq<Item>, items': seq<Item>, e: int) {
    && |items| <= |items'|
    && forall k :: 0 <= k < |items| ==>
         items'[k] == items[k] ||
         (IsContainer(items[k].kind) && items[k].end == -1 && items'[k] == items[k].(end := items'[k].end) && items'[k].end > e)
  }

  lemma {:induction false} InnermostGrown(items: seq<Item>, items': seq<Item>, n: nat, at: int, e: int)
    requires Grown(items, items', e) && n <= |items| && at <= e
    ensures Innermost(items', n, at) == Innermost(items, n, at)
  {
    if n > 0 { InnermostGrown(items, items', n - 1, at, e); }
  }

  lemma QuotedGrown(items: seq<Item>, items': seq<Item>, e: int, q: int)
    requires Grown(items, items', e) && Quoted(items, q)
    ensures Quoted(items', q)
  {
    var k :| 0 <= k < |items| && items[k].kind == String && items[k].start <= q < items[k].end;
    assert items'[k] == items[k];
  }

  lemma PointsGrown(js: string, items: seq<Item>, items': seq<Item>, e: int, n: nat, i: int, p: int, at: int)
    requires Grown(items, items', e) && n <= |items| && at <= e && Points(js, items, n, i, p, at)
    ensures Points(js, items', n, i, p, at)
  {
    hide Quoted;
    InnermostGrown(items, items', n, at, e);
    forall q | p < q < at && js[q] == ',' && Quoted(items, q) ensures Quoted(items', q) { QuotedGrown(items, items', e, q); }
    assert forall k :: 0 <= k < n ==> items'[k].kind == items[k].kind && items'[k].start == items[k].start;
  }

  lemma BelongsGrown(js: string, items: seq<Item>, items': seq<Item>, e: int, j: nat)
    requires Grown(items, items', e) && j < |items| && items[j].start <= e && Belongs(js, items, j)
    ensures Belongs(js, items', j)
  {
    hide Points;
    var x := items[j];
    assert items'[j].parent == x.parent && items'[j].start == x.start;
    InnermostGrown(items, items', j, x.start, e);
    if x.parent != Innermost(items, j, x.start) {
      var p :| Points(js, items, j, x.parent, p, x.start);
      PointsGrown(js, items, items', e, j, x.parent, p, x.start);
    }
  }

  // ------------------------------------------------------------- each step

  /** All items so far lie behind the position, strings and primitives closed. */
  ghost predicate Behind(items: seq<Item>, pos: int) {
    forall k :: 0 <= k < |items| ==>
      0 <= items[k].start < pos && items[k].end <= pos && (items[k].end == -1 ==> IsContainer(items[k].kind))
  }

  lemma {:induction false} InnermostIsLastOpen(items: seq<Item>, toks: seq<Token>, n: nat, at: int)
    requires n <= |items| == |toks| && (forall k :: 0 <= k < n ==> SameToken(items[k], toks[k]) && 0 <= items[k].start)
    requires forall k :: 0 <= k < n ==> items[k].end <= at && (items[k].end == -1 ==> IsContainer(items[k].kind))
    ensures Innermost(items, n, at) == LastOpen(toks[..n])
  {
    if n > 0 {
      assert toks[..n][..n - 1] == toks[..n - 1];
      assert SameToken(items[n - 1], toks[n - 1]);
      InnermostIsLastOpen(items, toks, n - 1, at);
    }
  }

  ghost predicate AttachHolds(js: string, r: Reader) {
    match r.attach
    case Inside => true
    case Under(i) => exists p :: Points(js, r.items, |r.items|, i, p, r.pos)
  }

  ghost predicate AllBelong(js: string, items: seq<Item>) {
    forall j :: 0 <= j < |items| ==> Belongs(js, items, j)
  }

  ghost predicate Orderly(js: string, r: Reader, st: State) {
    Mirrors(r, st) && Forest(js, st) && AttachHolds(js, r) && AllBelong(js, r.items)
  }

  lemma ForestIsBehind(js: string, r: Reader, st: State)
    requires Mirrors(r, st) && Forest(js, st)
    ensures Behind(r.items, r.pos) && r.pos <= |js|
    ensures Top(r.stack) == Innermost(r.items, |r.items|, r.pos)
  {
    hide Opens, LastOpen, Children;
    forall k | 0 <= k < |r.items|
      ensures 0 <= r.items[k].start < r.pos && r.items[k].end <= r.pos && (r.items[k].end == -1 ==> IsContainer(r.items[k].kind))
    {
      assert SameToken(r.items[k], st.toks[k]) && Stands(js, st.pos, st.toks[k]);
    }
    InnermostIsLastOpen(r.items, st.toks, |r.items|, r.pos);
    assert st.toks[..|st.toks|] == st.toks;
    LastOpenIsTop(st.toks);
  }

  /** Behind the position every container that is not open has closed, so the later
      the position the same. */
  lemma {:induction false} InnermostLater(items: seq<Item>, n: nat, pos: int, at: int)
    requires n <= |items| && Behind(items, pos) && pos <= at
    ensures Innermost(items, n, at) == Innermost(items, n, pos)
  {
    if n > 0 { InnermostLater(items, n - 1, pos, at); }
  }

  lemma PointsLater(js: string, items: seq<Item>, i: int, p: int, pos: int, at: int)
    requires Behind(items, pos) && pos <= at <= |js| && Points(js, items, |items|, i, p, pos)
    requires forall q :: pos <= q < at && js[q] == ',' ==> Quoted(items, q)
    ensures Points(js, items, |items|, i, p, at)
  {
    hide Quoted;
    InnermostLater(items, |items|, pos, at);
  }

  /** The new item belongs where the reader says. */
  lemma NewBelongs(js: string, r: Reader, st: State, x: Item, items': seq<Item>)
    requires Orderly(js, r, st) && x.parent == Parent(r) && r.pos <= x.start <= |js|
    requires items' == r.items + [x]
    requires forall q :: r.pos <= q < x.start ==> js[q] != ','
    ensures AllBelong(js, items')
  {
    hide Mirrors, Forest, Points, Belongs, Opens, Quoted;
    ForestIsBehind(js, r, st);
    var n := |r.items|;
    assert Grown(r.items, items', x.start);
    forall j | 0 <= j < n ensures Belongs(js, items', j) { BelongsGrown(js, r.items, items', x.start, j); }
    InnermostLater(r.items, n, r.pos, x.start);
    InnermostGrown(r.items, items', n, x.start, x.start);
    if r.attach.Under? {
      var p :| Points(js, r.items, n, r.attach.i, p, r.pos);
      PointsLater(js, r.items, r.attach.i, p, r.pos, x.start);
      PointsGrown(js, r.items, items', x.start, n, r.attach.i, p, x.start);
      NewIsUnder(js, items', n, p);
    } else {
      NewIsInside(js, items', n);
    }
  }

  lemma NewIsUnder(js: string, items: seq<Item>, j: nat, p: int)
    requires j < |items| && Points(js, items, j, items[j].parent, p, items[j].start)
    ensures Belongs(js, items, j)
  {
  }

  lemma NewIsInside(js: string, items: seq<Item>, j: nat)
    requires j < |items| && items[j].parent == Innermost(items, j, items[j].start)
    ensures Belongs(js, items, j)
  {
  }

  /** A string or a primitive leaves the pointing of a colon as it is. */
  lemma PointsPast(js: string, items: seq<Item>, x: Item, i: int, p: int, pos: int, at: int)
    requires Behind(items, pos) && Points(js, items, |items|, i, p, pos) && pos <= at <= |js|
    requires pos <= x.start && !IsContainer(x.kind)
    requires forall q :: pos <= q < at && js[q] == ',' ==> x.kind == String && x.start <= q < x.end
    ensures Points(js, items + [x], |items| + 1, i, p, at)
  {
    var items', n := items + [x], |items|;
    assert Grown(items, items', at);
    InnermostLater(items, n, pos, at);
    InnermostGrown(items, items', n, at, at);
    assert Innermost(items', n + 1, at) == Innermost(items', n, at);
    forall q | p < q < at && js[q] == ',' && (q < pos ==> Quoted(items, q)) ensures Quoted(items', q) {
      if q < pos {
        QuotedGrown(items, items', at, q);
      } else {
        assert items'[n] == x;
      }
    }
    hide Quoted;
    InnermostLater(items, n, pos, pos);
  }

  lemma AddOrderly(js: string, cap: nat, r: Reader, st: State, x: Item, r': Reader)
    requires Orderly(js, r, st) && x.parent == Parent(r) && r.pos <= x.start <= |js|
    requires r'.items == r.items + [x] && r.pos < r'.pos <= |js|
    requires forall q :: r.pos <= q < x.start ==> js[q] != ','
    requires r'.attach == Inside ||
      (r'.attach == r.attach && !IsContainer(x.kind)
       && forall q :: r.pos <= q < r'.pos && js[q] == ',' ==> x.kind == String && x.start <= q < x.end)
    ensures AttachHolds(js, r') && AllBelong(js, r'.items)
  {
    hide Mirrors, Forest, Points, AllBelong;
    NewBelongs(js, r, st, x, r'.items);
    if r'.attach.Under? {
      ForestIsBehind(js, r, st);
      var p :| Points(js, r.items, |r.items|, r.attach.i, p, r.pos);
      PointsPast(js, r.items, x, r.attach.i, p, r.pos, r'.pos);
    }
  }

  lemma {:induction false} PrimitiveHasNoComma(js: string, p: nat)
    requires PrimitiveEnd(js, p).Ends?
    ensures forall q :: p <= q < PrimitiveEnd(js, p).at && q < |js| ==> js[q] != ','
    decreases |js| - p
  {
    if !(AtEnd(js, p) || IsDelimiter(js[p])) { PrimitiveHasNoComma(js, p + 1); }
  }

  lemma CloseOrderly(js: string, cap: nat, r: Reader, st: State)
    requires Orderly(js, r, st) && !AtEnd(js, r.pos) && (js[r.pos] == '}' || js[r.pos] == ']') && ReadStep(js, cap, r).More?
    ensures AttachHolds(js, ReadStep(js, cap, r).r) && AllBelong(js, ReadStep(js, cap, r).r.items)
  {
    hide Forest, Points, Belongs, Opens, Children, LastOpen;
    ForestIsBehind(js, r, st);
    var items', i := ReadStep(js, cap, r).r.items, r.stack[|r.stack| - 1];
    LastOpenIsTop(st.toks);
    assert SameToken(r.items[i], st.toks[i]);
    OpenTop(st.toks);
    assert Grown(r.items, items', r.pos);
    forall j | 0 <= j < |r.items| ensures Belongs(js, items', j) { BelongsGrown(js, r.items, items', r.pos, j); }
  }

  lemma OpenTop(toks: seq<Token>)
    requires OpensAreContainers(toks) && LastOpen(toks) != -1
    ensures IsOpen(toks[LastOpen(toks)]) && IsContainer(toks[LastOpen(toks)].kind)
  {
  }

  lemma StaysOrderly(js: string, cap: nat, r: Reader, st: State)
    requires Orderly(js, r, st) && !AtEnd(js, r.pos) && !BeginsToken(js[r.pos]) && js[r.pos] != '}' && js[r.pos] != ']'
    ensures AttachHolds(js, ReadStep(js, cap, r).r) && AllBelong(js, ReadStep(js, cap, r).r.items)
  {
    hide Forest, Belongs, Opens, Children, LastOpen, Quoted;
    ForestIsBehind(js, r, st);
    var r', n := ReadStep(js, cap, r).r, |r.items|;
    if js[r.pos] == ':' {
      if n > 0 { assert Points(js, r.items, n, n - 1, r.pos, r.pos + 1); }
    } else if r'.attach.Under? {
      var p :| Points(js, r.items, n, r.attach.i, p, r.pos);
      InnermostLater(r.items, n, r.pos, r.pos + 1);
      assert Points(js, r.items, n, r.attach.i, p, r.pos + 1);
    }
  }

  lemma StepOrderly(js: string, cap: nat, r: Reader, st: State)
    requires Orderly(js, r, st) && !AtEnd(js, r.pos) && ReadStep(js, cap, r).More?
    ensures Step(js, cap, st).Next? && Orderly(js, ReadStep(js, cap, r).r, Step(js, cap, st).st)
  {
    hide Mirrors, Forest, AttachHolds, AllBelong, Step;
    MirrorsIs(r, st);
    StepMirrors(js, cap, r, st);
    ForestStep(js, cap, st);
    ForestIsBehind(js, r, st);
    var c, r' := js[r.pos], ReadStep(js, cap, r).r;
    if c == '}' || c == ']' {
      CloseOrderly(js, cap, r, st);
    } else if !BeginsToken(c) {
      StaysOrderly(js, cap, r, st);
    } else {
      if c != '{' && c != '[' && c != '"' { PrimitiveHasNoComma(js, r.pos); }
      AddOrderly(js, cap, r, st, r'.items[|r.items|], r');
    }
  }

  lemma {:induction false} RunOrderly(js: string, cap: nat, r: Reader, st: State)
    requires Orderly(js, r, st)
    ensures AllBelong(js, ReadRun(js, cap, r).1.items)
    decreases |js| - r.pos
  {
    hide Orderly, Step, ReadStep, Mirrors;
    OrderlyIs(js, r, st);
    MirrorsIs(r, st);
    if !AtEnd(js, r.pos) {
      ReadKeeps(js, cap, r);
      if ReadStep(js, cap, r).More? {
        StepOrderly(js, cap, r, st);
        RunOrderly(js, cap, ReadStep(js, cap, r).r, Step(js, cap, st).st);
      }
    }
  }

  lemma OrderlyIs(js: string, r: Reader, st: State)
    requires Orderly(js, r, st)
    ensures Mirrors(r, st) && AllBelong(js, r.items)
  {
  }

  /** For every text and every array: the tokens are a tree. Each item belongs to the
      innermost container open where it begins, or to the item before a colon that
      still counts; and the size of each token is the number that belongs to it. */
  lemma TokensAreATree(js: string, cap: nat)
    ensures var items, toks := ReadRun(js, cap, NEW_READER).1.items, Run(js, cap, FRESH).1.toks;
      && |items| == |toks| && AllBelong(js, items)
      && forall k :: 0 <= k < |toks| ==> SameToken(items[k], toks[k]) && toks[k].size == Children(items, k)
  {
    hide Run, ReadRun, AllBelong, Children, Opens;
    NewMirrors();
    RunIsReadRun(js, cap, NEW_READER, FRESH);
    NewIsOrderly(js);
    RunOrderly(js, cap, NEW_READER, FRESH);
  }

  lemma NewIsOrderly(js: string)
    ensures Orderly(js, NEW_READER, FRESH)
  {
  }
}
