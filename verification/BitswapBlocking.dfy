/** Where the wantlist stands still: ipfs_bitswap_wantlist_queue_pop always takes the
    first open entry and leaves it in its place, so an entry that its turn does not
    close keeps every later entry from its turn. */
module BitswapBlocking {
  import opened Basics
  import opened Messages
  import opened Requests
  import opened Bitswap
  import opened BitswapSafety
  import opened BitswapHistory
  import Blocks
  import Cids

  /** The next entry has been tried too often ... */
  predicate Spent(n: Node, i: nat) {
    Pop(n.wants) == i < |n.wants| && n.wants[i].attempts > 10
  }

  /** ... or only other peers want it, and it is not in store. */
  predicate Foreign(n: Node, i: nat) {
    Pop(n.wants) == i < |n.wants| && Local !in n.wants[i].sessions && n.wants[i].cid.hash !in n.store
  }

  /** From i on nothing has been tried or asked for between ws and ws', and what is
      new has not been either. */
  ghost predicate Untouched(ws: seq<Want>, ws': seq<Want>, i: nat) {
    && |ws| <= |ws'|
    && forall j :: i <= j < |ws'| ==>
         ws'[j].asked == (j < |ws| && ws[j].asked) && ws'[j].attempts == if j < |ws| then ws[j].attempts else 0
  }

  lemma UntouchedTwice(a: seq<Want>, b: seq<Want>, c: seq<Want>, i: nat)
    requires Untouched(a, b, i) && Untouched(b, c, i)
    ensures Untouched(a, c, i)
  {
  }

  /** The first open entry stays the first while it is open. */
  lemma PopStays(ws: seq<Want>, ws': seq<Want>, i: nat)
    requires Pop(ws) == i < |ws'| && LaterWants(ws, ws') && Open(ws'[i])
    ensures Pop(ws') == i
  {
    assert forall j :: 0 <= j < i ==> !Open(ws[j]);
  }

  // ------------------------------------------------------------- one turn

  /** All that happens is that the entry loses half of its sessions. */
  lemma SpentTurn(me: nat, n: Node, providers: Option<seq<Contact>>, i: nat)
    requires Spent(n, i)
    ensures var (n', out) := WantTurn(me, n, providers);
      && out == [] && n'.peers == n.peers && n'.store == n.store && Spent(n', i) && Untouched(n.wants, n'.wants, i)
      && n'.wants == n.wants[i := n.wants[i].(sessions := n'.wants[i].sessions)]
      && |n'.wants[i].sessions| == |n.wants[i].sessions| / 2
      && multiset(n'.wants[i].sessions) <= multiset(n.wants[i].sessions)
  {
    hide DropSessions;
    DropsHalf(n.wants[i].sessions, 0);
    var n' := WantTurn(me, n, providers).0;
    WantTurnLater(me, n, providers);
    PopStays(n.wants, n'.wants, i);
  }

  lemma ForeignTurn(me: nat, n: Node, providers: Option<seq<Contact>>, i: nat)
    requires Foreign(n, i) && !Spent(n, i)
    ensures WantTurn(me, n, providers) == (n, [])
  {
  }

  // ------------------------------------------------------------- other steps

  /** Wants as they were, except for their blocks. */
  ghost predicate SameButBlocks(ws: seq<Want>, ws': seq<Want>) {
    |ws| == |ws'| && forall j :: 0 <= j < |ws| ==> ws'[j].(block := None) == ws[j].(block := None)
  }

  lemma HasBlockWants(n: Node, b: Block)
    ensures SameButBlocks(n.wants, HasBlock(n, b).wants)
  {
    hide Find;
  }

  lemma {:induction false} HasBlocksWants(n: Node, bs: seq<Block>)
    ensures SameButBlocks(n.wants, HasBlocks(n, bs).wants)
  {
    hide HasBlock;
    if bs != [] {
      HasBlocksWants(n, bs[..|bs| - 1]);
      HasBlockWants(HasBlocks(n, bs[..|bs| - 1]), bs[|bs| - 1]);
    }
  }

  lemma HandleMessageWants(n: Node, source: nat, data: bytes, edits: seq<Edit>)
    ensures SameButBlocks(n.wants, HandleMessage(n, source, data, edits).wants)
  {
    hide Received, HasBlocks, AdjustAll;
    if Received(data).Some? { HasBlocksWants(n, Items(Received(data).value.payload)); }
  }

  /** A new session changes no flag, and comes from the step's own arguments. */
  lemma AddWantWants(ws: seq<Want>, cid: Cid, session: Session, i: nat)
    requires i < |ws|
    ensures var ws' := AddWant(ws, cid, session);
      && Untouched(ws, ws', i) && i < |ws'|
      && (Local in ws'[i].sessions ==> Local in ws[i].sessions || (session == Local && cid == ws[i].cid))
  {
    hide Find;
  }

  lemma SameWants(ws: seq<Want>, ws': seq<Want>, i: nat)
    requires SameButBlocks(ws, ws')
    ensures Untouched(ws, ws', i)
  {
  }

  lemma ProcessPeerWants(me: nat, n: Node, c: Contact)
    ensures ProcessPeer(me, n, c).0.wants == n.wants
  {
    hide AfterOutgoing, Outgoing, NeedToConnect;
  }

  /** What is true of every step but the node's own turn. */
  lemma OtherStep(truth: Truth, s: System, step: Step, me: nat, i: nat)
    requires Enabled(s, step) && me in s.nodes && i < |s.nodes[me].wants| && !(step.Turn? && step.me == me)
    ensures var n, n' := s.nodes[me], Apply(truth, s, step).nodes[me];
      && Untouched(n.wants, n'.wants, i) && i < |n'.wants|
      && (Local in n'.wants[i].sessions ==> Local in n.wants[i].sessions || step == Seek(me, n.wants[i].cid, Local))
  {
    hide WantTurn, ProcessPeer, HandleMessage, HasBlock, AddWant, Untouched;
    var n := s.nodes[me];
    SameWants(n.wants, n.wants, i);
    match step
    case Seek(_, cid, session) => AddWantWants(n.wants, cid, session, i);
    case Turn(_, _) =>
    case Serve(_, c) => ProcessPeerWants(me, n, c);
    case Deliver(k, edits) =>
      HandleMessageWants(n, s.net[k].source, s.net[k].data, edits);
      SameWants(n.wants, HandleMessage(n, s.net[k].source, s.net[k].data, edits).wants, i);
    case Store(_, cid) =>
      HasBlockWants(n, Blocks.Block(Some(cid), truth(cid.hash)));
      SameWants(n.wants, HasBlock(n, Blocks.Block(Some(cid), truth(cid.hash))).wants, i);
    case Recant(_, _, _, _) =>
  }

  lemma SpentStep(truth: Truth, s: System, step: Step, me: nat, i: nat)
    requires Enabled(s, step) && me in s.nodes && Spent(s.nodes[me], i)
    ensures var n' := Apply(truth, s, step).nodes[me];
      i < |n'.wants| && Untouched(s.nodes[me].wants, n'.wants, i) && (n'.wants[i].block.None? ==> Spent(n', i))
  {
    hide WantTurn, LaterPeers, Pop, Untouched;
    StepLater(truth, s, step);
    var n, n' := s.nodes[me], Apply(truth, s, step).nodes[me];
    OpenIsOpen(n, i);
    assert LaterNode(n, n');
    if step.Turn? && step.me == me {
      SpentTurn(me, n, step.providers, i);
    } else {
      OtherStep(truth, s, step, me, i);
      OpenStays(n, n', i);
      if n'.wants[i].block.None? { PopStays(n.wants, n'.wants, i); }
    }
  }

  lemma OpenIsOpen(n: Node, i: nat)
    requires Pop(n.wants) == i < |n.wants|
    ensures Open(n.wants[i])
  {
  }

  lemma ForeignStep(truth: Truth, s: System, step: Step, me: nat, i: nat)
    requires Enabled(s, step) && me in s.nodes && Foreign(s.nodes[me], i) && step != Seek(me, s.nodes[me].wants[i].cid, Local)
    ensures var n, n' := s.nodes[me], Apply(truth, s, step).nodes[me];
      && i < |n'.wants| && Untouched(n.wants, n'.wants, i) && n'.wants[i].cid == n.wants[i].cid
      && (n'.wants[i].block.None? && n.wants[i].cid.hash !in n'.store ==> Foreign(n', i) || Spent(n', i))
  {
    hide WantTurn, LaterPeers, Pop, Untouched;
    StepLater(truth, s, step);
    var n, n' := s.nodes[me], Apply(truth, s, step).nodes[me];
    OpenIsOpen(n, i);
    assert LaterNode(n, n');
    if step.Turn? && step.me == me {
      if Spent(n, i) {
        SpentTurn(me, n, step.providers, i);
      } else {
        ForeignTurn(me, n, step.providers, i);
        SameWants(n.wants, n.wants, i);
      }
    } else {
      OtherStep(truth, s, step, me, i);
      OpenStays(n, n', i);
      if n'.wants[i].block.None? { PopStays(n.wants, n'.wants, i); }
    }
  }

  lemma OpenStays(n: Node, n': Node, i: nat)
    requires i < |n.wants| && Open(n.wants[i]) && Untouched(n.wants, n'.wants, i)
    ensures i < |n'.wants| && !n'.wants[i].asked
  {
  }

  // ------------------------------------------------------------- whole runs

  lemma LastStep(truth: Truth, s: System, steps: seq<Step>, me: nat)
    requires IsRun(truth, s, steps) && steps != [] && me in s.nodes
    ensures var init, last := steps[..|steps| - 1], steps[|steps| - 1];
      && IsRun(truth, s, init) && Enabled(After(truth, s, init), last) && me in After(truth, s, init).nodes
      && After(truth, s, steps) == Apply(truth, After(truth, s, init), last) && me in After(truth, s, steps).nodes
      && LaterNode(After(truth, s, init).nodes[me], After(truth, s, steps).nodes[me])
  {
    hide Apply, Enabled, LaterNode;
    var init := steps[..|steps| - 1];
    RunLater(truth, s, init, 0);
    assert init[..0] == [];
    StepLater(truth, After(truth, s, init), steps[|steps| - 1]);
  }

  /** An entry that has been tried eleven times is never closed but by the arrival of
      its block, and until then no entry behind it is tried or asked for, whatever
      happens. */
  lemma {:induction false} SpentBlocks(truth: Truth, s: System, steps: seq<Step>, me: nat, i: nat)
    requires IsRun(truth, s, steps) && me in s.nodes && Spent(s.nodes[me], i)
    ensures me in After(truth, s, steps).nodes && i < |After(truth, s, steps).nodes[me].wants|
    ensures var n, n' := s.nodes[me], After(truth, s, steps).nodes[me];
      n'.wants[i].block.None? ==> Spent(n', i) && Untouched(n.wants, n'.wants, i)
  {
    hide Apply, Enabled, IsRun, After, Spent, Untouched, LaterPeers;
    if steps == [] {
      IsFirst(s.nodes[me], i);
      Start(truth, s, me, i);
    } else {
      var init, last := steps[..|steps| - 1], steps[|steps| - 1];
      LastStep(truth, s, steps, me);
      SpentBlocks(truth, s, init, me, i);
      var n, n1, n' := s.nodes[me], After(truth, s, init).nodes[me], After(truth, s, steps).nodes[me];
      if n'.wants[i].block.None? {
        SpentStep(truth, After(truth, s, init), last, me, i);
        UntouchedTwice(n.wants, n1.wants, n'.wants, i);
      }
    }
  }

  lemma Start(truth: Truth, s: System, me: nat, i: nat)
    requires me in s.nodes && Pop(s.nodes[me].wants) == i
    ensures After(truth, s, []) == s && i < |s.nodes[me].wants| && Untouched(s.nodes[me].wants, s.nodes[me].wants, i)
  {
  }

  /** An entry that only other peers want keeps the place likewise, until its block
      is in store or the node wants it itself. */
  lemma {:induction false} ForeignBlocks(truth: Truth, s: System, steps: seq<Step>, me: nat, i: nat)
    requires IsRun(truth, s, steps) && me in s.nodes && Foreign(s.nodes[me], i)
    requires forall step <- steps :: step != Seek(me, s.nodes[me].wants[i].cid, Local)
    ensures me in After(truth, s, steps).nodes && i < |After(truth, s, steps).nodes[me].wants|
    ensures var n, n' := s.nodes[me], After(truth, s, steps).nodes[me];
      && n'.wants[i].cid == n.wants[i].cid
      && (n'.wants[i].block.None? && n.wants[i].cid.hash !in n'.store ==>
            (Foreign(n', i) || Spent(n', i)) && Untouched(n.wants, n'.wants, i))
  {
    hide Apply, Enabled, IsRun, After, Spent, Foreign, Untouched, LaterPeers;
    if steps == [] {
      IsFirst(s.nodes[me], i);
      Start(truth, s, me, i);
    } else {
      var init, last := steps[..|steps| - 1], steps[|steps| - 1];
      assert last in steps && forall step <- init :: step in steps;
      IsFirst(s.nodes[me], i);
      LastStep(truth, s, steps, me);
      ForeignBlocks(truth, s, init, me, i);
      var n, n1, n' := s.nodes[me], After(truth, s, init).nodes[me], After(truth, s, steps).nodes[me];
      if n'.wants[i].block.None? && n.wants[i].cid.hash !in n'.store {
        assert n1.store.Keys <= n'.store.Keys;
        if Spent(n1, i) {
          SpentStep(truth, After(truth, s, init), last, me, i);
        } else {
          ForeignStep(truth, After(truth, s, init), last, me, i);
        }
        UntouchedTwice(n.wants, n1.wants, n'.wants, i);
      }
    }
  }

  lemma IsFirst(n: Node, i: nat)
    requires Foreign(n, i) || Spent(n, i)
    ensures Pop(n.wants) == i < |n.wants|
  {
  }

  // ------------------------------------------------------------- exactly

  /** A turn can take the first open entry out of the way exactly if it is neither
      spent nor foreign; otherwise no turn can, whatever the router finds. */
  lemma HeadBlocksExactly(me: nat, n: Node, i: nat)
    requires Pop(n.wants) == i < |n.wants|
    ensures (exists providers :: Pop(WantTurn(me, n, providers).0.wants) != i) <==> !(Spent(n, i) || Foreign(n, i))
  {
    hide WantTurn;
    if Spent(n, i) {
      forall providers ensures Pop(WantTurn(me, n, providers).0.wants) == i { SpentTurn(me, n, providers, i); }
    } else if Foreign(n, i) {
      forall providers ensures Pop(WantTurn(me, n, providers).0.wants) == i { ForeignTurn(me, n, providers, i); }
    } else {
      FreeTurn(me, n, i);
    }
  }

  /** Providers found, even none of them, close it, unless the block is in store. */
  lemma FreeTurn(me: nat, n: Node, i: nat)
    requires Pop(n.wants) == i < |n.wants| && !Spent(n, i) && !Foreign(n, i)
    ensures Pop(WantTurn(me, n, Some([])).0.wants) != i
  {
    hide Fill, LaterPeers;
    var w := n.wants[i];
    if Stored(n.store, w.cid).Some? {
      FillLater(SetWant(n, i, w.(block := Stored(n.store, w.cid))), w.sessions, Stored(n.store, w.cid).value);
    } else {
      AskKeepsWants(me, n, w.cid, []);
    }
  }

  // ------------------------------------------------------------- how it comes

  /** A node whose only wants are these. */
  predicate HasWants(s: System, me: nat, ws: seq<Want>) {
    me in s.nodes && s.nodes[me].wants == ws && s.nodes[me].store == map[]
  }

  function Failed(cid: Cid, k: nat): (w: Want) {
    Want(cid, [Local, Local], None, false, k)
  }

  function Tries(me: nat, k: nat): (steps: seq<Step>)
    ensures |steps| == k
  {
    if k == 0 then [] else Tries(me, k - 1) + [Turn(me, None)]
  }

  lemma OneTry(truth: Truth, s: System, me: nat, a: Cid, b: Cid, k: nat)
    requires HasWants(s, me, [Failed(a, k), Failed(b, 0)]) && k <= 10
    ensures Enabled(s, Turn(me, None)) && HasWants(Apply(truth, s, Turn(me, None)), me, [Failed(a, k + 1), Failed(b, 0)])
  {
    var ws := [Failed(a, k), Failed(b, 0)];
    FirstIsPopped(ws);
    assert ws[0 := Failed(a, k + 1)] == [Failed(a, k + 1), Failed(b, 0)];
  }

  lemma FirstIsPopped(ws: seq<Want>)
    requires ws != [] && Open(ws[0])
    ensures Pop(ws) == 0
  {
  }

  lemma {:induction false} ElevenTries(truth: Truth, s: System, me: nat, a: Cid, b: Cid, k: nat)
    requires HasWants(s, me, [Failed(a, 0), Failed(b, 0)]) && k <= 11
    ensures IsRun(truth, s, Tries(me, k)) && HasWants(After(truth, s, Tries(me, k)), me, [Failed(a, k), Failed(b, 0)])
  {
    hide HasWants, Apply, Enabled, IsRun, After;
    if k == 0 {
      NoSteps(truth, s);
    } else {
      ElevenTries(truth, s, me, a, b, k - 1);
      OneTry(truth, After(truth, s, Tries(me, k - 1)), me, a, b, k - 1);
      RunSnoc(truth, s, Tries(me, k - 1), Turn(me, None));
    }
  }

  lemma TwoSought(truth: Truth, s: System, me: nat, a: Cid, b: Cid)
    requires HasWants(s, me, []) && a != b && Cids.IsInt(a.version) && Cids.IsInt(b.version)
    ensures var s1 := Apply(truth, s, Seek(me, a, Local));
      && Enabled(s1, Seek(me, b, Local))
      && HasWants(Apply(truth, s1, Seek(me, b, Local)), me, [Failed(a, 0), Failed(b, 0)])
  {
    var one := [Failed(a, 0)];
    assert [] + [Failed(a, 0)] == one;
    assert one[..0] == [] && Find(one[..|one| - 1], b) == -1;
    assert Find(one, b) == -1;
    assert one + [Failed(b, 0)] == [Failed(a, 0), Failed(b, 0)];
  }

  /** A node without blocks seeks a and then b, and eleven times no provider of a is
      found: then a is spent and b waits behind it. */
  lemma SpentIsReached(truth: Truth, s: System, me: nat, a: Cid, b: Cid) returns (steps: seq<Step>)
    requires Init(truth, s) && me in s.nodes && s.nodes[me].store == map[]
    requires a != b && Cids.IsInt(a.version) && Cids.IsInt(b.version)
    ensures |steps| == 13 && IsRun(truth, s, steps) && me in After(truth, s, steps).nodes
    ensures var n := After(truth, s, steps).nodes[me];
      Spent(n, 0) && |n.wants| == 2 && n.wants[1].cid == b && Open(n.wants[1])
  {
    hide Apply, IsRun, After;
    TwoSought(truth, s, me, a, b);
    TwoSteps(truth, s, Seek(me, a, Local), Seek(me, b, Local));
    var two := [Seek(me, a, Local), Seek(me, b, Local)];
    var t := After(truth, s, two);
    ElevenTries(truth, t, me, a, b, 11);
    RunAppend(truth, s, two, Tries(me, 11));
    steps := two + Tries(me, 11);
    FirstIsSpent(After(truth, s, steps), me, a, b);
  }

  lemma FirstIsSpent(s: System, me: nat, a: Cid, b: Cid)
    requires HasWants(s, me, [Failed(a, 11), Failed(b, 0)])
    ensures Spent(s.nodes[me], 0) && Open(s.nodes[me].wants[1])
  {
    FirstIsPopped(s.nodes[me].wants);
  }

  // ------------------------------------------------------------- local sessions

  /** Who is not spent is wanted by the node itself. */
  ghost predicate AllLocal(ws: seq<Want>) {
    forall w <- ws :: w.attempts <= 10 ==> Local in w.sessions
  }

  /** As the repository calls it: every session that it adds is a local one. */
  ghost predicate SeeksLocally(steps: seq<Step>) {
    forall step <- steps :: step.Seek? ==> step.session == Local
  }

  lemma AddLocal(ws: seq<Want>, cid: Cid)
    requires AllLocal(ws)
    ensures AllLocal(AddWant(ws, cid, Local))
  {
    hide Find;
    var ws' := AddWant(ws, cid, Local);
    forall w <- ws' ensures w.attempts <= 10 ==> Local in w.sessions {
      var j :| 0 <= j < |ws'| && ws'[j] == w;
      if j < |ws| { assert ws[j] in ws; }
    }
  }

  lemma SetLocal(ws: seq<Want>, i: nat, w: Want)
    requires AllLocal(ws) && i < |ws| && (w.attempts <= 10 ==> ws[i].attempts <= 10 && w.sessions == ws[i].sessions)
    ensures AllLocal(ws[i := w])
  {
    var ws' := ws[i := w];
    forall x <- ws' ensures x.attempts <= 10 ==> Local in x.sessions {
      var j :| 0 <= j < |ws'| && ws'[j] == x;
      assert ws[j] in ws && ws[i] in ws;
    }
  }

  lemma BlocksKeepLocal(ws: seq<Want>, ws': seq<Want>)
    requires AllLocal(ws) && SameButBlocks(ws, ws')
    ensures AllLocal(ws')
  {
    forall x <- ws' ensures x.attempts <= 10 ==> Local in x.sessions {
      var j :| 0 <= j < |ws'| && ws'[j] == x;
      assert ws'[j].(block := None) == ws[j].(block := None);
      assert ws[j] in ws;
    }
  }

  lemma {:induction false} FillKeepsWants(n: Node, ss: seq<Session>, b: Block)
    ensures Fill(n, ss, b).wants == n.wants
  {
    if ss != [] { FillKeepsWants(n, ss[..|ss| - 1], b); }
  }

  lemma TurnKeepsLocal(me: nat, n: Node, providers: Option<seq<Contact>>)
    requires AllLocal(n.wants)
    ensures AllLocal(WantTurn(me, n, providers).0.wants)
  {
    hide AllLocal, Fill, AskProviders, DropSessions;
    var i := Pop(n.wants);
    if i != -1 {
      var w := n.wants[i];
      if w.attempts > 10 {
        SetLocal(n.wants, i, w.(sessions := DropSessions(w.sessions, 0)));
      } else if Stored(n.store, w.cid).Some? {
        var w' := w.(block := Stored(n.store, w.cid));
        SetLocal(n.wants, i, w');
        FillKeepsWants(SetWant(n, i, w'), w.sessions, Stored(n.store, w.cid).value);
      } else if Local in w.sessions {
        match providers
        case None => SetLocal(n.wants, i, w.(attempts := w.attempts + 1));
        case Some(cs) =>
          AskKeepsWants(me, n, w.cid, cs);
          SetLocal(n.wants, i, w.(asked := true));
      }
    }
  }

  lemma StepKeepsLocal(truth: Truth, s: System, step: Step, me: nat)
    requires Enabled(s, step) && me in s.nodes && AllLocal(s.nodes[me].wants) && (step.Seek? ==> step.session == Local)
    ensures AllLocal(Apply(truth, s, step).nodes[me].wants)
  {
    hide AllLocal, WantTurn, ProcessPeer, HandleMessage, HasBlock, AddWant, SameButBlocks;
    var n := s.nodes[me];
    match step
    case Seek(_, cid, _) => AddLocal(n.wants, cid);
    case Turn(_, providers) => TurnKeepsLocal(me, n, providers);
    case Serve(_, c) => ProcessPeerWants(me, n, c);
    case Deliver(k, edits) =>
      var p := s.net[k];
      HandleMessageWants(n, p.source, p.data, edits);
      BlocksKeepLocal(n.wants, HandleMessage(n, p.source, p.data, edits).wants);
    case Store(_, cid) =>
      var b := Blocks.Block(Some(cid), truth(cid.hash));
      HasBlockWants(n, b);
      BlocksKeepLocal(n.wants, HasBlock(n, b).wants);
    case Recant(_, _, _, _) =>
  }

  /** Where every session is a local one, only spent entries block: in no run is the
      next entry a foreign one that is not spent. */
  lemma {:induction false} ForeignIsSpent(truth: Truth, s: System, steps: seq<Step>, me: nat)
    requires Init(truth, s) && IsRun(truth, s, steps) && SeeksLocally(steps) && me in s.nodes
    ensures me in After(truth, s, steps).nodes && AllLocal(After(truth, s, steps).nodes[me].wants)
    ensures forall i :: Foreign(After(truth, s, steps).nodes[me], i) ==> Spent(After(truth, s, steps).nodes[me], i)
  {
    hide Apply, Enabled, IsRun, After, Init, LaterNode, AllLocal, Foreign, Spent;
    if steps == [] {
      NoSteps(truth, s);
      NoWants(truth, s, me);
    } else {
      var init, last := steps[..|steps| - 1], steps[|steps| - 1];
      assert last in steps && forall step <- init :: step in steps;
      LastStep(truth, s, steps, me);
      ForeignIsSpent(truth, s, init, me);
      StepKeepsLocal(truth, After(truth, s, init), last, me);
    }
    var n := After(truth, s, steps).nodes[me];
    forall i | Foreign(n, i) ensures Spent(n, i) { LocalIsNotForeign(n, i); }
  }

  lemma NoWants(truth: Truth, s: System, me: nat)
    requires Init(truth, s) && me in s.nodes
    ensures AllLocal(s.nodes[me].wants)
  {
  }

  lemma LocalIsNotForeign(n: Node, i: nat)
    requires AllLocal(n.wants) && Foreign(n, i)
    ensures Spent(n, i)
  {
    assert n.wants[i] in n.wants;
  }

  // ------------------------------------------------------------- asked in vain

  predicate Reached(c: Contact) {
    c.connected && c.written
  }

  lemma NewWantIsDue(r: Request, cid: Cid)
    ensures NeedToConnect(WantOf(r, cid))
  {
    var es := WantOf(r, cid).weWant;
    assert Due(es[|es| - 1]);
  }

  /** Asking writes nothing exactly if no provider is reached. */
  lemma {:induction false} AskWritesExactly(me: nat, n: Node, cid: Cid, cs: seq<Contact>)
    ensures AskProviders(me, n, cid, cs).1 == [] <==> forall c <- cs :: !Reached(c)
  {
    hide MessageBytes, Outgoing, AfterOutgoing, WantOf, NeedToConnect;
    if cs != [] {
      var init, c := cs[..|cs| - 1], cs[|cs| - 1];
      assert c in cs && forall x <- init :: x in cs;
      AskWritesExactly(me, n, cid, init);
      var n1 := AskProviders(me, n, cid, init).0;
      NewWantIsDue(PeerOf(n1, c.peer), cid);
      assert forall x <- cs :: x == c || x in init;
    }
  }

  /** A turn marks a want as asked for without having written anything exactly if the
      router finds providers and none of them is reached. */
  lemma AskedInVainExactly(me: nat, n: Node, providers: Option<seq<Contact>>, i: nat)
    requires Pop(n.wants) == i < |n.wants|
    ensures var (n', out) := WantTurn(me, n, providers);
      && i < |n'.wants|
      && (n'.wants[i].asked && out == [] <==>
          !Spent(n, i) && !Foreign(n, i) && n.wants[i].cid.hash !in n.store &&
          providers.Some? && forall c <- providers.value :: !Reached(c))
  {
    hide AskProviders, Fill, DropSessions, Reached;
    var w := n.wants[i];
    assert Open(w);
    if Stored(n.store, w.cid).Some? {
      FillKeepsWants(SetWant(n, i, w.(block := Stored(n.store, w.cid))), w.sessions, Stored(n.store, w.cid).value);
    }
    if providers.Some? {
      AskKeepsWants(me, n, w.cid, providers.value);
      AskWritesExactly(me, n, w.cid, providers.value);
    }
  }

  /** And then it is never tried again: sought, turned to once with no provider
      reached, nothing on the net, and never popped in any run from there. */
  lemma AskedInVain(truth: Truth, s: System, me: nat, cid: Cid, cs: seq<Contact>) returns (steps: seq<Step>)
    requires Init(truth, s) && me in s.nodes && s.nodes[me].store == map[] && Cids.IsInt(cid.version)
    requires forall c <- cs :: !Reached(c)
    ensures |steps| == 2 && IsRun(truth, s, steps) && me in After(truth, s, steps).nodes
    ensures var t := After(truth, s, steps);
      && t.net == [] && |t.nodes[me].wants| == 1 && t.nodes[me].wants[0].cid == cid && t.nodes[me].wants[0].block.None?
      && forall more :: IsRun(truth, t, more) ==>
           me in After(truth, t, more).nodes && Pop(After(truth, t, more).nodes[me].wants) != 0
  {
    hide IsRun, After, Reached, AskProviders;
    var first, second := Seek(me, cid, Local), Turn(me, Some(cs));
    var s1 := Apply(truth, s, first);
    var n := s1.nodes[me];
    assert [] + [Failed(cid, 0)] == [Failed(cid, 0)];
    assert n.wants == [Failed(cid, 0)];
    FirstIsPopped(n.wants);
    AskKeepsWants(me, n, cid, cs);
    AskedInVainExactly(me, n, Some(cs), 0);
    TwoSteps(truth, s, first, second);
    steps := [first, second];
    var t := After(truth, s, steps);
    assert t.nodes[me].wants[0].asked;
    hide Apply, WantTurn;
    forall more | IsRun(truth, t, more)
      ensures me in After(truth, t, more).nodes && Pop(After(truth, t, more).nodes[me].wants) != 0
    {
      StartsHere(truth, t, more);
      NeverPoppedAgain(truth, t, more, 0, me, 0);
    }
  }
}
