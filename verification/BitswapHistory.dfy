/** What whole runs of bitswap never undo and never repeat. */
module BitswapHistory {
  import opened Basics
  import opened Messages
  import opened Requests
  import opened Bitswap
  import opened BitswapSafety
  import Blocks
  import Cids

  // ------------------------------------------------------------- runs

  lemma RunSnoc(truth: Truth, s: System, steps: seq<Step>, step: Step)
    requires IsRun(truth, s, steps) && Enabled(After(truth, s, steps), step)
    ensures IsRun(truth, s, steps + [step]) && After(truth, s, steps + [step]) == Apply(truth, After(truth, s, steps), step)
  {
    hide Apply, Enabled;
    assert (steps + [step])[..|steps + [step]| - 1] == steps;
  }

  lemma RunLast(truth: Truth, s: System, steps: seq<Step>)
    requires IsRun(truth, s, steps) && steps != []
    ensures var init, last := steps[..|steps| - 1], steps[|steps| - 1];
      && IsRun(truth, s, init) && Enabled(After(truth, s, init), last)
      && After(truth, s, steps) == Apply(truth, After(truth, s, init), last)
  {
    hide Apply, Enabled;
  }

  lemma NoSteps(truth: Truth, s: System)
    ensures IsRun(truth, s, []) && After(truth, s, []) == s
  {
  }

  lemma {:induction false} RunAppend(truth: Truth, s: System, a: seq<Step>, b: seq<Step>)
    requires IsRun(truth, s, a) && IsRun(truth, After(truth, s, a), b)
    ensures IsRun(truth, s, a + b) && After(truth, s, a + b) == After(truth, After(truth, s, a), b)
  {
    hide Apply, Enabled, IsRun, After;
    if b == [] {
      assert a + b == a;
      NoSteps(truth, After(truth, s, a));
    } else {
      var init, last := b[..|b| - 1], b[|b| - 1];
      RunLast(truth, After(truth, s, a), b);
      RunAppend(truth, s, a, init);
      RunSnoc(truth, s, a + init, last);
      assert a + b == a + init + [last];
    }
  }

  lemma TwoSteps(truth: Truth, s: System, first: Step, second: Step)
    requires Enabled(s, first) && Enabled(Apply(truth, s, first), second)
    ensures IsRun(truth, s, [first, second]) && After(truth, s, [first, second]) == Apply(truth, Apply(truth, s, first), second)
  {
    hide Apply, Enabled, IsRun, After;
    NoSteps(truth, s);
    RunSnoc(truth, s, [], first);
    assert [] + [first] == [first];
    RunSnoc(truth, s, [first], second);
    assert [first] + [second] == [first, second];
  }

  // ------------------------------------------------------------- nothing is undone

  /** Entries we want stay, with their cids; what was sent and served stays so. */
  ghost predicate LaterRequest(r: Request, r': Request) {
    && |r.weWant| <= |r'.weWant|
    && (forall i :: 0 <= i < |r.weWant| ==>
          && r'.weWant[i].id == r.weWant[i].id && r'.weWant[i].cid == r.weWant[i].cid
          && (r.weWant[i].requestSent ==> r'.weWant[i].requestSent) && (r.weWant[i].cancelSent ==> r'.weWant[i].cancelSent))
    && r.sent <= r'.sent && r.served <= r'.served
  }

  /** Wants stay; what was filled stays filled and what was asked for stays asked. */
  ghost predicate LaterWants(ws: seq<Want>, ws': seq<Want>) {
    && |ws| <= |ws'|
    && (forall i :: 0 <= i < |ws| ==>
          && ws'[i].cid == ws[i].cid && ws[i].attempts <= ws'[i].attempts
          && (ws[i].asked ==> ws'[i].asked) && (ws[i].block.Some? ==> ws'[i].block.Some?))
  }

  ghost predicate LaterPeers(n: Node, n': Node) {
    forall p :: LaterRequest(PeerOf(n, p), PeerOf(n', p))
  }

  ghost predicate LaterNode(n: Node, n': Node) {
    n.store.Keys <= n'.store.Keys && LaterWants(n.wants, n'.wants) && LaterPeers(n, n')
  }

  ghost predicate Later(s: System, s': System) {
    && s.nodes.Keys == s'.nodes.Keys && s.net <= s'.net
    && (forall me <- s.nodes :: LaterNode(s.nodes[me], s'.nodes[me]))
  }

  lemma SetPeerLater(n: Node, p: nat, r: Request)
    requires LaterRequest(PeerOf(n, p), r)
    ensures LaterNode(n, SetPeer(n, p, r))
  {
  }

  lemma LaterPeersTwice(a: Node, b: Node, c: Node)
    requires LaterPeers(a, b) && LaterPeers(b, c)
    ensures LaterPeers(a, c)
  {
    hide PeerOf;
    forall p ensures LaterRequest(PeerOf(a, p), PeerOf(c, p)) {
      assert LaterRequest(PeerOf(a, p), PeerOf(b, p)) && LaterRequest(PeerOf(b, p), PeerOf(c, p));
    }
  }

  lemma LaterNodeTwice(a: Node, b: Node, c: Node)
    requires LaterNode(a, b) && LaterNode(b, c)
    ensures LaterNode(a, c)
  {
    hide LaterPeers;
    LaterPeersTwice(a, b, c);
  }

  lemma OutgoingLater(store: map<bytes, bytes>, r: Request)
    ensures LaterRequest(r, AfterOutgoing(store, r))
  {
    hide CancelAll, Answered, BlocksFor, ServedNow, SentNow;
  }

  lemma ProcessPeerLater(me: nat, n: Node, c: Contact)
    ensures LaterNode(n, ProcessPeer(me, n, c).0)
  {
    hide AfterOutgoing, Outgoing, NeedToConnect, LaterRequest;
    assert forall p :: LaterRequest(PeerOf(n, p), PeerOf(n, p)) by {
      forall p ensures LaterRequest(PeerOf(n, p), PeerOf(n, p)) { SameLater(PeerOf(n, p)); }
    }
    OutgoingLater(n.store, PeerOf(n, c.peer));
  }

  lemma SameLater(r: Request)
    ensures LaterRequest(r, r)
  {
  }

  lemma {:induction false} AskLater(me: nat, n: Node, cid: Cid, cs: seq<Contact>)
    ensures LaterNode(n, AskProviders(me, n, cid, cs).0)
  {
    hide LaterNode, LaterRequest, ProcessPeer, PeerOf;
    if cs == [] {
      SameNodeLater(n);
    } else {
      var c := cs[|cs| - 1];
      AskLater(me, n, cid, cs[..|cs| - 1]);
      var n1 := AskProviders(me, n, cid, cs[..|cs| - 1]).0;
      var n2 := SetPeer(n1, c.peer, WantOf(PeerOf(n1, c.peer), cid));
      WantOfLater(PeerOf(n1, c.peer), cid);
      SetPeerLater(n1, c.peer, WantOf(PeerOf(n1, c.peer), cid));
      ProcessPeerLater(me, n2, c);
      LaterNodeTwice(n, n1, n2);
      LaterNodeTwice(n, n2, ProcessPeer(me, n2, c).0);
    }
  }

  lemma SameNodeLater(n: Node)
    ensures LaterNode(n, n)
  {
  }

  lemma WantOfLater(r: Request, cid: Cid)
    ensures LaterRequest(r, WantOf(r, cid))
  {
  }

  lemma {:induction false} FillLater(n: Node, ss: seq<Session>, b: Block)
    ensures LaterNode(n, Fill(n, ss, b))
  {
    hide LaterNode, PeerOf;
    if ss == [] {
      SameNodeLater(n);
    } else {
      FillLater(n, ss[..|ss| - 1], b);
      var n1 := Fill(n, ss[..|ss| - 1], b);
      if ss[|ss| - 1].Remote? {
        var p := ss[|ss| - 1].peer;
        var r := PeerOf(n1, p).(toSend := PeerOf(n1, p).toSend + [b]);
        SetPeerLater(n1, p, r);
        LaterNodeTwice(n, n1, SetPeer(n1, p, r));
      }
    }
  }

  lemma SetWantLater(n: Node, i: nat, w: Want)
    requires i < |n.wants| && w.cid == n.wants[i].cid && n.wants[i].attempts <= w.attempts
    requires (n.wants[i].asked ==> w.asked) && (n.wants[i].block.Some? ==> w.block.Some?)
    ensures LaterNode(n, SetWant(n, i, w))
  {
    hide LaterRequest;
    forall p ensures LaterRequest(PeerOf(n, p), PeerOf(n, p)) { SameLater(PeerOf(n, p)); }
  }

  lemma WantTurnLater(me: nat, n: Node, providers: Option<seq<Contact>>)
    ensures LaterNode(n, WantTurn(me, n, providers).0)
  {
    hide LaterNode, Fill, AskProviders, SetWant, DropSessions;
    SameNodeLater(n);
    var i := Pop(n.wants);
    if i != -1 {
      var w := n.wants[i];
      if w.attempts > 10 {
        SetWantLater(n, i, w.(sessions := DropSessions(w.sessions, 0)));
      } else if Stored(n.store, w.cid).Some? {
        var n1 := SetWant(n, i, w.(block := Stored(n.store, w.cid)));
        SetWantLater(n, i, w.(block := Stored(n.store, w.cid)));
        FillLater(n1, w.sessions, Stored(n.store, w.cid).value);
        LaterNodeTwice(n, n1, Fill(n1, w.sessions, Stored(n.store, w.cid).value));
      } else if Local in w.sessions {
        match providers
        case None => SetWantLater(n, i, w.(attempts := w.attempts + 1));
        case Some(cs) =>
          AskKeepsWants(me, n, w.cid, cs);
          AskLater(me, n, w.cid, cs);
          var n1 := AskProviders(me, n, w.cid, cs).0;
          SetWantLater(n1, i, w.(asked := true));
          LaterNodeTwice(n, n1, SetWant(n1, i, w.(asked := true)));
      }
    }
  }

  lemma HasBlockLater(n: Node, b: Block)
    ensures LaterNode(n, HasBlock(n, b))
  {
    hide LaterRequest, Find;
    forall p ensures LaterRequest(PeerOf(n, p), PeerOf(n, p)) { SameLater(PeerOf(n, p)); }
  }

  lemma {:induction false} HasBlocksLater(n: Node, bs: seq<Block>)
    ensures LaterNode(n, HasBlocks(n, bs))
  {
    hide LaterNode, HasBlock;
    if bs == [] {
      SameNodeLater(n);
    } else {
      var n1 := HasBlocks(n, bs[..|bs| - 1]);
      HasBlocksLater(n, bs[..|bs| - 1]);
      HasBlockLater(n1, bs[|bs| - 1]);
      LaterNodeTwice(n, n1, HasBlock(n1, bs[|bs| - 1]));
    }
  }

  lemma {:induction false} AdjustAllLater(r: Request, es: seq<WantlistEntry>, edits: seq<Edit>, i: nat)
    requires i <= |es|
    ensures LaterRequest(r, AdjustAll(r, es, edits, i))
    decreases |es| - i
  {
    hide Cids.Decode;
    if i < |es| {
      match Cids.Decode(es[i].block)
      case Some(Some(cid)) =>
        if cid.hash != [] {
          AdjustAllLater(Adjust(r, cid, Chosen(r, es[i], if i < |edits| then edits[i] else Keep)), es, edits, i + 1);
        }
      case _ =>
    }
  }

  lemma HandleMessageLater(n: Node, source: nat, data: bytes, edits: seq<Edit>)
    ensures LaterNode(n, HandleMessage(n, source, data, edits))
  {
    hide LaterNode, HasBlocks, AdjustAll, Received, PeerOf;
    SameNodeLater(n);
    if Received(data).Some? {
      var m := Received(data).value;
      var n1, es := HasBlocks(n, Items(m.payload)), Wanted(m);
      HasBlocksLater(n, Items(m.payload));
      if es != [] {
        var r := AdjustAll(PeerOf(n1, source), es, edits, 0);
        AdjustAllLater(PeerOf(n1, source), es, edits, 0);
        SetPeerLater(n1, source, r);
        LaterNodeTwice(n, n1, SetPeer(n1, source, r));
      }
    }
  }

  lemma SeekLater(n: Node, cid: Cid, session: Session)
    ensures LaterNode(n, n.(wants := AddWant(n.wants, cid, session)))
  {
    hide LaterRequest, Find;
    forall p ensures LaterRequest(PeerOf(n, p), PeerOf(n, p)) { SameLater(PeerOf(n, p)); }
  }

  lemma StepLater(truth: Truth, s: System, step: Step)
    requires Enabled(s, step)
    ensures Later(s, Apply(truth, s, step))
  {
    hide LaterNode, WantTurn, ProcessPeer, HandleMessage, HasBlock, AddWant, PeerOf;
    forall me <- s.nodes ensures LaterNode(s.nodes[me], s.nodes[me]) { SameNodeLater(s.nodes[me]); }
    match step
    case Seek(me, cid, session) => SeekLater(s.nodes[me], cid, session);
    case Turn(me, providers) => WantTurnLater(me, s.nodes[me], providers);
    case Serve(me, c) => ProcessPeerLater(me, s.nodes[me], c);
    case Deliver(k, edits) => HandleMessageLater(s.nodes[s.net[k].to], s.net[k].source, s.net[k].data, edits);
    case Store(me, cid) => HasBlockLater(s.nodes[me], Blocks.Block(Some(cid), truth(cid.hash)));
    case Recant(me, p, i, cancel) =>
      var r := PeerOf(s.nodes[me], p);
      SetPeerLater(s.nodes[me], p, r.(weWant := r.weWant[i := r.weWant[i].(cancel := cancel)]));
  }

  lemma LaterTwice(a: System, b: System, c: System)
    requires Later(a, b) && Later(b, c)
    ensures Later(a, c)
  {
    hide LaterNode;
    forall me <- a.nodes ensures LaterNode(a.nodes[me], c.nodes[me]) {
      LaterNodeTwice(a.nodes[me], b.nodes[me], c.nodes[me]);
    }
  }

  lemma {:induction false} PrefixIsRun(truth: Truth, s: System, steps: seq<Step>, k: nat)
    requires IsRun(truth, s, steps) && k <= |steps|
    ensures IsRun(truth, s, steps[..k])
  {
    if k < |steps| {
      PrefixIsRun(truth, s, steps[..|steps| - 1], k);
      assert steps[..|steps| - 1][..k] == steps[..k];
    } else {
      assert steps[..k] == steps;
    }
  }

  /** Between any two moments of a run. */
  lemma {:induction false} RunLater(truth: Truth, s: System, steps: seq<Step>, k: nat)
    requires IsRun(truth, s, steps) && k <= |steps|
    ensures IsRun(truth, s, steps[..k]) && Later(After(truth, s, steps[..k]), After(truth, s, steps))
  {
    hide Later, Apply, Enabled;
    PrefixIsRun(truth, s, steps, k);
    if k == |steps| {
      assert steps[..k] == steps;
      SameSystemLater(After(truth, s, steps));
    } else {
      var init := steps[..|steps| - 1];
      assert init[..k] == steps[..k];
      RunLater(truth, s, init, k);
      StepLater(truth, After(truth, s, init), steps[|steps| - 1]);
      LaterTwice(After(truth, s, steps[..k]), After(truth, s, init), After(truth, s, steps));
    }
  }

  lemma SameSystemLater(s: System)
    ensures Later(s, s)
  {
    hide LaterNode;
    forall me <- s.nodes ensures LaterNode(s.nodes[me], s.nodes[me]) { SameNodeLater(s.nodes[me]); }
  }

  /** A want that was filled or asked for at some moment is never taken up again. */
  lemma NeverPoppedAgain(truth: Truth, s: System, steps: seq<Step>, k: nat, me: nat, i: nat)
    requires IsRun(truth, s, steps) && k <= |steps| && IsRun(truth, s, steps[..k]) && me in s.nodes
    requires me in After(truth, s, steps[..k]).nodes && i < |After(truth, s, steps[..k]).nodes[me].wants|
    requires !Open(After(truth, s, steps[..k]).nodes[me].wants[i])
    ensures me in After(truth, s, steps).nodes && Pop(After(truth, s, steps).nodes[me].wants) != i
  {
    hide Apply, Enabled, LaterPeers;
    RunLater(truth, s, steps, k);
    assert LaterNode(After(truth, s, steps[..k]).nodes[me], After(truth, s, steps).nodes[me]);
  }

  // ------------------------------------------------------------- what is received is kept

  /** A block that arrives is in store under its hash, the first entry of its cid is
      filled with it, and nothing else changes. */
  lemma HasBlockKeeps(n: Node, b: Block)
    requires b.cid.Some?
    ensures var n', h := HasBlock(n, b), b.cid.value.hash;
      && h in n'.store && n'.store[h] == b.data
      && (forall k :: k != h ==> (k in n'.store <==> k in n.store) && (k in n.store ==> n'.store[k] == n.store[k]))
      && n'.peers == n.peers && |n'.wants| == |n.wants|
      && forall i :: 0 <= i < |n.wants| ==>
           n'.wants[i] == if n.wants[i].cid == b.cid.value && (forall j :: 0 <= j < i ==> n.wants[j].cid != b.cid.value)
                          then n.wants[i].(block := Some(b)) else n.wants[i]
  {
  }

  lemma {:induction false} HasBlocksKeeps(n: Node, bs: seq<Block>, b: Block)
    requires b in bs && b.cid.Some?
    ensures b.cid.value.hash in HasBlocks(n, bs).store
  {
    hide HasBlock, LaterNode;
    var n1, last := HasBlocks(n, bs[..|bs| - 1]), bs[|bs| - 1];
    if b == last {
      HasBlockKeeps(n1, last);
    } else {
      HasBlocksKeeps(n, bs[..|bs| - 1], b);
      HasBlockLater(n1, last);
      LaterStore(n1, HasBlock(n1, last));
    }
  }

  lemma LaterStore(n: Node, n': Node)
    requires LaterNode(n, n')
    ensures n.store.Keys <= n'.store.Keys
  {
  }

  /** Every payload block of a message, if it has a cid, is in the receiver's store. */
  lemma PayloadIsKept(n: Node, source: nat, data: bytes, edits: seq<Edit>, b: Block)
    requires Received(data).Some? && b in Items(Received(data).value.payload) && b.cid.Some?
    ensures b.cid.value.hash in HandleMessage(n, source, data, edits).store
  {
    hide Received, HasBlocks, AdjustAll;
    HasBlocksKeeps(n, Items(Received(data).value.payload), b);
  }

  ghost predicate FilledIsKept(n: Node) {
    forall i :: 0 <= i < |n.wants| && n.wants[i].block.Some? ==> n.wants[i].cid.hash in n.store
  }

  /** Filled entries keep their blocks while the store grows. */
  lemma KeptLater(n: Node, n': Node)
    requires FilledIsKept(n) && LaterNode(n, n') && |n'.wants| >= |n.wants|
    requires forall i :: 0 <= i < |n'.wants| && n'.wants[i].block.Some? ==>
      (i < |n.wants| && n.wants[i].block.Some?) || n'.wants[i].cid.hash in n'.store
    ensures FilledIsKept(n')
  {
    hide LaterPeers;
  }

  lemma {:induction false} FillKeepsRest(n: Node, ss: seq<Session>, b: Block)
    ensures Fill(n, ss, b).wants == n.wants && Fill(n, ss, b).store == n.store
  {
    if ss != [] { FillKeepsRest(n, ss[..|ss| - 1], b); }
  }

  lemma TurnKeeps(me: nat, n: Node, providers: Option<seq<Contact>>)
    requires FilledIsKept(n)
    ensures FilledIsKept(WantTurn(me, n, providers).0)
  {
    hide LaterNode, Fill, AskProviders, DropSessions;
    WantTurnLater(me, n, providers);
    var i := Pop(n.wants);
    if i != -1 {
      var w := n.wants[i];
      if Stored(n.store, w.cid).Some? {
        FillKeepsRest(SetWant(n, i, w.(block := Stored(n.store, w.cid))), w.sessions, Stored(n.store, w.cid).value);
      }
      if providers.Some? { AskKeepsWants(me, n, w.cid, providers.value); }
    }
  }

  lemma HasBlockKeepsFilled(n: Node, b: Block)
    requires FilledIsKept(n)
    ensures FilledIsKept(HasBlock(n, b))
  {
    hide Find;
  }

  lemma {:induction false} HasBlocksKeepFilled(n: Node, bs: seq<Block>)
    requires FilledIsKept(n)
    ensures FilledIsKept(HasBlocks(n, bs))
  {
    hide FilledIsKept, HasBlock;
    if bs != [] {
      HasBlocksKeepFilled(n, bs[..|bs| - 1]);
      HasBlockKeepsFilled(HasBlocks(n, bs[..|bs| - 1]), bs[|bs| - 1]);
    }
  }

  lemma MessageKeepsFilled(n: Node, source: nat, data: bytes, edits: seq<Edit>)
    requires FilledIsKept(n)
    ensures FilledIsKept(HandleMessage(n, source, data, edits))
  {
    hide Received, HasBlocks, AdjustAll;
    if Received(data).Some? { HasBlocksKeepFilled(n, Items(Received(data).value.payload)); }
  }

  lemma SeekKeepsFilled(n: Node, cid: Cid, session: Session)
    requires FilledIsKept(n)
    ensures FilledIsKept(n.(wants := AddWant(n.wants, cid, session)))
  {
    hide Find;
  }

  lemma PeerKeepsFilled(me: nat, n: Node, c: Contact)
    requires FilledIsKept(n)
    ensures FilledIsKept(ProcessPeer(me, n, c).0)
  {
    hide AfterOutgoing, Outgoing, NeedToConnect;
  }

  lemma StepKeepsFilled(truth: Truth, s: System, step: Step, me: nat)
    requires Enabled(s, step) && me in s.nodes && FilledIsKept(s.nodes[me])
    ensures me in Apply(truth, s, step).nodes && FilledIsKept(Apply(truth, s, step).nodes[me])
  {
    hide WantTurn, ProcessPeer, HandleMessage, HasBlock, AddWant;
    var n := s.nodes[me];
    match step
    case Seek(_, cid, session) => SeekKeepsFilled(n, cid, session);
    case Turn(_, providers) => TurnKeeps(me, n, providers);
    case Serve(_, c) => PeerKeepsFilled(me, n, c);
    case Deliver(k, edits) => MessageKeepsFilled(n, s.net[k].source, s.net[k].data, edits);
    case Store(_, cid) => HasBlockKeepsFilled(n, Blocks.Block(Some(cid), truth(cid.hash)));
    case Recant(_, _, _, _) =>
  }

  /** In every state of every run, the block of a filled entry is in the node's store,
      with the data that its hash stands for. */
  lemma {:induction false} EveryFilledIsKept(truth: Truth, s: System, steps: seq<Step>, me: nat)
    requires Init(truth, s) && IsRun(truth, s, steps) && me in s.nodes
    ensures me in After(truth, s, steps).nodes && FilledIsKept(After(truth, s, steps).nodes[me])
  {
    hide Apply, Enabled;
    if steps != [] {
      EveryFilledIsKept(truth, s, steps[..|steps| - 1], me);
      StepKeepsFilled(truth, After(truth, s, steps[..|steps| - 1]), steps[|steps| - 1], me);
    }
  }

  // ------------------------------------------------------------- what steps leave behind

  lemma StepAt(truth: Truth, s: System, steps: seq<Step>, k: nat)
    requires IsRun(truth, s, steps) && k < |steps|
    ensures IsRun(truth, s, steps[..k]) && IsRun(truth, s, steps[..k + 1])
    ensures Enabled(After(truth, s, steps[..k]), steps[k])
    ensures After(truth, s, steps[..k + 1]) == Apply(truth, After(truth, s, steps[..k]), steps[k])
  {
    hide Apply, Enabled;
    PrefixIsRun(truth, s, steps, k + 1);
    PrefixIsRun(truth, s, steps, k);
    var upTo := steps[..k + 1];
    assert upTo[..|upTo| - 1] == steps[..k];
  }

  /** The node whose step it is. */
  function Actor(s: System, step: Step): (me: nat)
    requires Enabled(s, step)
  {
    match step case Deliver(k, _) => s.net[k].to case other => other.me
  }

  lemma OthersStay(truth: Truth, s: System, step: Step)
    requires Enabled(s, step)
    ensures var s' := Apply(truth, s, step);
      && Actor(s, step) in s.nodes && s'.nodes.Keys == s.nodes.Keys && s.net <= s'.net
      && forall m <- s.nodes :: m != Actor(s, step) ==> s'.nodes[m] == s.nodes[m]
  {
    hide WantTurn, ProcessPeer, HandleMessage, HasBlock, AddWant, PeerOf;
  }

  /** What has been stored stays in store, what has been sought stays in the wantlist,
      and what a delivered message carried stays in store, whatever else happens. */
  ghost predicate Left(truth: Truth, s: System, step: Step, s': System)
    requires Enabled(s, step)
  {
    && Actor(s, step) in s'.nodes
    && var n := s'.nodes[Actor(s, step)];
       match step
       case Store(_, cid) => cid.hash in n.store && n.store[cid.hash] == truth(cid.hash)
       case Seek(_, cid, _) => exists w <- n.wants :: w.cid == cid
       case Deliver(k, _) =>
         Received(s.net[k].data).Some? ==>
           forall b <- Items(Received(s.net[k].data).value.payload) :: b.cid.Some? && b.cid.value.hash in n.store
             && n.store[b.cid.value.hash] == b.data
       case _ => true
  }

  lemma StepLeaves(truth: Truth, s: System, step: Step, s': System)
    requires Enabled(s, step) && Good(truth, s) && Good(truth, s') && Later(Apply(truth, s, step), s')
    ensures Left(truth, s, step, s')
  {
    hide WantTurn, ProcessPeer, HandleMessage, HasBlock, AddWant, PeerOf, Received;
    var me := Actor(s, step);
    OthersStay(truth, s, step);
    assert LaterNode(Apply(truth, s, step).nodes[me], s'.nodes[me]) && GoodNode(truth, s'.nodes[me]);
    match step
    case Store(_, cid) => HasBlockKeeps(s.nodes[me], Blocks.Block(Some(cid), truth(cid.hash)));
    case Seek(_, cid, session) => SoughtIsListed(s.nodes[me].wants, s'.nodes[me].wants, cid, session);
    case Deliver(k, edits) =>
      var p := s.net[k];
      assert GoodPacket(truth, p);
      if Received(p.data).Some? {
        forall b <- Items(Received(p.data).value.payload)
          ensures b.cid.Some? && b.cid.value.hash in s'.nodes[me].store && s'.nodes[me].store[b.cid.value.hash] == b.data
        {
          PayloadIsKept(s.nodes[me], p.source, p.data, edits, b);
        }
      }
    case _ =>
  }

  lemma SoughtIsListed(ws: seq<Want>, ws': seq<Want>, cid: Cid, session: Session)
    requires LaterWants(AddWant(ws, cid, session), ws')
    ensures exists w <- ws' :: w.cid == cid
  {
    var i := if Find(ws, cid) == -1 then |ws| else Find(ws, cid);
    assert AddWant(ws, cid, session)[i].cid == cid;
    assert ws'[i] in ws';
  }

  lemma DoneStaysDone(truth: Truth, s: System, steps: seq<Step>, k: nat)
    requires Init(truth, s) && IsRun(truth, s, steps) && k < |steps|
    ensures IsRun(truth, s, steps[..k]) && Enabled(After(truth, s, steps[..k]), steps[k])
    ensures Left(truth, After(truth, s, steps[..k]), steps[k], After(truth, s, steps))
  {
    hide Left, Later, Good, Apply, Enabled, IsRun, After;
    StepAt(truth, s, steps, k);
    EveryRunIsGood(truth, s, steps[..k]);
    EveryRunIsGood(truth, s, steps);
    RunLater(truth, s, steps, k + 1);
    StepLeaves(truth, After(truth, s, steps[..k]), steps[k], After(truth, s, steps));
  }

  // ------------------------------------------------------------- nothing is repeated

  /** The wantlist entries in all that `me` has written to `p`. */
  function OnTheWire(net: seq<Packet>, me: nat, p: nat): (r: seq<WantlistEntry>) {
    if net == [] then []
    else OnTheWire(net[..|net| - 1], me, p) + WantsIn(net[|net| - 1], me, p)
  }

  function WantsIn(packet: Packet, me: nat, p: nat): (r: seq<WantlistEntry>) {
    if packet.source == me && packet.to == p && Received(packet.data).Some?
    then Wanted(Received(packet.data).value) else []
  }

  /** The item on the wire says of the entry with this id that we want it, or that
      we no longer do. */
  ghost predicate Said(r: Request, item: WantlistEntry, s: Sent) {
    exists e <- r.weWant :: e.id == s.id && item == WantlistEntry(Cids.CidBytes(Some(e.cid)), if s.cancel then 1 else 0, 1)
  }

  /** The items come, in order, from the places `at` of the history. */
  ghost predicate FoundAt(r: Request, items: seq<WantlistEntry>, at: seq<nat>) {
    && |at| == |items|
    && (forall i, j :: 0 <= i < j < |at| ==> at[i] < at[j])
    && (forall i :: 0 <= i < |at| ==> at[i] < |r.sent| && Said(r, items[i], r.sent[at[i]]))
  }

  ghost predicate Logged(r: Request, items: seq<WantlistEntry>) {
    exists at :: FoundAt(r, items, at)
  }

  lemma SaidLater(r: Request, r': Request, item: WantlistEntry, s: Sent)
    requires Said(r, item, s) && LaterRequest(r, r')
    ensures Said(r', item, s)
  {
    var e :| e in r.weWant && e.id == s.id && item == WantlistEntry(Cids.CidBytes(Some(e.cid)), if s.cancel then 1 else 0, 1);
    var i :| 0 <= i < |r.weWant| && r.weWant[i] == e;
    assert r'.weWant[i] in r'.weWant;
  }

  lemma LoggedLater(r: Request, r': Request, items: seq<WantlistEntry>)
    requires Logged(r, items) && LaterRequest(r, r')
    ensures Logged(r', items)
  {
    hide Said;
    var at :| FoundAt(r, items, at);
    forall i | 0 <= i < |at| ensures at[i] < |r'.sent| && Said(r', items[i], r'.sent[at[i]]) {
      SaidLater(r, r', items[i], r.sent[at[i]]);
    }
    assert FoundAt(r', items, at);
  }

  /** The items of a message are those that its history entries stand for. */
  lemma {:induction false} ItemsAreSaid(r: Request, es: seq<CidEntry>)
    requires forall e <- es :: e in r.weWant
    ensures |WantItems(es)| == |SentNow(es)|
    ensures forall i :: 0 <= i < |WantItems(es)| ==> Said(r, WantItems(es)[i], SentNow(es)[i])
  {
    hide Cids.CidBytes;
    if es != [] {
      assert es[|es| - 1] in es && forall e <- es[..|es| - 1] :: e in es;
      ItemsAreSaid(r, es[..|es| - 1]);
    }
  }

  lemma OutgoingIsLogged(store: map<bytes, bytes>, r: Request, items: seq<WantlistEntry>)
    requires Logged(r, items)
    ensures Logged(AfterOutgoing(store, r), items + WantItems(r.weWant))
  {
    hide Said, WantItems, SentNow, Marked, Answered, CancelAll, BlocksFor, ServedNow, LaterRequest;
    var r' := AfterOutgoing(store, r);
    OutgoingLater(store, r);
    var at: seq<nat> :| FoundAt(r, items, at);
    ItemsAreSaid(r, r.weWant);
    var more: seq<nat> := seq(|WantItems(r.weWant)|, (i: nat) => |r.sent| + i);
    forall i | 0 <= i < |at + more|
      ensures (at + more)[i] < |r'.sent| && Said(r', (items + WantItems(r.weWant))[i], r'.sent[(at + more)[i]])
    {
      if i < |at| {
        SaidLater(r, r', items[i], r.sent[at[i]]);
      } else {
        SaidLater(r, r', WantItems(r.weWant)[i - |at|], SentNow(r.weWant)[i - |at|]);
      }
    }
    assert FoundAt(r', items + WantItems(r.weWant), at + more);
  }

  /** Four levels of encoding and decoding away, the wantlist that is read is the
      one that was written. */
  lemma OutgoingIsRead(truth: Truth, me: nat, to: nat, store: map<bytes, bytes>, r: Request)
    requires Agrees(truth, store) && GoodRequest(truth, r)
    ensures WantsIn(Packet(me, to, HEADER + MessageBytes(Outgoing(store, r))), me, to) == WantItems(r.weWant)
  {
    hide MessageBytes, Received, Outgoing, Normal, Wanted, WantItems, GoodRequest, Agrees;
    OutgoingIsReceived(truth, store, r);
  }

  lemma DueIsSaid(es: seq<CidEntry>, i: nat)
    requires i < |es| && Due(es[i])
    ensures ItemOf(es[i]) in WantItems(es)
  {
    hide Due, Cids.CidBytes;
    var at := ItemsInOrder(es);
    var k :| 0 <= k < |at| && at[k] == i;
    assert WantItems(es)[k] == ItemOf(es[i]);
  }

  /** A want that is taken back is told to the peer as a cancel in the next message
      that is written to it. */
  lemma CancelIsTold(truth: Truth, s: System, me: nat, p: nat, i: nat)
    requires Good(truth, s) && me in s.nodes && i < |PeerOf(s.nodes[me], p).weWant|
    requires !PeerOf(s.nodes[me], p).weWant[i].cancelSent
    ensures Enabled(s, Recant(me, p, i, true))
    ensures var s1 := Apply(truth, s, Recant(me, p, i, true));
      && Enabled(s1, Serve(me, Contact(p, true, true)))
      && var net := Apply(truth, s1, Serve(me, Contact(p, true, true))).net;
         && |net| == |s.net| + 1
         && WantlistEntry(Cids.CidBytes(Some(PeerOf(s.nodes[me], p).weWant[i].cid)), 1, 1) in WantsIn(net[|s.net|], me, p)
  {
    hide Cids.CidBytes, MessageBytes, Received, Outgoing, AfterOutgoing, WantItems, GoodRequest, Agrees, WantsIn;
    var s1 := Apply(truth, s, Recant(me, p, i, true));
    StepIsGood(truth, s, Recant(me, p, i, true));
    var n := s1.nodes[me];
    var r := PeerOf(n, p);
    assert GoodNode(truth, n);
    assert Due(r.weWant[i]) && r.weWant[i].cancel;
    DueIsSaid(r.weWant, i);
    OutgoingIsRead(truth, me, p, n.store, r);
  }

  ghost predicate Told(n: Node, me: nat, net: seq<Packet>) {
    forall p :: Logged(PeerOf(n, p), OnTheWire(net, me, p))
  }

  lemma ToldLater(n: Node, n': Node, me: nat, net: seq<Packet>)
    requires Told(n, me, net) && LaterNode(n, n')
    ensures Told(n', me, net)
  {
    hide Logged, LaterRequest, PeerOf, OnTheWire;
    forall p ensures Logged(PeerOf(n', p), OnTheWire(net, me, p)) {
      assert LaterRequest(PeerOf(n, p), PeerOf(n', p));
      LoggedLater(PeerOf(n, p), PeerOf(n', p), OnTheWire(net, me, p));
    }
  }

  lemma WireOne(net: seq<Packet>, packet: Packet, me: nat, p: nat)
    ensures OnTheWire(net + [packet], me, p) == OnTheWire(net, me, p) + WantsIn(packet, me, p)
  {
    assert (net + [packet])[..|net|] == net;
  }

  lemma ProcessPeerTold(truth: Truth, me: nat, n: Node, c: Contact, net: seq<Packet>)
    requires GoodNode(truth, n) && Told(n, me, net)
    ensures Told(ProcessPeer(me, n, c).0, me, net + ProcessPeer(me, n, c).1)
  {
    hide GoodRequest, GoodWants, Agrees, Logged, OnTheWire, WantsIn, AfterOutgoing, Outgoing, NeedToConnect, MessageBytes;
    ProcessPeerLater(me, n, c);
    var (n', out) := ProcessPeer(me, n, c);
    ToldLater(n, n', me, net);
    if out == [] {
      assert net + out == net;
    } else {
      var r := PeerOf(n, c.peer);
      PeerIsGood(truth, n, c.peer);
      OutgoingIsRead(truth, me, c.peer, n.store, r);
      OutgoingIsLogged(n.store, r, OnTheWire(net, me, c.peer));
      forall p ensures Logged(PeerOf(n', p), OnTheWire(net + out, me, p)) {
        WireOne(net, out[0], me, p);
        if p != c.peer {
          OtherPeer(out[0], me, p);
          assert OnTheWire(net, me, p) + [] == OnTheWire(net, me, p);
        }
      }
    }
  }

  lemma OtherPeer(packet: Packet, me: nat, p: nat)
    ensures packet.source != me || packet.to != p ==> WantsIn(packet, me, p) == []
  {
  }

  lemma {:induction false} AskTold(truth: Truth, me: nat, n: Node, cid: Cid, cs: seq<Contact>, net: seq<Packet>)
    requires GoodNode(truth, n) && Told(n, me, net) && Cids.IsInt(cid.version)
    ensures Told(AskProviders(me, n, cid, cs).0, me, net + AskProviders(me, n, cid, cs).1)
  {
    hide GoodNode, GoodRequest, Told, Cids.IsInt, ProcessPeer, WantOf, PeerOf, LaterNode;
    if cs == [] {
      assert net + [] == net;
    } else {
      var c := cs[|cs| - 1];
      AskTold(truth, me, n, cid, cs[..|cs| - 1], net);
      AskIsGood(truth, me, n, cid, cs[..|cs| - 1]);
      var (n1, out1) := AskProviders(me, n, cid, cs[..|cs| - 1]);
      var r := WantOf(PeerOf(n1, c.peer), cid);
      var n2 := SetPeer(n1, c.peer, r);
      GoodParts(truth, n1);
      PeerIsGood(truth, n1, c.peer);
      WantOfIsGood(truth, PeerOf(n1, c.peer), cid);
      SetPeerIsGood(truth, n1, c.peer, r);
      WantOfLater(PeerOf(n1, c.peer), cid);
      SetPeerLater(n1, c.peer, r);
      ToldLater(n1, n2, me, net + out1);
      ProcessPeerTold(truth, me, n2, c, net + out1);
      assert net + out1 + ProcessPeer(me, n2, c).1 == net + (out1 + ProcessPeer(me, n2, c).1);
    }
  }

  lemma GoodParts(truth: Truth, n: Node)
    requires GoodNode(truth, n)
    ensures GoodPeers(truth, n.peers)
  {
  }

  lemma WantTurnTold(truth: Truth, me: nat, n: Node, providers: Option<seq<Contact>>, net: seq<Packet>)
    requires GoodNode(truth, n) && Told(n, me, net)
    ensures Told(WantTurn(me, n, providers).0, me, net + WantTurn(me, n, providers).1)
  {
    hide GoodPeers, Agrees, Told, LaterNode, AskProviders, SetWant, Fill, DropSessions, Cids.IsInt;
    var i := Pop(n.wants);
    var (n', out) := WantTurn(me, n, providers);
    if out == [] {
      assert net + out == net;
      WantTurnLater(me, n, providers);
      ToldLater(n, n', me, net);
    } else {
      var w := n.wants[i];
      assert w in n.wants;
      AskTold(truth, me, n, w.cid, providers.value, net);
      AskKeepsWants(me, n, w.cid, providers.value);
      var n1 := AskProviders(me, n, w.cid, providers.value).0;
      SetWantLater(n1, i, w.(asked := true));
      ToldLater(n1, n', me, net + out);
    }
  }

  // ------------------------------------------------------------- every run

  ghost predicate AllTold(s: System) {
    forall me <- s.nodes :: Told(s.nodes[me], me, s.net)
  }

  ghost predicate From(out: seq<Packet>, me: nat) {
    forall packet <- out :: packet.source == me
  }

  /** What others write is not what we write. */
  lemma {:induction false} WireOthers(net: seq<Packet>, out: seq<Packet>, me: nat, other: nat, p: nat)
    requires From(out, me) && other != me
    ensures OnTheWire(net + out, other, p) == OnTheWire(net, other, p)
  {
    hide WantsIn;
    if out == [] {
      assert net + out == net;
    } else {
      assert out[|out| - 1] in out && forall x <- out[..|out| - 1] :: x in out;
      WireOthers(net, out[..|out| - 1], me, other, p);
      assert net + out == net + out[..|out| - 1] + [out[|out| - 1]];
      WireOne(net + out[..|out| - 1], out[|out| - 1], other, p);
      OtherPeer(out[|out| - 1], other, p);
    }
  }

  lemma UpdateTold(s: System, me: nat, r: (Node, seq<Packet>))
    requires AllTold(s) && me in s.nodes && Told(r.0, me, s.net + r.1) && From(r.1, me)
    ensures AllTold(Update(s, me, r))
  {
    hide Logged, OnTheWire, PeerOf;
    forall other <- s.nodes ensures other != me ==> Told(s.nodes[other], other, s.net + r.1) {
      if other != me {
        assert Told(s.nodes[other], other, s.net);
        forall p ensures Logged(PeerOf(s.nodes[other], p), OnTheWire(s.net + r.1, other, p)) {
          WireOthers(s.net, r.1, me, other, p);
        }
      }
    }
  }

  lemma {:induction false} AskFrom(me: nat, n: Node, cid: Cid, cs: seq<Contact>)
    ensures From(AskProviders(me, n, cid, cs).1, me)
  {
    hide MessageBytes, Outgoing, AfterOutgoing, WantOf, NeedToConnect;
    if cs != [] { AskFrom(me, n, cid, cs[..|cs| - 1]); }
  }

  lemma QuietTold(truth: Truth, s: System, me: nat, n: Node)
    requires AllTold(s) && me in s.nodes && LaterNode(s.nodes[me], n)
    ensures AllTold(Update(s, me, (n, [])))
  {
    hide Told, LaterNode;
    ToldLater(s.nodes[me], n, me, s.net);
    assert s.net + [] == s.net;
    UpdateTold(s, me, (n, []));
  }

  lemma StepTold(truth: Truth, s: System, step: Step)
    requires Good(truth, s) && AllTold(s) && Enabled(s, step)
    ensures AllTold(Apply(truth, s, step))
  {
    hide GoodNode, AllTold, Told, LaterNode, LaterRequest, ProcessPeer, HandleMessage, HasBlock, AddWant, PeerOf, SetWant, Fill, DropSessions, AskProviders, SetPeer;
    assert forall me <- s.nodes :: Told(s.nodes[me], me, s.net) by { ToldAll(s); }
    match step
    case Seek(me, cid, session) =>
      SeekLater(s.nodes[me], cid, session);
      QuietTold(truth, s, me, s.nodes[me].(wants := AddWant(s.nodes[me].wants, cid, session)));
    case Turn(me, providers) =>
      WantTurnTold(truth, me, s.nodes[me], providers, s.net);
      TurnFrom(me, s.nodes[me], providers);
      UpdateTold(s, me, WantTurn(me, s.nodes[me], providers));
    case Serve(me, c) =>
      ProcessPeerTold(truth, me, s.nodes[me], c, s.net);
      PeerFrom(me, s.nodes[me], c);
      UpdateTold(s, me, ProcessPeer(me, s.nodes[me], c));
    case Deliver(k, edits) =>
      var p := s.net[k];
      HandleMessageLater(s.nodes[p.to], p.source, p.data, edits);
      QuietTold(truth, s, p.to, HandleMessage(s.nodes[p.to], p.source, p.data, edits));
    case Store(me, cid) =>
      var b := Blocks.Block(Some(cid), truth(cid.hash));
      HasBlockLater(s.nodes[me], b);
      QuietTold(truth, s, me, HasBlock(s.nodes[me], b));
    case Recant(me, p, i, cancel) =>
      var r := PeerOf(s.nodes[me], p);
      var r' := r.(weWant := r.weWant[i := r.weWant[i].(cancel := cancel)]);
      RecantLater(r, i, cancel);
      SetPeerLater(s.nodes[me], p, r');
      QuietTold(truth, s, me, SetPeer(s.nodes[me], p, r'));
  }

  lemma RecantLater(r: Request, i: nat, cancel: bool)
    requires i < |r.weWant|
    ensures LaterRequest(r, r.(weWant := r.weWant[i := r.weWant[i].(cancel := cancel)]))
  {
  }

  lemma ToldAll(s: System)
    requires AllTold(s)
    ensures forall me <- s.nodes :: Told(s.nodes[me], me, s.net)
  {
  }

  lemma PeerFrom(me: nat, n: Node, c: Contact)
    ensures From(ProcessPeer(me, n, c).1, me)
  {
    hide MessageBytes, Outgoing, AfterOutgoing, NeedToConnect;
  }

  lemma TurnFrom(me: nat, n: Node, providers: Option<seq<Contact>>)
    ensures From(WantTurn(me, n, providers).1, me)
  {
    hide AskProviders, SetWant, Fill, DropSessions;
    var i := Pop(n.wants);
    if i != -1 && providers.Some? { AskFrom(me, n, n.wants[i].cid, providers.value); }
  }

  lemma {:induction false} EveryRunIsTold(truth: Truth, s: System, steps: seq<Step>)
    requires Init(truth, s) && IsRun(truth, s, steps)
    ensures AllTold(After(truth, s, steps))
  {
    hide Good, Apply, Enabled;
    if steps == [] {
      forall me <- s.nodes, p: nat ensures Logged(PeerOf(s.nodes[me], p), OnTheWire(s.net, me, p)) {
        assert FoundAt(PeerOf(s.nodes[me], p), [], []);
      }
    } else {
      var init := steps[..|steps| - 1];
      EveryRunIsTold(truth, s, init);
      EveryRunIsGood(truth, s, init);
      StepTold(truth, After(truth, s, init), steps[|steps| - 1]);
    }
  }

  /** Whatever a node has ever written to a peer: each wantlist item was about an
      entry of its own, so no entry has been asked for twice or cancelled twice. */
  lemma {:induction false} EachEntryOnce(truth: Truth, s: System, steps: seq<Step>, me: nat, p: nat)
    requires Init(truth, s) && IsRun(truth, s, steps) && me in s.nodes
    ensures var t := After(truth, s, steps);
      && me in t.nodes
      && var wire, r := OnTheWire(t.net, me, p), PeerOf(t.nodes[me], p);
      && DistinctIds(r.weWant)
      && exists keys: seq<Sent> :: |keys| == |wire| && Distinct(keys) && forall i :: 0 <= i < |keys| ==> Said(r, wire[i], keys[i])
  {
    hide Said, Apply, Enabled, Init, HonestBlocks, TypedCids, ServedOnce, OnTheWire, LaterNode, Agrees, GoodWants, IsRun,
      Logged, PeerOf;
    RunLater(truth, s, steps, 0);
    StartsHere(truth, s, steps);
    EveryRunIsTold(truth, s, steps);
    EveryRunIsGood(truth, s, steps);
    var t := After(truth, s, steps);
    PeerIsGood(truth, t.nodes[me], p);
    assert Told(t.nodes[me], me, t.net);
    KeysOf(PeerOf(t.nodes[me], p), OnTheWire(t.net, me, p));
  }

  lemma KeysOf(r: Request, items: seq<WantlistEntry>)
    requires Logged(r, items) && Distinct(r.sent)
    ensures exists keys: seq<Sent> :: |keys| == |items| && Distinct(keys) && forall i :: 0 <= i < |keys| ==> Said(r, items[i], keys[i])
  {
    hide Said;
    var at: seq<nat> :| FoundAt(r, items, at);
    var keys := seq(|at|, i requires 0 <= i < |at| => r.sent[at[i]]);
    assert |keys| == |items| && Distinct(keys) && forall i :: 0 <= i < |keys| ==> Said(r, items[i], keys[i]);
  }

  lemma StartsHere(truth: Truth, s: System, steps: seq<Step>)
    requires IsRun(truth, s, steps)
    ensures IsRun(truth, s, steps[..0]) && After(truth, s, steps[..0]) == s
  {
  }
}
