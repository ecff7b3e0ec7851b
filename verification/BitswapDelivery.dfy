/** That bitswap does its job: what a turn hands on arrives, and a want is filled. */
module BitswapDelivery {
  import opened Basics
  import opened Messages
  import opened Requests
  import opened Bitswap
  import opened BitswapSafety
  import opened BitswapHistory
  import Blocks
  import Cids

  // ------------------------------------------------------------- handing on

  /** One copy of the block for each time that the peer asked. */
  function Copies(ss: seq<Session>, b: Block, p: nat): (r: seq<Block>) {
    if ss == [] then []
    else Copies(ss[..|ss| - 1], b, p) + if ss[|ss| - 1] == Remote(p) then [b] else []
  }

  lemma {:induction false} CopiesCount(ss: seq<Session>, b: Block, p: nat)
    ensures |Copies(ss, b, p)| == multiset(ss)[Remote(p)] && forall x <- Copies(ss, b, p) :: x == b
  {
    if ss != [] {
      CopiesCount(ss[..|ss| - 1], b, p);
      assert ss == ss[..|ss| - 1] + [ss[|ss| - 1]];
    }
  }

  /** A block found goes to every remote session once for each time that it asked,
      behind what is waiting there, and nothing else changes for any peer. */
  lemma FillReaches(n: Node, ss: seq<Session>, b: Block, p: nat)
    ensures PeerOf(Fill(n, ss, b), p) == PeerOf(n, p).(toSend := PeerOf(n, p).toSend + Copies(ss, b, p))
    ensures |Copies(ss, b, p)| == multiset(ss)[Remote(p)] && forall x <- Copies(ss, b, p) :: x == b
  {
    FillIsCopies(n, ss, b, p);
    CopiesCount(ss, b, p);
  }

  lemma {:induction false} FillIsCopies(n: Node, ss: seq<Session>, b: Block, p: nat)
    ensures PeerOf(Fill(n, ss, b), p) == PeerOf(n, p).(toSend := PeerOf(n, p).toSend + Copies(ss, b, p))
  {
    if ss == [] {
      assert PeerOf(n, p).toSend + [] == PeerOf(n, p).toSend;
    } else {
      var init := ss[..|ss| - 1];
      FillIsCopies(n, init, b, p);
      assert Copies(ss, b, p) == Copies(init, b, p) + if ss[|ss| - 1] == Remote(p) then [b] else [];
      hide Copies;
      if ss[|ss| - 1] == Remote(p) {
        AppendLast(PeerOf(n, p).toSend, Copies(init, b, p), b);
      } else {
        assert Copies(init, b, p) + [] == Copies(init, b, p);
      }
    }
  }

  lemma AppendLast(a: seq<Block>, c: seq<Block>, b: Block)
    ensures (a + c) + [b] == a + (c + [b])
  {
  }

  /** The turn of an entry that is in store fills it, hands the block on to every
      session's peer, and does nothing else. */
  lemma FoundIsHandedOn(me: nat, n: Node, providers: Option<seq<Contact>>, i: nat)
    requires Pop(n.wants) == i < |n.wants| && n.wants[i].attempts <= 10 && n.wants[i].cid.hash in n.store
    ensures var w := n.wants[i];
      var b := Blocks.Block(Some(w.cid), n.store[w.cid.hash]);
      var (n', out) := WantTurn(me, n, providers);
      && out == [] && n'.store == n.store && n'.wants == n.wants[i := w.(block := Some(b))]
      && forall p :: PeerOf(n', p) == PeerOf(n, p).(toSend := PeerOf(n, p).toSend + Copies(w.sessions, b, p))
  {
    hide Fill, Copies;
    var w := n.wants[i];
    var b := Blocks.Block(Some(w.cid), n.store[w.cid.hash]);
    var n1 := SetWant(n, i, w.(block := Some(b)));
    FillKeepsRest(n1, w.sessions, b);
    forall p ensures PeerOf(Fill(n1, w.sessions, b), p) == PeerOf(n, p).(toSend := PeerOf(n, p).toSend + Copies(w.sessions, b, p)) {
      FillIsCopies(n1, w.sessions, b, p);
    }
  }

  /** There is an entry for the cid at p, asked for if need be. */
  ghost predicate Listed(r: Request, cid: Cid, asked: bool) {
    exists e <- r.weWant :: e.cid == cid && (asked ==> e.requestSent)
  }

  lemma ListedLater(r: Request, r': Request, cid: Cid, asked: bool)
    requires Listed(r, cid, asked) && LaterRequest(r, r')
    ensures Listed(r', cid, asked)
  {
    var i :| 0 <= i < |r.weWant| && r.weWant[i].cid == cid && (asked ==> r.weWant[i].requestSent);
    assert r'.weWant[i] in r'.weWant;
  }

  /** Every provider gets an entry for the cid, and everyone who could be connected
      to has been sent the request. */
  lemma {:induction false} AskReaches(me: nat, n: Node, cid: Cid, cs: seq<Contact>, k: nat)
    requires k < |cs|
    ensures Listed(PeerOf(AskProviders(me, n, cid, cs).0, cs[k].peer), cid, cs[k].connected)
  {
    hide ProcessPeer, Listed, WantOf, LaterRequest;
    var init, c := cs[..|cs| - 1], cs[|cs| - 1];
    var n1 := AskProviders(me, n, cid, init).0;
    var n2 := SetPeer(n1, c.peer, WantOf(PeerOf(n1, c.peer), cid));
    if k < |cs| - 1 {
      AskReaches(me, n, cid, init, k);
      WantOfLater(PeerOf(n1, c.peer), cid);
      SetPeerLater(n1, c.peer, WantOf(PeerOf(n1, c.peer), cid));
      ProcessPeerLater(me, n2, c);
      LaterNodeTwice(n1, n2, ProcessPeer(me, n2, c).0);
      ListedLater(PeerOf(n1, cs[k].peer), PeerOf(ProcessPeer(me, n2, c).0, cs[k].peer), cid, cs[k].connected);
    } else {
      NewIsAsked(me, n2, c, PeerOf(n1, c.peer), cid);
    }
  }

  lemma NewIsAsked(me: nat, n: Node, c: Contact, r: Request, cid: Cid)
    requires PeerOf(n, c.peer) == WantOf(r, cid)
    ensures Listed(PeerOf(ProcessPeer(me, n, c).0, c.peer), cid, c.connected)
  {
    hide SentNow, BlocksFor, Answered, CancelAll, ServedNow, MessageBytes, Outgoing;
    var es := WantOf(r, cid).weWant;
    var e := es[|es| - 1];
    assert Due(e);
    assert WeWantCids(es);
    var es' := PeerOf(ProcessPeer(me, n, c).0, c.peer).weWant;
    assert es'[|es| - 1] in es';
  }

  // ------------------------------------------------------------- one exchange

  /** The wire keeps such a cid as it is. */
  predicate Plain(cid: Cid) {
    Cids.IsInt(cid.version) && -0x80 <= cid.codec < 0x80 && cid.hash != []
  }

  lemma PlainIsKept(cid: Cid)
    requires Plain(cid)
    ensures Cids.Narrowed(Some(cid)) == Some(cid) && Cids.Decode(Cids.CidBytes(Some(cid))) == Some(Some(cid))
  {
    hide Cids.Decode, Cids.CidBytes;
    Cids.RoundTrip(Some(cid));
    Wire.S8Back(cid.codec);
  }

  /** The want at i is next in turn and not in store, and nothing else is about to
      be said to p under a cid without a hash, at which p would stop reading. */
  ghost predicate Wanting(n: Node, p: nat, i: nat) {
    && Pop(n.wants) == i < |n.wants| && Local in n.wants[i].sessions && n.wants[i].attempts <= 10
    && Plain(n.wants[i].cid) && n.wants[i].cid.hash !in n.store && Readable(PeerOf(n, p).weWant)
  }

  ghost predicate Readable(es: seq<CidEntry>) {
    forall e <- es :: Due(e) ==> e.cid.hash != []
  }

  /** An item that does not stop the receiver. */
  predicate Usable(item: WantlistEntry) {
    && Cids.Decode(item.block).Some? && Cids.Decode(item.block).value.Some?
    && Cids.Decode(item.block).value.value.hash != []
  }

  function CidOf(item: WantlistEntry): (cid: Cid)
    requires Usable(item)
  {
    Cids.Decode(item.block).value.value
  }

  predicate TakesTurn(es: seq<WantlistEntry>, edits: seq<Edit>, k: nat, r: Request, r': Request) {
    k < |es| && Usable(es[k]) && r' == Adjust(r, CidOf(es[k]), Chosen(r, es[k], if k < |edits| then edits[k] else Keep))
  }

  /** The items of a wantlist that arrives take their turns in order, up to the first
      without a usable cid; behind that one nothing is looked at. */
  lemma {:induction false} ItemsTakeTurns(r: Request, es: seq<WantlistEntry>, edits: seq<Edit>, i: nat) returns (rs: seq<Request>)
    requires i <= |es|
    ensures |rs| >= 1 && i + |rs| - 1 <= |es|
    ensures rs[0] == r && rs[|rs| - 1] == AdjustAll(r, es, edits, i)
    ensures forall j, k :: 0 <= j < |rs| && k == j + 1 && k < |rs| ==> TakesTurn(es, edits, i + j, rs[j], rs[k])
    ensures i + |rs| - 1 == |es| || !Usable(es[i + |rs| - 1])
    decreases |es| - i
  {
    hide Adjust, Chosen, Cids.Decode;
    if i == |es| || !Usable(es[i]) {
      rs := [r];
    } else {
      var next := Adjust(r, CidOf(es[i]), Chosen(r, es[i], if i < |edits| then edits[i] else Keep));
      var more := ItemsTakeTurns(next, es, edits, i + 1);
      rs := [r] + more;
      forall j, k | 0 <= j < |rs| && k == j + 1 && k < |rs|
        ensures TakesTurn(es, edits, i + j, rs[j], rs[k])
      {
        if j > 0 { assert rs[j] == more[j - 1] && rs[k] == more[k - 1]; }
      }
    }
  }

  /** The last item wants the cid, and no item stops the receiver. */
  ghost predicate AsksFor(items: seq<WantlistEntry>, cid: Cid) {
    && items != [] && items[|items| - 1] == WantlistEntry(Cids.CidBytes(Some(cid)), 0, 1)
    && forall item <- items :: Usable(item)
  }

  lemma {:induction false} ItemsAreUsable(es: seq<CidEntry>)
    requires TypedCids(es) && Readable(es)
    ensures forall item <- WantItems(es) :: Usable(item)
  {
    hide Usable, Cids.IsInt;
    if es != [] {
      var init, last := es[..|es| - 1], es[|es| - 1];
      assert last in es && forall e <- init :: e in es;
      ItemsAreUsable(init);
      if Due(last) { ItemIsUsable(last); }
    }
  }

  lemma ItemIsUsable(e: CidEntry)
    requires Cids.IsInt(e.cid.version) && e.cid.hash != []
    ensures Usable(ItemOf(e))
  {
    hide Cids.Decode, Cids.CidBytes, Cids.IsInt;
    Cids.RoundTrip(Some(e.cid));
  }

  /** One more entry makes one more item. */
  lemma NewItem(truth: Truth, r: Request, cid: Cid)
    requires GoodRequest(truth, r) && Readable(r.weWant) && Plain(cid)
    ensures var r' := WantOf(r, cid); WeWantCids(r'.weWant) && AsksFor(WantItems(r'.weWant), cid)
  {
    hide Usable, WantedOnce, ServedOnce, HonestBlocks, Cids.CidBytes, Cids.IsInt;
    var es, e := WantOf(r, cid).weWant, CidEntry(r.nextId, cid, false, false, false);
    assert es[|es| - 1] == e && es[..|es| - 1] == r.weWant;
    assert Due(e);
    assert Due(es[|es| - 1]);
    ItemsAreUsable(r.weWant);
    ItemIsUsable(e);
  }

  lemma Asks(truth: Truth, me: nat, n: Node, p: nat, i: nat)
    requires GoodNode(truth, n) && Wanting(n, p, i)
    ensures var (n', out) := WantTurn(me, n, Some([Contact(p, true, true)]));
      && LaterNode(n, n') && i < |n'.wants| && n'.wants[i].cid == n.wants[i].cid
      && |out| == 1 && out[0].source == me && out[0].to == p
      && AsksFor(WantsIn(out[0], me, p), n.wants[i].cid)
  {
    hide GoodRequest, GoodWants, Agrees, MessageBytes, Outgoing, AfterOutgoing, LaterPeers, AsksFor, Received, Plain, WantOf, Readable,
      WeWantCids, WantItems, CidsWaiting;
    var c, cid := Contact(p, true, true), n.wants[i].cid;
    var cs := [c];
    WantTurnLater(me, n, Some(cs));
    AskKeepsWants(me, n, cid, cs);
    IsIntOf(truth, n, i);
    PeerIsGood(truth, n, p);
    var r := WantOf(PeerOf(n, p), cid);
    var n1 := SetPeer(n, p, r);
    assert cs[..|cs| - 1] == [];
    assert AskProviders(me, n, cid, cs[..|cs| - 1]) == (n, []);
    NewItem(truth, PeerOf(n, p), cid);
    WantOfIsGood(truth, PeerOf(n, p), cid);
    OutgoingIsRead(truth, me, p, n.store, r);
    assert [] + ProcessPeer(me, n1, c).1 == ProcessPeer(me, n1, c).1;
  }

  lemma IsIntOf(truth: Truth, n: Node, i: nat)
    requires GoodNode(truth, n) && i < |n.wants|
    ensures Cids.IsInt(n.wants[i].cid.version) && Agrees(truth, n.store) && GoodPeers(truth, n.peers)
  {
    assert n.wants[i] in n.wants;
  }

  /** p holds an open entry of `from` for the cid. */
  ghost predicate Owes(n: Node, from: nat, cid: Cid) {
    exists e <- PeerOf(n, from).theyWant :: e.cid == cid && !e.cancel
  }

  /** The receiver's queue takes the last item; a queue that was empty takes the
      first, too. */
  function TakeLast(items: seq<WantlistEntry>): (edits: seq<Edit>)
    ensures |edits| == |items|
  {
    if items == [] then [] else seq(|items| - 1, _ => Keep) + [Append]
  }

  /** The receiver gets to the last item. */
  lemma {:induction false} GetsToLast(r: Request, items: seq<WantlistEntry>, edits: seq<Edit>, i: nat) returns (r': Request)
    requires i < |items| && forall item <- items :: Usable(item)
    ensures AdjustAll(r, items, edits, i) == AdjustAll(r', items, edits, |items| - 1)
    decreases |items| - i
  {
    hide Cids.Decode, Adjust, Chosen;
    if i == |items| - 1 {
      r' := r;
    } else {
      assert Usable(items[i]);
      var cid := Cids.Decode(items[i].block).value.value;
      var edit := Chosen(r, items[i], if i < |edits| then edits[i] else Keep);
      r' := GetsToLast(Adjust(r, cid, edit), items, edits, i + 1);
    }
  }

  lemma Queues(n: Node, me: nat, packet: Packet, cid: Cid)
    requires Plain(cid) && packet.source == me && AsksFor(WantsIn(packet, me, packet.to), cid)
    ensures Owes(HandleMessage(n, me, packet.data, TakeLast(WantsIn(packet, me, packet.to))), me, cid)
  {
    hide Received, HasBlocks, Cids.Decode, Cids.CidBytes, Usable;
    var m := Received(packet.data).value;
    var n1, es := HasBlocks(n, Items(m.payload)), Wanted(m);
    PlainIsKept(cid);
    var edits := TakeLast(es);
    var r := GetsToLast(PeerOf(n1, me), es, edits, 0);
    var r' := Adjust(r, cid, Append);
    assert edits[|es| - 1] == Append && Chosen(r, es[|es| - 1], Append) == Append;
    assert AdjustAll(r, es, edits, |es| - 1) == AdjustAll(r', es, edits, |es|) == r';
    assert r'.theyWant[|r.theyWant|] in r'.theyWant;
  }

  /** A single item into an empty queue: a request is owed, a cancel changes nothing,
      whatever the source's search would do to a queue that holds something. */
  lemma OneIntoEmpty(r: Request, item: WantlistEntry, edits: seq<Edit>)
    requires r.theyWant == [] && Usable(item)
    ensures var cid := Cids.Decode(item.block).value.value;
      AdjustAll(r, [item], edits, 0) ==
        if item.cancel == 0 then r.(theyWant := [CidEntry(r.nextId, cid, false, false, false)], nextId := r.nextId + 1) else r
  {
    hide Cids.Decode;
    var es, edit := [item], if 0 < |edits| then edits[0] else Keep;
    var cid := Cids.Decode(item.block).value.value;
    var r' := Adjust(r, cid, Chosen(r, es[0], edit));
    assert AdjustAll(r', es, edits, 1) == r';
    assert [] + [CidEntry(r.nextId, cid, false, false, false)] == [CidEntry(r.nextId, cid, false, false, false)];
  }

  ghost predicate Carries(packet: Packet, cid: Cid) {
    Received(packet.data).Some? && exists b <- Items(Received(packet.data).value.payload) :: b.cid == Some(cid)
  }

  lemma {:induction false} BlockIsFound(store: map<bytes, bytes>, es: seq<CidEntry>, e: CidEntry)
    requires e in es && !e.cancel && e.cid.hash in store
    ensures Blocks.Block(Some(e.cid), store[e.cid.hash]) in BlocksFor(store, es)
  {
    if es[|es| - 1] != e { BlockIsFound(store, es[..|es| - 1], e); }
  }

  /** The blocks that the receiver reads out of the bytes are those that were put in. */
  lemma PayloadIsRead(truth: Truth, me: nat, to: nat, store: map<bytes, bytes>, r: Request)
    requires Agrees(truth, store) && GoodRequest(truth, r)
    ensures var data := HEADER + MessageBytes(Outgoing(store, r));
      Received(data).Some? && Items(Received(data).value.payload) == NarrowedBlocks(r.toSend + BlocksFor(store, r.theyWant))
  {
    hide MessageBytes, Received, Outgoing, Normal, BlocksFor, GoodRequest, Agrees;
    OutgoingIsReceived(truth, store, r);
  }

  lemma Serves(truth: Truth, me: nat, n: Node, to: nat, cid: Cid)
    requires GoodNode(truth, n) && Owes(n, to, cid) && Plain(cid) && cid.hash in n.store
    ensures var out := ProcessPeer(me, n, Contact(to, true, true)).1;
      |out| == 1 && out[0].source == me && out[0].to == to && Carries(out[0], cid)
  {
    hide GoodRequest, GoodWants, Agrees, MessageBytes, Outgoing, AfterOutgoing, Received, BlocksFor, NarrowedBlocks, Plain, Blocks.Narrowed;
    var r := PeerOf(n, to);
    var e :| e in r.theyWant && e.cid == cid && !e.cancel;
    var i :| 0 <= i < |r.theyWant| && r.theyWant[i] == e;
    assert CidsWaiting(r.theyWant);
    PeerIsGood(truth, n, to);
    PayloadIsRead(truth, me, to, n.store, r);
    BlockIsFound(n.store, r.theyWant, e);
    var blocks, b := r.toSend + BlocksFor(n.store, r.theyWant), Blocks.Block(Some(cid), n.store[cid.hash]);
    assert b in blocks;
    var k :| 0 <= k < |blocks| && blocks[k] == b;
    NarrowedPlain(b, cid);
    assert NarrowedBlocks(blocks)[k] == b;
    assert b in NarrowedBlocks(blocks);
  }

  lemma NarrowedPlain(b: Block, cid: Cid)
    requires Plain(cid) && b.cid == Some(cid)
    ensures Blocks.Narrowed(b) == b
  {
    PlainIsKept(cid);
  }

  lemma {:induction false} HasBlocksFills(n: Node, bs: seq<Block>, i: nat, b: Block)
    requires DistinctCids(n.wants) && i < |n.wants| && b in bs && b.cid == Some(n.wants[i].cid)
    ensures i < |HasBlocks(n, bs).wants| && HasBlocks(n, bs).wants[i].block.Some?
  {
    hide Find, LaterPeers;
    var init, last := bs[..|bs| - 1], bs[|bs| - 1];
    var n1 := HasBlocks(n, init);
    HasBlocksLater(n, init);
    HasBlockLater(n1, last);
    if last == b {
      HasBlocksKeepsDistinct(n, init);
      assert Find(n1.wants, n1.wants[i].cid) == i;
    } else {
      HasBlocksFills(n, init, i, b);
    }
  }

  lemma {:induction false} HasBlocksKeepsDistinct(n: Node, bs: seq<Block>)
    requires DistinctCids(n.wants)
    ensures DistinctCids(HasBlocks(n, bs).wants)
  {
    hide Find;
    if bs != [] { HasBlocksKeepsDistinct(n, bs[..|bs| - 1]); }
  }

  lemma PayloadCarried(n: Node, source: nat, packet: Packet, cid: Cid)
    requires Carries(packet, cid)
    ensures cid.hash in HandleMessage(n, source, packet.data, []).store
  {
    hide HandleMessage, Received;
    var b :| b in Items(Received(packet.data).value.payload) && b.cid == Some(cid);
    PayloadIsKept(n, source, packet.data, [], b);
  }

  lemma Fills(truth: Truth, n: Node, source: nat, packet: Packet, i: nat)
    requires GoodNode(truth, n) && i < |n.wants| && Carries(packet, n.wants[i].cid)
    ensures var n' := HandleMessage(n, source, packet.data, []);
      && i < |n'.wants| && n'.wants[i].cid == n.wants[i].cid && n'.wants[i].block.Some?
      && n.wants[i].cid.hash in n'.store
  {
    hide GoodPeers, Agrees, Received, HasBlocks, AdjustAll, PeerOf, LaterPeers;
    PayloadCarried(n, source, packet, n.wants[i].cid);
    HandleMessageLater(n, source, packet.data, []);
    var bs := Items(Received(packet.data).value.payload);
    var b :| b in bs && b.cid == Some(n.wants[i].cid);
    HasBlocksFills(n, bs, i, b);
  }

  // ------------------------------------------------------------- four steps

  /** The asking node's turn and the delivery of what it asks. */
  lemma AskedFor(truth: Truth, s: System, me: nat, p: nat, i: nat) returns (steps: seq<Step>, t: System)
    requires Good(truth, s) && me in s.nodes && p in s.nodes && me != p && Wanting(s.nodes[me], p, i)
    ensures |steps| == 2 && IsRun(truth, s, steps) && After(truth, s, steps) == t && Good(truth, t)
    ensures me in t.nodes && p in t.nodes
    ensures i < |t.nodes[me].wants| && t.nodes[me].wants[i].cid == s.nodes[me].wants[i].cid
    ensures Owes(t.nodes[p], me, s.nodes[me].wants[i].cid) && s.nodes[p].store.Keys <= t.nodes[p].store.Keys
  {
    hide IsRun, After, GoodNode, GoodPackets, WantTurn, HandleMessage, Owes, WantsIn, Wanting, Plain, LaterWants, LaterPeers, AsksFor,
      TakeLast;
    PlainOf(s.nodes[me], p, i);
    var cid := s.nodes[me].wants[i].cid;
    var first := Turn(me, Some([Contact(p, true, true)]));
    Asks(truth, me, s.nodes[me], p, i);
    StepIsGood(truth, s, first);
    var s1 := Apply(truth, s, first);
    var packet := s1.net[|s.net|];
    var edits := TakeLast(WantsIn(packet, me, p));
    var second := Deliver(|s.net|, edits);
    Queues(s1.nodes[p], me, packet, cid);
    HandleMessageLater(s1.nodes[p], me, packet.data, edits);
    TwoSteps(truth, s, first, second);
    StepIsGood(truth, s1, second);
    steps := [first, second];
    t := Apply(truth, s1, second);
  }

  lemma PlainOf(n: Node, p: nat, i: nat)
    requires Wanting(n, p, i)
    ensures i < |n.wants| && Plain(n.wants[i].cid)
  {
  }

  /** The answering node's turn and the delivery of the answer. */
  lemma AnsweredTo(truth: Truth, s: System, me: nat, p: nat, i: nat) returns (steps: seq<Step>, t: System)
    requires Good(truth, s) && me in s.nodes && p in s.nodes && me != p && i < |s.nodes[me].wants|
    requires var cid := s.nodes[me].wants[i].cid; Plain(cid) && Owes(s.nodes[p], me, cid) && cid.hash in s.nodes[p].store
    ensures |steps| == 2 && IsRun(truth, s, steps) && After(truth, s, steps) == t && Good(truth, t)
    ensures me in t.nodes && i < |t.nodes[me].wants| && t.nodes[me].wants[i].cid == s.nodes[me].wants[i].cid
    ensures t.nodes[me].wants[i].block.Some? && s.nodes[me].wants[i].cid.hash in t.nodes[me].store
  {
    hide IsRun, After, GoodNode, GoodPackets, ProcessPeer, HandleMessage, Owes, Carries, Plain, LaterWants, LaterPeers;
    var cid := s.nodes[me].wants[i].cid;
    var first := Serve(p, Contact(me, true, true));
    Serves(truth, p, s.nodes[p], me, cid);
    StepIsGood(truth, s, first);
    var s1 := Apply(truth, s, first);
    var packet := s1.net[|s.net|];
    var second := Deliver(|s.net|, []);
    Fills(truth, s1.nodes[me], p, packet, i);
    TwoSteps(truth, s, first, second);
    StepIsGood(truth, s1, second);
    steps := [first, second];
    t := Apply(truth, s1, second);
  }

  /** From any good state: a want that is next in turn, of a cid that the wire
      keeps, is filled with the true data in four steps, if a node that has the data
      is found and reached and its queue takes the entry. */
  lemma WantIsFilled(truth: Truth, s: System, me: nat, p: nat, i: nat) returns (steps: seq<Step>)
    requires Good(truth, s) && me in s.nodes && p in s.nodes && me != p
    requires Wanting(s.nodes[me], p, i) && s.nodes[me].wants[i].cid.hash in s.nodes[p].store
    ensures |steps| == 4 && IsRun(truth, s, steps) && me in After(truth, s, steps).nodes
    ensures var cid := s.nodes[me].wants[i].cid;
      var n := After(truth, s, steps).nodes[me];
      && i < |n.wants| && n.wants[i].block == Some(Blocks.Block(Some(cid), truth(cid.hash)))
      && cid.hash in n.store && n.store[cid.hash] == truth(cid.hash)
  {
    hide Good, IsRun, After, Owes, Wanting, Plain;
    PlainOf(s.nodes[me], p, i);
    var a, t := AskedFor(truth, s, me, p, i);
    var b, u := AnsweredTo(truth, t, me, p, i);
    RunAppend(truth, s, a, b);
    steps := a + b;
    FilledIsTrue(truth, u, me, i);
    StoreIsTrue(truth, u, me, s.nodes[me].wants[i].cid.hash);
  }

  lemma StoreIsTrue(truth: Truth, s: System, me: nat, h: bytes)
    requires Good(truth, s) && me in s.nodes && h in s.nodes[me].store
    ensures s.nodes[me].store[h] == truth(h)
  {
    hide GoodPackets, GoodPeers, GoodWants;
    assert GoodNode(truth, s.nodes[me]);
  }

  lemma FilledIsTrue(truth: Truth, s: System, me: nat, i: nat)
    requires Good(truth, s) && me in s.nodes && i < |s.nodes[me].wants| && s.nodes[me].wants[i].block.Some?
    ensures var w := s.nodes[me].wants[i]; w.block == Some(Blocks.Block(Some(w.cid), truth(w.cid.hash)))
  {
    hide GoodPackets, GoodPeers, Agrees;
    assert GoodNode(truth, s.nodes[me]);
    assert s.nodes[me].wants[i] in s.nodes[me].wants;
  }

  /** One node without blocks, and one with the block of the cid. */
  function TwoNodes(truth: Truth, cid: Cid): (r: System) {
    System(map[0 := Bitswap.Node(map[], [], map[]), 1 := Bitswap.Node(map[cid.hash := truth(cid.hash)], [], map[])], [])
  }

  lemma AfterSeek(truth: Truth, cid: Cid)
    requires Plain(cid)
    ensures var s, step := TwoNodes(truth, cid), Seek(0, cid, Local);
      && Init(truth, s) && Enabled(s, step)
      && var t := Apply(truth, s, step);
      && 0 in t.nodes && 1 in t.nodes && Wanting(t.nodes[0], 1, 0)
      && t.nodes[0].wants[0].cid == cid && cid.hash in t.nodes[1].store
  {
    FirstWant(cid);
    IntOf(cid);
    hide AddWant, Pop, Plain, Cids.IsInt;
  }

  lemma FirstWant(cid: Cid)
    ensures var w := Want(cid, [Local, Local], None, false, 0); AddWant([], cid, Local) == [w] && Pop([w]) == 0
  {
    var w := Want(cid, [Local, Local], None, false, 0);
    assert [] + [w] == [w];
    assert Open(w);
  }

  lemma IntOf(cid: Cid)
    requires Plain(cid)
    ensures Cids.IsInt(cid.version)
  {
  }

  /** Starting from nothing but a block at one of two nodes, five steps bring it to
      the other that seeks it, whatever the data and the cid. */
  lemma SoughtIsFound(truth: Truth, cid: Cid) returns (s: System, steps: seq<Step>)
    requires Plain(cid)
    ensures Init(truth, s) && |s.nodes| == 2 && |steps| == 5 && IsRun(truth, s, steps) && 0 in After(truth, s, steps).nodes
    ensures var n := After(truth, s, steps).nodes[0];
      && |n.wants| > 0 && n.wants[0].block == Some(Blocks.Block(Some(cid), truth(cid.hash)))
      && cid.hash in n.store && n.store[cid.hash] == truth(cid.hash)
  {
    hide Plain, Init, Good, IsRun, After, Enabled, Apply, Wanting, Cids.IsInt;
    s := TwoNodes(truth, cid);
    var first := Seek(0, cid, Local);
    AfterSeek(truth, cid);
    InitIsGood(truth, s);
    StepIsGood(truth, s, first);
    NoSteps(truth, s);
    RunSnoc(truth, s, [], first);
    assert [] + [first] == [first];
    var rest := WantIsFilled(truth, Apply(truth, s, first), 0, 1, 0);
    RunAppend(truth, s, [first], rest);
    steps := [first] + rest;
  }
}
