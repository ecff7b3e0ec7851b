/** Bitswap between any number of honest nodes: the steps of
    exchange/bitswap/engine.c, wantlist_queue.c, bitswap.c and network.c. Messages
    in flight are bytes; the network may lose, repeat and reorder them. */
module Bitswap {
  import opened Basics
  import opened Messages
  import opened Requests
  import Blocks
  import Cids

  datatype Session = Local | Remote(peer: nat)

  /** struct WantListQueueEntry. */
  datatype Want = Want(cid: Cid, sessions: seq<Session>, block: Option<Block>, asked: bool, attempts: nat)

  /** One node: its blockstore by hash, its wantlist and its queues for peers. */
  datatype Node = Node(store: map<bytes, bytes>, wants: seq<Want>, peers: map<nat, Request>)

  datatype Packet = Packet(source: nat, to: nat, data: bytes)

  datatype System = System(nodes: map<nat, Node>, net: seq<Packet>)

  // ------------------------------------------------------------- the wantlist

  /** ipfs_bitswap_wantlist_queue_find. */
  function Find(ws: seq<Want>, cid: Cid): (i: int)
    ensures -1 <= i < |ws|
    ensures i >= 0 ==> ws[i].cid == cid
    ensures forall j :: 0 <= j < (if i == -1 then |ws| else i) ==> ws[j].cid != cid
  {
    if ws == [] then -1
    else
      var i := Find(ws[..|ws| - 1], cid);
      if i != -1 then i else if ws[|ws| - 1].cid == cid then |ws| - 1 else -1
  }

  /** ipfs_bitswap_wantlist_queue_add; a new entry gets its first session twice. */
  function AddWant(ws: seq<Want>, cid: Cid, session: Session): (r: seq<Want>) {
    var i := Find(ws, cid);
    if i == -1 then ws + [Want(cid, [session, session], None, false, 0)]
    else ws[i := ws[i].(sessions := ws[i].sessions + [session])]
  }

  /** Each cid has one entry. */
  predicate DistinctCids(ws: seq<Want>) {
    forall i, j :: 0 <= i < j < |ws| ==> ws[i].cid != ws[j].cid
  }

  predicate Open(w: Want) {
    w.block.None? && !w.asked
  }

  /** ipfs_bitswap_wantlist_queue_pop. */
  function Pop(ws: seq<Want>): (i: int)
    ensures -1 <= i < |ws|
    ensures i >= 0 ==> Open(ws[i])
    ensures forall j :: 0 <= j < (if i == -1 then |ws| else i) ==> !Open(ws[j])
  {
    if ws == [] then -1
    else
      var i := Pop(ws[..|ws| - 1]);
      if i != -1 then i else if Open(ws[|ws| - 1]) then |ws| - 1 else -1
  }

  /** Removing every session in turn, while the vector shrinks under the index. */
  function DropSessions(ss: seq<Session>, i: nat): (r: seq<Session>)
    decreases |ss| - i
  {
    if i >= |ss| then ss else DropSessions(RemoveFirst(ss, ss[i]), i + 1)
  }

  function RemoveFirst(ss: seq<Session>, s: Session): (r: seq<Session>)
    ensures |r| <= |ss|
  {
    if ss == [] then [] else if ss[0] == s then ss[1..] else [ss[0]] + RemoveFirst(ss[1..], s)
  }

  /** What adding does: one more session for the entry of the cid, or a new entry
      behind the others that has the session twice. */
  lemma AddWantIs(ws: seq<Want>, cid: Cid, session: Session)
    requires DistinctCids(ws)
    ensures var ws' := AddWant(ws, cid, session);
      && DistinctCids(ws')
      && (forall j :: 0 <= j < |ws| ==> ws'[j] == if ws[j].cid == cid then ws[j].(sessions := ws[j].sessions + [session]) else ws[j])
      && (if exists w <- ws :: w.cid == cid then |ws'| == |ws|
          else |ws'| == |ws| + 1 && ws'[|ws|] == Want(cid, [session] + [session], None, false, 0))
  {
    hide Find;
    assert [session] + [session] == [session, session];
    if Find(ws, cid) != -1 { assert ws[Find(ws, cid)] in ws; }
  }

  lemma {:induction false} RemoveFirstIs(ss: seq<Session>, s: Session)
    requires s in ss
    ensures multiset(RemoveFirst(ss, s)) == multiset(ss) - multiset{s}
  {
    assert ss == [ss[0]] + ss[1..];
    if ss[0] != s { RemoveFirstIs(ss[1..], s); }
  }

  lemma {:induction false} DropsHalf(ss: seq<Session>, i: nat)
    requires i <= |ss|
    ensures |DropSessions(ss, i)| == |ss| - (|ss| - i + 1) / 2 && multiset(DropSessions(ss, i)) <= multiset(ss)
    decreases |ss| - i
  {
    if i < |ss| {
      RemoveFirstIs(ss, ss[i]);
      var fewer := RemoveFirst(ss, ss[i]);
      assert |multiset(fewer)| == |ss| - 1;
      if i + 1 <= |fewer| { DropsHalf(fewer, i + 1); }
    }
  }

  /** The loop that is to remove all sessions removes every other one: it removes all
      exactly if there is at most one. */
  lemma SessionsRemain(ss: seq<Session>)
    ensures |DropSessions(ss, 0)| == |ss| / 2 && (DropSessions(ss, 0) == [] <==> |ss| <= 1)
  {
    DropsHalf(ss, 0);
  }

  // ------------------------------------------------------------- peers' queues

  /** ipfs_peer_request_queue_find_peer. */
  function PeerOf(n: Node, p: nat): (r: Request) {
    if p in n.peers then n.peers[p] else NEW_REQUEST
  }

  function SetPeer(n: Node, p: nat, r: Request): (r': Node) {
    n.(peers := n.peers[p := r])
  }

  /** What the environment decides about one peer: whether it can be connected to,
      and whether the message is then written. */
  datatype Contact = Contact(peer: nat, connected: bool, written: bool)

  const HEADER: bytes := [47, 105, 112, 102, 115, 47, 98, 105, 116, 115, 119, 97, 112, 47, 49, 46, 49, 46, 48, 10]

  /** ipfs_bitswap_peer_request_process_entry; the second result is what goes out. */
  function ProcessPeer(me: nat, n: Node, c: Contact): (r: (Node, seq<Packet>)) {
    var r := PeerOf(n, c.peer);
    if NeedToConnect(r) && c.connected then
      (SetPeer(n, c.peer, AfterOutgoing(n.store, r)),
       if c.written then [Packet(me, c.peer, HEADER + MessageBytes(Outgoing(n.store, r)))] else [])
    else (n, [])
  }

  /** ipfs_bitswap_wantlist_get_block_remote, once providers are found. */
  function AskProviders(me: nat, n: Node, cid: Cid, cs: seq<Contact>): (r: (Node, seq<Packet>)) {
    if cs == [] then (n, [])
    else
      var (n1, out1) := AskProviders(me, n, cid, cs[..|cs| - 1]);
      var c := cs[|cs| - 1];
      var (n2, out2) := ProcessPeer(me, SetPeer(n1, c.peer, WantOf(PeerOf(n1, c.peer), cid)), c);
      (n2, out1 + out2)
  }

  /** ipfs_bitswap_peer_request_queue_fill for every remote session. */
  function Fill(n: Node, ss: seq<Session>, block: Block): (r: Node) {
    if ss == [] then n
    else
      var n1 := Fill(n, ss[..|ss| - 1], block);
      match ss[|ss| - 1]
      case Local => n1
      case Remote(p) => var r := PeerOf(n1, p); SetPeer(n1, p, r.(toSend := r.toSend + [block]))
  }

  function SetWant(n: Node, i: nat, w: Want): (r: Node)
    requires i < |n.wants|
  {
    n.(wants := n.wants[i := w])
  }

  /** ipfs_bitswap_wantlist_process_entry. `providers` is what the router finds. */
  function ProcessWant(me: nat, n: Node, i: nat, providers: Option<seq<Contact>>): (r: (Node, seq<Packet>))
    requires i < |n.wants|
  {
    var w := n.wants[i];
    match Stored(n.store, w.cid)
    case Some(block) => (Fill(SetWant(n, i, w.(block := Some(block))), w.sessions, block), [])
    case None =>
      if Local !in w.sessions then (n, [])
      else match providers
           case None => (SetWant(n, i, w.(attempts := w.attempts + 1)), [])
           case Some(cs) =>
             var (n1, out) := AskProviders(me, n, w.cid, cs);
             AskKeepsWants(me, n, w.cid, cs);
             (SetWant(n1, i, w.(asked := true)), out)
  }

  lemma {:induction false} AskKeepsWants(me: nat, n: Node, cid: Cid, cs: seq<Contact>)
    ensures AskProviders(me, n, cid, cs).0.wants == n.wants && AskProviders(me, n, cid, cs).0.store == n.store
  {
    if cs != [] { AskKeepsWants(me, n, cid, cs[..|cs| - 1]); }
  }

  /** One turn of the wantlist processor. */
  function WantTurn(me: nat, n: Node, providers: Option<seq<Contact>>): (r: (Node, seq<Packet>)) {
    var i := Pop(n.wants);
    if i == -1 then (n, [])
    else
      var w := n.wants[i];
      if w.attempts > 10 then (SetWant(n, i, w.(sessions := DropSessions(w.sessions, 0))), [])
      else ProcessWant(me, n, i, providers)
  }

  // ------------------------------------------------------------- delivery

  /** ipfs_bitswap_has_block. */
  function HasBlock(n: Node, b: Block): (r: Node) {
    match b.cid
    case None => n
    case Some(cid) =>
      var i := Find(n.wants, cid);
      var n1 := n.(store := n.store[cid.hash := b.data]);
      if i == -1 then n1 else n1.(wants := n.wants[i := n.wants[i].(block := Some(b))])
  }

  function HasBlocks(n: Node, bs: seq<Block>): (r: Node) {
    if bs == [] then n else HasBlock(HasBlocks(n, bs[..|bs| - 1]), bs[|bs| - 1])
  }

  /** What becomes of a wantlist entry that arrives. The source's search through a
      queue that holds something is not relied on. */
  datatype Edit = Keep | Append | Remove(i: nat)

  /** In an empty queue there is nothing to search: an entry is appended, a cancel
      does nothing. */
  function Chosen(r: Request, e: WantlistEntry, edit: Edit): (r': Edit) {
    if r.theyWant != [] then edit else if e.cancel == 0 then Append else Keep
  }

  function Adjust(r: Request, cid: Cid, edit: Edit): (r': Request) {
    match edit
    case Keep => r
    case Append =>
      r.(theyWant := r.theyWant + [CidEntry(r.nextId, cid, false, false, false)], nextId := r.nextId + 1)
    case Remove(i) =>
      if i < |r.theyWant| then r.(theyWant := r.theyWant[..i] + r.theyWant[i + 1..]) else r
  }

  /** What each edit does to the queue; nothing else of the request changes but the
      next entry's number. */
  lemma AdjustIs(r: Request, cid: Cid, edit: Edit)
    ensures var r', es := Adjust(r, cid, edit), r.theyWant;
      && r' == r.(theyWant := r'.theyWant, nextId := r'.nextId)
      && (edit == Keep ==> r' == r)
      && (edit == Append ==> r'.theyWant == es + [CidEntry(r.nextId, cid, false, false, false)] && r'.nextId == r.nextId + 1)
      && forall k: nat :: edit == Remove(k) ==>
           if k < |es| then |r'.theyWant| == |es| - 1 && forall j :: 0 <= j < |es| - 1 ==> r'.theyWant[j] == es[if j < k then j else j + 1]
           else r' == r
  {
  }

  /** The entries from `i` on, up to the first without a usable cid. */
  function AdjustAll(r: Request, es: seq<WantlistEntry>, edits: seq<Edit>, i: nat): (r': Request)
    requires i <= |es|
    decreases |es| - i
  {
    if i == |es| then r
    else match Cids.Decode(es[i].block)
         case Some(Some(cid)) =>
           if cid.hash == [] then r
           else AdjustAll(Adjust(r, cid, Chosen(r, es[i], if i < |edits| then edits[i] else Keep)), es, edits, i + 1)
         case _ => r
  }

  /** What follows the first newline. */
  function Strip(data: bytes): (r: Option<bytes>) {
    if data == [] then None else if data[0] == 10 then Some(data[1..]) else Strip(data[1..])
  }

  /** The first newline is at k. */
  predicate NewlineAt(data: bytes, k: nat) {
    k < |data| && data[k] == 10 && forall j :: 0 <= j < k ==> data[j] != 10
  }

  /** What Strip gives is what lies behind the first newline. */
  lemma {:induction false} StripExactly(data: bytes)
    ensures Strip(data) == None <==> 10 !in data
    ensures forall k: nat :: NewlineAt(data, k) ==> Strip(data) == Some(data[k + 1..])
  {
    if data != [] && data[0] != 10 {
      StripExactly(data[1..]);
      forall k: nat | NewlineAt(data, k) ensures Strip(data) == Some(data[k + 1..]) {
        assert NewlineAt(data[1..], k - 1);
        assert data[1..][k..] == data[k + 1..];
      }
    }
  }

  lemma HeaderIs()
    ensures |HEADER| == 20 && forall i :: 0 <= i < 20 ==> HEADER[i] == "/ipfs/bitswap/1.1.0\n"[i] as int
  {
  }

  function Received(data: bytes): (r: Option<Message>) {
    match Strip(data)
    case None => None
    case Some(s) =>
      match Messages.Decode(s)
      case None => None
      case Some(m) => m
  }

  function Wanted(m: Message): (r: seq<WantlistEntry>) {
    match m.wantlist
    case None => []
    case Some(w) => Items(w.entries)
  }

  /** ipfs_bitswap_network_handle_message. */
  function HandleMessage(n: Node, source: nat, data: bytes, edits: seq<Edit>): (r: Node) {
    match Received(data)
    case None => n
    case Some(m) =>
      var n1 := HasBlocks(n, Items(m.payload));
      var es := Wanted(m);
      if es == [] then n1
      else SetPeer(n1, source, AdjustAll(PeerOf(n1, source), es, edits, 0))
  }

  // ------------------------------------------------------------- the system

  datatype Step =
    | Seek(me: nat, cid: Cid, session: Session)
    | Turn(me: nat, providers: Option<seq<Contact>>)
    | Serve(me: nat, c: Contact)
    | Deliver(k: nat, edits: seq<Edit>)
    | Store(me: nat, cid: Cid)
    | Recant(me: nat, p: nat, i: nat, cancel: bool)

  predicate Enabled(s: System, step: Step) {
    match step
    case Seek(me, cid, _) => me in s.nodes && Cids.IsInt(cid.version)
    case Turn(me, _) => me in s.nodes
    case Serve(me, _) => me in s.nodes
    case Deliver(k, _) => k < |s.net| && s.net[k].to in s.nodes
    case Store(me, cid) => me in s.nodes && Cids.IsInt(cid.version)
    case Recant(me, p, i, _) => me in s.nodes && i < |PeerOf(s.nodes[me], p).weWant|
  }

  function Update(s: System, me: nat, r: (Node, seq<Packet>)): (r': System) {
    System(s.nodes[me := r.0], s.net + r.1)
  }

  /** `truth` is the data that each hash stands for. */
  function Apply(truth: bytes -> bytes, s: System, step: Step): (r: System)
    requires Enabled(s, step)
  {
    match step
    case Seek(me, cid, session) =>
      var n := s.nodes[me];
      Update(s, me, (n.(wants := AddWant(n.wants, cid, session)), []))
    case Turn(me, providers) => Update(s, me, WantTurn(me, s.nodes[me], providers))
    case Serve(me, c) => Update(s, me, ProcessPeer(me, s.nodes[me], c))
    case Deliver(k, edits) =>
      var p := s.net[k];
      Update(s, p.to, (HandleMessage(s.nodes[p.to], p.source, p.data, edits), []))
    case Store(me, cid) => Update(s, me, (HasBlock(s.nodes[me], Blocks.Block(Some(cid), truth(cid.hash))), []))
    case Recant(me, p, i, cancel) =>
      var n := s.nodes[me];
      var r := PeerOf(n, p);
      Update(s, me, (SetPeer(n, p, r.(weWant := r.weWant[i := r.weWant[i].(cancel := cancel)])), []))
  }

  predicate IsRun(truth: bytes -> bytes, s: System, steps: seq<Step>)
    decreases |steps|, 0
  {
    steps == [] ||
    (IsRun(truth, s, steps[..|steps| - 1]) && Enabled(After(truth, s, steps[..|steps| - 1]), steps[|steps| - 1]))
  }

  function After(truth: bytes -> bytes, s: System, steps: seq<Step>): (r: System)
    requires IsRun(truth, s, steps)
    decreases |steps|, 1
  {
    if steps == [] then s else Apply(truth, After(truth, s, steps[..|steps| - 1]), steps[|steps| - 1])
  }
}

/** What every run of the system keeps. */
module BitswapSafety {
  import opened Basics
  import opened Wire
  import opened Messages
  import opened Requests
  import opened Bitswap
  import Blocks
  import Cids

  type Truth = bytes -> bytes

  // ------------------------------------------------------------- honesty

  predicate HonestBlock(truth: Truth, b: Block) {
    b.cid.Some? && Cids.IsInt(b.cid.value.version) && b.data == truth(b.cid.value.hash)
  }

  ghost predicate HonestBlocks(truth: Truth, bs: seq<Block>) {
    forall b <- bs :: HonestBlock(truth, b)
  }

  ghost predicate TypedCids(es: seq<CidEntry>) {
    forall e <- es :: Cids.IsInt(e.cid.version)
  }

  ghost predicate Agrees(truth: Truth, store: map<bytes, bytes>) {
    forall h <- store :: store[h] == truth(h)
  }

  /** A request holds honest blocks, has sent nothing twice and served nothing twice. */
  ghost predicate GoodRequest(truth: Truth, r: Request) {
    && HonestBlocks(truth, r.toSend) && TypedCids(r.theyWant) && TypedCids(r.weWant)
    && WantedOnce(r) && ServedOnce(r)
  }

  /** A filled entry holds the data its cid stands for, under a cid that compares
      equal; and an entry is tried eleven times at most. */
  predicate GoodWant(truth: Truth, w: Want) {
    && Cids.IsInt(w.cid.version)
    && (w.block.Some? ==> HonestBlock(truth, w.block.value) && w.block.value.cid == Some(w.cid))
    && w.attempts <= 11
  }

  ghost predicate GoodWants(truth: Truth, ws: seq<Want>) {
    (forall w <- ws :: GoodWant(truth, w)) && DistinctCids(ws)
  }

  ghost predicate GoodPeers(truth: Truth, peers: map<nat, Request>) {
    forall p <- peers :: GoodRequest(truth, peers[p])
  }

  ghost predicate GoodNode(truth: Truth, n: Node) {
    Agrees(truth, n.store) && GoodWants(truth, n.wants) && GoodPeers(truth, n.peers)
  }

  /** Whatever can be read from the bytes in flight is honest. */
  ghost predicate GoodPacket(truth: Truth, p: Packet) {
    Received(p.data).Some? ==> HonestBlocks(truth, Items(Received(p.data).value.payload))
  }

  ghost predicate GoodPackets(truth: Truth, ps: seq<Packet>) {
    forall p <- ps :: GoodPacket(truth, p)
  }

  ghost predicate Good(truth: Truth, s: System) {
    (forall me <- s.nodes :: GoodNode(truth, s.nodes[me])) && GoodPackets(truth, s.net)
  }

  /** At first nodes may hold any honest blocks, and nothing else has happened. */
  ghost predicate Init(truth: Truth, s: System) {
    && (forall me <- s.nodes :: Agrees(truth, s.nodes[me].store) && s.nodes[me].wants == [] && s.nodes[me].peers == map[])
    && s.net == []
  }

  // ------------------------------------------------------------- outgoing

  lemma NewRequestIsGood(truth: Truth)
    ensures GoodRequest(truth, NEW_REQUEST)
  {
  }

  lemma PeerIsGood(truth: Truth, n: Node, p: nat)
    requires GoodPeers(truth, n.peers)
    ensures GoodRequest(truth, PeerOf(n, p))
  {
    hide GoodRequest;
    NewRequestIsGood(truth);
  }

  lemma SetPeerIsGood(truth: Truth, n: Node, p: nat, r: Request)
    requires GoodNode(truth, n) && GoodRequest(truth, r)
    ensures GoodNode(truth, SetPeer(n, p, r))
  {
    hide GoodRequest, GoodWants, Agrees;
  }

  lemma {:induction false} BlocksForHonest(truth: Truth, store: map<bytes, bytes>, es: seq<CidEntry>)
    requires Agrees(truth, store) && TypedCids(es)
    ensures HonestBlocks(truth, BlocksFor(store, es))
  {
    if es != [] {
      assert es[|es| - 1] in es && forall e <- es[..|es| - 1] :: e in es;
      BlocksForHonest(truth, store, es[..|es| - 1]);
    }
  }

  lemma AfterOutgoingIsGood(truth: Truth, store: map<bytes, bytes>, r: Request)
    requires GoodRequest(truth, r)
    ensures GoodRequest(truth, AfterOutgoing(store, r))
  {
    hide WantedOnce, ServedOnce, TypedCids, Cids.IsInt, Answered, Marked, CancelAll, BlocksFor, SentNow, ServedNow;
    OutgoingKeepsWantedOnce(store, r);
    OutgoingKeepsServedOnce(store, r);
    var answered := Answered(store, r.theyWant);
    SameCids(r.theyWant, answered);
    SameCids(answered, CancelAll(answered, r.toSend + BlocksFor(store, r.theyWant)));
    SameCids(r.weWant, Marked(r.weWant));
  }

  lemma SameCids(es: seq<CidEntry>, es': seq<CidEntry>)
    requires |es| == |es'| && TypedCids(es) && forall i :: 0 <= i < |es| ==> es'[i].cid == es[i].cid
    ensures TypedCids(es')
  {
    hide Cids.IsInt;
    forall e <- es' ensures Cids.IsInt(e.cid.version) {
      var i :| 0 <= i < |es'| && es'[i] == e;
      assert es[i] in es;
    }
  }

  lemma {:induction false} ItemsAreTyped(es: seq<CidEntry>)
    ensures forall e <- WantItems(es) :: TypedEntry(e)
  {
    hide Cids.CidBytes;
    if es != [] { ItemsAreTyped(es[..|es| - 1]); }
  }

  lemma StripHeader(s: bytes)
    ensures Strip(HEADER + s) == Some(s)
  {
    StripStep(HEADER, s, 0);
  }

  lemma {:induction false} StripStep(header: bytes, s: bytes, i: nat)
    requires i < |header| && header[|header| - 1] == 10 && forall j :: 0 <= j < |header| - 1 ==> header[j] != 10
    ensures Strip((header + s)[i..]) == Some(s)
    ensures i == 0 ==> Strip(header + s) == Some(s)
    decreases |header| - i
  {
    var rest := (header + s)[i..];
    assert (header + s)[0..] == header + s;
    if i == |header| - 1 {
      assert rest[1..] == s;
    } else {
      StripStep(header, s, i + 1);
      assert rest[1..] == (header + s)[i + 1..];
    }
  }

  /** Four levels of encoding and decoding away, what arrives is what was sent, with
      empty vectors as NULL and the codecs that a char can hold. */
  lemma OutgoingIsReceived(truth: Truth, store: map<bytes, bytes>, r: Request)
    requires Agrees(truth, store) && GoodRequest(truth, r)
    ensures var m := Outgoing(store, r);
      var blocks := r.toSend + BlocksFor(store, r.theyWant);
      && Received(HEADER + MessageBytes(m)) == Some(Normal(m))
      && Items(Normal(m).payload) == NarrowedBlocks(blocks) && HonestBlocks(truth, blocks)
      && Wanted(Normal(m)) == WantItems(r.weWant)
      && Normal(m).blocks == None && Normal(m).wantlist == Some(Wantlist(NormalItems(WantItems(r.weWant)), 1))
  {
    hide MessageBytes, Messages.Decode, BlocksFor, WantItems, WantedOnce, ServedOnce, Cids.IsInt, TypedEntry;
    var m := Outgoing(store, r);
    BlocksForHonest(truth, store, r.theyWant);
    assert HonestBlocks(truth, r.toSend + BlocksFor(store, r.theyWant));
    ItemsAreTyped(r.weWant);
    StripHeader(MessageBytes(m));
    EmptyMessage(m);
    MessageRoundTrip(m);
  }

  lemma OutgoingIsGood(truth: Truth, me: nat, to: nat, store: map<bytes, bytes>, r: Request)
    requires Agrees(truth, store) && GoodRequest(truth, r)
    ensures GoodPacket(truth, Packet(me, to, HEADER + MessageBytes(Outgoing(store, r))))
  {
    hide MessageBytes, Received, Outgoing, Normal, BlocksFor, GoodRequest, Agrees;
    OutgoingIsReceived(truth, store, r);
    NarrowedIsHonest(truth, r.toSend + BlocksFor(store, r.theyWant));
  }

  lemma NarrowedIsHonest(truth: Truth, bs: seq<Block>)
    requires HonestBlocks(truth, bs)
    ensures HonestBlocks(truth, NarrowedBlocks(bs))
  {
    forall b <- NarrowedBlocks(bs) ensures HonestBlock(truth, b) {
      var i :| 0 <= i < |bs| && NarrowedBlocks(bs)[i] == b;
      assert bs[i] in bs;
    }
  }

  lemma ProcessPeerIsGood(truth: Truth, me: nat, n: Node, c: Contact)
    requires GoodNode(truth, n)
    ensures GoodNode(truth, ProcessPeer(me, n, c).0) && GoodPackets(truth, ProcessPeer(me, n, c).1)
  {
    hide GoodRequest, GoodWants, GoodPacket, Agrees, AfterOutgoing, Outgoing, MessageBytes, NeedToConnect;
    PeerIsGood(truth, n, c.peer);
    var r := PeerOf(n, c.peer);
    AfterOutgoingIsGood(truth, n.store, r);
    SetPeerIsGood(truth, n, c.peer, AfterOutgoing(n.store, r));
    OutgoingIsGood(truth, me, c.peer, n.store, r);
  }

  lemma WantOfIsGood(truth: Truth, r: Request, cid: Cid)
    requires GoodRequest(truth, r) && Cids.IsInt(cid.version)
    ensures GoodRequest(truth, WantOf(r, cid))
  {
    var r' := WantOf(r, cid);
    hide Cids.IsInt, HonestBlock;
    forall i, j | 0 <= i < j < |r'.weWant| ensures r'.weWant[i].id != r'.weWant[j].id {
      assert r.weWant[i] in r.weWant;
    }
  }

  lemma {:induction false} AskIsGood(truth: Truth, me: nat, n: Node, cid: Cid, cs: seq<Contact>)
    requires GoodNode(truth, n) && Cids.IsInt(cid.version)
    ensures GoodNode(truth, AskProviders(me, n, cid, cs).0) && GoodPackets(truth, AskProviders(me, n, cid, cs).1)
  {
    hide GoodRequest, GoodWants, GoodPacket, Agrees, Cids.IsInt, ProcessPeer, WantOf, PeerOf;
    if cs != [] {
      var c := cs[|cs| - 1];
      AskIsGood(truth, me, n, cid, cs[..|cs| - 1]);
      var n1 := AskProviders(me, n, cid, cs[..|cs| - 1]).0;
      PeerIsGood(truth, n1, c.peer);
      WantOfIsGood(truth, PeerOf(n1, c.peer), cid);
      SetPeerIsGood(truth, n1, c.peer, WantOf(PeerOf(n1, c.peer), cid));
      ProcessPeerIsGood(truth, me, SetPeer(n1, c.peer, WantOf(PeerOf(n1, c.peer), cid)), c);
    }
  }

  lemma SendIsGood(truth: Truth, r: Request, b: Block)
    requires GoodRequest(truth, r) && HonestBlock(truth, b)
    ensures GoodRequest(truth, r.(toSend := r.toSend + [b]))
  {
    hide HonestBlock, Cids.IsInt;
  }

  lemma {:induction false} FillIsGood(truth: Truth, n: Node, ss: seq<Session>, b: Block)
    requires GoodNode(truth, n) && HonestBlock(truth, b)
    ensures GoodNode(truth, Fill(n, ss, b)) && Fill(n, ss, b).wants == n.wants && Fill(n, ss, b).store == n.store
  {
    hide GoodRequest, GoodWants, Agrees, HonestBlock, PeerOf;
    if ss != [] {
      FillIsGood(truth, n, ss[..|ss| - 1], b);
      var n1 := Fill(n, ss[..|ss| - 1], b);
      if ss[|ss| - 1].Remote? {
        var p := ss[|ss| - 1].peer;
        PeerIsGood(truth, n1, p);
        SendIsGood(truth, PeerOf(n1, p), b);
        SetPeerIsGood(truth, n1, p, PeerOf(n1, p).(toSend := PeerOf(n1, p).toSend + [b]));
      }
    }
  }

  lemma SetWantIsGood(truth: Truth, n: Node, i: nat, w: Want)
    requires GoodNode(truth, n) && i < |n.wants| && GoodWant(truth, w) && w.cid == n.wants[i].cid
    ensures GoodNode(truth, SetWant(n, i, w))
  {
    hide GoodRequest, Agrees, GoodWant;
    var n' := SetWant(n, i, w);
    forall x <- n'.wants ensures GoodWant(truth, x) {
      var j :| 0 <= j < |n'.wants| && n'.wants[j] == x;
      if j != i { assert n.wants[j] in n.wants; }
    }
  }

  lemma WantTurnIsGood(truth: Truth, me: nat, n: Node, providers: Option<seq<Contact>>)
    requires GoodNode(truth, n)
    ensures GoodNode(truth, WantTurn(me, n, providers).0) && GoodPackets(truth, WantTurn(me, n, providers).1)
  {
    hide GoodRequest, GoodPeers, GoodPacket, Fill, AskProviders, SetWant, DropSessions, Pop;
    var i := Pop(n.wants);
    if i != -1 {
      var w := n.wants[i];
      assert w in n.wants;
      if w.attempts > 10 {
        SetWantIsGood(truth, n, i, w.(sessions := DropSessions(w.sessions, 0)));
      } else if Stored(n.store, w.cid).Some? {
        var b := Stored(n.store, w.cid).value;
        SetWantIsGood(truth, n, i, w.(block := Some(b)));
        FillIsGood(truth, SetWant(n, i, w.(block := Some(b))), w.sessions, b);
      } else if Local in w.sessions {
        match providers
        case None => SetWantIsGood(truth, n, i, w.(attempts := w.attempts + 1));
        case Some(cs) =>
          AskKeepsWants(me, n, w.cid, cs);
          AskIsGood(truth, me, n, w.cid, cs);
          SetWantIsGood(truth, AskProviders(me, n, w.cid, cs).0, i, w.(asked := true));
      }
    }
  }

  // ------------------------------------------------------------- delivery

  lemma HasBlockIsGood(truth: Truth, n: Node, b: Block)
    requires GoodNode(truth, n) && HonestBlock(truth, b)
    ensures GoodNode(truth, HasBlock(n, b))
  {
    hide GoodRequest, GoodPeers, Find;
    var cid := b.cid.value;
    var i := Find(n.wants, cid);
    var n1 := n.(store := n.store[cid.hash := b.data]);
    assert GoodNode(truth, n1);
    if i != -1 {
      assert n.wants[i] in n.wants;
      SetWantIsGood(truth, n1, i, n.wants[i].(block := Some(b)));
    }
  }

  lemma {:induction false} HasBlocksIsGood(truth: Truth, n: Node, bs: seq<Block>)
    requires GoodNode(truth, n) && HonestBlocks(truth, bs)
    ensures GoodNode(truth, HasBlocks(n, bs))
  {
    hide GoodNode, HonestBlock, HasBlock;
    if bs != [] {
      assert bs[|bs| - 1] in bs && forall b <- bs[..|bs| - 1] :: b in bs;
      HasBlocksIsGood(truth, n, bs[..|bs| - 1]);
      HasBlockIsGood(truth, HasBlocks(n, bs[..|bs| - 1]), bs[|bs| - 1]);
    }
  }

  lemma AdjustIsGood(truth: Truth, r: Request, cid: Cid, edit: Edit)
    requires GoodRequest(truth, r) && Cids.IsInt(cid.version)
    ensures GoodRequest(truth, Adjust(r, cid, edit))
  {
    hide Cids.IsInt, HonestBlock;
    var r' := Adjust(r, cid, edit);
    match edit
    case Keep =>
    case Append =>
      forall i, j | 0 <= i < j < |r'.theyWant| ensures r'.theyWant[i].id != r'.theyWant[j].id {
        assert r.theyWant[i] in r.theyWant;
      }
    case Remove(k) =>
      if k < |r.theyWant| { RemoveIsGood(r, k); }
  }

  lemma RemoveIsGood(r: Request, k: nat)
    requires ServedOnce(r) && k < |r.theyWant|
    ensures var es := r.theyWant[..k] + r.theyWant[k + 1..];
      DistinctIds(es) && (forall e <- es :: e in r.theyWant)
  {
    var es := r.theyWant[..k] + r.theyWant[k + 1..];
    forall i, j | 0 <= i < j < |es| ensures es[i].id != es[j].id {
      var x := if i < k then i else i + 1;
      var y := if j < k then j else j + 1;
      assert es[i] == r.theyWant[x] && es[j] == r.theyWant[y];
    }
  }

  lemma DecodedCidIsTyped(s: bytes)
    requires Cids.Decode(s).Some? && Cids.Decode(s).value.Some?
    ensures Cids.IsInt(Cids.Decode(s).value.value.version)
  {
    FoldIsTyped(s, Cids.Cid(0, 0, []));
  }

  lemma {:induction false} FoldIsTyped(s: bytes, c: Cid)
    requires Cids.IsInt(c.version) && Wire.Decode(Cids.SCHEMA, Cids.Apply, s, c).Some?
    ensures Cids.IsInt(Wire.Decode(Cids.SCHEMA, Cids.Apply, s, c).value.version)
    decreases |s|
  {
    hide ReadField;
    if s != [] {
      match ReadField(Cids.SCHEMA, s)
      case Some((Skip, rest)) => FoldIsTyped(rest, c);
      case Some((Got(f), rest)) => FoldIsTyped(rest, Cids.Apply(c, f).value);
    }
  }

  lemma {:induction false} AdjustAllIsGood(truth: Truth, r: Request, es: seq<WantlistEntry>, edits: seq<Edit>, i: nat)
    requires GoodRequest(truth, r) && i <= |es|
    ensures GoodRequest(truth, AdjustAll(r, es, edits, i))
    decreases |es| - i
  {
    hide GoodRequest, Adjust, Cids.Decode, Cids.IsInt;
    if i < |es| {
      match Cids.Decode(es[i].block)
      case Some(Some(cid)) =>
        if cid.hash != [] {
          var edit := Chosen(r, es[i], if i < |edits| then edits[i] else Keep);
          DecodedCidIsTyped(es[i].block);
          AdjustIsGood(truth, r, cid, edit);
          AdjustAllIsGood(truth, Adjust(r, cid, edit), es, edits, i + 1);
        }
      case _ =>
    }
  }

  lemma HandleMessageIsGood(truth: Truth, n: Node, p: Packet, edits: seq<Edit>)
    requires GoodNode(truth, n) && GoodPacket(truth, p)
    ensures GoodNode(truth, HandleMessage(n, p.source, p.data, edits))
  {
    hide GoodRequest, GoodWants, Agrees, HonestBlocks, HasBlocks, AdjustAll, Received, PeerOf;
    if Received(p.data).Some? {
      var m := Received(p.data).value;
      HasBlocksIsGood(truth, n, Items(m.payload));
      var n1, es := HasBlocks(n, Items(m.payload)), Wanted(m);
      if es != [] {
        PeerIsGood(truth, n1, p.source);
        AdjustAllIsGood(truth, PeerOf(n1, p.source), es, edits, 0);
        SetPeerIsGood(truth, n1, p.source, AdjustAll(PeerOf(n1, p.source), es, edits, 0));
      }
    }
  }

  // ------------------------------------------------------------- other steps

  lemma AddWantIsGood(truth: Truth, ws: seq<Want>, cid: Cid, session: Session)
    requires GoodWants(truth, ws) && Cids.IsInt(cid.version)
    ensures GoodWants(truth, AddWant(ws, cid, session))
  {
    hide Find;
    var i := Find(ws, cid);
    var ws' := AddWant(ws, cid, session);
    forall w <- ws' ensures GoodWant(truth, w) {
      var j :| 0 <= j < |ws'| && ws'[j] == w;
      if j < |ws| { assert ws[j] in ws; }
    }
  }

  lemma RecantIsGood(truth: Truth, r: Request, i: nat, cancel: bool)
    requires GoodRequest(truth, r) && i < |r.weWant|
    ensures GoodRequest(truth, r.(weWant := r.weWant[i := r.weWant[i].(cancel := cancel)]))
  {
    hide HonestBlock, Cids.IsInt;
    var r' := r.(weWant := r.weWant[i := r.weWant[i].(cancel := cancel)]);
    forall e <- r'.weWant
      ensures exists x <- r.weWant :: x.id == e.id && x.cid == e.cid && x.cancelSent == e.cancelSent && x.requestSent == e.requestSent
    {
      var j :| 0 <= j < |r'.weWant| && r'.weWant[j] == e;
      assert r.weWant[j] in r.weWant;
    }
  }

  // ------------------------------------------------------------- every run

  lemma UpdateIsGood(truth: Truth, s: System, me: nat, r: (Node, seq<Packet>))
    requires Good(truth, s) && GoodNode(truth, r.0) && GoodPackets(truth, r.1)
    ensures Good(truth, Update(s, me, r))
  {
    hide GoodNode, GoodPacket;
  }

  lemma StepIsGood(truth: Truth, s: System, step: Step)
    requires Good(truth, s) && Enabled(s, step)
    ensures Good(truth, Apply(truth, s, step))
  {
    hide GoodRequest, GoodPacket, GoodWants, Agrees, WantTurn, ProcessPeer, HandleMessage, HasBlock, AddWant, PeerOf;
    match step
    case Seek(me, cid, session) =>
      var n := s.nodes[me];
      AddWantIsGood(truth, n.wants, cid, session);
      UpdateIsGood(truth, s, me, (n.(wants := AddWant(n.wants, cid, session)), []));
    case Turn(me, providers) =>
      WantTurnIsGood(truth, me, s.nodes[me], providers);
      UpdateIsGood(truth, s, me, WantTurn(me, s.nodes[me], providers));
    case Serve(me, c) =>
      ProcessPeerIsGood(truth, me, s.nodes[me], c);
      UpdateIsGood(truth, s, me, ProcessPeer(me, s.nodes[me], c));
    case Deliver(k, edits) =>
      var p := s.net[k];
      HandleMessageIsGood(truth, s.nodes[p.to], p, edits);
      UpdateIsGood(truth, s, p.to, (HandleMessage(s.nodes[p.to], p.source, p.data, edits), []));
    case Store(me, cid) =>
      var b := Blocks.Block(Some(cid), truth(cid.hash));
      HasBlockIsGood(truth, s.nodes[me], b);
      UpdateIsGood(truth, s, me, (HasBlock(s.nodes[me], b), []));
    case Recant(me, p, i, cancel) =>
      var n := s.nodes[me];
      var r := PeerOf(n, p);
      PeerIsGood(truth, n, p);
      RecantIsGood(truth, r, i, cancel);
      var r' := r.(weWant := r.weWant[i := r.weWant[i].(cancel := cancel)]);
      SetPeerIsGood(truth, n, p, r');
      UpdateIsGood(truth, s, me, (SetPeer(n, p, r'), []));
  }

  lemma InitIsGood(truth: Truth, s: System)
    requires Init(truth, s)
    ensures Good(truth, s)
  {
  }

  /** In every state of every run: all stores, all bytes in flight and all filled
      wants hold the data that their cids stand for, whatever the network does;
      and no request, cancel or answer has gone out twice. */
  lemma {:induction false} EveryRunIsGood(truth: Truth, s: System, steps: seq<Step>)
    requires Init(truth, s) && IsRun(truth, s, steps)
    ensures Good(truth, After(truth, s, steps))
  {
    hide Good, Apply, Enabled;
    if steps == [] {
      InitIsGood(truth, s);
    } else {
      EveryRunIsGood(truth, s, steps[..|steps| - 1]);
      StepIsGood(truth, After(truth, s, steps[..|steps| - 1]), steps[|steps| - 1]);
    }
  }

  /** What that says of any node `me` in any run. */
  lemma {:induction false} DataIntegrity(truth: Truth, s: System, steps: seq<Step>, me: nat)
    requires Init(truth, s) && IsRun(truth, s, steps) && me in After(truth, s, steps).nodes
    ensures var n := After(truth, s, steps).nodes[me];
      && (forall h <- n.store :: n.store[h] == truth(h))
      && (forall w <- n.wants :: w.attempts <= 11)
      && (forall w <- n.wants :: w.block.Some? ==> w.block.value.cid == Some(w.cid) && w.block.value.data == truth(w.cid.hash))
  {
    hide GoodPeers, GoodPackets, Apply, Enabled, IsRun, After;
    EveryRunIsGood(truth, s, steps);
  }

  /** And of any message on its way. */
  lemma {:induction false} PayloadIntegrity(truth: Truth, s: System, steps: seq<Step>, p: Packet)
    requires Init(truth, s) && IsRun(truth, s, steps) && p in After(truth, s, steps).net && Received(p.data).Some?
    ensures forall b <- Items(Received(p.data).value.payload) :: b.cid.Some? && b.data == truth(b.cid.value.hash)
  {
    hide GoodNode, Received, Apply, Enabled, IsRun, After;
    EveryRunIsGood(truth, s, steps);
  }
}
