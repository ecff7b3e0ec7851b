/** The lists behind bitswap as the threads update them: struct PeerRequest and
    the queue of them (exchange/bitswap/peer_request_queue.c, message.c), and the
    wantlist (exchange/bitswap/wantlist_queue.c). */
module BitswapQueues {
  import opened Basics
  import opened Messages
  import opened Requests
  import Bitswap
  import Cids

  type Want = Bitswap.Want
  type Session = Bitswap.Session

  lemma BlocksForStep(store: map<bytes, bytes>, es: seq<CidEntry>, i: nat)
    ensures BlocksFor(store, []) == [] && ServedNow(store, []) == []
    ensures i < |es| ==>
      && BlocksFor(store, es[..i + 1]) == BlocksFor(store, es[..i]) + (if Served(store, es[i]) then [Stored(store, es[i].cid).value] else [])
      && ServedNow(store, es[..i + 1]) == ServedNow(store, es[..i]) + if Served(store, es[i]) then [es[i].id] else []
  {
    if i < |es| { assert es[..i + 1][..i] == es[..i]; }
  }

  lemma WantItemsStep(es: seq<CidEntry>, i: nat)
    ensures WantItems([]) == [] && SentNow([]) == []
    ensures i < |es| ==>
      && WantItems(es[..i + 1]) == WantItems(es[..i]) + (if Due(es[i]) then [ItemOf(es[i])] else [])
      && SentNow(es[..i + 1]) == SentNow(es[..i]) + if Due(es[i]) then [Sent(es[i].id, es[i].cancel)] else []
  {
    if i < |es| { assert es[..i + 1][..i] == es[..i]; }
  }

  class PeerRequest {
    const peer: nat
    var theyWant: seq<CidEntry>
    var weWant: seq<CidEntry>
    var toSend: seq<Block>
    var nextId: nat
    ghost var served: seq<nat>
    ghost var sent: seq<Sent>

    ghost function Value(): (r: Request)
      reads this
    {
      Request(theyWant, weWant, toSend, served, sent, nextId)
    }

    /** ipfs_bitswap_peer_request_new. */
    constructor (peer: nat)
      ensures this.peer == peer && Value() == NEW_REQUEST
    {
      this.peer := peer;
      theyWant, weWant, toSend, nextId := [], [], [], 0;
      served, sent := [], [];
    }

    /** ipfs_bitswap_peer_request_we_want_cids. */
    method RunWeWantCids() returns (r: bool)
      ensures r <==> WeWantCids(weWant)
    {
      for i := 0 to |weWant|
        invariant forall k :: 0 <= k < i ==> !Due(weWant[k])
      {
        if weWant[i].cancel && !weWant[i].cancelSent { return true; }
        if !weWant[i].cancel && !weWant[i].requestSent { return true; }
      }
      return false;
    }

    /** ipfs_bitswap_peer_request_cids_waiting. */
    method RunCidsWaiting() returns (r: bool)
      ensures r <==> CidsWaiting(theyWant)
    {
      for i := 0 to |theyWant|
        invariant forall k :: 0 <= k < i ==> theyWant[k].cancel
      {
        if !theyWant[i].cancel { return true; }
      }
      return false;
    }

    /** ipfs_bitswap_peer_request_get_blocks_they_want. */
    method GetBlocksTheyWant(store: map<bytes, bytes>)
      modifies this`theyWant, this`toSend, this`served
      ensures theyWant == Answered(store, old(theyWant))
      ensures toSend == old(toSend) + BlocksFor(store, old(theyWant))
      ensures served == old(served) + ServedNow(store, old(theyWant))
    {
      hide Answered, BlocksFor, ServedNow;
      ghost var was := theyWant;
      BlocksForStep(store, was, 0);
      for i := 0 to |theyWant|
        invariant |theyWant| == |was|
        invariant forall k :: 0 <= k < i ==> theyWant[k] == if Served(store, was[k]) then was[k].(cancel := true) else was[k]
        invariant forall k :: i <= k < |was| ==> theyWant[k] == was[k]
        invariant toSend == old(toSend) + BlocksFor(store, was[..i])
        invariant served == old(served) + ServedNow(store, was[..i])
      {
        BlocksForStep(store, was, i);
        var entry := theyWant[i];
        if !entry.cancel {
          var block := Stored(store, entry.cid);
          if block.Some? {
            toSend := toSend + [block.value];
            theyWant := theyWant[i := entry.(cancel := true)];
            served := served + [entry.id];
          }
        }
      }
      assert was[..|was|] == was;
    }

    /** ipfs_bitswap_message_cancel_cid. */
    method CancelCid(cid: Option<Cid>) returns (found: bool)
      modifies this`theyWant
      ensures theyWant == CancelFrom(old(theyWant), cid, 0)
      ensures found <==> exists e <- old(theyWant) :: Some(e.cid) == cid
    {
      for i := 0 to |theyWant|
        invariant theyWant == old(theyWant)
        invariant CancelFrom(theyWant, cid, i) == CancelFrom(theyWant, cid, 0)
        invariant forall k :: 0 <= k < i ==> Some(theyWant[k].cid) != cid
      {
        if Some(theyWant[i].cid) == cid {
          theyWant := theyWant[i := theyWant[i].(cancel := true)];
          return true;
        }
      }
      return false;
    }

    /** ipfs_bitswap_message_add_blocks on a new message: its payload. */
    method AddBlocks() returns (payload: Option<seq<Block>>)
      modifies this`theyWant, this`toSend
      ensures payload == NormalItems(old(toSend)) && toSend == []
      ensures theyWant == CancelAll(old(theyWant), old(toSend))
    {
      if toSend == [] { return None; }
      var blocks: seq<Block> := [];
      var total := |toSend|;
      ghost var was := toSend;
      for i := 0 to total
        invariant toSend == was && blocks == was[..i]
        invariant theyWant == CancelAll(old(theyWant), was[..i])
      {
        assert was[..i + 1][..i] == was[..i];
        blocks := blocks + [toSend[i]];
        var _ := CancelCid(toSend[i].cid);
      }
      assert was[..total] == was;
      for i := 0 to total
        invariant toSend == was[i..] && theyWant == CancelAll(old(theyWant), was)
      {
        toSend := toSend[1..];
      }
      payload := Some(blocks);
    }

    /** ipfs_bitswap_message_add_wantlist_items: what it appends. */
    method AddWantlistItems() returns (items: seq<WantlistEntry>)
      modifies this`weWant, this`sent
      ensures items == WantItems(old(weWant))
      ensures weWant == Marked(old(weWant)) && sent == old(sent) + SentNow(old(weWant))
    {
      hide ItemOf, Marked, WantItems, SentNow;
      items := [];
      ghost var was := weWant;
      WantItemsStep(was, 0);
      for i := 0 to |weWant|
        invariant |weWant| == |was|
        invariant forall k :: 0 <= k < i ==> weWant[k] == if Due(was[k]) then Mark(was[k]) else was[k]
        invariant forall k :: i <= k < |was| ==> weWant[k] == was[k]
        invariant items == WantItems(was[..i])
        invariant sent == old(sent) + SentNow(was[..i])
      {
        WantItemsStep(was, i);
        var entry := weWant[i];
        if entry.cancel && entry.cancelSent { continue; }
        if !entry.cancel && entry.requestSent { continue; }
        items := items + [ItemOf(entry)];
        sent := sent + [Sent(entry.id, entry.cancel)];
        weWant := weWant[i := if entry.cancel then entry.(cancelSent := true) else entry.(requestSent := true)];
      }
      assert was[..|was|] == was;
    }

    /** ipfs_bitswap_peer_request_process_entry up to the sending: the message to
        send, if there is cause and a connection. */
    method ProcessEntry(store: map<bytes, bytes>, connected: bool) returns (message: Option<Message>)
      modifies this
      ensures message == if connected && NeedToConnect(old(Value())) then Some(Outgoing(store, old(Value()))) else None
      ensures Value() == if message.Some? then AfterOutgoing(store, old(Value())) else old(Value())
    {
      hide WeWantCids, CidsWaiting, BlocksFor, Answered, ServedNow, CancelAll, WantItems, Marked, SentNow, NormalItems;
      var wanted := RunWeWantCids();
      var waiting := RunCidsWaiting();
      if (wanted || waiting || |toSend| != 0) && connected {
        GetBlocksTheyWant(store);
        var payload := AddBlocks();
        var items := AddWantlistItems();
        message := Some(Message(None, payload, Some(Wantlist(Some(items), 1))));
      } else {
        message := None;
      }
    }

    /** The part of ipfs_bitswap_wantlist_get_block_remote for one provider. */
    method WantCid(cid: Cid)
      modifies this`weWant, this`nextId
      ensures Value() == WantOf(old(Value()), cid)
    {
      weWant := weWant + [CidEntry(nextId, cid, false, false, false)];
      nextId := nextId + 1;
    }

    /** What ipfs_bitswap_network_adjust_cid_queue may do. */
    method AdjustCidQueue(cid: Cid, entry: WantlistEntry, edit: Bitswap.Edit)
      modifies this`theyWant, this`nextId
      ensures Value() == Bitswap.Adjust(old(Value()), cid, Bitswap.Chosen(old(Value()), entry, edit))
    {
      var chosen := if |theyWant| > 0 then edit else if entry.cancel == 0 then Bitswap.Append else Bitswap.Keep;
      match chosen
      case Keep =>
      case Append =>
        theyWant := theyWant + [CidEntry(nextId, cid, false, false, false)];
        nextId := nextId + 1;
      case Remove(i) =>
        if i < |theyWant| {
          theyWant := theyWant[..i] + theyWant[i + 1..];
        }
    }

    /** The wantlist loop of ipfs_bitswap_network_handle_message. */
    method AdjustAll(es: seq<WantlistEntry>, edits: seq<Bitswap.Edit>) returns (ok: bool)
      modifies this
      ensures Value() == Bitswap.AdjustAll(old(Value()), es, edits, 0)
      ensures ok ==> forall e <- es :: Cids.Decode(e.block).Some? && Cids.Decode(e.block).value.Some?
    {
      hide Bitswap.Adjust, Cids.Decode;
      for i := 0 to |es|
        invariant Bitswap.AdjustAll(Value(), es, edits, i) == Bitswap.AdjustAll(old(Value()), es, edits, 0)
        invariant forall k :: 0 <= k < i ==> Cids.Decode(es[k].block).Some? && Cids.Decode(es[k].block).value.Some?
      {
        var cid := Cids.RunDecode(es[i].block);
        if cid.None? || cid.value.None? || cid.value.value.hash == [] { return false; }
        AdjustCidQueue(cid.value.value, es[i], if i < |edits| then edits[i] else Bitswap.Keep);
      }
      return true;
    }

    /** The vector operation of ipfs_bitswap_peer_request_queue_fill. */
    method AddBlock(block: Block)
      modifies this`toSend
      ensures Value() == old(Value()).(toSend := old(toSend) + [block])
    {
      toSend := toSend + [block];
    }
  }

  // ------------------------------------------------------------ the peers' queue

  class PeerRequestEntry {
    const current: PeerRequest
    var next: PeerRequestEntry?
    var prior: PeerRequestEntry?

    constructor (current: PeerRequest)
      ensures this.current == current && next == null && prior == null
    {
      this.current := current;
      next, prior := null, null;
    }
  }

  /** Each entry is one peer's, and each peer has one entry. */
  ghost predicate Indexed(entries: seq<PeerRequestEntry>, requests: map<nat, PeerRequest>) {
    && (forall p <- requests :: requests[p].peer == p && exists i :: 0 <= i < |entries| && entries[i].current == requests[p])
    && (forall i :: 0 <= i < |entries| ==> entries[i].current.peer in requests && requests[entries[i].current.peer] == entries[i].current)
    && (forall i, j :: 0 <= i < j < |entries| ==> entries[i].current.peer != entries[j].current.peer)
  }

  lemma IndexedAppend(entries: seq<PeerRequestEntry>, requests: map<nat, PeerRequest>, entry: PeerRequestEntry)
    requires Indexed(entries, requests) && entry.current.peer !in requests
    ensures Indexed(entries + [entry], requests[entry.current.peer := entry.current])
  {
    var es := entries + [entry];
    forall p <- requests ensures exists i :: 0 <= i < |es| && es[i].current == requests[p] {
      var i :| 0 <= i < |entries| && entries[i].current == requests[p];
      assert es[i].current == requests[p];
    }
    assert es[|entries|].current == entry.current;
  }

  class PeerRequestQueue {
    var first: PeerRequestEntry?
    var last: PeerRequestEntry?
    ghost var entries: seq<PeerRequestEntry>
    /** Each peer's one request. */
    ghost var requests: map<nat, PeerRequest>
    ghost var repr: set<object>

    ghost predicate Linked()
      reads this, entries
    {
      && (if entries == [] then first == null && last == null else first == entries[0] && last == entries[|entries| - 1] && last.next == null)
      && (forall i, j :: 0 <= i < j < |entries| ==> entries[i] != entries[j])
      && (forall i :: 0 <= i < |entries| - 1 ==> entries[i].next == entries[i + 1] && entries[i + 1].prior == entries[i])
    }

    ghost predicate Owned()
      reads this
    {
      (forall i :: 0 <= i < |entries| ==> entries[i] in repr) && (forall p <- requests :: requests[p] in repr)
    }

    ghost predicate Valid()
      reads this, entries
    {
      Linked() && Indexed(entries, requests) && Owned()
    }

    ghost function Requests(): (r: set<PeerRequest>)
      reads this
    {
      requests.Values
    }

    ghost function Value(): (r: map<nat, Request>)
      reads this, Requests()
    {
      map p | p in requests :: requests[p].Value()
    }

    constructor ()
      ensures Valid() && Value() == map[] && entries == [] && repr == {}
    {
      first, last := null, null;
      entries, requests, repr := [], map[], {};
    }

    lemma LastOwned()
      requires Valid()
      ensures last != null ==> last in repr
    {
    }

    lemma Apart(peer: nat)
      requires Valid() && peer in requests
      ensures requests[peer] in repr && forall p <- requests :: p != peer ==> requests[p] != requests[peer]
    {
      assert forall p <- requests :: requests[p].peer == p;
    }

    /** ipfs_bitswap_peer_request_queue_find_entry. */
    method FindEntry(peer: nat) returns (entry: PeerRequestEntry?)
      requires Valid()
      ensures entry == null <==> peer !in requests
      ensures entry != null ==> entry in entries && entry.current == requests[peer]
    {
      entry := first;
      ghost var i := 0;
      while entry != null
        invariant 0 <= i <= |entries|
        invariant if i == |entries| then entry == null else entry == entries[i]
        invariant forall k :: 0 <= k < i ==> entries[k].current.peer != peer
        decreases |entries| - i
      {
        if entry.current.peer == peer { return; }
        entry := entry.next;
        i := i + 1;
      }
    }

    /** The part of ipfs_peer_request_queue_find_peer that links a new entry. */
    method Append(request: PeerRequest) returns (entry: PeerRequestEntry)
      requires Linked() && Owned()
      modifies this, last
      ensures Linked() && Owned() && fresh(entry) && entry.current == request && repr == old(repr) + {entry, request}
      ensures entries == old(entries) + [entry] && requests == old(requests)[request.peer := request]
    {
      entry := new PeerRequestEntry(request);
      if first == null {
        first := entry;
        last := entry;
      } else {
        last.next := entry;
        entry.prior := last;
        last := entry;
      }
      entries := entries + [entry];
      requests := requests[request.peer := request];
      repr := repr + {entry, request};
    }

    /** ipfs_peer_request_queue_find_peer: the peer's request, new at the end of
        the list if there was none. */
    method FindPeer(peer: nat) returns (request: PeerRequest)
      requires Valid()
      modifies this, last
      ensures Valid() && peer in requests && request == requests[peer] && entries != [] && old(repr) <= repr && fresh(repr - old(repr))
      ensures entries == if peer in old(requests) then old(entries) else old(entries) + [entries[|entries| - 1]]
      ensures request.Value() == if peer in old(Value()) then old(Value())[peer] else NEW_REQUEST
      ensures Value() == old(Value())[peer := request.Value()]
    {
      hide Linked, Indexed, Owned;
      var found := FindEntry(peer);
      if found != null { return found.current; }
      request := new PeerRequest(peer);
      var entry := Append(request);
      IndexedAppend(old(entries), old(requests), entry);
    }

    /** The queueing in ipfs_bitswap_wantlist_get_block_remote for one provider. */
    method WantFrom(peer: nat, cid: Cid) returns (request: PeerRequest)
      requires Valid()
      modifies this, repr
      ensures Valid() && peer in requests && request == requests[peer] && old(repr) <= repr && fresh(repr - old(repr))
      ensures Value() == old(Value())[peer := WantOf(if peer in old(Value()) then old(Value())[peer] else NEW_REQUEST, cid)]
    {
      hide Valid, WantOf;
      LastOwned();
      request := FindPeer(peer);
      Apart(peer);
      ghost var found := Value();
      request.WantCid(cid);
      assert Value() == found[peer := request.Value()];
      hide Value;
      assert found[peer := request.Value()] == old(Value())[peer := request.Value()];
    }

    /** What the wantlist of a message from `peer` changes. */
    method Receive(peer: nat, es: seq<WantlistEntry>, edits: seq<Bitswap.Edit>) returns (ok: bool)
      requires Valid()
      modifies this, repr
      ensures Valid() && old(repr) <= repr && fresh(repr - old(repr))
      ensures var r := if peer in old(Value()) then old(Value())[peer] else NEW_REQUEST;
        Value() == old(Value())[peer := Bitswap.AdjustAll(r, es, edits, 0)]
    {
      hide Valid, Bitswap.AdjustAll;
      LastOwned();
      var request := FindPeer(peer);
      Apart(peer);
      ghost var found := Value();
      ok := request.AdjustAll(es, edits);
      assert Value() == found[peer := request.Value()];
      hide Value;
      assert found[peer := request.Value()] == old(Value())[peer := request.Value()];
    }

    /** ipfs_bitswap_peer_request_queue_fill. */
    method Fill(peer: nat, block: Block)
      requires Valid()
      modifies this, repr
      ensures Valid() && old(repr) <= repr && fresh(repr - old(repr))
      ensures var r := if peer in old(Value()) then old(Value())[peer] else NEW_REQUEST;
        Value() == old(Value())[peer := r.(toSend := r.toSend + [block])]
    {
      hide Valid;
      LastOwned();
      var request := FindPeer(peer);
      Apart(peer);
      ghost var found := Value();
      request.AddBlock(block);
      assert Value() == found[peer := request.Value()];
      hide Value;
      assert found[peer := request.Value()] == old(Value())[peer := request.Value()];
    }
  }

  // ----------------------------------------------------------------- the wantlist

  class WantlistQueue {
    var queue: seq<Want>

    ghost predicate Valid()
      reads this
    {
      Bitswap.DistinctCids(queue)
    }

    constructor ()
      ensures Valid() && queue == []
    {
      queue := [];
    }

    /** ipfs_bitswap_wantlist_queue_find. */
    method Find(cid: Cid) returns (i: int)
      ensures i == Bitswap.Find(queue, cid)
    {
      for k := 0 to |queue|
        invariant forall j :: 0 <= j < k ==> queue[j].cid != cid
      {
        if queue[k].cid == cid { return k; }
      }
      return -1;
    }

    /** ipfs_bitswap_wantlist_queue_add: the index of the entry. */
    method Add(cid: Cid, session: Session) returns (i: nat)
      requires Valid()
      modifies this
      ensures Valid() && queue == Bitswap.AddWant(old(queue), cid, session)
      ensures i < |queue| && queue[i].cid == cid
    {
      var k := Find(cid);
      if k == -1 {
        var entry := Bitswap.Want(cid, [], None, false, 0);
        entry := entry.(sessions := entry.sessions + [session]);
        queue := queue + [entry];
        k := |queue| - 1;
      }
      i := k;
      queue := queue[i := queue[i].(sessions := queue[i].sessions + [session])];
      assert i == |old(queue)| ==> queue[i].sessions == [session, session];
    }

    /** ipfs_bitswap_wantlist_queue_pop. */
    method Pop() returns (i: int)
      ensures i == Bitswap.Pop(queue)
    {
      for k := 0 to |queue|
        invariant forall j :: 0 <= j < k ==> !Bitswap.Open(queue[j])
      {
        if queue[k].block.None? && !queue[k].asked { return k; }
      }
      return -1;
    }

    /** ipfs_bitswap_wantlist_queue_remove. */
    method Remove(cid: Cid, session: Session) returns (found: bool)
      requires Valid()
      modifies this
      ensures Valid()
      ensures found <==> exists w <- old(queue) :: w.cid == cid
      ensures forall i :: 0 <= i < |old(queue)| && old(queue)[i].cid == cid ==>
        queue == old(queue)[i := old(queue)[i].(sessions := Bitswap.RemoveFirst(old(queue)[i].sessions, session))]
      ensures !found ==> queue == old(queue)
    {
      hide Bitswap.RemoveFirst;
      var i := Find(cid);
      if i == -1 { return false; }
      assert queue[i] in queue;
      var ss := Decrement(queue[i].sessions, session);
      queue := queue[i := queue[i].(sessions := ss)];
      found := true;
    }

    /** The engine's loop over the sessions of an entry that was tried too often. */
    method RemoveSessions(i: nat)
      requires Valid() && i < |queue|
      modifies this
      ensures Valid()
      ensures queue == old(queue)[i := old(queue)[i].(sessions := Bitswap.DropSessions(old(queue)[i].sessions, 0))]
    {
      hide Bitswap.RemoveFirst;
      ghost var was := queue[i];
      var k := 0;
      while k < |queue[i].sessions|
        invariant Valid() && |queue| == |old(queue)|
        invariant queue == old(queue)[i := was.(sessions := queue[i].sessions)]
        invariant Bitswap.DropSessions(queue[i].sessions, k) == Bitswap.DropSessions(was.sessions, 0)
        decreases |queue[i].sessions| - k
      {
        var _ := Remove(queue[i].cid, queue[i].sessions[k]);
        k := k + 1;
      }
    }

    /** Updating the entry at `i`, whose cid stays. */
    method Set(i: nat, w: Want)
      requires Valid() && i < |queue| && w.cid == queue[i].cid
      modifies this
      ensures Valid() && queue == old(queue)[i := w]
    {
      queue := queue[i := w];
    }
  }

  /** ipfs_bitswap_wantlist_queue_entry_decrement. */
  method Decrement(sessions: seq<Session>, session: Session) returns (r: seq<Session>)
    ensures r == Bitswap.RemoveFirst(sessions, session)
  {
    for k := 0 to |sessions|
      invariant Bitswap.RemoveFirst(sessions, session) == sessions[..k] + Bitswap.RemoveFirst(sessions[k..], session)
    {
      if session == sessions[k] { return sessions[..k] + sessions[k + 1..]; }
      assert sessions[k..][1..] == sessions[k + 1..];
    }
    return sessions;
  }
}
