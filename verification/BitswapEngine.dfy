/** One node's exchange, as its two threads and the protocol handler run it:
    exchange/bitswap/bitswap.c, engine.c, network.c and the parts of
    wantlist_queue.c and peer_request_queue.c that touch both queues. Each method
    is proved against the function of module Bitswap of the same name. */
module BitswapEngine {
  import opened Basics
  import opened Messages
  import opened Requests
  import opened BitswapQueues
  import Bitswap

  /** A peer without a request has nothing due. */
  lemma NothingToServe(me: nat, n: Bitswap.Node, c: Bitswap.Contact)
    requires c.peer !in n.peers
    ensures Bitswap.ProcessPeer(me, n, c) == (n, [])
  {
    assert !NeedToConnect(NEW_REQUEST);
  }

  class Exchange {
    /** Our own peer id. */
    const me: nat
    /** The blockstore, by hash. */
    var store: map<bytes, bytes>
    const wantlist: WantlistQueue
    const peers: PeerRequestQueue

    ghost predicate Valid()
      reads this, wantlist, peers, peers.entries
    {
      wantlist.Valid() && peers.Valid() && wantlist !in peers.repr && peers !in peers.repr && this !in peers.repr
    }

    ghost function Value(): (r: Bitswap.Node)
      reads this, wantlist, peers, peers.Requests()
    {
      Bitswap.Node(store, wantlist.queue, peers.Value())
    }

    /** ipfs_bitswap_new, over a blockstore. */
    constructor (me: nat, store: map<bytes, bytes>)
      ensures Valid() && Value() == Bitswap.Node(store, [], map[]) && this.me == me
      ensures fresh(wantlist) && fresh(peers) && peers.repr == {}
    {
      this.me, this.store := me, store;
      wantlist := new WantlistQueue();
      peers := new PeerRequestQueue();
    }

    /** ipfs_bitswap_has_block. */
    method HasBlock(b: Block)
      requires Valid()
      modifies this, wantlist
      ensures Valid() && Value() == Bitswap.HasBlock(old(Value()), b)
    {
      hide PeerRequestQueue.Valid;
      if b.cid.None? { return; }
      var cid := b.cid.value;
      store := store[cid.hash := b.data];
      var i := wantlist.Find(cid);
      if i != -1 {
        wantlist.queue := wantlist.queue[i := wantlist.queue[i].(block := Some(b))];
      }
    }

    /** ipfs_bitswap_peer_request_process_entry, with
        ipfs_bitswap_network_send_message: what is written to the stream. */
    method ProcessPeer(request: PeerRequest, c: Bitswap.Contact) returns (out: seq<Bitswap.Packet>)
      requires Valid() && c.peer in peers.requests && request == peers.requests[c.peer]
      modifies request
      ensures Valid()
      ensures (Value(), out) == Bitswap.ProcessPeer(me, old(Value()), c)
    {
      hide AfterOutgoing, Outgoing, NeedToConnect, MessageBytes;
      var message := request.ProcessEntry(store, c.connected);
      assert peers.Value() == old(peers.Value())[c.peer := request.Value()];
      assert message.None? ==> peers.Value() == old(peers.Value());
      out := [];
      if message.Some? && c.written {
        out := [Bitswap.Packet(me, c.peer, Bitswap.HEADER + MessageBytes(message.value))];
      }
    }

    /** One peer's turn in ipfs_bitswap_engine_peer_request_processor_start. */
    method Serve(c: Bitswap.Contact) returns (out: seq<Bitswap.Packet>)
      requires Valid()
      modifies peers.repr
      ensures Valid()
      ensures (Value(), out) == Bitswap.ProcessPeer(me, old(Value()), c)
    {
      hide PeerRequestQueue.Valid, Bitswap.ProcessPeer;
      var entry := peers.FindEntry(c.peer);
      assert peers.Value() == old(peers.Value());
      if entry == null {
        NothingToServe(me, Value(), c);
        return [];
      }
      peers.Apart(c.peer);
      out := ProcessPeer(entry.current, c);
    }

    method AskProvider(cid: Cid, c: Bitswap.Contact) returns (out: seq<Bitswap.Packet>)
      requires Valid()
      modifies peers, peers.repr
      ensures Valid() && old(peers.repr) <= peers.repr && fresh(peers.repr - old(peers.repr))
      ensures wantlist.queue == old(wantlist.queue) && store == old(store)
      ensures var n := old(Value());
        (Value(), out) == Bitswap.ProcessPeer(me, Bitswap.SetPeer(n, c.peer, WantOf(Bitswap.PeerOf(n, c.peer), cid)), c)
    {
      hide WantOf, Bitswap.ProcessPeer, PeerRequestQueue.Valid, PeerRequestQueue.Value;
      var request := peers.WantFrom(c.peer, cid);
      peers.Apart(c.peer);
      out := ProcessPeer(request, c);
    }

    /** ipfs_bitswap_wantlist_get_block_remote, once providers are found. */
    method AskProviders(cid: Cid, cs: seq<Bitswap.Contact>) returns (out: seq<Bitswap.Packet>)
      requires Valid()
      modifies peers, peers.repr
      ensures Valid() && old(peers.repr) <= peers.repr && fresh(peers.repr - old(peers.repr))
      ensures (Value(), out) == Bitswap.AskProviders(me, old(Value()), cid, cs)
    {
      hide WantOf, Bitswap.ProcessPeer, Bitswap.PeerOf, Value, Valid;
      out := [];
      for i := 0 to |cs|
        invariant Valid() && old(peers.repr) <= peers.repr && fresh(peers.repr - old(peers.repr))
        invariant (Value(), out) == Bitswap.AskProviders(me, old(Value()), cid, cs[..i])
      {
        assert cs[..i + 1][..i] == cs[..i];
        var sent := AskProvider(cid, cs[i]);
        out := out + sent;
      }
      assert cs[..|cs|] == cs;
    }

    /** The last loop of ipfs_bitswap_wantlist_process_entry. */
    method Fulfil(sessions: seq<Session>, block: Block)
      requires Valid()
      modifies peers, peers.repr
      ensures Valid() && old(peers.repr) <= peers.repr && fresh(peers.repr - old(peers.repr))
      ensures Value() == Bitswap.Fill(old(Value()), sessions, block)
      ensures wantlist.queue == old(wantlist.queue) && store == old(store)
    {
      hide PeerRequestQueue.Valid, PeerRequestQueue.Value;
      for i := 0 to |sessions|
        invariant Valid() && old(peers.repr) <= peers.repr && fresh(peers.repr - old(peers.repr))
        invariant Value() == Bitswap.Fill(old(Value()), sessions[..i], block)
        invariant wantlist.queue == old(wantlist.queue) && store == old(store)
      {
        assert sessions[..i + 1][..i] == sessions[..i];
        match sessions[i]
        case Local =>
        case Remote(p) => peers.Fill(p, block);
      }
      assert sessions[..|sessions|] == sessions;
    }

    /** ipfs_bitswap_wantlist_process_entry for the entry at `i`. */
    method ProcessWant(i: nat, providers: Option<seq<Bitswap.Contact>>) returns (out: seq<Bitswap.Packet>)
      requires Valid() && i < |wantlist.queue|
      modifies wantlist, peers, peers.repr
      ensures Valid() && old(peers.repr) <= peers.repr && fresh(peers.repr - old(peers.repr))
      ensures (Value(), out) == Bitswap.ProcessWant(me, old(Value()), i, providers)
    {
      hide PeerRequestQueue.Valid, Bitswap.Fill, Bitswap.AskProviders;
      var w := wantlist.queue[i];
      var local := LocalRequest(w.sessions);
      assert Value() == old(Value());
      var block := Stored(store, w.cid);
      out := [];
      if block.Some? {
        wantlist.Set(i, w.(block := block));
        assert Value() == Bitswap.SetWant(old(Value()), i, w.(block := block));
        Fulfil(w.sessions, block.value);
      } else if local {
        if providers.None? {
          wantlist.Set(i, w.(attempts := w.attempts + 1));
          assert Value() == Bitswap.SetWant(old(Value()), i, w.(attempts := w.attempts + 1));
        } else {
          out := AskProviders(w.cid, providers.value);
          Bitswap.AskKeepsWants(me, old(Value()), w.cid, providers.value);
          ghost var asked := Value();
          wantlist.Set(i, w.(asked := true));
          assert Value() == Bitswap.SetWant(asked, i, w.(asked := true));
        }
      }
    }

    /** One turn of ipfs_bitswap_engine_wantlist_processor_start. */
    method WantTurn(providers: Option<seq<Bitswap.Contact>>) returns (out: seq<Bitswap.Packet>)
      requires Valid()
      modifies wantlist, peers, peers.repr
      ensures Valid() && old(peers.repr) <= peers.repr && fresh(peers.repr - old(peers.repr))
      ensures (Value(), out) == Bitswap.WantTurn(me, old(Value()), providers)
    {
      hide PeerRequestQueue.Valid, Bitswap.ProcessWant;
      out := [];
      var i := wantlist.Pop();
      assert Value() == old(Value());
      if i != -1 {
        if wantlist.queue[i].attempts > 10 {
          ghost var w := wantlist.queue[i];
          wantlist.RemoveSessions(i);
          assert Value() == Bitswap.SetWant(old(Value()), i, w.(sessions := Bitswap.DropSessions(w.sessions, 0)));
        } else {
          out := ProcessWant(i, providers);
        }
      }
    }

    method HasBlocks(bs: seq<Block>)
      requires Valid()
      modifies this, wantlist
      ensures Valid() && Value() == Bitswap.HasBlocks(old(Value()), bs)
      ensures peers.repr == old(peers.repr)
    {
      hide Valid, Value, Bitswap.HasBlock;
      for i := 0 to |bs|
        invariant Valid() && Value() == Bitswap.HasBlocks(old(Value()), bs[..i])
      {
        assert bs[..i + 1][..i] == bs[..i];
        HasBlock(bs[i]);
      }
      assert bs[..|bs|] == bs;
    }

    /** ipfs_bitswap_network_handle_message. */
    method HandleMessage(source: nat, data: bytes, edits: seq<Bitswap.Edit>)
      requires Valid()
      modifies this, wantlist, peers, peers.repr
      ensures Valid() && old(peers.repr) <= peers.repr && fresh(peers.repr - old(peers.repr))
      ensures Value() == Bitswap.HandleMessage(old(Value()), source, data, edits)
    {
      hide PeerRequestQueue.Valid, Bitswap.HasBlocks, Bitswap.AdjustAll, Messages.Decode, Bitswap.Strip;
      var s := AfterNewline(data);
      assert Value() == old(Value());
      if s.None? { return; }
      var r := Messages.RunDecode(s.value);
      assert Value() == old(Value());
      if r.None? || r.value.None? { return; }
      var m := r.value.value;
      HasBlocks(Items(m.payload));
      var es := Bitswap.Wanted(m);
      if es != [] {
        var _ := peers.Receive(source, es, edits);
      }
    }

    /** ipfs_bitswap_get_block_async behind its look into the blockstore. */
    method Seek(cid: Cid, session: Session)
      requires Valid()
      modifies wantlist
      ensures Valid()
      ensures Value() == old(Value()).(wants := Bitswap.AddWant(old(wantlist.queue), cid, session))
    {
      hide PeerRequestQueue.Valid, Bitswap.AddWant;
      var _ := wantlist.Add(cid, session);
    }
  }

  /** The protocol header ends at the first newline. */
  method AfterNewline(data: bytes) returns (r: Option<bytes>)
    ensures r == Bitswap.Strip(data)
  {
    for i := 0 to |data|
      invariant Bitswap.Strip(data) == Bitswap.Strip(data[i..])
    {
      if data[i] == 10 { return Some(data[i + 1..]); }
      assert data[i..][1..] == data[i + 1..];
    }
    return None;
  }

  /** ipfs_bitswap_wantlist_local_request. */
  method LocalRequest(sessions: seq<Session>) returns (local: bool)
    ensures local <==> Bitswap.Local in sessions
  {
    for i := 0 to |sessions|
      invariant Bitswap.Local !in sessions[..i]
    {
      if sessions[i].Local? { return true; }
    }
    return false;
  }
}
