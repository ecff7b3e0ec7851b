/** What a node owes to one peer and wants of it: the operations of
    exchange/bitswap/peer_request_queue.c and exchange/bitswap/message.c on the
    three vectors of a struct PeerRequest. */
module Requests {
  import opened Basics
  import opened Messages
  import Blocks
  import Cids

  type Cid = Cids.Cid

  /** `id` tells entries apart, as their addresses do. */
  datatype CidEntry = CidEntry(id: nat, cid: Cid, cancel: bool, cancelSent: bool, requestSent: bool)

  /** History: that the entry with this id went into a message, as a request or as
      a cancel. */
  datatype Sent = Sent(id: nat, cancel: bool)

  function Stored(store: map<bytes, bytes>, cid: Cid): (r: Option<Block>) {
    if cid.hash in store then Some(Blocks.Block(Some(cid), store[cid.hash])) else None
  }

  // -------------------------------------------------------------- what we want

  /** The entry has something to say that has not been said. */
  predicate Due(e: CidEntry) {
    (e.cancel && !e.cancelSent) || (!e.cancel && !e.requestSent)
  }

  /** ipfs_bitswap_peer_request_we_want_cids. */
  predicate WeWantCids(es: seq<CidEntry>) {
    exists i :: 0 <= i < |es| && Due(es[i])
  }

  function Mark(e: CidEntry): (r: CidEntry) {
    if e.cancel then e.(cancelSent := true) else e.(requestSent := true)
  }

  function ItemOf(e: CidEntry): (r: WantlistEntry) {
    WantlistEntry(Cids.CidBytes(Some(e.cid)), if e.cancel then 1 else 0, 1)
  }

  /** ipfs_bitswap_message_add_wantlist_items: what it appends to the message ... */
  function WantItems(es: seq<CidEntry>): (items: seq<WantlistEntry>)
    ensures |items| <= |es|
  {
    if es == [] then []
    else WantItems(es[..|es| - 1]) + if Due(es[|es| - 1]) then [ItemOf(es[|es| - 1])] else []
  }

  /** ... which entries those items are ... */
  function SentNow(es: seq<CidEntry>): (log: seq<Sent>)
  {
    if es == [] then []
    else SentNow(es[..|es| - 1]) + if Due(es[|es| - 1]) then [Sent(es[|es| - 1].id, es[|es| - 1].cancel)] else []
  }

  /** ... and what it leaves of the entries. */
  function Marked(es: seq<CidEntry>): (r: seq<CidEntry>)
    ensures |r| == |es|
    ensures forall i :: 0 <= i < |es| ==> r[i] == if Due(es[i]) then Mark(es[i]) else es[i]
  {
    if es == [] then []
    else Marked(es[..|es| - 1]) + [if Due(es[|es| - 1]) then Mark(es[|es| - 1]) else es[|es| - 1]]
  }

  /** we_want_cids says exactly whether add_wantlist_items would append something,
      and is false behind it. */
  lemma {:induction false} WantedIsSent(es: seq<CidEntry>)
    ensures WeWantCids(es) <==> WantItems(es) != []
    ensures WeWantCids(es) <==> SentNow(es) != []
    ensures !WeWantCids(Marked(es))
  {
    if es != [] {
      WantedIsSent(es[..|es| - 1]);
      if WeWantCids(es) && !Due(es[|es| - 1]) {
        var i :| 0 <= i < |es| && Due(es[i]);
        assert Due(es[..|es| - 1][i]);
      }
      if WeWantCids(es[..|es| - 1]) {
        var i :| 0 <= i < |es| - 1 && Due(es[..|es| - 1][i]);
        assert Due(es[i]);
      }
      if Due(es[|es| - 1]) { assert WeWantCids(es); }
    }
  }

  // ------------------------------------------------------------ what they want

  /** ipfs_bitswap_peer_request_cids_waiting. */
  predicate CidsWaiting(es: seq<CidEntry>) {
    exists i :: 0 <= i < |es| && !es[i].cancel
  }

  predicate Served(store: map<bytes, bytes>, e: CidEntry) {
    !e.cancel && e.cid.hash in store
  }

  /** ipfs_bitswap_peer_request_get_blocks_they_want: the blocks it adds ... */
  function BlocksFor(store: map<bytes, bytes>, es: seq<CidEntry>): (r: seq<Block>) {
    if es == [] then []
    else BlocksFor(store, es[..|es| - 1]) +
         if Served(store, es[|es| - 1]) then [Stored(store, es[|es| - 1].cid).value] else []
  }

  /** ... for which entries ... */
  function ServedNow(store: map<bytes, bytes>, es: seq<CidEntry>): (r: seq<nat>) {
    if es == [] then []
    else ServedNow(store, es[..|es| - 1]) + if Served(store, es[|es| - 1]) then [es[|es| - 1].id] else []
  }

  /** ... which are then done with. */
  function Answered(store: map<bytes, bytes>, es: seq<CidEntry>): (r: seq<CidEntry>)
    ensures |r| == |es|
    ensures forall i :: 0 <= i < |es| ==> r[i] == if Served(store, es[i]) then es[i].(cancel := true) else es[i]
  {
    if es == [] then []
    else Answered(store, es[..|es| - 1]) +
         [if Served(store, es[|es| - 1]) then es[|es| - 1].(cancel := true) else es[|es| - 1]]
  }

  /** ipfs_bitswap_message_cancel_cid: the first entry with this cid. */
  function CancelFrom(es: seq<CidEntry>, cid: Option<Cid>, i: nat): (r: seq<CidEntry>)
    requires i <= |es|
    ensures |r| == |es|
    ensures forall j :: 0 <= j < |es| ==> r[j] == es[j] || r[j] == es[j].(cancel := true)
    decreases |es| - i
  {
    if i == |es| then es
    else if Some(es[i].cid) == cid then es[i := es[i].(cancel := true)]
    else CancelFrom(es, cid, i + 1)
  }

  function CancelAll(es: seq<CidEntry>, blocks: seq<Block>): (r: seq<CidEntry>)
    ensures |r| == |es|
    ensures forall j :: 0 <= j < |es| ==> r[j] == es[j] || r[j] == es[j].(cancel := true)
  {
    if blocks == [] then es
    else CancelFrom(CancelAll(es, blocks[..|blocks| - 1]), blocks[|blocks| - 1].cid, 0)
  }

  // ------------------------------------------------------------- the whole

  /** `served` and `sent` are history, `nextId` names the next entry. */
  datatype Request = Request(
    theyWant: seq<CidEntry>,
    weWant: seq<CidEntry>,
    toSend: seq<Block>,
    served: seq<nat>,
    sent: seq<Sent>,
    nextId: nat)

  const NEW_REQUEST := Request([], [], [], [], [], 0)

  predicate NeedToConnect(r: Request) {
    WeWantCids(r.weWant) || CidsWaiting(r.theyWant) || r.toSend != []
  }

  /** The message that ipfs_bitswap_peer_request_process_entry builds: all blocks
      to send, then all that is due. */
  function Outgoing(store: map<bytes, bytes>, r: Request): (r': Message) {
    var blocks := r.toSend + BlocksFor(store, r.theyWant);
    Message(None, NormalItems(blocks), Some(Wantlist(Some(WantItems(r.weWant)), 1)))
  }

  function AfterOutgoing(store: map<bytes, bytes>, r: Request): (r': Request) {
    var blocks := r.toSend + BlocksFor(store, r.theyWant);
    Request(CancelAll(Answered(store, r.theyWant), blocks), Marked(r.weWant), [],
            r.served + ServedNow(store, r.theyWant), r.sent + SentNow(r.weWant), r.nextId)
  }

  function WantOf(r: Request, cid: Cid): (r': Request) {
    r.(weWant := r.weWant + [CidEntry(r.nextId, cid, false, false, false)], nextId := r.nextId + 1)
  }

  // --------------------------------------------------------------- at most once

  predicate Distinct<T(==)>(xs: seq<T>) {
    forall i, j :: 0 <= i < j < |xs| ==> xs[i] != xs[j]
  }

  predicate DistinctIds(es: seq<CidEntry>) {
    forall i, j :: 0 <= i < j < |es| ==> es[i].id != es[j].id
  }

  /** An entry we want has been sent as a request, or as a cancel, exactly if its
      flag says so, and nothing has been sent twice. */
  ghost predicate WantedOnce(r: Request) {
    && DistinctIds(r.weWant)
    && (forall e <- r.weWant :: e.id < r.nextId)
    && Distinct(r.sent)
    && (forall s <- r.sent :: s.id < r.nextId)
    && (forall e <- r.weWant :: (Sent(e.id, false) in r.sent <==> e.requestSent) && (Sent(e.id, true) in r.sent <==> e.cancelSent))
  }

  /** An entry they want has yielded a block at most once, and never will again. */
  ghost predicate ServedOnce(r: Request) {
    && DistinctIds(r.theyWant)
    && (forall e <- r.theyWant :: e.id < r.nextId)
    && Distinct(r.served)
    && (forall id <- r.served :: id < r.nextId)
    && (forall e <- r.theyWant :: e.id in r.served ==> e.cancel)
  }

  lemma {:induction false} SentNowIs(es: seq<CidEntry>)
    requires DistinctIds(es)
    ensures Distinct(SentNow(es))
    ensures forall s :: s in SentNow(es) <==> exists i :: 0 <= i < |es| && Due(es[i]) && s == Sent(es[i].id, es[i].cancel)
  {
    if es != [] {
      var init, last := es[..|es| - 1], es[|es| - 1];
      SentNowIs(init);
      var tail := if Due(last) then [Sent(last.id, last.cancel)] else [];
      forall s | s in SentNow(init) ensures s.id != last.id {
        var i :| 0 <= i < |init| && Due(init[i]) && s == Sent(init[i].id, init[i].cancel);
        assert es[i] == init[i];
      }
      DistinctConcat(SentNow(init), tail);
      forall s | s in SentNow(es)
        ensures exists i :: 0 <= i < |es| && Due(es[i]) && s == Sent(es[i].id, es[i].cancel)
      {
        if s in SentNow(init) {
          var i :| 0 <= i < |init| && Due(init[i]) && s == Sent(init[i].id, init[i].cancel);
          assert Due(es[i]);
        }
      }
      forall i | 0 <= i < |es| && Due(es[i]) ensures Sent(es[i].id, es[i].cancel) in SentNow(es) {
        if i < |init| { assert Due(init[i]); }
      }
    }
  }

  lemma {:induction false} ServedNowIs(store: map<bytes, bytes>, es: seq<CidEntry>)
    requires DistinctIds(es)
    ensures Distinct(ServedNow(store, es))
    ensures forall id :: id in ServedNow(store, es) <==> exists i :: 0 <= i < |es| && Served(store, es[i]) && id == es[i].id
  {
    if es != [] {
      var init, last := es[..|es| - 1], es[|es| - 1];
      ServedNowIs(store, init);
      forall id | id in ServedNow(store, init) ensures id != last.id {
        var i :| 0 <= i < |init| && Served(store, init[i]) && id == init[i].id;
        assert es[i] == init[i];
      }
      DistinctConcat(ServedNow(store, init), if Served(store, last) then [last.id] else []);
      forall id | id in ServedNow(store, es)
        ensures exists i :: 0 <= i < |es| && Served(store, es[i]) && id == es[i].id
      {
        if id in ServedNow(store, init) {
          var i :| 0 <= i < |init| && Served(store, init[i]) && id == init[i].id;
          assert Served(store, es[i]);
        }
      }
      forall i | 0 <= i < |es| && Served(store, es[i]) ensures es[i].id in ServedNow(store, es) {
        if i < |init| { assert Served(store, init[i]); }
      }
    }
  }

  lemma DistinctConcat<T>(a: seq<T>, b: seq<T>)
    requires Distinct(a) && Distinct(b) && forall x <- b :: x !in a
    ensures Distinct(a + b)
  {
    forall i, j | 0 <= i < j < |a + b| ensures (a + b)[i] != (a + b)[j] {
      if i < |a| <= j { assert b[j - |a|] in b && a[i] in a; }
    }
  }

  predicate Answers(store: map<bytes, bytes>, e: CidEntry, id: nat, b: Block) {
    Served(store, e) && e.id == id && b == Stored(store, e.cid).value
  }

  /** Each block goes out for the entry that the history names beside it. */
  lemma {:induction false} OneEach(store: map<bytes, bytes>, es: seq<CidEntry>)
    ensures |BlocksFor(store, es)| == |ServedNow(store, es)|
    ensures forall k :: 0 <= k < |ServedNow(store, es)| ==>
      exists e <- es :: Answers(store, e, ServedNow(store, es)[k], BlocksFor(store, es)[k])
  {
    if es != [] {
      var init, last := es[..|es| - 1], es[|es| - 1];
      OneEach(store, init);
      assert last in es && forall e <- init :: e in es;
      var ids, blocks := ServedNow(store, init), BlocksFor(store, init);
      if Served(store, last) {
        var b := Stored(store, last.cid).value;
        assert ServedNow(store, es) == ids + [last.id] && BlocksFor(store, es) == blocks + [b];
        assert Answers(store, last, last.id, b);
      } else {
        assert ServedNow(store, es) == ids && BlocksFor(store, es) == blocks;
      }
    }
  }

  lemma OutgoingKeepsWantedOnce(store: map<bytes, bytes>, r: Request)
    requires WantedOnce(r)
    ensures WantedOnce(AfterOutgoing(store, r))
  {
    hide CancelAll, Answered, BlocksFor, ServedNow;
    var r' := AfterOutgoing(store, r);
    SentNowIs(r.weWant);
    forall s <- SentNow(r.weWant) ensures s !in r.sent && s.id < r.nextId {
      var i :| 0 <= i < |r.weWant| && Due(r.weWant[i]) && s == Sent(r.weWant[i].id, r.weWant[i].cancel);
      assert r.weWant[i] in r.weWant;
    }
    DistinctConcat(r.sent, SentNow(r.weWant));
    forall e' <- r'.weWant
      ensures e'.id < r'.nextId
      ensures Sent(e'.id, false) in r'.sent <==> e'.requestSent
      ensures Sent(e'.id, true) in r'.sent <==> e'.cancelSent
    {
      var i :| 0 <= i < |r'.weWant| && r'.weWant[i] == e';
      MarkedFlags(r, i);
    }
  }

  lemma MarkedFlags(r: Request, i: nat)
    requires WantedOnce(r) && i < |r.weWant|
    ensures var e := r.weWant[i];
      var e' := Marked(r.weWant)[i];
      var sent := r.sent + SentNow(r.weWant);
      && e'.id == e.id && e.id < r.nextId
      && (Sent(e.id, false) in sent <==> e'.requestSent)
      && (Sent(e.id, true) in sent <==> e'.cancelSent)
  {
    hide Marked, SentNow;
    var e := r.weWant[i];
    assert e in r.weWant;
    SentNowIs(r.weWant);
    forall c: bool ensures Sent(e.id, c) in SentNow(r.weWant) <==> Due(e) && e.cancel == c {
      if Sent(e.id, c) in SentNow(r.weWant) {
        var j :| 0 <= j < |r.weWant| && Due(r.weWant[j]) && Sent(e.id, c) == Sent(r.weWant[j].id, r.weWant[j].cancel);
        assert j == i;
      }
    }
  }

  lemma OutgoingKeepsServedOnce(store: map<bytes, bytes>, r: Request)
    requires ServedOnce(r)
    ensures ServedOnce(AfterOutgoing(store, r))
  {
    hide Marked, SentNow, BlocksFor, CancelFrom;
    var r' := AfterOutgoing(store, r);
    ServedNowIs(store, r.theyWant);
    forall id <- ServedNow(store, r.theyWant) ensures id !in r.served && id < r.nextId {
      var i :| 0 <= i < |r.theyWant| && Served(store, r.theyWant[i]) && id == r.theyWant[i].id;
      assert r.theyWant[i] in r.theyWant;
    }
    DistinctConcat(r.served, ServedNow(store, r.theyWant));
    forall i | 0 <= i < |r'.theyWant|
      ensures r'.theyWant[i].id == r.theyWant[i].id < r.nextId
      ensures r'.theyWant[i].id in r'.served ==> r'.theyWant[i].cancel
    {
      AnsweredFlags(store, r, i);
    }
  }

  lemma AnsweredFlags(store: map<bytes, bytes>, r: Request, i: nat)
    requires ServedOnce(r) && i < |r.theyWant|
    ensures var e := r.theyWant[i];
      var e' := AfterOutgoing(store, r).theyWant[i];
      e'.id == e.id < r.nextId && (e.id in r.served + ServedNow(store, r.theyWant) ==> e'.cancel)
  {
    hide ServedNow, BlocksFor;
    var e := r.theyWant[i];
    assert e in r.theyWant;
    ServedNowIs(store, r.theyWant);
    if e.id in ServedNow(store, r.theyWant) {
      var j :| 0 <= j < |r.theyWant| && Served(store, r.theyWant[j]) && e.id == r.theyWant[j].id;
      assert j == i;
      assert Answered(store, r.theyWant)[i].cancel;
    }
  }

  // ------------------------------------------------------------- what is said, in order

  /** The items of a message are those of all entries that have something to say, in
      their order, each under its cid, with 1 for a cancel and priority 1. */
  lemma {:induction false} ItemsInOrder(es: seq<CidEntry>) returns (at: seq<nat>)
    ensures |at| == |WantItems(es)| == |SentNow(es)|
    ensures forall i, j :: 0 <= i < j < |at| ==> at[i] < at[j]
    ensures forall k :: 0 <= k < |at| ==>
      && at[k] < |es| && Due(es[at[k]])
      && WantItems(es)[k] == WantlistEntry(Cids.CidBytes(Some(es[at[k]].cid)), if es[at[k]].cancel then 1 else 0, 1)
      && SentNow(es)[k] == Sent(es[at[k]].id, es[at[k]].cancel)
    ensures forall i :: 0 <= i < |es| && Due(es[i]) ==> i in at
  {
    hide Cids.CidBytes;
    at := [];
    if es != [] {
      var init, last := es[..|es| - 1], es[|es| - 1];
      at := ItemsInOrder(init);
      assert forall i :: 0 <= i < |init| ==> es[i] == init[i];
      if Due(last) { at := at + [|es| - 1]; }
    }
  }

  /** The blocks added are those stored for all uncancelled entries, in their order. */
  lemma {:induction false} BlocksInOrder(store: map<bytes, bytes>, es: seq<CidEntry>) returns (at: seq<nat>)
    ensures |at| == |BlocksFor(store, es)| == |ServedNow(store, es)|
    ensures forall i, j :: 0 <= i < j < |at| ==> at[i] < at[j]
    ensures forall k :: 0 <= k < |at| ==>
      at[k] < |es| && Answers(store, es[at[k]], ServedNow(store, es)[k], BlocksFor(store, es)[k])
    ensures forall i :: 0 <= i < |es| && Served(store, es[i]) ==> i in at
  {
    hide Answers, Served, BlocksFor, ServedNow;
    at := [];
    LastAnswer(store, es);
    if es != [] {
      var init, last := es[..|es| - 1], es[|es| - 1];
      at := BlocksInOrder(store, init);
      assert forall i :: 0 <= i < |init| ==> es[i] == init[i];
      if Served(store, last) { at := at + [|es| - 1]; }
    }
  }

  lemma LastAnswer(store: map<bytes, bytes>, es: seq<CidEntry>)
    ensures es == [] ==> BlocksFor(store, es) == [] && ServedNow(store, es) == []
    ensures es != [] ==>
      var init, last := es[..|es| - 1], es[|es| - 1];
      if Served(store, last) then
        exists b :: Answers(store, last, last.id, b) &&
                    BlocksFor(store, es) == BlocksFor(store, init) + [b] && ServedNow(store, es) == ServedNow(store, init) + [last.id]
      else BlocksFor(store, es) == BlocksFor(store, init) && ServedNow(store, es) == ServedNow(store, init)
  {
    if es != [] && Served(store, es[|es| - 1]) {
      assert Answers(store, es[|es| - 1], es[|es| - 1].id, Stored(store, es[|es| - 1].cid).value);
    }
  }

  /** Where that is: uncancelled, stored, and with the stored data under its cid. */
  lemma AnswersIs(store: map<bytes, bytes>, e: CidEntry, id: nat, b: Block)
    ensures Answers(store, e, id, b) <==>
      !e.cancel && e.cid.hash in store && e.id == id && b == Blocks.Block(Some(e.cid), store[e.cid.hash])
  {
  }

  /** The first entry with a given cid. */
  predicate IsFirst(es: seq<CidEntry>, cid: Option<Cid>, i: nat) {
    i < |es| && Some(es[i].cid) == cid && forall j :: 0 <= j < i ==> Some(es[j].cid) != cid
  }

  lemma {:induction false} CancelFromIs(es: seq<CidEntry>, cid: Option<Cid>, k: nat)
    requires k <= |es| && forall j :: 0 <= j < k ==> Some(es[j].cid) != cid
    ensures forall i: nat :: i < |es| ==>
      CancelFrom(es, cid, k)[i] == if IsFirst(es, cid, i) then es[i].(cancel := true) else es[i]
    decreases |es| - k
  {
    if k < |es| {
      if Some(es[k].cid) == cid {
        assert IsFirst(es, cid, k);
      } else {
        CancelFromIs(es, cid, k + 1);
      }
    }
  }

  lemma CancelKeepsFirst(es: seq<CidEntry>, cid: Option<Cid>, other: Option<Cid>, i: nat)
    ensures IsFirst(CancelFrom(es, cid, 0), other, i) <==> IsFirst(es, other, i)
  {
    CancelFromIs(es, cid, 0);
    assert forall j :: 0 <= j < |es| ==> CancelFrom(es, cid, 0)[j].cid == es[j].cid;
  }

  lemma {:induction false} CancelAllKeepsFirst(es: seq<CidEntry>, bs: seq<Block>, cid: Option<Cid>, i: nat)
    ensures IsFirst(CancelAll(es, bs), cid, i) <==> IsFirst(es, cid, i)
  {
    if bs != [] {
      CancelAllKeepsFirst(es, bs[..|bs| - 1], cid, i);
      CancelKeepsFirst(CancelAll(es, bs[..|bs| - 1]), bs[|bs| - 1].cid, cid, i);
    }
  }

  /** A block that goes out cancels the first entry of its cid, and no other is touched:
      so what is sent because others asked is not sent for that entry again. */
  lemma {:induction false} SentIsCancelled(es: seq<CidEntry>, bs: seq<Block>, i: nat)
    requires i < |es|
    ensures CancelAll(es, bs)[i] == if exists b <- bs :: IsFirst(es, b.cid, i) then es[i].(cancel := true) else es[i]
  {
    hide IsFirst;
    if bs != [] {
      var init, last := bs[..|bs| - 1], bs[|bs| - 1];
      SentIsCancelled(es, init, i);
      CancelFromIs(CancelAll(es, init), last.cid, 0);
      CancelAllKeepsFirst(es, init, last.cid, i);
      assert last in bs && forall b <- init :: b in bs;
      assert forall b <- bs :: b == last || b in init;
    }
  }

  lemma {:induction false} NoneServed(store: map<bytes, bytes>, es: seq<CidEntry>)
    requires forall i :: 0 <= i < |es| ==> !Served(store, es[i])
    ensures BlocksFor(store, es) == []
  {
    if es != [] {
      assert forall i :: 0 <= i < |es| - 1 ==> es[..|es| - 1][i] == es[i];
      NoneServed(store, es[..|es| - 1]);
    }
  }

  /** Behind a message there is nothing left to say: no block, no request, no cancel;
      every entry's flag says so; and the next message waits for an entry that could
      not be answered. */
  lemma NothingLeft(store: map<bytes, bytes>, r: Request)
    ensures var r' := AfterOutgoing(store, r);
      && r'.toSend + BlocksFor(store, r'.theyWant) == [] && WantItems(r'.weWant) == []
      && (forall e <- r'.weWant :: if e.cancel then e.cancelSent else e.requestSent)
      && (NeedToConnect(r') <==> exists e <- r'.theyWant :: !e.cancel)
  {
    hide WantItems, BlocksFor, SentNow, ServedNow, CancelFrom;
    WantedIsSent(r.weWant);
    WantedIsSent(Marked(r.weWant));
    var answered := Answered(store, r.theyWant);
    var es := CancelAll(answered, r.toSend + BlocksFor(store, r.theyWant));
    forall i | 0 <= i < |es| ensures !Served(store, es[i]) {
      assert es[i] == answered[i] || es[i] == answered[i].(cancel := true);
    }
    NoneServed(store, es);
    forall e <- Marked(r.weWant) ensures if e.cancel then e.cancelSent else e.requestSent {
      var i :| 0 <= i < |r.weWant| && Marked(r.weWant)[i] == e;
    }
    if e :| e in es && !e.cancel {
      var i :| 0 <= i < |es| && es[i] == e;
      assert CidsWaiting(es);
    }
    if CidsWaiting(es) {
      var i :| 0 <= i < |es| && !es[i].cancel;
      assert es[i] in es;
    }
  }
}
