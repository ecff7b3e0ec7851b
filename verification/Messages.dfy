/** Bitswap messages: exchange/bitswap/message.c. */
module Messages {
  import opened Basics
  import opened Wire
  import Cids
  import Blocks

  type Block = Blocks.Block

  /** `block` holds an encoded cid; `cancel` is a uint8_t, `priority` a uint32_t. */
  datatype WantlistEntry = WantlistEntry(block: bytes, cancel: nat, priority: nat)

  /** `entries` is None for a NULL vector; `full` is a uint8_t. */
  datatype Wantlist = Wantlist(entries: Option<seq<WantlistEntry>>, full: nat)

  datatype Message = Message(blocks: Option<seq<Block>>, payload: Option<seq<Block>>, wantlist: Option<Wantlist>)

  function Items<X>(v: Option<seq<X>>): (r: seq<X>) {
    match v
    case None => []
    case Some(xs) => xs
  }

  // ------------------------------------------------------------------ entries

  const ENTRY_SCHEMA: Schema := [Unknown, Record, Number, Number]

  function EntryFields(e: WantlistEntry): (fs: seq<Field>)
    ensures forall f <- fs :: Fits(ENTRY_SCHEMA, f)
  {
    [Field(1, Blob(e.block)), Field(2, Num(e.cancel)), Field(3, Num(e.priority))]
  }

  function EntryBytes(e: WantlistEntry): (r: bytes) {
    Wire.Encode(EntryFields(e))
  }

  function EntrySize(e: WantlistEntry): (r: nat) {
    33 + |e.block|
  }

  ghost predicate ValidEntry(e: WantlistEntry) {
    e.cancel < 0x100 && e.priority < 0x1_0000_0000 && EntrySize(e) < 0x1_0000_0000_0000_0000
  }

  /** The estimate for an entry also covers the wrapper around it. */
  lemma EntryBounds(e: WantlistEntry)
    requires ValidEntry(e)
    ensures 0 < |EntryBytes(e)| <= EntrySize(e)
    ensures |FieldBytes(Field(1, Blob(EntryBytes(e))))| <= EntrySize(e)
  {
    var fs := EntryFields(e);
    EncodeThree(fs[0], fs[1], fs[2]);
    FieldLength(fs[0]);
    FieldLength(fs[1]);
    FieldLength(fs[2]);
    VarintBounds(|e.block|);
    VarintBounds(e.cancel);
    VarintBounds(e.priority);
    FieldLength(Field(1, Blob(EntryBytes(e))));
    VarintBounds(|EntryBytes(e)|);
  }

  method EncodeEntry(e: WantlistEntry, out: OutBuffer) returns (ok: bool)
    requires out.Valid()
    modifies out, out.data
    ensures out.Valid()
    ensures ok <==> old(out.written) + |EntryBytes(e)| <= out.data.Length
    ensures ok ==> out.Contents() == old(out.Contents()) + EntryBytes(e)
  {
    ok := out.PutAll(EntryFields(e));
  }

  method SerializeEntry(e: WantlistEntry) returns (s: bytes)
    requires ValidEntry(e)
    ensures s == EntryBytes(e)
  {
    hide EntryBytes;
    var temp := new OutBuffer(EntrySize(e));
    EntryBounds(e);
    var ok := EncodeEntry(e, temp);
    s := temp.Result();
  }

  function ApplyEntry(e: WantlistEntry, f: Field): (r: Option<WantlistEntry>) {
    match f
    case Field(1, Blob(b)) => Some(e.(block := b))
    case Field(2, Num(n)) => Some(e.(cancel := n % 0x100))
    case Field(3, Num(n)) => Some(e.(priority := n % 0x1_0000_0000))
    case _ => Some(e)
  }

  const NO_ENTRY := WantlistEntry([], 0, 0)

  function DecodeEntry(s: bytes): (r: Option<WantlistEntry>) {
    if s == [] then None else Wire.Decode(ENTRY_SCHEMA, ApplyEntry, s, NO_ENTRY)
  }

  /** What the round trip needs: the fields fit their C types. */
  predicate TypedEntry(e: WantlistEntry) {
    e.cancel < 0x100 && e.priority < 0x1_0000_0000
  }

  lemma EntryRoundTrip(e: WantlistEntry)
    requires TypedEntry(e)
    ensures DecodeEntry(EntryBytes(e)) == Some(e)
  {
    hide Wire.Encode, Wire.Decode;
    var fs := EntryFields(e);
    assert |EntryBytes(e)| >= |fs|;
    DecodeEncoded(ENTRY_SCHEMA, ApplyEntry, fs, NO_ENTRY);
    assert fs == [fs[0]] + ([fs[1]] + ([fs[2]] + []));
    FoldCons(ApplyEntry, fs[0], [fs[1]] + ([fs[2]] + []), NO_ENTRY);
    var e1 := NO_ENTRY.(block := e.block);
    FoldCons(ApplyEntry, fs[1], [fs[2]] + [], e1);
    FoldCons(ApplyEntry, fs[2], [], e1.(cancel := e.cancel));
  }

  // ---------------------------------------------------------------- wantlists

  const WANTLIST_SCHEMA: Schema := [Unknown, Record, Number]

  function EntryRecords(es: seq<WantlistEntry>): (r: seq<Field>) {
    Records(1, EntryBytes, es)
  }

  function WantlistFields(w: Wantlist): (fs: seq<Field>)
    ensures forall f <- fs :: Fits(WANTLIST_SCHEMA, f)
  {
    EntryRecords(Items(w.entries)) + [Field(2, Num(w.full))]
  }

  function WantlistBytes(w: Wantlist): (r: bytes) {
    Wire.Encode(WantlistFields(w))
  }

  function WantlistSize(w: Wantlist): (r: nat) {
    Sum(EntrySize, Items(w.entries)) + 11 + 12 + 11
  }

  ghost predicate ValidWantlist(w: Wantlist) {
    && w.entries.Some?
    && (forall e <- w.entries.value :: ValidEntry(e))
    && w.full < 0x100
    && WantlistSize(w) < 0x1_0000_0000_0000_0000
  }

  lemma WantlistBounds(w: Wantlist)
    requires ValidWantlist(w)
    ensures 0 < |WantlistBytes(w)| <= WantlistSize(w) - 31
  {
    hide EntryBytes, EntrySize;
    var es, last := w.entries.value, Field(2, Num(w.full));
    forall e <- es ensures |FieldBytes(Field(1, Blob(EntryBytes(e))))| <= EntrySize(e) {
      EntryBounds(e);
    }
    RecordsBound(1, EntryBytes, EntrySize, es);
    EncodeConcat(EntryRecords(es), [last]);
    EncodeOne(last);
    FieldLength(last);
    VarintBounds(w.full);
  }

  method PutEntries(es: seq<WantlistEntry>, out: OutBuffer) returns (ok: bool)
    requires out.Valid() && forall e <- es :: ValidEntry(e)
    modifies out, out.data
    ensures out.Valid()
    ensures ok <==> old(out.written) + |Wire.Encode(EntryRecords(es))| <= out.data.Length
    ensures ok ==> out.Contents() == old(out.Contents()) + Wire.Encode(EntryRecords(es))
  {
    hide FieldBytes, Wire.Encode, EntryBytes, ValidEntry;
    ghost var fs := EntryRecords(es);
    EncodeUpToAll(fs);
    for i := 0 to |es|
      invariant out.Valid()
      invariant out.Contents() == old(out.Contents()) + EncodeUpTo(fs, i)
    {
      EncodeUpToGrows(fs, i + 1, |fs|);
      var temp := SerializeEntry(es[i]);
      ok := out.Put(Field(1, Blob(temp)));
      if !ok { return; }
    }
    ok := true;
  }

  method EncodeWantlist(w: Wantlist, out: OutBuffer) returns (ok: bool)
    requires ValidWantlist(w) && out.Valid()
    modifies out, out.data
    ensures out.Valid()
    ensures ok <==> old(out.written) + |WantlistBytes(w)| <= out.data.Length
    ensures ok ==> out.Contents() == old(out.Contents()) + WantlistBytes(w)
  {
    hide FieldBytes, Wire.Encode, ValidEntry, EntryRecords;
    EncodeConcat(EntryRecords(w.entries.value), [Field(2, Num(w.full))]);
    EncodeOne(Field(2, Num(w.full)));
    ok := PutEntries(w.entries.value, out);
    if !ok { return; }
    ok := out.Put(Field(2, Num(w.full)));
  }

  method SerializeWantlist(w: Wantlist) returns (s: bytes)
    requires ValidWantlist(w)
    ensures s == WantlistBytes(w)
  {
    hide WantlistBytes;
    var temp := new OutBuffer(WantlistSize(w));
    WantlistBounds(w);
    var ok := EncodeWantlist(w, temp);
    s := temp.Result();
  }

  function AddEntry(w: Wantlist, e: WantlistEntry): (r: Wantlist) {
    w.(entries := Some(Items(w.entries) + [e]))
  }

  function ApplyWantlist(w: Wantlist, f: Field): (r: Option<Wantlist>) {
    match f
    case Field(1, Blob(b)) =>
      (match DecodeEntry(b)
       case None => None
       case Some(e) => Some(AddEntry(w, e)))
    case Field(2, Num(n)) => Some(w.(full := n % 0x100))
    case _ => Some(w)
  }

  const NEW_WANTLIST := Wantlist(None, 1)

  /** An empty buffer is a NULL wantlist. */
  function DecodeWantlist(s: bytes): (r: Option<Option<Wantlist>>) {
    if s == [] then Some(None) else
    match Wire.Decode(WANTLIST_SCHEMA, ApplyWantlist, s, NEW_WANTLIST)
    case None => None
    case Some(w) => Some(Some(w))
  }

  function NormalItems<X>(xs: seq<X>): (r: Option<seq<X>>) {
    if xs == [] then None else Some(xs)
  }

  function NormalWantlist(w: Wantlist): (r: Wantlist) {
    w.(entries := NormalItems(Items(w.entries)))
  }

  lemma {:induction false} AddEntries(es: seq<WantlistEntry>, w: Wantlist)
    ensures FoldLeft(AddEntry, es, w) == if es == [] then w else w.(entries := Some(Items(w.entries) + es))
  {
    if es != [] {
      AddEntries(es[1..], AddEntry(w, es[0]));
      AppendStep(Items(w.entries), es[0], es[1..]);
      assert es == [es[0]] + es[1..];
      assert es[1..] == [] ==> es == [es[0]];
    }
  }

  predicate TypedWantlist(w: Wantlist) {
    (forall e <- Items(w.entries) :: TypedEntry(e)) && w.full < 0x100
  }

  lemma WantlistRoundTrip(w: Wantlist)
    requires TypedWantlist(w)
    ensures DecodeWantlist(WantlistBytes(w)) == Some(Some(NormalWantlist(w)))
  {
    hide Wire.Encode, Wire.Decode, EntryBytes, DecodeEntry, TypedEntry, Records;
    var es, last := Items(w.entries), [Field(2, Num(w.full))];
    assert |WantlistBytes(w)| >= |WantlistFields(w)|;
    DecodeEncoded(WANTLIST_SCHEMA, ApplyWantlist, WantlistFields(w), NEW_WANTLIST);
    forall w': Wantlist, e | e in es
      ensures ApplyWantlist(w', Field(1, Blob(EntryBytes(e)))) == Some(AddEntry(w', e))
    {
      EntryRoundTrip(e);
    }
    RecordsBack(ApplyWantlist, 1, EntryBytes, AddEntry, es, NEW_WANTLIST);
    AddEntries(es, NEW_WANTLIST);
    assert [] + es == es;
    FoldConcat(ApplyWantlist, EntryRecords(es), last, NEW_WANTLIST);
  }

  // ----------------------------------------------------------------- messages

  const MESSAGE_SCHEMA: Schema := [Unknown, Record, Record, Record]

  function RawData(b: Block): (r: bytes) {
    b.data
  }

  function BlockRecords(bs: seq<Block>): (fs: seq<Field>)
    ensures forall f <- fs :: Fits(MESSAGE_SCHEMA, f)
  {
    Records(1, RawData, bs)
  }

  function PayloadRecords(bs: seq<Block>): (fs: seq<Field>)
    ensures forall f <- fs :: Fits(MESSAGE_SCHEMA, f)
  {
    Records(2, Blocks.BlockBytes, bs)
  }

  function WantlistRecord(w: Option<Wantlist>): (fs: seq<Field>)
    ensures forall f <- fs :: Fits(MESSAGE_SCHEMA, f)
  {
    match w
    case None => []
    case Some(list) => [Field(3, Blob(WantlistBytes(list)))]
  }

  function MessageFields(m: Message): (fs: seq<Field>)
    ensures forall f <- fs :: Fits(MESSAGE_SCHEMA, f)
  {
    BlockRecords(Items(m.blocks)) + PayloadRecords(Items(m.payload)) + WantlistRecord(m.wantlist)
  }

  function MessageBytes(m: Message): (r: bytes) {
    Wire.Encode(MessageFields(m))
  }

  function RawSize(b: Block): (r: nat) {
    11 + |b.data|
  }

  function PayloadSize(b: Block): (r: nat) {
    11 + Blocks.EncodeSize(b)
  }

  function MessageSize(m: Message): (r: nat) {
    Sum(RawSize, Items(m.blocks)) + Sum(PayloadSize, Items(m.payload))
    + (match m.wantlist case None => 0 case Some(w) => WantlistSize(w))
    + 11 + 12 + 11
  }

  ghost predicate Valid(m: Message) {
    && (forall b <- Items(m.blocks) :: RawSize(b) < 0x1_0000_0000_0000_0000)
    && (forall b <- Items(m.payload) :: Blocks.Valid(b) && PayloadSize(b) < 0x1_0000_0000_0000_0000)
    && (m.wantlist.Some? ==> ValidWantlist(m.wantlist.value))
  }

  lemma RawBound(b: Block)
    requires RawSize(b) < 0x1_0000_0000_0000_0000
    ensures |FieldBytes(Field(1, Blob(RawData(b))))| <= RawSize(b)
  {
    FieldLength(Field(1, Blob(RawData(b))));
    VarintBounds(|b.data|);
  }

  lemma PayloadBound(b: Block)
    requires Blocks.Valid(b) && PayloadSize(b) < 0x1_0000_0000_0000_0000
    ensures |FieldBytes(Field(2, Blob(Blocks.BlockBytes(b))))| <= PayloadSize(b)
  {
    hide Blocks.BlockBytes;
    FieldLength(Field(2, Blob(Blocks.BlockBytes(b))));
    Blocks.SizeBounds(b);
    VarintBounds(|Blocks.BlockBytes(b)|);
  }

  lemma EncodeParts(m: Message)
    ensures MessageBytes(m) == Wire.Encode(BlockRecords(Items(m.blocks))) + Wire.Encode(PayloadRecords(Items(m.payload)))
                               + Wire.Encode(WantlistRecord(m.wantlist))
  {
    hide Wire.Encode, BlockRecords, PayloadRecords, WantlistRecord;
    EncodeConcat(BlockRecords(Items(m.blocks)) + PayloadRecords(Items(m.payload)), WantlistRecord(m.wantlist));
    EncodeConcat(BlockRecords(Items(m.blocks)), PayloadRecords(Items(m.payload)));
  }

  /** However many blocks and entries there are, the buffer is large enough. */
  lemma MessageBounds(m: Message)
    requires Valid(m)
    ensures |MessageBytes(m)| <= MessageSize(m)
  {
    hide FieldBytes, RawData, Blocks.BlockBytes, WantlistBytes, RawSize, PayloadSize, ValidWantlist, WantlistSize, MessageBytes,
      Blocks.Valid;
    forall b <- Items(m.blocks) ensures |FieldBytes(Field(1, Blob(RawData(b))))| <= RawSize(b) {
      RawBound(b);
    }
    RecordsBound(1, RawData, RawSize, Items(m.blocks));
    forall b <- Items(m.payload) ensures |FieldBytes(Field(2, Blob(Blocks.BlockBytes(b))))| <= PayloadSize(b) {
      PayloadBound(b);
    }
    RecordsBound(2, Blocks.BlockBytes, PayloadSize, Items(m.payload));
    EncodeParts(m);
    WantlistRecordBound(m.wantlist);
  }

  lemma WantlistRecordBound(w: Option<Wantlist>)
    requires w.Some? ==> ValidWantlist(w.value)
    ensures |Wire.Encode(WantlistRecord(w))| <= match w case None => 0 case Some(list) => WantlistSize(list)
  {
    hide WantlistBytes;
    if w.Some? {
      var f := Field(3, Blob(WantlistBytes(w.value)));
      EncodeOne(f);
      FieldLength(f);
      WantlistBounds(w.value);
      VarintBounds(|WantlistBytes(w.value)|);
    }
  }

  method PutPayload(bs: seq<Block>, out: OutBuffer) returns (ok: bool)
    requires out.Valid() && forall b <- bs :: Blocks.Valid(b)
    modifies out, out.data
    ensures out.Valid()
    ensures ok <==> old(out.written) + |Wire.Encode(PayloadRecords(bs))| <= out.data.Length
    ensures ok ==> out.Contents() == old(out.Contents()) + Wire.Encode(PayloadRecords(bs))
  {
    hide FieldBytes, Wire.Encode, Blocks.BlockBytes, Blocks.Valid;
    ghost var fs := PayloadRecords(bs);
    EncodeUpToAll(fs);
    for i := 0 to |bs|
      invariant out.Valid()
      invariant out.Contents() == old(out.Contents()) + EncodeUpTo(fs, i)
    {
      EncodeUpToGrows(fs, i + 1, |fs|);
      var temp := Blocks.Serialize(bs[i]);
      ok := out.Put(Field(2, Blob(temp)));
      if !ok { return; }
    }
    ok := true;
  }

  method PutWantlist(w: Option<Wantlist>, out: OutBuffer) returns (ok: bool)
    requires out.Valid() && (w.Some? ==> ValidWantlist(w.value))
    modifies out, out.data
    ensures out.Valid()
    ensures ok <==> old(out.written) + |Wire.Encode(WantlistRecord(w))| <= out.data.Length
    ensures ok ==> out.Contents() == old(out.Contents()) + Wire.Encode(WantlistRecord(w))
  {
    hide FieldBytes, WantlistBytes;
    if w.None? { return true; }
    var temp := SerializeWantlist(w.value);
    EncodeOne(Field(3, Blob(temp)));
    ok := out.Put(Field(3, Blob(temp)));
  }

  method EncodeMessage(m: Message, out: OutBuffer) returns (ok: bool)
    requires Valid(m) && out.Valid()
    modifies out, out.data
    ensures out.Valid()
    ensures ok <==> old(out.written) + |MessageBytes(m)| <= out.data.Length
    ensures ok ==> out.Contents() == old(out.Contents()) + MessageBytes(m)
  {
    hide MessageBytes, Wire.Encode, BlockRecords, PayloadRecords, WantlistRecord, ValidWantlist;
    EncodeParts(m);
    ok := out.PutAll(BlockRecords(Items(m.blocks)));
    if !ok { return; }
    ok := PutPayload(Items(m.payload), out);
    if !ok { return; }
    ok := PutWantlist(m.wantlist, out);
  }

  /** The buffer that ipfs_bitswap_network_send_message allocates. */
  method Serialize(m: Message) returns (s: bytes)
    requires Valid(m)
    ensures s == MessageBytes(m)
  {
    hide MessageBytes, Valid;
    var temp := new OutBuffer(MessageSize(m));
    MessageBounds(m);
    var ok := EncodeMessage(m, temp);
    s := temp.Result();
  }

  function ApplyMessage(m: Message, f: Field): (r: Option<Message>) {
    match f
    case Field(1, Blob(b)) => Some(AddBlock(m, Blocks.Block(None, b)))
    case Field(2, Blob(b)) =>
      (match Blocks.Decode(b)
       case None => None
       case Some(block) => Some(AddPayload(m, block)))
    case Field(3, Blob(b)) =>
      (match DecodeWantlist(b)
       case None => None
       case Some(w) => Some(m.(wantlist := w)))
    case _ => Some(m)
  }

  function AddBlock(m: Message, b: Block): (r: Message) {
    m.(blocks := Some(Items(m.blocks) + [b]))
  }

  function AddPayload(m: Message, b: Block): (r: Message) {
    m.(payload := Some(Items(m.payload) + [b]))
  }

  const NEW_MESSAGE := Message(None, None, None)

  /** An empty buffer is a NULL message. */
  function Decode(s: bytes): (r: Option<Option<Message>>) {
    if s == [] then Some(None) else
    match Wire.Decode(MESSAGE_SCHEMA, ApplyMessage, s, NEW_MESSAGE)
    case None => None
    case Some(m) => Some(Some(m))
  }

  method RunDecode(s: bytes) returns (r: Option<Option<Message>>)
    ensures r == Decode(s)
  {
    if s == [] { return Some(None); }
    var m := RunDecoder(MESSAGE_SCHEMA, ApplyMessage, s, NEW_MESSAGE);
    r := match m case None => None case Some(msg) => Some(Some(msg));
  }

  /** What arrives: bare blocks lose their cid, payload cids keep what a char can
      hold of their codec, empty vectors are NULL. */
  function BareBlocks(bs: seq<Block>): (r: seq<Block>)
    ensures |r| == |bs|
    ensures forall i :: 0 <= i < |bs| ==> r[i] == Blocks.Block(None, bs[i].data)
  {
    if bs == [] then [] else [Blocks.Block(None, bs[0].data)] + BareBlocks(bs[1..])
  }

  function NarrowedBlocks(bs: seq<Block>): (r: seq<Block>)
    ensures |r| == |bs|
    ensures forall i :: 0 <= i < |bs| ==> r[i] == Blocks.Narrowed(bs[i])
  {
    if bs == [] then [] else [Blocks.Narrowed(bs[0])] + NarrowedBlocks(bs[1..])
  }

  function Normal(m: Message): (r: Message) {
    Message(NormalItems(BareBlocks(Items(m.blocks))),
            NormalItems(NarrowedBlocks(Items(m.payload))),
            match m.wantlist case None => None case Some(w) => Some(NormalWantlist(w)))
  }

  function StepBlock(m: Message, b: Block): (r: Message) {
    AddBlock(m, Blocks.Block(None, b.data))
  }

  function StepPayload(m: Message, b: Block): (r: Message) {
    AddPayload(m, Blocks.Narrowed(b))
  }

  lemma {:induction false} BlocksBack(bs: seq<Block>, m: Message)
    ensures FoldLeft(StepBlock, bs, m) == if bs == [] then m else m.(blocks := Some(Items(m.blocks) + BareBlocks(bs)))
  {
    if bs != [] {
      BlocksBack(bs[1..], StepBlock(m, bs[0]));
      AppendStep(Items(m.blocks), Blocks.Block(None, bs[0].data), BareBlocks(bs[1..]));
      assert bs[1..] == [] ==> BareBlocks(bs) == [Blocks.Block(None, bs[0].data)];
    }
  }

  lemma {:induction false} PayloadBack(bs: seq<Block>, m: Message)
    ensures FoldLeft(StepPayload, bs, m) == if bs == [] then m else m.(payload := Some(Items(m.payload) + NarrowedBlocks(bs)))
  {
    if bs != [] {
      PayloadBack(bs[1..], StepPayload(m, bs[0]));
      AppendStep(Items(m.payload), Blocks.Narrowed(bs[0]), NarrowedBlocks(bs[1..]));
      assert bs[1..] == [] ==> NarrowedBlocks(bs) == [Blocks.Narrowed(bs[0])];
    }
  }

  lemma MessageBlocksBack(bs: seq<Block>, m: Message)
    requires m.blocks == None
    ensures Fold(ApplyMessage, BlockRecords(bs), m) == Some(m.(blocks := NormalItems(BareBlocks(bs))))
  {
    hide Blocks.Decode, DecodeWantlist;
    RecordsBack(ApplyMessage, 1, RawData, StepBlock, bs, m);
    BlocksBack(bs, m);
    assert [] + BareBlocks(bs) == BareBlocks(bs);
  }

  lemma MessagePayloadBack(bs: seq<Block>, m: Message)
    requires m.payload == None && forall b <- bs :: Cids.Typed(b.cid)
    ensures Fold(ApplyMessage, PayloadRecords(bs), m) == Some(m.(payload := NormalItems(NarrowedBlocks(bs))))
  {
    hide Blocks.Decode, Blocks.BlockBytes, Cids.Typed, DecodeWantlist;
    forall m': Message, b | b in bs
      ensures ApplyMessage(m', Field(2, Blob(Blocks.BlockBytes(b)))) == Some(StepPayload(m', b))
    {
      Blocks.RoundTrip(b);
    }
    RecordsBack(ApplyMessage, 2, Blocks.BlockBytes, StepPayload, bs, m);
    PayloadBack(bs, m);
    assert [] + NarrowedBlocks(bs) == NarrowedBlocks(bs);
  }

  lemma MessageWantlistBack(w: Option<Wantlist>, m: Message)
    requires m.wantlist == None && (w.Some? ==> TypedWantlist(w.value))
    ensures Fold(ApplyMessage, WantlistRecord(w), m)
            == Some(m.(wantlist := match w case None => None case Some(list) => Some(NormalWantlist(list))))
  {
    hide Blocks.Decode, DecodeWantlist, WantlistBytes;
    if w.Some? {
      WantlistRoundTrip(w.value);
      FoldCons(ApplyMessage, Field(3, Blob(WantlistBytes(w.value))), [], m);
    }
  }

  predicate Typed(m: Message) {
    (forall b <- Items(m.payload) :: Cids.Typed(b.cid)) && (m.wantlist.Some? ==> TypedWantlist(m.wantlist.value))
  }

  /** Through four levels of nesting, a message that writes anything arrives as
      what it is, in order. */
  lemma MessageRoundTrip(m: Message)
    requires Typed(m)
    ensures Decode(MessageBytes(m)) == if MessageBytes(m) == [] then Some(None) else Some(Some(Normal(m)))
  {
    hide Wire.Encode, Wire.Decode, BlockRecords, PayloadRecords, WantlistRecord, ApplyMessage, TypedWantlist, NormalItems,
      NormalWantlist;
    var a, b, c := BlockRecords(Items(m.blocks)), PayloadRecords(Items(m.payload)), WantlistRecord(m.wantlist);
    DecodeEncoded(MESSAGE_SCHEMA, ApplyMessage, a + b + c, NEW_MESSAGE);
    MessageBlocksBack(Items(m.blocks), NEW_MESSAGE);
    var m1 := NEW_MESSAGE.(blocks := NormalItems(BareBlocks(Items(m.blocks))));
    MessagePayloadBack(Items(m.payload), m1);
    var m2 := m1.(payload := NormalItems(NarrowedBlocks(Items(m.payload))));
    MessageWantlistBack(m.wantlist, m2);
    FoldConcat(ApplyMessage, a, b, NEW_MESSAGE);
    FoldConcat(ApplyMessage, a + b, c, NEW_MESSAGE);
  }

  /** A message writes nothing exactly when it carries nothing. */
  lemma EmptyMessage(m: Message)
    ensures MessageBytes(m) == [] <==> Items(m.blocks) == [] && Items(m.payload) == [] && m.wantlist.None?
  {
    assert |MessageBytes(m)| >= |MessageFields(m)|;
  }
}
