/** What the encoders write, byte by byte: the messages as the Protocol Buffers
    Encoding document lays them out, with the tags as numbers; and what a reader that
    knows no schema finds in a node. */
module Layouts {
  import opened Basics
  import opened Wire
  import opened Nodes
  import UnixFiles
  import Cids
  import Blocks
  import Messages
  import Journals

  // ------------------------------------------------------------- varints

  /** Groups of seven bits, the least significant first. */
  function Positional(s: bytes): (n: nat) {
    if s == [] then 0 else s[0] % 128 + 128 * Positional(s[1..])
  }

  /** Every byte but the last has its top bit set, and the groups make up the number. */
  lemma {:induction false} VarintMeans(n: nat)
    ensures var s := Varint(n);
      && Positional(s) == n && s[|s| - 1] < 128 && forall i :: 0 <= i < |s| - 1 ==> s[i] >= 128
  {
    if n >= 128 {
      VarintMeans(n / 128);
      var s := Varint(n);
      assert s[1..] == Varint(n / 128);
      assert s[0] % 128 == n % 128;
      forall i | 0 <= i < |s| - 1 ensures s[i] >= 128 {
        if i > 0 { assert s[i] == s[1..][i - 1]; }
      }
    } else {
      assert Varint(n)[1..] == [];
    }
  }

  // ------------------------------------------------------------- no schema

  function ReadRaw(s: bytes): (r: Option<(Field, bytes)>)
    ensures r.Some? ==> |r.value.1| < |s|
  {
    match ReadVarint(s)
    case None => None
    case Some((tag, rest)) =>
      match ReadVarint(rest)
      case None => None
      case Some((n, rest')) =>
        if tag % 8 == 0 then Some((Field(tag / 8, Num(n)), rest'))
        else if tag % 8 == 2 && n <= |rest'| then Some((Field(tag / 8, Blob(rest'[..n])), rest'[n..]))
        else None
  }

  /** All fields up to the end of the bytes. */
  function RawFields(s: bytes): (fs: Option<seq<Field>>)
    decreases |s|
  {
    if s == [] then Some([]) else
    match ReadRaw(s)
    case None => None
    case Some((f, rest)) =>
      match RawFields(rest)
      case None => None
      case Some(fs) => Some([f] + fs)
  }

  lemma ReadRawBack(f: Field, rest: bytes)
    ensures ReadRaw(FieldBytes(f) + rest) == Some((f, rest))
  {
    var tag := f.no * 8 + WireType(f.value);
    assert tag / 8 == f.no && tag % 8 == WireType(f.value);
    hide Varint, ReadVarint;
    match f.value
    case Num(n) =>
      assert FieldBytes(f) + rest == Varint(tag) + (Varint(n) + rest);
      ReadVarintBack(tag, Varint(n) + rest);
      ReadVarintBack(n, rest);
    case Blob(b) =>
      assert FieldBytes(f) + rest == Varint(tag) + (Varint(|b|) + (b + rest));
      ReadVarintBack(tag, Varint(|b|) + (b + rest));
      ReadVarintBack(|b|, b + rest);
      assert (b + rest)[..|b|] == b && (b + rest)[|b|..] == rest;
  }

  lemma {:induction false} RawFieldsBack(fs: seq<Field>)
    ensures RawFields(Wire.Encode(fs)) == Some(fs)
  {
    hide FieldBytes, ReadRaw;
    if fs != [] {
      ReadRawBack(fs[0], Wire.Encode(fs[1..]));
      RawFieldsBack(fs[1..]);
      assert [fs[0]] + fs[1..] == fs;
    }
  }

  /** A reader that knows no schema finds in a node one record of number 2 for each
      link, in order, then one of number 1 with the data if there is any, and nothing
      more. */
  lemma NodeFields(n: Node)
    ensures RawFields(NodeBytes(n)).Some?
    ensures var fs := RawFields(NodeBytes(n)).value;
      && |fs| == |n.links| + (if n.data != [] then 1 else 0)
      && (forall i :: 0 <= i < |n.links| ==> fs[i] == Field(2, Blob(LinkBytes(n.links[i]))))
      && (n.data != [] ==> fs[|n.links|] == Field(1, Blob(n.data)))
  {
    hide LinkBytes, Wire.Encode, RawFields;
    var links, data := LinksPart(n.links), DataPart(n);
    EncodeConcat(links, data);
    RawFieldsBack(links + data);
  }

  // ------------------------------------------------------------- byte by byte

  /** A number behind its tag. */
  function Number(tag: byte, n: nat): (s: bytes) {
    [tag] + Varint(n)
  }

  /** A record behind its tag and its length. */
  function Record(tag: byte, b: bytes): (s: bytes) {
    [tag] + Varint(|b|) + b
  }

  function Repeated<X>(tag: byte, enc: X -> bytes, xs: seq<X>): (s: bytes) {
    if xs == [] then [] else Record(tag, enc(xs[0])) + Repeated(tag, enc, xs[1..])
  }

  function Numbers(tag: byte, ns: seq<nat>): (s: bytes) {
    if ns == [] then [] else Number(tag, ns[0]) + Numbers(tag, ns[1..])
  }

  lemma NumberIs(no: nat, n: nat)
    requires no < 16
    ensures FieldBytes(Field(no, Num(n))) == Number(no * 8, n)
  {
  }

  lemma RecordIs(no: nat, b: bytes)
    requires no < 16
    ensures FieldBytes(Field(no, Blob(b))) == Record(no * 8 + 2, b)
  {
  }

  lemma {:induction false} RepeatedIs<X>(no: nat, enc: X -> bytes, xs: seq<X>)
    requires no < 16
    ensures Wire.Encode(Records(no, enc, xs)) == Repeated(no * 8 + 2, enc, xs)
  {
    hide FieldBytes, Record;
    if xs != [] {
      RecordIs(no, enc(xs[0]));
      RepeatedIs(no, enc, xs[1..]);
      assert Records(no, enc, xs)[1..] == Records(no, enc, xs[1..]);
    }
  }

  lemma {:induction false} NumbersIs(ns: seq<nat>)
    ensures Wire.Encode(UnixFiles.Sizes(ns)) == Numbers(32, ns)
  {
    hide FieldBytes, Number;
    if ns != [] {
      NumberIs(4, ns[0]);
      NumbersIs(ns[1..]);
      assert UnixFiles.Sizes(ns)[1..] == UnixFiles.Sizes(ns[1..]);
    }
  }

  lemma CidLayout(c: Cids.Cid)
    ensures Cids.CidBytes(Some(c)) == Number(8, U64(c.version)) + Number(16, U64(c.codec)) + Record(26, c.hash)
  {
    hide FieldBytes, Number, Record, Wire.Encode;
    var fs := Cids.Fields(c);
    EncodeThree(fs[0], fs[1], fs[2]);
    NumberIs(1, U64(c.version));
    NumberIs(2, U64(c.codec));
    RecordIs(3, c.hash);
  }

  lemma BlockLayout(b: Blocks.Block)
    ensures Blocks.BlockBytes(b) == Record(10, b.data) + Record(18, Cids.CidBytes(b.cid))
  {
    hide FieldBytes, Record, Wire.Encode, Cids.CidBytes;
    var fs := Blocks.Fields(b);
    EncodeTwo(fs[0], fs[1]);
    RecordIs(1, b.data);
    RecordIs(2, Cids.CidBytes(b.cid));
  }

  lemma UnixFsLayout(u: UnixFiles.UnixFs)
    ensures UnixFiles.UnixFsBytes(u) ==
      Number(8, u.dataType) + (if u.data != [] then Record(18, u.data) else [])
      + (if u.fileSize > 0 then Number(24, u.fileSize) else []) + Numbers(32, u.blockSizes)
  {
    hide FieldBytes, Number, Record, Wire.Encode, UnixFiles.Sizes, Numbers;
    var a, b, c := [Field(1, Num(u.dataType))], if u.data != [] then [Field(2, Blob(u.data))] else [],
      if u.fileSize > 0 then [Field(3, Num(u.fileSize))] else [];
    EncodeConcat(a + b, c);
    EncodeConcat(a, b);
    EncodeOptional(u.data != [], Field(2, Blob(u.data)));
    EncodeOptional(u.fileSize > 0, Field(3, Num(u.fileSize)));
    EncodeOne(Field(1, Num(u.dataType)));
    NumberIs(1, u.dataType);
    RecordIs(2, u.data);
    NumberIs(3, u.fileSize);
    NumbersIs(u.blockSizes);
  }

  lemma EncodeOptional(there: bool, f: Field)
    ensures Wire.Encode(if there then [f] else []) == if there then FieldBytes(f) else []
  {
    hide FieldBytes;
    EncodeOne(f);
  }

  /** The hash of a link is a multihash: 0x12, its length, the digest. */
  lemma LinkLayout(l: NodeLink)
    requires |l.hash| < 256
    ensures LinkBytes(l) ==
      (if l.hash != [] then [10] + Varint(|l.hash| + 2) + [0x12, |l.hash|] + l.hash else [])
      + Record(18, NameOf(l)) + (if l.tSize > 0 then Number(24, l.tSize) else [])
  {
    hide FieldBytes, Number, Wire.Encode, Varint;
    var name := Field(2, Blob(NameOf(l)));
    EncodeConcat(HashPart(l) + [name], SizePart(l));
    EncodeConcat(HashPart(l), [name]);
    EncodeOne(name);
    EncodeOptional(l.hash != [], Field(1, Blob(Multihash(l.hash))));
    EncodeOptional(l.tSize > 0, Field(3, Num(l.tSize)));
    RecordIs(1, Multihash(l.hash));
    RecordIs(2, NameOf(l));
    NumberIs(3, l.tSize);
    var len: byte := |l.hash|;
    assert Multihash(l.hash) == [0x12, len] + l.hash;
    assert [10] + Varint(|l.hash| + 2) + Multihash(l.hash) == [10] + Varint(|l.hash| + 2) + [0x12, len] + l.hash;
  }

  lemma NodeLayout(n: Node)
    ensures NodeBytes(n) == Repeated(18, LinkBytes, n.links) + if n.data != [] then Record(10, n.data) else []
    ensures n.links != [] ==> NodeBytes(n)[0] == 0x12
    ensures |NodeBytes(n)| >= |n.data| && NodeBytes(n)[|NodeBytes(n)| - |n.data|..] == n.data
  {
    hide FieldBytes, Wire.Encode, LinkBytes;
    RepeatedIs(2, LinkBytes, n.links);
    EncodeOptional(n.data != [], Field(1, Blob(n.data)));
    RecordIs(1, n.data);
    if n.data == [] { assert NodeBytes(n)[|NodeBytes(n)|..] == []; }
  }

  lemma EntryLayout(e: Messages.WantlistEntry)
    ensures Messages.EntryBytes(e) == Record(10, e.block) + Number(16, e.cancel) + Number(24, e.priority)
  {
    hide FieldBytes, Number, Record, Wire.Encode;
    var fs := Messages.EntryFields(e);
    EncodeThree(fs[0], fs[1], fs[2]);
    RecordIs(1, e.block);
    NumberIs(2, e.cancel);
    NumberIs(3, e.priority);
  }

  lemma WantlistLayout(w: Messages.Wantlist)
    ensures Messages.WantlistBytes(w) == Repeated(10, Messages.EntryBytes, Messages.Items(w.entries)) + Number(16, w.full)
  {
    hide FieldBytes, Number, Wire.Encode, Messages.EntryBytes, Repeated;
    var es, last := Messages.Items(w.entries), Field(2, Num(w.full));
    EncodeConcat(Messages.EntryRecords(es), [last]);
    EncodeOne(last);
    RepeatedIs(1, Messages.EntryBytes, es);
    NumberIs(2, w.full);
  }

  /** Bare blocks, then payload, then the wantlist. */
  lemma MessageLayout(m: Messages.Message)
    ensures Messages.MessageBytes(m) ==
      Repeated(10, (b: Messages.Block) => b.data, Messages.Items(m.blocks))
      + Repeated(18, Blocks.BlockBytes, Messages.Items(m.payload))
      + match m.wantlist case None => [] case Some(w) => Record(26, Messages.WantlistBytes(w))
  {
    hide FieldBytes, Record, Wire.Encode, Blocks.BlockBytes, Messages.WantlistBytes, Messages.MessageBytes;
    Messages.EncodeParts(m);
    RepeatedIs(1, Messages.RawData, Messages.Items(m.blocks));
    SameRepeated(10, Messages.RawData, (b: Messages.Block) => b.data, Messages.Items(m.blocks));
    RepeatedIs(2, Blocks.BlockBytes, Messages.Items(m.payload));
    if m.wantlist.Some? {
      EncodeOne(Field(3, Blob(Messages.WantlistBytes(m.wantlist.value))));
      RecordIs(3, Messages.WantlistBytes(m.wantlist.value));
    } else {
      assert Wire.Encode([]) == [] by { NoFields(); }
    }
  }

  lemma NoFields()
    ensures Wire.Encode([]) == []
  {
  }

  lemma {:induction false} SameRepeated<X>(tag: byte, f: X -> bytes, g: X -> bytes, xs: seq<X>)
    requires forall x <- xs :: f(x) == g(x)
    ensures Repeated(tag, f, xs) == Repeated(tag, g, xs)
  {
    hide Record;
    if xs != [] { SameRepeated(tag, f, g, xs[1..]); }
  }

  lemma JournalEntryLayout(e: Journals.Entry)
    ensures Journals.EntryBytes(e) == Number(8, e.timestamp) + Record(18, e.hash) + Number(24, e.pin)
  {
    hide FieldBytes, Number, Record, Wire.Encode;
    var fs := Journals.EntryFields(e);
    EncodeThree(fs[0], fs[1], fs[2]);
    NumberIs(1, e.timestamp);
    RecordIs(2, e.hash);
    NumberIs(3, e.pin);
  }

  lemma JournalLayout(j: Journals.Journal)
    ensures Journals.JournalBytes(j) ==
      Number(8, j.current) + Number(16, j.start) + Number(24, j.end) + Repeated(34, Journals.EntryBytes, j.entries)
  {
    hide FieldBytes, Number, Wire.Encode, Journals.EntryBytes, Repeated;
    var fs := Journals.Epochs(j);
    EncodeConcat(fs, Journals.EntryRecords(j.entries));
    EncodeThree(fs[0], fs[1], fs[2]);
    NumberIs(1, j.current);
    NumberIs(2, j.start);
    NumberIs(3, j.end);
    RepeatedIs(4, Journals.EntryBytes, j.entries);
  }

  // ------------------------------------------------------------- how much is spared

  lemma NumberLength(tag: byte, n: nat)
    ensures |Number(tag, n)| == 1 + Groups(n)
  {
    VarintGroups(n);
  }

  lemma RecordLength(tag: byte, b: bytes)
    ensures |Record(tag, b)| == 1 + Groups(|b|) + |b|
  {
    VarintGroups(|b|);
  }

  /** What the estimate for a cid leaves over: ten bytes and a bit for each varint,
      less what they take. */
  lemma CidSpares(c: Cids.Cid)
    ensures Cids.EncodeSize(Some(c)) - |Cids.CidBytes(Some(c))| == 31 - Groups(U64(c.version)) - Groups(U64(c.codec)) - Groups(|c.hash|)
    ensures Cids.EncodeSize(None) == |Cids.CidBytes(None)| == 0
  {
    hide Cids.CidBytes, Number, Record;
    CidLayout(c);
    NumberLength(8, U64(c.version));
    NumberLength(16, U64(c.codec));
    RecordLength(26, c.hash);
    NoCid();
  }

  lemma NoCid()
    ensures Cids.CidBytes(None) == []
  {
  }

  lemma BlockSpares(b: Blocks.Block)
    ensures Blocks.EncodeSize(b) - |Blocks.BlockBytes(b)|
            == 20 - Groups(|b.data|) - Groups(|Cids.CidBytes(b.cid)|) + Cids.EncodeSize(b.cid) - |Cids.CidBytes(b.cid)|
  {
    hide Blocks.BlockBytes, Record, Cids.CidBytes, Cids.EncodeSize;
    BlockLayout(b);
    RecordLength(10, b.data);
    RecordLength(18, Cids.CidBytes(b.cid));
  }

  function SumGroups(ns: seq<nat>): (k: nat) {
    if ns == [] then 0 else Groups(ns[0]) + SumGroups(ns[1..])
  }

  lemma {:induction false} NumbersLength(ns: seq<nat>)
    ensures |Numbers(32, ns)| == |ns| + SumGroups(ns)
  {
    if ns != [] {
      NumberLength(32, ns[0]);
      NumbersLength(ns[1..]);
    }
  }

  lemma UnixFsSpares(u: UnixFiles.UnixFs)
    ensures UnixFiles.EncodeSize(u) - |UnixFiles.UnixFsBytes(u)|
            == 23 - Groups(u.dataType) - (if u.data != [] then 1 + Groups(|u.data|) else 0)
               - (if u.fileSize > 0 then 1 + Groups(u.fileSize) else 0) + 10 * |u.blockSizes| - SumGroups(u.blockSizes)
  {
    hide UnixFiles.UnixFsBytes, Number, Record, Numbers;
    UnixFsLayout(u);
    NumberLength(8, u.dataType);
    RecordLength(18, u.data);
    NumberLength(24, u.fileSize);
    NumbersLength(u.blockSizes);
  }

  lemma LinkSpares(l: NodeLink)
    requires |l.hash| < 256
    ensures LinkEncodeSize(l) - |LinkBytes(l)|
            == (if l.hash != [] then 8 - Groups(|l.hash| + 2) else 0) + (if NameOf(l) != [] then 10 - Groups(|NameOf(l)|) else -2)
               + (if l.tSize > 0 then 21 - Groups(l.tSize) else 0)
  {
    hide LinkBytes, Number, Record, Varint;
    LinkLayout(l);
    VarintGroups(|l.hash| + 2);
    RecordLength(18, NameOf(l));
    NumberLength(24, l.tSize);
    assert NameOf(l) == [] ==> Groups(|NameOf(l)|) == 1;
  }

  /** The sum of what the estimates `size` for repeated records leave over. */
  function Spares<X>(enc: X -> bytes, size: X -> nat, xs: seq<X>): (k: int) {
    if xs == [] then 0 else size(xs[0]) - 1 - Groups(|enc(xs[0])|) - |enc(xs[0])| + Spares(enc, size, xs[1..])
  }

  lemma {:induction false} RepeatedSpares<X>(tag: byte, enc: X -> bytes, size: X -> nat, size': X -> nat, xs: seq<X>)
    requires forall x <- xs :: size(x) == size'(x)
    ensures Sum(size', xs) - |Repeated(tag, enc, xs)| == Spares(enc, size, xs)
  {
    hide Record;
    if xs != [] {
      RecordLength(tag, enc(xs[0]));
      RepeatedSpares(tag, enc, size, size', xs[1..]);
    }
  }

  lemma NodeSpares(n: Node)
    ensures NodeEncodeSize(n) - |NodeBytes(n)|
            == Spares(LinkBytes, (l: NodeLink) => 11 + LinkEncodeSize(l), n.links) + if n.data != [] then 10 - Groups(|n.data|) else 0
  {
    hide NodeBytes, LinkBytes, LinkEncodeSize, Record, Repeated;
    NodeLayout(n);
    RepeatedSpares(18, LinkBytes, (l: NodeLink) => 11 + LinkEncodeSize(l), LinkRecordSize, n.links);
    RecordLength(10, n.data);
  }

  lemma EntrySpares(e: Messages.WantlistEntry)
    ensures Messages.EntrySize(e) - |Messages.EntryBytes(e)| == 30 - Groups(|e.block|) - Groups(e.cancel) - Groups(e.priority)
  {
    hide Messages.EntryBytes, Number, Record;
    EntryLayout(e);
    RecordLength(10, e.block);
    NumberLength(16, e.cancel);
    NumberLength(24, e.priority);
  }

  lemma WantlistSpares(w: Messages.Wantlist)
    ensures Messages.WantlistSize(w) - |Messages.WantlistBytes(w)|
            == 33 - Groups(w.full) + Spares(Messages.EntryBytes, (e: Messages.WantlistEntry) => 33 + |e.block|, Messages.Items(w.entries))
  {
    hide Messages.WantlistBytes, Messages.EntryBytes, Number, Repeated;
    WantlistLayout(w);
    RepeatedSpares(10, Messages.EntryBytes, (e: Messages.WantlistEntry) => 33 + |e.block|, Messages.EntrySize, Messages.Items(w.entries));
    NumberLength(16, w.full);
  }

  lemma MessageSpares(m: Messages.Message)
    ensures Messages.MessageSize(m) - |Messages.MessageBytes(m)|
            == 34 + Spares((b: Messages.Block) => b.data, (b: Messages.Block) => 11 + |b.data|, Messages.Items(m.blocks))
               + Spares(Blocks.BlockBytes, (b: Messages.Block) => 11 + Blocks.EncodeSize(b), Messages.Items(m.payload))
               + match m.wantlist
                 case None => 0
                 case Some(w) => Messages.WantlistSize(w) - 1 - Groups(|Messages.WantlistBytes(w)|) - |Messages.WantlistBytes(w)|
  {
    hide Messages.MessageBytes, Messages.WantlistBytes, Messages.WantlistSize, Blocks.BlockBytes, Blocks.EncodeSize, Record, Repeated;
    MessageLayout(m);
    RepeatedSpares(10, (b: Messages.Block) => b.data, (b: Messages.Block) => 11 + |b.data|, Messages.RawSize, Messages.Items(m.blocks));
    RepeatedSpares(18, Blocks.BlockBytes, (b: Messages.Block) => 11 + Blocks.EncodeSize(b), Messages.PayloadSize, Messages.Items(m.payload));
    if m.wantlist.Some? { RecordLength(26, Messages.WantlistBytes(m.wantlist.value)); }
  }
}
