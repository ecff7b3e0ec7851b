/** The UnixFS record kept in a node's data: unixfs/unixfs.c. */
module UnixFiles {
  import opened Basics
  import opened Wire

  /** Empty `data` stands for NULL bytes; `blockSizes` is the linked list. */
  datatype UnixFs = UnixFs(dataType: nat, data: bytes, fileSize: nat, blockSizes: seq<nat>)

  const RAW: nat := 0
  const FILE: nat := 2

  const EMPTY := UnixFs(RAW, [], 0, [])

  predicate IsSize(n: nat) {
    n < 0x1_0000_0000_0000_0000
  }

  ghost predicate Valid(u: UnixFs) {
    && u.dataType <= 4
    && IsSize(|u.data|)
    && IsSize(u.fileSize)
    && (forall n <- u.blockSizes :: IsSize(n))
  }

  const SCHEMA: Schema := [Unknown, Number, Record, Number, Number]

  function Head(u: UnixFs): (fs: seq<Field>)
    ensures forall f <- fs :: Fits(SCHEMA, f)
  {
    [Field(1, Num(u.dataType))]
    + (if u.data != [] then [Field(2, Blob(u.data))] else [])
    + (if u.fileSize > 0 then [Field(3, Num(u.fileSize))] else [])
  }

  function Sizes(ns: seq<nat>): (fs: seq<Field>)
    ensures |fs| == |ns|
    ensures forall f <- fs :: Fits(SCHEMA, f)
  {
    if ns == [] then [] else [Field(4, Num(ns[0]))] + Sizes(ns[1..])
  }

  function UnixFsBytes(u: UnixFs): (r: bytes) {
    Wire.Encode(Head(u)) + Wire.Encode(Sizes(u.blockSizes))
  }

  function EncodeSize(u: UnixFs): (r: nat) {
    |u.data| + 11 + 2 + 11 + 11 * |u.blockSizes|
  }

  lemma {:induction false} SizesBound(ns: seq<nat>)
    requires forall n <- ns :: IsSize(n)
    ensures |Wire.Encode(Sizes(ns))| <= 11 * |ns|
  {
    if ns != [] {
      assert IsSize(ns[0]);
      VarintBounds(ns[0]);
      FieldLength(Field(4, Num(ns[0])));
      SizesBound(ns[1..]);
      assert Sizes(ns)[1..] == Sizes(ns[1..]);
    }
  }

  lemma SizeBounds(u: UnixFs)
    requires Valid(u)
    ensures 0 < |UnixFsBytes(u)| <= EncodeSize(u)
  {
    SizesBound(u.blockSizes);
    var a, b, c := [Field(1, Num(u.dataType))], if u.data != [] then [Field(2, Blob(u.data))] else [],
      if u.fileSize > 0 then [Field(3, Num(u.fileSize))] else [];
    EncodeConcat(a + b, c);
    EncodeConcat(a, b);
    VarintBounds(|u.data|);
    VarintBounds(u.fileSize);
  }

  /** The results of writing the block sizes are not looked at, so nothing is
      promised for a buffer that is too small. */
  method Encode(u: UnixFs, out: OutBuffer) returns (ok: bool)
    requires out.Valid()
    modifies out, out.data
    ensures out.Valid()
    ensures old(out.written) + |UnixFsBytes(u)| <= out.data.Length ==>
              ok && out.Contents() == old(out.Contents()) + UnixFsBytes(u)
  {
    ok := out.PutAll(Head(u));
    if !ok { return; }
    var unchecked := out.PutAll(Sizes(u.blockSizes));
  }

  method Serialize(u: UnixFs) returns (s: bytes)
    requires Valid(u)
    ensures s == UnixFsBytes(u)
  {
    var temp := new OutBuffer(EncodeSize(u));
    SizeBounds(u);
    var ok := Encode(u, temp);
    s := temp.Result();
  }

  /** ipfs_unixfs_add_blocksize. */
  function AddBlockSize(u: UnixFs, n: nat): (r: UnixFs) {
    u.(blockSizes := u.blockSizes + [n])
  }

  function Apply(u: UnixFs, f: Field): (r: Option<UnixFs>) {
    match f
    case Field(1, Num(n)) => Some(u.(dataType := n % 0x1_0000_0000))
    case Field(2, Blob(b)) => Some(u.(data := b))
    case Field(3, Num(n)) => Some(u.(fileSize := n))
    case Field(4, Num(n)) => Some(AddBlockSize(u, n))
    case _ => Some(u)
  }

  function Decode(s: bytes): (r: Option<UnixFs>) {
    if s == [] then None else Wire.Decode(SCHEMA, Apply, s, EMPTY)
  }

  method RunDecode(s: bytes) returns (r: Option<UnixFs>)
    ensures r == Decode(s)
  {
    if s == [] { return None; }
    r := RunDecoder(SCHEMA, Apply, s, EMPTY);
  }

  lemma {:induction false} SizesBack(ns: seq<nat>, u: UnixFs)
    ensures Fold(Apply, Sizes(ns), u) == Some(u.(blockSizes := u.blockSizes + ns))
  {
    if ns == [] {
      assert u.blockSizes + ns == u.blockSizes;
    } else {
      var u' := AddBlockSize(u, ns[0]);
      SizesBack(ns[1..], u');
      assert u'.blockSizes + ns[1..] == u.blockSizes + ns;
      assert Sizes(ns)[1..] == Sizes(ns[1..]);
    }
  }

  lemma RoundTrip(u: UnixFs)
    requires Valid(u)
    ensures Decode(UnixFsBytes(u)) == Some(u)
  {
    SizeBounds(u);
    var head, sizes := Head(u), Sizes(u.blockSizes);
    EncodeConcat(head, sizes);
    DecodeEncoded(SCHEMA, Apply, head + sizes, EMPTY);
    HeadBack(u);
    FoldConcat(Apply, head, sizes, EMPTY);
    SizesBack(u.blockSizes, u.(blockSizes := []));
    assert [] + u.blockSizes == u.blockSizes;
  }

  lemma HeadBack(u: UnixFs)
    requires Valid(u)
    ensures Fold(Apply, Head(u), EMPTY) == Some(u.(blockSizes := []))
  {
    var a, b, c := [Field(1, Num(u.dataType))], if u.data != [] then [Field(2, Blob(u.data))] else [],
      if u.fileSize > 0 then [Field(3, Num(u.fileSize))] else [];
    var ua := EMPTY.(dataType := u.dataType);
    assert Fold(Apply, a, EMPTY) == Some(ua);
    FoldConcat(Apply, a, b, EMPTY);
    FoldConcat(Apply, a + b, c, EMPTY);
  }
}

/** Links and nodes of the Merkle DAG: merkledag/node.c. */
module Nodes {
  import opened Basics
  import opened Wire
  import opened UnixFiles

  /** `name` is None for NULL; an empty hash stands for NULL. */
  datatype NodeLink = NodeLink(hash: bytes, name: Option<bytes>, tSize: nat)

  datatype Node = Node(data: bytes, links: seq<NodeLink>)

  /** The length byte of a multihash is a one-byte varint, so digests have at most
      127 bytes. */
  ghost predicate ValidLink(l: NodeLink) {
    && |l.hash| <= 127
    && IsSize(l.tSize)
    && (l.name.Some? ==> IsSize(|l.name.value|))
  }

  ghost predicate Valid(n: Node) {
    && IsSize(|n.data|)
    && (forall l <- n.links :: ValidLink(l) && IsSize(|LinkBytes(l)|))
  }

  /** The multihash of a SHA2-256 digest: code 0x12, length, digest. */
  function Multihash(digest: bytes): (r: bytes) {
    [0x12, |digest| % 0x100] + digest
  }

  /** NULL and "" are written alike. */
  function NameOf(l: NodeLink): (r: bytes) {
    match l.name
    case None => []
    case Some(s) => s
  }

  const LINK_SCHEMA: Schema := [Unknown, Record, Record, Number]

  function HashPart(l: NodeLink): (r: seq<Field>) {
    if l.hash != [] then [Field(1, Blob(Multihash(l.hash)))] else []
  }

  function SizePart(l: NodeLink): (r: seq<Field>) {
    if l.tSize > 0 then [Field(3, Num(l.tSize))] else []
  }

  function LinkFields(l: NodeLink): (fs: seq<Field>)
    ensures forall f <- fs :: Fits(LINK_SCHEMA, f)
  {
    HashPart(l) + [Field(2, Blob(NameOf(l)))] + SizePart(l)
  }

  function LinkBytes(l: NodeLink): (s: bytes)
    ensures s != []
  {
    Wire.Encode(LinkFields(l))
  }

  function LinkEncodeSize(l: NodeLink): (r: nat) {
    (if |l.hash| > 0 then 11 + |l.hash| else 0)
    + (if |NameOf(l)| > 0 then 11 + |NameOf(l)| else 0)
    + (if l.tSize > 0 then 22 else 0)
  }

  lemma LinkLength(l: NodeLink)
    requires ValidLink(l)
    ensures |LinkBytes(l)| == (if l.hash != [] then 1 + |Varint(|l.hash| + 2)| + 2 + |l.hash| else 0)
                              + 1 + |Varint(|NameOf(l)|)| + |NameOf(l)|
                              + (if l.tSize > 0 then 1 + |Varint(l.tSize)| else 0)
  {
    var name := Field(2, Blob(NameOf(l)));
    EncodeConcat(HashPart(l) + [name], SizePart(l));
    EncodeConcat(HashPart(l), [name]);
    EncodeOne(name);
    FieldLength(name);
    if l.hash != [] {
      var hash := Field(1, Blob(Multihash(l.hash)));
      EncodeOne(hash);
      FieldLength(hash);
      VarintBounds(|l.hash| + 2);
    }
    if l.tSize > 0 {
      EncodeOne(Field(3, Num(l.tSize)));
      FieldLength(Field(3, Num(l.tSize)));
    }
  }

  /** The estimate is too small for exactly one kind of link: the empty one,
      whose empty name is written although it was not counted. */
  lemma LinkSizeBounds(l: NodeLink)
    requires ValidLink(l)
    ensures |LinkBytes(l)| <= LinkEncodeSize(l) <==> !EmptyLink(l)
  {
    LinkLength(l);
    VarintBounds(|l.hash| + 2);
    VarintBounds(|NameOf(l)|);
    VarintBounds(l.tSize);
  }

  predicate EmptyLink(l: NodeLink) {
    l.hash == [] && NameOf(l) == [] && l.tSize == 0
  }

  ghost predicate NoneEmpty(ls: seq<NodeLink>) {
    forall l <- ls :: !EmptyLink(l)
  }

  lemma NoneEmptySnoc(ls: seq<NodeLink>, i: nat)
    requires i < |ls| && NoneEmpty(ls[..i]) && !EmptyLink(ls[i])
    ensures NoneEmpty(ls[..i + 1])
  {
    assert ls[..i + 1] == ls[..i] + [ls[i]];
  }

  method EncodeLink(l: NodeLink, out: OutBuffer) returns (ok: bool)
    requires ValidLink(l) && out.Valid()
    modifies out, out.data
    ensures out.Valid()
    ensures ok <==> old(out.written) + |LinkBytes(l)| <= out.data.Length
    ensures ok ==> out.Contents() == old(out.Contents()) + LinkBytes(l)
  {
    ok := out.PutAll(LinkFields(l));
  }

  /** A link in a temporary buffer of the estimated size. */
  method SerializeLink(l: NodeLink) returns (r: Option<bytes>)
    requires ValidLink(l)
    ensures r == if EmptyLink(l) then None else Some(LinkBytes(l))
  {
    var temp := new OutBuffer(LinkEncodeSize(l));
    LinkSizeBounds(l);
    var ok := EncodeLink(l, temp);
    if !ok { return None; }
    var s := temp.Result();
    r := Some(s);
    assert s == LinkBytes(l);
  }

  function ApplyLink(l: NodeLink, f: Field): (r: Option<NodeLink>) {
    match f
    case Field(1, Blob(b)) => if |b| < 2 then None else Some(l.(hash := b[2..]))
    case Field(2, Blob(b)) => Some(l.(name := Some(b)))
    case Field(3, Num(n)) => Some(l.(tSize := n))
    case _ => Some(l)
  }

  const NO_LINK := NodeLink([], None, 0)

  function DecodeLink(s: bytes): (r: Option<NodeLink>) {
    Wire.Decode(LINK_SCHEMA, ApplyLink, s, NO_LINK)
  }

  function NormalLink(l: NodeLink): (r: NodeLink) {
    l.(name := Some(NameOf(l)))
  }

  lemma LinkRoundTrip(l: NodeLink)
    requires ValidLink(l)
    ensures DecodeLink(LinkBytes(l)) == Some(NormalLink(l))
  {
    hide Wire.Encode, Wire.Decode;
    var a, b, c := HashPart(l), [Field(2, Blob(NameOf(l)))], SizePart(l);
    DecodeEncoded(LINK_SCHEMA, ApplyLink, LinkFields(l), NO_LINK);
    assert Multihash(l.hash)[2..] == l.hash;
    assert Fold(ApplyLink, a, NO_LINK) == Some(NodeLink(l.hash, None, 0));
    FoldConcat(ApplyLink, a, b, NO_LINK);
    FoldConcat(ApplyLink, a + b, c, NO_LINK);
  }

  // -------------------------------------------------------------------- nodes

  const NODE_SCHEMA: Schema := [Unknown, Record, Record]

  function LinkField(l: NodeLink): (f: Field)
    ensures Fits(NODE_SCHEMA, f)
  {
    Field(2, Blob(LinkBytes(l)))
  }

  function LinksPart(ls: seq<NodeLink>): (fs: seq<Field>)
    ensures forall f <- fs :: Fits(NODE_SCHEMA, f)
  {
    Records(2, LinkBytes, ls)
  }

  function DataPart(n: Node): (fs: seq<Field>)
    ensures forall f <- fs :: Fits(NODE_SCHEMA, f)
  {
    if n.data != [] then [Field(1, Blob(n.data))] else []
  }

  /** Links first, then the data. */
  function NodeBytes(n: Node): (r: bytes) {
    Wire.Encode(LinksPart(n.links)) + Wire.Encode(DataPart(n))
  }

  function LinkRecordSize(l: NodeLink): (r: nat) {
    11 + LinkEncodeSize(l)
  }

  function NodeEncodeSize(n: Node): (r: nat) {
    Sum(LinkRecordSize, n.links) + if |n.data| > 0 then 11 + |n.data| else 0
  }

  lemma LinkRecordBound(l: NodeLink)
    requires ValidLink(l) && IsSize(|LinkBytes(l)|) && !EmptyLink(l)
    ensures |FieldBytes(LinkField(l))| <= LinkRecordSize(l)
  {
    hide LinkBytes;
    LinkSizeBounds(l);
    VarintBounds(|LinkBytes(l)|);
    FieldLength(LinkField(l));
  }

  lemma LinksSizeBounds(ls: seq<NodeLink>)
    requires forall l <- ls :: ValidLink(l) && IsSize(|LinkBytes(l)|) && !EmptyLink(l)
    ensures |Wire.Encode(LinksPart(ls))| <= Sum(LinkRecordSize, ls)
  {
    hide LinkBytes, FieldBytes, LinkRecordSize, ValidLink, EmptyLink;
    forall l <- ls ensures |FieldBytes(Field(2, Blob(LinkBytes(l))))| <= LinkRecordSize(l) { LinkRecordBound(l); }
    RecordsBound(2, LinkBytes, LinkRecordSize, ls);
  }

  lemma NodeSizeBounds(n: Node)
    requires Valid(n) && NoneEmpty(n.links)
    ensures |NodeBytes(n)| <= NodeEncodeSize(n)
  {
    LinksSizeBounds(n.links);
    VarintBounds(|n.data|);
    if n.data != [] {
      EncodeOne(Field(1, Blob(n.data)));
      FieldLength(Field(1, Blob(n.data)));
    }
  }

  method PutLink(l: NodeLink, out: OutBuffer) returns (ok: bool)
    requires ValidLink(l) && out.Valid()
    modifies out, out.data
    ensures out.Valid()
    ensures ok <==> !EmptyLink(l) && old(out.written) + |FieldBytes(LinkField(l))| <= out.data.Length
    ensures ok ==> out.Contents() == old(out.Contents()) + FieldBytes(LinkField(l))
  {
    var link := SerializeLink(l);
    if link.None? { return false; }
    ok := out.Put(Field(2, Blob(link.value)));
  }

  method PutLinks(ls: seq<NodeLink>, out: OutBuffer) returns (ok: bool)
    requires (forall l <- ls :: ValidLink(l)) && out.Valid()
    modifies out, out.data
    ensures out.Valid()
    ensures ok <==> NoneEmpty(ls) && old(out.written) + |Wire.Encode(LinksPart(ls))| <= out.data.Length
    ensures ok ==> out.Contents() == old(out.Contents()) + Wire.Encode(LinksPart(ls))
  {
    ghost var fs := LinksPart(ls);
    hide FieldBytes, Wire.Encode, LinkBytes, EmptyLink;
    EncodeUpToAll(fs);
    for i := 0 to |ls|
      invariant out.Valid() && NoneEmpty(ls[..i])
      invariant out.Contents() == old(out.Contents()) + EncodeUpTo(fs, i)
    {
      EncodeUpToGrows(fs, i + 1, |fs|);
      ok := PutLink(ls[i], out);
      if !ok { return; }
      NoneEmptySnoc(ls, i);
    }
    assert ls[..|ls|] == ls;
    ok := true;
  }

  /** Fails exactly when some link is empty or the buffer is too short. */
  method EncodeNode(n: Node, out: OutBuffer) returns (ok: bool)
    requires Valid(n) && out.Valid()
    modifies out, out.data
    ensures out.Valid()
    ensures ok <==> NoneEmpty(n.links) && old(out.written) + |NodeBytes(n)| <= out.data.Length
    ensures ok ==> out.Contents() == old(out.Contents()) + NodeBytes(n)
  {
    hide FieldBytes, Wire.Encode, NoneEmpty;
    ok := PutLinks(n.links, out);
    if !ok { return; }
    ok := out.PutAll(DataPart(n));
  }

  method Serialize(n: Node) returns (s: bytes)
    requires Valid(n) && NoneEmpty(n.links)
    ensures s == NodeBytes(n)
  {
    var temp := new OutBuffer(NodeEncodeSize(n));
    NodeSizeBounds(n);
    var ok := EncodeNode(n, temp);
    s := temp.Result();
  }

  /** A link that does not decode is dropped. */
  function ApplyNode(n: Node, f: Field): (r: Option<Node>) {
    match f
    case Field(1, Blob(b)) => Some(n.(data := b))
    case Field(2, Blob(b)) =>
      (match DecodeLink(b)
       case None => Some(n)
       case Some(l) => Some(n.(links := n.links + [l])))
    case _ => Some(n)
  }

  function DecodeNode(s: bytes): (r: Option<Node>) {
    if s == [] then None else Wire.Decode(NODE_SCHEMA, ApplyNode, s, Node([], []))
  }

  method RunDecodeNode(s: bytes) returns (r: Option<Node>)
    ensures r == DecodeNode(s)
  {
    if s == [] { return None; }
    r := RunDecoder(NODE_SCHEMA, ApplyNode, s, Node([], []));
  }

  function NormalLinks(ls: seq<NodeLink>): (r: seq<NodeLink>)
    ensures |r| == |ls|
    ensures forall i :: 0 <= i < |ls| ==> r[i] == NormalLink(ls[i])
  {
    if ls == [] then [] else [NormalLink(ls[0])] + NormalLinks(ls[1..])
  }

  function Normal(n: Node): (r: Node) {
    Node(n.data, NormalLinks(n.links))
  }

  lemma ApplyLinkField(n: Node, l: NodeLink)
    requires ValidLink(l)
    ensures ApplyNode(n, LinkField(l)) == Some(n.(links := n.links + [NormalLink(l)]))
  {
    LinkRoundTrip(l);
  }

  function StepLink(n: Node, l: NodeLink): (r: Node) {
    n.(links := n.links + [NormalLink(l)])
  }

  lemma {:induction false} LinksAreAdded(ls: seq<NodeLink>, n: Node)
    ensures FoldLeft(StepLink, ls, n) == n.(links := n.links + NormalLinks(ls))
  {
    if ls == [] {
      assert n.links + NormalLinks(ls) == n.links;
    } else {
      LinksAreAdded(ls[1..], StepLink(n, ls[0]));
      AppendStep(n.links, NormalLink(ls[0]), NormalLinks(ls[1..]));
    }
  }

  lemma LinksBack(ls: seq<NodeLink>, n: Node)
    requires forall l <- ls :: ValidLink(l)
    ensures Fold(ApplyNode, LinksPart(ls), n) == Some(n.(links := n.links + NormalLinks(ls)))
  {
    hide ApplyNode, LinkBytes, ValidLink;
    forall m: Node, l | l in ls ensures ApplyNode(m, Field(2, Blob(LinkBytes(l)))) == Some(StepLink(m, l)) {
      ApplyLinkField(m, l);
    }
    RecordsBack(ApplyNode, 2, LinkBytes, StepLink, ls, n);
    LinksAreAdded(ls, n);
  }

  /** A node that has data or links comes back, NULL names turned into "". */
  lemma NodeRoundTrip(n: Node)
    requires Valid(n)
    ensures DecodeNode(NodeBytes(n)) == if n == Node([], []) then None else Some(Normal(n))
  {
    var links, data := LinksPart(n.links), DataPart(n);
    EncodeConcat(links, data);
    DecodeEncoded(NODE_SCHEMA, ApplyNode, links + data, Node([], []));
    LinksBack(n.links, Node([], []));
    FoldConcat(ApplyNode, links, data, Node([], []));
    assert [] + NormalLinks(n.links) == NormalLinks(n.links);
    if n == Node([], []) {
      assert NodeBytes(n) == [];
    }
  }

  lemma NormalLinkBytes(l: NodeLink)
    ensures LinkBytes(NormalLink(l)) == LinkBytes(l)
  {
    assert LinkFields(NormalLink(l)) == LinkFields(l);
  }

  lemma NormalLinksBytes(ls: seq<NodeLink>)
    ensures LinksPart(NormalLinks(ls)) == LinksPart(ls)
  {
    hide LinkBytes, NormalLink;
    forall i | 0 <= i < |ls| ensures LinksPart(NormalLinks(ls))[i] == LinksPart(ls)[i] {
      NormalLinkBytes(ls[i]);
    }
  }

  lemma NormalIsValid(n: Node)
    requires Valid(n)
    ensures Valid(Normal(n))
  {
    hide LinkBytes;
    forall l <- Normal(n).links ensures ValidLink(l) && IsSize(|LinkBytes(l)|) {
      var i :| 0 <= i < |n.links| && l == NormalLink(n.links[i]);
      NormalLinkBytes(n.links[i]);
    }
  }

  /** Encoding the decoded node again gives the bytes it was decoded from. */
  lemma ReencodeDecoded(n: Node)
    requires Valid(n) && n != Node([], [])
    ensures DecodeNode(NodeBytes(n)) == Some(Normal(n))
    ensures Valid(Normal(n)) && NodeBytes(Normal(n)) == NodeBytes(n)
  {
    hide Wire.Encode;
    NodeRoundTrip(n);
    NormalIsValid(n);
    NormalLinksBytes(n.links);
  }
}
