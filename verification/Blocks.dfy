/** Content identifiers: cid/cid.c. */
module Cids {
  import opened Basics
  import opened Wire

  /** `version` and `codec` are C ints; an empty `hash` stands for NULL. */
  datatype Cid = Cid(version: int, codec: int, hash: bytes)

  const DAG_PROTOBUF := 0x70

  predicate IsInt(v: int) {
    -0x8000_0000 <= v < 0x8000_0000
  }

  ghost predicate Valid(c: Option<Cid>) {
    c.Some? ==> IsInt(c.value.version) && IsInt(c.value.codec) && |c.value.hash| < 0x8000_0000
  }

  const SCHEMA: Schema := [Unknown, Number, Number, Record]

  function Fields(c: Cid): (fs: seq<Field>)
    ensures forall f <- fs :: Fits(SCHEMA, f)
  {
    [Field(1, Num(U64(c.version))), Field(2, Num(U64(c.codec))), Field(3, Blob(c.hash))]
  }

  function CidBytes(c: Option<Cid>): (r: bytes) {
    match c
    case None => []
    case Some(cid) => Wire.Encode(Fields(cid))
  }

  function EncodeSize(c: Option<Cid>): (r: nat) {
    match c
    case None => 0
    case Some(cid) => 11 + 12 + |cid.hash| + 11
  }

  lemma SizeBounds(c: Option<Cid>)
    requires Valid(c)
    ensures |CidBytes(c)| <= EncodeSize(c)
  {
    match c
    case None =>
    case Some(cid) =>
      var fs := Fields(cid);
      EncodeThree(fs[0], fs[1], fs[2]);
      VarintBounds(U64(cid.version));
      VarintBounds(U64(cid.codec));
      VarintBounds(|cid.hash|);
  }

  method Encode(c: Option<Cid>, out: OutBuffer) returns (ok: bool)
    requires out.Valid()
    modifies out, out.data
    ensures out.Valid()
    ensures ok <==> old(out.written) + |CidBytes(c)| <= out.data.Length
    ensures ok ==> out.Contents() == old(out.Contents()) + CidBytes(c)
  {
    if c.None? { return true; }
    ok := out.PutAll(Fields(c.value));
  }

  /** A temporary buffer of the estimated size is always large enough. */
  method Serialize(c: Option<Cid>) returns (s: bytes)
    requires Valid(c)
    ensures s == CidBytes(c)
  {
    var temp := new OutBuffer(EncodeSize(c));
    SizeBounds(c);
    var ok := Encode(c, temp);
    s := temp.Result();
  }

  /** The switch of the decoder; the codec passes through a char. */
  function Apply(c: Cid, f: Field): (r: Option<Cid>) {
    match f
    case Field(1, Num(n)) => Some(c.(version := S32(n)))
    case Field(2, Num(n)) => Some(c.(codec := S8(n)))
    case Field(3, Blob(b)) => Some(c.(hash := b))
    case _ => Some(c)
  }

  /** An empty buffer decodes to a NULL cid. */
  function Decode(s: bytes): (r: Option<Option<Cid>>) {
    if s == [] then Some(None) else
    match Wire.Decode(SCHEMA, Apply, s, Cid(0, 0, []))
    case None => None
    case Some(c) => Some(Some(c))
  }

  method RunDecode(s: bytes) returns (r: Option<Option<Cid>>)
    ensures r == Decode(s)
  {
    if s == [] { return Some(None); }
    var c := RunDecoder(SCHEMA, Apply, s, Cid(0, 0, []));
    r := match c case None => None case Some(cid) => Some(Some(cid));
  }

  /** What the wire keeps of a cid: a codec outside a char loses its high bits. */
  function Narrowed(c: Option<Cid>): (r: Option<Cid>)
    ensures c.Some? <==> r.Some?
    ensures c.Some? ==> r.value.hash == c.value.hash && r.value.version == c.value.version
  {
    match c
    case None => None
    case Some(cid) => Some(cid.(codec := S8(U64(cid.codec))))
  }

  /** The version is all that must be a C int for the round trip. */
  predicate Typed(c: Option<Cid>) {
    c.Some? ==> IsInt(c.value.version)
  }

  lemma RoundTrip(c: Option<Cid>)
    requires Typed(c)
    ensures Decode(CidBytes(c)) == Some(Narrowed(c))
  {
    match c
    case None =>
    case Some(cid) =>
      var fs := Fields(cid);
      DecodeEncoded(SCHEMA, Apply, fs, Cid(0, 0, []));
      S32Back(cid.version);
      assert Fold(Apply, fs[2..], Cid(cid.version, S8(U64(cid.codec)), [])) == Some(Narrowed(c).value);
      assert fs[1..][0] == fs[1] && fs[1..][1..] == fs[2..];
  }

  /** A cid comes back unchanged exactly when its codec fits a (signed) char. */
  lemma {:induction false} RoundTripExact(c: Cid)
    requires Valid(Some(c))
    ensures Decode(CidBytes(Some(c))) == Some(Some(c)) <==> -0x80 <= c.codec < 0x80
  {
    RoundTrip(Some(c));
    S8Back(c.codec);
  }

  /** CID_ETHEREUM_BLOCK is one of the declared codecs that does not. */
  lemma LargeCodecIsLost()
    ensures exists c :: Valid(Some(c)) && c.codec == 0x90 && Decode(CidBytes(Some(c))) != Some(Some(c))
  {
    var c := Cid(1, 0x90, [0]);
    RoundTripExact(c);
    assert Valid(Some(c));
  }

  /** By how much b exceeds a where they first differ: version, codec, length, or the
      byte before which all are equal. */
  function Difference(a: Cid, b: Cid): (d: int)
  {
    if a.version != b.version then b.version - a.version
    else if a.codec != b.codec then b.codec - a.codec
    else if |a.hash| != |b.hash| then |b.hash| - |a.hash|
    else FirstDifference(a.hash, b.hash)
  }

  function FirstDifference(a: bytes, b: bytes): (d: int)
    requires |a| == |b|
    ensures d == 0 <==> a == b
    ensures d != 0 ==> exists i :: 0 <= i < |a| && a[..i] == b[..i] && a[i] != b[i] && d == b[i] as int - a[i] as int
  {
    if a == [] then 0
    else if a[0] != b[0] then
      assert a[..0] == b[..0];
      b[0] as int - a[0] as int
    else
      var d := FirstDifference(a[1..], b[1..]);
      assert a == [a[0]] + a[1..] && b == [b[0]] + b[1..];
      assert forall i :: 0 <= i < |a| - 1 && a[1..][..i] == b[1..][..i] ==> a[..i + 1] == [a[0]] + a[1..][..i] && b[..i + 1] == [b[0]] + b[1..][..i];
      d
  }

  lemma DifferenceAt(a: bytes, b: bytes, i: nat)
    requires |a| == |b| && i < |a| && a[..i] == b[..i] && a[i] != b[i]
    ensures FirstDifference(a, b) == b[i] as int - a[i] as int
  {
    var j :| 0 <= j < |a| && a[..j] == b[..j] && a[j] != b[j] && FirstDifference(a, b) == b[j] as int - a[j] as int;
    assert forall k :: 0 <= k < j ==> a[k] == a[..j][k] == b[..j][k];
    assert forall k :: 0 <= k < i ==> a[k] == a[..i][k] == b[..i][k];
    assert i == j;
  }

  /** The sign of the first difference, looking at version, codec, length and
      then the bytes in turn. */
  method Compare(a: Option<Cid>, b: Option<Cid>) returns (r: int)
    requires Valid(a) && Valid(b)
    ensures r == 0 <==> a == b
    ensures a.Some? && b.None? ==> r < 0
    ensures a.None? && b.Some? ==> r > 0
    ensures a.Some? && b.Some? ==> r == Difference(a.value, b.value)
  {
    if a.None? && b.None? { return 0; }
    if a.Some? && b.None? { return -1; }
    if a.None? && b.Some? { return 1; }
    var x, y := a.value, b.value;
    if x.version != y.version { return y.version - x.version; }
    if x.codec != y.codec { return y.codec - x.codec; }
    if |x.hash| != |y.hash| { return |y.hash| - |x.hash|; }
    for i := 0 to |x.hash|
      invariant x.hash[..i] == y.hash[..i]
    {
      var p: int, q: int := x.hash[i], y.hash[i];
      if p != q {
        DifferenceAt(x.hash, y.hash, i);
        return q - p;
      }
    }
    assert x.hash == x.hash[..|x.hash|] == y.hash[..|x.hash|] == y.hash;
    return 0;
  }
}

/** Blocks of data with their cids: blocks/block.c. */
module Blocks {
  import opened Basics
  import opened Wire
  import Cids

  datatype Block = Block(cid: Option<Cids.Cid>, data: bytes)

  ghost predicate Valid(b: Block) {
    Cids.Valid(b.cid) && |b.data| < 0x1_0000_0000_0000_0000
  }

  const SCHEMA: Schema := [Unknown, Record, Record]

  function Fields(b: Block): (fs: seq<Field>)
    ensures forall f <- fs :: Fits(SCHEMA, f)
  {
    [Field(1, Blob(b.data)), Field(2, Blob(Cids.CidBytes(b.cid)))]
  }

  function BlockBytes(b: Block): (r: bytes) {
    Wire.Encode(Fields(b))
  }

  function EncodeSize(b: Block): (r: nat) {
    22 + Cids.EncodeSize(b.cid) + |b.data|
  }

  lemma SizeBounds(b: Block)
    requires Valid(b)
    ensures |BlockBytes(b)| <= EncodeSize(b)
  {
    var fs := Fields(b);
    EncodeTwo(fs[0], fs[1]);
    Cids.SizeBounds(b.cid);
    VarintBounds(|b.data|);
    VarintBounds(|Cids.CidBytes(b.cid)|);
  }

  function DataBytes(b: Block): (s: bytes)
    ensures |s| >= 1
  {
    FieldBytes(Field(1, Blob(b.data)))
  }

  function CidPart(b: Block): (s: bytes)
    ensures |s| >= 1
  {
    FieldBytes(Field(2, Blob(Cids.CidBytes(b.cid))))
  }

  lemma BlockParts(b: Block)
    ensures BlockBytes(b) == DataBytes(b) + CidPart(b)
  {
    EncodeTwo(Field(1, Blob(b.data)), Field(2, Blob(Cids.CidBytes(b.cid))));
  }

  /** Result and bytes written where `room` bytes are left. The result of writing the
      data is not looked at: data that does not fit is left out, and the cid, with
      its result, comes all the same. */
  function Written(b: Block, room: nat): (r: (bool, bytes)) {
    var data := if |DataBytes(b)| <= room then DataBytes(b) else [];
    var ok := |data| + |CidPart(b)| <= room;
    (ok, data + if ok then CidPart(b) else [])
  }

  /** A success means that the block was written exactly if there was room for its
      data; and everything is written exactly if there is room for everything. */
  lemma WrittenExactly(b: Block, room: nat)
    ensures Written(b, room).0 ==> (Written(b, room).1 == BlockBytes(b) <==> |DataBytes(b)| <= room)
    ensures |BlockBytes(b)| <= room <==> Written(b, room) == (true, BlockBytes(b))
  {
    hide DataBytes, CidPart, BlockBytes;
    BlockParts(b);
    assert |BlockBytes(b)| == |DataBytes(b)| + |CidPart(b)|;
  }

  /** There is such a block: two bytes of data, no cid, and room for just the cid. */
  lemma DataCanBeLost()
    ensures exists b, room :: Valid(b) && Written(b, room).0 && Written(b, room).1 != BlockBytes(b)
  {
    var b := Block(None, [0, 0]);
    assert Valid(b);
    assert DataBytes(b) == [10, 2, 0, 0] && CidPart(b) == [18, 0];
    WrittenExactly(b, 2);
    assert Written(b, 2).0;
  }

  method Encode(b: Block, out: OutBuffer) returns (ok: bool)
    requires Valid(b) && out.Valid()
    modifies out, out.data
    ensures out.Valid()
    ensures var (done, s) := Written(b, out.data.Length - old(out.written));
      ok == done && out.Contents() == old(out.Contents()) + s
  {
    hide FieldBytes;
    ghost var was := out.Contents();
    var unchecked := out.Put(Field(1, Blob(b.data)));
    ghost var data := if unchecked then DataBytes(b) else [];
    assert out.Contents() == was + data;
    var cid := Cids.Serialize(b.cid);
    ok := out.Put(Field(2, Blob(cid)));
    Regroup(was, data, if ok then CidPart(b) else []);
  }

  lemma Regroup(a: bytes, b: bytes, c: bytes)
    ensures (a + b) + c == a + (b + c)
  {
  }

  method Serialize(b: Block) returns (s: bytes)
    requires Valid(b)
    ensures s == BlockBytes(b)
  {
    var temp := new OutBuffer(EncodeSize(b));
    SizeBounds(b);
    WrittenExactly(b, temp.data.Length);
    hide Written, BlockBytes;
    var ok := Encode(b, temp);
    s := temp.Result();
  }

  function Apply(b: Block, f: Field): (r: Option<Block>) {
    match f
    case Field(1, Blob(d)) => Some(b.(data := d))
    case Field(2, Blob(d)) =>
      (match Cids.Decode(d)
       case None => None
       case Some(c) => Some(b.(cid := c)))
    case _ => Some(b)
  }

  function Decode(s: bytes): (r: Option<Block>) {
    Wire.Decode(SCHEMA, Apply, s, Block(None, []))
  }

  method RunDecode(s: bytes) returns (r: Option<Block>)
    ensures r == Decode(s)
  {
    r := RunDecoder(SCHEMA, Apply, s, Block(None, []));
  }

  function Narrowed(b: Block): (r: Block) {
    b.(cid := Cids.Narrowed(b.cid))
  }

  lemma RoundTrip(b: Block)
    requires Cids.Typed(b.cid)
    ensures Decode(BlockBytes(b)) == Some(Narrowed(b))
  {
    var fs := Fields(b);
    DecodeEncoded(SCHEMA, Apply, fs, Block(None, []));
    Cids.RoundTrip(b.cid);
    assert Fold(Apply, fs[1..], Block(None, b.data)) == Some(Narrowed(b));
  }
}
