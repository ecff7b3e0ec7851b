/** Importing a file in chunks: importer/importer.c. */
module Importer {
  import opened Basics
  import opened Wire
  import opened Nodes
  import opened MerkleDag
  import UnixFiles

  const MAX_DATA_SIZE: nat := 262144

  /** Files are far shorter than 2^64 bytes; a bound that keeps every size_t exact. */
  const LIMIT: nat := 0x100_0000_0000_0000

  // ------------------------------------------------ what an import amounts to

  function Concat(cs: seq<bytes>): (r: bytes) {
    if cs == [] then [] else Concat(cs[..|cs| - 1]) + cs[|cs| - 1]
  }

  function Lengths(cs: seq<bytes>): (r: seq<nat>)
    ensures |r| == |cs|
    ensures forall i :: 0 <= i < |cs| ==> r[i] == |cs[i]|
  {
    if cs == [] then [] else Lengths(cs[..|cs| - 1]) + [|cs[|cs| - 1]|]
  }

  /** The node for one chunk on its own. */
  function Leaf(chunk: bytes): (r: Node) {
    Node(UnixFiles.UnixFsBytes(UnixFiles.UnixFs(UnixFiles.FILE, chunk, |chunk|, [])), [])
  }

  function LinkTo(sha: Hash, chunk: bytes): (r: NodeLink) {
    var leaf := Leaf(chunk);
    NodeLink(Address(sha, leaf), None, |NodeFile(leaf, Address(sha, leaf))|)
  }

  function LinksTo(sha: Hash, cs: seq<bytes>): (r: seq<NodeLink>)
    ensures |r| == |cs|
    ensures forall i :: 0 <= i < |cs| ==> r[i] == LinkTo(sha, cs[i])
  {
    if cs == [] then [] else LinksTo(sha, cs[..|cs| - 1]) + [LinkTo(sha, cs[|cs| - 1])]
  }

  /** The UnixFS record of a file in pieces: no bytes of its own, the total size,
      and the size of every piece. */
  function Record(cs: seq<bytes>): (r: UnixFiles.UnixFs) {
    UnixFiles.UnixFs(UnixFiles.FILE, [], |Concat(cs)|, Lengths(cs))
  }

  /** The parent node with links to the pieces cs. */
  function Parent(sha: Hash, cs: seq<bytes>): (r: Node) {
    Node(if cs == [] then [] else UnixFiles.UnixFsBytes(Record(cs)), LinksTo(sha, cs))
  }

  /** The pieces of a file: full chunks and a last one that is shorter, and empty
      if the length is a multiple of the chunk size. */
  function Chunks(content: bytes, size: nat): (cs: seq<bytes>)
    requires size > 0
    ensures |cs| >= 1
  {
    if |content| < size then [content] else [content[..size]] + Chunks(content[size..], size)
  }

  /** The root of an imported file. */
  function Root(sha: Hash, cs: seq<bytes>): (r: Node) {
    if |cs| == 1 then Leaf(cs[0]) else Parent(sha, cs)
  }

  function WriteLeaves(sha: Hash, files: Files, cs: seq<bytes>): (r: Files) {
    if cs == [] then files else Write(sha, WriteLeaves(sha, files, cs[..|cs| - 1]), Leaf(cs[|cs| - 1]))
  }

  /** The store after the import: the pieces, unless there is just one, then the root. */
  function Imported(sha: Hash, files: Files, cs: seq<bytes>): (r: Files) {
    Write(sha, if |cs| == 1 then files else WriteLeaves(sha, files, cs), Root(sha, cs))
  }

  // ------------------------------------------------------------ sizes are fine

  lemma {:induction false} ConcatLength(cs: seq<bytes>, i: nat)
    requires i < |cs|
    ensures |cs[i]| <= |Concat(cs)|
  {
    if i < |cs| - 1 { ConcatLength(cs[..|cs| - 1], i); }
  }

  lemma LeafIsWritable(chunk: bytes)
    requires |chunk| < LIMIT
    ensures Writable(Leaf(chunk)) && |NodeBytes(Leaf(chunk))| <= |chunk| + 100
  {
    hide UnixFiles.UnixFsBytes, NodeBytes;
    var u := UnixFiles.UnixFs(UnixFiles.FILE, chunk, |chunk|, []);
    UnixFiles.SizeBounds(u);
    NodeSizeBounds(Leaf(chunk));
  }

  lemma LinkIsValid(sha: Hash, chunk: bytes)
    requires IsHash(sha) && |chunk| < LIMIT
    ensures var l := LinkTo(sha, chunk); ValidLink(l) && !EmptyLink(l) && |LinkBytes(l)| <= LinkEncodeSize(l) <= 100
  {
    hide NodeBytes, LinkBytes, Leaf;
    LeafIsWritable(chunk);
    var leaf := Leaf(chunk);
    var block := NodeBlock(leaf, Address(sha, leaf));
    Blocks.SizeBounds(block);
    LinkSizeBounds(LinkTo(sha, chunk));
  }

  lemma {:induction false} LinksSize(ls: seq<NodeLink>)
    requires forall l <- ls :: LinkEncodeSize(l) <= 100
    ensures Sum(LinkRecordSize, ls) <= 111 * |ls|
  {
    hide LinkEncodeSize;
    if ls != [] { LinksSize(ls[1..]); }
  }

  /** Enough pieces to be worth a parent, few enough to be counted. */
  ghost predicate Fit(cs: seq<bytes>) {
    |Concat(cs)| < LIMIT && |cs| < LIMIT
  }

  lemma RecordIsValid(cs: seq<bytes>)
    requires Fit(cs)
    ensures UnixFiles.Valid(Record(cs))
  {
    forall n <- Lengths(cs) ensures UnixFiles.IsSize(n) {
      var i :| 0 <= i < |cs| && Lengths(cs)[i] == n;
      ConcatLength(cs, i);
    }
  }

  lemma ParentIsWritable(sha: Hash, cs: seq<bytes>)
    requires IsHash(sha) && Fit(cs) && cs != []
    ensures Writable(Parent(sha, cs))
  {
    hide UnixFiles.UnixFsBytes, NodeBytes, LinkTo, LinkBytes, IsHash, EmptyLink, ValidLink, LinkEncodeSize, Record, Concat, Lengths;
    RecordIsValid(cs);
    UnixFiles.SizeBounds(Record(cs));
    RecordSize(cs);
    forall l <- LinksTo(sha, cs)
      ensures ValidLink(l) && !EmptyLink(l) && UnixFiles.IsSize(|LinkBytes(l)|) && LinkEncodeSize(l) <= 100
    {
      var i :| 0 <= i < |cs| && LinksTo(sha, cs)[i] == l;
      ConcatLength(cs, i);
      LinkIsValid(sha, cs[i]);
    }
    LinksSize(LinksTo(sha, cs));
    NodeSizeBounds(Parent(sha, cs));
  }

  lemma RecordSize(cs: seq<bytes>)
    ensures UnixFiles.EncodeSize(Record(cs)) == 24 + 11 * |cs|
  {
  }

  // ------------------------------------------------------------------ the code

  /** A FILE open for reading. */
  class File {
    const content: bytes
    var offset: nat

    constructor (content: bytes)
      ensures this.content == content && offset == 0
    {
      this.content := content;
      offset := 0;
    }

    method Read(max: nat) returns (buffer: bytes)
      requires offset <= |content|
      modifies this
      ensures old(offset) <= offset <= |content|
      ensures buffer == content[old(offset)..offset]
      ensures |buffer| == max || (|buffer| < max && offset == |content|)
    {
      var n := if |content| - offset < max then |content| - offset else max;
      buffer := content[offset..offset + n];
      offset := offset + n;
    }
  }

  /** The data section of the parent is decoded, extended and encoded again; the
      record it holds stays that of the pieces so far. */
  method AddFilesize(node: HashtableNode, ghost cs: seq<bytes>, ghost chunk: bytes, bytesRead: nat)
    requires bytesRead == |chunk| && Fit(cs + [chunk])
    requires node.data == if cs == [] then [] else UnixFiles.UnixFsBytes(Record(cs))
    modifies node`data
    ensures node.data == UnixFiles.UnixFsBytes(Record(cs + [chunk]))
  {
    hide UnixFiles.UnixFsBytes, UnixFiles.Decode, Concat, Lengths, Fit;
    ghost var cs' := cs + [chunk];
    RecordSnoc(cs, chunk);
    var section: UnixFiles.UnixFs;
    if node.data == [] {
      if cs != [] { UnixFiles.SizeBounds(Record(cs)); }
      section := UnixFiles.EMPTY.(dataType := UnixFiles.FILE);
    } else {
      var decoded := UnixFiles.RunDecode(node.data);
      UnixFiles.RoundTrip(Record(cs));
      section := decoded.value;
    }
    section := UnixFiles.AddBlockSize(section, bytesRead);
    section := section.(fileSize := section.fileSize + bytesRead);
    assert section == Record(cs');
    var protobuf := UnixFiles.Serialize(section);
    node.SetData(protobuf);
  }

  function Total(ns: seq<nat>): (r: nat) {
    if ns == [] then 0 else Total(ns[..|ns| - 1]) + ns[|ns| - 1]
  }

  lemma {:induction false} TotalOfLengths(cs: seq<bytes>)
    ensures Total(Lengths(cs)) == |Concat(cs)|
  {
    if cs != [] {
      TotalOfLengths(cs[..|cs| - 1]);
      assert Lengths(cs)[..|cs| - 1] == Lengths(cs[..|cs| - 1]);
    }
  }

  /** The invariant of the import loop: the parent's data decodes to a record with
      one block size a link, each the length of the piece under that link, and
      their sum is the file size, which is the number of bytes read. */
  lemma ParentRecord(sha: Hash, cs: seq<bytes>)
    requires Fit(cs) && cs != []
    ensures var n := Parent(sha, cs);
      UnixFiles.Decode(n.data).Some? &&
      var u := UnixFiles.Decode(n.data).value;
      && |u.blockSizes| == |n.links| == |cs|
      && (forall i :: 0 <= i < |cs| ==> u.blockSizes[i] == |cs[i]| && n.links[i].hash == Address(sha, Leaf(cs[i])))
      && Total(u.blockSizes) == u.fileSize == |Concat(cs)|
      && u.data == [] && u.dataType == UnixFiles.FILE
  {
    hide UnixFiles.UnixFsBytes, UnixFiles.Decode, Leaf, NodeFile;
    RecordIsValid(cs);
    UnixFiles.RoundTrip(Record(cs));
    TotalOfLengths(cs);
  }

  lemma RecordSnoc(cs: seq<bytes>, chunk: bytes)
    requires Fit(cs + [chunk])
    ensures Fit(cs) && UnixFiles.Valid(Record(cs)) && UnixFiles.Valid(Record(cs + [chunk]))
    ensures Record(cs + [chunk])
            == UnixFiles.AddBlockSize(Record(cs), |chunk|).(fileSize := |Concat(cs)| + |chunk|)
    ensures cs == [] ==> Record(cs) == UnixFiles.EMPTY.(dataType := UnixFiles.FILE)
  {
    assert (cs + [chunk])[..|cs|] == cs;
    RecordIsValid(cs);
    RecordIsValid(cs + [chunk]);
  }

  /** A new node for the chunk, stored: the link to it. */
  method StoreChunk(repo: FsRepo, chunk: bytes) returns (cell: LinkCell)
    requires IsHash(repo.sha) && |chunk| < LIMIT
    modifies repo`files
    ensures fresh(cell) && cell.next == null && cell.link == LinkTo(repo.sha, chunk)
    ensures repo.files == Write(repo.sha, old(repo.files), Leaf(chunk))
    ensures cell.link.hash in repo.files && cell.link.tSize == |repo.files[cell.link.hash]|
  {
    hide UnixFiles.UnixFsBytes, Writable, Storable, NodeFile, Address;
    var unixfs := UnixFiles.UnixFs(UnixFiles.FILE, chunk, |chunk|, []);
    var protobuf := UnixFiles.Serialize(unixfs);
    var node := new HashtableNode();
    node.SetData(protobuf);
    LeafIsWritable(chunk);
    WritableIsStorable(Leaf(chunk));
    assert node.Value() == Leaf(chunk);
    var ok, size := repo.Add(node);
    cell := new LinkCell(NodeLink(node.hash, None, size));
  }

  /** A new node for the chunk, and a link to it at the parent's end. */
  method LinkChunk(parent: HashtableNode, repo: FsRepo, ghost cs: seq<bytes>, chunk: bytes) returns (size: nat)
    requires IsHash(repo.sha) && Fit(cs + [chunk])
    requires parent.Valid() && parent.Value() == Parent(repo.sha, cs)
    modifies parent`data, parent`headLink, parent`cells, parent.cells, repo`files
    ensures parent.Valid() && parent.Value() == Parent(repo.sha, cs + [chunk])
    ensures forall i :: 0 <= i < |parent.cells| ==> parent.cells[i] in old(parent.cells) || fresh(parent.cells[i])
    ensures repo.files == Write(repo.sha, old(repo.files), Leaf(chunk))
    ensures size == LinkTo(repo.sha, chunk).tSize
  {
    hide UnixFiles.UnixFsBytes, Concat, Lengths, Record, IsHash, Write, LinkTo, Leaf, LinksOf, HashtableNode.Valid;
    PieceFits(cs, chunk);
    var cell := StoreChunk(repo, chunk);
    parent.AddLink(cell);
    AddFilesize(parent, cs, chunk, |chunk|);
    assert (cs + [chunk])[..|cs|] == cs;
    size := cell.link.tSize;
  }

  lemma PieceFits(cs: seq<bytes>, chunk: bytes)
    requires Fit(cs + [chunk])
    ensures |chunk| < LIMIT && UnixFiles.Valid(UnixFiles.UnixFs(UnixFiles.FILE, chunk, |chunk|, []))
  {
  }

  /** ipfs_import_chunk. A full chunk is linked; a short one ends the file and is
      linked too, or becomes the parent itself when there are no links yet; then
      the parent is stored. */
  method ImportChunk(file: File, max: nat, parent: HashtableNode, repo: FsRepo, ghost cs: seq<bytes>)
    returns (bytesRead: nat, ghost chunk: bytes)
    requires max > 0 && file.offset <= |file.content| && IsHash(repo.sha) && |cs| < LIMIT - 1
    requires |Concat(cs)| + |file.content| - file.offset < LIMIT
    requires parent.Valid() && parent.hash == [] && parent.Value() == Parent(repo.sha, cs)
    modifies file, parent, parent.cells, repo`files
    ensures parent.Valid()
    ensures forall i :: 0 <= i < |parent.cells| ==> parent.cells[i] in old(parent.cells) || fresh(parent.cells[i])
    ensures old(file.offset) <= file.offset <= |file.content|
    ensures chunk == file.content[old(file.offset)..file.offset] && bytesRead == |chunk| <= max
    ensures bytesRead == max ==>
              && parent.hash == [] && parent.Value() == Parent(repo.sha, cs + [chunk])
              && repo.files == Write(repo.sha, old(repo.files), Leaf(chunk))
    ensures bytesRead < max ==>
              && file.offset == |file.content|
              && parent.Value() == Root(repo.sha, cs + [chunk])
              && parent.hash == Address(repo.sha, parent.Value())
              && repo.files == Write(repo.sha, if cs == [] then old(repo.files) else Write(repo.sha, old(repo.files), Leaf(chunk)),
                                     Root(repo.sha, cs + [chunk]))
  {
    hide UnixFiles.UnixFsBytes, Record, Writable, Storable, NoneEmpty, IsHash, NodeFile, Address, Leaf, Concat, LinksOf,
      HashtableNode.Valid;
    parent.NoLinks();
    var buffer := file.Read(max);
    chunk := buffer;
    bytesRead := |buffer|;
    ConcatSnoc(cs, chunk);
    if bytesRead == max {
      var size := LinkChunk(parent, repo, cs, buffer);
    } else {
      if parent.headLink == null {
        SetLeaf(parent, buffer);
        LeafIsWritable(chunk);
      } else {
        var size := LinkChunk(parent, repo, cs, buffer);
        ParentIsWritable(repo.sha, cs + [chunk]);
      }
      WritableIsStorable(parent.Value());
      var ok, written := repo.Add(parent);
    }
  }

  method SetLeaf(parent: HashtableNode, buffer: bytes)
    requires parent.Value().links == [] && |buffer| < LIMIT
    modifies parent`data
    ensures parent.Value() == Leaf(buffer)
  {
    hide UnixFiles.UnixFsBytes;
    var protobuf := UnixFiles.Serialize(UnixFiles.UnixFs(UnixFiles.FILE, buffer, |buffer|, []));
    parent.SetData(protobuf);
  }

  lemma ConcatSnoc(cs: seq<bytes>, chunk: bytes)
    ensures Concat(cs + [chunk]) == Concat(cs) + chunk
  {
    assert (cs + [chunk])[..|cs|] == cs;
  }

  ghost predicate AllOfSize(cs: seq<bytes>, size: nat) {
    forall c <- cs :: |c| == size
  }

  /** Full chunks followed by the chunks of what is left are the chunks of the whole. */
  lemma {:induction false} ChunksOfConcat(cs: seq<bytes>, rest: bytes, size: nat)
    requires size > 0 && AllOfSize(cs, size)
    ensures Chunks(Concat(cs) + rest, size) == cs + Chunks(rest, size)
  {
    if cs == [] {
      assert Concat(cs) + rest == rest;
    } else {
      var init, last := cs[..|cs| - 1], cs[|cs| - 1];
      assert last in cs && forall c <- init :: c in cs;
      hide Chunks, AllOfSize;
      ChunksOfConcat(init, last + rest, size);
      assert Concat(cs) == Concat(init) + last;
      hide Concat;
      AppendAll(Concat(init), last, rest);
      ChunkFirst(last, rest, size);
      AppendStep(init, last, Chunks(rest, size));
      assert init + [last] == cs;
    }
  }

  lemma AppendAll(a: bytes, b: bytes, c: bytes)
    ensures (a + b) + c == a + (b + c)
  {
  }

  lemma ChunkFirst(first: bytes, rest: bytes, size: nat)
    requires |first| == size > 0
    ensures Chunks(first + rest, size) == [first] + Chunks(rest, size)
  {
    assert (first + rest)[..size] == first && (first + rest)[size..] == rest;
  }

  lemma {:induction false} ConcatOfChunks(content: bytes, size: nat)
    requires size > 0
    ensures Concat(Chunks(content, size)) == content
    decreases |content|
  {
    if |content| < size {
      assert Concat([content]) == Concat([]) + content;
    } else {
      ConcatOfChunks(content[size..], size);
      ConcatCons(content[..size], Chunks(content[size..], size));
      assert content[..size] + content[size..] == content;
    }
  }

  lemma {:induction false} ConcatCons(c: bytes, cs: seq<bytes>)
    ensures Concat([c] + cs) == c + Concat(cs)
  {
    if cs == [] {
      assert [c] + cs == [c];
      assert Concat([c]) == Concat([]) + c;
    } else {
      var init := cs[..|cs| - 1];
      ConcatCons(c, init);
      assert ([c] + cs)[..|[c] + cs| - 1] == [c] + init;
    }
  }

  lemma {:induction false} FullChunks(cs: seq<bytes>, size: nat)
    requires size > 0 && AllOfSize(cs, size)
    ensures |cs| <= |Concat(cs)|
  {
    if cs != [] {
      assert cs[|cs| - 1] in cs && forall c <- cs[..|cs| - 1] :: c in cs;
      FullChunks(cs[..|cs| - 1], size);
    }
  }

  /** The pieces: all full but the last, which is shorter and may be empty. */
  lemma {:induction false} ChunksAre(content: bytes, size: nat)
    requires size > 0
    ensures var cs := Chunks(content, size);
      && (forall i :: 0 <= i < |cs| - 1 ==> |cs[i]| == size) && |cs[|cs| - 1]| < size
      && |content| == (|cs| - 1) * size + |cs[|cs| - 1]| && (|cs| == 1 <==> |content| < size)
    decreases |content|
  {
    if |content| >= size {
      ChunksAre(content[size..], size);
      OneMore(|Chunks(content[size..], size)|, size);
    }
  }

  /** With the source's chunk size: one piece for every 2^18 bytes, and one more that
      holds the rest, if any. */
  lemma PiecesOfFile(content: bytes)
    ensures var cs := Chunks(content, MAX_DATA_SIZE);
      && |cs| == |content| / 0x4_0000 + 1 && |cs[|cs| - 1]| == |content| % 0x4_0000
      && forall i :: 0 <= i < |cs| - 1 ==> |cs[i]| == 0x4_0000
  {
    hide Chunks;
    ChunksAre(content, MAX_DATA_SIZE);
  }

  lemma OneMore(k: nat, size: nat)
    ensures k * size == (k - 1) * size + size
  {
  }

  /** What a piece's node says: a file (type 2) with these bytes and this size, no
      block sizes and no links. */
  lemma LeafRecord(chunk: bytes)
    requires |chunk| < LIMIT
    ensures Leaf(chunk).links == []
    ensures UnixFiles.Decode(Leaf(chunk).data) == Some(UnixFiles.UnixFs(2, chunk, |chunk|, []))
  {
    hide UnixFiles.UnixFsBytes, UnixFiles.Decode;
    UnixFiles.RoundTrip(UnixFiles.UnixFs(UnixFiles.FILE, chunk, |chunk|, []));
  }

  lemma ChunksFit(content: bytes, size: nat)
    requires size > 0 && |content| < LIMIT - 1
    ensures Fit(Chunks(content, size))
  {
    ConcatOfChunks(content, size);
    ChunksCount(content, size);
  }

  lemma {:induction false} ChunksCount(content: bytes, size: nat)
    requires size > 0
    ensures |Chunks(content, size)| <= |content| + 1
    decreases |content|
  {
    if |content| >= size { ChunksCount(content[size..], size); }
  }

  /** What the root says: for a file shorter than a chunk all of it; otherwise one link
      and one block size for each piece, the file's size, and no bytes. */
  lemma RootRecord(sha: Hash, content: bytes, size: nat)
    requires size > 0 && |content| < LIMIT - 1
    ensures var n, cs := Root(sha, Chunks(content, size)), Chunks(content, size);
      if |content| < size then
        n.links == [] && UnixFiles.Decode(n.data) == Some(UnixFiles.UnixFs(2, content, |content|, []))
      else
        && |n.links| == |cs|
        && UnixFiles.Decode(n.data) == Some(UnixFiles.UnixFs(2, [], |content|, Lengths(cs)))
        && forall i :: 0 <= i < |cs| ==> n.links[i].name == None && n.links[i].hash == Address(sha, Leaf(cs[i]))
  {
    hide UnixFiles.UnixFsBytes, UnixFiles.Decode, Chunks, Leaf, NodeFile, Address, Concat;
    var cs := Chunks(content, size);
    ChunksAre(content, size);
    ConcatOfChunks(content, size);
    ChunksFit(content, size);
    if |content| < size {
      assert cs == [] + [cs[0]];
      ConcatSnoc([], cs[0]);
      NoPieces(sha);
      assert cs[0] == content;
      LeafRecord(content);
    } else {
      RecordIsValid(cs);
      UnixFiles.RoundTrip(Record(cs));
    }
  }

  lemma WriteLeavesSnoc(sha: Hash, files: Files, cs: seq<bytes>, chunk: bytes)
    ensures WriteLeaves(sha, files, cs + [chunk]) == Write(sha, WriteLeaves(sha, files, cs), Leaf(chunk))
  {
    assert (cs + [chunk])[..|cs|] == cs;
  }

  lemma ImportedSnoc(sha: Hash, files: Files, cs: seq<bytes>, chunk: bytes)
    ensures Imported(sha, files, cs + [chunk]) ==
            Write(sha, if cs == [] then files else Write(sha, WriteLeaves(sha, files, cs), Leaf(chunk)), Root(sha, cs + [chunk]))
  {
    hide Write, Leaf, Root;
    WriteLeavesSnoc(sha, files, cs, chunk);
  }

  lemma ShortChunk(content: bytes, size: nat)
    requires |content| < size
    ensures Chunks(content, size) == [content]
  {
  }

  lemma NoPieces(sha: Hash)
    ensures Concat([]) == [] && Parent(sha, []) == Node([], [])
  {
  }

  lemma NothingWritten(sha: Hash, files: Files)
    ensures WriteLeaves(sha, files, []) == files
  {
  }

  /** The file part of ipfs_import_file, for any size of chunk. */
  method ImportFile(content: bytes, max: nat, repo: FsRepo) returns (parent: HashtableNode)
    requires max > 0 && |content| < LIMIT - 1 && IsHash(repo.sha)
    modifies repo`files
    ensures fresh(parent)
    ensures var cs := Chunks(content, max);
      && parent.Value() == Root(repo.sha, cs)
      && parent.hash == Address(repo.sha, Root(repo.sha, cs))
      && repo.files == Imported(repo.sha, old(repo.files), cs)
  {
    hide UnixFiles.UnixFsBytes, Record, Writable, IsHash, Write, NodeFile, Address, Leaf, Root, Parent, Concat, Chunks;
    hide HashtableNode.Valid, LinksOf, Imported, WriteLeaves;
    NoPieces(repo.sha);
    NothingWritten(repo.sha, repo.files);
    var file := new File(content);
    parent := new HashtableNode();
    var bytesRead := max;
    ghost var cs: seq<bytes> := [];
    while bytesRead == max
      invariant file.offset <= |content| && file.content == content && bytesRead <= max
      invariant parent.Valid() && fresh(parent) && fresh(file) && forall i :: 0 <= i < |parent.cells| ==> fresh(parent.cells[i])
      invariant Concat(cs) == content[..file.offset]
      invariant bytesRead == max ==>
                  && AllOfSize(cs, max) && parent.hash == [] && parent.Value() == Parent(repo.sha, cs)
                  && repo.files == WriteLeaves(repo.sha, old(repo.files), cs)
      invariant bytesRead < max ==>
                  && file.offset == |content| && cs != [] && |cs[|cs| - 1]| < max && AllOfSize(cs[..|cs| - 1], max)
                  && parent.Value() == Root(repo.sha, cs) && parent.hash == Address(repo.sha, Root(repo.sha, cs))
                  && repo.files == Imported(repo.sha, old(repo.files), cs)
      decreases |content| - file.offset, bytesRead
    {
      FullChunks(cs, max);
      ghost var chunk;
      bytesRead, chunk := ImportChunk(file, max, parent, repo, cs);
      ghost var prior := cs;
      ConcatSnoc(prior, chunk);
      WriteLeavesSnoc(repo.sha, old(repo.files), prior, chunk);
      ImportedSnoc(repo.sha, old(repo.files), prior, chunk);
      cs := prior + [chunk];
      assert cs[..|cs| - 1] == prior;
    }
    ghost var last := cs[|cs| - 1];
    ConcatSnoc(cs[..|cs| - 1], last);
    ChunksOfConcat(cs[..|cs| - 1], last, max);
    ShortChunk(last, max);
    assert content == Concat(cs);
    assert cs == cs[..|cs| - 1] + [last];
  }
}
