/** The Merkle DAG kept in a repository: merkledag/merkledag.c over the block files
    of blocks/blockstore.c. */
module MerkleDag {
  import opened Basics
  import opened Nodes
  import opened Wire
  import Cids
  import UnixFiles
  import Blocks

  /** The hash function is a parameter; all that is used of it is that its digests
      have 32 bytes. */
  type Hash = bytes -> bytes

  ghost predicate IsHash(sha: Hash) {
    forall b: bytes :: |sha(b)| == 32
  }

  /** Block files by hash: the blockstore together with the datastore. */
  type Files = map<bytes, bytes>

  /** A node that merkledag_add can write. */
  ghost predicate Writable(n: Node) {
    && Nodes.Valid(n) && NoneEmpty(n.links) && n != Node([], [])
    && UnixFiles.IsSize(|NodeBytes(n)|)
  }

  function Address(sha: Hash, n: Node): (r: bytes) {
    sha(NodeBytes(n))
  }

  /** ipfs_merkledag_convert_node_to_block. */
  function NodeBlock(n: Node, hash: bytes): (r: Blocks.Block) {
    Blocks.Block(Some(Cids.Cid(1, Cids.DAG_PROTOBUF, hash)), NodeBytes(n))
  }

  function NodeFile(n: Node, hash: bytes): (r: bytes) {
    Blocks.BlockBytes(NodeBlock(n, hash))
  }

  function Write(sha: Hash, files: Files, n: Node): (r: Files) {
    files[Address(sha, n) := NodeFile(n, Address(sha, n))]
  }

  /** ipfs_merkledag_get: the block file, then the node in its data. */
  function Get(files: Files, hash: bytes): (r: Option<Node>) {
    if hash !in files then None else
    match Blocks.Decode(files[hash])
    case None => None
    case Some(block) => DecodeNode(block.data)
  }

  /** The router's GetValue encodes again the node that it got. */
  function GetValue(files: Files, hash: bytes): (r: Option<bytes>) {
    match Get(files, hash)
    case None => None
    case Some(n) => if exists l <- n.links :: EmptyLink(l) then None else Some(NodeBytes(n))
  }

  /** ipfs_exporter_get_node. */
  function Fetch(files: Files, hash: bytes): (r: Option<Node>) {
    match GetValue(files, hash)
    case None => None
    case Some(value) => DecodeNode(value)
  }

  lemma GetWritten(files: Files, n: Node, hash: bytes)
    requires Writable(n) && |hash| == 32 && hash in files && files[hash] == NodeFile(n, hash)
    ensures Get(files, hash) == Some(Normal(n))
  {
    hide NodeBytes, DecodeNode, Normal, Blocks.Decode, Blocks.BlockBytes, Nodes.Valid;
    Blocks.RoundTrip(NodeBlock(n, hash));
    NodeRoundTrip(n);
  }

  lemma NormalIsWritable(n: Node)
    requires Writable(n)
    ensures Writable(Normal(n)) && NodeBytes(Normal(n)) == NodeBytes(n) && Normal(Normal(n)) == Normal(n)
  {
    hide NodeBytes, LinkBytes;
    ReencodeDecoded(n);
    assert NormalLinks(NormalLinks(n.links)) == NormalLinks(n.links);
    forall l <- Normal(n).links ensures !EmptyLink(l) {
      var i :| 0 <= i < |n.links| && l == NormalLink(n.links[i]);
      assert !EmptyLink(n.links[i]);
    }
  }

  /** Content addresses are stable: what is fetched for a written node is that
      node, and it hashes to the key it was fetched by. */
  lemma FetchWritten(sha: Hash, files: Files, n: Node)
    requires Writable(n) && IsHash(sha)
    requires Address(sha, n) in files && files[Address(sha, n)] == NodeFile(n, Address(sha, n))
    ensures Get(files, Address(sha, n)) == Fetch(files, Address(sha, n)) == Some(Normal(n))
    ensures GetValue(files, Address(sha, n)) == Some(NodeBytes(n))
    ensures Address(sha, Normal(n)) == Address(sha, n)
    ensures Address(sha, n) == sha(GetValue(files, Address(sha, n)).value)
  {
    hide NodeBytes, DecodeNode, Normal;
    GetWritten(files, n, Address(sha, n));
    NormalIsWritable(n);
    NodeRoundTrip(n);
    assert NoneEmpty(Normal(n).links);
  }

  /** A stored node can be got and not be fetched: the router encodes it again, which a
      link without hash, name and size does not survive; nor does a node of nothing. */
  lemma FetchesExactly(files: Files, hash: bytes)
    requires Get(files, hash).Some? ==> Nodes.Valid(Get(files, hash).value)
    ensures Fetch(files, hash) ==
            match Get(files, hash)
            case None => None
            case Some(n) =>
              if n == Node([], []) || exists l <- n.links :: l.hash == [] && NameOf(l) == [] && l.tSize == 0 then None
              else Some(Normal(n))
  {
    hide Get, NodeBytes, DecodeNode, Nodes.Valid, Normal;
    if Get(files, hash).Some? { NodeRoundTrip(Get(files, hash).value); }
  }

  /** What a block file holds: the node's bytes under a cid of version 1, with the
      codec of a protobuf node, and the hash. */
  lemma FileIsBlock(n: Node, hash: bytes)
    ensures Blocks.Decode(NodeFile(n, hash)) == Some(Blocks.Block(Some(Cids.Cid(1, 0x70, hash)), NodeBytes(n)))
  {
    hide NodeBytes, Blocks.BlockBytes, Blocks.Decode;
    Blocks.RoundTrip(NodeBlock(n, hash));
  }

  // ------------------------------------------------------------ whole stores

  /** Every file holds a node, one that can be written, and the node hashes to the
      file's key. */
  ghost predicate Addressed(sha: Hash, files: Files) {
    forall h <- files :: Get(files, h).Some? && Writable(Get(files, h).value) && Address(sha, Get(files, h).value) == h
  }

  /** In such a store the value got under a key hashes to the key. */
  lemma AddressedMeans(sha: Hash, files: Files, h: bytes)
    requires Addressed(sha, files) && h in files
    ensures GetValue(files, h).Some? && sha(GetValue(files, h).value) == h
  {
    hide Get, NodeBytes;
  }

  lemma GetOther(files: Files, h: bytes, x: bytes, file: bytes)
    requires x != h
    ensures Get(files[h := file], x) == Get(files, x)
  {
  }

  lemma WriteKeepsAddressed(sha: Hash, files: Files, n: Node)
    requires IsHash(sha) && Addressed(sha, files) && Writable(n)
    ensures Addressed(sha, Write(sha, files, n))
  {
    hide Get, Address, NodeFile, Writable, Normal;
    var h, files' := Address(sha, n), Write(sha, files, n);
    FetchWritten(sha, files', n);
    NormalIsWritable(n);
    forall x <- files'
      ensures Get(files', x).Some? && Writable(Get(files', x).value) && Address(sha, Get(files', x).value) == x
    {
      if x != h { GetOther(files, h, x, NodeFile(n, h)); }
    }
  }

  /** No link dangles. */
  ghost predicate Closed(files: Files) {
    forall h <- files :: Get(files, h).Some? ==> forall l <- Get(files, h).value.links :: l.hash in files
  }

  /** `rank` goes down along every link of a stored node. */
  ghost predicate Ranked(files: Files, rank: bytes -> nat) {
    forall h <- files :: Get(files, h).Some? ==> forall l <- Get(files, h).value.links :: rank(l.hash) < rank(h)
  }

  ghost predicate Acyclic(files: Files) {
    exists rank: bytes -> nat :: Ranked(files, rank)
  }

  function Above(rank: bytes -> nat, ls: seq<NodeLink>): (m: nat)
    ensures forall l <- ls :: rank(l.hash) < m
  {
    if ls == [] then 0
    else var m := Above(rank, ls[1..]); if rank(ls[0].hash) < m then m else rank(ls[0].hash) + 1
  }

  lemma NormalHashes(n: Node, l: NodeLink) returns (k: NodeLink)
    requires l in Normal(n).links
    ensures k in n.links && k.hash == l.hash
  {
    var i :| 0 <= i < |n.links| && l == NormalLink(n.links[i]);
    k := n.links[i];
  }

  lemma WriteKeepsClosed(sha: Hash, files: Files, n: Node)
    requires IsHash(sha) && Closed(files) && Writable(n) && forall l <- n.links :: l.hash in files
    ensures Closed(Write(sha, files, n))
  {
    hide Get, Address, NodeFile, Writable, Normal, IsHash;
    var h, files' := Address(sha, n), Write(sha, files, n);
    FetchWritten(sha, files', n);
    forall x, l | x in files' && Get(files', x).Some? && l in Get(files', x).value.links ensures l.hash in files' {
      if x == h {
        var k := NormalHashes(n, l);
      } else {
        GetOther(files, h, x, NodeFile(n, h));
      }
    }
  }

  function Raised(rank: bytes -> nat, h: bytes, top: nat): (r: bytes -> nat) {
    x => if x == h then top else rank(x)
  }

  lemma WriteNewRanked(sha: Hash, files: Files, n: Node, rank: bytes -> nat)
    requires IsHash(sha) && Closed(files) && Ranked(files, rank) && Writable(n) && Address(sha, n) !in files
    requires forall l <- n.links :: l.hash in files
    ensures Ranked(Write(sha, files, n), Raised(rank, Address(sha, n), Above(rank, n.links)))
  {
    hide Get, Address, NodeFile, Writable, Normal, IsHash, Above;
    var h, files' := Address(sha, n), Write(sha, files, n);
    var rank' := Raised(rank, h, Above(rank, n.links));
    FetchWritten(sha, files', n);
    forall x, l | x in files' && Get(files', x).Some? && l in Get(files', x).value.links ensures rank'(l.hash) < rank'(x) {
      if x == h {
        var k := NormalHashes(n, l);
        assert k.hash in files && rank(k.hash) < Above(rank, n.links);
      } else {
        GetOther(files, h, x, NodeFile(n, h));
        assert l.hash in files && rank(l.hash) < rank(x);
      }
    }
  }

  /** A node whose links are stored already can be added: no cycle and no dangling
      link arises, provided the hash does not already name another node. */
  lemma WriteKeepsAcyclic(sha: Hash, files: Files, n: Node)
    requires IsHash(sha) && Closed(files) && Acyclic(files) && Writable(n)
    requires forall l <- n.links :: l.hash in files
    requires Address(sha, n) in files ==> files[Address(sha, n)] == NodeFile(n, Address(sha, n))
    ensures Closed(Write(sha, files, n)) && Acyclic(Write(sha, files, n))
  {
    hide Ranked, Closed, Address, NodeFile, Writable, IsHash;
    WriteKeepsClosed(sha, files, n);
    if Address(sha, n) in files {
      assert Write(sha, files, n) == files;
    } else {
      var rank :| Ranked(files, rank);
      WriteNewRanked(sha, files, n, rank);
    }
  }

  // ---------------------------------------------------------------- the code

  /** struct NodeLink: a link and the one behind it. */
  class LinkCell {
    const link: NodeLink
    var next: LinkCell?

    constructor (link: NodeLink)
      ensures this.link == link && next == null
    {
      this.link := link;
      next := null;
    }
  }

  /** struct HashtableNode; an empty `hash` or `data` stands for NULL. */
  class HashtableNode {
    var data: bytes
    var headLink: LinkCell?
    var hash: bytes
    ghost var cells: seq<LinkCell>

    ghost predicate Valid()
      reads this`headLink, this`cells, cells
    {
      && (if cells == [] then headLink == null else headLink == cells[0] && cells[|cells| - 1].next == null)
      && (forall i :: 0 <= i < |cells| - 1 ==> cells[i].next == cells[i + 1])
    }

    constructor ()
      ensures Valid() && Value() == Node([], []) && hash == [] && cells == []
    {
      data, headLink, hash := [], null, [];
      cells := [];
    }

    ghost function Value(): (n: Node)
      reads this`data, this`cells
    {
      Node(data, LinksOf(cells))
    }

    /** ipfs_hashtable_node_set_data. */
    method SetData(d: bytes)
      modifies this`data
      ensures data == d
    {
      data := d;
    }

    lemma NoLinks()
      requires Valid()
      ensures headLink == null <==> Value().links == []
    {
    }

    lemma LinkBehind(i: nat)
      requires Valid() && i < |cells|
      ensures if i == |cells| - 1 then cells[i].next == null else cells[i].next == cells[i + 1] && cells[i].next != null
    {
    }

    /** ipfs_hashtable_node_add_link: along `next` to the last link, and behind it. */
    method AddLink(cell: LinkCell)
      requires Valid() && cell.next == null && cell !in cells
      modifies this`headLink, this`cells, cells
      ensures Valid() && cells == old(cells) + [cell]
      ensures Value() == old(Value()).(links := old(Value()).links + [cell.link])
    {
      if headLink != null {
        var end := headLink;
        ghost var i := 0;
        while end.next != null
          invariant i < |cells| && end == cells[i]
          decreases |cells| - i
        {
          end := end.next;
          i := i + 1;
        }
        LinkBehind(i);
        forall j | 0 <= j < |cells| - 1 ensures cells[j] != end { LinkBehind(j); }
        end.next := cell;
      } else {
        headLink := cell;
      }
      cells := cells + [cell];
    }

    /** The walk over the links that the encoder and its size estimate make. */
    method Read() returns (n: Node)
      requires Valid()
      ensures n == Value()
    {
      var links: seq<NodeLink> := [];
      var current := headLink;
      ghost var i := 0;
      while current != null
        invariant i <= |cells| && current == (if i < |cells| then cells[i] else null)
        invariant links == LinksOf(cells[..i])
        decreases |cells| - i
      {
        links := links + [current.link];
        current := current.next;
        i := i + 1;
      }
      assert cells[..|cells|] == cells;
      n := Node(data, links);
    }
  }

  ghost function LinksOf(cells: seq<LinkCell>): (ls: seq<NodeLink>)
    ensures |ls| == |cells|
    ensures forall i :: 0 <= i < |cells| ==> ls[i] == cells[i].link
  {
    seq(|cells|, i requires 0 <= i < |cells| => cells[i].link)
  }

  /** A node whose encoding can be counted in a size_t. */
  ghost predicate Storable(n: Node) {
    Nodes.Valid(n) && (NoneEmpty(n.links) ==> UnixFiles.IsSize(|NodeBytes(n)|))
  }

  lemma WritableIsStorable(n: Node)
    requires Writable(n)
    ensures Storable(n) && NoneEmpty(n.links)
  {
  }

  /** A node in a buffer of the estimated size: what has been written of it. */
  method EncodeToSize(n: Node) returns (ok: bool, s: bytes)
    requires Storable(n)
    ensures ok <==> NoneEmpty(n.links)
    ensures ok ==> s == NodeBytes(n)
  {
    hide NodeBytes, Nodes.Valid, NoneEmpty;
    var out := new OutBuffer(NodeEncodeSize(n));
    if NoneEmpty(n.links) { NodeSizeBounds(n); }
    ok := EncodeNode(n, out);
    s := out.Result();
  }

  class FsRepo {
    const sha: Hash
    var files: Files

    constructor (sha: Hash)
      ensures this.sha == sha && files == map[]
    {
      this.sha := sha;
      files := map[];
    }

    /** ipfs_merkledag_add: fails exactly when some link is empty. */
    method Add(node: HashtableNode) returns (ok: bool, bytesWritten: nat)
      requires node.Valid() && IsHash(sha) && Storable(node.Value()) && |node.hash| < 0x8000_0000
      modifies this`files, node`hash
      ensures node.Valid() && node.Value() == old(node.Value())
      ensures ok <==> NoneEmpty(node.Value().links)
      ensures ok ==> node.hash == if old(node.hash) != [] then old(node.hash) else Address(sha, node.Value())
      ensures files == if ok then old(files)[node.hash := NodeFile(node.Value(), node.hash)] else old(files)
      ensures ok ==> bytesWritten == |NodeFile(node.Value(), node.hash)|
    {
      hide NodeBytes, Nodes.Valid, NoneEmpty, Blocks.BlockBytes, HashtableNode.Valid;
      var n := node.Read();
      if node.hash == [] {
        var unchecked, protobuf := EncodeToSize(n);
        node.hash := sha(protobuf);
      }
      var data;
      ok, data := EncodeToSize(n);
      bytesWritten := 0;
      if !ok { return; }
      var block := Blocks.Block(Some(Cids.Cid(1, Cids.DAG_PROTOBUF, node.hash)), data);
      var file := Blocks.Serialize(block);
      files := files[node.hash := file];
      bytesWritten := |file|;
    }
  }
}
