/** Writing a file back out: importer/exporter.c. */
module Exporter {
  import opened Basics
  import opened Nodes
  import opened MerkleDag
  import opened Importer
  import UnixFiles

  /** The bytes that a node's own UnixFS record holds. */
  function OwnBytes(n: Node): (r: Option<bytes>) {
    match UnixFiles.Decode(n.data)
    case None => None
    case Some(u) => Some(u.data)
  }

  function LinkedBytes(files: Files, ls: seq<NodeLink>): (r: Option<bytes>) {
    if ls == [] then Some([]) else
    match Fetch(files, ls[0].hash)
    case None => None
    case Some(n) =>
      match (OwnBytes(n), LinkedBytes(files, ls[1..]))
      case (Some(b), Some(rest)) => Some(b + rest)
      case _ => None
  }

  /** ipfs_exporter_to_filestream: the node's bytes, or those one link down. */
  function ToStream(files: Files, hash: bytes): (r: Option<bytes>) {
    match Fetch(files, hash)
    case None => None
    case Some(n) => if n.links == [] then OwnBytes(n) else LinkedBytes(files, n.links)
  }

  method ToFilestream(repo: FsRepo, hash: bytes) returns (ok: bool, out: bytes)
    ensures ToStream(repo.files, hash) == if ok then Some(out) else None
  {
    hide Fetch, OwnBytes;
    out := [];
    var n := Fetch(repo.files, hash);
    if n.None? { return false, out; }
    if n.value.links == [] {
      var own := OwnBytes(n.value);
      if own.None? { return false, out; }
      return true, own.value;
    }
    var links := n.value.links;
    ghost var whole := LinkedBytes(repo.files, links);
    assert links[0..] == links && (whole.Some? ==> [] + whole.value == whole.value);
    for i := 0 to |links|
      invariant LinkedBytes(repo.files, links) ==
                match LinkedBytes(repo.files, links[i..]) case None => None case Some(rest) => Some(out + rest)
    {
      assert links[i..][1..] == links[i + 1..];
      var child := Fetch(repo.files, links[i].hash);
      if child.None? { return false, out; }
      var own := OwnBytes(child.value);
      if own.None? { return false, out; }
      AppendAssoc(out, own.value, LinkedBytes(repo.files, links[i + 1..]));
      out := out + own.value;
    }
    assert links[|links|..] == [];
    assert out + [] == out;
    return true, out;
  }

  lemma AppendAssoc(a: bytes, b: bytes, c: Option<bytes>)
    ensures c.Some? ==> (a + b) + c.value == a + (b + c.value)
  {
  }

  // ------------------------------------------------------------------ cat

  /** `bound` is above the rank of every link. */
  ghost predicate Below(rank: bytes -> nat, ls: seq<NodeLink>, bound: nat) {
    ls == [] || (rank(ls[0].hash) < bound && Below(rank, ls[1..], bound))
  }

  lemma {:induction false} AllBelow(rank: bytes -> nat, ls: seq<NodeLink>, bound: nat)
    requires forall l <- ls :: rank(l.hash) < bound
    ensures Below(rank, ls, bound)
  {
    if ls != [] { AllBelow(rank, ls[1..], bound); }
  }

  /** ipfs_exporter_cat_node: the node's bytes, then those of every link in turn;
      what a child returns is not looked at, so only a missing child of the node
      itself makes it fail. */
  function Cat(files: Files, rank: bytes -> nat, n: Node, bound: nat): (r: (bool, bytes))
    requires FetchRanked(files, rank) && Below(rank, n.links, bound)
    decreases bound, |n.links| + 1
  {
    match OwnBytes(n)
    case None => (false, [])
    case Some(b) =>
      var (ok, rest) := CatLinks(files, rank, n.links, bound);
      (ok, b + rest)
  }

  function CatLinks(files: Files, rank: bytes -> nat, ls: seq<NodeLink>, bound: nat): (r: (bool, bytes))
    requires FetchRanked(files, rank) && Below(rank, ls, bound)
    decreases bound, |ls|
  {
    if ls == [] then (true, []) else
    match Fetch(files, ls[0].hash)
    case None => (false, [])
    case Some(child) =>
      var b := Cat(files, rank, child, rank(ls[0].hash)).1;
      var (ok, rest) := CatLinks(files, rank, ls[1..], bound);
      (ok, b + rest)
  }

  /** Links of fetched nodes go down in rank. */
  ghost predicate FetchRanked(files: Files, rank: bytes -> nat) {
    forall h :: Fetch(files, h).Some? ==> Below(rank, Fetch(files, h).value.links, rank(h))
  }

  method CatNode(repo: FsRepo, ghost rank: bytes -> nat, n: Node, ghost bound: nat) returns (ok: bool, out: bytes)
    requires FetchRanked(repo.files, rank) && Below(rank, n.links, bound)
    ensures (ok, out) == Cat(repo.files, rank, n, bound)
    decreases bound
  {
    hide Fetch, OwnBytes;
    var own := OwnBytes(n);
    if own.None? { return false, []; }
    out := own.value;
    ghost var all := CatLinks(repo.files, rank, n.links, bound);
    assert n.links[0..] == n.links;
    for i := 0 to |n.links|
      invariant Below(rank, n.links[i..], bound)
      invariant var rest := CatLinks(repo.files, rank, n.links[i..], bound);
        all.0 == rest.0 && own.value + all.1 == out + rest.1
    {
      assert n.links[i..][1..] == n.links[i + 1..];
      var child := Fetch(repo.files, n.links[i].hash);
      if child.None? {
        assert out + [] == out;
        return false, out;
      }
      var ignored, b := CatNode(repo, rank, child.value, rank(n.links[i].hash));
      out := out + b;
    }
    assert n.links[|n.links|..] == [] && out + [] == out;
    return true, out;
  }

  // ------------------------------------------------------ failure

  lemma {:induction false} CatLinksFailExactly(files: Files, rank: bytes -> nat, ls: seq<NodeLink>, bound: nat)
    requires FetchRanked(files, rank) && Below(rank, ls, bound)
    ensures !CatLinks(files, rank, ls, bound).0 <==> exists l <- ls :: Fetch(files, l.hash).None?
  {
    hide Fetch, FetchRanked, Cat;
    if ls != [] {
      CatLinksFailExactly(files, rank, ls[1..], bound);
      assert ls[0] in ls && (forall l <- ls[1..] :: l in ls) && forall l <- ls :: l == ls[0] || l in ls[1..];
    }
  }

  /** Cat fails exactly if the node's own record does not decode or one of its own
      children is missing; what happens further down does not matter to it. */
  lemma CatFailsExactly(files: Files, rank: bytes -> nat, n: Node, bound: nat)
    requires FetchRanked(files, rank) && Below(rank, n.links, bound)
    ensures !Cat(files, rank, n, bound).0 <==> OwnBytes(n).None? || exists l <- n.links :: Fetch(files, l.hash).None?
  {
    hide Fetch, OwnBytes, FetchRanked, CatLinks;
    CatLinksFailExactly(files, rank, n.links, bound);
  }

  lemma {:induction false} LinkedFailsExactly(files: Files, ls: seq<NodeLink>)
    ensures LinkedBytes(files, ls).None? <==>
      exists l <- ls :: Fetch(files, l.hash).None? || OwnBytes(Fetch(files, l.hash).value).None?
  {
    hide Fetch, OwnBytes;
    if ls != [] {
      LinkedFailsExactly(files, ls[1..]);
      assert ls[0] in ls && (forall l <- ls[1..] :: l in ls) && forall l <- ls :: l == ls[0] || l in ls[1..];
    }
  }

  /** The stream fails exactly if the node is missing, or it has no links and does not
      decode, or a child is missing or does not decode. */
  lemma StreamFailsExactly(files: Files, h: bytes)
    ensures ToStream(files, h).None? <==>
      Fetch(files, h).None? ||
      var n := Fetch(files, h).value;
      if n.links == [] then OwnBytes(n).None?
      else exists l <- n.links :: Fetch(files, l.hash).None? || OwnBytes(Fetch(files, l.hash).value).None?
  {
    hide Fetch, OwnBytes, LinkedBytes;
    if Fetch(files, h).Some? { LinkedFailsExactly(files, Fetch(files, h).value.links); }
  }

  // ------------------------------------------------------ the two compared

  /** What cat writes for a child behind the child's own bytes: all that lies more
      than one link deep. */
  function Deeper(files: Files, rank: bytes -> nat, l: NodeLink): (b: bytes)
    requires FetchRanked(files, rank) && Fetch(files, l.hash).Some?
  {
    CatLinks(files, rank, Fetch(files, l.hash).value.links, rank(l.hash)).1
  }

  ghost predicate NothingDeeper(files: Files, rank: bytes -> nat, ls: seq<NodeLink>)
    requires FetchRanked(files, rank)
  {
    forall l <- ls :: Fetch(files, l.hash).Some? && Deeper(files, rank, l) == []
  }

  /** Link by link, cat writes what the stream gets and what lies deeper. */
  lemma {:induction false} LinksAgree(files: Files, rank: bytes -> nat, ls: seq<NodeLink>, bound: nat)
    requires FetchRanked(files, rank) && Below(rank, ls, bound) && LinkedBytes(files, ls).Some?
    ensures var (ok, out) := CatLinks(files, rank, ls, bound);
      && ok && |out| >= |LinkedBytes(files, ls).value|
      && (out == LinkedBytes(files, ls).value <==> NothingDeeper(files, rank, ls))
      && (|out| == |LinkedBytes(files, ls).value| ==> out == LinkedBytes(files, ls).value)
  {
    hide Fetch, OwnBytes, FetchRanked;
    if ls != [] {
      LinksAgree(files, rank, ls[1..], bound);
      var child := Fetch(files, ls[0].hash).value;
      var own, deeper := OwnBytes(child).value, Deeper(files, rank, ls[0]);
      ChildIs(files, rank, ls[0]);
      var rest, rest' := CatLinks(files, rank, ls[1..], bound).1, LinkedBytes(files, ls[1..]).value;
      assert CatLinks(files, rank, ls, bound).1 == (own + deeper) + rest;
      assert forall l <- ls :: l == ls[0] || l in ls[1..];
      assert ls[0] in ls && forall l <- ls[1..] :: l in ls;
      Compare(own, deeper, rest, rest');
    }
  }

  lemma ChildIs(files: Files, rank: bytes -> nat, l: NodeLink)
    requires FetchRanked(files, rank) && Fetch(files, l.hash).Some? && OwnBytes(Fetch(files, l.hash).value).Some?
    ensures Cat(files, rank, Fetch(files, l.hash).value, rank(l.hash)).1
            == OwnBytes(Fetch(files, l.hash).value).value + Deeper(files, rank, l)
  {
    hide Fetch, OwnBytes, CatLinks;
  }

  lemma Compare(own: bytes, deeper: bytes, rest: bytes, rest': bytes)
    requires |rest| >= |rest'| && (|rest| == |rest'| ==> rest == rest')
    ensures own + deeper + rest == own + rest' <==> deeper == [] && rest == rest'
    ensures |own + deeper + rest| == |own + rest'| ==> deeper == [] && rest == rest'
  {
    if deeper == [] { assert own + deeper == own; }
  }

  /** Both exporters succeed with the same bytes exactly for a node without links
      that decodes, and for one with links whose children decode and nothing of which
      lies elsewhere: neither in the node itself nor more than one link deep. */
  lemma ExportersAgreeExactly(files: Files, rank: bytes -> nat, h: bytes)
    requires FetchRanked(files, rank) && Fetch(files, h).Some?
    ensures var n := Fetch(files, h).value;
      var (ok, out) := Cat(files, rank, n, rank(h));
      ok && ToStream(files, h) == Some(out) <==>
        if n.links == [] then OwnBytes(n).Some?
        else LinkedBytes(files, n.links).Some? && OwnBytes(n) == Some([]) && NothingDeeper(files, rank, n.links)
  {
    hide Fetch, OwnBytes, LinkedBytes, CatLinks, FetchRanked, NothingDeeper;
    var n := Fetch(files, h).value;
    RankedBelow(files, rank, h);
    if n.links == [] {
      NoLinksNoBytes(files, rank, rank(h));
      assert OwnBytes(n).Some? ==> OwnBytes(n).value + [] == OwnBytes(n).value;
    } else if LinkedBytes(files, n.links).Some? && OwnBytes(n).Some? {
      LinksAgree(files, rank, n.links, rank(h));
      Compare([], OwnBytes(n).value, CatLinks(files, rank, n.links, rank(h)).1, LinkedBytes(files, n.links).value);
      assert [] + OwnBytes(n).value == OwnBytes(n).value;
      assert [] + LinkedBytes(files, n.links).value == LinkedBytes(files, n.links).value;
    }
  }

  lemma RankedBelow(files: Files, rank: bytes -> nat, h: bytes)
    requires FetchRanked(files, rank) && Fetch(files, h).Some?
    ensures Below(rank, Fetch(files, h).value.links, rank(h))
  {
    hide Fetch;
  }

  lemma NoLinksNoBytes(files: Files, rank: bytes -> nat, bound: nat)
    requires FetchRanked(files, rank)
    ensures CatLinks(files, rank, [], bound) == (true, [])
  {
    hide FetchRanked;
  }

  /** What the children from ls[0] on write, up to the first that is missing. */
  ghost predicate WritesInOrder(files: Files, rank: bytes -> nat, ls: seq<NodeLink>, parts: seq<bytes>) {
    && FetchRanked(files, rank) && |parts| <= |ls|
    && (forall i :: 0 <= i < |parts| ==>
          Fetch(files, ls[i].hash).Some? && parts[i] == Cat(files, rank, Fetch(files, ls[i].hash).value, rank(ls[i].hash)).1)
    && (|parts| < |ls| ==> Fetch(files, ls[|parts|].hash) == None)
  }

  lemma {:induction false} LinksInOrder(files: Files, rank: bytes -> nat, ls: seq<NodeLink>, bound: nat) returns (parts: seq<bytes>)
    requires FetchRanked(files, rank) && Below(rank, ls, bound)
    ensures WritesInOrder(files, rank, ls, parts)
    ensures CatLinks(files, rank, ls, bound) == (|parts| == |ls|, Joined(parts))
  {
    hide Fetch, FetchRanked, Cat;
    if ls == [] || Fetch(files, ls[0].hash) == None {
      parts := [];
    } else {
      RankedBelow(files, rank, ls[0].hash);
      var more := LinksInOrder(files, rank, ls[1..], bound);
      parts := [Cat(files, rank, Fetch(files, ls[0].hash).value, rank(ls[0].hash)).1] + more;
      assert parts[1..] == more;
    }
  }

  function Joined(parts: seq<bytes>): (s: bytes) {
    if parts == [] then [] else parts[0] + Joined(parts[1..])
  }

  /** Cat writes the node's own bytes first, then what each child writes, in the order
      of the links, up to the first child that is missing. */
  lemma CatInOrder(files: Files, rank: bytes -> nat, n: Node, bound: nat) returns (parts: seq<bytes>)
    requires FetchRanked(files, rank) && Below(rank, n.links, bound)
    ensures WritesInOrder(files, rank, n.links, parts)
    ensures OwnBytes(n).Some? ==> Cat(files, rank, n, bound) == (|parts| == |n.links|, OwnBytes(n).value + Joined(parts))
    ensures OwnBytes(n) == None ==> Cat(files, rank, n, bound) == (false, [])
  {
    hide Fetch, OwnBytes, FetchRanked, CatLinks, WritesInOrder;
    parts := LinksInOrder(files, rank, n.links, bound);
  }

  // ------------------------------------------------------ export after import

  /** No two different nodes of this import have the same hash. */
  ghost predicate CollisionFree(sha: Hash, cs: seq<bytes>) {
    && (forall i, j :: 0 <= i < j < |cs| && Address(sha, Leaf(cs[i])) == Address(sha, Leaf(cs[j])) ==> cs[i] == cs[j])
    && (|cs| > 1 ==> forall i :: 0 <= i < |cs| ==> Address(sha, Leaf(cs[i])) != Address(sha, Parent(sha, cs)))
  }

  ghost predicate Holds(sha: Hash, files: Files, n: Node) {
    Address(sha, n) in files && files[Address(sha, n)] == NodeFile(n, Address(sha, n))
  }

  lemma {:induction false} LeavesStay(sha: Hash, files: Files, cs: seq<bytes>, k: nat, i: nat)
    requires i < k <= |cs|
    requires forall i, j :: 0 <= i < j < |cs| && Address(sha, Leaf(cs[i])) == Address(sha, Leaf(cs[j])) ==> cs[i] == cs[j]
    ensures Holds(sha, WriteLeaves(sha, files, cs[..k]), Leaf(cs[i]))
  {
    hide Address, NodeFile, Leaf;
    assert cs[..k][..k - 1] == cs[..k - 1];
    if i < k - 1 { LeavesStay(sha, files, cs, k - 1, i); }
  }

  lemma RootStays(sha: Hash, files: Files, cs: seq<bytes>)
    requires cs != [] && CollisionFree(sha, cs)
    ensures var files' := Imported(sha, files, cs);
      Holds(sha, files', Root(sha, cs)) && (|cs| > 1 ==> forall i :: 0 <= i < |cs| ==> Holds(sha, files', Leaf(cs[i])))
  {
    hide Address, NodeFile, Leaf;
    if |cs| > 1 {
      forall i | 0 <= i < |cs| ensures Holds(sha, Imported(sha, files, cs), Leaf(cs[i])) {
        LeavesStay(sha, files, cs, |cs|, i);
        assert cs[..|cs|] == cs;
      }
    }
  }

  /** At the end of an import every link of the root names a stored file and has its
      size. */
  lemma RootLinksAreSized(sha: Hash, files: Files, cs: seq<bytes>)
    requires cs != [] && CollisionFree(sha, cs)
    ensures var files' := Imported(sha, files, cs);
      forall l <- Root(sha, cs).links :: l.hash in files' && l.tSize == |files'[l.hash]|
  {
    hide Address, NodeFile, Imported;
    RootStays(sha, files, cs);
    var files' := Imported(sha, files, cs);
    forall l <- Root(sha, cs).links ensures l.hash in files' && l.tSize == |files'[l.hash]| {
      if |cs| > 1 {
        var i :| 0 <= i < |cs| && LinksTo(sha, cs)[i] == l;
        assert Holds(sha, files', Leaf(cs[i]));
      }
    }
  }

  lemma LeafComesBack(sha: Hash, files: Files, chunk: bytes)
    requires IsHash(sha) && |chunk| < LIMIT && Holds(sha, files, Leaf(chunk))
    ensures Fetch(files, Address(sha, Leaf(chunk))) == Some(Leaf(chunk)) && OwnBytes(Leaf(chunk)) == Some(chunk)
  {
    hide UnixFiles.UnixFsBytes, UnixFiles.Decode, Fetch, Get, GetValue;
    LeafIsWritable(chunk);
    FetchWritten(sha, files, Leaf(chunk));
    assert Normal(Leaf(chunk)) == Leaf(chunk);
    UnixFiles.RoundTrip(UnixFiles.UnixFs(UnixFiles.FILE, chunk, |chunk|, []));
  }

  lemma ParentComesBack(sha: Hash, files: Files, cs: seq<bytes>)
    requires IsHash(sha) && Fit(cs) && cs != [] && Holds(sha, files, Parent(sha, cs))
    ensures Fetch(files, Address(sha, Parent(sha, cs))) == Some(Normal(Parent(sha, cs)))
    ensures OwnBytes(Normal(Parent(sha, cs))) == Some([])
  {
    hide UnixFiles.UnixFsBytes, UnixFiles.Decode, Fetch, Get, GetValue;
    ParentIsWritable(sha, cs);
    FetchWritten(sha, files, Parent(sha, cs));
    ParentRecord(sha, cs);
  }

  /** The links of the root, from the k-th on, stand for the pieces from there on. */
  lemma {:induction false} PiecesComeBack(sha: Hash, files: Files, cs: seq<bytes>, k: nat)
    requires IsHash(sha) && k <= |cs| && Fit(cs)
    requires forall i :: 0 <= i < |cs| ==> Holds(sha, files, Leaf(cs[i]))
    ensures LinkedBytes(files, NormalLinks(LinksTo(sha, cs))[k..]) == Some(Concat(cs[k..]))
    decreases |cs| - k
  {
    hide Fetch, OwnBytes, Leaf, Address, IsHash, Holds, LinkTo, LinksTo, NormalLinks, Concat;
    var ls := NormalLinks(LinksTo(sha, cs));
    if k == |cs| {
      assert ls[k..] == [] && cs[k..] == [];
      NoPieces(sha);
    } else {
      PiecesComeBack(sha, files, cs, k + 1);
      assert ls[k..][1..] == ls[k + 1..];
      PieceHash(sha, cs, k);
      ConcatLength(cs, k);
      LeafComesBack(sha, files, cs[k]);
      ConcatCons(cs[k], cs[k + 1..]);
      assert [cs[k]] + cs[k + 1..] == cs[k..];
    }
  }

  lemma PieceHash(sha: Hash, cs: seq<bytes>, k: nat)
    requires k < |cs|
    ensures NormalLinks(LinksTo(sha, cs))[k].hash == Address(sha, Leaf(cs[k]))
  {
  }

  lemma LeafHasNoLinks(chunk: bytes)
    ensures Leaf(chunk).links == []
  {
  }

  lemma OnePiece(cs: seq<bytes>)
    requires |cs| == 1
    ensures Concat(cs) == cs[0]
  {
    assert cs == [] + [cs[0]];
    ConcatSnoc([], cs[0]);
  }

  /** One piece is stored as it is, several under a parent. */
  lemma StreamOfPieces(sha: Hash, files: Files, cs: seq<bytes>)
    requires IsHash(sha) && Fit(cs) && cs != [] && Holds(sha, files, Root(sha, cs))
    requires |cs| > 1 ==> forall i :: 0 <= i < |cs| ==> Holds(sha, files, Leaf(cs[i]))
    ensures ToStream(files, Address(sha, Root(sha, cs))) == Some(Concat(cs))
  {
    hide Fetch, OwnBytes, Leaf, Address, IsHash, Holds, LinkedBytes;
    if |cs| == 1 {
      ConcatLength(cs, 0);
      LeafComesBack(sha, files, cs[0]);
      OnePiece(cs);
      LeafHasNoLinks(cs[0]);
    } else {
      ParentComesBack(sha, files, cs);
      PiecesComeBack(sha, files, cs, 0);
      assert NormalLinks(LinksTo(sha, cs))[0..] == NormalLinks(LinksTo(sha, cs)) && cs[0..] == cs;
    }
  }

  /** Exporting the root of an import writes the original bytes, whatever the file:
      empty, shorter than a chunk, or any number of chunks long. */
  lemma ExportAfterImport(sha: Hash, files: Files, content: bytes, size: nat)
    requires size > 0 && |content| < LIMIT - 1 && IsHash(sha)
    requires CollisionFree(sha, Chunks(content, size))
    ensures var cs := Chunks(content, size);
      ToStream(Imported(sha, files, cs), Address(sha, Root(sha, cs))) == Some(content)
  {
    hide ToStream, Address, IsHash, Holds, Chunks, Imported, CollisionFree, Root, Fit;
    ChunksFit(content, size);
    ConcatOfChunks(content, size);
    RootStays(sha, files, Chunks(content, size));
    StreamOfPieces(sha, Imported(sha, files, Chunks(content, size)), Chunks(content, size));
  }

  lemma {:induction false} CatPieces(sha: Hash, files: Files, rank: bytes -> nat, cs: seq<bytes>, k: nat, bound: nat)
    requires IsHash(sha) && k <= |cs| && Fit(cs) && FetchRanked(files, rank)
    requires forall i :: 0 <= i < |cs| ==> Holds(sha, files, Leaf(cs[i]))
    requires Below(rank, NormalLinks(LinksTo(sha, cs))[k..], bound)
    ensures CatLinks(files, rank, NormalLinks(LinksTo(sha, cs))[k..], bound) == (true, Concat(cs[k..]))
    decreases |cs| - k
  {
    hide Fetch, OwnBytes, Leaf, Address, IsHash, Holds, LinkTo, FetchRanked, LinksTo, NormalLinks, Concat;
    var ls := NormalLinks(LinksTo(sha, cs));
    if k == |cs| {
      assert ls[k..] == [] && cs[k..] == [];
      NoPieces(sha);
    } else {
      assert ls[k..][1..] == ls[k + 1..];
      CatPieces(sha, files, rank, cs, k + 1, bound);
      PieceHash(sha, cs, k);
      ConcatLength(cs, k);
      LeafComesBack(sha, files, cs[k]);
      CatLeaf(files, rank, cs[k], rank(ls[k].hash));
      ConcatCons(cs[k], cs[k + 1..]);
      assert [cs[k]] + cs[k + 1..] == cs[k..];
    }
  }

  lemma CatLeaf(files: Files, rank: bytes -> nat, chunk: bytes, bound: nat)
    requires FetchRanked(files, rank) && OwnBytes(Leaf(chunk)) == Some(chunk)
    ensures Leaf(chunk).links == [] && Cat(files, rank, Leaf(chunk), bound) == (true, chunk)
  {
    hide OwnBytes, FetchRanked;
    LeafHasNoLinks(chunk);
    assert chunk + [] == chunk;
  }

  lemma CatOfPieces(sha: Hash, files: Files, cs: seq<bytes>, rank: bytes -> nat)
    requires IsHash(sha) && Fit(cs) && cs != [] && Holds(sha, files, Root(sha, cs)) && FetchRanked(files, rank)
    requires |cs| > 1 ==> forall i :: 0 <= i < |cs| ==> Holds(sha, files, Leaf(cs[i]))
    ensures var h := Address(sha, Root(sha, cs));
      Fetch(files, h).Some? && Cat(files, rank, Fetch(files, h).value, rank(h)) == (true, Concat(cs))
  {
    hide Fetch, OwnBytes, Leaf, Address, IsHash, Holds, CatLinks, LinksTo, NormalLinks;
    if |cs| == 1 {
      ConcatLength(cs, 0);
      LeafComesBack(sha, files, cs[0]);
      OnePiece(cs);
      CatLeaf(files, rank, cs[0], rank(Address(sha, Root(sha, cs))));
    } else {
      var ls := NormalLinks(LinksTo(sha, cs));
      ParentComesBack(sha, files, cs);
      assert ls[0..] == ls && cs[0..] == cs;
      CatPieces(sha, files, rank, cs, 0, rank(Address(sha, Root(sha, cs))));
      assert [] + Concat(cs) == Concat(cs);
    }
  }

  /** In a well-kept store the links that cat follows are those of the stored nodes. */
  lemma RankedFetch(sha: Hash, files: Files, rank: bytes -> nat)
    requires Addressed(sha, files) && Ranked(files, rank)
    ensures FetchRanked(files, rank)
  {
    hide Get, Normal, Writable, NodeBytes, Address;
    forall h | Fetch(files, h).Some? ensures Below(rank, Fetch(files, h).value.links, rank(h)) {
      GetOnlyStored(files, h);
      var n := Get(files, h).value;
      FetchIsNormal(files, h);
      forall l <- Normal(n).links ensures rank(l.hash) < rank(h) {
        var k := NormalHashes(n, l);
      }
      AllBelow(rank, Normal(n).links, rank(h));
    }
  }

  lemma GetOnlyStored(files: Files, h: bytes)
    requires Get(files, h).Some?
    ensures h in files
  {
  }

  lemma FetchIsNormal(files: Files, h: bytes)
    requires Get(files, h).Some? && Writable(Get(files, h).value)
    ensures Fetch(files, h) == Some(Normal(Get(files, h).value))
  {
    hide Get, Normal, NodeBytes;
    NodeRoundTrip(Get(files, h).value);
  }

  /** And so does cat, which is well defined because the store has no cycles. */
  lemma CatAfterImport(sha: Hash, files: Files, content: bytes, size: nat)
    requires size > 0 && |content| < LIMIT - 1 && IsHash(sha)
    requires Addressed(sha, files) && Closed(files) && Acyclic(files)
    requires var cs := Chunks(content, size);
      CollisionFree(sha, cs) && NoClash(sha, files, Root(sha, cs)) && forall c <- cs :: NoClash(sha, files, Leaf(c))
    ensures var files' := Imported(sha, files, Chunks(content, size));
      Addressed(sha, files') && Closed(files') && Acyclic(files')
    ensures var cs := Chunks(content, size);
      var root, files' := Address(sha, Root(sha, cs)), Imported(sha, files, cs);
      exists rank: bytes -> nat :: FetchRanked(files', rank) &&
        Fetch(files', root).Some? && Cat(files', rank, Fetch(files', root).value, rank(root)) == (true, content)
  {
    hide Fetch, Cat, Leaf, Address, IsHash, Holds, Chunks, Imported, CollisionFree, Root, Fit, NoClash, Closed, Addressed,
      FetchRanked, Ranked;
    var cs := Chunks(content, size);
    var files' := Imported(sha, files, cs);
    ChunksFit(content, size);
    ConcatOfChunks(content, size);
    RootStays(sha, files, cs);
    ImportKeepsAcyclic(sha, files, cs);
    ImportKeepsAddressed(sha, files, cs);
    var rank :| Ranked(files', rank);
    RankedFetch(sha, files', rank);
    CatOfPieces(sha, files', cs, rank);
  }

  // ------------------------------------------------ the store stays a DAG

  /** Nothing that this import writes clashes with what is stored. */
  ghost predicate NoClash(sha: Hash, files: Files, n: Node) {
    Address(sha, n) in files ==> files[Address(sha, n)] == NodeFile(n, Address(sha, n))
  }

  lemma {:induction false} LeavesKeepAcyclic(sha: Hash, files: Files, cs: seq<bytes>)
    requires IsHash(sha) && Closed(files) && Acyclic(files) && Fit(cs)
    requires forall c <- cs :: NoClash(sha, files, Leaf(c))
    requires forall i, j :: 0 <= i < j < |cs| && Address(sha, Leaf(cs[i])) == Address(sha, Leaf(cs[j])) ==> cs[i] == cs[j]
    ensures Closed(WriteLeaves(sha, files, cs)) && Acyclic(WriteLeaves(sha, files, cs))
    ensures forall h <- WriteLeaves(sha, files, cs) ::
              (h in files && WriteLeaves(sha, files, cs)[h] == files[h])
              || exists i :: 0 <= i < |cs| && h == Address(sha, Leaf(cs[i])) && WriteLeaves(sha, files, cs)[h] == NodeFile(Leaf(cs[i]), h)
  {
    hide Address, NodeFile, Leaf, Closed, Acyclic, IsHash, Writable, Concat;
    if cs != [] {
      var init, last := cs[..|cs| - 1], cs[|cs| - 1];
      FitInit(cs);
      assert forall c <- init :: c in cs;
      LeavesKeepAcyclic(sha, files, init);
      ConcatLength(cs, |cs| - 1);
      LeafIsWritable(last);
      LeafHasNoLinks(last);
      assert last in cs;
      WriteKeepsAcyclic(sha, WriteLeaves(sha, files, init), Leaf(last));
    }
  }

  lemma FitInit(cs: seq<bytes>)
    requires Fit(cs) && cs != []
    ensures Fit(cs[..|cs| - 1])
  {
  }

  /** An import keeps the store free of cycles and of dangling links: each piece is
      stored before the root that links to it. */
  lemma ImportKeepsAcyclic(sha: Hash, files: Files, cs: seq<bytes>)
    requires IsHash(sha) && Closed(files) && Acyclic(files) && Fit(cs) && cs != []
    requires CollisionFree(sha, cs) && NoClash(sha, files, Root(sha, cs)) && forall c <- cs :: NoClash(sha, files, Leaf(c))
    ensures Closed(Imported(sha, files, cs)) && Acyclic(Imported(sha, files, cs))
  {
    hide Address, NodeFile, Leaf, Closed, Acyclic, IsHash, Writable, Concat, LinkTo;
    if |cs| == 1 {
      ConcatLength(cs, 0);
      LeafIsWritable(cs[0]);
      LeafHasNoLinks(cs[0]);
      WriteKeepsAcyclic(sha, files, Leaf(cs[0]));
    } else {
      hide NoClash, CollisionFree, Parent, WriteLeaves;
      LeavesAreFine(sha, files, cs);
      ParentIsWritable(sha, cs);
      ParentLinksAreStored(sha, files, cs);
      NoClashIs(sha, WriteLeaves(sha, files, cs), Parent(sha, cs));
      WriteKeepsAcyclic(sha, WriteLeaves(sha, files, cs), Parent(sha, cs));
    }
  }

  lemma NoClashIs(sha: Hash, files: Files, n: Node)
    requires NoClash(sha, files, n)
    ensures Address(sha, n) in files ==> files[Address(sha, n)] == NodeFile(n, Address(sha, n))
  {
  }

  lemma ParentLinksAreStored(sha: Hash, files: Files, cs: seq<bytes>)
    requires CollisionFree(sha, cs)
    ensures forall l <- Parent(sha, cs).links :: l.hash in WriteLeaves(sha, files, cs)
  {
    hide Address, NodeFile, Leaf, LinkTo, WriteLeaves;
    forall l <- Parent(sha, cs).links ensures l.hash in WriteLeaves(sha, files, cs) {
      var i :| 0 <= i < |cs| && l == LinksTo(sha, cs)[i];
      LeavesStay(sha, files, cs, |cs|, i);
      assert cs[..|cs|] == cs;
      PieceHash(sha, cs, i);
    }
  }

  lemma LeavesAreFine(sha: Hash, files: Files, cs: seq<bytes>)
    requires IsHash(sha) && Closed(files) && Acyclic(files) && Fit(cs) && |cs| > 1
    requires CollisionFree(sha, cs) && NoClash(sha, files, Root(sha, cs)) && forall c <- cs :: NoClash(sha, files, Leaf(c))
    ensures Closed(WriteLeaves(sha, files, cs)) && Acyclic(WriteLeaves(sha, files, cs))
    ensures NoClash(sha, WriteLeaves(sha, files, cs), Parent(sha, cs))
  {
    hide Address, NodeFile, Leaf, Parent, Closed, Acyclic, IsHash, Fit;
    LeavesKeepAcyclic(sha, files, cs);
  }

  lemma {:induction false} LeavesKeepAddressed(sha: Hash, files: Files, cs: seq<bytes>)
    requires IsHash(sha) && Addressed(sha, files) && Fit(cs)
    ensures Addressed(sha, WriteLeaves(sha, files, cs))
  {
    hide Addressed, Leaf, IsHash, Writable, Write;
    if cs != [] {
      FitInit(cs);
      LeavesKeepAddressed(sha, files, cs[..|cs| - 1]);
      ConcatLength(cs, |cs| - 1);
      LeafIsWritable(cs[|cs| - 1]);
      WriteKeepsAddressed(sha, WriteLeaves(sha, files, cs[..|cs| - 1]), Leaf(cs[|cs| - 1]));
    }
  }

  lemma ImportKeepsAddressed(sha: Hash, files: Files, cs: seq<bytes>)
    requires IsHash(sha) && Addressed(sha, files) && Fit(cs) && cs != []
    ensures Addressed(sha, Imported(sha, files, cs))
  {
    hide Addressed, Leaf, IsHash, Writable, Write, WriteLeaves;
    if |cs| == 1 {
      ConcatLength(cs, 0);
      LeafIsWritable(cs[0]);
      WriteKeepsAddressed(sha, files, Leaf(cs[0]));
    } else {
      LeavesKeepAddressed(sha, files, cs);
      ParentIsWritable(sha, cs);
      WriteKeepsAddressed(sha, WriteLeaves(sha, files, cs), Parent(sha, cs));
    }
  }

  // ------------------------------------------------------ where the two differ

  /** A node with a byte of its own and one link. */
  function Mixed(link: bytes): (n: Node) {
    Node(UnixFiles.UnixFsBytes(UnixFiles.UnixFs(UnixFiles.FILE, [7], 1, [])), [NodeLink(link, None, 1)])
  }

  function Key(b: byte): (h: bytes)
    ensures |h| == 32 && h[0] == b
  {
    seq(32, _ => b)
  }

  function MixedFiles(): (files: Files) {
    map[Key(0) := NodeFile(Leaf([1]), Key(0)), Key(1) := NodeFile(Mixed(Key(0)), Key(1))]
  }

  lemma MixedIsWritable()
    ensures Writable(Mixed(Key(0))) && OwnBytes(Normal(Mixed(Key(0)))) == Some([7])
    ensures Normal(Mixed(Key(0))).links == [NodeLink(Key(0), Some([]), 1)]
  {
    hide UnixFiles.UnixFsBytes, UnixFiles.Decode, NodeBytes, LinkBytes;
    var u := UnixFiles.UnixFs(UnixFiles.FILE, [7], 1, []);
    UnixFiles.SizeBounds(u);
    UnixFiles.RoundTrip(u);
    var n := Mixed(Key(0));
    LinkSizeBounds(n.links[0]);
    NodeSizeBounds(n);
    assert Normal(n).links == [NodeLink(Key(0), Some([]), 1)];
  }

  lemma FetchStored(files: Files, n: Node, hash: bytes)
    requires Writable(n) && |hash| == 32 && hash in files && files[hash] == NodeFile(n, hash)
    ensures Fetch(files, hash) == Some(Normal(n))
  {
    hide Fetch, Get, GetValue, NodeFile, Writable, Normal;
    GetWritten(files, n, hash);
    NormalIsWritable(n);
    FetchIsNormal(files, hash);
  }

  lemma KeysDiffer()
    ensures Key(0) != Key(1)
  {
    assert Key(0)[0] != Key(1)[0];
  }

  lemma MixedHolds()
    ensures MixedFiles().Keys == {Key(0), Key(1)}
    ensures MixedFiles()[Key(0)] == NodeFile(Leaf([1]), Key(0)) && MixedFiles()[Key(1)] == NodeFile(Mixed(Key(0)), Key(1))
  {
    hide NodeFile, Leaf, Mixed, Key;
    KeysDiffer();
  }

  lemma MixedFetch()
    ensures Fetch(MixedFiles(), Key(0)) == Some(Leaf([1])) && OwnBytes(Leaf([1])) == Some([1])
    ensures Fetch(MixedFiles(), Key(1)) == Some(Normal(Mixed(Key(0))))
    ensures forall h :: Fetch(MixedFiles(), h).Some? ==> h == Key(0) || h == Key(1)
  {
    hide Fetch, Leaf, Mixed, Writable, NodeFile, OwnBytes, Normal, Key, MixedFiles;
    var files := MixedFiles();
    MixedHolds();
    MixedIsWritable();
    LeafIsWritable([1]);
    FetchStored(files, Leaf([1]), Key(0));
    FetchStored(files, Mixed(Key(0)), Key(1));
    LeafIsNormal([1]);
    forall h | Fetch(files, h).Some? ensures h == Key(0) || h == Key(1) { FetchOnlyStored(files, h); }
  }

  lemma LeafIsNormal(chunk: bytes)
    requires |chunk| < LIMIT
    ensures Normal(Leaf(chunk)) == Leaf(chunk) && OwnBytes(Leaf(chunk)) == Some(chunk)
  {
    hide UnixFiles.UnixFsBytes, UnixFiles.Decode;
    UnixFiles.RoundTrip(UnixFiles.UnixFs(UnixFiles.FILE, chunk, |chunk|, []));
  }

  lemma FetchOnlyStored(files: Files, h: bytes)
    requires Fetch(files, h).Some?
    ensures h in files
  {
  }

  /** A node with one link to a leaf: the stream is the leaf's bytes, cat writes the
      node's own before them. */
  lemma OneLink(files: Files, rank: bytes -> nat, h: bytes, own: bytes, below: bytes)
    requires FetchRanked(files, rank) && Fetch(files, h).Some? && OwnBytes(Fetch(files, h).value) == Some(own)
    requires var ls := Fetch(files, h).value.links;
      |ls| == 1 && Fetch(files, ls[0].hash).Some? && Fetch(files, ls[0].hash).value.links == [] &&
      OwnBytes(Fetch(files, ls[0].hash).value) == Some(below)
    ensures ToStream(files, h) == Some(below) && Cat(files, rank, Fetch(files, h).value, rank(h)) == (true, own + below)
  {
    hide Fetch, OwnBytes, FetchRanked;
    RankedBelow(files, rank, h);
    var ls := Fetch(files, h).value.links;
    assert ls[1..] == [];
    NoLinksNoBytes(files, rank, rank(h));
    NoLinksNoBytes(files, rank, rank(ls[0].hash));
    ChildIs(files, rank, ls[0]);
    assert below + [] == below;
    assert LinkedBytes(files, ls) == Some(below + []);
    assert Deeper(files, rank, ls[0]) == [];
    assert CatLinks(files, rank, ls, rank(h)) == (true, below + [] + []);
  }

  function MixedRank(): (rank: bytes -> nat) {
    h => if h == Key(1) then 1 else 0
  }

  lemma MixedIsRanked()
    ensures FetchRanked(MixedFiles(), MixedRank())
  {
    hide Fetch, Leaf, Mixed, MixedFiles, Normal, Key;
    var files, rank := MixedFiles(), MixedRank();
    KeysDiffer();
    MixedFetch();
    MixedIsWritable();
    LeafHasNoLinks([1]);
    forall h | Fetch(files, h).Some? ensures Below(rank, Fetch(files, h).value.links, rank(h)) {
      if h == Key(1) {
        AllBelow(rank, Fetch(files, h).value.links, rank(h));
      } else {
        assert h == Key(0);
      }
    }
  }

  /** Two exporters that succeed with different bytes. */
  ghost predicate Differ(files: Files, rank: bytes -> nat, h: bytes) {
    && FetchRanked(files, rank) && Fetch(files, h).Some?
    && ToStream(files, h) == Some([1]) && Cat(files, rank, Fetch(files, h).value, rank(h)) == (true, [7, 1])
  }

  /** There are such stores. */
  lemma ExportersCanDiffer()
    ensures exists files, rank: bytes -> nat, h :: Differ(files, rank, h)
  {
    hide Fetch, Leaf, Mixed, MixedFiles, MixedRank, OwnBytes, Normal, Key, Cat, ToStream, FetchRanked;
    MixedFetch();
    MixedIsWritable();
    MixedIsRanked();
    LeafHasNoLinks([1]);
    OneLink(MixedFiles(), MixedRank(), Key(1), [7], [1]);
    assert [7] + [1] == [7, 1];
    assert Differ(MixedFiles(), MixedRank(), Key(1));
  }
}
