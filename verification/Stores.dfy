/** Stores that any number of imports have built up from nothing. */
module Stores {
  import opened Basics
  import opened Nodes
  import opened MerkleDag
  import opened Importer
  import opened Exporter
  import UnixFiles

  type ChunkSize = n: nat | n > 0 witness MAX_DATA_SIZE

  /** One import: a file and the size of its chunks. */
  datatype Import = Import(content: bytes, size: ChunkSize)

  ghost predicate Possible(i: Import) {
    |i.content| < LIMIT - 1
  }

  function Pieces(i: Import): (cs: seq<bytes>)
    ensures |cs| >= 1
  {
    Chunks(i.content, i.size)
  }

  ghost predicate AllPossible(imports: seq<Import>) {
    forall i <- imports :: Possible(i)
  }

  function Grown(sha: Hash, imports: seq<Import>): (files: Files)
  {
    if imports == [] then map[] else Imported(sha, Grown(sha, imports[..|imports| - 1]), Pieces(imports[|imports| - 1]))
  }

  // ------------------------------------------------------------- what is written

  /** The nodes that an import stores. */
  ghost predicate Writes(sha: Hash, cs: seq<bytes>, n: Node)
    requires cs != []
  {
    n == Root(sha, cs) || (|cs| > 1 && exists i :: 0 <= i < |cs| && n == Leaf(cs[i]))
  }

  ghost predicate WrittenBy(sha: Hash, imports: seq<Import>, n: Node) {
    exists k :: 0 <= k < |imports| && Writes(sha, Pieces(imports[k]), n)
  }

  /** The hash tells the encodings of two nodes apart. */
  ghost predicate Distinct(sha: Hash, n: Node, m: Node) {
    Address(sha, n) == Address(sha, m) ==> NodeBytes(n) == NodeBytes(m)
  }

  /** All that is used of the hash function: on the encodings of the nodes stored it
      has no collision. */
  ghost predicate NoCollisions(sha: Hash, imports: seq<Import>) {
    forall n, m :: WrittenBy(sha, imports, n) && WrittenBy(sha, imports, m) ==> Distinct(sha, n, m)
  }

  lemma PiecesFit(i: Import)
    requires Possible(i)
    ensures Fit(Pieces(i)) && Concat(Pieces(i)) == i.content
  {
    ChunksFit(i.content, i.size);
    ConcatOfChunks(i.content, i.size);
  }

  lemma {:induction false} WrittenIsWritable(sha: Hash, cs: seq<bytes>, n: Node)
    requires IsHash(sha) && cs != [] && Fit(cs) && Writes(sha, cs, n)
    ensures Writable(n)
  {
    hide Writable, Leaf, Concat;
    if |cs| > 1 && n == Parent(sha, cs) {
      ParentIsWritable(sha, cs);
    } else {
      var i :| 0 <= i < |cs| && n == Leaf(cs[i]);
      ConcatLength(cs, i);
      LeafIsWritable(cs[i]);
    }
  }

  // ------------------------------------------------------------- encodings differ

  lemma LeafBytesDiffer(a: bytes, b: bytes)
    requires |a| < LIMIT && |b| < LIMIT && NodeBytes(Leaf(a)) == NodeBytes(Leaf(b))
    ensures a == b
  {
    hide NodeBytes, DecodeNode, UnixFiles.UnixFsBytes, UnixFiles.Decode, Nodes.Valid;
    LeafIsWritable(a);
    LeafIsWritable(b);
    NodeRoundTrip(Leaf(a));
    NodeRoundTrip(Leaf(b));
    UnixFiles.RoundTrip(UnixFiles.UnixFs(UnixFiles.FILE, a, |a|, []));
    UnixFiles.RoundTrip(UnixFiles.UnixFs(UnixFiles.FILE, b, |b|, []));
  }

  lemma LeafIsNoParent(sha: Hash, chunk: bytes, cs: seq<bytes>)
    requires IsHash(sha) && |chunk| < LIMIT && Fit(cs) && cs != []
    ensures NodeBytes(Leaf(chunk)) != NodeBytes(Parent(sha, cs))
  {
    hide NodeBytes, DecodeNode, UnixFiles.UnixFsBytes, Nodes.Valid, IsHash, Concat, Lengths, Record, LinkTo;
    LeafIsWritable(chunk);
    ParentIsWritable(sha, cs);
    NodeRoundTrip(Leaf(chunk));
    NodeRoundTrip(Parent(sha, cs));
  }

  /** So within one import a hash that tells encodings apart tells nodes apart. */
  lemma DistinctIsCollisionFree(sha: Hash, cs: seq<bytes>)
    requires IsHash(sha) && cs != [] && Fit(cs)
    requires forall n, m :: Writes(sha, cs, n) && Writes(sha, cs, m) ==> Distinct(sha, n, m)
    ensures CollisionFree(sha, cs)
  {
    hide Leaf, Parent, IsHash, Concat, Fit, Writes, Distinct, Address;
    forall i, j | 0 <= i < j < |cs| && Address(sha, Leaf(cs[i])) == Address(sha, Leaf(cs[j])) ensures cs[i] == cs[j] {
      LeafIsWritten(sha, cs, i);
      LeafIsWritten(sha, cs, j);
      SameLeaf(sha, cs, i, j);
    }
    if |cs| > 1 {
      forall i | 0 <= i < |cs| ensures Address(sha, Leaf(cs[i])) != Address(sha, Parent(sha, cs)) {
        LeafIsWritten(sha, cs, i);
        ParentDiffers(sha, cs, i);
      }
    }
  }

  lemma LeafIsWritten(sha: Hash, cs: seq<bytes>, i: nat)
    requires i < |cs|
    ensures Writes(sha, cs, Leaf(cs[i])) && (|cs| > 1 ==> Writes(sha, cs, Parent(sha, cs)))
  {
    hide Leaf, Parent;
  }

  lemma SameLeaf(sha: Hash, cs: seq<bytes>, i: nat, j: nat)
    requires i < |cs| && j < |cs| && Fit(cs) && Distinct(sha, Leaf(cs[i]), Leaf(cs[j]))
    requires Address(sha, Leaf(cs[i])) == Address(sha, Leaf(cs[j]))
    ensures cs[i] == cs[j]
  {
    hide Leaf, NodeBytes, Address, Concat;
    ConcatLength(cs, i);
    ConcatLength(cs, j);
    LeafBytesDiffer(cs[i], cs[j]);
  }

  lemma ParentDiffers(sha: Hash, cs: seq<bytes>, i: nat)
    requires IsHash(sha) && i < |cs| && Fit(cs) && Distinct(sha, Leaf(cs[i]), Parent(sha, cs))
    ensures Address(sha, Leaf(cs[i])) != Address(sha, Parent(sha, cs))
  {
    hide Leaf, Parent, NodeBytes, Address, Concat, IsHash;
    ConcatLength(cs, i);
    LeafIsNoParent(sha, cs[i], cs);
  }

  // ------------------------------------------------------------- nothing is lost

  /** A stored node stays stored: what may be written over it is the same file. */
  lemma HoldsStays(sha: Hash, files: Files, n: Node, m: Node)
    requires Holds(sha, files, n) && Distinct(sha, n, m)
    ensures Holds(sha, Write(sha, files, m), n)
  {
    hide NodeBytes;
  }

  lemma {:induction false} LeavesHold(sha: Hash, files: Files, cs: seq<bytes>, n: Node)
    requires Holds(sha, files, n) || exists i :: 0 <= i < |cs| && n == Leaf(cs[i])
    requires forall i :: 0 <= i < |cs| ==> Distinct(sha, n, Leaf(cs[i]))
    ensures Holds(sha, WriteLeaves(sha, files, cs), n)
  {
    hide Holds, Distinct, Write, Leaf;
    if cs != [] {
      var init, last := cs[..|cs| - 1], cs[|cs| - 1];
      if n == Leaf(last) {
        WriteHolds(sha, WriteLeaves(sha, files, init), n);
      } else {
        if !Holds(sha, files, n) {
          var i :| 0 <= i < |cs| && n == Leaf(cs[i]);
          assert n == Leaf(init[i]);
        }
        LeavesHold(sha, files, init, n);
        HoldsStays(sha, WriteLeaves(sha, files, init), n, Leaf(last));
      }
    }
  }

  lemma WriteHolds(sha: Hash, files: Files, n: Node)
    ensures Holds(sha, Write(sha, files, n), n)
  {
  }

  lemma ImportHolds(sha: Hash, files: Files, cs: seq<bytes>, n: Node)
    requires cs != [] && (Holds(sha, files, n) || Writes(sha, cs, n))
    requires forall m :: Writes(sha, cs, m) ==> Distinct(sha, n, m)
    ensures Holds(sha, Imported(sha, files, cs), n)
  {
    hide Holds, Distinct, Write, Leaf, Parent;
    assert Writes(sha, cs, Root(sha, cs));
    var files1 := if |cs| == 1 then files else WriteLeaves(sha, files, cs);
    if n == Root(sha, cs) {
      WriteHolds(sha, files1, n);
    } else {
      if |cs| > 1 {
        forall i | 0 <= i < |cs| ensures Distinct(sha, n, Leaf(cs[i])) { assert Writes(sha, cs, Leaf(cs[i])); }
        LeavesHold(sha, files, cs, n);
      }
      HoldsStays(sha, files1, n, Root(sha, cs));
    }
  }

  /** Everything that some import has written is there ... */
  lemma {:induction false} AllAreHeld(sha: Hash, imports: seq<Import>, n: Node)
    requires AllPossible(imports) && NoCollisions(sha, imports) && WrittenBy(sha, imports, n)
    ensures Holds(sha, Grown(sha, imports), n)
  {
    hide Holds, Distinct, Imported, Chunks, Writes;
    var init, last := imports[..|imports| - 1], imports[|imports| - 1];
    forall m | Writes(sha, Pieces(last), m) ensures Distinct(sha, n, m) { LastWrites(sha, imports, m); }
    if !Writes(sha, Pieces(last), n) {
      var k :| 0 <= k < |imports| && Writes(sha, Pieces(imports[k]), n);
      assert init[k] == imports[k];
      FewerCollideLess(sha, imports);
      AllAreHeld(sha, init, n);
    }
    ImportHolds(sha, Grown(sha, init), Pieces(last), n);
  }

  lemma LastWrites(sha: Hash, imports: seq<Import>, n: Node)
    requires imports != [] && Writes(sha, Pieces(imports[|imports| - 1]), n)
    ensures WrittenBy(sha, imports, n)
  {
  }

  lemma FewerWrite(sha: Hash, imports: seq<Import>, n: Node)
    requires imports != [] && WrittenBy(sha, imports[..|imports| - 1], n)
    ensures WrittenBy(sha, imports, n)
  {
    hide Writes, Chunks;
    var init := imports[..|imports| - 1];
    var k :| 0 <= k < |init| && Writes(sha, Pieces(init[k]), n);
    assert imports[k] == init[k];
  }

  lemma FewerCollideLess(sha: Hash, imports: seq<Import>)
    requires imports != [] && AllPossible(imports) && NoCollisions(sha, imports)
    ensures AllPossible(imports[..|imports| - 1]) && NoCollisions(sha, imports[..|imports| - 1])
  {
    hide WrittenBy, Distinct;
    var init := imports[..|imports| - 1];
    assert forall i <- init :: i in imports;
    forall n, m | WrittenBy(sha, init, n) && WrittenBy(sha, init, m) ensures Distinct(sha, n, m) {
      FewerWrite(sha, imports, n);
      FewerWrite(sha, imports, m);
    }
  }

  /** ... and everything there is the file of a node that some import has written. */
  ghost predicate FromImports(sha: Hash, imports: seq<Import>, files: Files) {
    forall h <- files :: exists n :: WrittenBy(sha, imports, n) && h == Address(sha, n) && files[h] == NodeFile(n, h)
  }

  ghost predicate FromPieces(sha: Hash, cs: seq<bytes>, files: Files, files': Files)
    requires cs != []
  {
    forall h <- files' :: (h in files && files'[h] == files[h]) ||
                          exists n :: Writes(sha, cs, n) && h == Address(sha, n) && files'[h] == NodeFile(n, h)
  }

  lemma {:induction false} LeavesAreNew(sha: Hash, files: Files, cs: seq<bytes>, h: bytes)
    requires h in WriteLeaves(sha, files, cs)
    ensures var files' := WriteLeaves(sha, files, cs);
      (h in files && files'[h] == files[h]) || exists i :: 0 <= i < |cs| && h == Address(sha, Leaf(cs[i])) && files'[h] == NodeFile(Leaf(cs[i]), h)
  {
    hide Address, NodeFile, Leaf;
    if cs != [] {
      var init, last := cs[..|cs| - 1], cs[|cs| - 1];
      if h == Address(sha, Leaf(last)) {
        assert last == cs[|cs| - 1];
      } else {
        LeavesAreNew(sha, files, init, h);
      }
    }
  }

  lemma ImportedIsFromPieces(sha: Hash, files: Files, cs: seq<bytes>)
    requires cs != []
    ensures FromPieces(sha, cs, files, Imported(sha, files, cs))
  {
    hide Address, NodeFile, Leaf, Parent, WriteLeaves;
    var files' := Imported(sha, files, cs);
    forall h <- files' ensures (h in files && files'[h] == files[h]) ||
                               exists n :: Writes(sha, cs, n) && h == Address(sha, n) && files'[h] == NodeFile(n, h)
    {
      if h == Address(sha, Root(sha, cs)) {
        assert Writes(sha, cs, Root(sha, cs));
      } else if |cs| > 1 {
        LeavesAreNew(sha, files, cs, h);
        if i :| 0 <= i < |cs| && h == Address(sha, Leaf(cs[i])) && files'[h] == NodeFile(Leaf(cs[i]), h) {
          assert Writes(sha, cs, Leaf(cs[i]));
        }
      }
    }
  }

  lemma {:induction false} GrownIsFromImports(sha: Hash, imports: seq<Import>)
    requires AllPossible(imports)
    ensures FromImports(sha, imports, Grown(sha, imports))
  {
    hide Address, NodeFile, Imported, Writes, Chunks;
    if imports != [] {
      var init, last := imports[..|imports| - 1], imports[|imports| - 1];
      assert forall i <- init :: i in imports;
      var files, files' := Grown(sha, init), Grown(sha, imports);
      GrownIsFromImports(sha, init);
      ImportedIsFromPieces(sha, files, Pieces(last));
      forall h <- files' ensures exists n :: WrittenBy(sha, imports, n) && h == Address(sha, n) && files'[h] == NodeFile(n, h) {
        if h in files && files'[h] == files[h] {
          var n :| WrittenBy(sha, init, n) && h == Address(sha, n) && files[h] == NodeFile(n, h);
          FewerWrite(sha, imports, n);
        } else {
          var n :| Writes(sha, Pieces(last), n) && h == Address(sha, n) && files'[h] == NodeFile(n, h);
          LastWrites(sha, imports, n);
        }
      }
    }
  }

  // ------------------------------------------------------------- the whole store

  /** What the next import writes does not clash with what is there. */
  lemma NextDoesNotClash(sha: Hash, imports: seq<Import>, n: Node)
    requires imports != [] && AllPossible(imports) && NoCollisions(sha, imports) && Writes(sha, Pieces(imports[|imports| - 1]), n)
    ensures NoClash(sha, Grown(sha, imports[..|imports| - 1]), n)
  {
    hide WrittenBy, Writes, Chunks, NodeBytes;
    var init := imports[..|imports| - 1];
    assert forall i <- init :: i in imports;
    var files, h := Grown(sha, init), Address(sha, n);
    GrownIsFromImports(sha, init);
    LastWrites(sha, imports, n);
    if h in files {
      var m :| WrittenBy(sha, init, m) && h == Address(sha, m) && files[h] == NodeFile(m, h);
      FewerWrite(sha, imports, m);
      assert Distinct(sha, n, m);
    }
  }

  /** Every store that imports have built is addressed by the hashes of its nodes
      and has neither cycles nor dangling links. */
  lemma {:induction false} GrownIsSound(sha: Hash, imports: seq<Import>)
    requires IsHash(sha) && AllPossible(imports) && NoCollisions(sha, imports)
    ensures Addressed(sha, Grown(sha, imports)) && Closed(Grown(sha, imports)) && Acyclic(Grown(sha, imports))
  {
    hide IsHash, Addressed, Closed, Acyclic, NoClash, Imported, Chunks, CollisionFree, Distinct, Fit, Writes, WrittenBy;
    if imports == [] {
      EmptyIsSound(sha);
    } else {
      var init, last := imports[..|imports| - 1], imports[|imports| - 1];
      var files, cs := Grown(sha, init), Pieces(last);
      FewerCollideLess(sha, imports);
      GrownIsSound(sha, init);
      PiecesFit(last);
      forall n, m | Writes(sha, cs, n) && Writes(sha, cs, m) ensures Distinct(sha, n, m) {
        LastWrites(sha, imports, n);
        LastWrites(sha, imports, m);
      }
      DistinctIsCollisionFree(sha, cs);
      WritesAll(sha, cs);
      NextDoesNotClash(sha, imports, Root(sha, cs));
      if |cs| > 1 {
        forall c <- cs ensures NoClash(sha, files, Leaf(c)) { NextDoesNotClash(sha, imports, Leaf(c)); }
      } else {
        assert forall c <- cs :: c == cs[0];
      }
      ImportKeepsAcyclic(sha, files, cs);
      ImportKeepsAddressed(sha, files, cs);
    }
  }

  lemma WritesAll(sha: Hash, cs: seq<bytes>)
    requires cs != []
    ensures Writes(sha, cs, Root(sha, cs)) && (|cs| > 1 ==> forall c <- cs :: Writes(sha, cs, Leaf(c)))
    ensures |cs| == 1 ==> Root(sha, cs) == Leaf(cs[0])
  {
  }

  lemma EmptyIsSound(sha: Hash)
    ensures Addressed(sha, map[]) && Closed(map[]) && Acyclic(map[])
  {
    assert Ranked(map[], _ => 0);
  }

  /** Every node that some import has written can be fetched by the hash of its
      encoding, and what is fetched hashes to it. */
  lemma EveryNodeIsFetched(sha: Hash, imports: seq<Import>, n: Node)
    requires IsHash(sha) && AllPossible(imports) && NoCollisions(sha, imports) && WrittenBy(sha, imports, n)
    ensures Fetch(Grown(sha, imports), Address(sha, n)) == Some(Normal(n)) && Address(sha, Normal(n)) == Address(sha, n)
  {
    hide IsHash, Fetch, Get, GetValue, Address, NodeFile, Chunks, NoCollisions, Grown, Writes, Writable, Normal;
    var k :| 0 <= k < |imports| && Writes(sha, Pieces(imports[k]), n);
    PiecesFit(imports[k]);
    WrittenIsWritable(sha, Pieces(imports[k]), n);
    AllAreHeld(sha, imports, n);
    FetchWritten(sha, Grown(sha, imports), n);
  }

  /** And after any number of imports the root of each still exports its file. */
  lemma EveryImportIsExported(sha: Hash, imports: seq<Import>, k: nat)
    requires IsHash(sha) && AllPossible(imports) && NoCollisions(sha, imports) && k < |imports|
    ensures ToStream(Grown(sha, imports), Address(sha, Root(sha, Pieces(imports[k])))) == Some(imports[k].content)
  {
    hide IsHash, Holds, ToStream, Address, Imported, Chunks, Distinct, Fit, NoCollisions, Grown, Root, Leaf;
    var cs, files := Pieces(imports[k]), Grown(sha, imports);
    PiecesFit(imports[k]);
    WritesAll(sha, cs);
    assert WrittenBy(sha, imports, Root(sha, cs));
    AllAreHeld(sha, imports, Root(sha, cs));
    if |cs| > 1 {
      forall i | 0 <= i < |cs| ensures Holds(sha, files, Leaf(cs[i])) {
        assert WrittenBy(sha, imports, Leaf(cs[i]));
        AllAreHeld(sha, imports, Leaf(cs[i]));
      }
    }
    StreamOfPieces(sha, files, cs);
  }

  /** So does cat. */
  lemma EveryImportIsCat(sha: Hash, imports: seq<Import>, k: nat)
    requires IsHash(sha) && AllPossible(imports) && NoCollisions(sha, imports) && k < |imports|
    ensures var files, root := Grown(sha, imports), Address(sha, Root(sha, Pieces(imports[k])));
      exists rank: bytes -> nat :: FetchRanked(files, rank) && Fetch(files, root).Some? &&
        Cat(files, rank, Fetch(files, root).value, rank(root)) == (true, imports[k].content)
  {
    hide IsHash, Holds, Cat, Fetch, Address, Imported, Chunks, Distinct, Fit, NoCollisions, Grown, Root, Leaf, FetchRanked, Ranked,
      Addressed, Closed;
    var cs, files := Pieces(imports[k]), Grown(sha, imports);
    PiecesFit(imports[k]);
    WritesAll(sha, cs);
    assert WrittenBy(sha, imports, Root(sha, cs));
    AllAreHeld(sha, imports, Root(sha, cs));
    if |cs| > 1 {
      forall i | 0 <= i < |cs| ensures Holds(sha, files, Leaf(cs[i])) {
        assert WrittenBy(sha, imports, Leaf(cs[i]));
        AllAreHeld(sha, imports, Leaf(cs[i]));
      }
    }
    GrownIsSound(sha, imports);
    var rank :| Ranked(files, rank);
    RankedFetch(sha, files, rank);
    CatOfPieces(sha, files, cs, rank);
  }
}
