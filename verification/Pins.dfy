/** Reachability in the Merkle DAG: ipfs_pin_has_child of pin/pin.c. */
module Pins {
  import opened Basics
  import opened Nodes
  import opened MerkleDag

  /** The search, on a store whose links go down in rank and which therefore ends. */
  ghost function HasChild(files: Files, rank: bytes -> nat, hash: bytes, child: bytes): (r: bool)
    requires Ranked(files, rank)
    decreases rank(hash), 1, 0
  {
    match Get(files, hash)
    case None => false
    case Some(n) => hash == child || AnyLink(files, rank, hash, n.links, child)
  }

  /** Some link is the child or has it below; links of another hash size are passed
      over. */
  ghost function AnyLink(files: Files, rank: bytes -> nat, hash: bytes, ls: seq<NodeLink>, child: bytes): (r: bool)
    requires Ranked(files, rank) && Get(files, hash).Some? && forall l <- ls :: l in Get(files, hash).value.links
    decreases rank(hash), 0, |ls|
  {
    ls != [] &&
    (Found(files, rank, hash, ls[0], child) || AnyLink(files, rank, hash, ls[1..], child))
  }

  ghost predicate Found(files: Files, rank: bytes -> nat, hash: bytes, l: NodeLink, child: bytes)
    requires Ranked(files, rank) && Get(files, hash).Some? && l in Get(files, hash).value.links
    decreases rank(hash), 0, 0
  {
    RankStep(files, rank, hash, l);
    |l.hash| == |child| && (l.hash == child || HasChild(files, rank, l.hash, child))
  }

  lemma RankStep(files: Files, rank: bytes -> nat, hash: bytes, l: NodeLink)
    requires Ranked(files, rank) && Get(files, hash).Some? && l in Get(files, hash).value.links
    ensures rank(l.hash) < rank(hash)
  {
  }

  method RunHasChild(repo: FsRepo, ghost rank: bytes -> nat, hash: bytes, child: bytes) returns (r: bool)
    requires Ranked(repo.files, rank)
    ensures r == HasChild(repo.files, rank, hash, child)
    decreases rank(hash)
  {
    hide Get, Ranked;
    var node := Get(repo.files, hash);
    if node.None? { return false; }
    if hash == child { return true; }
    var links := node.value.links;
    assert links[0..] == links;
    for i := 0 to |links|
      invariant forall l <- links[i..] :: l in links
      invariant AnyLink(repo.files, rank, hash, links[i..], child) == AnyLink(repo.files, rank, hash, links, child)
    {
      var l := links[i];
      assert links[i..][0] == l && links[i..][1..] == links[i + 1..];
      RankStep(repo.files, rank, hash, l);
      if |l.hash| == |child| && l.hash != child {
        var below := RunHasChild(repo, rank, l.hash, child);
        if below { return true; }
      }
      if |l.hash| == |child| && l.hash == child { return true; }
    }
    assert links[|links|..] == [];
    return false;
  }

  // ------------------------------------------------------------------- paths

  ghost predicate Links(files: Files, a: bytes, b: bytes) {
    Get(files, a).Some? && exists l <- Get(files, a).value.links :: l.hash == b
  }

  /** A chain of links from p[0] to the last of p; every node but the last is stored. */
  ghost predicate IsPath(files: Files, p: seq<bytes>) {
    p != [] && forall i :: 0 <= i < |p| - 1 ==> Links(files, p[i], p[i + 1])
  }

  /** The root is stored and a path leads from it to the child through nodes with
      hashes of the child's size. */
  ghost predicate Reaches(files: Files, root: bytes, child: bytes, p: seq<bytes>) {
    && Get(files, root).Some? && IsPath(files, p) && p[0] == root && p[|p| - 1] == child
    && forall i :: 1 <= i < |p| ==> |p[i]| == |child|
  }

  lemma {:induction false} FoundIsAny(files: Files, rank: bytes -> nat, hash: bytes, ls: seq<NodeLink>, child: bytes, l: NodeLink)
    requires Ranked(files, rank) && Get(files, hash).Some? && (forall k <- ls :: k in Get(files, hash).value.links)
    requires l in ls && Found(files, rank, hash, l, child)
    ensures AnyLink(files, rank, hash, ls, child)
  {
    hide Get, Ranked;
    if ls[0] != l { FoundIsAny(files, rank, hash, ls[1..], child, l); }
  }

  lemma {:induction false} AnyIsFound(files: Files, rank: bytes -> nat, hash: bytes, ls: seq<NodeLink>, child: bytes) returns (l: NodeLink)
    requires Ranked(files, rank) && Get(files, hash).Some? && (forall k <- ls :: k in Get(files, hash).value.links)
    requires AnyLink(files, rank, hash, ls, child)
    ensures l in ls && Found(files, rank, hash, l, child)
  {
    hide Get, Ranked, Found;
    if Found(files, rank, hash, ls[0], child) {
      l := ls[0];
    } else {
      l := AnyIsFound(files, rank, hash, ls[1..], child);
    }
  }

  lemma {:induction false} FoundHasPath(files: Files, rank: bytes -> nat, root: bytes, child: bytes) returns (p: seq<bytes>)
    requires Ranked(files, rank) && HasChild(files, rank, root, child)
    ensures Reaches(files, root, child, p)
    decreases rank(root)
  {
    hide Get, Ranked;
    if root == child {
      p := [root];
    } else {
      var l := AnyIsFound(files, rank, root, Get(files, root).value.links, child);
      assert Links(files, root, l.hash);
      if l.hash == child {
        p := [root, child];
      } else {
        RankStep(files, rank, root, l);
        var rest := FoundHasPath(files, rank, l.hash, child);
        p := [root] + rest;
        forall i | 0 <= i < |p| - 1 ensures Links(files, p[i], p[i + 1]) {
          if i > 0 { assert Links(files, rest[i - 1], rest[i]); }
        }
      }
    }
  }

  lemma {:induction false} PathIsFound(files: Files, rank: bytes -> nat, root: bytes, child: bytes, p: seq<bytes>)
    requires Ranked(files, rank) && Reaches(files, root, child, p)
    ensures HasChild(files, rank, root, child)
    decreases |p|
  {
    hide Get, Ranked;
    if root != child {
      assert Links(files, p[0], p[1]);
      var ls := Get(files, root).value.links;
      var l :| l in ls && l.hash == p[1];
      if l.hash != child {
        assert Links(files, p[1], p[2]);
        forall i | 0 <= i < |p[1..]| - 1 ensures Links(files, p[1..][i], p[1..][i + 1]) {
          assert Links(files, p[i + 1], p[i + 2]);
        }
        PathIsFound(files, rank, p[1], child, p[1..]);
      }
      FoundIsAny(files, rank, root, ls, child, l);
    }
  }

  /** It answers yes exactly when such a path exists. */
  lemma HasChildExactly(files: Files, rank: bytes -> nat, root: bytes, child: bytes)
    requires Ranked(files, rank)
    ensures HasChild(files, rank, root, child) <==> exists p :: Reaches(files, root, child, p)
  {
    hide Get, Ranked, Reaches, HasChild;
    if HasChild(files, rank, root, child) {
      var p := FoundHasPath(files, rank, root, child);
    }
    if p :| Reaches(files, root, child, p) {
      PathIsFound(files, rank, root, child, p);
    }
  }

  // ------------------------------------------------------------------- cycles

  /** A chain of at least one link leads from a to b. */
  ghost predicate Leads(files: Files, a: bytes, b: bytes) {
    exists p :: IsPath(files, p) && |p| >= 2 && p[0] == a && p[|p| - 1] == b
  }

  ghost predicate NoCycle(files: Files) {
    forall h :: !Leads(files, h, h)
  }

  /** Everything stored that can be reached from h. */
  ghost function Beneath(files: Files, h: bytes): (r: set<bytes>) {
    set x | x in files.Keys && Leads(files, h, x)
  }

  lemma LinkLeads(files: Files, a: bytes, b: bytes)
    requires Links(files, a, b)
    ensures Leads(files, a, b)
  {
    hide Links;
    var p := [a, b];
    assert IsPath(files, p);
  }

  lemma LinkLeadsOn(files: Files, a: bytes, b: bytes, c: bytes)
    requires Links(files, a, b) && Leads(files, b, c)
    ensures Leads(files, a, c)
  {
    hide Links;
    var p :| IsPath(files, p) && |p| >= 2 && p[0] == b && p[|p| - 1] == c;
    var q := [a] + p;
    forall i | 0 <= i < |q| - 1 ensures Links(files, q[i], q[i + 1]) {
      if i > 0 { assert Links(files, p[i - 1], p[i]); }
    }
    assert IsPath(files, q);
  }

  lemma FewerBeneath(files: Files, a: bytes, b: bytes)
    requires NoCycle(files) && Links(files, a, b) && b in files
    ensures |Beneath(files, b)| < |Beneath(files, a)|
  {
    hide Links, Leads;
    LinkLeads(files, a, b);
    forall x <- Beneath(files, b) ensures x in Beneath(files, a) { LinkLeadsOn(files, a, b, x); }
    SmallerSet(Beneath(files, b), Beneath(files, a), b);
  }

  lemma SmallerSet<T>(a: set<T>, b: set<T>, x: T)
    requires a <= b && x in b && x !in a
    ensures |a| < |b|
  {
    assert b == a + (b - a);
    assert x in b - a;
  }

  lemma {:induction false} RankFalls(files: Files, rank: bytes -> nat, p: seq<bytes>)
    requires Ranked(files, rank) && IsPath(files, p) && |p| >= 2
    ensures rank(p[|p| - 1]) < rank(p[0])
    decreases |p|
  {
    hide Get;
    var init := p[..|p| - 1];
    assert Links(files, p[|p| - 2], p[|p| - 1]);
    if |p| > 2 {
      forall i | 0 <= i < |init| - 1 ensures Links(files, init[i], init[i + 1]) { assert Links(files, p[i], p[i + 1]); }
      RankFalls(files, rank, init);
    }
    StoredLinks(files, p[|p| - 2]);
  }

  lemma StoredLinks(files: Files, h: bytes)
    requires Get(files, h).Some?
    ensures h in files
  {
  }

  /** Where no link dangles, a rank for the searches exists exactly if no chain of
      links leads from a hash back to itself. */
  lemma AcyclicExactly(files: Files)
    requires Closed(files)
    ensures Acyclic(files) <==> NoCycle(files)
  {
    hide Get, Leads, Closed, IsPath;
    if Acyclic(files) {
      var rank :| Ranked(files, rank);
      forall h ensures !Leads(files, h, h) { RankedHasNoCycle(files, rank, h); }
    }
    if NoCycle(files) {
      var rank: bytes -> nat := h => |Beneath(files, h)|;
      forall h, l | h in files && Get(files, h).Some? && l in Get(files, h).value.links ensures rank(l.hash) < rank(h) {
        ClosedLink(files, h, l);
        FewerBeneath(files, h, l.hash);
      }
      assert Ranked(files, rank);
    }
  }

  lemma RankedHasNoCycle(files: Files, rank: bytes -> nat, h: bytes)
    requires Ranked(files, rank)
    ensures !Leads(files, h, h)
  {
    hide Get, Ranked, IsPath;
    if Leads(files, h, h) {
      var p :| IsPath(files, p) && |p| >= 2 && p[0] == h && p[|p| - 1] == h;
      RankFalls(files, rank, p);
    }
  }

  lemma ClosedLink(files: Files, h: bytes, l: NodeLink)
    requires Closed(files) && h in files && Get(files, h).Some? && l in Get(files, h).value.links
    ensures Links(files, h, l.hash) && l.hash in files
  {
    hide Get;
  }
}
