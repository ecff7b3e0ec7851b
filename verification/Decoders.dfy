/** What the decoders make of any bytes at all, not only of what an encoder wrote. */
module Decoders {
  import opened Basics
  import opened Wire
  import opened Layouts
  import opened Nodes
  import Messages
  import Blocks
  import Cids
  import Journals
  import UnixFiles

  // ------------------------------------------------------------- varints

  /** A number on the wire, in as many bytes as its writer liked. */
  predicate IsVarint(v: bytes, n: nat) {
    v != [] && v[|v| - 1] < 128 && (forall i :: 0 <= i < |v| - 1 ==> v[i] >= 128) && Positional(v) == n
  }

  lemma {:induction false} VarintIsRead(v: bytes, n: nat, rest: bytes)
    requires IsVarint(v, n)
    ensures ReadVarint(v + rest) == Some((n, rest))
  {
    if |v| == 1 {
      assert v[1..] == [] && (v + rest)[1..] == rest;
    } else {
      assert (v + rest)[1..] == v[1..] + rest;
      VarintIsRead(v[1..], n / 128, rest);
    }
  }

  lemma {:induction false} ReadIsVarint(s: bytes) returns (v: bytes)
    requires ReadVarint(s).Some?
    ensures IsVarint(v, ReadVarint(s).value.0) && s == v + ReadVarint(s).value.1
  {
    if s[0] < 128 {
      v := [s[0]];
      assert v[1..] == [];
    } else {
      var w := ReadIsVarint(s[1..]);
      v := [s[0]] + w;
      assert v[1..] == w;
      assert s == [s[0]] + s[1..];
    }
  }

  // ------------------------------------------------------------- pieces

  /** What one turn of a decoder consumes: a tag that its switch does not know, and
      no more; or a tag and a number; or a tag, a length and as many bytes. */
  datatype Piece = Stray(tag: bytes) | Numeral(tag: bytes, num: bytes) | Delimited(tag: bytes, len: bytes, body: bytes)

  function Flat(p: Piece): (s: bytes) {
    match p
    case Stray(tag) => tag
    case Numeral(tag, num) => tag + num
    case Delimited(tag, len, body) => tag + len + body
  }

  function FlatAll(ps: seq<Piece>): (s: bytes) {
    if ps == [] then [] else Flat(ps[0]) + FlatAll(ps[1..])
  }

  predicate Reads(schema: Schema, p: Piece) {
    && IsVarint(p.tag, Positional(p.tag))
    && match (KindOf(schema, Positional(p.tag) / 8), p)
       case (Unknown, Stray(_)) => true
       case (Number, Numeral(_, num)) => IsVarint(num, Positional(num))
       case (Record, Delimited(_, len, body)) => IsVarint(len, |body|)
       case _ => false
  }

  /** The field that is then handed to the switch. */
  function FieldsOf(p: Piece): (fs: seq<Field>) {
    match p
    case Stray(_) => []
    case Numeral(tag, num) => [Field(Positional(tag) / 8, Num(Positional(num)))]
    case Delimited(tag, _, body) => [Field(Positional(tag) / 8, Blob(body))]
  }

  function AllFields(ps: seq<Piece>): (fs: seq<Field>) {
    if ps == [] then [] else FieldsOf(ps[0]) + AllFields(ps[1..])
  }

  ghost predicate Splits(schema: Schema, ps: seq<Piece>, s: bytes) {
    FlatAll(ps) == s && forall p <- ps :: Reads(schema, p)
  }

  lemma PieceIsRead(schema: Schema, p: Piece, rest: bytes)
    requires Reads(schema, p)
    ensures ReadField(schema, Flat(p) + rest) ==
            Some((if FieldsOf(p) == [] then Skip else Got(FieldsOf(p)[0]), rest))
  {
    hide ReadVarint, IsVarint, Positional;
    match p
    case Stray(tag) => VarintIsRead(tag, Positional(tag), rest);
    case Numeral(tag, num) =>
      assert Flat(p) + rest == tag + (num + rest);
      VarintIsRead(tag, Positional(tag), num + rest);
      VarintIsRead(num, Positional(num), rest);
    case Delimited(tag, len, body) =>
      assert Flat(p) + rest == tag + (len + (body + rest));
      VarintIsRead(tag, Positional(tag), len + (body + rest));
      VarintIsRead(len, |body|, body + rest);
      assert (body + rest)[..|body|] == body && (body + rest)[|body|..] == rest;
  }

  lemma ReadIsPiece(schema: Schema, s: bytes) returns (p: Piece)
    requires ReadField(schema, s).Some?
    ensures Reads(schema, p) && s == Flat(p) + ReadField(schema, s).value.1
  {
    var tag := ReadIsVarint(s);
    var (t, rest) := ReadVarint(s).value;
    match KindOf(schema, t / 8)
    case Unknown => p := Stray(tag);
    case Number =>
      var num := ReadIsVarint(rest);
      p := Numeral(tag, num);
    case Record =>
      var len := ReadIsVarint(rest);
      var (n, rest') := ReadVarint(rest).value;
      p := Delimited(tag, len, rest'[..n]);
      assert rest' == rest'[..n] + rest'[n..];
  }

  lemma {:induction false} SplitIsDecoded<M>(schema: Schema, apply: (M, Field) -> Option<M>, ps: seq<Piece>, acc: M)
    requires forall p <- ps :: Reads(schema, p)
    ensures Decode(schema, apply, FlatAll(ps), acc) == Fold(apply, AllFields(ps), acc)
  {
    hide Reads, ReadField, FlatAll;
    if ps == [] {
      FlatNone();
    } else {
      FlatOne(ps);
      var fs, rest := FieldsOf(ps[0]), FlatAll(ps[1..]);
      PieceIsRead(schema, ps[0], rest);
      if fs == [] {
        assert AllFields(ps) == AllFields(ps[1..]);
        SplitIsDecoded(schema, apply, ps[1..], acc);
      } else {
        assert AllFields(ps)[1..] == AllFields(ps[1..]);
        match apply(acc, fs[0])
        case None =>
        case Some(acc') => SplitIsDecoded(schema, apply, ps[1..], acc');
      }
    }
  }

  lemma FlatNone()
    ensures FlatAll([]) == []
  {
  }

  lemma FlatOne(ps: seq<Piece>)
    requires ps != []
    ensures FlatAll(ps) == Flat(ps[0]) + FlatAll(ps[1..])
  {
  }

  lemma {:induction false} DecodedIsSplit<M>(schema: Schema, apply: (M, Field) -> Option<M>, s: bytes, acc: M) returns (ps: seq<Piece>)
    requires Decode(schema, apply, s, acc).Some?
    ensures Splits(schema, ps, s)
    decreases |s|
  {
    hide Reads, ReadField, Flat;
    if s == [] {
      ps := [];
    } else {
      var p := ReadIsPiece(schema, s);
      var (turn, rest) := ReadField(schema, s).value;
      var acc' := if turn.Got? then apply(acc, turn.field).value else acc;
      var qs := DecodedIsSplit(schema, apply, rest, acc');
      ps := [p] + qs;
      assert ps[1..] == qs;
    }
  }

  /** A decoder succeeds on just those bytes that are a row of pieces, each of the
      kind that the number in its tag calls for, and whose fields its switch takes;
      and then it has taken all of these, in their order. */
  lemma DecodesExactly<M>(schema: Schema, apply: (M, Field) -> Option<M>, s: bytes, acc: M, m: M)
    ensures Decode(schema, apply, s, acc) == Some(m) <==>
            exists ps :: Splits(schema, ps, s) && Fold(apply, AllFields(ps), acc) == Some(m)
  {
    hide Fold, AllFields, Decode;
    if Decode(schema, apply, s, acc) == Some(m) {
      var ps := DecodedIsSplit(schema, apply, s, acc);
      SplitIsDecoded(schema, apply, ps, acc);
      assert Splits(schema, ps, s) && Fold(apply, AllFields(ps), acc) == Some(m);
    }
    if ps :| Splits(schema, ps, s) && Fold(apply, AllFields(ps), acc) == Some(m) {
      SplitIsDecoded(schema, apply, ps, acc);
    }
  }

  // ------------------------------------------------------------- messages

  /** The last number that came under `no`, or the default. */
  function LastNum(fs: seq<Field>, no: nat, default: nat): (n: nat) {
    if fs == [] then default
    else match fs[|fs| - 1]
         case Field(k, Num(n)) => if k == no then n else LastNum(fs[..|fs| - 1], no, default)
         case _ => LastNum(fs[..|fs| - 1], no, default)
  }

  /** All numbers that came under `no`, in order. */
  function Nums(fs: seq<Field>, no: nat): (ns: seq<nat>) {
    if fs == [] then []
    else match fs[|fs| - 1]
         case Field(k, Num(n)) => if k == no then Nums(fs[..|fs| - 1], no) + [n] else Nums(fs[..|fs| - 1], no)
         case _ => Nums(fs[..|fs| - 1], no)
  }

  /** All records that came under `no`, in order. */
  function Blobs(fs: seq<Field>, no: nat): (bs: seq<bytes>) {
    if fs == [] then []
    else match fs[|fs| - 1]
         case Field(k, Blob(b)) => if k == no then Blobs(fs[..|fs| - 1], no) + [b] else Blobs(fs[..|fs| - 1], no)
         case _ => Blobs(fs[..|fs| - 1], no)
  }

  function LastOf<X>(xs: seq<X>, default: X): (x: X) {
    if xs == [] then default else xs[|xs| - 1]
  }

  ghost predicate AllFit(schema: Schema, fs: seq<Field>) {
    forall f <- fs :: Fits(schema, f)
  }

  lemma {:induction false} FieldsFit(schema: Schema, ps: seq<Piece>)
    requires forall p <- ps :: Reads(schema, p)
    ensures AllFit(schema, AllFields(ps))
  {
    if ps != [] {
      FieldsFit(schema, ps[1..]);
      assert Reads(schema, ps[0]);
      assert forall f <- FieldsOf(ps[0]) :: Fits(schema, f);
    }
  }

  lemma {:induction false} FoldLast<M>(apply: (M, Field) -> Option<M>, fs: seq<Field>, acc: M)
    requires fs != []
    ensures Fold(apply, fs, acc) ==
            match Fold(apply, fs[..|fs| - 1], acc) case None => None case Some(m) => apply(m, fs[|fs| - 1])
  {
    if |fs| == 1 {
      assert fs[1..] == [] && fs[..0] == [];
    } else if apply(acc, fs[0]).Some? {
      assert fs[1..][..|fs| - 2] == fs[..|fs| - 1][1..];
      FoldLast(apply, fs[1..], apply(acc, fs[0]).value);
    }
  }

  // each switch, on any fields that fit its schema

  lemma {:induction false} CidFold(fs: seq<Field>)
    requires AllFit(Cids.SCHEMA, fs)
    ensures Fold(Cids.Apply, fs, Cids.Cid(0, 0, [])) ==
            Some(Cids.Cid(S32(LastNum(fs, 1, 0)), S8(LastNum(fs, 2, 0)), LastOf(Blobs(fs, 3), [])))
  {
    if fs != [] {
      CidFold(fs[..|fs| - 1]);
      FoldLast(Cids.Apply, fs, Cids.Cid(0, 0, []));
    }
  }

  /** All of them decoded, or none if one does not decode. */
  function All<X>(dec: bytes -> Option<X>, bs: seq<bytes>): (xs: Option<seq<X>>) {
    if bs == [] then Some([])
    else match (All(dec, bs[..|bs| - 1]), dec(bs[|bs| - 1]))
         case (Some(xs), Some(x)) => Some(xs + [x])
         case _ => None
  }

  /** Those that decode. */
  function Decodable<X>(dec: bytes -> Option<X>, bs: seq<bytes>): (xs: seq<X>) {
    if bs == [] then []
    else match dec(bs[|bs| - 1])
         case None => Decodable(dec, bs[..|bs| - 1])
         case Some(x) => Decodable(dec, bs[..|bs| - 1]) + [x]
  }

  lemma AllMore<X>(dec: bytes -> Option<X>, bs: seq<bytes>, b: bytes)
    ensures All(dec, bs + [b]) ==
            match (All(dec, bs), dec(b)) case (Some(xs), Some(x)) => Some(xs + [x]) case _ => None
    ensures Decodable(dec, bs + [b]) == match dec(b) case None => Decodable(dec, bs) case Some(x) => Decodable(dec, bs) + [x]
  {
    assert (bs + [b])[..|bs|] == bs;
  }

  lemma {:induction false} BlockFold(fs: seq<Field>)
    requires AllFit(Blocks.SCHEMA, fs)
    ensures Fold(Blocks.Apply, fs, Blocks.Block(None, [])) ==
            match All(Cids.Decode, Blobs(fs, 2))
            case None => None
            case Some(cids) => Some(Blocks.Block(LastOf(cids, None), LastOf(Blobs(fs, 1), [])))
  {
    hide Cids.Decode, All, Decodable;
    if fs == [] {
      AllNone(Cids.Decode);
    } else {
      var init, f := fs[..|fs| - 1], fs[|fs| - 1];
      assert Fits(Blocks.SCHEMA, f);
      BlockFold(init);
      FoldLast(Blocks.Apply, fs, Blocks.Block(None, []));
      if f.no == 2 { AllMore(Cids.Decode, Blobs(init, 2), f.value.b); }
    }
  }

  lemma AllNone<X>(dec: bytes -> Option<X>)
    ensures All(dec, []) == Some([]) && Decodable(dec, []) == []
  {
  }

  lemma {:induction false} UnixFsFold(fs: seq<Field>)
    requires AllFit(UnixFiles.SCHEMA, fs)
    ensures Fold(UnixFiles.Apply, fs, UnixFiles.EMPTY) ==
            Some(UnixFiles.UnixFs(LastNum(fs, 1, 0) % 0x1_0000_0000, LastOf(Blobs(fs, 2), []), LastNum(fs, 3, 0), Nums(fs, 4)))
  {
    if fs != [] {
      UnixFsFold(fs[..|fs| - 1]);
      FoldLast(UnixFiles.Apply, fs, UnixFiles.EMPTY);
    }
  }

  /** A hash without its two leading bytes; a shorter record is refused. */
  function HashOf(b: bytes): (h: Option<bytes>) {
    if |b| < 2 then None else Some(b[2..])
  }

  lemma {:induction false} LinkFold(fs: seq<Field>)
    requires AllFit(LINK_SCHEMA, fs)
    ensures Fold(ApplyLink, fs, NO_LINK) ==
            match All(HashOf, Blobs(fs, 1))
            case None => None
            case Some(hashes) =>
              var names := Blobs(fs, 2);
              Some(NodeLink(LastOf(hashes, []), if names == [] then None else Some(LastOf(names, [])), LastNum(fs, 3, 0)))
  {
    hide All, Decodable;
    if fs == [] {
      AllNone(HashOf);
    } else {
      var init, f := fs[..|fs| - 1], fs[|fs| - 1];
      assert Fits(LINK_SCHEMA, f);
      LinkFold(init);
      FoldLast(ApplyLink, fs, NO_LINK);
      if f.no == 1 { AllMore(HashOf, Blobs(init, 1), f.value.b); }
    }
  }

  lemma {:induction false} NodeFold(fs: seq<Field>)
    requires AllFit(NODE_SCHEMA, fs)
    ensures Fold(ApplyNode, fs, Node([], [])) == Some(Node(LastOf(Blobs(fs, 1), []), Decodable(DecodeLink, Blobs(fs, 2))))
  {
    hide DecodeLink, All, Decodable;
    if fs == [] {
      AllNone(DecodeLink);
    } else {
      var init, f := fs[..|fs| - 1], fs[|fs| - 1];
      assert Fits(NODE_SCHEMA, f);
      NodeFold(init);
      FoldLast(ApplyNode, fs, Node([], []));
      if f.no == 2 { AllMore(DecodeLink, Blobs(init, 2), f.value.b); }
    }
  }

  lemma {:induction false} EntryFold(fs: seq<Field>)
    requires AllFit(Messages.ENTRY_SCHEMA, fs)
    ensures Fold(Messages.ApplyEntry, fs, Messages.NO_ENTRY) ==
            Some(Messages.WantlistEntry(LastOf(Blobs(fs, 1), []), LastNum(fs, 2, 0) % 0x100, LastNum(fs, 3, 0) % 0x1_0000_0000))
  {
    if fs != [] {
      EntryFold(fs[..|fs| - 1]);
      FoldLast(Messages.ApplyEntry, fs, Messages.NO_ENTRY);
    }
  }

  function NoneIfEmpty<X>(xs: seq<X>): (r: Option<seq<X>>) {
    if xs == [] then None else Some(xs)
  }

  lemma {:induction false} WantlistFold(fs: seq<Field>)
    requires AllFit(Messages.WANTLIST_SCHEMA, fs)
    ensures Fold(Messages.ApplyWantlist, fs, Messages.NEW_WANTLIST) ==
            match All(Messages.DecodeEntry, Blobs(fs, 1))
            case None => None
            case Some(es) => Some(Messages.Wantlist(NoneIfEmpty(es), LastNum(fs, 2, 1) % 0x100))
  {
    hide Messages.DecodeEntry, All, Decodable;
    if fs == [] {
      AllNone(Messages.DecodeEntry);
    } else {
      var init, f := fs[..|fs| - 1], fs[|fs| - 1];
      assert Fits(Messages.WANTLIST_SCHEMA, f);
      WantlistFold(init);
      FoldLast(Messages.ApplyWantlist, fs, Messages.NEW_WANTLIST);
      if f.no == 1 { AllMore(Messages.DecodeEntry, Blobs(init, 1), f.value.b); }
    }
  }

  function Bare(b: bytes): (r: Option<Blocks.Block>) {
    Some(Blocks.Block(None, b))
  }

  lemma {:induction false} MessageFold(fs: seq<Field>)
    requires AllFit(Messages.MESSAGE_SCHEMA, fs)
    ensures Fold(Messages.ApplyMessage, fs, Messages.NEW_MESSAGE) ==
            match (All(Blocks.Decode, Blobs(fs, 2)), All(Messages.DecodeWantlist, Blobs(fs, 3)))
            case (Some(payload), Some(ws)) =>
              Some(Messages.Message(NoneIfEmpty(Decodable(Bare, Blobs(fs, 1))), NoneIfEmpty(payload), LastOf(ws, None)))
            case _ => None
  {
    hide Blocks.Decode, Messages.DecodeWantlist, All, Decodable;
    if fs == [] {
      AllNone(Blocks.Decode);
      AllNone(Messages.DecodeWantlist);
      AllNone(Bare);
    } else {
      var init, f := fs[..|fs| - 1], fs[|fs| - 1];
      assert Fits(Messages.MESSAGE_SCHEMA, f);
      MessageFold(init);
      FoldLast(Messages.ApplyMessage, fs, Messages.NEW_MESSAGE);
      if f.no == 1 { AllMore(Bare, Blobs(init, 1), f.value.b); }
      if f.no == 2 { AllMore(Blocks.Decode, Blobs(init, 2), f.value.b); }
      if f.no == 3 { AllMore(Messages.DecodeWantlist, Blobs(init, 3), f.value.b); }
    }
  }

  lemma {:induction false} JournalEntryFold(fs: seq<Field>)
    requires AllFit(Journals.ENTRY_SCHEMA, fs)
    ensures Fold(Journals.ApplyEntry, fs, Journals.Progress(Journals.NEW_ENTRY, false)) ==
            Some(Journals.Progress(Journals.Entry(LastNum(fs, 1, 0), if LastNum(fs, 3, 0) == 1 then 1 else 0, LastOf(Blobs(fs, 2), [])),
                                   fs != []))
  {
    if fs != [] {
      JournalEntryFold(fs[..|fs| - 1]);
      FoldLast(Journals.ApplyEntry, fs, Journals.Progress(Journals.NEW_ENTRY, false));
      assert Fits(Journals.ENTRY_SCHEMA, fs[|fs| - 1]);
    }
  }

  lemma {:induction false} JournalFold(fs: seq<Field>)
    requires AllFit(Journals.SCHEMA, fs)
    ensures Fold(Journals.Apply, fs, Journals.Progress(Journals.NEW_JOURNAL, false)) ==
            match All(Journals.DecodeEntry, Blobs(fs, 4))
            case None => None
            case Some(es) =>
              Some(Journals.Progress(Journals.Journal(LastNum(fs, 1, 0), LastNum(fs, 2, 0), LastNum(fs, 3, 0), es), fs != []))
  {
    hide Journals.DecodeEntry, All, Decodable;
    if fs == [] {
      AllNone(Journals.DecodeEntry);
    } else {
      var init, f := fs[..|fs| - 1], fs[|fs| - 1];
      assert Fits(Journals.SCHEMA, f);
      JournalFold(init);
      FoldLast(Journals.Apply, fs, Journals.Progress(Journals.NEW_JOURNAL, false));
      if f.no == 4 { AllMore(Journals.DecodeEntry, Blobs(init, 4), f.value.b); }
    }
  }

  // each decoder, on any bytes that split into pieces

  lemma Whole<M>(schema: Schema, apply: (M, Field) -> Option<M>, ps: seq<Piece>, acc: M)
    requires forall p <- ps :: Reads(schema, p)
    ensures Decode(schema, apply, FlatAll(ps), acc) == Fold(apply, AllFields(ps), acc)
    ensures AllFit(schema, AllFields(ps)) && (FlatAll(ps) == [] <==> ps == [])
  {
    SplitIsDecoded(schema, apply, ps, acc);
    FieldsFit(schema, ps);
    if ps != [] { assert Reads(schema, ps[0]); }
  }

  lemma CidReads(ps: seq<Piece>)
    requires forall p <- ps :: Reads(Cids.SCHEMA, p)
    ensures var fs := AllFields(ps);
      Cids.Decode(FlatAll(ps)) ==
      Some(if ps == [] then None else Some(Cids.Cid(S32(LastNum(fs, 1, 0)), S8(LastNum(fs, 2, 0)), LastOf(Blobs(fs, 3), []))))
  {
    hide FlatAll, AllFields, Reads, Fold, Wire.Decode;
    Whole(Cids.SCHEMA, Cids.Apply, ps, Cids.Cid(0, 0, []));
    CidFold(AllFields(ps));
  }

  lemma BlockReads(ps: seq<Piece>)
    requires forall p <- ps :: Reads(Blocks.SCHEMA, p)
    ensures var fs := AllFields(ps);
      Blocks.Decode(FlatAll(ps)) ==
      match All(Cids.Decode, Blobs(fs, 2))
      case None => None
      case Some(cids) => Some(Blocks.Block(LastOf(cids, None), LastOf(Blobs(fs, 1), [])))
  {
    hide FlatAll, AllFields, Reads, Fold, Wire.Decode, Cids.Decode;
    Whole(Blocks.SCHEMA, Blocks.Apply, ps, Blocks.Block(None, []));
    BlockFold(AllFields(ps));
  }

  lemma UnixFsReads(ps: seq<Piece>)
    requires forall p <- ps :: Reads(UnixFiles.SCHEMA, p)
    ensures var fs := AllFields(ps);
      UnixFiles.Decode(FlatAll(ps)) ==
      if ps == [] then None
      else Some(UnixFiles.UnixFs(LastNum(fs, 1, 0) % 0x1_0000_0000, LastOf(Blobs(fs, 2), []), LastNum(fs, 3, 0), Nums(fs, 4)))
  {
    hide FlatAll, AllFields, Reads, Fold, Wire.Decode;
    Whole(UnixFiles.SCHEMA, UnixFiles.Apply, ps, UnixFiles.EMPTY);
    UnixFsFold(AllFields(ps));
  }

  /** A link whose record is refused is left out of the node. */
  lemma NodeReads(ps: seq<Piece>)
    requires forall p <- ps :: Reads(NODE_SCHEMA, p)
    ensures var fs := AllFields(ps);
      DecodeNode(FlatAll(ps)) ==
      if ps == [] then None else Some(Node(LastOf(Blobs(fs, 1), []), Decodable(DecodeLink, Blobs(fs, 2))))
  {
    hide FlatAll, AllFields, Reads, Fold, Wire.Decode, DecodeLink;
    Whole(NODE_SCHEMA, ApplyNode, ps, Node([], []));
    NodeFold(AllFields(ps));
  }

  lemma LinkReads(ps: seq<Piece>)
    requires forall p <- ps :: Reads(LINK_SCHEMA, p)
    ensures var fs := AllFields(ps);
      DecodeLink(FlatAll(ps)) ==
      match All(HashOf, Blobs(fs, 1))
      case None => None
      case Some(hashes) =>
        var names := Blobs(fs, 2);
        Some(NodeLink(LastOf(hashes, []), if names == [] then None else Some(LastOf(names, [])), LastNum(fs, 3, 0)))
  {
    hide FlatAll, AllFields, Reads, Fold, Wire.Decode;
    Whole(LINK_SCHEMA, ApplyLink, ps, NO_LINK);
    LinkFold(AllFields(ps));
  }

  lemma EntryReads(ps: seq<Piece>)
    requires forall p <- ps :: Reads(Messages.ENTRY_SCHEMA, p)
    ensures var fs := AllFields(ps);
      Messages.DecodeEntry(FlatAll(ps)) ==
      if ps == [] then None
      else Some(Messages.WantlistEntry(LastOf(Blobs(fs, 1), []), LastNum(fs, 2, 0) % 0x100, LastNum(fs, 3, 0) % 0x1_0000_0000))
  {
    hide FlatAll, AllFields, Reads, Fold, Wire.Decode;
    Whole(Messages.ENTRY_SCHEMA, Messages.ApplyEntry, ps, Messages.NO_ENTRY);
    EntryFold(AllFields(ps));
  }

  lemma WantlistReads(ps: seq<Piece>)
    requires forall p <- ps :: Reads(Messages.WANTLIST_SCHEMA, p)
    ensures var fs := AllFields(ps);
      Messages.DecodeWantlist(FlatAll(ps)) ==
      if ps == [] then Some(None)
      else match All(Messages.DecodeEntry, Blobs(fs, 1))
           case None => None
           case Some(es) => Some(Some(Messages.Wantlist(NoneIfEmpty(es), LastNum(fs, 2, 1) % 0x100)))
  {
    hide FlatAll, AllFields, Reads, Fold, Wire.Decode, Messages.DecodeEntry;
    Whole(Messages.WANTLIST_SCHEMA, Messages.ApplyWantlist, ps, Messages.NEW_WANTLIST);
    WantlistFold(AllFields(ps));
  }

  lemma MessageReads(ps: seq<Piece>)
    requires forall p <- ps :: Reads(Messages.MESSAGE_SCHEMA, p)
    ensures var fs := AllFields(ps);
      Messages.Decode(FlatAll(ps)) ==
      if ps == [] then Some(None)
      else match (All(Blocks.Decode, Blobs(fs, 2)), All(Messages.DecodeWantlist, Blobs(fs, 3)))
           case (Some(payload), Some(ws)) =>
             Some(Some(Messages.Message(NoneIfEmpty(Decodable(Bare, Blobs(fs, 1))), NoneIfEmpty(payload), LastOf(ws, None))))
           case _ => None
  {
    hide FlatAll, AllFields, Reads, Fold, Wire.Decode, Blocks.Decode, Messages.DecodeWantlist;
    Whole(Messages.MESSAGE_SCHEMA, Messages.ApplyMessage, ps, Messages.NEW_MESSAGE);
    MessageFold(AllFields(ps));
  }

  /** Bytes without a field that the switch knows are no entry. */
  lemma JournalEntryReads(ps: seq<Piece>)
    requires forall p <- ps :: Reads(Journals.ENTRY_SCHEMA, p)
    ensures var fs := AllFields(ps);
      Journals.DecodeEntry(FlatAll(ps)) ==
      if fs == [] then None
      else Some(Journals.Entry(LastNum(fs, 1, 0), if LastNum(fs, 3, 0) == 1 then 1 else 0, LastOf(Blobs(fs, 2), [])))
  {
    hide FlatAll, AllFields, Reads, Fold, Wire.Decode;
    Whole(Journals.ENTRY_SCHEMA, Journals.ApplyEntry, ps, Journals.Progress(Journals.NEW_ENTRY, false));
    JournalEntryFold(AllFields(ps));
  }

  lemma JournalReads(ps: seq<Piece>)
    requires forall p <- ps :: Reads(Journals.SCHEMA, p)
    ensures var fs := AllFields(ps);
      Journals.Decode(FlatAll(ps)) ==
      match All(Journals.DecodeEntry, Blobs(fs, 4))
      case None => None
      case Some(es) =>
        if fs == [] then None else Some(Journals.Journal(LastNum(fs, 1, 0), LastNum(fs, 2, 0), LastNum(fs, 3, 0), es))
  {
    hide FlatAll, AllFields, Reads, Fold, Wire.Decode, Journals.DecodeEntry;
    Whole(Journals.SCHEMA, Journals.Apply, ps, Journals.Progress(Journals.NEW_JOURNAL, false));
    JournalFold(AllFields(ps));
  }
}
