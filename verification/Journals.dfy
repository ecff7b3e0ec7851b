/** The replication journal: journal/journal_entry.c and journal/journal_message.c. */
module Journals {
  import opened Basics
  import opened Wire

  /** `timestamp` is 64 bits wide, `pin` a uint8_t. */
  datatype Entry = Entry(timestamp: nat, pin: nat, hash: bytes)

  datatype Journal = Journal(current: nat, start: nat, end: nat, entries: seq<Entry>)

  predicate IsU64(n: nat) {
    n < 0x1_0000_0000_0000_0000
  }

  /** Sizes are C ints here. */
  ghost predicate ValidEntry(e: Entry) {
    IsU64(e.timestamp) && e.pin < 0x100 && EntrySize(e) < 0x8000_0000
  }

  const ENTRY_SCHEMA: Schema := [Unknown, Number, Record, Number]

  function EntryFields(e: Entry): (fs: seq<Field>)
    ensures forall f <- fs :: Fits(ENTRY_SCHEMA, f)
  {
    [Field(1, Num(e.timestamp)), Field(2, Blob(e.hash)), Field(3, Num(e.pin))]
  }

  function EntryBytes(e: Entry): (r: bytes) {
    Wire.Encode(EntryFields(e))
  }

  function EntrySize(e: Entry): (r: nat) {
    |e.hash| + 11 + 1 + 11
  }

  lemma EntryLength(e: Entry)
    ensures |EntryBytes(e)| == 3 + |Varint(e.timestamp)| + |Varint(|e.hash|)| + |e.hash| + |Varint(e.pin)|
  {
    hide FieldBytes, Wire.Encode;
    var fs := EntryFields(e);
    EncodeThree(fs[0], fs[1], fs[2]);
    FieldLength(fs[0]);
    FieldLength(fs[1]);
    FieldLength(fs[2]);
  }

  /** An entry always fits its own estimate ... */
  lemma EntryBounds(e: Entry)
    requires ValidEntry(e)
    ensures 0 < |EntryBytes(e)| <= EntrySize(e)
  {
    hide EntryBytes;
    EntryLength(e);
    VarintBounds(e.timestamp);
    VarintBounds(|e.hash|);
    VarintBounds(e.pin);
  }

  /** ... but the message also puts a tag and a length around it, which the
      estimate does not count. By how much the entry then overruns its estimate is a
      matter of its three fields. */
  function Overrun(e: Entry): (o: int) {
    var lengths := Groups(e.timestamp) + Groups(|e.hash|) + Groups(e.pin);
    lengths + Groups(3 + lengths + |e.hash|) - 19
  }

  lemma WrappedLength(e: Entry)
    ensures |FieldBytes(EntryRecord(e))| == EntrySize(e) + Overrun(e)
  {
    hide EntryBytes, Varint, FieldBytes;
    EntryLength(e);
    FieldLength(EntryRecord(e));
    VarintGroups(e.timestamp);
    VarintGroups(|e.hash|);
    VarintGroups(e.pin);
    VarintGroups(|EntryBytes(e)|);
  }

  lemma OverrunBound(e: Entry)
    requires ValidEntry(e) && e.pin <= 1 && |e.hash| < 0x800_0000
    ensures Overrun(e) <= 0
  {
    var length := 3 + Groups(e.timestamp) + Groups(|e.hash|) + Groups(e.pin) + |e.hash|;
    GroupsBounds(e.timestamp);
    GroupsBounds(|e.hash|);
    GroupsBounds(e.pin);
    GroupsBounds(length);
  }

  lemma GroupsBounds(n: nat)
    ensures Groups(n) <= 1 <==> n < 0x80
    ensures Groups(n) <= 4 <==> n < 0x1000_0000
    ensures n < 0x1_0000_0000_0000_0000 ==> Groups(n) <= 10
  {
    VarintGroups(n);
    VarintBounds(n);
  }

  method EncodeEntry(e: Entry, out: OutBuffer) returns (ok: bool)
    requires out.Valid()
    modifies out, out.data
    ensures out.Valid()
    ensures ok <==> old(out.written) + |EntryBytes(e)| <= out.data.Length
    ensures ok ==> out.Contents() == old(out.Contents()) + EntryBytes(e)
  {
    ok := out.PutAll(EntryFields(e));
  }

  method SerializeEntry(e: Entry) returns (s: bytes)
    requires ValidEntry(e)
    ensures s == EntryBytes(e)
  {
    hide EntryBytes;
    var temp := new OutBuffer(EntrySize(e));
    EntryBounds(e);
    var ok := EncodeEntry(e, temp);
    s := temp.Result();
  }

  /** What a decoder has made so far, with its flag `got_something`. */
  datatype Progress<X> = Progress(made: X, gotSomething: bool)

  function ApplyEntry(s: Progress<Entry>, f: Field): (r: Option<Progress<Entry>>) {
    match f
    case Field(1, Num(n)) => Some(Progress(s.made.(timestamp := n), true))
    case Field(2, Blob(b)) => Some(Progress(s.made.(hash := b), true))
    case Field(3, Num(n)) => Some(Progress(s.made.(pin := if n == 1 then 1 else 0), true))
    case _ => Some(s)
  }

  const NEW_ENTRY := Entry(0, 0, [])

  function DecodeEntry(s: bytes): (r: Option<Entry>) {
    var r: Option<Progress<Entry>> := Wire.Decode(ENTRY_SCHEMA, ApplyEntry, s, Progress(NEW_ENTRY, false));
    match r
    case None => None
    case Some(Progress(e, got)) => if got then Some(e) else None
  }

  /** What the decoder makes of a pin. */
  function Pinned(e: Entry): (r: Entry) {
    e.(pin := if e.pin == 1 then 1 else 0)
  }

  lemma EntryRoundTrip(e: Entry)
    ensures DecodeEntry(EntryBytes(e)) == Some(Pinned(e))
  {
    hide Wire.Encode, Wire.Decode;
    var fs := EntryFields(e);
    DecodeEncoded(ENTRY_SCHEMA, ApplyEntry, fs, Progress(NEW_ENTRY, false));
    assert fs == [fs[0]] + ([fs[1]] + ([fs[2]] + []));
    FoldCons(ApplyEntry, fs[0], [fs[1]] + ([fs[2]] + []), Progress(NEW_ENTRY, false));
    var e1 := NEW_ENTRY.(timestamp := e.timestamp);
    FoldCons(ApplyEntry, fs[1], [fs[2]] + [], Progress(e1, true));
    FoldCons(ApplyEntry, fs[2], [], Progress(e1.(hash := e.hash), true));
  }

  // ----------------------------------------------------------------- messages

  const SCHEMA: Schema := [Unknown, Number, Number, Number, Record]

  function Epochs(j: Journal): (fs: seq<Field>)
    ensures forall f <- fs :: Fits(SCHEMA, f)
  {
    [Field(1, Num(j.current)), Field(2, Num(j.start)), Field(3, Num(j.end))]
  }

  function EntryRecord(e: Entry): (r: Field) {
    Field(4, Blob(EntryBytes(e)))
  }

  function EntryRecords(es: seq<Entry>): (fs: seq<Field>)
    ensures forall f <- fs :: Fits(SCHEMA, f)
  {
    Records(4, EntryBytes, es)
  }

  function JournalBytes(j: Journal): (r: bytes) {
    Wire.Encode(Epochs(j) + EntryRecords(j.entries))
  }

  function JournalSize(j: Journal): (r: nat) {
    33 + Sum(EntrySize, j.entries)
  }

  ghost predicate Valid(j: Journal) {
    IsU64(j.current) && IsU64(j.start) && IsU64(j.end) && forall e <- j.entries :: ValidEntry(e)
  }

  function Overruns(es: seq<Entry>): (r: int) {
    if es == [] then 0 else Overrun(es[0]) + Overruns(es[1..])
  }

  lemma {:induction false} RecordsLength(es: seq<Entry>)
    ensures |Wire.Encode(EntryRecords(es))| == Sum(EntrySize, es) + Overruns(es)
  {
    hide FieldBytes, Overrun, EntrySize, EntryBytes;
    if es != [] {
      WrappedLength(es[0]);
      RecordsLength(es[1..]);
      assert EntryRecords(es)[1..] == EntryRecords(es[1..]);
    }
  }

  /** The message fits its estimate exactly when what the entries overrun is
      made up for by what the three epochs leave of their 30 bytes. */
  lemma JournalFitsExactly(j: Journal)
    ensures |JournalBytes(j)| <= JournalSize(j) <==>
              Groups(j.current) + Groups(j.start) + Groups(j.end) + Overruns(j.entries) <= 30
  {
    hide FieldBytes, Wire.Encode, Varint;
    var fs := Epochs(j);
    EncodeConcat(fs, EntryRecords(j.entries));
    EncodeThree(fs[0], fs[1], fs[2]);
    FieldLength(fs[0]);
    FieldLength(fs[1]);
    FieldLength(fs[2]);
    VarintGroups(j.current);
    VarintGroups(j.start);
    VarintGroups(j.end);
    RecordsLength(j.entries);
  }

  lemma {:induction false} OverrunsBound(es: seq<Entry>)
    requires forall e <- es :: ValidEntry(e) && e.pin <= 1 && |e.hash| < 0x800_0000
    ensures Overruns(es) <= 0
  {
    hide Overrun, ValidEntry;
    if es != [] {
      OverrunBound(es[0]);
      OverrunsBound(es[1..]);
    }
  }

  /** With boolean pins and hashes below 2^27 bytes no message overruns. */
  lemma JournalBounds(j: Journal)
    requires Valid(j) && forall e <- j.entries :: e.pin <= 1 && |e.hash| < 0x800_0000
    ensures |JournalBytes(j)| <= JournalSize(j)
  {
    hide JournalBytes, ValidEntry;
    JournalFitsExactly(j);
    OverrunsBound(j.entries);
    GroupsBounds(j.current);
    GroupsBounds(j.start);
    GroupsBounds(j.end);
  }

  /** A valid message that does not fit: a pin that is not boolean, a 2 MB hash,
      and numbers that need all ten bytes. (journal/journal.c only ever makes entries
      with a pin of 1, at line 173; the pin is part of what the functions accept.) */
  lemma JournalCanOverrun()
    ensures exists j :: Valid(j) && |j.entries| == 1 && |j.entries[0].hash| == 0x20_0000
                        && |JournalBytes(j)| > JournalSize(j)
  {
    hide EntryBytes, JournalBytes;
    var big := 0x8000_0000_0000_0000;
    var e := Entry(big, 200, seq(0x20_0000, _ => 0));
    var j := Journal(big, big, big, [e]);
    TenGroups(big);
    GroupsBounds(200);
    FourGroups(|e.hash|);
    FourGroups(3 + Groups(big) + Groups(|e.hash|) + Groups(200) + |e.hash|);
    assert Overruns(j.entries) == Overrun(e) + Overruns(j.entries[1..]);
    JournalFitsExactly(j);
    assert ValidEntry(e);
    assert Valid(j);
  }

  lemma FourGroups(n: nat)
    requires n >= 0x20_0000
    ensures Groups(n) >= 4
  {
    VarintLength(n, 3);
    VarintGroups(n);
    assert Pow128(3) == 0x20_0000;
  }

  lemma TenGroups(n: nat)
    requires n >= 0x8000_0000_0000_0000
    ensures Groups(n) >= 10
  {
    VarintLength(n, 9);
    VarintGroups(n);
    assert Pow128(9) == 128 * Pow128(8) == 128 * (128 * Pow128(7));
    assert Pow128(7) == 128 * Pow128(6) == 128 * (128 * Pow128(5));
    assert Pow128(5) == 128 * Pow128(4) == 128 * (128 * Pow128(3));
  }

  method PutEntries(es: seq<Entry>, out: OutBuffer) returns (ok: bool)
    requires out.Valid() && forall e <- es :: ValidEntry(e)
    modifies out, out.data
    ensures out.Valid()
    ensures ok <==> old(out.written) + |Wire.Encode(EntryRecords(es))| <= out.data.Length
    ensures ok ==> out.Contents() == old(out.Contents()) + Wire.Encode(EntryRecords(es))
  {
    hide FieldBytes, Wire.Encode, EntryBytes, ValidEntry;
    ghost var fs := EntryRecords(es);
    EncodeUpToAll(fs);
    for i := 0 to |es|
      invariant out.Valid()
      invariant out.Contents() == old(out.Contents()) + EncodeUpTo(fs, i)
    {
      EncodeUpToGrows(fs, i + 1, |fs|);
      var temp := SerializeEntry(es[i]);
      ok := out.Put(Field(4, Blob(temp)));
      if !ok { return; }
    }
    ok := true;
  }

  /** Fails exactly when the buffer is too short. */
  method Encode(j: Journal, out: OutBuffer) returns (ok: bool)
    requires Valid(j) && out.Valid()
    modifies out, out.data
    ensures out.Valid()
    ensures ok <==> old(out.written) + |JournalBytes(j)| <= out.data.Length
    ensures ok ==> out.Contents() == old(out.Contents()) + JournalBytes(j)
  {
    hide FieldBytes, Wire.Encode, Epochs, EntryRecords, ValidEntry;
    EncodeConcat(Epochs(j), EntryRecords(j.entries));
    ok := out.PutAll(Epochs(j));
    if !ok { return; }
    ok := PutEntries(j.entries, out);
  }

  function Apply(s: Progress<Journal>, f: Field): (r: Option<Progress<Journal>>) {
    match f
    case Field(1, Num(n)) => Some(Progress(s.made.(current := n), true))
    case Field(2, Num(n)) => Some(Progress(s.made.(start := n), true))
    case Field(3, Num(n)) => Some(Progress(s.made.(end := n), true))
    case Field(4, Blob(b)) =>
      (match DecodeEntry(b)
       case None => None
       case Some(e) => Some(Progress(s.made.(entries := s.made.entries + [e]), true)))
    case _ => Some(s)
  }

  const NEW_JOURNAL := Journal(0, 0, 0, [])

  function Decode(s: bytes): (r: Option<Journal>) {
    var r: Option<Progress<Journal>> := Wire.Decode(SCHEMA, Apply, s, Progress(NEW_JOURNAL, false));
    match r
    case None => None
    case Some(Progress(j, got)) => if got then Some(j) else None
  }

  method RunDecode(s: bytes) returns (r: Option<Journal>)
    ensures r == Decode(s)
  {
    var x := RunDecoder(SCHEMA, Apply, s, Progress(NEW_JOURNAL, false));
    if x.None? || !x.value.gotSomething { return None; }
    return Some(x.value.made);
  }

  function PinnedAll(es: seq<Entry>): (r: seq<Entry>)
    ensures |r| == |es|
    ensures forall i :: 0 <= i < |es| ==> r[i] == Pinned(es[i])
  {
    if es == [] then [] else [Pinned(es[0])] + PinnedAll(es[1..])
  }

  function StepEntry(s: Progress<Journal>, e: Entry): (r: Progress<Journal>) {
    Progress(s.made.(entries := s.made.entries + [Pinned(e)]), true)
  }

  lemma {:induction false} EntriesBack(es: seq<Entry>, j: Journal)
    ensures FoldLeft(StepEntry, es, Progress(j, true)) == Progress(j.(entries := j.entries + PinnedAll(es)), true)
  {
    if es == [] {
      assert j.entries + PinnedAll(es) == j.entries;
    } else {
      EntriesBack(es[1..], StepEntry(Progress(j, true), es[0]).made);
      AppendStep(j.entries, Pinned(es[0]), PinnedAll(es[1..]));
    }
  }

  lemma EpochsBack(j: Journal)
    ensures Fold(Apply, Epochs(j), Progress(NEW_JOURNAL, false)) == Some(Progress(j.(entries := []), true))
  {
    hide DecodeEntry;
    var fs := Epochs(j);
    assert fs == [fs[0]] + ([fs[1]] + ([fs[2]] + []));
    FoldCons(Apply, fs[0], [fs[1]] + ([fs[2]] + []), Progress(NEW_JOURNAL, false));
    var j1 := NEW_JOURNAL.(current := j.current);
    FoldCons(Apply, fs[1], [fs[2]] + [], Progress(j1, true));
    FoldCons(Apply, fs[2], [], Progress(j1.(start := j.start), true));
  }

  lemma RoundTrip(j: Journal)
    ensures Decode(JournalBytes(j)) == Some(j.(entries := PinnedAll(j.entries)))
  {
    hide Wire.Encode, Wire.Decode, DecodeEntry, EntryBytes;
    DecodeEncoded(SCHEMA, Apply, Epochs(j) + EntryRecords(j.entries), Progress(NEW_JOURNAL, false));
    EpochsBack(j);
    forall s: Progress<Journal>, e | e in j.entries
      ensures Apply(s, Field(4, Blob(EntryBytes(e)))) == Some(StepEntry(s, e))
    {
      EntryRoundTrip(e);
    }
    RecordsBack(Apply, 4, EntryBytes, StepEntry, j.entries, Progress(j.(entries := []), true));
    EntriesBack(j.entries, j.(entries := []));
    FoldConcat(Apply, Epochs(j), EntryRecords(j.entries), Progress(NEW_JOURNAL, false));
    assert [] + PinnedAll(j.entries) == PinnedAll(j.entries);
  }

  /** The journal comes back unchanged exactly when every pin is 0 or 1. */
  lemma RoundTripExact(j: Journal)
    ensures Decode(JournalBytes(j)) == Some(j) <==> forall e <- j.entries :: e.pin <= 1
  {
    hide JournalBytes, Decode;
    RoundTrip(j);
    if forall e <- j.entries :: e.pin <= 1 {
      assert PinnedAll(j.entries) == j.entries;
    } else {
      var i :| 0 <= i < |j.entries| && j.entries[i].pin > 1;
      assert PinnedAll(j.entries)[i] != j.entries[i];
    }
  }
}
