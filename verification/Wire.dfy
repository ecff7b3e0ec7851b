/** The Protocol Buffers wire format ("Base 128 Varints" and "Length-Delimited
    Records" of the public Encoding document) on which every message of the
    repository is built, the output buffer its encoders fill, and the field loop
    that all its decoders share. */
module Wire {
  import opened Basics

  lemma AppendStep<T>(done: seq<T>, x: T, rest: seq<T>)
    ensures (done + [x]) + rest == done + ([x] + rest)
  {
  }

  // ------------------------------------------------------------------ varints

  /** Seven bits a byte, least significant group first; every byte but the last
      has its top bit set. */
  function Varint(n: nat): (s: bytes)
    ensures |s| >= 1
  {
    if n < 128 then [n] else [128 + n % 128] + Varint(n / 128)
  }

  function ReadVarint(s: bytes): (r: Option<(nat, bytes)>)
    ensures r.Some? ==> |r.value.1| < |s|
  {
    if s == [] then None
    else if s[0] < 128 then Some((s[0], s[1..]))
    else match ReadVarint(s[1..])
         case None => None
         case Some((m, rest)) => Some((s[0] - 128 + 128 * m, rest))
  }

  lemma {:induction false} ReadVarintBack(n: nat, rest: bytes)
    ensures ReadVarint(Varint(n) + rest) == Some((n, rest))
  {
    if n < 128 {
      assert (Varint(n) + rest)[1..] == rest;
    } else {
      ReadVarintBack(n / 128, rest);
      VarintSplits(n, rest);
      hide Varint;
      var low, high := n % 128, n / 128;
      assert low + 128 * high == n;
    }
  }

  lemma VarintSplits(n: nat, rest: bytes)
    requires n >= 128
    ensures var s := Varint(n) + rest; s[0] == 128 + n % 128 && s[1..] == Varint(n / 128) + rest
  {
    var low: byte, high := 128 + n % 128, Varint(n / 128);
    assert Varint(n) == [low] + high;
    hide Varint;
    HeadAndTail(low, high, rest);
  }

  lemma HeadAndTail(head: byte, tail: bytes, rest: bytes)
    ensures var s := [head] + tail + rest; s[0] == head && s[1..] == tail + rest
  {
  }

  /** How many groups of seven bits a number has. */
  function Groups(n: nat): (k: nat)
    ensures k >= 1
  {
    if n < 128 then 1 else 1 + Groups(n / 128)
  }

  lemma {:induction false} VarintGroups(n: nat)
    ensures |Varint(n)| == Groups(n)
  {
    if n >= 128 { VarintGroups(n / 128); }
  }

  function Pow128(k: nat): (p: nat)
    ensures p >= 1
  {
    if k == 0 then 1 else 128 * Pow128(k - 1)
  }

  /** k bytes hold exactly the numbers below 128^k. */
  lemma {:induction false} VarintLength(n: nat, k: nat)
    requires k >= 1
    ensures |Varint(n)| <= k <==> n < Pow128(k)
  {
    if n >= 128 && k > 1 {
      VarintLength(n / 128, k - 1);
    }
  }

  /** The bounds that the size estimates rest on: one byte below 2^7, two below
      2^14, ..., five for 32 bits, six for 2^42, ten for 64 bits. */
  lemma VarintBounds(n: nat)
    ensures |Varint(n)| <= 1 <==> n < 0x80
    ensures |Varint(n)| <= 2 <==> n < 0x4000
    ensures |Varint(n)| <= 4 <==> n < 0x1000_0000
    ensures |Varint(n)| <= 5 <==> n < 0x8_0000_0000
    ensures |Varint(n)| <= 6 <==> n < 0x400_0000_0000
    ensures n < 0x1_0000_0000_0000_0000 ==> |Varint(n)| <= 10
  {
    VarintLength(n, 1);
    VarintLength(n, 2);
    VarintLength(n, 4);
    VarintLength(n, 5);
    VarintLength(n, 6);
    VarintLength(n, 10);
    assert Pow128(2) == 0x4000;
    assert Pow128(4) == 128 * (128 * Pow128(2));
    assert Pow128(6) == 128 * Pow128(5) == 128 * (128 * Pow128(4));
    assert Pow128(10) == 128 * Pow128(9) == 128 * (128 * Pow128(8));
    assert Pow128(8) == 128 * Pow128(7) == 128 * (128 * Pow128(6));
  }

  // ------------------------------------------------------- the C integer types

  /** A C int widened to unsigned long long. */
  function U64(v: int): (n: nat)
    ensures 0 <= n < 0x1_0000_0000_0000_0000
    ensures v >= 0 && v < 0x1_0000_0000_0000_0000 ==> n == v
  {
    v % 0x1_0000_0000_0000_0000
  }

  /** An unsigned long long narrowed to int. */
  function S32(n: nat): (v: int)
    ensures -0x8000_0000 <= v < 0x8000_0000
  {
    var m := n % 0x1_0000_0000;
    if m < 0x8000_0000 then m else m - 0x1_0000_0000
  }

  /** An unsigned long long narrowed to a signed char. */
  function S8(n: nat): (v: int)
    ensures -0x80 <= v < 0x80
  {
    var m := n % 0x100;
    if m < 0x80 then m else m - 0x100
  }

  lemma S32Back(v: int)
    requires -0x8000_0000 <= v < 0x8000_0000
    ensures S32(U64(v)) == v
  {
  }

  /** A number survives the trip through a signed char exactly when it is one. */
  lemma S8Back(v: int)
    requires -0x8000_0000 <= v < 0x8000_0000
    ensures S8(U64(v)) == v <==> -0x80 <= v < 0x80
  {
  }

  // ------------------------------------------------------------------- fields

  datatype Value = Num(n: nat) | Blob(b: bytes)

  datatype Field = Field(no: nat, value: Value)

  /** Wire types: 0 for a varint, 2 for a length-delimited record. */
  function WireType(v: Value): (r: nat) {
    match v
    case Num(_) => 0
    case Blob(_) => 2
  }

  function FieldBytes(f: Field): (s: bytes)
    ensures |s| >= 1
  {
    Varint(f.no * 8 + WireType(f.value)) +
    match f.value
    case Num(n) => Varint(n)
    case Blob(b) => Varint(|b|) + b
  }

  /** How a decoder's `switch (field_no)` reads the payload of each field. */
  datatype Kind = Number | Record | Unknown

  type Schema = seq<Kind>

  function KindOf(schema: Schema, no: nat): (r: Kind) {
    if no < |schema| then schema[no] else Unknown
  }

  predicate Fits(schema: Schema, f: Field) {
    KindOf(schema, f.no) == if f.value.Num? then Number else Record
  }

  /** One turn of a decoder's loop: the tag, then the payload that the field's
      number calls for. A number outside the switch consumes its tag only. */
  datatype Turn = Got(field: Field) | Skip

  function ReadField(schema: Schema, s: bytes): (r: Option<(Turn, bytes)>)
    ensures r.Some? ==> |r.value.1| < |s|
  {
    match ReadVarint(s)
    case None => None
    case Some((tag, rest)) =>
      match KindOf(schema, tag / 8)
      case Unknown => Some((Skip, rest))
      case Number => (match ReadVarint(rest)
                      case None => None
                      case Some((n, rest')) => Some((Got(Field(tag / 8, Num(n))), rest')))
      case Record => (match ReadVarint(rest)
                      case None => None
                      case Some((n, rest')) =>
                        if n > |rest'| then None
                        else Some((Got(Field(tag / 8, Blob(rest'[..n]))), rest'[n..])))
  }

  lemma ReadFieldBack(schema: Schema, f: Field, rest: bytes)
    requires Fits(schema, f)
    ensures ReadField(schema, FieldBytes(f) + rest) == Some((Got(f), rest))
  {
    var tag := f.no * 8 + WireType(f.value);
    match f.value
    case Num(n) =>
      assert FieldBytes(f) + rest == Varint(tag) + (Varint(n) + rest);
      ReadVarintBack(tag, Varint(n) + rest);
      ReadVarintBack(n, rest);
    case Blob(b) =>
      assert FieldBytes(f) + rest == Varint(tag) + (Varint(|b|) + (b + rest));
      ReadVarintBack(tag, Varint(|b|) + (b + rest));
      ReadVarintBack(|b|, b + rest);
      assert (b + rest)[..|b|] == b && (b + rest)[|b|..] == rest;
  }

  /** A whole message: its fields, one after the other. */
  function Encode(fs: seq<Field>): (s: bytes)
    ensures |s| >= |fs|
  {
    if fs == [] then [] else FieldBytes(fs[0]) + Encode(fs[1..])
  }

  lemma {:induction false} EncodeConcat(a: seq<Field>, b: seq<Field>)
    ensures Encode(a + b) == Encode(a) + Encode(b)
  {
    if a == [] {
      assert a + b == b;
    } else {
      assert (a + b)[1..] == a[1..] + b;
      EncodeConcat(a[1..], b);
    }
  }

  lemma EncodeOne(f: Field)
    ensures Encode([f]) == FieldBytes(f)
  {
    var one := [f];
    assert Encode(one) == FieldBytes(f) + Encode(one[1..]);
  }

  /** The tags of all messages here take one byte. */
  lemma FieldLength(f: Field)
    requires f.no < 16
    ensures f.value.Num? ==> |FieldBytes(f)| == 1 + |Varint(f.value.n)|
    ensures f.value.Blob? ==> |FieldBytes(f)| == 1 + |Varint(|f.value.b|)| + |f.value.b|
  {
  }

  /** The first i fields, as an encoder's loop writes them. */
  function EncodeUpTo(fs: seq<Field>, i: nat): (r: bytes)
    requires i <= |fs|
  {
    if i == 0 then [] else EncodeUpTo(fs, i - 1) + FieldBytes(fs[i - 1])
  }

  lemma {:induction false} EncodeUpToGrows(fs: seq<Field>, i: nat, j: nat)
    requires i <= j <= |fs|
    ensures |EncodeUpTo(fs, i)| <= |EncodeUpTo(fs, j)|
  {
    if i < j { EncodeUpToGrows(fs, i, j - 1); }
  }

  lemma {:induction false} EncodeUpToIs(fs: seq<Field>, i: nat)
    requires i <= |fs|
    ensures EncodeUpTo(fs, i) == Encode(fs[..i])
  {
    if i > 0 {
      EncodeUpToIs(fs, i - 1);
      assert fs[..i] == fs[..i - 1] + [fs[i - 1]];
      EncodeConcat(fs[..i - 1], [fs[i - 1]]);
      EncodeOne(fs[i - 1]);
    }
  }

  lemma EncodeUpToAll(fs: seq<Field>)
    ensures EncodeUpTo(fs, |fs|) == Encode(fs)
  {
    EncodeUpToIs(fs, |fs|);
    assert fs[..|fs|] == fs;
  }

  lemma EncodeTwo(a: Field, b: Field)
    ensures Encode([a, b]) == FieldBytes(a) + FieldBytes(b)
  {
    EncodeConcat([a], [b]);
    EncodeOne(a);
    EncodeOne(b);
  }

  lemma EncodeThree(a: Field, b: Field, c: Field)
    ensures Encode([a, b, c]) == FieldBytes(a) + FieldBytes(b) + FieldBytes(c)
  {
    EncodeTwo(a, b);
    EncodeConcat([a, b], [c]);
    EncodeOne(c);
  }

  // ---------------------------------------------------------- the decoder loop

  /** What a decoder computes: fold `apply`, the body of its switch, over the
      fields in the order they arrive, and give up at the first failure. */
  function Decode<M>(schema: Schema, apply: (M, Field) -> Option<M>, s: bytes, acc: M): (r: Option<M>)
    decreases |s|
  {
    if s == [] then Some(acc) else
    match ReadField(schema, s)
    case None => None
    case Some((Skip, rest)) => Decode(schema, apply, rest, acc)
    case Some((Got(f), rest)) =>
      match apply(acc, f)
      case None => None
      case Some(acc') => Decode(schema, apply, rest, acc')
  }

  /** The loop `while (pos < buffer_length)` that every decoder is. */
  method RunDecoder<M>(schema: Schema, apply: (M, Field) -> Option<M>, s: bytes, init: M)
    returns (r: Option<M>)
    ensures r == Decode(schema, apply, s, init)
  {
    var pos: nat, acc := 0, init;
    while pos < |s|
      invariant pos <= |s|
      invariant Decode(schema, apply, s[pos..], acc) == Decode(schema, apply, s, init)
    {
      match ReadField(schema, s[pos..])
      case None => return None;
      case Some((turn, rest)) =>
        assert s[pos..] != [];
        ghost var rest' := rest;
        ReadFieldIsSuffix(schema, s[pos..]);
        pos := |s| - |rest|;
        assert s[pos..] == rest';
        if turn.Got? {
          match apply(acc, turn.field)
          case None => return None;
          case Some(next) => acc := next;
        }
    }
    return Some(acc);
  }

  lemma {:induction false} ReadVarintIsSuffix(s: bytes)
    requires ReadVarint(s).Some?
    ensures var rest := ReadVarint(s).value.1; s[|s| - |rest|..] == rest
  {
    if s[0] >= 128 {
      ReadVarintIsSuffix(s[1..]);
      var rest := ReadVarint(s[1..]).value.1;
      assert s[|s| - |rest|..] == s[1..][|s[1..]| - |rest|..];
    }
  }

  lemma ReadFieldIsSuffix(schema: Schema, s: bytes)
    requires ReadField(schema, s).Some?
    ensures var rest := ReadField(schema, s).value.1; s[|s| - |rest|..] == rest
  {
    ReadVarintIsSuffix(s);
    var (tag, mid) := ReadVarint(s).value;
    if KindOf(schema, tag / 8) != Unknown {
      ReadVarintIsSuffix(mid);
      var end := ReadVarint(mid).value.1;
      assert end == s[|s| - |end|..];
    }
  }

  function Fold<M>(apply: (M, Field) -> Option<M>, fs: seq<Field>, acc: M): (r: Option<M>)
  {
    if fs == [] then Some(acc) else
    match apply(acc, fs[0])
    case None => None
    case Some(acc') => Fold(apply, fs[1..], acc')
  }

  /** Decoding what an encoder wrote replays exactly the fields it wrote. */
  lemma {:induction false} DecodeEncoded<M>(schema: Schema, apply: (M, Field) -> Option<M>, fs: seq<Field>, acc: M)
    requires forall f <- fs :: Fits(schema, f)
    ensures Decode(schema, apply, Encode(fs), acc) == Fold(apply, fs, acc)
  {
    if fs != [] {
      ReadFieldBack(schema, fs[0], Encode(fs[1..]));
      match apply(acc, fs[0])
      case None =>
      case Some(acc') => DecodeEncoded(schema, apply, fs[1..], acc');
    }
  }

  lemma FoldCons<M>(apply: (M, Field) -> Option<M>, f: Field, fs: seq<Field>, acc: M)
    requires apply(acc, f).Some?
    ensures Fold(apply, [f] + fs, acc) == Fold(apply, fs, apply(acc, f).value)
  {
    assert ([f] + fs)[1..] == fs;
  }

  lemma {:induction false} FoldConcat<M>(apply: (M, Field) -> Option<M>, a: seq<Field>, b: seq<Field>, acc: M)
    requires Fold(apply, a, acc).Some?
    ensures Fold(apply, a + b, acc) == Fold(apply, b, Fold(apply, a, acc).value)
  {
    if a == [] {
      assert a + b == b;
    } else {
      assert (a + b)[0] == a[0] && (a + b)[1..] == a[1..] + b;
      FoldConcat(apply, a[1..], b, apply(acc, a[0]).value);
    }
  }

  // ---------------------------------------------------------- repeated records

  /** A repeated field: one record an item. */
  function Records<X>(no: nat, enc: X -> bytes, xs: seq<X>): (fs: seq<Field>)
    ensures |fs| == |xs|
    ensures forall i :: 0 <= i < |xs| ==> fs[i] == Field(no, Blob(enc(xs[i])))
  {
    if xs == [] then [] else [Field(no, Blob(enc(xs[0])))] + Records(no, enc, xs[1..])
  }

  function Sum<X>(size: X -> nat, xs: seq<X>): (r: nat) {
    if xs == [] then 0 else size(xs[0]) + Sum(size, xs[1..])
  }

  /** If each record fits its own estimate, all of them fit the sum. */
  lemma {:induction false} RecordsBound<X>(no: nat, enc: X -> bytes, size: X -> nat, xs: seq<X>)
    requires forall x <- xs :: |FieldBytes(Field(no, Blob(enc(x))))| <= size(x)
    ensures |Encode(Records(no, enc, xs))| <= Sum(size, xs)
  {
    hide FieldBytes;
    if xs != [] {
      RecordsBound(no, enc, size, xs[1..]);
      assert Records(no, enc, xs)[1..] == Records(no, enc, xs[1..]);
    }
  }

  function FoldLeft<M, X>(step: (M, X) -> M, xs: seq<X>, acc: M): (r: M) {
    if xs == [] then acc else FoldLeft(step, xs[1..], step(acc, xs[0]))
  }

  /** If the decoder takes each record for one `step`, a repeated field is the
      fold of the steps. */
  lemma {:induction false} RecordsBack<M(!new), X>(apply: (M, Field) -> Option<M>, no: nat, enc: X -> bytes,
                                                   step: (M, X) -> M, xs: seq<X>, acc: M)
    requires forall m: M, x | x in xs :: apply(m, Field(no, Blob(enc(x)))) == Some(step(m, x))
    ensures Fold(apply, Records(no, enc, xs), acc) == Some(FoldLeft(step, xs, acc))
  {
    if xs != [] {
      assert xs[0] in xs;
      FoldCons(apply, Field(no, Blob(enc(xs[0]))), Records(no, enc, xs[1..]), acc);
      RecordsBack(apply, no, enc, step, xs[1..], step(acc, xs[0]));
    }
  }

  // --------------------------------------------------------------- the buffer

  /** `unsigned char buffer[max_buffer_length]` together with `*bytes_written`. */
  class OutBuffer {
    const data: array<byte>
    var written: nat

    ghost predicate Valid()
      reads this
    {
      written <= data.Length
    }

    ghost function Contents(): (r: bytes)
      requires Valid()
      reads this, data
    {
      data[..written]
    }

    constructor (size: nat)
      ensures Valid() && fresh(data) && data.Length == size && written == 0 && Contents() == []
    {
      data := new byte[size];
      written := 0;
    }

    /** protobuf_encode_varint, _length_delimited and _string at
        `&buffer[*bytes_written]`: they fail when the rest of the buffer is too
        short for the field. */
    method Put(f: Field) returns (ok: bool)
      requires Valid()
      modifies this, data
      ensures Valid()
      ensures ok <==> old(written) + |FieldBytes(f)| <= data.Length
      ensures Contents() == old(Contents()) + if ok then FieldBytes(f) else []
    {
      var s := FieldBytes(f);
      hide FieldBytes;
      ok := written + |s| <= data.Length;
      if ok {
        for i := 0 to |s|
          invariant written == old(written)
          invariant data[..written + i] == old(Contents()) + s[..i]
        {
          data[written + i] := s[i];
          assert data[..written + i + 1] == data[..written + i] + [s[i]];
        }
        assert s[..|s|] == s;
        written := written + |s|;
      } else {
        assert Contents() + [] == Contents();
      }
    }

    /** A run of such calls, given up at the first that fails. */
    method PutAll(fs: seq<Field>) returns (ok: bool)
      requires Valid()
      modifies this, data
      ensures Valid()
      ensures ok <==> old(written) + |Encode(fs)| <= data.Length
      ensures ok ==> Contents() == old(Contents()) + Encode(fs)
    {
      hide FieldBytes;
      EncodeUpToAll(fs);
      for i := 0 to |fs|
        invariant Valid()
        invariant Contents() == old(Contents()) + EncodeUpTo(fs, i)
      {
        EncodeUpToGrows(fs, i + 1, |fs|);
        ok := Put(fs[i]);
        if !ok { return; }
      }
      ok := true;
    }

    method Result() returns (s: bytes)
      requires Valid()
      ensures s == Contents()
    {
      s := data[..written];
    }
  }
}
