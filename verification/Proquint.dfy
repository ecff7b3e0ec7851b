/** Pronounceable identifiers: namesys/proquint.c, after "A Proposal for Proquints". */
module Proquint {
  import opened Basics

  const CONSE: seq<char> := "bdfghjklmnprstvz"
  const VOWSE: seq<char> := "aiou"

  // ---------------------------------------------------------------- alphabets

  /** consd and vowsd: the first index of c, or 0 when it is not there. */
  method Index(alphabet: seq<char>, c: char) returns (k: nat)
    ensures k == IndexFrom(alphabet, c, 0)
  {
    for i := 0 to |alphabet|
      invariant IndexFrom(alphabet, c, 0) == IndexFrom(alphabet, c, i)
    {
      if c == alphabet[i] { return i; }
    }
    return 0;
  }

  function IndexFrom(alphabet: seq<char>, c: char, i: nat): (k: nat)
    requires i <= |alphabet|
    ensures k == 0 || i <= k < |alphabet|
    ensures c in alphabet[i..] ==> i <= k < |alphabet| && alphabet[k] == c && c !in alphabet[i..k]
    ensures c !in alphabet[i..] ==> k == 0
    decreases |alphabet| - i
  {
    if i == |alphabet| then 0
    else if c == alphabet[i] then i
    else IndexFrom(alphabet, c, i + 1)
  }

  function Consd(c: char): (k: nat)
    ensures k < 16
    ensures CONSE[k] == c <==> c in CONSE
  {
    assert CONSE[0..] == CONSE;
    IndexFrom(CONSE, c, 0)
  }

  function Vowsd(c: char): (k: nat)
    ensures k < 4
    ensures VOWSE[k] == c <==> c in VOWSE
  {
    assert VOWSE[0..] == VOWSE;
    IndexFrom(VOWSE, c, 0)
  }

  lemma ConsonantsDiffer(i: nat, j: nat)
    requires i < 16 && j < 16 && CONSE[i] == CONSE[j]
    ensures i == j
  {
  }

  lemma VowelsDiffer(i: nat, j: nat)
    requires i < 4 && j < 4 && VOWSE[i] == VOWSE[j]
    ensures i == j
  {
  }

  lemma ConsdBack(k: nat)
    requires k < 16
    ensures Consd(CONSE[k]) == k
  {
    ConsonantsDiffer(Consd(CONSE[k]), k);
  }

  lemma VowsdBack(k: nat)
    requires k < 4
    ensures Vowsd(VOWSE[k]) == k
  {
    VowelsDiffer(Vowsd(VOWSE[k]), k);
  }

  // -------------------------------------------------------------------- words

  /** Sixteen bits as consonant, vowel, consonant, vowel, consonant: four, two,
      four, two and four bits. */
  function Word(b0: byte, b1: byte): (w: string)
    ensures |w| == 5
  {
    var n := b0 * 256 + b1;
    [CONSE[n / 4096 % 16], VOWSE[n / 1024 % 4], CONSE[n / 64 % 16], VOWSE[n / 16 % 4], CONSE[n % 16]]
  }

  /** The shifted digits do not overlap, so their bitwise or is their sum. */
  function Sixteen(w: string): (x: nat)
    requires |w| >= 5
    ensures x < 0x10000
  {
    Consd(w[0]) * 4096 + Vowsd(w[1]) * 1024 + Consd(w[2]) * 64 + Vowsd(w[3]) * 16 + Consd(w[4])
  }

  function WordBytes(w: string): (b: seq<byte>)
    requires |w| >= 5
    ensures |b| == 2
  {
    [Sixteen(w) / 256, Sixteen(w) % 256]
  }

  predicate IsWord(w: string) {
    |w| == 5 && w[0] in CONSE && w[1] in VOWSE && w[2] in CONSE && w[3] in VOWSE && w[4] in CONSE
  }

  lemma SixteenOf(a: nat, b: nat, c: nat, d: nat, e: nat)
    requires a < 16 && b < 4 && c < 16 && d < 4 && e < 16
    ensures var w := [CONSE[a], VOWSE[b], CONSE[c], VOWSE[d], CONSE[e]];
      IsWord(w) && Sixteen(w) == a * 4096 + b * 1024 + c * 64 + d * 16 + e
  {
    hide Consd, Vowsd;
    ConsdBack(a);
    VowsdBack(b);
    ConsdBack(c);
    VowsdBack(d);
    ConsdBack(e);
  }

  lemma WordBack(b0: byte, b1: byte)
    ensures WordBytes(Word(b0, b1)) == [b0, b1] && IsWord(Word(b0, b1))
  {
    hide Consd, Vowsd, Sixteen, IsWord;
    var n := b0 * 256 + b1;
    var a, b, c, d, e := n / 4096 % 16, n / 1024 % 4, n / 64 % 16, n / 16 % 4, n % 16;
    Recombine(n);
    SixteenOf(a, b, c, d, e);
    assert Word(b0, b1) == [CONSE[a], VOWSE[b], CONSE[c], VOWSE[d], CONSE[e]];
    Halves(b0, b1);
  }

  lemma Halves(b0: byte, b1: byte)
    ensures (b0 * 256 + b1) / 256 == b0 && (b0 * 256 + b1) % 256 == b1
  {
  }

  lemma WordOf(a: nat, b: nat, c: nat, d: nat, e: nat)
    requires a < 16 && b < 4 && c < 16 && d < 4 && e < 16
    ensures var n := a * 4096 + b * 1024 + c * 64 + d * 16 + e;
      n < 0x10000 && Word(n / 256, n % 256) == [CONSE[a], VOWSE[b], CONSE[c], VOWSE[d], CONSE[e]]
  {
    hide Word;
    var n := a * 4096 + b * 1024 + c * 64 + d * 16 + e;
    Bytes(n);
    WordAt(n / 256, n % 256, n);
    Digits(a, b, c, d, e);
  }

  lemma Bytes(n: nat)
    requires n < 0x10000
    ensures n / 256 < 256 && n / 256 * 256 + n % 256 == n
  {
  }

  lemma WordAt(b0: byte, b1: byte, n: nat)
    requires n == b0 * 256 + b1
    ensures Word(b0, b1) == [CONSE[n / 4096 % 16], VOWSE[n / 1024 % 4], CONSE[n / 64 % 16], VOWSE[n / 16 % 4], CONSE[n % 16]]
  {
  }

  lemma BytesBack(w: string)
    requires IsWord(w)
    ensures Word(WordBytes(w)[0], WordBytes(w)[1]) == w
  {
    hide Consd, Vowsd, Word;
    WordOf(Consd(w[0]), Vowsd(w[1]), Consd(w[2]), Vowsd(w[3]), Consd(w[4]));
  }

  /** Any number is its quotient and remainder put together again. */
  lemma Recombine(n: nat)
    requires n < 0x10000
    ensures n / 4096 % 16 * 4096 + n / 1024 % 4 * 1024 + n / 64 % 16 * 64 + n / 16 % 4 * 16 + n % 16 == n
  {
    Nested(n, 16, 4);
    Nested(n, 64, 16);
    Nested(n, 1024, 4);
    var q1, q2, q3, q4 := n / 16, n / 64, n / 1024, n / 4096;
    assert n == q1 * 16 + n % 16;
    assert q1 == q2 * 4 + q1 % 4;
    assert q2 == q3 * 16 + q2 % 16;
    assert q3 == q4 * 4 + q3 % 4;
    assert q4 < 16;
  }

  lemma Nested(n: nat, a: nat, b: nat)
    requires (a == 16 && b == 4) || (a == 64 && b == 16) || (a == 1024 && b == 4)
    ensures n / a / b == n / (a * b)
  {
    if a == 16 {
    } else if a == 64 {
    } else {
    }
  }

  lemma Digits(a: nat, b: nat, c: nat, d: nat, e: nat)
    requires a < 16 && b < 4 && c < 16 && d < 4 && e < 16
    ensures var n := a * 4096 + b * 1024 + c * 64 + d * 16 + e;
      n / 4096 % 16 == a && n / 1024 % 4 == b && n / 64 % 16 == c && n / 16 % 4 == d && n % 16 == e
  {
    var n := a * 4096 + b * 1024 + c * 64 + d * 16 + e;
    var q3 := a * 4 + b;
    var q2 := q3 * 16 + c;
    var q1 := q2 * 4 + d;
    assert n / 16 == q1 && n % 16 == e by { assert n == q1 * 16 + e; }
    assert n / 64 == q2 by { assert n == q2 * 64 + (d * 16 + e) && d * 16 + e < 64; }
    assert n / 1024 == q3 by { assert n == q3 * 1024 + (c * 64 + d * 16 + e) && c * 64 + d * 16 + e < 1024; }
    assert n / 4096 == a by { assert n == a * 4096 + (b * 1024 + c * 64 + d * 16 + e) && b * 1024 + c * 64 + d * 16 + e < 4096; }
  }

  // ------------------------------------------------------------ identifiers

  /** Words joined by hyphens. */
  function Encoded(b: seq<byte>): (r: string) {
    if |b| < 2 then ""
    else if |b| < 4 then Word(b[0], b[1])
    else Word(b[0], b[1]) + "-" + Encoded(b[2..])
  }

  /** What the decoder's loop reads; every sixth character is passed over. */
  function Decoded(s: string): (r: seq<byte>) {
    if |s| < 5 then [] else WordBytes(s[..5]) + if |s| < 6 then [] else Decoded(s[6..])
  }

  predicate Slot(s: string, i: nat)
    requires i < |s|
  {
    if (i + 1) % 6 == 0 then s[i] == '-'
    else if (i + 1) % 2 == 0 then s[i] in VOWSE
    else s[i] in CONSE
  }

  predicate IsProquint(s: string) {
    (|s| + 1) % 6 == 0 && forall i :: 0 <= i < |s| ==> Slot(s, i)
  }

  method CheckProquint(s: string) returns (r: bool)
    ensures r == IsProquint(s)
  {
    if (|s| + 1) % 6 != 0 { return false; }
    for i := 0 to |s|
      invariant forall j :: 0 <= j < i ==> Slot(s, j)
    {
      if (i + 1) % 6 == 0 {
        if s[i] != '-' {
          assert !Slot(s, i);
          return false;
        }
      } else if (i + 1) % 2 == 0 {
        var c := Index(VOWSE, s[i]);
        assert c == Vowsd(s[i]);
        if s[i] != VOWSE[c] {
          assert !Slot(s, i);
          return false;
        }
      } else {
        var c := Index(CONSE, s[i]);
        assert c == Consd(s[i]);
        if s[i] != CONSE[c] {
          assert !Slot(s, i);
          return false;
        }
      }
    }
    return true;
  }

  /** NULL, or the result; or a read or write outside the string or the allocation,
      behind which the source promises nothing. */
  datatype Answer<+T> = Refused | OutOfBounds | Done(value: T)

  /** ipfs_proquint_encode. Of an empty buffer it puts the final NUL before its
      allocation. */
  method Encode(buf: seq<byte>) returns (r: Answer<string>)
    ensures r == if |buf| % 2 != 0 then Refused else if buf == [] then OutOfBounds else Done(Encoded(buf))
  {
    if |buf| % 2 != 0 { return Refused; }
    if buf == [] { return OutOfBounds; }
    var text := EncodeWords(buf, |buf| / 2);
    return Done(text);
  }

  /** The loop, for a buffer of whole words. */
  method EncodeWords(buf: seq<byte>, ghost words: nat) returns (r: string)
    requires |buf| == 2 * words > 0
    ensures r == Encoded(buf)
  {
    hide Word, Encoded;
    var size := |buf|;
    var ret := new char[size * 3];
    var i, c := 0, 0;
    ghost var k := 0;
    while i < size
      invariant i == 2 * k <= size && c == 6 * k
      invariant ret[..c] == EncodedUpTo(buf, k)
    {
      PutWord(ret, c, Word(buf[i], buf[i + 1]));
      c := c + 6;
      i := i + 2;
      k := k + 1;
    }
    EncodedUpToAll(buf, 0, words);
    assert ret[..c - 1] == ret[..c][..c - 1];
    return ret[..c - 1];
  }

  method PutWord(ret: array<char>, c: nat, w: string)
    requires |w| == 5 && c + 6 <= ret.Length
    modifies ret
    ensures ret[..c + 6] == old(ret[..c]) + w + "-"
  {
    ret[c], ret[c + 1], ret[c + 2], ret[c + 3], ret[c + 4], ret[c + 5] := w[0], w[1], w[2], w[3], w[4], '-';
  }

  /** The text for the first k words, a hyphen behind each. */
  function EncodedUpTo(b: seq<byte>, k: nat): (r: string)
    requires 2 * k <= |b|
  {
    if k == 0 then "" else EncodedUpTo(b, k - 1) + Word(b[2 * k - 2], b[2 * k - 1]) + "-"
  }

  lemma {:induction false} EncodedUpToAll(b: seq<byte>, k: nat, words: nat)
    requires |b| == 2 * words && 2 * k < |b|
    ensures EncodedUpTo(b, words) == EncodedUpTo(b, k) + Encoded(b[2 * k..]) + "-"
    ensures k == 0 ==> EncodedUpTo(b, words) == Encoded(b) + "-"
    decreases |b| - 2 * k
  {
    hide Word, Encoded;
    var w, before := Word(b[2 * k], b[2 * k + 1]), EncodedUpTo(b, k);
    assert b[0..] == b;
    EncodedCons(b[2 * k..]);
    if k + 1 < words {
      EncodedUpToAll(b, k + 1, words);
      assert b[2 * k..][2..] == b[2 * (k + 1)..];
      Rejoin(before, w, Encoded(b[2 * (k + 1)..]));
    }
  }

  lemma EncodedCons(b: seq<byte>)
    requires |b| >= 2 && |b| != 3
    ensures Encoded(b) == Word(b[0], b[1]) + if |b| == 2 then "" else "-" + Encoded(b[2..])
  {
    hide Word;
    assert Word(b[0], b[1]) + "" == Word(b[0], b[1]);
    if |b| > 2 { Rejoin("", Word(b[0], b[1]), Encoded(b[2..])); }
  }

  lemma Rejoin(before: string, w: string, rest: string)
    ensures before + w + "-" + rest == before + (w + ("-" + rest))
    ensures w + "-" + rest == w + ("-" + rest)
  {
  }

  /** The test before the decoder's loop. */
  predicate Refuses(s: string) {
    !IsProquint(s) && (|s| + 1) % 3 == 0
  }

  /** It refuses just what is no proquint exactly if the string is one, or one more
      than its length is a multiple of three. */
  lemma RefusesExactly(s: string)
    ensures (Refuses(s) <==> !IsProquint(s)) <==> IsProquint(s) || |s| % 3 == 2
  {
  }

  /** A string that is no proquint, is not refused, and is decoded. */
  lemma NonsenseIsDecoded()
    ensures exists s :: !IsProquint(s) && !Refuses(s) && StaysInside(|s|) && Decoded(s) == [0, 0]
  {
    hide Consd, Vowsd, StaysInside, Slot;
    var s := "bababa";
    assert s[..5] == "babab" && s[6..] == "";
    assert Consd('b') == 0 by { ConsdBack(0); }
    assert Vowsd('a') == 0 by { VowsdBack(0); }
    assert WordBytes("babab") == [0, 0];
    assert Decoded(s) == [0, 0];
    StaysInsideExactly(6);
  }

  /** How often the loop turns for a string of n characters. */
  function Turns(n: nat): (k: nat) {
    (n + 5) / 6
  }

  /** Every turn reads five characters, of which the last may be the final NUL, and
      writes two bytes of (n + 1) / 3. */
  predicate StaysInside(n: nat) {
    (forall k: nat :: k < Turns(n) ==> Within(n, k)) && 2 * Turns(n) <= (n + 1) / 3
  }

  predicate Within(n: nat, k: nat) {
    6 * k + 4 <= n
  }

  /** The loop stays inside string and allocation exactly for whole words, with or
      without a character behind the last. */
  lemma StaysInsideExactly(n: nat)
    ensures StaysInside(n) <==> n % 6 == 0 || n % 6 == 5
  {
    if n % 6 == 0 || n % 6 == 5 {
      assert 6 * Turns(n) == n || 6 * Turns(n) == n + 1;
    }
  }

  /** ipfs_proquint_decode. */
  method Decode(s: string) returns (r: Answer<seq<byte>>)
    ensures r == if Refuses(s) then Refused else if StaysInside(|s|) then Done(Decoded(s)) else OutOfBounds
  {
    hide Within, Turns, Decoded;
    var ok := CheckProquint(s);
    if !ok && (|s| + 1) % 3 == 0 { return Refused; }
    r := DecodeWords(s);
  }

  /** The loop. */
  method DecodeWords(s: string) returns (r: Answer<seq<byte>>)
    ensures r == if StaysInside(|s|) then Done(Decoded(s)) else OutOfBounds
  {
    hide WordBytes, Decoded, Tail, StaysInside;
    var ret := new byte[(|s| + 1) / 3];
    var str := s + ['\0'];
    StaysInsideExactly(|s|);
    TailEnds(s);
    var i, c := 0, 0;
    ghost var k := 0;
    while i < |s|
      invariant i == k * 6 <= |s| + 5 && c == k * 2 <= ret.Length
      invariant i <= |s| + 1 ==> ret[..c] + Tail(s, i) == Decoded(s)
    {
      if i + 4 >= |str| { return OutOfBounds; }
      var w := str[i..i + 5];
      if c + 2 > ret.Length { return OutOfBounds; }
      assert w == s[i..i + 5];
      TailStep(s, i);
      Regroup(ret[..c], WordBytes(w), Tail(s, i + 6));
      PutPair(ret, c, WordBytes(w));
      c := c + 2;
      i := i + 6;
      k := k + 1;
    }
    TailEnds(s);
    Regroup(ret[..c], [], []);
    return Done(ret[..c]);
  }

  method PutPair(ret: array<byte>, c: nat, x: seq<byte>)
    requires |x| == 2 && c + 2 <= ret.Length
    modifies ret
    ensures ret[..c + 2] == old(ret[..c]) + x
  {
    ret[c], ret[c + 1] := x[0], x[1];
  }

  /** What is still to be decoded. */
  function Tail(s: string, i: nat): (r: seq<byte>) {
    if i < |s| then Decoded(s[i..]) else []
  }

  lemma TailStep(s: string, i: nat)
    requires i + 5 <= |s|
    ensures Tail(s, i) == WordBytes(s[i..i + 5]) + Tail(s, i + 6)
  {
    hide WordBytes;
    var rest := s[i..];
    assert rest[..5] == s[i..i + 5];
    if i + 6 <= |s| { assert rest[6..] == s[i + 6..]; }
  }

  lemma TailEnds(s: string)
    ensures Tail(s, |s|) == Tail(s, |s| + 1) == []
    ensures [] + Tail(s, 0) == Decoded(s)
  {
    hide WordBytes;
    assert s[0..] == s;
    if s != [] {
      hide Decoded;
      assert Tail(s, 0) == Decoded(s);
    }
  }

  lemma Regroup(a: seq<byte>, b: seq<byte>, c: seq<byte>)
    ensures (a + b) + c == a + (b + c) && a + [] == a
  {
  }

  // --------------------------------------------------------------- bijection

  lemma {:induction false} EncodedLength(b: seq<byte>, words: nat)
    requires |b| == 2 * words > 0
    ensures |Encoded(b)| == 6 * words - 1
  {
    hide Word;
    if words > 1 { EncodedLength(b[2..], words - 1); }
  }

  lemma SplitWord(w: string, rest: string)
    requires |w| == 5
    ensures var s := w + "-" + rest; s[..5] == w && s[5] == '-' && s[6..] == rest && |s| == |rest| + 6
  {
  }

  /** Decoding undoes encoding ... */
  lemma {:induction false} DecodeEncoded(b: seq<byte>, words: nat)
    requires |b| == 2 * words > 0
    ensures |Encoded(b)| == 6 * words - 1 && Decoded(Encoded(b)) == b
  {
    hide Word, WordBytes;
    WordBack(b[0], b[1]);
    EncodedLength(b, words);
    var w := Word(b[0], b[1]);
    if words == 1 {
      assert w[..5] == w && b == [b[0], b[1]] == WordBytes(w) + [];
    } else {
      DecodeEncoded(b[2..], words - 1);
      SplitWord(w, Encoded(b[2..]));
      assert b == [b[0], b[1]] + b[2..];
    }
  }

  /** A proquint is a word, or a word, a hyphen and a proquint. */
  lemma ProquintSplits(s: string, words: nat)
    requires |s| == 6 * words - 1 && IsProquint(s)
    ensures IsWord(s[..5])
    ensures words > 1 ==> s[5] == '-' && IsProquint(s[6..])
  {
    assert Slot(s, 0) && Slot(s, 1) && Slot(s, 2) && Slot(s, 3) && Slot(s, 4);
    if words > 1 {
      assert Slot(s, 5);
      ProquintTail(s, words);
    }
  }

  lemma ProquintTail(s: string, words: nat)
    requires |s| == 6 * words - 1 && words > 1 && IsProquint(s)
    ensures IsProquint(s[6..])
  {
    hide Slot;
    forall i | 0 <= i < |s[6..]| ensures Slot(s[6..], i) {
      SlotShift(s, i);
    }
  }

  lemma SlotShift(s: string, i: nat)
    requires i + 6 < |s|
    ensures Slot(s[6..], i) <==> Slot(s, i + 6)
  {
    assert s[6..][i] == s[i + 6];
    assert (i + 7) % 6 == (i + 1) % 6 && (i + 7) % 2 == (i + 1) % 2;
  }

  lemma ProquintJoins(s: string, words: nat)
    requires |s| == 6 * words - 1 && words > 0 && IsWord(s[..5])
    requires words > 1 ==> s[5] == '-' && IsProquint(s[6..])
    ensures IsProquint(s)
  {
    forall i | 0 <= i < |s| ensures Slot(s, i) {
      if i >= 6 {
        hide Slot;
        SlotShift(s, i - 6);
      } else if i < 5 {
        assert s[i] == s[..5][i];
      }
    }
  }

  lemma {:induction false} EncodedIsProquint(b: seq<byte>, words: nat)
    requires |b| == 2 * words > 0
    ensures IsProquint(Encoded(b))
  {
    hide Word, IsProquint, IsWord, Encoded;
    WordBack(b[0], b[1]);
    EncodedLength(b, words);
    EncodedCons(b);
    var w := Word(b[0], b[1]);
    if words == 1 {
      assert (w + "")[..5] == w;
    } else {
      EncodedIsProquint(b[2..], words - 1);
      Rejoin("", w, Encoded(b[2..]));
      SplitWord(w, Encoded(b[2..]));
    }
    ProquintJoins(Encoded(b), words);
  }

  /** ... encoding undoes decoding on what the test accepts ... */
  lemma {:induction false} EncodeDecoded(s: string, words: nat)
    requires |s| == 6 * words - 1 && words > 0 && IsProquint(s)
    ensures |Decoded(s)| == 2 * words && Encoded(Decoded(s)) == s
  {
    hide Word, WordBytes, IsWord, IsProquint;
    ProquintSplits(s, words);
    BytesBack(s[..5]);
    var x := WordBytes(s[..5]);
    if words == 1 {
      assert s[..5] == s && x + [] == x;
    } else {
      EncodeDecoded(s[6..], words - 1);
      var rest := Decoded(s[6..]);
      assert (x + rest)[2..] == rest && (x + rest)[0] == x[0] && (x + rest)[1] == x[1];
      assert s == s[..5] + "-" + s[6..];
    }
  }

  /** ... and the test accepts exactly the encodings: between byte strings of even
      length, not empty, and proquints the two are inverse to each other. */
  lemma ProquintsAreEncodings(s: string)
    ensures IsProquint(s) <==> exists b: seq<byte> :: b != [] && |b| % 2 == 0 && Encoded(b) == s
    ensures IsProquint(s) ==> Decoded(s) != [] && |Decoded(s)| % 2 == 0 && Encoded(Decoded(s)) == s
    ensures forall b: seq<byte> :: b != [] && |b| % 2 == 0 && Encoded(b) == s ==> Decoded(s) == b
  {
    hide Encoded, Decoded;
    if IsProquint(s) {
      EncodeDecoded(s, (|s| + 1) / 6);
    }
    forall b: seq<byte> | b != [] && |b| % 2 == 0 && Encoded(b) == s ensures IsProquint(s) && Decoded(s) == b {
      EncodedIsProquint(b, |b| / 2);
      DecodeEncoded(b, |b| / 2);
    }
  }

  // --------------------------------------------------------------- the alphabet

  /** Sixteen consonants and four vowels, in this order. */
  lemma AlphabetsAre(k: nat)
    ensures |CONSE| == 16 && |VOWSE| == 4
    ensures k < 16 ==> CONSE[k] == "bdfghjklmnprstvz"[k] && Consd("bdfghjklmnprstvz"[k]) == k
    ensures k < 4 ==> VOWSE[k] == "aiou"[k] && Vowsd("aiou"[k]) == k
  {
    hide Consd, Vowsd;
    if k < 16 { ConsdBack(k); }
    if k < 4 { VowsdBack(k); }
  }

  /** The example of the proposal: 127.0.0.1 is lusab-babad. */
  lemma Localhost()
    ensures Encoded([127, 0, 0, 1]) == "lusab-babad"
  {
    hide Consd, Vowsd;
    var b: seq<byte> := [127, 0, 0, 1];
    assert Word(127, 0) == "lusab";
    assert Word(0, 1) == "babad";
    assert b[2..] == [0, 1];
    assert Encoded([0, 1]) == "babad";
    assert Encoded(b) == "lusab" + "-" + "babad";
  }
}
