/** The JSON tokenizer of repo/fsrepo/jsmn.c, built without JSMN_STRICT and
    without JSMN_PARENT_LINKS: what it computes, as functions on values. */
module JsmnSpec {

  datatype Kind = Undefined | Object | Array | String | Primitive

  datatype Token = Token(kind: Kind, start: int, end: int, size: int)

  /** `toks` is the used part of the token array, so |toks| is toknext. */
  datatype State = State(pos: nat, toks: seq<Token>, super: int)

  const NOMEM := -1
  const INVAL := -2
  const PART := -3

  const FRESH := State(0, [], -1)

  predicate AtEnd(js: string, p: nat) {
    p >= |js| || js[p] == '\0'
  }

  predicate IsContainer(k: Kind) {
    k == Object || k == Array
  }

  predicate IsOpen(t: Token) {
    t.start != -1 && t.end == -1
  }

  predicate Sound(st: State) {
    -1 <= st.super < |st.toks|
  }

  // ---------------------------------------------------------------- scanning

  datatype Scan = Ends(at: nat) | Invalid | Partial

  predicate IsHex(c: char) {
    '0' <= c <= '9' || 'A' <= c <= 'F' || 'a' <= c <= 'f'
  }

  predicate IsEscape(c: char) {
    c == '"' || c == '/' || c == '\\' || c == 'b' || c == 'f' || c == 'r' || c == 'n' || c == 't'
  }

  /** Up to n hexadecimal digits from p; the text may end among them. */
  function HexEnd(js: string, p: nat, n: nat): (r: Scan)
    ensures r.Ends? ==> r.at >= p && (p <= |js| ==> r.at <= |js|)
    ensures !r.Partial?
    decreases n
  {
    if n == 0 || AtEnd(js, p) then Ends(p)
    else if IsHex(js[p]) then HexEnd(js, p + 1, n - 1)
    else Invalid
  }

  /** The position of the quote that closes the string with text from p on. */
  function StringEnd(js: string, p: nat): (r: Scan)
    ensures r.Ends? ==> p <= r.at < |js| && js[r.at] == '"'
    decreases |js| - p
  {
    if AtEnd(js, p) then Partial
    else if js[p] == '"' then Ends(p)
    else if js[p] == '\\' && p + 1 < |js| then
      if IsEscape(js[p + 1]) then StringEnd(js, p + 2)
      else if js[p + 1] == 'u' then
        match HexEnd(js, p + 2, 4)
        case Ends(q) => StringEnd(js, q)
        case _ => Invalid
      else Invalid
    else StringEnd(js, p + 1)
  }

  predicate IsDelimiter(c: char) {
    c == ':' || c == '\t' || c == '\r' || c == '\n' || c == ' ' || c == ',' || c == ']' || c == '}'
  }

  predicate IsPrintable(c: char) {
    32 as char <= c < 127 as char
  }

  /** The end of the primitive with text from p on. */
  function PrimitiveEnd(js: string, p: nat): (r: Scan)
    ensures r.Ends? ==> r.at >= p && (p <= |js| ==> r.at <= |js|)
    ensures r.Ends? && !AtEnd(js, p) && !IsDelimiter(js[p]) ==> r.at > p
    ensures !r.Partial?
    decreases |js| - p
  {
    if AtEnd(js, p) || IsDelimiter(js[p]) then Ends(p)
    else if !IsPrintable(js[p]) then Invalid
    else PrimitiveEnd(js, p + 1)
  }

  // ---------------------------------------------------------------- one step

  /** The scan for `start != -1 && end == -1` from the last token backwards. */
  function LastOpen(toks: seq<Token>): (i: int)
    ensures -1 <= i < |toks|
    ensures i >= 0 ==> IsOpen(toks[i])
    ensures forall j :: i < j < |toks| ==> !IsOpen(toks[j])
  {
    if toks == [] then -1
    else if IsOpen(toks[|toks| - 1]) then |toks| - 1
    else LastOpen(toks[..|toks| - 1])
  }

  /** The same scan, for a container only. */
  function LastOpenContainer(toks: seq<Token>): (i: int)
    ensures -1 <= i < |toks|
    ensures i >= 0 ==> IsOpen(toks[i]) && IsContainer(toks[i].kind)
    ensures forall j :: i < j < |toks| ==> !(IsOpen(toks[j]) && IsContainer(toks[j].kind))
  {
    if toks == [] then -1
    else if IsOpen(toks[|toks| - 1]) && IsContainer(toks[|toks| - 1].kind) then |toks| - 1
    else LastOpenContainer(toks[..|toks| - 1])
  }

  /** `tokens[toksuper].size++`, if there is a superior token. */
  function Bump(toks: seq<Token>, super: int): (r: seq<Token>)
    requires -1 <= super < |toks|
    ensures |r| == |toks|
  {
    if super == -1 then toks else toks[super := toks[super].(size := toks[super].size + 1)]
  }

  datatype Outcome = Next(st: State) | Stop(code: int)

  /** Allocate a token for the text from `start` to `end` and count it in. */
  function Add(st: State, cap: nat, t: Token, super': int, pos': nat): (r: Outcome)
    requires Sound(st)
  {
    if |st.toks| >= cap then Stop(NOMEM)
    else Next(State(pos', Bump(st.toks, st.super) + [t], super'))
  }

  function Close(st: State, kind: Kind): (r: Outcome) {
    var i := LastOpen(st.toks);
    if i == -1 || st.toks[i].kind != kind then Stop(INVAL) else
    var toks' := st.toks[i := st.toks[i].(end := st.pos + 1)];
    Next(State(st.pos + 1, toks', LastOpen(toks')))
  }

  function Comma(st: State): (r: State)
    requires Sound(st)
  {
    var i := LastOpenContainer(st.toks);
    if st.super != -1 && !IsContainer(st.toks[st.super].kind) && i != -1
    then State(st.pos + 1, st.toks, i)
    else st.(pos := st.pos + 1)
  }

  /** One turn of the loop, filling an array of `cap` tokens. */
  function Step(js: string, cap: nat, st: State): (o: Outcome)
    requires Sound(st) && !AtEnd(js, st.pos)
    ensures o.Next? ==> Sound(o.st) && st.pos < o.st.pos <= |js| && |st.toks| <= |o.st.toks|
    ensures o.Stop? ==> o.code < 0
  {
    var c := js[st.pos];
    if c == '{' || c == '[' then
      Add(st, cap, Token(if c == '{' then Object else Array, st.pos, -1, 0), |st.toks|, st.pos + 1)
    else if c == '}' || c == ']' then Close(st, if c == '}' then Object else Array)
    else if c == '"' then
      match StringEnd(js, st.pos + 1)
      case Invalid => Stop(INVAL)
      case Partial => Stop(PART)
      case Ends(q) => Add(st, cap, Token(String, st.pos + 1, q, 0), st.super, q + 1)
    else if c == '\t' || c == '\r' || c == '\n' || c == ' ' then Next(st.(pos := st.pos + 1))
    else if c == ':' then Next(State(st.pos + 1, st.toks, |st.toks| - 1))
    else if c == ',' then Next(Comma(st))
    else
      match PrimitiveEnd(js, st.pos)
      case Ends(q) => Add(st, cap, Token(Primitive, st.pos, q, 0), st.super, q)
      case _ => Stop(INVAL)
  }

  /** jsmn_parse with an array of `cap` tokens: its result, and the state in which
      it leaves parser and tokens. */
  function Run(js: string, cap: nat, st: State): (r: (int, State))
    requires Sound(st)
    ensures Sound(r.1)
    decreases |js| - st.pos
  {
    if AtEnd(js, st.pos) then (if LastOpen(st.toks) != -1 then PART else |st.toks|, st)
    else match Step(js, cap, st)
         case Stop(code) => (code, st)
         case Next(st') => Run(js, cap, st')
  }

  /** jsmn_parse without tokens: it only counts. */
  function CountStep(js: string, p: nat): (r: Scan)
    requires !AtEnd(js, p)
    ensures r.Ends? ==> p < r.at <= |js|
  {
    var c := js[p];
    if c == '"' then
      match StringEnd(js, p + 1)
      case Ends(q) => Ends(q + 1)
      case other => other
    else if c in "{[}]:, \t\r\n" then Ends(p + 1)
    else PrimitiveEnd(js, p)
  }

  /** Whether the character at p begins a token. */
  predicate BeginsToken(c: char) {
    c !in "}]:, \t\r\n"
  }

  function Count(js: string, p: nat, n: nat): (r: int)
    ensures r >= n || r == INVAL || r == PART
    decreases |js| - p
  {
    if AtEnd(js, p) then n
    else match CountStep(js, p)
         case Invalid => INVAL
         case Partial => PART
         case Ends(q) => Count(js, q, if BeginsToken(js[p]) then n + 1 else n)
  }
}
