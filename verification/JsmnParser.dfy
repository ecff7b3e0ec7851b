/** The tokenizer of repo/fsrepo/jsmn.c in its own form: a parser object and an
    array of tokens, changed in place. */
module JsmnParser {
  import opened JsmnSpec

  class Parser {
    var pos: nat
    var toknext: nat
    var toksuper: int

    /** jsmn_init. */
    constructor ()
      ensures pos == 0 && toknext == 0 && toksuper == -1
    {
      pos, toknext, toksuper := 0, 0, -1;
    }

    predicate Valid(tokens: array<Token>)
      reads this
    {
      -1 <= toksuper < toknext <= tokens.Length
    }

    /** What the parser and the used part of the array stand for. */
    function Abs(tokens: array<Token>): (r: State)
      requires toknext <= tokens.Length
      reads this, tokens
    {
      State(pos, tokens[..toknext], toksuper)
    }

    /** jsmn_alloc_token: the index of a fresh token, or none. */
    method AllocToken(tokens: array<Token>) returns (i: int)
      requires toknext <= tokens.Length
      modifies this`toknext, tokens
      ensures old(toknext) >= tokens.Length ==> i == -1 && toknext == old(toknext) && tokens[..] == old(tokens[..])
      ensures old(toknext) < tokens.Length ==>
                i == old(toknext) && toknext == i + 1 && tokens[..i] == old(tokens[..i]) &&
                tokens[i] == old(tokens[i]).(start := -1, end := -1, size := 0)
    {
      if toknext >= tokens.Length { return -1; }
      i := toknext;
      toknext := toknext + 1;
      tokens[i] := tokens[i].(start := -1, end := -1, size := 0);
    }

    /** jsmn_parse_primitive; on success `pos` stays on the last character. */
    method ParsePrimitive(js: string, tokens: array?<Token>) returns (r: int)
      requires pos < |js| && !AtEnd(js, pos) && !IsDelimiter(js[pos])
      requires tokens != null ==> toknext <= tokens.Length
      modifies this`pos, this`toknext, tokens
      ensures var scan := PrimitiveEnd(js, old(pos));
        if scan.Invalid? then r == INVAL && Untouched(tokens)
        else if tokens == null then r == 0 && pos + 1 == scan.at && toknext == old(toknext)
        else if old(toknext) >= tokens.Length then r == NOMEM && Untouched(tokens)
        else r == 0 && pos + 1 == scan.at && Added(tokens, Token(Primitive, old(pos), scan.at, 0))
    {
      var start := pos;
      while pos < |js| && js[pos] != '\0' && !IsDelimiter(js[pos])
        invariant start <= pos <= |js| && toknext == old(toknext)
        invariant tokens != null ==> tokens[..] == old(tokens[..])
        invariant PrimitiveEnd(js, pos) == PrimitiveEnd(js, start)
        decreases |js| - pos
      {
        if !IsPrintable(js[pos]) {
          pos := start;
          return INVAL;
        }
        pos := pos + 1;
      }
      if tokens == null {
        pos := pos - 1;
        return 0;
      }
      var token := AllocToken(tokens);
      if token == -1 {
        pos := start;
        return NOMEM;
      }
      tokens[token] := Token(Primitive, start, pos, 0);
      pos := pos - 1;
      return 0;
    }

    twostate predicate Untouched(tokens: array?<Token>)
      reads this, tokens
    {
      pos == old(pos) && toknext == old(toknext) && (tokens != null ==> tokens[..] == old(tokens[..]))
    }

    twostate predicate Added(tokens: array<Token>, t: Token)
      reads this, tokens
    {
      && old(toknext) < tokens.Length && toknext == old(toknext) + 1
      && tokens[..toknext] == old(tokens[..toknext]) + [t]
    }

    /** The four digits behind `\u`. */
    method SkipHex(js: string) returns (ok: bool)
      requires pos <= |js|
      modifies this`pos
      ensures match HexEnd(js, old(pos), 4)
        case Ends(q) => ok && pos == q
        case _ => !ok
    {
      var i := 0;
      while i < 4 && pos < |js| && js[pos] != '\0'
        invariant 0 <= i <= 4 && pos <= |js|
        invariant HexEnd(js, pos, 4 - i) == HexEnd(js, old(pos), 4)
      {
        if !IsHex(js[pos]) { return false; }
        pos := pos + 1;
        i := i + 1;
      }
      return true;
    }

    /** jsmn_parse_string; on success `pos` stays on the closing quote. */
    method ParseString(js: string, tokens: array?<Token>) returns (r: int)
      requires pos < |js|
      requires tokens != null ==> toknext <= tokens.Length
      modifies this`pos, this`toknext, tokens
      ensures var scan := StringEnd(js, old(pos) + 1);
        if scan.Invalid? then r == INVAL && Untouched(tokens)
        else if scan.Partial? then r == PART && Untouched(tokens)
        else if tokens == null then r == 0 && pos == scan.at && toknext == old(toknext)
        else if old(toknext) >= tokens.Length then r == NOMEM && Untouched(tokens)
        else r == 0 && pos == scan.at && Added(tokens, Token(String, old(pos) + 1, scan.at, 0))
    {
      var start := pos;
      pos := pos + 1;
      while pos < |js| && js[pos] != '\0'
        invariant start < pos <= |js| && toknext == old(toknext)
        invariant StringEnd(js, pos) == StringEnd(js, start + 1)
        invariant tokens != null ==> tokens[..] == old(tokens[..])
        decreases |js| - pos
      {
        var c := js[pos];
        if c == '"' {
          if tokens == null { return 0; }
          var token := AllocToken(tokens);
          if token == -1 {
            pos := start;
            return NOMEM;
          }
          tokens[token] := Token(String, start + 1, pos, 0);
          return 0;
        }
        if c == '\\' && pos + 1 < |js| {
          pos := pos + 1;
          if IsEscape(js[pos]) {
          } else if js[pos] == 'u' {
            pos := pos + 1;
            var ok := SkipHex(js);
            if !ok {
              pos := start;
              return INVAL;
            }
            pos := pos - 1;
          } else {
            pos := start;
            return INVAL;
          }
        }
        pos := pos + 1;
      }
      pos := start;
      return PART;
    }

    /** The case '{', '[' of the loop. */
    method OpenContainer(js: string, tokens: array<Token>, c: char) returns (r: int)
      requires Valid(tokens) && (c == '{' || c == '[')
      modifies this`toknext, this`toksuper, tokens
      ensures Valid(tokens)
      ensures match Add(old(Abs(tokens)), tokens.Length, Token(if c == '{' then Object else Array, pos, -1, 0),
                        old(toknext), pos + 1)
        case Stop(code) => r == code && Abs(tokens) == old(Abs(tokens))
        case Next(st) => r == 0 && Abs(tokens).(pos := pos + 1) == st
    {
      var token := AllocToken(tokens);
      if token == -1 { return NOMEM; }
      if toksuper != -1 {
        tokens[toksuper] := tokens[toksuper].(size := tokens[toksuper].size + 1);
      }
      tokens[token] := tokens[token].(kind := if c == '{' then Object else Array);
      tokens[token] := tokens[token].(start := pos);
      toksuper := toknext - 1;
      assert tokens[..toknext] == Bump(old(tokens[..toknext]), old(toksuper)) + [tokens[token]];
      return 0;
    }

    /** The loop that looks backwards for an open token. */
    method ScanBack(tokens: array<Token>, from: int) returns (i: int)
      requires -1 <= from < tokens.Length
      ensures i == LastOpen(tokens[..from + 1])
    {
      i := from;
      while i >= 0
        invariant -1 <= i <= from
        invariant LastOpen(tokens[..i + 1]) == LastOpen(tokens[..from + 1])
      {
        assert tokens[..i + 1][..i] == tokens[..i];
        if tokens[i].start != -1 && tokens[i].end == -1 { return; }
        i := i - 1;
      }
    }

    /** The case '}', ']' of the loop. */
    method CloseContainer(tokens: array<Token>, c: char) returns (r: int)
      requires Valid(tokens) && (c == '}' || c == ']')
      modifies this`toksuper, tokens
      ensures Valid(tokens)
      ensures match Close(old(Abs(tokens)), if c == '}' then Object else Array)
        case Stop(code) => r == code && Abs(tokens) == old(Abs(tokens))
        case Next(st) => r == 0 && Abs(tokens).(pos := pos + 1) == st
    {
      hide LastOpen;
      var kind := if c == '}' then Object else Array;
      assert tokens[..toknext - 1 + 1] == tokens[..toknext];
      var i := ScanBack(tokens, toknext - 1);
      if i != -1 {
        if tokens[i].kind != kind { return INVAL; }
        toksuper := -1;
        tokens[i] := tokens[i].(end := pos + 1);
      }
      if i == -1 { return INVAL; }
      ghost var toks := tokens[..toknext];
      assert toks == old(tokens[..toknext])[i := tokens[i]];
      LastOpenBefore(toks, i);
      assert toks[..i + 1] == tokens[..i + 1];
      i := ScanBack(tokens, i);
      if i != -1 { toksuper := i; }
      return 0;
    }

    /** The case ',' of the loop. */
    method ReturnToContainer(tokens: array<Token>)
      requires Valid(tokens)
      modifies this`toksuper
      ensures Valid(tokens) && Abs(tokens).(pos := pos + 1) == Comma(old(Abs(tokens)))
    {
      if toksuper != -1 && tokens[toksuper].kind != Array && tokens[toksuper].kind != Object {
        var i := toknext - 1;
        assert tokens[..i + 1] == tokens[..toknext];
        while i >= 0
          invariant -1 <= i < toknext && toksuper == old(toksuper)
          invariant LastOpenContainer(tokens[..i + 1]) == LastOpenContainer(tokens[..toknext])
        {
          assert tokens[..i + 1][..i] == tokens[..i];
          if tokens[i].kind == Array || tokens[i].kind == Object {
            if tokens[i].start != -1 && tokens[i].end == -1 {
              toksuper := i;
              return;
            }
          }
          i := i - 1;
        }
      }
    }

    /** `tokens[toksuper].size++` behind a string or a primitive. */
    method CountIn(tokens: array<Token>, ghost before: State, ghost t: Token)
      requires Valid(tokens) && Sound(before) && before.super == toksuper && toknext == |before.toks| + 1
      requires tokens[..toknext] == before.toks + [t]
      modifies tokens
      ensures Valid(tokens) && tokens[..toknext] == Bump(before.toks, before.super) + [t]
    {
      if toksuper != -1 {
        assert tokens[toksuper] == tokens[..toknext][toksuper];
        tokens[toksuper] := tokens[toksuper].(size := tokens[toksuper].size + 1);
      }
    }

    /** One turn of the loop, up to `pos++`. */
    method Turn(js: string, tokens: array?<Token>, count: nat) returns (r: int, count': nat)
      requires !AtEnd(js, pos) && (tokens != null ==> Valid(tokens))
      modifies this, tokens
      ensures tokens == null ==> toknext == old(toknext)
      ensures tokens == null ==>
        match CountStep(js, old(pos))
        case Ends(q) => r == 0 && pos + 1 == q && count' == count + if BeginsToken(js[old(pos)]) then 1 else 0
        case Invalid => r == INVAL
        case Partial => r == PART
      ensures tokens != null ==> Valid(tokens)
      ensures tokens != null ==>
        match Step(js, tokens.Length, old(Abs(tokens)))
        case Next(st) => r == 0 && Abs(tokens).(pos := pos + 1) == st && count' == count + toknext - old(toknext)
        case Stop(code) => r == code && Abs(tokens) == old(Abs(tokens))
    {
      hide StringEnd, PrimitiveEnd, LastOpen, LastOpenContainer, Bump;
      r, count' := 0, count;
      var c := js[pos];
      if c == '{' || c == '[' {
        count' := count + 1;
        if tokens != null { r := OpenContainer(js, tokens, c); }
      } else if c == '}' || c == ']' {
        if tokens != null { r := CloseContainer(tokens, c); }
      } else if c == '"' {
        r, count' := StringTurn(js, tokens, count);
      } else if c == '\t' || c == '\r' || c == '\n' || c == ' ' {
      } else if c == ':' {
        toksuper := toknext - 1;
      } else if c == ',' {
        if tokens != null { ReturnToContainer(tokens); }
      } else {
        r, count' := PrimitiveTurn(js, tokens, count);
      }
    }

    method StringTurn(js: string, tokens: array?<Token>, count: nat) returns (r: int, count': nat)
      requires pos < |js| && (tokens != null ==> Valid(tokens))
      modifies this`pos, this`toknext, tokens
      ensures tokens == null ==> toknext == old(toknext)
      ensures tokens == null ==>
        match StringEnd(js, old(pos) + 1)
        case Ends(q) => r == 0 && pos == q && count' == count + 1
        case Invalid => r == INVAL
        case Partial => r == PART
      ensures tokens != null ==> Valid(tokens)
      ensures tokens != null ==>
        match StringEnd(js, old(pos) + 1)
        case Ends(q) =>
          (match Add(old(Abs(tokens)), tokens.Length, Token(String, old(pos) + 1, q, 0), toksuper, q + 1)
           case Next(st) => r == 0 && Abs(tokens).(pos := pos + 1) == st && count' == count + 1 && toknext == old(toknext) + 1
           case Stop(code) => r == code && Abs(tokens) == old(Abs(tokens)))
        case Invalid => r == INVAL && Abs(tokens) == old(Abs(tokens))
        case Partial => r == PART && Abs(tokens) == old(Abs(tokens))
    {
      hide StringEnd, Bump;
      ghost var start := pos;
      count' := count;
      r := ParseString(js, tokens);
      if r < 0 {
        assert tokens != null ==> tokens[..toknext] == tokens[..][..toknext];
        return;
      }
      count' := count + 1;
      if tokens != null { CountIn(tokens, old(Abs(tokens)), Token(String, start + 1, pos, 0)); }
    }

    method PrimitiveTurn(js: string, tokens: array?<Token>, count: nat) returns (r: int, count': nat)
      requires pos < |js| && !AtEnd(js, pos) && !IsDelimiter(js[pos]) && (tokens != null ==> Valid(tokens))
      modifies this`pos, this`toknext, tokens
      ensures tokens == null ==> toknext == old(toknext)
      ensures tokens == null ==>
        match PrimitiveEnd(js, old(pos))
        case Ends(q) => r == 0 && pos + 1 == q && count' == count + 1
        case _ => r == INVAL
      ensures tokens != null ==> Valid(tokens)
      ensures tokens != null ==>
        match PrimitiveEnd(js, old(pos))
        case Ends(q) =>
          (match Add(old(Abs(tokens)), tokens.Length, Token(Primitive, old(pos), q, 0), toksuper, q)
           case Next(st) => r == 0 && Abs(tokens).(pos := pos + 1) == st && count' == count + 1 && toknext == old(toknext) + 1
           case Stop(code) => r == code && Abs(tokens) == old(Abs(tokens)))
        case _ => r == INVAL && Abs(tokens) == old(Abs(tokens))
    {
      hide PrimitiveEnd, Bump;
      ghost var start := pos;
      count' := count;
      r := ParsePrimitive(js, tokens);
      if r < 0 {
        assert tokens != null ==> tokens[..toknext] == tokens[..][..toknext];
        return;
      }
      count' := count + 1;
      if tokens != null { CountIn(tokens, old(Abs(tokens)), Token(Primitive, start, pos + 1, 0)); }
    }

    /** jsmn_parse; `tokens` may be NULL to count only. */
    method Parse(js: string, tokens: array?<Token>) returns (r: int)
      requires tokens != null ==> Valid(tokens)
      modifies this, tokens
      ensures tokens == null ==> r == Count(js, old(pos), old(toknext)) && toknext == old(toknext)
      ensures tokens != null ==> Valid(tokens) && (r, Abs(tokens)) == Run(js, tokens.Length, old(Abs(tokens)))
    {
      hide Step, CountStep;
      var count := toknext;
      while pos < |js| && js[pos] != '\0'
        invariant tokens == null ==> toknext == old(toknext) && Count(js, pos, count) == Count(js, old(pos), old(toknext))
        invariant tokens != null ==> Valid(tokens) && count == toknext
        invariant tokens != null ==>
                    Run(js, tokens.Length, Abs(tokens)) == Run(js, tokens.Length, old(Abs(tokens)))
        decreases |js| - pos
      {
        r, count := Turn(js, tokens, count);
        if r < 0 { return; }
        pos := pos + 1;
      }
      if tokens != null {
        var i := ScanBack(tokens, toknext - 1);
        if i != -1 { return PART; }
      }
      return count;
    }
  }

  lemma {:induction false} LastOpenBefore(toks: seq<Token>, i: nat)
    requires i < |toks| && forall j :: i < j < |toks| ==> !IsOpen(toks[j])
    ensures LastOpen(toks) == LastOpen(toks[..i + 1])
  {
    if i == |toks| - 1 {
      assert toks[..i + 1] == toks;
    } else {
      var shorter := toks[..|toks| - 1];
      LastOpenBefore(shorter, i);
      assert shorter[..i + 1] == toks[..i + 1];
    }
  }
}
