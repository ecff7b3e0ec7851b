/** What the tokenizer takes for a string and for a primitive, said of the text. */
module JsmnText {
  import opened JsmnSpec

  // ------------------------------------------------------------- characters

  /** What the tokenizer tells apart, character by character, and its error codes. */
  lemma CharacterClasses(c: char)
    ensures IsEscape(c) <==> c in "\"/\\bfrnt"
    ensures IsHex(c) <==> c in "0123456789ABCDEFabcdef"
    ensures IsDelimiter(c) <==> c in "\t\r\n :,]}"
    ensures IsPrintable(c) <==> ' ' <= c <= '~'
    ensures NOMEM == -1 && INVAL == -2 && PART == -3
  {
    hide IsEscape, IsDelimiter;
    EscapesAre(c);
    HexAre(c);
    DelimitersAre(c);
  }

  lemma EscapesAre(c: char)
    ensures IsEscape(c) <==> c in "\"/\\bfrnt"
  {
    var s := "\"/\\bfrnt";
    assert s[0] == '"' && s[1] == '/' && s[2] == '\\' && s[3] == 'b' && s[4] == 'f' && s[5] == 'r' && s[6] == 'n' && s[7] == 't';
  }

  lemma HexAre(c: char)
    ensures IsHex(c) <==> c in "0123456789ABCDEFabcdef"
  {
    var s := "0123456789ABCDEFabcdef";
    if '0' <= c <= '9' { assert s[c as int - '0' as int] == c; }
    if 'A' <= c <= 'F' { assert s[10 + c as int - 'A' as int] == c; }
    if 'a' <= c <= 'f' { assert s[16 + c as int - 'a' as int] == c; }
  }

  lemma DelimitersAre(c: char)
    ensures IsDelimiter(c) <==> c in "\t\r\n :,]}"
  {
    var s := "\t\r\n :,]}";
    assert s[0] == '\t' && s[1] == '\r' && s[2] == '\n' && s[3] == ' ' && s[4] == ':' && s[5] == ',' && s[6] == ']' && s[7] == '}';
  }

  // ------------------------------------------------------------- strings

  /** One character of a string's text, or one escape: two characters, or six. */
  predicate Unit(js: string, x: nat, y: nat) {
    && x < y <= |js|
    && (if js[x] == '\\' then
          (y == x + 2 && js[x + 1] in "\"/\\bfrnt") ||
          (y == x + 6 && js[x + 1] == 'u' && IsHex(js[x + 2]) && IsHex(js[x + 3]) && IsHex(js[x + 4]) && IsHex(js[x + 5]))
        else y == x + 1 && js[x] != '"' && js[x] != '\0')
  }

  /** From x to y there are whole units. */
  ghost predicate Units(js: string, x: nat, y: nat)
    decreases y - x
  {
    x == y || exists m :: x < m <= y && Unit(js, x, m) && Units(js, m, y)
  }

  lemma UnitsCons(js: string, x: nat, m: nat, y: nat)
    requires m <= y && Unit(js, x, m) && Units(js, m, y)
    ensures Units(js, x, y)
  {
  }

  lemma HexEndIs(js: string, p: nat)
    requires p <= |js| && HexEnd(js, p, 4).Ends?
    ensures var q := HexEnd(js, p, 4).at;
      p <= q <= |js| && (q == p + 4 || AtEnd(js, q)) && q <= p + 4 && forall i :: p <= i < q ==> IsHex(js[i])
  {
    HexIs(js, p, 4);
  }

  lemma {:induction false} HexIs(js: string, p: nat, n: nat)
    requires p <= |js| && HexEnd(js, p, n).Ends?
    ensures var q := HexEnd(js, p, n).at;
      p <= q <= |js| && (q == p + n || AtEnd(js, q)) && q <= p + n && forall i :: p <= i < q ==> IsHex(js[i])
    decreases n
  {
    if n > 0 && !AtEnd(js, p) { HexIs(js, p + 1, n - 1); }
  }

  lemma {:induction false} HexRun(js: string, p: nat, n: nat)
    requires p + n <= |js| && forall i :: p <= i < p + n ==> IsHex(js[i])
    ensures HexEnd(js, p, n) == Ends(p + n)
    decreases n
  {
    if n > 0 { HexRun(js, p + 1, n - 1); }
  }

  /** A string ends at the first quote that no escape takes in. */
  lemma {:induction false} StringEndsAt(js: string, p: nat)
    requires StringEnd(js, p).Ends?
    ensures var q := StringEnd(js, p).at; p <= q < |js| && js[q] == '"' && Units(js, p, q)
    decreases |js| - p
  {
    hide IsHex, IsEscape;
    var q := StringEnd(js, p).at;
    if js[p] != '"' {
      if js[p] == '\\' && p + 1 < |js| {
        EscapesAre(js[p + 1]);
        if IsEscape(js[p + 1]) {
          StringEndsAt(js, p + 2);
          UnitsCons(js, p, p + 2, q);
        } else {
          HexEndIs(js, p + 2);
          var m := HexEnd(js, p + 2, 4).at;
          StringEndsAt(js, m);
          UnitsCons(js, p, p + 6, q);
        }
      } else {
        StringEndsAt(js, p + 1);
        UnitsCons(js, p, p + 1, q);
      }
    }
  }

  lemma {:induction false} UnitsEndAt(js: string, p: nat, q: nat)
    requires p <= q < |js| && js[q] == '"' && Units(js, p, q)
    ensures StringEnd(js, p) == Ends(q)
    decreases q - p
  {
    hide IsHex, IsEscape;
    if p != q {
      var m :| p < m <= q && Unit(js, p, m) && Units(js, m, q);
      if js[p] == '\\' {
        EscapesAre(js[p + 1]);
        if m == p + 6 {
          assert IsHex(js[p + 2 + 0]) && IsHex(js[p + 2 + 1]) && IsHex(js[p + 2 + 2]) && IsHex(js[p + 2 + 3]);
          HexRun(js, p + 2, 4);
        }
      }
      UnitsEndAt(js, m, q);
    }
  }

  lemma StringEndsExactly(js: string, p: nat, q: nat)
    ensures StringEnd(js, p) == Ends(q) <==> p <= q < |js| && js[q] == '"' && Units(js, p, q)
  {
    hide StringEnd, Units;
    if StringEnd(js, p) == Ends(q) { StringEndsAt(js, p); }
    if p <= q < |js| && js[q] == '"' && Units(js, p, q) { UnitsEndAt(js, p, q); }
  }

  /** At x a backslash with an unknown letter behind it, or \u with something else
      than a hexadecimal digit among the next four characters. */
  predicate BadEscape(js: string, x: nat) {
    && x + 1 < |js| && js[x] == '\\'
    && (js[x + 1] !in "\"/\\bfrntu" || (js[x + 1] == 'u' && BadHex(js, x + 2, 4)))
  }

  predicate BadHex(js: string, p: nat, n: nat) {
    exists i :: p <= i < p + n && i < |js| && js[i] != '\0' && !IsHex(js[i]) && forall k :: p <= k < i ==> IsHex(js[k])
  }

  lemma {:induction false} HexFailsExactly(js: string, p: nat, n: nat)
    ensures HexEnd(js, p, n).Invalid? <==> BadHex(js, p, n)
    decreases n
  {
    if n > 0 && !AtEnd(js, p) {
      HexFailsExactly(js, p + 1, n - 1);
      if IsHex(js[p]) {
        if i :| p + 1 <= i < p + n && i < |js| && js[i] != '\0' && !IsHex(js[i]) && forall k :: p + 1 <= k < i ==> IsHex(js[k]) {
          assert forall k :: p <= k < i ==> IsHex(js[k]);
        }
        if i :| p <= i < p + n && i < |js| && js[i] != '\0' && !IsHex(js[i]) && forall k :: p <= k < i ==> IsHex(js[k]) {
          assert i != p;
        }
      } else {
        assert js[p] != '\0' && !IsHex(js[p]);
      }
    }
  }

  lemma LettersAre(c: char)
    ensures c in "\"/\\bfrntu" <==> c in "\"/\\bfrnt" || c == 'u'
  {
    assert "\"/\\bfrntu" == "\"/\\bfrnt" + "u";
  }

  /** The text is invalid exactly if whole units lead to a bad escape. */
  lemma {:induction false} StringFailsExactly(js: string, p: nat)
    ensures StringEnd(js, p).Invalid? <==> exists x :: p <= x && Units(js, p, x) && BadEscape(js, x)
    decreases |js| - p
  {
    hide IsHex, IsEscape, BadHex, Unit;
    if AtEnd(js, p) || js[p] == '"' || (js[p] == '\\' && p + 1 == |js|) {
      EndIsNoUnit(js, p);
      NothingHere(js, p);
    } else if js[p] != '\\' {
      StringFailsExactly(js, p + 1);
      PlainIsUnit(js, p);
      UnitsStep(js, p, p + 1);
    } else {
      EscapeFailsExactly(js, p);
    }
  }

  lemma PlainIsUnit(js: string, p: nat)
    requires p < |js| && js[p] != '\\' && js[p] != '"' && js[p] != '\0'
    ensures Unit(js, p, p + 1) && !BadEscape(js, p)
  {
  }

  lemma {:induction false} EscapeFailsExactly(js: string, p: nat)
    requires p + 1 < |js| && js[p] == '\\'
    ensures StringEnd(js, p).Invalid? <==> exists x :: p <= x && Units(js, p, x) && BadEscape(js, x)
    decreases |js| - p, 0
  {
    hide IsHex, IsEscape, BadHex;
    EscapesAre(js[p + 1]);
    LettersAre(js[p + 1]);
    assert Units(js, p, p);
    if IsEscape(js[p + 1]) {
      assert js[p + 1] != 'u';
      StringFailsExactly(js, p + 2);
      UnitsStep(js, p, p + 2);
    } else if js[p + 1] == 'u' {
      HexFailsExactly(js, p + 2, 4);
      if HexEnd(js, p + 2, 4).Ends? {
        HexEndIs(js, p + 2);
        var m := HexEnd(js, p + 2, 4).at;
        StringFailsExactly(js, m);
        if m == p + 6 {
          UnitsStep(js, p, m);
        } else {
          CutShort(js, p, m);
          NothingHere(js, p);
          EndIsNoUnit(js, m);
          NothingHere(js, m);
        }
      }
    }
  }

  /** If one unit lies before m and no bad escape at p, the rest decides. */
  lemma UnitsStep(js: string, p: nat, m: nat)
    requires Unit(js, p, m) && !BadEscape(js, p) && (js[p] == '\\' && js[p + 1] == 'u' ==> m == p + 6)
    ensures (exists x :: p <= x && Units(js, p, x) && BadEscape(js, x)) <==> exists x :: m <= x && Units(js, m, x) && BadEscape(js, x)
  {
    hide BadEscape, IsHex;
    if x :| m <= x && Units(js, m, x) && BadEscape(js, x) { UnitsCons(js, p, m, x); }
    if x :| p <= x && Units(js, p, x) && BadEscape(js, x) {
      assert x != p;
      var m' :| p < m' <= x && Unit(js, p, m') && Units(js, m', x);
      assert m' == m;
    }
  }

  /** Where no unit lies and no bad escape, no bad escape is reached. */
  lemma NothingHere(js: string, p: nat)
    requires (forall m: nat :: !Unit(js, p, m)) && !BadEscape(js, p)
    ensures !(exists x :: p <= x && Units(js, p, x) && BadEscape(js, x))
  {
    hide Unit, BadEscape;
  }

  lemma EndIsNoUnit(js: string, p: nat)
    requires AtEnd(js, p) || js[p] == '"' || (js[p] == '\\' && p + 1 == |js|)
    ensures (forall m: nat :: !Unit(js, p, m)) && !BadEscape(js, p)
  {
  }

  lemma CutShort(js: string, p: nat, m: nat)
    requires p + 1 < |js| && js[p] == '\\' && js[p + 1] == 'u' && p + 2 <= m < p + 6 && AtEnd(js, m)
    ensures forall y: nat :: !Unit(js, p, y)
  {
  }

  // ------------------------------------------------------------- primitives

  /** A primitive goes up to the first delimiter or the end, through printable
      characters only. */
  lemma {:induction false} PrimitiveEndsExactly(js: string, p: nat, q: nat)
    requires p <= |js|
    ensures PrimitiveEnd(js, p) == Ends(q) <==>
              && p <= q <= |js| && (AtEnd(js, q) || js[q] in "\t\r\n :,]}")
              && forall i :: p <= i < q ==> ' ' <= js[i] <= '~' && js[i] !in "\t\r\n :,]}"
    decreases |js| - p
  {
    hide IsDelimiter;
    if p < |js| {
      DelimitersAre(js[p]);
      if !(AtEnd(js, p) || IsDelimiter(js[p])) {
        PrimitiveEndsExactly(js, p + 1, q);
        if p <= q && q <= |js| && q == p { assert !(AtEnd(js, q) || js[q] in "\t\r\n :,]}"); }
      }
    }
  }
}
