/** What an order_by string says, without reference to the parser: commas separate items, an item is a path with an
    optional direction word, and spaces may stand around the words. The parser reads exactly this. */
module Spelling {
  import opened Prelude
  import opened Order

  predicate AllSpace(s: string) { forall i :: 0 <= i < |s| ==> IsSpace(s[i]) }

  predicate Word(w: string) { w != [] && SpaceFree(w) }

  /** The word in any mixture of cases. */
  predicate AnyCase(w: string, lower: string, upper: string) {
    |w| == |lower| == |upper| && forall i :: 0 <= i < |w| ==> w[i] == lower[i] || w[i] == upper[i]
  }

  predicate NamesDirection(w: string, d: Direction) {
    match d
    case Asc => AnyCase(w, "asc", "ASC")
    case Desc => AnyCase(w, "desc", "DESC")
  }

  /** A direction word between spaces. */
  predicate Spaced(rest: string, d: Direction, gap: string, word: string, pad: string) {
    rest == gap + word + pad && gap != [] && AllSpace(gap) && AllSpace(pad) && NamesDirection(word, d)
  }

  /** What follows the path: nothing, which means ascending, or a direction word. */
  ghost predicate SpellsDirection(rest: string, d: Direction) {
    (AllSpace(rest) && d == Asc) || exists gap, word, pad :: Spaced(rest, d, gap, word, pad)
  }

  predicate PathFirst(item: string, path: string, pad: string, rest: string) {
    item == pad + path + rest && AllSpace(pad) && Word(path) && (rest == [] || IsSpace(rest[0]))
  }

  /** One item: a path, then its direction. */
  ghost predicate Spells(item: string, f: OrderField) {
    exists pad, rest :: PathFirst(item, f.path, pad, rest) && SpellsDirection(rest, f.direction)
  }

  function JoinCommas(items: seq<string>): string {
    if items == [] then "" else if |items| == 1 then items[0] else items[0] + ("," + JoinCommas(items[1..]))
  }

  ghost predicate ItemsSpell(items: seq<string>, fields: OrderBy) {
    && |items| == |fields| > 0
    && DistinctPaths(fields)
    && (forall i :: 0 <= i < |items| ==> CommaFree(items[i]))
    && forall i :: 0 <= i < |items| ==> Spells(items[i], fields[i])
  }

  /** The text between the outer spaces holds only permitted characters and consists of the items. */
  ghost predicate Consists(letter: char -> bool, s: string, pre: string, t: string, post: string, items: seq<string>) {
    && s == pre + t + post && AllSpace(pre) && AllSpace(post)
    && Trimmed(letter, t) && t == JoinCommas(items)
  }

  /** The order a string asks for; a blank string asks for none. */
  ghost predicate Denotes(letter: char -> bool, s: string, fields: OrderBy) {
    || (AllSpace(s) && fields == [])
    || exists pre, t, post, items :: Consists(letter, s, pre, t, post, items) && ItemsSpell(items, fields)
  }

  // -- Words ------------------------------------------------------------------------------------

  lemma {:induction false} TrimLeftPadded(pad: string, s: string)
    requires AllSpace(pad)
    ensures TrimLeft(pad + s) == TrimLeft(s)
  {
    if pad == [] {
      assert pad + s == s;
    } else {
      assert (pad + s)[0] == pad[0] && (pad + s)[1..] == pad[1..] + s;
      TrimLeftPadded(pad[1..], s);
    }
  }

  lemma FieldsPadded(pad: string, s: string)
    requires AllSpace(pad)
    ensures Fields(pad + s) == Fields(s)
  {
    TrimLeftPadded(pad, s);
  }

  lemma FieldsBlank(pad: string)
    requires AllSpace(pad)
    ensures Fields(pad) == []
  {
    TrimLeftPadded(pad, "");
    assert pad + "" == pad;
  }

  lemma {:induction false} LeadingSpaces(s: string) returns (pad: string)
    ensures s == pad + TrimLeft(s) && AllSpace(pad)
  {
    if s != [] && IsSpace(s[0]) {
      pad := LeadingSpaces(s[1..]);
      pad := [s[0]] + pad;
    } else {
      pad := "";
    }
  }

  lemma {:induction false} TrailingSpaces(s: string) returns (pad: string)
    ensures s == TrimRight(s) + pad && AllSpace(pad)
    ensures TrimRight(s) != [] ==> !IsSpace(TrimRight(s)[|TrimRight(s)| - 1])
  {
    if s != [] && IsSpace(s[|s| - 1]) {
      pad := TrailingSpaces(s[..|s| - 1]);
      pad := pad + [s[|s| - 1]];
    } else {
      pad := "";
    }
  }

  lemma {:induction false} WordEnd(t: string)
    ensures SpaceFree(t[..WordLength(t)])
    ensures WordLength(t) < |t| ==> IsSpace(t[WordLength(t)])
  {
    if t != [] && !IsSpace(t[0]) {
      WordEnd(t[1..]);
      assert t[..WordLength(t)] == [t[0]] + t[1..][..WordLength(t[1..])];
    }
  }

  lemma WordAt(t: string)
    requires t != [] && !IsSpace(t[0])
    ensures Word(t[..WordLength(t)]) && (WordLength(t) < |t| ==> IsSpace(t[WordLength(t)]))
  {
    WordEnd(t);
  }

  lemma CutAt(s: string, pad: string, t: string, n: nat)
    requires s == pad + t && AllSpace(pad) && n <= |t|
    requires Word(t[..n]) && (n < |t| ==> IsSpace(t[n]))
    ensures PathFirst(s, t[..n], pad, t[n..])
  {
    assert t == t[..n] + t[n..];
    assert pad + (t[..n] + t[n..]) == pad + t[..n] + t[n..];
  }

  lemma CutWord(s: string) returns (pad: string, word: string, rest: string)
    requires TrimLeft(s) != []
    ensures PathFirst(s, word, pad, rest)
    ensures word == TrimLeft(s)[..WordLength(TrimLeft(s))] && rest == TrimLeft(s)[WordLength(TrimLeft(s))..]
  {
    var t := TrimLeft(s);
    pad := LeadingSpaces(s);
    TrimLeftShape(s);
    WordAt(t);
    word, rest := t[..WordLength(t)], t[WordLength(t)..];
    CutAt(s, pad, t, WordLength(t));
  }

  lemma FieldsOfTrimmed(s: string)
    ensures TrimLeft(s) == [] ==> Fields(s) == []
    ensures TrimLeft(s) != [] ==>
      Fields(s) == [TrimLeft(s)[..WordLength(TrimLeft(s))]] + Fields(TrimLeft(s)[WordLength(TrimLeft(s))..])
  {
    TrimLeftShape(s);
  }

  /** The first word of a text that has one. */
  lemma FirstWord(s: string) returns (pad: string, word: string, rest: string)
    ensures Fields(s) == [] ==> AllSpace(s)
    ensures Fields(s) != [] ==> PathFirst(s, word, pad, rest) && Fields(s) == [word] + Fields(rest)
  {
    FieldsOfTrimmed(s);
    if TrimLeft(s) == [] {
      pad := LeadingSpaces(s);
      word, rest := "", "";
    } else {
      pad, word, rest := CutWord(s);
    }
  }

  lemma FieldsAre(s: string, pad: string, word: string, rest: string)
    requires PathFirst(s, word, pad, rest)
    ensures Fields(s) == [word] + Fields(rest)
  {
    assert s == pad + (word + rest);
    FieldsPadded(pad, word + rest);
    FieldsOf(word, rest);
  }

  lemma {:induction false} FieldsRightPad(s: string, pad: string)
    requires AllSpace(pad)
    ensures Fields(s + pad) == Fields(s)
    decreases |s|
  {
    var lead, word, rest := FirstWord(s);
    if Fields(s) == [] {
      FieldsBlank(s + pad);
    } else {
      FieldsRightPad(rest, pad);
      assert s + pad == lead + word + (rest + pad);
      assert PathFirst(s + pad, word, lead, rest + pad);
      FieldsAre(s + pad, lead, word, rest + pad);
    }
  }

  lemma FieldsTrimmed(s: string)
    ensures Fields(TrimSpace(s)) == Fields(s)
  {
    var pre := LeadingSpaces(s);
    FieldsPadded(pre, TrimLeft(s));
    var post := TrailingSpaces(TrimLeft(s));
    FieldsRightPad(TrimSpace(s), post);
  }

  // -- Items ------------------------------------------------------------------------------------

  lemma LowerIs(w: string)
    ensures ToLowerAscii(w) == "asc" <==> NamesDirection(w, Asc)
    ensures ToLowerAscii(w) == "desc" <==> NamesDirection(w, Desc)
  {
    assert |ToLowerAscii(w)| == |w|;
    assert forall i :: 0 <= i < |w| ==>
      ToLowerAscii(w)[i] == if 'A' <= w[i] <= 'Z' then (w[i] as int + 32) as char else w[i];
    if ToLowerAscii(w) == "asc" {
      assert forall i :: 0 <= i < 3 ==> ToLowerAscii(w)[i] == "asc"[i];
    }
    if ToLowerAscii(w) == "desc" {
      assert forall i :: 0 <= i < 4 ==> ToLowerAscii(w)[i] == "desc"[i];
    }
  }

  lemma SpelledDirection(rest: string, d: Direction)
    requires SpellsDirection(rest, d)
    ensures (Fields(rest) == [] && d == Asc) || (|Fields(rest)| == 1 && NamesDirection(Fields(rest)[0], d))
  {
    if AllSpace(rest) && d == Asc {
      FieldsBlank(rest);
    } else {
      var gap, word, pad :| Spaced(rest, d, gap, word, pad);
      assert Word(word) && PathFirst(rest, word, gap, pad);
      FieldsAre(rest, gap, word, pad);
      FieldsBlank(pad);
    }
  }

  lemma SpelledParses(item: string, f: OrderField)
    requires Spells(item, f)
    ensures ParseItem(item) == Success(f)
  {
    var pad, rest :| PathFirst(item, f.path, pad, rest) && SpellsDirection(rest, f.direction);
    FieldsTrimmed(item);
    FieldsAre(item, pad, f.path, rest);
    SpelledDirection(rest, f.direction);
    if Fields(rest) != [] {
      LowerIs(Fields(rest)[0]);
    }
  }

  lemma ParsedSpells(item: string, f: OrderField)
    requires ParseItem(item) == Success(f)
    ensures Spells(item, f)
  {
    FieldsTrimmed(item);
    var pad, path, rest := FirstWord(item);
    assert f.path == path;
    var gap, word, post := FirstWord(rest);
    if Fields(rest) != [] {
      var _, _, _ := FirstWord(post);
      LowerIs(word);
      assert gap != [] by {
        assert rest[0] == (gap + word + post)[0];
      }
      assert Spaced(rest, f.direction, gap, word, post);
    }
    assert PathFirst(item, f.path, pad, rest) && SpellsDirection(rest, f.direction);
  }

  /** The parser reads an item as a field exactly when the item spells it. */
  lemma ItemSpells(item: string, f: OrderField)
    ensures ParseItem(item) == Success(f) <==> Spells(item, f)
  {
    if ParseItem(item) == Success(f) {
      ParsedSpells(item, f);
    }
    if Spells(item, f) {
      SpelledParses(item, f);
    }
  }

  lemma TrimmedText(pre: string, t: string, post: string)
    requires AllSpace(pre) && AllSpace(post) && t != [] && !IsSpace(t[0]) && !IsSpace(t[|t| - 1])
    ensures TrimSpace(pre + t + post) == t
  {
    assert pre + t + post == pre + (t + post);
    TrimLeftPadded(pre, t + post);
    assert TrimLeft(t + post) == t + post;
    TrimRightPadded(t, post);
  }

  lemma {:induction false} TrimRightPadded(t: string, pad: string)
    requires AllSpace(pad) && t != [] && !IsSpace(t[|t| - 1])
    ensures TrimRight(t + pad) == t
    decreases |pad|
  {
    if pad == [] {
      assert t + pad == t;
    } else {
      assert (t + pad)[..|t + pad| - 1] == t + pad[..|pad| - 1];
      assert (t + pad)[|t + pad| - 1] == pad[|pad| - 1];
      TrimRightPadded(t, pad[..|pad| - 1]);
    }
  }

  lemma PathIsWord(letter: char -> bool, path: string)
    requires Alphabet(letter) && GoodPath(letter, path)
    ensures Word(path) && CommaFree(path) && AllAllowed(letter, path)
  {
    assert forall i :: 0 <= i < |path| ==> WordChar(letter, path[i]);
  }

  lemma BarePathSpells(path: string)
    requires Word(path)
    ensures Spells(path, OrderField(path, Asc))
  {
    assert path == "" + path + "" && PathFirst(path, path, "", "") && SpellsDirection("", Asc);
  }

  /** A path alone asks for ascending order. */
  lemma BarePathIsAscending(letter: char -> bool, path: string)
    requires Alphabet(letter) && GoodPath(letter, path)
    ensures Parses(letter, path, [OrderField(path, Asc)])
  {
    PathIsWord(letter, path);
    BarePathSpells(path);
    ItemSpells(path, OrderField(path, Asc));
    TrimmedText("", path, "");
    assert "" + path + "" == path;
    SplitOne(path);
  }

  // -- Whole strings ----------------------------------------------------------------------------

  lemma {:induction false} SplitJoined(items: seq<string>)
    requires items != [] && forall i :: 0 <= i < |items| ==> CommaFree(items[i])
    ensures Split(JoinCommas(items)) == items
  {
    if |items| == 1 {
      SplitOne(items[0]);
    } else {
      var rest := "," + JoinCommas(items[1..]);
      SplitJoined(items[1..]);
      assert rest[1..] == JoinCommas(items[1..]) && Split(rest) == [""] + items[1..];
      SplitAppend(items[0], rest);
      assert items[0] + "" == items[0];
    }
  }

  lemma JoinFirst(c: char, items: seq<string>)
    requires items != []
    ensures JoinCommas([[c] + items[0]] + items[1..]) == [c] + JoinCommas(items)
  {
    var more := [[c] + items[0]] + items[1..];
    assert more[1..] == items[1..];
    if |items| > 1 {
      var rest := "," + JoinCommas(items[1..]);
      assert ([c] + items[0]) + rest == [c] + (items[0] + rest);
    }
  }

  lemma {:induction false} JoinSplit(s: string)
    ensures JoinCommas(Split(s)) == s
    ensures forall i :: 0 <= i < |Split(s)| ==> CommaFree(Split(s)[i])
  {
    if s != [] {
      var rest := Split(s[1..]);
      JoinSplit(s[1..]);
      if s[0] == ',' {
        assert ([[]] + rest)[1..] == rest;
        assert [] + ("," + JoinCommas(rest)) == s;
      } else {
        JoinFirst(s[0], rest);
        assert CommaFree(rest[0]);
      }
    }
  }

  /** The outer spaces of a text, and what stands between them. */
  lemma Outer(s: string) returns (pre: string, post: string)
    ensures s == pre + TrimSpace(s) + post && AllSpace(pre) && AllSpace(post)
    ensures TrimSpace(s) != [] ==> !IsSpace(TrimSpace(s)[0]) && !IsSpace(TrimSpace(s)[|TrimSpace(s)| - 1])
    ensures TrimSpace(s) == [] <==> AllSpace(s)
  {
    pre := LeadingSpaces(s);
    post := TrailingSpaces(TrimLeft(s));
    TrimLeftShape(s);
    TrimRightShape(TrimLeft(s));
    if TrimSpace(s) != [] {
      assert TrimSpace(s)[0] == TrimLeft(s)[0];
      assert s[|pre|] == TrimSpace(s)[0];
    }
  }

  lemma ItemsSpellIff(items: seq<string>, fields: OrderBy)
    requires items != [] && forall i :: 0 <= i < |items| ==> CommaFree(items[i])
    ensures ItemsParse(items, fields) <==> ItemsSpell(items, fields)
  {
    if |items| == |fields| {
      forall i | 0 <= i < |items| ensures ParseItem(items[i]) == Success(fields[i]) <==> Spells(items[i], fields[i]) {
        ItemSpells(items[i], fields[i]);
      }
    }
  }

  /** The parser accepts a string as an order exactly when the string denotes it. */
  lemma ParsesIffDenotes(letter: char -> bool, s: string, fields: OrderBy)
    ensures Parses(letter, s, fields) <==> Denotes(letter, s, fields)
  {
    var t := TrimSpace(s);
    var before, after := Outer(s);
    forall pre, u, post, items | Consists(letter, s, pre, u, post, items) ensures u == t && t != [] {
      TrimmedText(pre, u, post);
    }
    if t != [] {
      JoinSplit(t);
      ItemsSpellIff(Split(t), fields);
      if Parses(letter, s, fields) {
        assert Consists(letter, s, before, t, after, Split(t));
      }
      if pre, u, post, items :| Consists(letter, s, pre, u, post, items) && ItemsSpell(items, fields) {
        SplitJoined(items);
      }
    }
  }
}
