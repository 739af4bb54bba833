/** AIP-132 order_by strings (pkg/aip/order.go): the parser, the tie-breaker merge and the direction test. */
module Order {
  import opened Prelude

  datatype Direction = Asc | Desc

  datatype OrderField = OrderField(path: string, direction: Direction)

  datatype ParseError = InvalidOrderBy

  type OrderBy = seq<OrderField>

  /** unicode.IsSpace */
  predicate IsSpace(c: char) {
    || c == ' '
    || '\t' <= c <= '\r'
    || c == '\U{0085}' || c == '\U{00A0}' || c == '\U{1680}'
    || '\U{2000}' <= c <= '\U{200A}'
    || c == '\U{2028}' || c == '\U{2029}' || c == '\U{202F}' || c == '\U{205F}' || c == '\U{3000}'
  }

  function TrimLeft(s: string): string {
    if s != [] && IsSpace(s[0]) then TrimLeft(s[1..]) else s
  }

  function TrimRight(s: string): string {
    if s != [] && IsSpace(s[|s| - 1]) then TrimRight(s[..|s| - 1]) else s
  }

  function TrimSpace(s: string): string { TrimRight(TrimLeft(s)) }

  /** strings.Split(s, ",") */
  function Split(s: string): (parts: seq<string>)
    ensures |parts| > 0
  {
    if s == [] then [[]]
    else
      var rest := Split(s[1..]);
      if s[0] == ',' then [[]] + rest else [[s[0]] + rest[0]] + rest[1..]
  }

  function WordLength(s: string): (n: nat)
    ensures n <= |s|
    ensures s != [] && !IsSpace(s[0]) ==> n > 0
  {
    if s != [] && !IsSpace(s[0]) then 1 + WordLength(s[1..]) else 0
  }

  lemma {:induction false} TrimLeftShape(s: string)
    ensures |TrimLeft(s)| <= |s| && TrimLeft(s) == s[|s| - |TrimLeft(s)|..]
    ensures TrimLeft(s) != [] ==> !IsSpace(TrimLeft(s)[0])
  {
    if s != [] && IsSpace(s[0]) {
      TrimLeftShape(s[1..]);
    }
  }

  /** strings.Fields */
  function Fields(s: string): seq<string>
    decreases |s|
  {
    TrimLeftShape(s);
    var t := TrimLeft(s);
    if t == [] then [] else [t[..WordLength(t)]] + Fields(t[WordLength(t)..])
  }

  function ToLowerAscii(s: string): string {
    seq(|s|, i requires 0 <= i < |s| =>
      if 'A' <= s[i] <= 'Z' then (s[i] as int + 32) as char else s[i])
  }

  /** One comma-separated item. */
  function ParseItem(item: string): Result<OrderField, ParseError> {
    var parts := Fields(TrimSpace(item));
    if |parts| == 1 then Success(OrderField(parts[0], Asc))
    else if |parts| == 2 && ToLowerAscii(parts[1]) == "asc" then Success(OrderField(parts[0], Asc))
    else if |parts| == 2 && ToLowerAscii(parts[1]) == "desc" then Success(OrderField(parts[0], Desc))
    else Failure(InvalidOrderBy)
  }

  ghost predicate DistinctPaths(fields: OrderBy) {
    forall i, j :: 0 <= i < j < |fields| ==> fields[i].path != fields[j].path
  }

  predicate Allowed(letter: char -> bool, c: char) {
    letter(c) || c == '_' || c == ' ' || c == ',' || c == '.'
  }

  /** What an order_by string means: letter is unicode.IsLetter or unicode.IsNumber. */
  ghost predicate Parses(letter: char -> bool, s: string, fields: OrderBy) {
    var t := TrimSpace(s);
    if t == [] then fields == []
    else
      (forall i :: 0 <= i < |t| ==> Allowed(letter, t[i])) && ItemsParse(Split(t), fields)
  }

  /** Each item means its field, and no path is named twice. */
  ghost predicate ItemsParse(items: seq<string>, fields: OrderBy) {
    && |fields| == |items|
    && DistinctPaths(fields)
    && forall i :: 0 <= i < |fields| ==> ParseItem(items[i]) == Success(fields[i])
  }

  /** At most one field list is meant by a string. */
  lemma ParsesUnique(letter: char -> bool, s: string, f: OrderBy, g: OrderBy)
    requires Parses(letter, s, f) && Parses(letter, s, g)
    ensures f == g
  {
    if TrimSpace(s) != [] {
      forall i | 0 <= i < |f| ensures f[i] == g[i] {
        assert ParseItem(Split(TrimSpace(s))[i]) == Success(f[i]);
        assert ParseItem(Split(TrimSpace(s))[i]) == Success(g[i]);
      }
    }
  }

  ghost function Parsed(letter: char -> bool, s: string): Result<OrderBy, ParseError> {
    if exists f :: Parses(letter, s, f) then
      var f :| Parses(letter, s, f);
      Success(f)
    else Failure(InvalidOrderBy)
  }

  /** The switch on the words of one item. */
  method ParseDirection(parts: seq<string>) returns (r: Result<Direction, ParseError>)
    requires parts != []
    ensures forall item :: Fields(TrimSpace(item)) == parts ==>
      ParseItem(item) == if r.Success? then Success(OrderField(parts[0], r.value)) else Failure(InvalidOrderBy)
  {
    match |parts| {
      case 1 => return Success(Asc);
      case 2 =>
        var word := ToLowerAscii(parts[1]);
        if word == "asc" {
          return Success(Asc);
        } else if word == "desc" {
          return Success(Desc);
        }
        return Failure(InvalidOrderBy);
      case _ => return Failure(InvalidOrderBy);
    }
  }

  ghost predicate HasPath(fields: OrderBy, path: string) {
    exists k :: 0 <= k < |fields| && fields[k].path == path
  }

  lemma BadItem(items: seq<string>, i: nat)
    requires i < |items| && ParseItem(items[i]).Failure?
    ensures forall f :: !ItemsParse(items, f)
  {
    forall f: OrderBy ensures !ItemsParse(items, f) {
      assert i < |f| ==> ParseItem(items[i]) != Success(f[i]);
    }
  }

  /** Two items with one path mean no order. */
  lemma RepeatedPath(items: seq<string>, fields: OrderBy, field: OrderField)
    requires |fields| < |items| && ItemsParse(items[..|fields|], fields)
    requires ParseItem(items[|fields|]) == Success(field) && HasPath(fields, field.path)
    ensures forall f :: !ItemsParse(items, f)
  {
    var n := |fields|;
    var k :| 0 <= k < n && fields[k].path == field.path;
    assert ParseItem(items[..n][k]) == Success(fields[k]) && items[..n][k] == items[k];
    forall f: OrderBy ensures !ItemsParse(items, f) {
      if n < |f| && ParseItem(items[k]) == Success(f[k]) && ParseItem(items[n]) == Success(f[n]) {
        assert f[k].path == f[n].path;
      }
    }
  }

  /** A path seen before is refused, whatever direction follows it. */
  lemma SeenPath(items: seq<string>, fields: OrderBy, path: string)
    requires |fields| < |items| && ItemsParse(items[..|fields|], fields) && HasPath(fields, path)
    requires Fields(TrimSpace(items[|fields|])) != [] && Fields(TrimSpace(items[|fields|]))[0] == path
    ensures forall f :: !ItemsParse(items, f)
  {
    var item := ParseItem(items[|fields|]);
    if item.Success? {
      RepeatedPath(items, fields, item.value);
    } else {
      BadItem(items, |fields|);
    }
  }

  lemma NextItem(items: seq<string>, fields: OrderBy, field: OrderField)
    requires |fields| < |items| && ItemsParse(items[..|fields|], fields)
    requires ParseItem(items[|fields|]) == Success(field) && !HasPath(fields, field.path)
    ensures ItemsParse(items[..|fields| + 1], fields + [field])
    ensures forall p :: HasPath(fields + [field], p) <==> HasPath(fields, p) || p == field.path
  {
    var n, more := |fields|, fields + [field];
    forall k | 0 <= k < n + 1 ensures ParseItem(items[..n + 1][k]) == Success(more[k]) {
      assert k < n ==> ParseItem(items[..n][k]) == Success(fields[k]);
    }
    forall p ensures HasPath(more, p) <==> HasPath(fields, p) || p == field.path {
      assert more[n].path == field.path && forall k :: 0 <= k < n ==> more[k] == fields[k];
    }
  }

  method ParseItems(items: seq<string>) returns (r: Result<OrderBy, ParseError>)
    ensures r.Success? ==> ItemsParse(items, r.value)
    ensures r.Failure? ==> forall f :: !ItemsParse(items, f)
  {
    var fields: OrderBy := [];
    var seen: set<string> := {};
    for i := 0 to |items|
      invariant |fields| == i && ItemsParse(items[..i], fields)
      invariant forall p :: p in seen <==> HasPath(fields, p)
    {
      var parts := Fields(TrimSpace(items[i]));
      if |parts| == 0 {
        BadItem(items, i);
        return Failure(InvalidOrderBy);
      }
      var path := parts[0];
      if path in seen {
        SeenPath(items, fields, path);
        return Failure(InvalidOrderBy);
      }
      var direction := ParseDirection(parts);
      if direction.Failure? {
        BadItem(items, i);
        return Failure(InvalidOrderBy);
      }
      seen := seen + {path};
      NextItem(items, fields, OrderField(path, direction.value));
      fields := fields + [OrderField(path, direction.value)];
    }
    assert items[..|items|] == items;
    return Success(fields);
  }

  method CheckCharacters(letter: char -> bool, t: string) returns (ok: bool)
    ensures ok <==> forall i :: 0 <= i < |t| ==> Allowed(letter, t[i])
  {
    for i := 0 to |t|
      invariant forall k :: 0 <= k < i ==> Allowed(letter, t[k])
    {
      if !Allowed(letter, t[i]) {
        return false;
      }
    }
    return true;
  }

  /** The parser accepts exactly the strings that mean something, with that meaning. */
  method ParseOrderBy(letter: char -> bool, s: string) returns (r: Result<OrderBy, ParseError>)
    ensures r.Success? ==> Parses(letter, s, r.value)
    ensures r.Failure? ==> forall f :: !Parses(letter, s, f)
  {
    var t := TrimSpace(s);
    if t == "" {
      return Success([]);
    }
    var legal := CheckCharacters(letter, t);
    if !legal {
      return Failure(InvalidOrderBy);
    }
    r := ParseItems(Split(t));
  }

  ghost function AppendUnique(dst: OrderBy, add: OrderBy): OrderBy
    decreases |add|
  {
    if add == [] then dst
    else AppendUnique(if HasPath(dst, add[0].path) then dst else dst + [add[0]], add[1..])
  }

  method AppendUniqueFields(dst: OrderBy, add: OrderBy) returns (r: OrderBy)
    ensures r == AppendUnique(dst, add)
  {
    r := dst;
    for i := 0 to |add|
      invariant AppendUnique(dst, add) == AppendUnique(r, add[i..])
    {
      var found := false;
      for j := 0 to |r|
        invariant found <==> exists k :: 0 <= k < j && r[k].path == add[i].path
      {
        found := found || r[j].path == add[i].path;
      }
      if !found {
        r := r + [add[i]];
      }
      assert add[i..][1..] == add[i + 1..];
    }
  }

  /** The merge keeps what the client asked for first, and repeats nothing. */
  lemma {:induction false} AppendUniqueKeeps(dst: OrderBy, add: OrderBy)
    ensures dst <= AppendUnique(dst, add)
    ensures DistinctPaths(dst) ==> DistinctPaths(AppendUnique(dst, add))
    decreases |add|
  {
    if add != [] {
      AppendUniqueKeeps(if HasPath(dst, add[0].path) then dst else dst + [add[0]], add[1..]);
    }
  }

  lemma {:induction false} AppendUniqueInventsNothing(dst: OrderBy, add: OrderBy)
    ensures forall f :: f in AppendUnique(dst, add) ==> f in dst || f in add
    decreases |add|
  {
    if add != [] {
      AppendUniqueInventsNothing(if HasPath(dst, add[0].path) then dst else dst + [add[0]], add[1..]);
      assert add == [add[0]] + add[1..];
    }
  }

  lemma PathKept(dst: OrderBy, longer: OrderBy, path: string)
    requires dst <= longer && HasPath(dst, path)
    ensures HasPath(longer, path)
  {
    var k :| 0 <= k < |dst| && dst[k].path == path;
    assert longer[k] == dst[k];
  }

  /** It names every tie-breaker and invents nothing. */
  lemma {:induction false} AppendUniqueNames(dst: OrderBy, add: OrderBy)
    ensures forall a :: a in add ==> HasPath(AppendUnique(dst, add), a.path)
    ensures forall f :: f in AppendUnique(dst, add) ==> f in dst || f in add
    decreases |add|
  {
    AppendUniqueInventsNothing(dst, add);
    if add != [] {
      var next := if HasPath(dst, add[0].path) then dst else dst + [add[0]];
      AppendUniqueNames(next, add[1..]);
      AppendUniqueKeeps(next, add[1..]);
      assert add == [add[0]] + add[1..];
      assert next != dst ==> next[|dst|].path == add[0].path;
      PathKept(next, AppendUnique(next, add[1..]), add[0].path);
    }
  }

  /** The chosen positions of the added fields are those whose path is neither in the list nor earlier among the
      added fields, in ascending order. */
  ghost predicate Chosen(dst: OrderBy, add: OrderBy, chosen: seq<nat>) {
    && (forall k :: 0 <= k < |chosen| ==> chosen[k] < |add|)
    && (forall k, m :: 0 <= k < m < |chosen| ==> chosen[k] < chosen[m])
    && forall i :: 0 <= i < |add| ==> (i in chosen <==> IsNew(dst, add, i))
  }

  ghost predicate IsNew(dst: OrderBy, add: OrderBy, i: nat)
    requires i < |add|
  {
    !HasPath(dst, add[i].path) && !HasPath(add[..i], add[i].path)
  }

  ghost function At(add: OrderBy, chosen: seq<nat>): OrderBy
    requires forall k :: 0 <= k < |chosen| ==> chosen[k] < |add|
  {
    seq(|chosen|, k requires 0 <= k < |chosen| => add[chosen[k]])
  }

  lemma {:induction false} AppendUniqueSnoc(dst: OrderBy, add: OrderBy, last: OrderField)
    ensures
      var r := AppendUnique(dst, add);
      AppendUnique(dst, add + [last]) == if HasPath(r, last.path) then r else r + [last]
    decreases |add|
  {
    if add == [] {
      assert [] + [last] == [last] && [last][1..] == [];
    } else {
      assert (add + [last])[0] == add[0] && (add + [last])[1..] == add[1..] + [last];
      AppendUniqueSnoc(if HasPath(dst, add[0].path) then dst else dst + [add[0]], add[1..], last);
    }
  }

  /** A path is in the merge exactly when it is in one of the lists. */
  lemma MergedPaths(dst: OrderBy, add: OrderBy, path: string)
    ensures HasPath(AppendUnique(dst, add), path) <==> HasPath(dst, path) || HasPath(add, path)
  {
    var r := AppendUnique(dst, add);
    AppendUniqueKeeps(dst, add);
    AppendUniqueNames(dst, add);
    if HasPath(dst, path) {
      PathKept(dst, r, path);
    }
    if k :| 0 <= k < |add| && add[k].path == path {
      assert add[k] in add;
    }
    if k :| 0 <= k < |r| && r[k].path == path {
      assert r[k] in r;
    }
  }

  lemma ChosenSnoc(dst: OrderBy, add: OrderBy, last: OrderField, chosen: seq<nat>)
    requires Chosen(dst, add, chosen)
    ensures
      var isNew := !HasPath(dst, last.path) && !HasPath(add, last.path);
      Chosen(dst, add + [last], if isNew then chosen + [|add|] else chosen)
  {
    var all := add + [last];
    assert all[..|add|] == add;
    forall i | 0 <= i < |add| ensures IsNew(dst, all, i) <==> IsNew(dst, add, i) {
      assert all[..i] == add[..i];
    }
  }

  /** The merge is the list followed by the added fields it does not name, in their own order. */
  lemma {:induction false} AppendUniqueTail(dst: OrderBy, add: OrderBy) returns (chosen: seq<nat>)
    ensures Chosen(dst, add, chosen) && AppendUnique(dst, add) == dst + At(add, chosen)
    decreases |add|
  {
    chosen := [];
    if add != [] {
      var front, last := add[..|add| - 1], add[|add| - 1];
      var before := AppendUniqueTail(dst, front);
      assert add == front + [last];
      AppendUniqueSnoc(dst, front, last);
      MergedPaths(dst, front, last.path);
      ChosenSnoc(dst, front, last, before);
      chosen := if HasPath(dst, last.path) || HasPath(front, last.path) then before else before + [|front|];
      assert At(add, before) == At(front, before);
    }
  }

  predicate Uniform(order: OrderBy) {
    forall i, j :: 0 <= i < j < |order| ==> order[i].direction == order[j].direction
  }

  method IsUniformDirection(order: OrderBy) returns (uniform: bool)
    ensures uniform <==> Uniform(order)
  {
    if |order| <= 1 {
      return true;
    }
    var direction := order[0].direction;
    for i := 1 to |order|
      invariant forall k :: 0 <= k < i ==> order[k].direction == direction
    {
      if order[i].direction != direction {
        return false;
      }
    }
    return true;
  }

  // -- Round trip through the written form ------------------------------------------------------

  predicate WordChar(letter: char -> bool, c: char) { letter(c) || c == '_' || c == '.' }

  predicate GoodPath(letter: char -> bool, path: string) {
    path != [] && forall i :: 0 <= i < |path| ==> WordChar(letter, path[i])
  }

  ghost predicate WellFormed(letter: char -> bool, fields: OrderBy) {
    DistinctPaths(fields) && forall k :: 0 <= k < |fields| ==> GoodPath(letter, fields[k].path)
  }

  /** Facts of the Unicode tables that the parser relies on. */
  ghost predicate Alphabet(letter: char -> bool) {
    && (forall c :: letter(c) ==> !IsSpace(c) && c != ',')
    && (forall c :: 'a' <= c <= 'z' ==> letter(c))
  }

  function RenderItem(f: OrderField): string {
    f.path + if f.direction == Asc then " asc" else " desc"
  }

  function Render(fields: OrderBy): string {
    if fields == [] then ""
    else if |fields| == 1 then RenderItem(fields[0])
    else RenderItem(fields[0]) + (", " + Render(fields[1..]))
  }

  predicate SpaceFree(s: string) { forall i :: 0 <= i < |s| ==> !IsSpace(s[i]) }

  predicate CommaFree(s: string) { forall i :: 0 <= i < |s| ==> s[i] != ',' }

  predicate AllAllowed(letter: char -> bool, s: string) {
    forall i :: 0 <= i < |s| ==> Allowed(letter, s[i])
  }

  lemma {:induction false} WordLengthOf(word: string, rest: string)
    requires SpaceFree(word) && (rest == [] || IsSpace(rest[0]))
    ensures WordLength(word + rest) == |word|
  {
    if word == [] {
      assert word + rest == rest;
    } else {
      assert (word + rest)[1..] == word[1..] + rest;
      WordLengthOf(word[1..], rest);
    }
  }

  lemma FieldsOf(word: string, rest: string)
    requires word != [] && SpaceFree(word) && (rest == [] || IsSpace(rest[0]))
    ensures Fields(word + rest) == [word] + Fields(rest)
    ensures Fields(" " + word + rest) == [word] + Fields(rest)
  {
    WordLengthOf(word, rest);
    assert (word + rest)[0] == word[0];
    assert TrimLeft(word + rest) == word + rest;
    assert (word + rest)[..|word|] == word && (word + rest)[|word|..] == rest;
    var s := " " + word + rest;
    assert s[1..] == word + rest;
    assert TrimLeft(s) == TrimLeft(s[1..]);
  }

  lemma TrimPadded(item: string, pad: string)
    requires item != [] && !IsSpace(item[0]) && !IsSpace(item[|item| - 1]) && (pad == "" || pad == " ")
    ensures TrimSpace(pad + item) == item
  {
    assert TrimLeft(item) == item && TrimRight(item) == item;
    if pad == "" {
      assert pad + item == item;
    } else {
      assert (pad + item)[0] == ' ' && (pad + item)[1..] == item;
    }
  }

  lemma DirectionWord(word: string)
    requires word == "asc" || word == "desc"
    ensures ToLowerAscii(word) == word && SpaceFree(word) && Fields(" " + word) == [word]
  {
    FieldsOf(word, "");
    assert " " + word + "" == " " + word;
    assert Fields("") == [];
  }

  function DirectionText(d: Direction): string { if d == Asc then "asc" else "desc" }

  lemma ItemFields(f: OrderField)
    requires f.path != [] && SpaceFree(f.path)
    ensures Fields(RenderItem(f)) == [f.path, DirectionText(f.direction)]
  {
    var tail := " " + DirectionText(f.direction);
    assert RenderItem(f) == f.path + tail;
    FieldsOf(f.path, tail);
    DirectionWord(DirectionText(f.direction));
  }

  lemma ItemRoundTrip(f: OrderField, pad: string)
    requires f.path != [] && SpaceFree(f.path) && (pad == "" || pad == " ")
    ensures ParseItem(pad + RenderItem(f)) == Success(f)
  {
    var item := RenderItem(f);
    assert item[0] == f.path[0] && !IsSpace(item[|item| - 1]);
    TrimPadded(item, pad);
    ItemFields(f);
    DirectionWord(DirectionText(f.direction));
  }

  lemma {:induction false} SplitAppend(a: string, b: string)
    requires CommaFree(a)
    ensures Split(a + b) == [a + Split(b)[0]] + Split(b)[1..]
  {
    if a == [] {
      assert a + b == b && a + Split(b)[0] == Split(b)[0];
    } else {
      assert (a + b)[1..] == a[1..] + b;
      SplitAppend(a[1..], b);
      var first := Split(b)[0];
      assert [a[0]] + (a[1..] + first) == a + first;
    }
  }

  lemma ItemChars(letter: char -> bool, f: OrderField)
    requires Alphabet(letter) && GoodPath(letter, f.path)
    ensures CommaFree(RenderItem(f)) && AllAllowed(letter, RenderItem(f)) && SpaceFree(f.path)
    ensures RenderItem(f) != [] && !IsSpace(RenderItem(f)[0]) && !IsSpace(RenderItem(f)[|RenderItem(f)| - 1])
  {
    assert forall i :: 0 <= i < |f.path| ==> RenderItem(f)[i] == f.path[i] && WordChar(letter, f.path[i]);
  }

  lemma SplitCommaSpace(tail: string)
    ensures Split(", " + tail) == ["", " " + Split(tail)[0]] + Split(tail)[1..]
  {
    var spaced := " " + tail;
    SplitAppend(" ", tail);
    assert (", " + tail)[0] == ',' && (", " + tail)[1..] == spaced;
    assert Split(", " + tail) == [""] + Split(spaced);
  }

  lemma SplitOne(item: string)
    requires CommaFree(item)
    ensures Split(item) == [item]
  {
    SplitAppend(item, "");
    assert item + "" == item;
  }

  lemma SplitItem(item: string, tail: string)
    requires CommaFree(item)
    ensures Split(item + (", " + tail)) == [item, " " + Split(tail)[0]] + Split(tail)[1..]
  {
    var rest := Split(", " + tail);
    SplitCommaSpace(tail);
    assert rest[0] == "" && rest[1..] == [" " + Split(tail)[0]] + Split(tail)[1..];
    SplitAppend(item, ", " + tail);
    assert item + rest[0] == item;
  }

  lemma {:induction false} SplitRender(letter: char -> bool, fields: OrderBy)
    requires Alphabet(letter) && WellFormed(letter, fields) && fields != []
    ensures |Split(Render(fields))| == |fields|
    ensures Split(Render(fields))[0] == RenderItem(fields[0])
    ensures forall i :: 0 < i < |fields| ==> Split(Render(fields))[i] == " " + RenderItem(fields[i])
  {
    ItemChars(letter, fields[0]);
    SplitOne(RenderItem(fields[0]));
    SplitItem(RenderItem(fields[0]), Render(fields[1..]));
    if |fields| > 1 {
      SplitRender(letter, fields[1..]);
    }
  }

  /** A text whose ends are not spaces and whose characters are all allowed. */
  ghost predicate Trimmed(letter: char -> bool, s: string) {
    s != [] && !IsSpace(s[0]) && !IsSpace(s[|s| - 1]) && AllAllowed(letter, s)
  }

  lemma TrimmedJoin(letter: char -> bool, a: string, b: string)
    requires Trimmed(letter, a) && Trimmed(letter, b)
    ensures Trimmed(letter, a + (", " + b))
  {
    var all := a + (", " + b);
    assert all[0] == a[0] && all[|all| - 1] == b[|b| - 1];
    forall i | 0 <= i < |all| ensures Allowed(letter, all[i]) {
      assert i < |a| ==> all[i] == a[i];
      assert |a| + 2 <= i ==> all[i] == b[i - |a| - 2];
    }
  }

  lemma {:induction false} RenderEdges(letter: char -> bool, fields: OrderBy)
    requires Alphabet(letter) && WellFormed(letter, fields) && fields != []
    ensures Trimmed(letter, Render(fields))
  {
    ItemChars(letter, fields[0]);
    if |fields| > 1 {
      RenderEdges(letter, fields[1..]);
      TrimmedJoin(letter, RenderItem(fields[0]), Render(fields[1..]));
    }
  }

  /** Writing an order out and parsing it gives the order back, for every order of distinct well-formed paths. */
  lemma RenderRoundTrip(letter: char -> bool, fields: OrderBy)
    requires Alphabet(letter) && WellFormed(letter, fields)
    ensures Parses(letter, Render(fields), fields)
  {
    if fields != [] {
      var t := Render(fields);
      RenderEdges(letter, fields);
      assert TrimSpace(t) == t;
      SplitRender(letter, fields);
      forall i | 0 <= i < |fields| ensures ParseItem(Split(t)[i]) == Success(fields[i]) {
        ItemChars(letter, fields[i]);
        ItemRoundTrip(fields[i], if i == 0 then "" else " ");
        assert "" + RenderItem(fields[i]) == RenderItem(fields[i]);
      }
    }
  }

  lemma {:induction false} TrimRightShape(s: string)
    ensures TrimRight(s) <= s
  {
    if s != [] && IsSpace(s[|s| - 1]) {
      TrimRightShape(s[..|s| - 1]);
    }
  }

  lemma TrimChars(s: string)
    ensures forall c :: c in TrimSpace(s) ==> c in s
  {
    TrimLeftShape(s);
    TrimRightShape(TrimLeft(s));
  }

  lemma {:induction false} SplitChars(s: string)
    ensures forall p, c :: p in Split(s) && c in p ==> c in s && c != ','
  {
    if s != [] {
      SplitChars(s[1..]);
      assert Split(s[1..])[0] in Split(s[1..]);
      forall p, c | p in Split(s) && c in p ensures c in s && c != ',' {
        if p !in Split(s[1..]) && s[0] != ',' {
          assert p == [s[0]] + Split(s[1..])[0];
        }
      }
    }
  }

  lemma {:induction false} WordChars(s: string)
    ensures SpaceFree(s[..WordLength(s)])
  {
    if s != [] && !IsSpace(s[0]) {
      WordChars(s[1..]);
      assert s[..WordLength(s)] == [s[0]] + s[1..][..WordLength(s[1..])];
    }
  }

  lemma FirstField(s: string)
    requires Fields(s) != []
    ensures Fields(s)[0] != [] && SpaceFree(Fields(s)[0])
    ensures forall c :: c in Fields(s)[0] ==> c in s
  {
    TrimLeftShape(s);
    WordChars(TrimLeft(s));
  }

  /** Every accepted string means an order of distinct, well-formed paths, so writing that order out
      gives a canonical spelling of the same request. */
  lemma ParsedIsWellFormed(letter: char -> bool, s: string, fields: OrderBy)
    requires Alphabet(letter) && Parses(letter, s, fields)
    ensures WellFormed(letter, fields)
    ensures Parses(letter, Render(fields), fields)
  {
    var t := TrimSpace(s);
    if t != [] {
      forall k | 0 <= k < |fields| ensures GoodPath(letter, fields[k].path) {
        var part := Split(t)[k];
        assert ParseItem(part) == Success(fields[k]);
        SplitChars(t);
        TrimChars(part);
        FirstField(TrimSpace(part));
        forall i | 0 <= i < |fields[k].path| ensures WordChar(letter, fields[k].path[i]) {
          var c := fields[k].path[i];
          assert c in TrimSpace(part) && part in Split(t) && c in t;
        }
      }
    }
    RenderRoundTrip(letter, fields);
  }
}
