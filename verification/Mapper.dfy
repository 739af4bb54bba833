/** Columns that hold maps and lists: the generated conversions between proto values and rows
    (cmd/protoc-gen-go-jet/emit_mapper.go, and the emitted maps_mapper.go and collections_mapper.go). */
module Mapper {
  import opened Prelude
  import opened Strconv

  // -- Map keys ---------------------------------------------------------------------------------

  datatype KeyKind = StringKind | BoolKind | Int32Kind | Int64Kind | Uint32Kind | Uint64Kind

  datatype Key = StringKey(s: string) | BoolKey(b: bool) | IntKey(n: int)

  datatype KeyError = BadKey

  /** The key is a value of the kind's Go type. */
  predicate OfKind(kind: KeyKind, k: Key) {
    match kind
    case StringKind => k.StringKey?
    case BoolKind => k.BoolKey?
    case Int32Kind => k.IntKey? && InSigned(k.n, 32)
    case Int64Kind => k.IntKey? && InSigned(k.n, 64)
    case Uint32Kind => k.IntKey? && 0 <= k.n < Pow2(32)
    case Uint64Kind => k.IntKey? && 0 <= k.n < Pow2(64)
  }

  function KeyToString(kind: KeyKind, k: Key): string
    requires OfKind(kind, k)
  {
    match kind
    case StringKind => k.s
    case BoolKind => FormatBool(k.b)
    case Int32Kind => FormatInt(k.n)
    case Int64Kind => FormatInt(k.n)
    case Uint32Kind => FormatUint(k.n)
    case Uint64Kind => FormatUint(k.n)
  }

  function StringToKey(kind: KeyKind, s: string): Option<Key> {
    match kind
    case StringKind => Some(StringKey(s))
    case BoolKind => if ParseBool(s).Some? then Some(BoolKey(ParseBool(s).value)) else None
    case Int32Kind => if ParseInt(s, 32).Some? then Some(IntKey(ParseInt(s, 32).value)) else None
    case Int64Kind => if ParseInt(s, 64).Some? then Some(IntKey(ParseInt(s, 64).value)) else None
    case Uint32Kind => if ParseUint(s, 32).Some? then Some(IntKey(ParseUint(s, 32).value)) else None
    case Uint64Kind => if ParseUint(s, 64).Some? then Some(IntKey(ParseUint(s, 64).value)) else None
  }

  /** Parsing inverts formatting for every key kind, so formatting is injective. */
  lemma KeyRoundTrip(kind: KeyKind, k: Key)
    requires OfKind(kind, k)
    ensures StringToKey(kind, KeyToString(kind, k)) == Some(k)
  {
    match kind {
      case StringKind =>
      case BoolKind => BoolRoundTrip(k.b);
      case Int32Kind => IntRoundTrip(k.n, 32);
      case Int64Kind => IntRoundTrip(k.n, 64);
      case Uint32Kind => UintRoundTrip(k.n, 32);
      case Uint64Kind => UintRoundTrip(k.n, 64);
    }
  }

  /** An integer key is written as its decimal text, a boolean one as the word for its value. */
  lemma KeyText(kind: KeyKind, k: Key)
    requires OfKind(kind, k)
    ensures k.IntKey? ==> exists digits :: WritesInt(KeyToString(kind, k), k.n, digits)
    ensures k.BoolKey? ==> KeyToString(kind, k) == if k.b then "true" else "false"
  {
    KeyRoundTrip(kind, k);
    match kind {
      case Int32Kind => ParseIntIff(KeyToString(kind, k), 32, k.n);
      case Int64Kind => ParseIntIff(KeyToString(kind, k), 64, k.n);
      case Uint32Kind => UnsignedText(KeyToString(kind, k), k.n);
      case Uint64Kind => UnsignedText(KeyToString(kind, k), k.n);
      case _ =>
    }
  }

  lemma UnsignedText(s: string, n: nat)
    requires ParseDigits(s) == Some(n)
    ensures WritesInt(s, n, s)
  {
    DigitsIff(s, n);
  }

  /** A parsed key is a value of the kind's Go type: parsing stays within the width. */
  lemma KeyInRange(kind: KeyKind, s: string)
    ensures StringToKey(kind, s).Some? ==> OfKind(kind, StringToKey(kind, s).value)
  {
    match kind {
      case Int32Kind => ParsedInRange(s, 32);
      case Int64Kind => ParsedInRange(s, 64);
      case _ =>
    }
  }

  lemma ParsedInRange(s: string, bits: nat)
    requires bits > 0
    ensures ParseInt(s, bits).Some? ==> InSigned(ParseInt(s, bits).value, bits)
  {
    Pow2Grows(0, bits - 1);
  }

  // -- Map columns ------------------------------------------------------------------------------

  /** How one key kind is written to and read from JSON object keys. */
  datatype KeyCodec<!K> = KeyCodec(enc: K -> string, dec: string -> Option<K>)

  function CodecOf(kind: KeyKind): KeyCodec<Key> {
    KeyCodec(k => if OfKind(kind, k) then KeyToString(kind, k) else "", s => StringToKey(kind, s))
  }

  ghost predicate Inverts<K(!new)>(c: KeyCodec<K>, keys: set<K>) {
    forall k :: k in keys ==> c.dec(c.enc(k)) == Some(k)
  }

  lemma CodecInverts(kind: KeyKind, keys: set<Key>)
    requires forall k :: k in keys ==> OfKind(kind, k)
    ensures Inverts(CodecOf(kind), keys)
  {
    forall k | k in keys ensures CodecOf(kind).dec(CodecOf(kind).enc(k)) == Some(k) {
      KeyRoundTrip(kind, k);
    }
  }

  /** dst is src with every key replaced by its string, and every value by what is written for it. */
  ghost predicate Rekeyed<K, V, W>(c: KeyCodec<K>, write: V -> W, src: map<K, V>, dst: map<string, W>) {
    && (forall k :: k in src ==> c.enc(k) in dst && dst[c.enc(k)] == write(src[k]))
    && forall s :: s in dst ==> exists k :: k in src && c.enc(k) == s
  }

  /** out holds the parsed keys of tmp, each with what is read of the value of some string that parses to it. */
  ghost predicate ParsedFrom<K, V, W>(c: KeyCodec<K>, read: W -> V, tmp: map<string, W>, out: map<K, V>) {
    && (forall s :: s in tmp ==> c.dec(s).Some? && c.dec(s).value in out)
    && forall k :: k in out ==> exists s :: s in tmp && c.dec(s) == Some(k) && out[k] == read(tmp[s])
  }

  ghost predicate AllParse<K, V>(c: KeyCodec<K>, tmp: map<string, V>) {
    forall s :: s in tmp ==> c.dec(s).Some?
  }

  /** JSON objects as column text. */
  datatype Json<!V> = Json(marshal: map<string, V> -> string, unmarshal: string -> Option<map<string, V>>)

  ghost predicate JsonOk<V(!new)>(json: Json<V>) {
    forall m :: json.unmarshal(json.marshal(m)) == Some(m)
  }

  /** Ranging over a map: done is the part visited, todo the keys still to come. */
  ghost predicate Progress<K, V>(all: map<K, V>, done: map<K, V>, todo: set<K>) {
    && done.Keys !! todo && done.Keys + todo == all.Keys
    && forall k :: k in done ==> done[k] == all[k]
  }

  lemma ProgressStep<K, V>(all: map<K, V>, done: map<K, V>, todo: set<K>, k: K)
    requires Progress(all, done, todo) && k in todo
    ensures k in all && k !in done && Progress(all, done[k := all[k]], todo - {k})
  {
    assert k in done.Keys + todo;
    assert done[k := all[k]].Keys == done.Keys + {k};
  }

  lemma ProgressDone<K, V>(all: map<K, V>, done: map<K, V>)
    requires Progress(all, done, {})
    ensures done == all
  {
    assert done.Keys == all.Keys;
  }

  /** The loop that writes the keys out. */
  method Rekey<K(!new), V, W>(c: KeyCodec<K>, write: V -> W, src: map<K, V>) returns (dst: map<string, W>)
    requires Inverts(c, src.Keys)
    ensures Rekeyed(c, write, src, dst)
  {
    dst := map[];
    var todo := src.Keys;
    ghost var done: map<K, V> := map[];
    while todo != {}
      invariant Progress(src, done, todo) && Rekeyed(c, write, done, dst)
      decreases |todo|
    {
      var k :| k in todo;
      ProgressStep(src, done, todo, k);
      RekeyStep(c, write, done, dst, k, src[k]);
      dst := dst[c.enc(k) := write(src[k])];
      todo, done := todo - {k}, done[k := src[k]];
    }
    ProgressDone(src, done);
  }

  /** The loop that parses the keys back; it stops at the first bad key. */
  method ParseKeys<K, V, W>(c: KeyCodec<K>, read: W -> V, tmp: map<string, W>) returns (r: Result<map<K, V>, KeyError>)
    ensures if AllParse(c, tmp) then r.Success? && ParsedFrom(c, read, tmp, r.value) else r.Failure?
  {
    var out: map<K, V> := map[];
    var todo := tmp.Keys;
    ghost var done: map<string, W> := map[];
    while todo != {}
      invariant Progress(tmp, done, todo) && ParsedFrom(c, read, done, out)
      decreases |todo|
    {
      var s :| s in todo;
      ProgressStep(tmp, done, todo, s);
      var k := c.dec(s);
      if k.None? {
        return Failure(BadKey);
      }
      ParseStep(c, read, done, out, s, tmp[s]);
      out := out[k.value := read(tmp[s])];
      todo, done := todo - {s}, done[s := tmp[s]];
    }
    ProgressDone(tmp, done);
    return Success(out);
  }

  method MapToModel<K(!new), V, W>(c: KeyCodec<K>, write: V -> W, json: Json<W>, src: Option<map<K, V>>)
    returns (column: Option<string>)
    requires src.Some? ==> Inverts(c, src.value.Keys)
    ensures column.Some? <==> src.Some?
    ensures src.Some? ==> exists dst :: Rekeyed(c, write, src.value, dst) && column == Some(json.marshal(dst))
  {
    if src.None? {
      return None;
    }
    var dst := Rekey(c, write, src.value);
    return Some(json.marshal(dst));
  }

  lemma RekeyStep<K(!new), V, W>(c: KeyCodec<K>, write: V -> W, done: map<K, V>, dst: map<string, W>, k: K, v: V)
    requires Rekeyed(c, write, done, dst) && k !in done && Inverts(c, done.Keys + {k})
    ensures Rekeyed(c, write, done[k := v], dst[c.enc(k) := write(v)])
  {
    assert c.dec(c.enc(k)) == Some(k);
    assert forall j :: j in done ==> c.dec(c.enc(j)) == Some(j);
    var after := done[k := v];
    assert k in after && forall j :: j in done ==> j in after;
  }

  method MapFromModel<K, V, W>(c: KeyCodec<K>, read: W -> V, json: Json<W>, column: Option<string>)
    returns (r: Result<Option<map<K, V>>, KeyError>)
    ensures column.None? ==> r == Success(None)
    ensures column.Some? && json.unmarshal(column.value).None? ==> r.Failure?
    ensures column.Some? && json.unmarshal(column.value).Some? ==>
      var tmp := json.unmarshal(column.value).value;
      if AllParse(c, tmp) then
        r.Success? && r.value.Some? && ParsedFrom(c, read, tmp, r.value.value)
      else r.Failure?
  {
    if column.None? {
      return Success(None);
    }
    var parsed := json.unmarshal(column.value);
    if parsed.None? {
      return Failure(BadKey);
    }
    var out := ParseKeys(c, read, parsed.value);
    return if out.Success? then Success(Some(out.value)) else Failure(out.error);
  }

  lemma ParseStep<K, V, W>(c: KeyCodec<K>, read: W -> V, tmp: map<string, W>, out: map<K, V>, s: string, w: W)
    requires ParsedFrom(c, read, tmp, out) && s !in tmp && c.dec(s).Some?
    ensures ParsedFrom(c, read, tmp[s := w], out[c.dec(s).value := read(w)])
  {
    var more, key := tmp[s := w], c.dec(s).value;
    forall k | k in out[key := read(w)]
      ensures exists t :: t in more && c.dec(t) == Some(k) && out[key := read(w)][k] == read(more[t])
    {
      if k == key {
        assert s in more;
      } else {
        var t :| t in tmp && c.dec(t) == Some(k) && out[k] == read(tmp[t]);
        assert t in more && more[t] == tmp[t];
      }
    }
  }

  /** Every value as it comes back. */
  function Reread<K, V>(f: V -> V, src: map<K, V>): map<K, V> { map k | k in src :: f(src[k]) }

  lemma KeyComesBack<K(!new), V, W>(c: KeyCodec<K>, write: V -> W, read: W -> V, src: map<K, V>,
                                    stored: map<string, W>, out: map<K, V>, k: K)
    requires Inverts(c, src.Keys) && Rekeyed(c, write, src, stored) && ParsedFrom(c, read, stored, out) && k in out
    ensures k in src && out[k] == read(write(src[k]))
  {
    var s :| s in stored && c.dec(s) == Some(k) && out[k] == read(stored[s]);
    var j :| j in src && c.enc(j) == s;
    assert c.dec(c.enc(j)) == Some(j);
  }

  /** Rekeying and parsing back loses, merges and invents no entry; each value comes back as it is read of what
      was written for it. */
  lemma RekeyRoundTrip<K(!new), V, W>(c: KeyCodec<K>, write: V -> W, read: W -> V, src: map<K, V>,
                                      stored: map<string, W>, out: map<K, V>)
    requires Inverts(c, src.Keys) && Rekeyed(c, write, src, stored) && ParsedFrom(c, read, stored, out)
    ensures out == Reread(v => read(write(v)), src)
  {
    forall k | k in out ensures k in src && out[k] == read(write(src[k])) {
      KeyComesBack(c, write, read, src, stored, out, k);
    }
    forall k | k in src ensures k in out {
      assert c.enc(k) in stored && c.dec(c.enc(k)) == Some(k);
    }
    assert out.Keys == src.Keys;
  }

  /** Storing a map column and loading it. */
  method StoreAndLoad<V(!new), W(!new)>(kind: KeyKind, write: V -> W, read: W -> V, json: Json<W>,
                                        src: Option<map<Key, V>>)
    returns (r: Result<Option<map<Key, V>>, KeyError>)
    requires JsonOk(json) && (src.Some? ==> forall k :: k in src.value ==> OfKind(kind, k))
    ensures r == Success(if src.None? then None else Some(Reread(v => read(write(v)), src.value)))
  {
    var c := CodecOf(kind);
    if src.Some? {
      CodecInverts(kind, src.value.Keys);
    }
    var column := MapToModel(c, write, json, src);
    r := MapFromModel(c, read, json, column);
    if src.Some? {
      ghost var stored :| Rekeyed(c, write, src.value, stored) && column == Some(json.marshal(stored));
      assert json.unmarshal(column.value) == Some(stored);
      forall s | s in stored ensures c.dec(s).Some? {
        var k :| k in src.value && c.enc(k) == s;
        assert c.dec(c.enc(k)) == Some(k);
      }
      RekeyRoundTrip(c, write, read, src.value, stored, r.value.value);
    }
  }

  /** Any map of scalars comes back from its column, nil ones included, for every key kind. */
  method StoreAndLoadMap<V(!new)>(kind: KeyKind, json: Json<V>, src: Option<map<Key, V>>)
    returns (r: Result<Option<map<Key, V>>, KeyError>)
    requires JsonOk(json) && (src.Some? ==> forall k :: k in src.value ==> OfKind(kind, k))
    ensures r == Success(src)
  {
    r := StoreAndLoad(kind, (v: V) => v, (v: V) => v, json, src);
    if src.Some? {
      assert r.value.value == src.value;
    }
  }

  // -- Repeated columns -------------------------------------------------------------------------

  /** Two's-complement reinterpretation of an unsigned value, and back. */
  function ToSigned(n: int, bits: nat): int
    requires bits > 0
  {
    if n >= Pow2(bits - 1) then n - Pow2(bits) else n
  }

  function ToUnsigned(n: int, bits: nat): int {
    if n < 0 then n + Pow2(bits) else n
  }

  ghost predicate Unsigned(v: seq<int>, bits: nat) {
    forall i :: 0 <= i < |v| ==> 0 <= v[i] < Pow2(bits)
  }

  function MapAll(f: int -> int, v: seq<int>): seq<int> {
    seq(|v|, i requires 0 <= i < |v| => f(v[i]))
  }

  /** The loop that fills an array element by element with a cast. */
  method Cast(f: int -> int, v: Option<seq<int>>) returns (m: Option<seq<int>>)
    ensures m == if v.None? then None else Some(MapAll(f, v.value))
  {
    if v.None? {
      return None;
    }
    var arr := new int[|v.value|];
    for i := 0 to |v.value|
      invariant forall k :: 0 <= k < i ==> arr[k] == f(v.value[k])
    {
      arr[i] := f(v.value[i]);
    }
    assert arr[..] == MapAll(f, v.value);
    return Some(arr[..]);
  }

  /** The numbers have the same bits: they differ by a multiple of two to the number of bits. */
  ghost predicate Congruent(a: int, b: int, bits: nat) { exists m: int :: a - b == Multiple(m, bits) }

  function Multiple(m: int, bits: nat): int { m * Pow2(bits) }

  lemma ReinterpretRoundTrip(n: int, bits: nat)
    requires bits > 0 && 0 <= n < Pow2(bits)
    ensures InSigned(ToSigned(n, bits), bits) && ToUnsigned(ToSigned(n, bits), bits) == n
    ensures Congruent(ToSigned(n, bits), n, bits)
  {
    assert Pow2(bits) == 2 * Pow2(bits - 1);
    assert InSigned(ToSigned(n, bits), bits);
    assert Multiple(0, bits) == 0 && Multiple(-1, bits) == 0 - Pow2(bits);
  }

  /** Unsigned lists survive storage as signed ones, element for element; absent stays apart from empty. */
  method StoreAndLoadUints(bits: nat, v: Option<seq<int>>) returns (r: Option<seq<int>>)
    requires bits > 0 && (v.Some? ==> Unsigned(v.value, bits))
    ensures r == v
  {
    var m := Cast(n => ToSigned(n, bits), v);
    r := Cast(n => ToUnsigned(n, bits), m);
    if v.Some? {
      forall i | 0 <= i < |v.value| ensures r.value[i] == v.value[i] {
        ReinterpretRoundTrip(v.value[i], bits);
      }
      assert r.value == v.value;
    }
  }

  /** A proto enum: the declared numbers with their names, and the names with their numbers. */
  datatype EnumType = EnumType(names: map<int, string>, numbers: map<string, int>)

  /** Names are identifiers, so no declared name is a number; zero is declared. */
  ghost predicate EnumOk(e: EnumType) {
    && 0 in e.names
    && (forall n :: n in e.names ==> e.names[n] in e.numbers && e.numbers[e.names[n]] == n)
    && forall n :: FormatInt(n) !in e.numbers
  }

  function EnumString(e: EnumType, n: int): string {
    if n in e.names then e.names[n] else FormatInt(n)
  }

  function DeclaredOnly(e: EnumType, v: seq<int>): seq<int> {
    if v == [] then []
    else DeclaredOnly(e, v[..|v| - 1]) + if v[|v| - 1] in e.names then [v[|v| - 1]] else []
  }

  lemma SameLast<T>(a: seq<T>, b: seq<T>, last: T)
    ensures a + [last] == b + [last] <==> a == b
  {
    assert (a + [last])[..|a|] == a && (b + [last])[..|b|] == b;
    assert |a + [last]| == |a| + 1 && |b + [last]| == |b| + 1;
  }

  lemma {:induction false} DeclaredOnlyIsAll(e: EnumType, v: seq<int>)
    ensures |DeclaredOnly(e, v)| <= |v|
    ensures DeclaredOnly(e, v) == v <==> forall i :: 0 <= i < |v| ==> v[i] in e.names
  {
    if v != [] {
      var front, last := v[..|v| - 1], v[|v| - 1];
      DeclaredOnlyIsAll(e, front);
      assert v == front + [last] && forall i :: 0 <= i < |front| ==> v[i] == front[i];
      if last in e.names {
        SameLast(DeclaredOnly(e, front), front, last);
      }
    }
  }

  method EnumsToModel(e: EnumType, v: Option<seq<int>>) returns (m: Option<seq<string>>)
    ensures m.Some? <==> v.Some?
    ensures v.Some? ==>
      |m.value| == |v.value| && forall i :: 0 <= i < |v.value| ==> m.value[i] == EnumString(e, v.value[i])
  {
    if v.None? {
      return None;
    }
    var names: seq<string> := [];
    for i := 0 to |v.value|
      invariant |names| == i && forall k :: 0 <= k < i ==> names[k] == EnumString(e, v.value[k])
    {
      names := names + [EnumString(e, v.value[i])];
    }
    return Some(names);
  }

  /** Names that are not declared are dropped. */
  function NumbersOf(e: EnumType, names: seq<string>): seq<int> {
    if names == [] then []
    else
      var last := names[|names| - 1];
      NumbersOf(e, names[..|names| - 1]) + if last in e.numbers then [e.numbers[last]] else []
  }

  method EnumsFromModel(e: EnumType, m: Option<seq<string>>) returns (v: Option<seq<int>>)
    ensures v == if m.None? then None else Some(NumbersOf(e, m.value))
  {
    if m.None? {
      return None;
    }
    var vals: seq<int> := [];
    for i := 0 to |m.value|
      invariant vals == NumbersOf(e, m.value[..i])
    {
      assert m.value[..i + 1][..i] == m.value[..i];
      if m.value[i] in e.numbers {
        vals := vals + [e.numbers[m.value[i]]];
      }
    }
    assert m.value[..|m.value|] == m.value;
    return Some(vals);
  }

  lemma {:induction false} NamesGiveDeclared(e: EnumType, v: seq<int>, names: seq<string>)
    requires EnumOk(e) && |names| == |v| && forall i :: 0 <= i < |v| ==> names[i] == EnumString(e, v[i])
    ensures NumbersOf(e, names) == DeclaredOnly(e, v)
  {
    if v != [] {
      NamesGiveDeclared(e, v[..|v| - 1], names[..|v| - 1]);
    }
  }

  /** A stored enum list comes back without its undeclared numbers, so it comes back whole exactly when every
      element is declared. */
  method StoreAndLoadEnums(e: EnumType, v: Option<seq<int>>) returns (r: Option<seq<int>>)
    requires EnumOk(e)
    ensures r == if v.None? then None else Some(DeclaredOnly(e, v.value))
    ensures r == v <==> v.None? || forall i :: 0 <= i < |v.value| ==> v.value[i] in e.names
  {
    var m := EnumsToModel(e, v);
    r := EnumsFromModel(e, m);
    if v.Some? {
      NamesGiveDeclared(e, v.value, m.value);
      DeclaredOnlyIsAll(e, v.value);
    }
  }

  /** The generated Go map of names gives zero for a name it does not hold. */
  function EnumOfName(e: EnumType, name: string): int { if name in e.numbers then e.numbers[name] else 0 }

  /** An undeclared number is written as digits, which name nothing. */
  lemma EnumMapValue(e: EnumType, n: int)
    requires EnumOk(e)
    ensures EnumOfName(e, EnumString(e, n)) == if n in e.names then n else 0
    ensures EnumOfName(e, EnumString(e, n)) == n <==> n in e.names
  {
    assert FormatInt(n) !in e.numbers;
  }

  /** The declared value, or zero. */
  function Declared(e: EnumType, n: int): int { if n in e.names then n else 0 }

  lemma EnumsReread<K>(e: EnumType, src: map<K, int>, out: map<K, int>)
    requires EnumOk(e) && out.Keys == src.Keys
    requires forall k :: k in src ==> out[k] == EnumOfName(e, EnumString(e, src[k]))
    ensures out == Reread(n => Declared(e, n), src)
    ensures out == src <==> forall k :: k in src ==> src[k] in e.names
  {
    forall k | k in src ensures out[k] == Declared(e, src[k]) && (out[k] == src[k] <==> src[k] in e.names) {
      EnumMapValue(e, src[k]);
    }
  }

  /** A map of enums comes back with zero for every undeclared value, so it comes back whole exactly when every
      value is declared. */
  method StoreAndLoadEnumMap(kind: KeyKind, e: EnumType, json: Json<string>, src: Option<map<Key, int>>)
    returns (r: Result<Option<map<Key, int>>, KeyError>)
    requires EnumOk(e) && JsonOk(json) && (src.Some? ==> forall k :: k in src.value ==> OfKind(kind, k))
    ensures r == Success(if src.None? then None else Some(Reread(n => Declared(e, n), src.value)))
    ensures r == Success(src) <==> src.None? || forall k :: k in src.value ==> src.value[k] in e.names
  {
    r := StoreAndLoad(kind, n => EnumString(e, n), s => EnumOfName(e, s), json, src);
    if src.Some? {
      EnumsReread(e, src.value, r.value.value);
    }
  }
}
