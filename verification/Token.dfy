/** Page tokens and cursor codecs (pkg/aip/page.go, pkg/aip/codec.go). */
module Token {
  import opened Prelude
  import opened Order
  import opened Strconv

  /** The dynamic Go value of a cursor field; instants are in nanoseconds. GoOther stands for every value
      that no codec takes, such as a float that is not a number. */
  datatype GoValue =
    | GoString(s: string)
    | GoBool(b: bool)
    | GoInt32(i: int)
    | GoInt64(i: int)
    | GoFloat32(x: real)
    | GoFloat64(x: real)
    | GoTime(nanos: int)
    | GoOther

  /** The float and timestamp codecs carry the Go library functions they call. */
  datatype Codec =
    | StringCodec
    | BoolCodec
    | Int64Codec
    | Float64Codec(formatFloat: real -> string, parseFloat: string -> Option<real>)
    | TimestampCodec(formatTime: int -> string, parseTime: string -> Option<int>)

  datatype TokenError =
    | LengthMismatch
    | NoCodec
    | BadValue
    | Malformed
    | Expired
    | WrongResource
    | FilterMismatch
    | OrderChanged

  /** Two to the power e. */
  function Scale(e: int): real
    decreases if e < 0 then -e else e
  {
    if e == 0 then 1.0 else if e > 0 then 2.0 * Scale(e - 1) else Scale(e + 1) / 2.0
  }

  predicate Scaled(x: real, m: int, e: int) {
    -0x20_0000_0000_0000 < m < 0x20_0000_0000_0000 && -1074 <= e <= 971 && x == m as real * Scale(e)
  }

  /** The finite doubles: 53 bits times a power of two. */
  ghost predicate IsDouble(x: real) { exists m, e :: Scaled(x, m, e) }

  /** The instants that RFC 3339 can write, the years 0 to 9999. */
  predicate InCalendar(nanos: int) {
    -62_167_219_200_000_000_000 <= nanos < 253_402_300_800_000_000_000
  }

  ghost predicate InRange(v: GoValue) {
    match v
    case GoInt32(i) => InSigned(i, 32)
    case GoInt64(i) => InSigned(i, 64)
    case GoFloat32(x) => IsDouble(x)
    case GoFloat64(x) => IsDouble(x)
    case GoTime(nanos) => InCalendar(nanos)
    case _ => true
  }

  /** Go's shortest float format and RFC 3339 with nanoseconds are read back exactly. */
  ghost predicate CodecOk(codec: Codec) {
    match codec
    case Float64Codec(format, parse) => forall x :: IsDouble(x) ==> parse(format(x)) == Some(x)
    case TimestampCodec(format, parse) => forall n :: InCalendar(n) ==> parse(format(n)) == Some(n)
    case _ => true
  }

  function Encode(codec: Codec, v: GoValue): Result<string, TokenError> {
    match (codec, v)
    case (StringCodec, GoString(s)) => Success(s)
    case (BoolCodec, GoBool(b)) => Success(FormatBool(b))
    case (Int64Codec, GoInt32(i)) => Success(FormatInt(i))
    case (Int64Codec, GoInt64(i)) => Success(FormatInt(i))
    case (Float64Codec(format, _), GoFloat32(x)) => Success(format(x))
    case (Float64Codec(format, _), GoFloat64(x)) => Success(format(x))
    case (TimestampCodec(format, _), GoTime(nanos)) => Success(format(nanos))
    case _ => Failure(BadValue)
  }

  function Decode(codec: Codec, s: string): Result<GoValue, TokenError> {
    match codec
    case StringCodec => Success(GoString(s))
    case BoolCodec =>
      var b := ParseBool(s);
      if b.Some? then Success(GoBool(b.value)) else Failure(BadValue)
    case Int64Codec =>
      var i := ParseInt(s, 64);
      if i.Some? then Success(GoInt64(i.value)) else Failure(BadValue)
    case Float64Codec(_, parse) =>
      var x := parse(s);
      if x.Some? then Success(GoFloat64(x.value)) else Failure(BadValue)
    case TimestampCodec(_, parse) =>
      var t := parse(s);
      if t.Some? then Success(GoTime(t.value)) else Failure(BadValue)
  }

  /** int32 and float32 values come back from a token as int64 and float64. */
  function Widen(v: GoValue): GoValue {
    match v
    case GoInt32(i) => GoInt64(i)
    case GoFloat32(x) => GoFloat64(x)
    case _ => v
  }

  function WidenAll(vs: seq<GoValue>): seq<GoValue> {
    seq(|vs|, k requires 0 <= k < |vs| => Widen(vs[k]))
  }

  lemma CodecRoundTrip(codec: Codec, v: GoValue)
    requires CodecOk(codec) && InRange(v) && Encode(codec, v).Success?
    ensures Decode(codec, Encode(codec, v).value) == Success(Widen(v))
  {
    match v {
      case GoInt32(i) =>
        Pow2Grows(31, 63);
        IntRoundTrip(i, 64);
      case GoInt64(i) => IntRoundTrip(i, 64);
      case GoBool(b) => BoolRoundTrip(b);
      case _ =>
    }
  }

  datatype TokenOrder = TokenOrder(field: string, desc: bool)

  datatype PageToken = PageToken(
    createTime: int,
    resourceType: string,
    filterHash: string,
    cursorValues: seq<string>,
    orderFields: seq<TokenOrder>)

  /** 24 hours in nanoseconds. */
  const TOKEN_MAX_AGE := 24 * 3600 * 1_000_000_000

  /** JSON with base64, and SHA-256 with base64, as the token code uses them. */
  datatype Wire = Wire(
    seal: PageToken -> string,
    open: string -> Option<PageToken>,
    digest: string -> string)

  ghost predicate WireOk(wire: Wire) {
    forall t: PageToken :: wire.seal(t) != "" && wire.open(wire.seal(t)) == Some(t)
  }

  /** Different filters have different, non-empty digests. */
  ghost predicate DigestOk(wire: Wire) {
    forall f, g :: wire.digest(f) != "" && (wire.digest(f) == wire.digest(g) ==> f == g)
  }

  function HashFilter(wire: Wire, filter: string): string {
    if filter == "" then "" else wire.digest(filter)
  }

  function TokenOrders(order: OrderBy): seq<TokenOrder> {
    seq(|order|, i requires 0 <= i < |order| => TokenOrder(order[i].path, order[i].direction == Desc))
  }

  lemma TokenOrdersInjective(a: OrderBy, b: OrderBy)
    ensures TokenOrders(a) == TokenOrders(b) <==> a == b
  {
    if TokenOrders(a) == TokenOrders(b) {
      forall i | 0 <= i < |a| ensures a[i] == b[i] {
        assert TokenOrders(a)[i] == TokenOrders(b)[i];
      }
    }
  }

  predicate Encodable(codecs: map<string, Codec>, vals: seq<GoValue>, order: OrderBy) {
    && |vals| == |order|
    && forall i :: 0 <= i < |order| ==> order[i].path in codecs && Encode(codecs[order[i].path], vals[i]).Success?
  }

  function EncodedValues(codecs: map<string, Codec>, vals: seq<GoValue>, order: OrderBy): seq<string>
    requires Encodable(codecs, vals, order)
  {
    seq(|vals|, i requires 0 <= i < |vals| => Encode(codecs[order[i].path], vals[i]).value)
  }

  function MintToken(wire: Wire, resourceType: string, codecs: map<string, Codec>, vals: seq<GoValue>,
                     order: OrderBy, filter: string, now: int): PageToken
    requires Encodable(codecs, vals, order)
  {
    PageToken(now, resourceType, HashFilter(wire, filter), EncodedValues(codecs, vals, order), TokenOrders(order))
  }

  method EncodeToken(wire: Wire, resourceType: string, vals: seq<GoValue>, order: OrderBy, filter: string,
                     codecs: map<string, Codec>, now: int) returns (r: Result<string, TokenError>)
    ensures r.Success? <==> Encodable(codecs, vals, order)
    ensures r.Success? ==> r.value == wire.seal(MintToken(wire, resourceType, codecs, vals, order, filter, now))
  {
    if |vals| != |order| {
      return Failure(LengthMismatch);
    }
    var encoded: seq<string> := [];
    for i := 0 to |vals|
      invariant |encoded| == i
      invariant forall k :: 0 <= k < i ==>
        order[k].path in codecs && Encode(codecs[order[k].path], vals[k]) == Success(encoded[k])
    {
      if order[i].path !in codecs {
        return Failure(NoCodec);
      }
      var s := Encode(codecs[order[i].path], vals[i]);
      if s.Failure? {
        return Failure(s.error);
      }
      encoded := encoded + [s.value];
    }
    var orderFields: seq<TokenOrder> := [];
    for i := 0 to |order|
      invariant orderFields == TokenOrders(order)[..i]
    {
      orderFields := orderFields + [TokenOrder(order[i].path, order[i].direction == Desc)];
    }
    assert encoded == EncodedValues(codecs, vals, order);
    assert orderFields == TokenOrders(order);
    return Success(wire.seal(PageToken(now, resourceType, HashFilter(wire, filter), encoded, orderFields)));
  }

  /** No token on the first page; a token that does not open is malformed. */
  function DecodeToken(wire: Wire, s: string): Result<Option<PageToken>, TokenError> {
    if s == "" then Success(None)
    else
      var t := wire.open(s);
      if t.Some? then Success(t) else Failure(Malformed)
  }

  /** The first check that fails, if any. */
  function ValidateToken(wire: Wire, token: Option<PageToken>, resourceType: string, filter: string, now: int)
    : Option<TokenError>
  {
    match token
    case None => None
    case Some(t) =>
      if now - t.createTime > TOKEN_MAX_AGE then Some(Expired)
      else if t.resourceType != resourceType then Some(WrongResource)
      else if t.filterHash != HashFilter(wire, filter) then Some(FilterMismatch)
      else None
  }

  /** A minted token passes validation exactly within its lifetime, for the same resource, and for a
      filter with the same hash; with a collision-free digest, for the same filter. */
  lemma MintedTokenAccepted(wire: Wire, resourceType: string, codecs: map<string, Codec>, vals: seq<GoValue>,
                            order: OrderBy, filter: string, now: int,
                            later: int, resource: string, laterFilter: string)
    requires WireOk(wire) && Encodable(codecs, vals, order)
    ensures
      var t := MintToken(wire, resourceType, codecs, vals, order, filter, now);
      && DecodeToken(wire, wire.seal(t)) == Success(Some(t))
      && (ValidateToken(wire, Some(t), resource, laterFilter, later).None? <==>
          later - now <= TOKEN_MAX_AGE && resource == resourceType
          && HashFilter(wire, laterFilter) == HashFilter(wire, filter))
      && (DigestOk(wire) ==>
          (HashFilter(wire, laterFilter) == HashFilter(wire, filter) <==> laterFilter == filter))
  {
    var t := MintToken(wire, resourceType, codecs, vals, order, filter, now);
    assert wire.open(wire.seal(t)) == Some(t);
  }
}
