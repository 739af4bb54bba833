/** Dollar-quoted SQL literals (cmd/protoc-gen-go-jet/emit_sql.go, sqlDollarQuote). */
module DollarQuote {
  import opened Prelude

  predicate At(s: string, sub: string, i: nat) {
    i + |sub| <= |s| && s[i..i + |sub|] == sub
  }

  /** strings.Contains */
  ghost predicate Contains(s: string, sub: string) { exists i :: 0 <= i <= |s| && At(s, sub, i) }

  function IndexFrom(s: string, sub: string, i: nat): Option<nat>
    requires i <= |s|
    decreases |s| - i
  {
    if At(s, sub, i) then Some(i) else if i == |s| then None else IndexFrom(s, sub, i + 1)
  }

  lemma {:induction false} IndexMeaning(s: string, sub: string, i: nat)
    requires i <= |s|
    ensures
      match IndexFrom(s, sub, i)
      case Some(k) => i <= k <= |s| && At(s, sub, k) && forall j :: i <= j < k ==> !At(s, sub, j)
      case None => forall j :: i <= j <= |s| ==> !At(s, sub, j)
    decreases |s| - i
  {
    if !At(s, sub, i) && i < |s| {
      IndexMeaning(s, sub, i + 1);
    }
  }

  function Xs(n: nat): string { seq(n, i => 'x') }

  function Delimiter(n: nat): string { "$" + Xs(n) + "$" }

  lemma DelimiterShape(n: nat)
    ensures |Delimiter(n)| == n + 2
    ensures forall i :: 0 <= i < n + 2 ==> Delimiter(n)[i] == if i == 0 || i == n + 1 then '$' else 'x'
    ensures Delimiter(n) == ("$" + Xs(n)) + "$"
  {
  }

  /** The tag in use is the shortest one whose delimiter does not occur in the text. */
  ghost predicate ShortestTag(s: string, n: nat) {
    !Contains(s, Delimiter(n)) && forall k :: 0 <= k < n ==> Contains(s, Delimiter(k))
  }

  /** Reading a text between delimiters: what comes before the first closing delimiter, and what is left over
      after it. */
  function ReadBetween(quoted: string, d: string): Option<(string, string)> {
    if !At(quoted, d, 0) then None
    else
      var body := quoted[|d|..];
      var end := IndexFrom(body, d, 0);
      if end.Some? && end.value + |d| <= |body| then Some((body[..end.value], body[end.value + |d|..])) else None
  }

  /** Reading a literal whose opening delimiter has tag length n. */
  function ReadLiteral(quoted: string, n: nat): Option<(string, string)> { ReadBetween(quoted, Delimiter(n)) }

  predicate EndsWith(s: string, tail: string) {
    |tail| <= |s| && s[|s| - |tail|..] == tail
  }

  lemma CharOf(s: string, sub: string, j: nat, i: nat)
    requires At(s, sub, j) && i < |sub|
    ensures s[j + i] == sub[i]
  {
    assert s[j..j + |sub|][i] == s[j + i];
  }

  lemma InsidePrefix(s: string, t: string, sub: string, j: nat)
    requires At(s + t, sub, j) && j + |sub| <= |s|
    ensures Contains(s, sub)
  {
    assert (s + t)[j..j + |sub|] == s[j..j + |sub|];
    assert At(s, sub, j);
  }

  /** Where a delimiter can begin in a text followed by a delimiter, other than at the end of the text: only one
      character before a full delimiter's worth, when the text itself ends in the delimiter's front part. */
  lemma OverlapOnlyAtFront(s: string, n: nat, j: nat)
    requires !Contains(s, Delimiter(n)) && j < |s| && At(s + Delimiter(n), Delimiter(n), j)
    ensures j == |s| - (n + 1) && EndsWith(s, "$" + Xs(n))
  {
    var d, t := Delimiter(n), s + Delimiter(n);
    DelimiterShape(n);
    if j + |d| <= |s| {
      InsidePrefix(s, d, d, j);
    }
    var k := |s| - j;
    CharOf(t, d, j, k);
    assert t[j + k] == d[0];
    assert k == n + 1;
    forall i | 0 <= i < n + 1 ensures s[j + i] == ("$" + Xs(n))[i] {
      CharOf(t, d, j, i);
    }
    assert s[|s| - (n + 1)..] == "$" + Xs(n);
  }

  lemma OverlapAtFront(s: string, n: nat)
    requires EndsWith(s, "$" + Xs(n))
    ensures n + 1 <= |s| && At(s + Delimiter(n), Delimiter(n), |s| - (n + 1))
  {
    var d, body := Delimiter(n), s + Delimiter(n);
    DelimiterShape(n);
    var j := |s| - (n + 1);
    assert s[j..] == "$" + Xs(n);
    assert body[j..j + |d|] == s[j..] + [d[0]];
  }

  lemma ClosesAfterText(s: string, d: string)
    ensures At(s + d, d, |s|)
  {
    assert (s + d)[|s|..|s| + |d|] == d;
  }

  lemma FirstIs(s: string, sub: string, k: nat)
    requires k <= |s| && At(s, sub, k) && forall j :: 0 <= j < k ==> !At(s, sub, j)
    ensures IndexFrom(s, sub, 0) == Some(k)
  {
    IndexMeaning(s, sub, 0);
  }

  /** Where the closing delimiter is found. */
  lemma ClosingPosition(s: string, n: nat)
    requires !Contains(s, Delimiter(n))
    ensures IndexFrom(s + Delimiter(n), Delimiter(n), 0) ==
      Some(if EndsWith(s, "$" + Xs(n)) then |s| - (n + 1) else |s|)
  {
    var d := Delimiter(n);
    var k := if EndsWith(s, "$" + Xs(n)) then |s| - (n + 1) else |s|;
    ClosesAfterText(s, d);
    if EndsWith(s, "$" + Xs(n)) {
      OverlapAtFront(s, n);
    }
    forall j | 0 <= j < k ensures !At(s + d, d, j) {
      if At(s + d, d, j) {
        OverlapOnlyAtFront(s, n, j);
      }
    }
    FirstIs(s + d, d, k);
  }

  lemma Opening(d: string, body: string)
    ensures At(d + body, d, 0) && (d + body)[|d|..] == body
  {
    assert (d + body)[..|d|] == d;
  }

  /** Reading on after the opening delimiter. */
  lemma ReadAfterOpening(body: string, d: string, end: nat)
    requires IndexFrom(body, d, 0) == Some(end) && end + |d| <= |body|
    ensures ReadBetween(d + body, d) == Some((body[..end], body[end + |d|..]))
  {
    Opening(d, body);
  }

  /** A text between delimiters is read back as it is exactly when the first closing one is the one appended. */
  lemma ReadBackWhenLast(s: string, d: string, end: nat)
    requires IndexFrom(s + d, d, 0) == Some(end) && end <= |s|
    ensures ReadBetween(d + s + d, d) == Some((s, "")) <==> end == |s|
  {
    var body := s + d;
    assert d + s + d == d + body;
    ReadAfterOpening(body, d, end);
    if end == |s| {
      assert body[..end] == s && body[end + |d|..] == "";
    } else {
      assert |body[..end]| == end;
    }
  }

  /** Reading the emitted literal back gives the text, with nothing left over, exactly when the text does not
      end in a dollar sign followed by the chosen tag. */
  lemma ReadBackIff(s: string, n: nat)
    requires !Contains(s, Delimiter(n))
    ensures ReadLiteral(Delimiter(n) + s + Delimiter(n), n) == Some((s, "")) <==> !EndsWith(s, "$" + Xs(n))
  {
    ClosingPosition(s, n);
    ReadBackWhenLast(s, Delimiter(n), if EndsWith(s, "$" + Xs(n)) then |s| - (n + 1) else |s|);
  }

  /** The literal of a text with the shortest possible tag, and when it is read back as the text. */
  ghost predicate QuotedWith(s: string, n: nat, quoted: string) {
    && ShortestTag(s, n)
    && quoted == Delimiter(n) + s + Delimiter(n)
    && (ReadLiteral(quoted, n) == Some((s, "")) <==> !EndsWith(s, "$" + Xs(n)))
  }

  /** A comment that ends in a dollar sign is cut short. */
  lemma TrailingDollarIsLost()
    ensures ShortestTag("US$", 0) && ReadLiteral(Delimiter(0) + "US$" + Delimiter(0), 0) != Some(("US$", ""))
  {
    DelimiterShape(0);
    assert Delimiter(0) == "$$";
    assert "US$"[0..2] == "US" && "US$"[1..3] == "S$";
    assert "US$"[2..] == "$" == "$" + Xs(0);
    ReadBackIff("US$", 0);
  }

  /** The loop that lengthens the tag ends, since a delimiter longer than the text cannot occur in it. The
      literal it builds is read back as the text exactly when the text does not end in "$" and the tag. */
  method SqlDollarQuote(s: string) returns (quoted: string)
    ensures exists n :: QuotedWith(s, n, quoted)
  {
    var tag := "";
    ghost var n := 0;
    while IndexFrom(s, "$" + tag + "$", 0).Some?
      invariant tag == Xs(n) && forall k :: 0 <= k < n ==> Contains(s, Delimiter(k))
      decreases |s| - |tag|
    {
      IndexMeaning(s, Delimiter(n), 0);
      DelimiterShape(n);
      tag, n := tag + "x", n + 1;
    }
    IndexMeaning(s, Delimiter(n), 0);
    quoted := "$" + tag + "$" + s + "$" + tag + "$";
    assert quoted == Delimiter(n) + s + Delimiter(n);
    ReadBackIff(s, n);
    assert QuotedWith(s, n, quoted);
  }
}
