/** Escaping a substring search for LIKE (pkg/aip/jet/filter.go). */
module LikeEscape {
  import opened Sql

  /** strings.ReplaceAll for a one-character needle. */
  function ReplaceAll(s: string, c: char, sub: string): string {
    if s == [] then [] else (if s[0] == c then sub else [s[0]]) + ReplaceAll(s[1..], c, sub)
  }

  /** One pass over the text: a backslash before each LIKE metacharacter. */
  function Escaped(s: string): string {
    if s == [] then []
    else (if s[0] == '%' || s[0] == '_' || s[0] == '\\' then ['\\', s[0]] else [s[0]]) + Escaped(s[1..])
  }

  lemma {:induction false} ReplaceAppend(a: string, b: string, c: char, sub: string)
    ensures ReplaceAll(a + b, c, sub) == ReplaceAll(a, c, sub) + ReplaceAll(b, c, sub)
  {
    if a == [] {
      assert a + b == b;
    } else {
      assert (a + b)[1..] == a[1..] + b;
      ReplaceAppend(a[1..], b, c, sub);
    }
  }

  /** Backslashes first, then the wildcards. */
  function EscapeInThree(s: string): string {
    ReplaceAll(ReplaceAll(ReplaceAll(s, '\\', "\\\\"), '%', "\\%"), '_', "\\_")
  }

  lemma ReplaceOne(d: char, c: char, sub: string)
    ensures ReplaceAll([d], c, sub) == if d == c then sub else [d]
  {
    assert [d][1..] == [] && sub + [] == sub && [d] + [] == [d];
  }

  lemma ReplaceTwo(d: char, e: char, c: char, sub: string)
    requires c != d && c != e
    ensures ReplaceAll([d, e], c, sub) == [d, e]
  {
    assert [d, e] == [d] + [e];
    ReplaceAppend([d], [e], c, sub);
    ReplaceOne(d, c, sub);
    ReplaceOne(e, c, sub);
  }

  lemma EscapeOne(c: char)
    ensures EscapeInThree([c]) == Escaped([c])
  {
    assert Escaped([c]) == (if c == '%' || c == '_' || c == '\\' then ['\\', c] else [c]) by {
      assert [c][1..] == [];
    }
    ReplaceOne(c, '\\', "\\\\");
    ReplaceOne(c, '%', "\\%");
    ReplaceOne(c, '_', "\\_");
    ReplaceTwo('\\', '\\', '%', "\\%");
    ReplaceTwo('\\', '\\', '_', "\\_");
    ReplaceTwo('\\', '%', '_', "\\_");
  }

  /** The three successive replacements amount to the one-pass escape. */
  lemma {:induction false} ThreePassesAreOne(s: string)
    ensures EscapeInThree(s) == Escaped(s)
  {
    if s != [] {
      var head, tail := [s[0]], s[1..];
      assert s == head + tail;
      ReplaceAppend(head, tail, '\\', "\\\\");
      var h1, t1 := ReplaceAll(head, '\\', "\\\\"), ReplaceAll(tail, '\\', "\\\\");
      ReplaceAppend(h1, t1, '%', "\\%");
      ReplaceAppend(ReplaceAll(h1, '%', "\\%"), ReplaceAll(t1, '%', "\\%"), '_', "\\_");
      ThreePassesAreOne(tail);
      EscapeOne(s[0]);
      assert Escaped(head) + Escaped(tail) == Escaped(s);
    }
  }

  method EscapeLike(s: string) returns (r: string)
    ensures r == Escaped(s)
  {
    r := s;
    r := ReplaceAll(r, '\\', "\\\\");
    r := ReplaceAll(r, '%', "\\%");
    r := ReplaceAll(r, '_', "\\_");
    ThreePassesAreOne(s);
  }

  /** needle occurs in text as a contiguous substring. */
  ghost predicate Contains(text: string, needle: string) {
    exists i :: 0 <= i <= |text| && needle <= text[i..]
  }

  lemma {:induction false} PercentMatches(pattern: string, text: string)
    ensures Like("%" + pattern, text) <==> exists i :: 0 <= i <= |text| && Like(pattern, text[i..])
    decreases |text|
  {
    var p := "%" + pattern;
    assert p[0] == '%' && p[1..] == pattern && text[0..] == text;
    if text != [] {
      PercentMatches(pattern, text[1..]);
      assert forall i :: 0 <= i <= |text| - 1 ==> text[1..][i..] == text[i + 1..];
      if i :| 0 <= i <= |text| && Like(pattern, text[i..]) {
        assert i == 0 || text[1..][i - 1..] == text[i..];
      }
    }
  }

  lemma {:induction false} PercentMatchesAll(text: string)
    ensures Like("%", text)
    decreases |text|
  {
    assert "%"[1..] == "";
    if text != [] {
      PercentMatchesAll(text[1..]);
    }
  }

  /** An escaped text followed by % matches exactly what begins with the text. */
  lemma {:induction false} EscapedMatchesPrefix(needle: string, text: string)
    ensures Like(Escaped(needle) + "%", text) <==> needle <= text
  {
    var p := Escaped(needle) + "%";
    if needle == [] {
      assert p == "%";
      PercentMatchesAll(text);
    } else {
      var rest := Escaped(needle[1..]) + "%";
      var c := needle[0];
      if c == '%' || c == '_' || c == '\\' {
        assert p == ['\\', c] + rest && p[2..] == rest;
      } else {
        assert p == [c] + rest && p[1..] == rest;
      }
      if text != [] {
        EscapedMatchesPrefix(needle[1..], text[1..]);
        assert needle <= text <==> c == text[0] && needle[1..] <= text[1..];
      }
    }
  }

  lemma {:induction false} EscapedIsPattern(needle: string)
    ensures LikePatternOk(Escaped(needle) + "%")
  {
    var p := Escaped(needle) + "%";
    if needle == [] {
      assert p == "%" && "%"[1..] == "";
    } else {
      var rest := Escaped(needle[1..]) + "%";
      var c := needle[0];
      EscapedIsPattern(needle[1..]);
      if c == '%' || c == '_' || c == '\\' {
        assert p == ['\\', c] + rest && p[2..] == rest;
      } else {
        assert p == [c] + rest && p[1..] == rest;
      }
    }
  }

  function SubstringPattern(needle: string): string { "%" + Escaped(needle) + "%" }

  /** The pattern is legal, and matches exactly the texts that contain the needle, metacharacters included. */
  lemma SubstringExact(needle: string, text: string)
    ensures LikePatternOk(SubstringPattern(needle))
    ensures Like(SubstringPattern(needle), text) <==> Contains(text, needle)
  {
    var tail := Escaped(needle) + "%";
    assert SubstringPattern(needle) == "%" + tail && ("%" + tail)[1..] == tail;
    EscapedIsPattern(needle);
    PercentMatches(tail, text);
    forall i | 0 <= i <= |text| ensures Like(tail, text[i..]) <==> needle <= text[i..] {
      EscapedMatchesPrefix(needle, text[i..]);
    }
  }
}
