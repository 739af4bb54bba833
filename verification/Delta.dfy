/** The structural difference between two snapshots of a table (cmd/protoc-gen-go-jet/migration_scaffold.go). */
module Delta {
  import opened Prelude

  /** A named schema object; fields holds everything else the snapshot records of it. */
  datatype Item = Item(name: string, fields: seq<string>)

  datatype Snapshot = Snapshot(
    columns: seq<Item>,
    primaryKey: seq<string>,
    checks: seq<Item>,
    indexes: seq<Item>,
    rls: bool,
    policies: seq<Item>,
    comment: string,
    foreignKeys: seq<Item>)

  datatype Kind = ColumnKind | CheckKind | IndexKind | PolicyKind | ForeignKeyKind

  datatype Tag = Added | Removed | Changed

  datatype Line = ObjectLine(tag: Tag, kind: Kind, name: string) | HazardLine | PrimaryKeyLine | RlsLine | CommentLine

  // -- sort.Strings -----------------------------------------------------------------------------

  predicate StringLess(a: string, b: string) {
    b != [] && (a == [] || a[0] < b[0] || (a[0] == b[0] && StringLess(a[1..], b[1..])))
  }

  /** Strings sort by the first character they differ in, and a proper prefix comes first. */
  lemma {:induction false} StringLessIff(a: string, b: string)
    ensures StringLess(a, b) <==>
      exists i: nat :: i < |b| && i <= |a| && a[..i] == b[..i] && (i == |a| || a[i] < b[i])
  {
    if a != [] && b != [] && a[0] == b[0] {
      var a', b' := a[1..], b[1..];
      StringLessIff(a', b');
      assert a == [a[0]] + a' && b == [b[0]] + b';
      if i: nat :| i < |b'| && i <= |a'| && a'[..i] == b'[..i] && (i == |a'| || a'[i] < b'[i]) {
        assert a[..i + 1] == [a[0]] + a'[..i] && b[..i + 1] == [b[0]] + b'[..i];
      }
      if i: nat :| i < |b| && i <= |a| && a[..i] == b[..i] && (i == |a| || a[i] < b[i]) {
        assert i > 0 && a'[..i - 1] == a[..i][1..] && b'[..i - 1] == b[..i][1..];
      }
    } else if a != [] && b != [] {
      assert forall i :: 0 < i <= |a| && i <= |b| ==> a[..i][0] == a[0] && b[..i][0] == b[0];
      assert a[..0] == b[..0];
    } else if b != [] {
      assert a[..0] == b[..0];
    }
  }

  lemma {:induction false} StringLessTransitive(a: string, b: string, c: string)
    requires StringLess(a, b) && StringLess(b, c)
    ensures StringLess(a, c)
  {
    if a != [] && a[0] == b[0] == c[0] {
      StringLessTransitive(a[1..], b[1..], c[1..]);
    }
  }

  lemma {:induction false} StringLessTotal(a: string, b: string)
    ensures a == b || StringLess(a, b) || StringLess(b, a)
    ensures !(StringLess(a, b) && StringLess(b, a)) && !StringLess(a, a)
  {
    if a != [] {
      StringLessTotal(a[1..], a[1..]);
      if b != [] && a[0] == b[0] {
        StringLessTotal(a[1..], b[1..]);
        assert a == [a[0]] + a[1..] && b == [b[0]] + b[1..];
      }
    }
  }

  ghost predicate Sorted(s: seq<string>) { forall i, j :: 0 <= i < j < |s| ==> StringLess(s[i], s[j]) }

  function InsertName(n: string, s: seq<string>): seq<string> {
    if s == [] || StringLess(n, s[0]) then [n] + s else [s[0]] + InsertName(n, s[1..])
  }

  lemma {:induction false} InsertNameSorts(n: string, s: seq<string>)
    requires Sorted(s) && n !in s
    ensures Sorted(InsertName(n, s)) && forall m :: m in InsertName(n, s) <==> m == n || m in s
  {
    if s != [] {
      assert s == [s[0]] + s[1..];
      if StringLess(n, s[0]) {
        forall i | 0 <= i < |s| ensures StringLess(n, s[i]) {
          if i > 0 {
            StringLessTransitive(n, s[0], s[i]);
          }
        }
      } else {
        InsertNameSorts(n, s[1..]);
        StringLessTotal(n, s[0]);
        var rest := InsertName(n, s[1..]);
        forall k | 0 <= k < |rest| ensures StringLess(s[0], rest[k]) {
          assert rest[k] in rest;
          if rest[k] != n {
            var j :| 0 <= j < |s[1..]| && s[1..][j] == rest[k];
            assert s[j + 1] == rest[k];
          }
        }
      }
    }
  }

  method SortNames(names: set<string>) returns (ordered: seq<string>)
    ensures Sorted(ordered) && forall n :: n in ordered <==> n in names
  {
    ordered := [];
    var todo := names;
    while todo != {}
      invariant todo <= names && Sorted(ordered)
      invariant forall n :: n in ordered <==> n in names && n !in todo
      decreases |todo|
    {
      var n :| n in todo;
      InsertNameSorts(n, ordered);
      ordered := InsertName(n, ordered);
      todo := todo - {n};
    }
  }

  // -- diffNamed --------------------------------------------------------------------------------

  type Indexed = map<string, Item>

  /** What the two sides say about one name. */
  function TagOf(cur: Indexed, tgt: Indexed, name: string): Option<Tag> {
    if name in tgt && name !in cur then Some(Added)
    else if name in cur && name !in tgt then Some(Removed)
    else if name in cur && name in tgt && cur[name] != tgt[name] then Some(Changed)
    else None
  }

  /** Exactly one line for each name the sides disagree on, in sorted order of names. */
  ghost predicate ExactDiff(kind: Kind, cur: Indexed, tgt: Indexed, lines: seq<Line>) {
    && (forall k :: 0 <= k < |lines| ==> lines[k].ObjectLine? && lines[k].kind == kind)
    && (forall j, k :: 0 <= j < k < |lines| ==> StringLess(lines[j].name, lines[k].name))
    && (forall k :: 0 <= k < |lines| ==> TagOf(cur, tgt, lines[k].name) == Some(lines[k].tag))
    && forall n :: TagOf(cur, tgt, n).Some? ==> ObjectLine(TagOf(cur, tgt, n).value, kind, n) in lines
  }

  /** The lines for the first names of a sorted list. */
  function DiffLines(kind: Kind, cur: Indexed, tgt: Indexed, ordered: seq<string>): seq<Line> {
    if ordered == [] then []
    else
      var n := ordered[|ordered| - 1];
      var tag := TagOf(cur, tgt, n);
      DiffLines(kind, cur, tgt, ordered[..|ordered| - 1]) + if tag.Some? then [ObjectLine(tag.value, kind, n)] else []
  }

  lemma {:induction false} DiffLinesMembers(kind: Kind, cur: Indexed, tgt: Indexed, ordered: seq<string>)
    ensures forall l :: l in DiffLines(kind, cur, tgt, ordered) <==>
      l.ObjectLine? && l.kind == kind && l.name in ordered && TagOf(cur, tgt, l.name) == Some(l.tag)
  {
    if ordered != [] {
      var front, n := ordered[..|ordered| - 1], ordered[|ordered| - 1];
      DiffLinesMembers(kind, cur, tgt, front);
      assert ordered == front + [n];
    }
  }

  lemma {:induction false} DiffLinesSorted(kind: Kind, cur: Indexed, tgt: Indexed, ordered: seq<string>)
    requires Sorted(ordered)
    ensures forall k :: 0 <= k < |DiffLines(kind, cur, tgt, ordered)| ==>
      DiffLines(kind, cur, tgt, ordered)[k].ObjectLine?
    ensures forall j, k :: 0 <= j < k < |DiffLines(kind, cur, tgt, ordered)| ==>
      StringLess(DiffLines(kind, cur, tgt, ordered)[j].name, DiffLines(kind, cur, tgt, ordered)[k].name)
  {
    if ordered != [] {
      var front, n := ordered[..|ordered| - 1], ordered[|ordered| - 1];
      DiffLinesSorted(kind, cur, tgt, front);
      DiffLinesMembers(kind, cur, tgt, front);
      var lines := DiffLines(kind, cur, tgt, front);
      forall j | 0 <= j < |lines| ensures StringLess(lines[j].name, n) {
        assert lines[j] in lines && lines[j].name in front;
        var m :| 0 <= m < |front| && front[m] == lines[j].name;
        assert ordered[m] == front[m];
      }
    }
  }

  lemma DiffLinesExact(kind: Kind, cur: Indexed, tgt: Indexed, ordered: seq<string>)
    requires Sorted(ordered) && forall n :: n in ordered <==> n in cur.Keys + tgt.Keys
    ensures ExactDiff(kind, cur, tgt, DiffLines(kind, cur, tgt, ordered))
  {
    var lines := DiffLines(kind, cur, tgt, ordered);
    DiffLinesMembers(kind, cur, tgt, ordered);
    DiffLinesSorted(kind, cur, tgt, ordered);
    forall k | 0 <= k < |lines| ensures lines[k].kind == kind && TagOf(cur, tgt, lines[k].name) == Some(lines[k].tag) {
      assert lines[k] in lines;
    }
    forall n | TagOf(cur, tgt, n).Some? ensures ObjectLine(TagOf(cur, tgt, n).value, kind, n) in lines {
      assert n in cur.Keys + tgt.Keys;
    }
  }

  method DiffNamed(kind: Kind, cur: Indexed, tgt: Indexed) returns (lines: seq<Line>)
    ensures ExactDiff(kind, cur, tgt, lines)
  {
    var ordered := SortNames(cur.Keys + tgt.Keys);
    lines := [];
    for i := 0 to |ordered|
      invariant lines == DiffLines(kind, cur, tgt, ordered[..i])
    {
      assert ordered[..i + 1][..i] == ordered[..i];
      var n := ordered[i];
      assert n in cur.Keys + tgt.Keys;
      if n in tgt && n !in cur {
        lines := lines + [ObjectLine(Added, kind, n)];
      } else if n in cur && n !in tgt {
        lines := lines + [ObjectLine(Removed, kind, n)];
      } else if cur[n] != tgt[n] {
        lines := lines + [ObjectLine(Changed, kind, n)];
      }
    }
    assert ordered[..|ordered|] == ordered;
    DiffLinesExact(kind, cur, tgt, ordered);
  }

  /** A line says "added" of exactly the names that only the target has, "removed" of those that only the current
      side has, and "changed" of those that both have with a difference. */
  lemma DiffTags(kind: Kind, cur: Indexed, tgt: Indexed, lines: seq<Line>, n: string)
    requires ExactDiff(kind, cur, tgt, lines)
    ensures ObjectLine(Added, kind, n) in lines <==> n in tgt && n !in cur
    ensures ObjectLine(Removed, kind, n) in lines <==> n in cur && n !in tgt
    ensures ObjectLine(Changed, kind, n) in lines <==> n in cur && n in tgt && cur[n] != tgt[n]
  {
    forall tag | ObjectLine(tag, kind, n) in lines ensures TagOf(cur, tgt, n) == Some(tag) {
      var k :| 0 <= k < |lines| && lines[k] == ObjectLine(tag, kind, n);
      assert TagOf(cur, tgt, lines[k].name) == Some(lines[k].tag);
    }
    var tag := TagOf(cur, tgt, n);
    assert tag.Some? ==> ObjectLine(tag.value, kind, n) in lines;
  }

  lemma DiffEmptyIff(kind: Kind, cur: Indexed, tgt: Indexed, lines: seq<Line>)
    requires ExactDiff(kind, cur, tgt, lines)
    ensures lines == [] <==> cur == tgt
  {
    if lines == [] {
      forall n ensures n in cur <==> n in tgt {
        assert TagOf(cur, tgt, n).None?;
      }
      forall n | n in cur ensures cur[n] == tgt[n] {
        assert TagOf(cur, tgt, n).None?;
      }
    } else {
      assert TagOf(cur, tgt, lines[0].name).Some?;
    }
  }

  // -- indexBy ----------------------------------------------------------------------------------

  /** The last item with a name is the one indexed. */
  function IndexOf(items: seq<Item>): Indexed {
    if items == [] then map[]
    else
      var last := items[|items| - 1];
      IndexOf(items[..|items| - 1])[last.name := last]
  }

  method IndexBy(items: seq<Item>) returns (m: Indexed)
    ensures m == IndexOf(items)
  {
    m := map[];
    for i := 0 to |items|
      invariant m == IndexOf(items[..i])
    {
      assert items[..i + 1][..i] == items[..i];
      m := m[items[i].name := items[i]];
    }
    assert items[..|items|] == items;
  }

  ghost predicate DistinctNames(items: seq<Item>) {
    forall i, j :: 0 <= i < j < |items| ==> items[i].name != items[j].name
  }

  lemma {:induction false} IndexKeys(items: seq<Item>)
    ensures forall n :: n in IndexOf(items) <==> exists i :: 0 <= i < |items| && items[i].name == n
  {
    if items != [] {
      var front, last := items[..|items| - 1], items[|items| - 1];
      IndexKeys(front);
      forall n ensures n in IndexOf(items) <==> exists i :: 0 <= i < |items| && items[i].name == n {
        if n in IndexOf(front) {
          var i :| 0 <= i < |front| && front[i].name == n;
          assert items[i].name == n;
        }
        if i :| 0 <= i < |items| && items[i].name == n {
          assert i < |front| ==> front[i].name == n;
        }
      }
    }
  }

  lemma IndexHoldsLast(front: seq<Item>, last: Item)
    requires DistinctNames(front + [last])
    requires forall it :: it in front <==> it.name in IndexOf(front) && IndexOf(front)[it.name] == it
    ensures forall it :: it in front + [last] <==>
      it.name in IndexOf(front + [last]) && IndexOf(front + [last])[it.name] == it
  {
    var items := front + [last];
    assert items[..|items| - 1] == front && items[|items| - 1] == last;
    assert IndexOf(items) == IndexOf(front)[last.name := last];
    forall it | it in front ensures it.name != last.name {
      var i :| 0 <= i < |front| && front[i] == it;
      assert items[i].name != items[|front|].name;
    }
    forall it ensures it in items <==> it in front || it == last {}
  }

  lemma {:induction false} IndexHolds(items: seq<Item>)
    requires DistinctNames(items)
    ensures forall it :: it in items <==> it.name in IndexOf(items) && IndexOf(items)[it.name] == it
  {
    if items != [] {
      var front, last := items[..|items| - 1], items[|items| - 1];
      assert items == front + [last];
      IndexHolds(front);
      IndexHoldsLast(front, last);
    }
  }

  /** Of several items with a name the last one is indexed. */
  lemma {:induction false} LastIsIndexed(items: seq<Item>, i: nat)
    requires i < |items| && forall j :: i < j < |items| ==> items[j].name != items[i].name
    ensures items[i].name in IndexOf(items) && IndexOf(items)[items[i].name] == items[i]
  {
    if i < |items| - 1 {
      LastIsIndexed(items[..|items| - 1], i);
    }
  }

  ghost predicate SameItems(a: seq<Item>, b: seq<Item>) { forall it :: it in a <==> it in b }

  /** With distinct names, two lists index alike exactly when they hold the same items. */
  lemma IndexAgreesIff(a: seq<Item>, b: seq<Item>)
    requires DistinctNames(a) && DistinctNames(b)
    ensures IndexOf(a) == IndexOf(b) <==> SameItems(a, b)
  {
    IndexHolds(a);
    IndexHolds(b);
    IndexKeys(a);
    IndexKeys(b);
    if SameItems(a, b) {
      forall n ensures n in IndexOf(a) <==> n in IndexOf(b) {
        if n in IndexOf(a) {
          var i :| 0 <= i < |a| && a[i].name == n;
          assert a[i] in a && a[i] in b;
        }
        if n in IndexOf(b) {
          var i :| 0 <= i < |b| && b[i].name == n;
          assert b[i] in b && b[i] in a;
        }
      }
      forall n | n in IndexOf(a) ensures IndexOf(a)[n] == IndexOf(b)[n] {
        var i :| 0 <= i < |a| && a[i].name == n;
        assert a[i] in a && a[i] in b;
      }
    }
  }

  // -- strings.Join(key, ",") -------------------------------------------------------------------

  function JoinComma(parts: seq<string>): string {
    if parts == [] then "" else if |parts| == 1 then parts[0] else parts[0] + "," + JoinComma(parts[1..])
  }

  predicate PlainName(n: string) { n != [] && forall i :: 0 <= i < |n| ==> n[i] != ',' }

  predicate PlainNames(parts: seq<string>) { forall i :: 0 <= i < |parts| ==> PlainName(parts[i]) }

  /** The part of a joined list before its first comma. */
  function Head(s: string): string {
    if s == [] || s[0] == ',' then [] else [s[0]] + Head(s[1..])
  }

  lemma {:induction false} HeadOf(a: string, s: string)
    requires (forall i :: 0 <= i < |a| ==> a[i] != ',') && (s == [] || s[0] == ',')
    ensures Head(a + s) == a
  {
    if a == [] {
      assert a + s == s;
    } else {
      assert (a + s)[1..] == a[1..] + s;
      HeadOf(a[1..], s);
    }
  }

  lemma FirstPart(a: string, b: string, s: string, t: string)
    requires PlainName(a) && PlainName(b) && a + s == b + t
    requires (s == [] || s[0] == ',') && (t == [] || t[0] == ',')
    ensures a == b && s == t
  {
    HeadOf(a, s);
    HeadOf(b, t);
    assert (a + s)[|a|..] == s && (b + t)[|b|..] == t;
  }

  /** What follows the first name of a joined list. */
  function AfterFirst(parts: seq<string>): string {
    if |parts| <= 1 then "" else "," + JoinComma(parts[1..])
  }

  lemma JoinShape(parts: seq<string>)
    requires PlainNames(parts)
    ensures parts == [] ==> JoinComma(parts) == ""
    ensures parts != [] ==> JoinComma(parts) == parts[0] + AfterFirst(parts) && JoinComma(parts) != ""
    ensures |parts| > 1 ==> AfterFirst(parts) != "" && AfterFirst(parts)[1..] == JoinComma(parts[1..])
  {
  }

  /** Joining with commas is injective on lists of non-empty, comma-free names. */
  lemma {:induction false} JoinInjective(a: seq<string>, b: seq<string>)
    requires PlainNames(a) && PlainNames(b) && JoinComma(a) == JoinComma(b)
    ensures a == b
  {
    JoinShape(a);
    JoinShape(b);
    if a != [] {
      FirstPart(a[0], b[0], AfterFirst(a), AfterFirst(b));
      if |a| > 1 {
        JoinInjective(a[1..], b[1..]);
        assert a == [a[0]] + a[1..] && b == [b[0]] + b[1..];
      }
    }
  }

  // -- computeTableDelta ------------------------------------------------------------------------

  /** A hazard line follows every added foreign key. */
  function WithHazards(lines: seq<Line>): seq<Line> {
    if lines == [] then []
    else
      var last := lines[|lines| - 1];
      WithHazards(lines[..|lines| - 1]) + [last] +
      if last.ObjectLine? && last.tag == Added && last.kind == ForeignKeyKind then [HazardLine] else []
  }

  function TailLines(cur: Snapshot, tgt: Snapshot): seq<Line> {
    (if JoinComma(cur.primaryKey) != JoinComma(tgt.primaryKey) then [PrimaryKeyLine] else [])
    + (if cur.rls != tgt.rls then [RlsLine] else [])
    + (if cur.comment != tgt.comment then [CommentLine] else [])
  }

  ghost predicate DeltaParts(cur: Snapshot, tgt: Snapshot, c: seq<Line>, k: seq<Line>, i: seq<Line>, p: seq<Line>,
                             f: seq<Line>)
  {
    && ExactDiff(ColumnKind, IndexOf(cur.columns), IndexOf(tgt.columns), c)
    && ExactDiff(CheckKind, IndexOf(cur.checks), IndexOf(tgt.checks), k)
    && ExactDiff(IndexKind, IndexOf(cur.indexes), IndexOf(tgt.indexes), i)
    && ExactDiff(PolicyKind, IndexOf(cur.policies), IndexOf(tgt.policies), p)
    && ExactDiff(ForeignKeyKind, IndexOf(cur.foreignKeys), IndexOf(tgt.foreignKeys), f)
  }

  ghost predicate DeltaFrom(cur: Snapshot, tgt: Snapshot, c: seq<Line>, k: seq<Line>, i: seq<Line>, p: seq<Line>,
                            f: seq<Line>, out: seq<Line>)
  {
    DeltaParts(cur, tgt, c, k, i, p, f) && out == c + k + i + p + WithHazards(f) + TailLines(cur, tgt)
  }

  /** Columns, checks, indexes, policies, foreign keys with their hazards, then the table-level lines. */
  ghost predicate TableDelta(cur: Snapshot, tgt: Snapshot, out: seq<Line>) {
    exists c, k, i, p, f :: DeltaFrom(cur, tgt, c, k, i, p, f, out)
  }

  method DiffItems(kind: Kind, cur: seq<Item>, tgt: seq<Item>) returns (lines: seq<Line>)
    ensures ExactDiff(kind, IndexOf(cur), IndexOf(tgt), lines)
  {
    var a := IndexBy(cur);
    var b := IndexBy(tgt);
    lines := DiffNamed(kind, a, b);
  }

  method AddHazards(lines: seq<Line>) returns (out: seq<Line>)
    ensures out == WithHazards(lines)
  {
    out := [];
    for i := 0 to |lines|
      invariant out == WithHazards(lines[..i])
    {
      assert lines[..i + 1][..i] == lines[..i];
      out := out + [lines[i]];
      if lines[i].ObjectLine? && lines[i].tag == Added && lines[i].kind == ForeignKeyKind {
        out := out + [HazardLine];
      }
    }
    assert lines[..|lines|] == lines;
  }

  method TableLines(cur: Snapshot, tgt: Snapshot) returns (out: seq<Line>)
    ensures out == TailLines(cur, tgt)
  {
    out := [];
    if JoinComma(cur.primaryKey) != JoinComma(tgt.primaryKey) {
      out := out + [PrimaryKeyLine];
    }
    if cur.rls != tgt.rls {
      out := out + [RlsLine];
    }
    if cur.comment != tgt.comment {
      out := out + [CommentLine];
    }
  }

  method ComputeTableDelta(cur: Snapshot, tgt: Snapshot) returns (out: seq<Line>)
    ensures TableDelta(cur, tgt, out)
  {
    var columns := DiffItems(ColumnKind, cur.columns, tgt.columns);
    var checks := DiffItems(CheckKind, cur.checks, tgt.checks);
    var indexes := DiffItems(IndexKind, cur.indexes, tgt.indexes);
    var policies := DiffItems(PolicyKind, cur.policies, tgt.policies);
    var fkLines := DiffItems(ForeignKeyKind, cur.foreignKeys, tgt.foreignKeys);
    assert DeltaParts(cur, tgt, columns, checks, indexes, policies, fkLines);
    var hazards := AddHazards(fkLines);
    out := columns + checks + indexes + policies + hazards;
    var tail := TableLines(cur, tgt);
    out := out + tail;
    assert DeltaFrom(cur, tgt, columns, checks, indexes, policies, fkLines, out);
  }

  ghost predicate AllDistinct(s: Snapshot) {
    && DistinctNames(s.columns) && DistinctNames(s.checks) && DistinctNames(s.indexes)
    && DistinctNames(s.policies) && DistinctNames(s.foreignKeys)
  }

  /** The snapshots agree on every named object, the primary key, the RLS flag and the comment. */
  ghost predicate Agree(a: Snapshot, b: Snapshot) {
    && SameItems(a.columns, b.columns) && SameItems(a.checks, b.checks) && SameItems(a.indexes, b.indexes)
    && SameItems(a.policies, b.policies) && SameItems(a.foreignKeys, b.foreignKeys)
    && a.primaryKey == b.primaryKey && a.rls == b.rls && a.comment == b.comment
  }

  lemma KindEmptyIff(kind: Kind, cur: seq<Item>, tgt: seq<Item>, lines: seq<Line>)
    requires DistinctNames(cur) && DistinctNames(tgt) && ExactDiff(kind, IndexOf(cur), IndexOf(tgt), lines)
    ensures lines == [] <==> SameItems(cur, tgt)
  {
    DiffEmptyIff(kind, IndexOf(cur), IndexOf(tgt), lines);
    IndexAgreesIff(cur, tgt);
  }

  ghost predicate HasColumn(s: Snapshot, name: string) {
    exists j :: 0 <= j < |s.columns| && s.columns[j].name == name
  }

  /** The key is made of columns of the table. */
  ghost predicate KeyNamesColumns(s: Snapshot) {
    forall i :: 0 <= i < |s.primaryKey| ==> HasColumn(s, s.primaryKey[i])
  }

  ghost predicate PlainColumns(s: Snapshot) {
    forall j :: 0 <= j < |s.columns| ==> PlainName(s.columns[j].name)
  }

  lemma PlainKey(s: Snapshot, columns: seq<Item>)
    requires KeyNamesColumns(s) && SameItems(s.columns, columns)
    requires forall j :: 0 <= j < |columns| ==> PlainName(columns[j].name)
    ensures PlainNames(s.primaryKey)
  {
    forall i | 0 <= i < |s.primaryKey| ensures PlainName(s.primaryKey[i]) {
      assert HasColumn(s, s.primaryKey[i]);
      var j :| 0 <= j < |s.columns| && s.columns[j].name == s.primaryKey[i];
      assert s.columns[j] in columns;
    }
  }

  /** The delta is empty exactly when the objects, the joined keys, the flag and the comment agree. */
  lemma DeltaEmptyIffJoined(cur: Snapshot, tgt: Snapshot, out: seq<Line>)
    requires TableDelta(cur, tgt, out) && AllDistinct(cur) && AllDistinct(tgt)
    ensures out == [] <==>
      Agree(cur, tgt.(primaryKey := cur.primaryKey)) && JoinComma(cur.primaryKey) == JoinComma(tgt.primaryKey)
  {
    var c, k, i, p, f :| DeltaFrom(cur, tgt, c, k, i, p, f, out);
    KindEmptyIff(ColumnKind, cur.columns, tgt.columns, c);
    KindEmptyIff(CheckKind, cur.checks, tgt.checks, k);
    KindEmptyIff(IndexKind, cur.indexes, tgt.indexes, i);
    KindEmptyIff(PolicyKind, cur.policies, tgt.policies, p);
    KindEmptyIff(ForeignKeyKind, cur.foreignKeys, tgt.foreignKeys, f);
    assert WithHazards(f) == [] <==> f == [];
    assert out == [] <==> |c| + |k| + |i| + |p| + |WithHazards(f)| + |TailLines(cur, tgt)| == 0;
  }

  /** The delta is empty exactly when the snapshots agree, if the target's column names are non-empty and free of
      commas. Nothing is assumed of the current table's names: a key it cannot share with the target shows up
      among the columns. */
  lemma DeltaEmptyIff(cur: Snapshot, tgt: Snapshot, out: seq<Line>)
    requires TableDelta(cur, tgt, out) && AllDistinct(cur) && AllDistinct(tgt)
    requires PlainColumns(tgt) && KeyNamesColumns(cur) && KeyNamesColumns(tgt)
    ensures out == [] <==> Agree(cur, tgt)
  {
    DeltaEmptyIffJoined(cur, tgt, out);
    if out == [] {
      PlainKey(tgt, tgt.columns);
      PlainKey(cur, tgt.columns);
      JoinInjective(cur.primaryKey, tgt.primaryKey);
    }
  }

  lemma {:induction false} HazardsAreObjects(lines: seq<Line>)
    requires forall k :: 0 <= k < |lines| ==> lines[k].ObjectLine?
    ensures forall l :: l in WithHazards(lines) ==> l.ObjectLine? || l.HazardLine?
  {
    if lines != [] {
      HazardsAreObjects(lines[..|lines| - 1]);
    }
  }

  lemma ObjectsHoldNoKeyLine(cur: Snapshot, tgt: Snapshot, c: seq<Line>, k: seq<Line>, i: seq<Line>, p: seq<Line>,
                             f: seq<Line>)
    requires DeltaParts(cur, tgt, c, k, i, p, f)
    ensures PrimaryKeyLine !in c + k + i + p + WithHazards(f)
  {
    HazardsAreObjects(f);
    assert PrimaryKeyLine !in c && PrimaryKeyLine !in k && PrimaryKeyLine !in i && PrimaryKeyLine !in p;
  }

  lemma JoinIff(a: seq<string>, b: seq<string>)
    requires PlainNames(a) && PlainNames(b)
    ensures JoinComma(a) == JoinComma(b) <==> a == b
  {
    if JoinComma(a) == JoinComma(b) {
      JoinInjective(a, b);
    }
  }

  /** The primary-key line is there exactly when the joined keys differ. With plain names on both sides that is
      when the keys differ. */
  lemma PrimaryKeyLineIff(cur: Snapshot, tgt: Snapshot, out: seq<Line>)
    requires TableDelta(cur, tgt, out)
    ensures PrimaryKeyLine in out <==> JoinComma(cur.primaryKey) != JoinComma(tgt.primaryKey)
    ensures PlainNames(cur.primaryKey) && PlainNames(tgt.primaryKey) ==>
      (PrimaryKeyLine in out <==> cur.primaryKey != tgt.primaryKey)
  {
    var c, k, i, p, f :| DeltaFrom(cur, tgt, c, k, i, p, f, out);
    ObjectsHoldNoKeyLine(cur, tgt, c, k, i, p, f);
    if PlainNames(cur.primaryKey) && PlainNames(tgt.primaryKey) {
      JoinIff(cur.primaryKey, tgt.primaryKey);
    }
  }

  function TableOf(columns: seq<string>, key: seq<string>): Snapshot {
    Snapshot(seq(|columns|, i requires 0 <= i < |columns| => Item(columns[i], [])), key, [], [], false, [], "", [])
  }

  /** A table whose key is its one column "a,b". */
  function OneColumn(): Snapshot { TableOf(["a,b"], ["a,b"]) }

  /** A table keyed by its columns a and b. */
  function TwoColumns(): Snapshot { TableOf(["a", "b"], ["a", "b"]) }

  lemma CommaSnapshots()
    ensures AllDistinct(OneColumn()) && AllDistinct(TwoColumns())
    ensures KeyNamesColumns(OneColumn()) && KeyNamesColumns(TwoColumns()) && PlainColumns(TwoColumns())
    ensures JoinComma(OneColumn().primaryKey) == JoinComma(TwoColumns().primaryKey)
    ensures OneColumn().primaryKey != TwoColumns().primaryKey
  {
    assert OneColumn().columns[0].name == "a,b";
    assert TwoColumns().columns[0].name == "a" && TwoColumns().columns[1].name == "b" && "a"[0] != "b"[0];
    assert ["a", "b"][1..] == ["b"] && "a" + "," + "b" == "a,b";
  }

  /** The delta between the two is not empty, since their columns differ, but its primary-key line is missing. */
  lemma CommaHidesKeyLine(out: seq<Line>)
    requires TableDelta(OneColumn(), TwoColumns(), out)
    ensures KeyNamesColumns(OneColumn()) && KeyNamesColumns(TwoColumns())
    ensures OneColumn().primaryKey != TwoColumns().primaryKey
    ensures out != [] && PrimaryKeyLine !in out
  {
    CommaSnapshots();
    PrimaryKeyLineIff(OneColumn(), TwoColumns(), out);
    DeltaEmptyIff(OneColumn(), TwoColumns(), out);
  }

  // -- What the lines say -----------------------------------------------------------------------

  function ItemsOf(s: Snapshot, kind: Kind): seq<Item> {
    match kind
    case ColumnKind => s.columns
    case CheckKind => s.checks
    case IndexKind => s.indexes
    case PolicyKind => s.policies
    case ForeignKeyKind => s.foreignKeys
  }

  ghost predicate Named(items: seq<Item>, n: string) { exists i :: 0 <= i < |items| && items[i].name == n }

  /** Both sides have an object of the name, and they differ. */
  ghost predicate Differs(cur: seq<Item>, tgt: seq<Item>, n: string) {
    exists a, b :: a in cur && b in tgt && a.name == b.name == n && a != b
  }

  ghost predicate OnlyKind(kind: Kind, lines: seq<Line>) {
    forall k :: 0 <= k < |lines| ==> lines[k].ObjectLine? && lines[k].kind == kind
  }

  lemma {:induction false} HazardsAdd(lines: seq<Line>, l: Line)
    ensures l in WithHazards(lines) && !l.HazardLine? ==> l in lines
    ensures l in lines ==> l in WithHazards(lines)
  {
    if lines != [] {
      var front, last := lines[..|lines| - 1], lines[|lines| - 1];
      HazardsAdd(front, l);
      assert lines == front + [last];
    }
  }

  lemma InSections(c: seq<Line>, k: seq<Line>, i: seq<Line>, p: seq<Line>, h: seq<Line>, t: seq<Line>, l: Line)
    ensures l in c + k + i + p + h + t <==> l in c || l in k || l in i || l in p || l in h || l in t
  {
  }

  /** A line about an object stands in the delta exactly when it stands in the difference of its kind. */
  lemma ObjectInPart(cur: Snapshot, tgt: Snapshot, out: seq<Line>, kind: Kind) returns (part: seq<Line>)
    requires TableDelta(cur, tgt, out)
    ensures ExactDiff(kind, IndexOf(ItemsOf(cur, kind)), IndexOf(ItemsOf(tgt, kind)), part)
    ensures forall tag, n :: ObjectLine(tag, kind, n) in out <==> ObjectLine(tag, kind, n) in part
  {
    var c, k, i, p, f :| DeltaFrom(cur, tgt, c, k, i, p, f, out);
    assert OnlyKind(ColumnKind, c) && OnlyKind(CheckKind, k) && OnlyKind(IndexKind, i) && OnlyKind(PolicyKind, p);
    part := match kind case ColumnKind => c case CheckKind => k case IndexKind => i case PolicyKind => p
                       case ForeignKeyKind => f;
    forall tag, n ensures ObjectLine(tag, kind, n) in out <==> ObjectLine(tag, kind, n) in part {
      var l := ObjectLine(tag, kind, n);
      HazardsAdd(f, l);
      InSections(c, k, i, p, WithHazards(f), TailLines(cur, tgt), l);
      assert (l in c ==> kind == ColumnKind) && (l in k ==> kind == CheckKind) && (l in i ==> kind == IndexKind);
      assert (l in p ==> kind == PolicyKind) && (l in f ==> kind == ForeignKeyKind);
    }
  }

  lemma IndexDiffers(cur: seq<Item>, tgt: seq<Item>, n: string)
    requires DistinctNames(cur) && DistinctNames(tgt)
    ensures (n in IndexOf(cur) && n in IndexOf(tgt) && IndexOf(cur)[n] != IndexOf(tgt)[n]) <==> Differs(cur, tgt, n)
  {
    IndexKeys(cur);
    IndexKeys(tgt);
    IndexHolds(cur);
    IndexHolds(tgt);
    if n in IndexOf(cur) && n in IndexOf(tgt) {
      var i :| 0 <= i < |cur| && cur[i].name == n;
      var j :| 0 <= j < |tgt| && tgt[j].name == n;
      assert cur[i] in cur && tgt[j] in tgt;
    }
  }

  /** The delta says of an object that it is added, removed or changed exactly when only the target has it, only the
      current table has it, or both have it and differ. */
  lemma DeltaTags(cur: Snapshot, tgt: Snapshot, out: seq<Line>, kind: Kind, n: string)
    requires TableDelta(cur, tgt, out)
    ensures ObjectLine(Added, kind, n) in out <==> Named(ItemsOf(tgt, kind), n) && !Named(ItemsOf(cur, kind), n)
    ensures ObjectLine(Removed, kind, n) in out <==> Named(ItemsOf(cur, kind), n) && !Named(ItemsOf(tgt, kind), n)
    ensures DistinctNames(ItemsOf(cur, kind)) && DistinctNames(ItemsOf(tgt, kind)) ==>
      (ObjectLine(Changed, kind, n) in out <==> Differs(ItemsOf(cur, kind), ItemsOf(tgt, kind), n))
  {
    var a, b := ItemsOf(cur, kind), ItemsOf(tgt, kind);
    var part := ObjectInPart(cur, tgt, out, kind);
    DiffTags(kind, IndexOf(a), IndexOf(b), part, n);
    IndexKeys(a);
    IndexKeys(b);
    if DistinctNames(a) && DistinctNames(b) {
      IndexDiffers(a, b, n);
    }
  }

  /** The table-level lines stand for what differs in the flag and the comment. */
  lemma TableLinesIff(cur: Snapshot, tgt: Snapshot, out: seq<Line>)
    requires TableDelta(cur, tgt, out)
    ensures RlsLine in out <==> cur.rls != tgt.rls
    ensures CommentLine in out <==> cur.comment != tgt.comment
  {
    var c, k, i, p, f :| DeltaFrom(cur, tgt, c, k, i, p, f, out);
    NoTableLines(cur, tgt, c, k, i, p, f, RlsLine);
    NoTableLines(cur, tgt, c, k, i, p, f, CommentLine);
    InSections(c, k, i, p, WithHazards(f), TailLines(cur, tgt), RlsLine);
    InSections(c, k, i, p, WithHazards(f), TailLines(cur, tgt), CommentLine);
  }

  lemma NoTableLines(cur: Snapshot, tgt: Snapshot, c: seq<Line>, k: seq<Line>, i: seq<Line>, p: seq<Line>,
                     f: seq<Line>, l: Line)
    requires DeltaParts(cur, tgt, c, k, i, p, f) && !l.ObjectLine? && !l.HazardLine?
    ensures l !in c && l !in k && l !in i && l !in p && l !in WithHazards(f)
  {
    HazardsAreObjects(f);
  }

  /** Hazards stand right after added foreign keys and nowhere else. */
  ghost predicate HazardsPlaced(lines: seq<Line>) {
    && (forall k :: 0 <= k < |lines| && lines[k].HazardLine? ==> k > 0 && AddsForeignKey(lines[k - 1]))
    && forall k :: 0 <= k < |lines| && AddsForeignKey(lines[k]) ==> k + 1 < |lines| && lines[k + 1].HazardLine?
  }

  predicate AddsForeignKey(l: Line) { l.ObjectLine? && l.tag == Added && l.kind == ForeignKeyKind }

  lemma {:induction false} HazardsFollow(lines: seq<Line>)
    requires forall k :: 0 <= k < |lines| ==> lines[k].ObjectLine?
    ensures HazardsPlaced(WithHazards(lines))
  {
    if lines != [] {
      HazardsFollow(lines[..|lines| - 1]);
    }
  }

  lemma PlacedBetween(before: seq<Line>, lines: seq<Line>, after: seq<Line>)
    requires HazardsPlaced(lines)
    requires forall l :: l in before || l in after ==> !l.HazardLine? && !AddsForeignKey(l)
    ensures HazardsPlaced(before + lines + after)
  {
    var all := before + lines + after;
    forall k | 0 <= k < |all| && !(|before| <= k < |before| + |lines|)
      ensures !all[k].HazardLine? && !AddsForeignKey(all[k])
    {
      if k < |before| {
        assert all[k] == before[k] && all[k] in before;
      } else {
        assert all[k] == after[k - |before| - |lines|] && all[k] in after;
      }
    }
    assert forall k :: |before| <= k < |before| + |lines| ==> all[k] == lines[k - |before|];
  }

  /** In the delta of a table a hazard stands right after each added foreign key, and nowhere else. */
  lemma DeltaHazards(cur: Snapshot, tgt: Snapshot, out: seq<Line>)
    requires TableDelta(cur, tgt, out)
    ensures HazardsPlaced(out)
  {
    var c, k, i, p, f :| DeltaFrom(cur, tgt, c, k, i, p, f, out);
    HazardsFollow(f);
    PartsAddNoKey(cur, tgt, c, k, i, p, f);
    assert out == (c + k + i + p) + WithHazards(f) + TailLines(cur, tgt);
    PlacedBetween(c + k + i + p, WithHazards(f), TailLines(cur, tgt));
  }

  lemma PartsAddNoKey(cur: Snapshot, tgt: Snapshot, c: seq<Line>, k: seq<Line>, i: seq<Line>, p: seq<Line>,
                      f: seq<Line>)
    requires DeltaParts(cur, tgt, c, k, i, p, f)
    ensures forall l :: l in c + k + i + p ==> !l.HazardLine? && !AddsForeignKey(l)
  {
    assert OnlyKind(ColumnKind, c) && OnlyKind(CheckKind, k) && OnlyKind(IndexKind, i) && OnlyKind(PolicyKind, p);
    forall l | l in c + k + i + p ensures !l.HazardLine? && !AddsForeignKey(l) {
      assert l in c || l in k || l in i || l in p;
    }
  }

  /** The place of a line's kind in the delta. */
  function Rank(l: Line): nat {
    match l
    case ObjectLine(_, ColumnKind, _) => 0
    case ObjectLine(_, CheckKind, _) => 1
    case ObjectLine(_, IndexKind, _) => 2
    case ObjectLine(_, PolicyKind, _) => 3
    case ObjectLine(_, ForeignKeyKind, _) => 4
    case HazardLine => 4
    case PrimaryKeyLine => 5
    case RlsLine => 6
    case CommentLine => 7
  }

  ghost predicate Ranked(lines: seq<Line>, low: nat, high: nat) {
    && (forall k :: 0 <= k < |lines| ==> low <= Rank(lines[k]) <= high)
    && forall j, k :: 0 <= j < k < |lines| ==> Rank(lines[j]) <= Rank(lines[k])
  }

  lemma RankedJoin(a: seq<Line>, b: seq<Line>, low: nat, mid: nat, high: nat)
    requires Ranked(a, low, mid) && Ranked(b, mid, high) && low <= mid <= high
    ensures Ranked(a + b, low, high)
  {
    assert forall k :: 0 <= k < |a + b| ==> (a + b)[k] == if k < |a| then a[k] else b[k - |a|];
  }

  lemma RankedWider(a: seq<Line>, low: nat, high: nat, higher: nat)
    requires Ranked(a, low, high) && high <= higher
    ensures Ranked(a, low, higher)
  {
  }

  lemma HazardsRanked(f: seq<Line>)
    requires OnlyKind(ForeignKeyKind, f)
    ensures Ranked(WithHazards(f), 4, 4)
  {
    forall l | l in WithHazards(f) ensures Rank(l) == 4 {
      HazardsAreObjects(f);
      HazardsAdd(f, l);
    }
    forall k | 0 <= k < |WithHazards(f)| ensures Rank(WithHazards(f)[k]) == 4 {
      assert WithHazards(f)[k] in WithHazards(f);
    }
  }

  lemma PartsRanked(cur: Snapshot, tgt: Snapshot, c: seq<Line>, k: seq<Line>, i: seq<Line>, p: seq<Line>, f: seq<Line>)
    requires DeltaParts(cur, tgt, c, k, i, p, f)
    ensures Ranked(c, 0, 1) && Ranked(k, 1, 1) && Ranked(i, 2, 2) && Ranked(p, 3, 3) && Ranked(WithHazards(f), 4, 4)
  {
    HazardsRanked(f);
  }

  lemma TailRanked(cur: Snapshot, tgt: Snapshot)
    ensures Ranked(TailLines(cur, tgt), 5, 7)
  {
  }

  /** Columns come first, then checks, indexes, policies, foreign keys with their hazards, and the table-level
      lines. */
  lemma DeltaRanked(cur: Snapshot, tgt: Snapshot, out: seq<Line>)
    requires TableDelta(cur, tgt, out)
    ensures forall j, k :: 0 <= j < k < |out| ==> Rank(out[j]) <= Rank(out[k])
  {
    var c, k, i, p, f :| DeltaFrom(cur, tgt, c, k, i, p, f, out);
    PartsRanked(cur, tgt, c, k, i, p, f);
    TailRanked(cur, tgt);
    RankedJoin(c, k, 0, 1, 1);
    RankedWider(c + k, 0, 1, 2);
    RankedJoin(c + k, i, 0, 2, 2);
    RankedWider(c + k + i, 0, 2, 3);
    RankedJoin(c + k + i, p, 0, 3, 3);
    RankedWider(c + k + i + p, 0, 3, 4);
    RankedJoin(c + k + i + p, WithHazards(f), 0, 4, 4);
    RankedWider(c + k + i + p + WithHazards(f), 0, 4, 5);
    RankedJoin(c + k + i + p + WithHazards(f), TailLines(cur, tgt), 0, 5, 7);
  }
}
