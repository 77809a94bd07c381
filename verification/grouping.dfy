/**
 * The image snapshot `select_images` builds from the output of
 * `docker images --format "{{.Digest}} {{.Tag}}"`: one group per digest, in
 * ascending digest order, each holding the tags listed under that digest in
 * ascending order, repeats included.
 */
module Grouping {
  import opened Options
  import opened Text
  import opened Order

  /** One listing row: a digest and one tag that refers to it. */
  datatype Pair = Pair(digest: string, tag: string)

  /** A digest and the tags listed under it (`digest_x_tags[digest]`). */
  datatype Group = Group(digest: string, tags: seq<string>)

  /** The groups in display order (`digest_x_tags.items()`). */
  type Snapshot = seq<Group>

  /* ---------------------------------------------------------------- parsing */

  /** The lines kept by `if line.strip()`: the non-blank ones, in order. */
  function NonBlankLines(lines: seq<string>): (r: seq<string>)
    ensures forall k :: 0 <= k < |r| ==> !IsBlank(r[k])
    ensures forall line :: line in r <==> line in lines && !IsBlank(line)
    ensures |r| <= |lines|
    decreases |lines|
  {
    if lines == [] then []
    else
      var rest := NonBlankLines(lines[1..]);
      assert forall line :: line in lines <==> line == lines[0] || line in lines[1..];
      if IsBlank(lines[0]) then rest else [lines[0]] + rest
  }

  /** The filter keeps every non-blank line as often as it occurs, repeats included. */
  lemma {:induction false} NonBlankCount(lines: seq<string>, line: string)
    ensures multiset(NonBlankLines(lines))[line] == if IsBlank(line) then 0 else multiset(lines)[line]
    decreases |lines|
  {
    if lines != [] {
      NonBlankCount(lines[1..], line);
      NonBlankUnfold(lines);
      KeptCount(lines[0], line);
      CountStep(lines, Kept(lines[0]), NonBlankLines(lines[1..]), NonBlankLines(lines), line);
    }
  }

  lemma CountStep(lines: seq<string>, kept: seq<string>, rest: seq<string>, r: seq<string>, line: string)
    requires lines != [] && r == kept + rest
    requires multiset(kept)[line] == if IsBlank(line) then 0 else multiset([lines[0]])[line]
    requires multiset(rest)[line] == if IsBlank(line) then 0 else multiset(lines[1..])[line]
    ensures multiset(r)[line] == if IsBlank(line) then 0 else multiset(lines)[line]
  {
    assert lines == [lines[0]] + lines[1..];
  }

  lemma KeptCount(x: string, line: string)
    ensures multiset(Kept(x))[line] == if IsBlank(line) then 0 else multiset([x])[line]
  {
    if line != x {
      assert multiset(Kept(x))[line] == 0;
    }
  }

  /** The filter keeps the order of the lines: filtering a concatenation filters each part. */
  lemma {:induction false} NonBlankAppend(a: seq<string>, b: seq<string>)
    ensures NonBlankLines(a + b) == NonBlankLines(a) + NonBlankLines(b)
    decreases |a|
  {
    if a == [] {
      assert a + b == b;
    } else {
      var ab := a + b;
      assert ab[0] == a[0] && ab[1..] == a[1..] + b;
      NonBlankAppend(a[1..], b);
      NonBlankUnfold(ab);
      NonBlankUnfold(a);
      Regroup(Kept(a[0]), NonBlankLines(a[1..]), NonBlankLines(b));
    }
  }

  /** The line itself when `if line.strip()` keeps it, nothing otherwise. */
  function Kept(line: string): seq<string> {
    if IsBlank(line) then [] else [line]
  }

  lemma NonBlankUnfold(lines: seq<string>)
    requires lines != []
    ensures NonBlankLines(lines) == Kept(lines[0]) + NonBlankLines(lines[1..])
  {
  }

  /**
   * A line read as a row may hold any whitespace around and between its two
   * words (tabs, runs of spaces): it splits into exactly those two words.
   */
  lemma SpacedRow(pad: string, d: string, gap: string, t: string, tail: string)
    requires IsBlank(pad) && gap != [] && IsBlank(gap) && IsBlank(tail)
    requires d != [] && NoSpace(d) && t != [] && NoSpace(t)
    ensures Fields(pad + d + gap + t + tail) == [d, t]
  {
    var rest := gap + t + tail;
    FieldsCons(gap, t, tail);
    assert rest[0] == gap[0];
    FieldsCons(pad, d, rest);
    Regroup(gap, t, tail);
    Regroup(pad + d, gap + t, tail);
    Regroup(pad + d, gap, t);
  }

  /**
   * Reads each kept line as a digest and a tag. The script unpacks
   * `line.split()` into two names, so a line with fewer or more fields raises
   * `ValueError`; that failure is `None` here.
   */
  function ParseRows(lines: seq<string>): (r: Option<seq<Pair>>)
    ensures r.Some? <==> forall k :: 0 <= k < |lines| ==> |Fields(lines[k])| == 2
    ensures r.Some? ==> |r.value| == |lines|
    ensures r.Some? ==> forall k :: 0 <= k < |lines| ==>
      Fields(lines[k]) == [r.value[k].digest, r.value[k].tag]
    decreases |lines|
  {
    if lines == [] then Some([])
    else
      var fields := Fields(lines[0]);
      var rest := ParseRows(lines[1..]);
      assert forall k :: 1 <= k < |lines| ==> lines[k] == lines[1..][k - 1];
      if |fields| != 2 then None
      else if rest.None? then None
      else
        var r := [Pair(fields[0], fields[1])] + rest.value;
        RowsCons(lines, r, rest.value);
        Some(r)
  }

  /** A first row read from the first line, followed by rows read from the other lines, reads every line. */
  lemma RowsCons(lines: seq<string>, r: seq<Pair>, rest: seq<Pair>)
    requires lines != [] && |Fields(lines[0])| == 2
    requires r == [Pair(Fields(lines[0])[0], Fields(lines[0])[1])] + rest
    requires |rest| == |lines| - 1
    requires forall k :: 0 <= k < |rest| ==> Fields(lines[1..][k]) == [rest[k].digest, rest[k].tag]
    ensures |r| == |lines|
    ensures forall k :: 0 <= k < |lines| ==> Fields(lines[k]) == [r[k].digest, r[k].tag]
  {
    forall k | 0 <= k < |lines|
      ensures Fields(lines[k]) == [r[k].digest, r[k].tag]
    {
      if k > 0 {
        assert lines[k] == lines[1..][k - 1] && r[k] == rest[k - 1];
      }
    }
  }

  /** The listing rows of the command's standard output. */
  function ParseListing(stdout: string): (r: Option<seq<Pair>>)
    ensures r.Some? ==> forall k :: 0 <= k < |r.value| ==>
      r.value[k].digest != [] && NoSpace(r.value[k].digest) && r.value[k].tag != [] && NoSpace(r.value[k].tag)
  {
    var r := ParseRows(NonBlankLines(SplitOn(stdout, '\n')));
    assert r.Some? ==> forall k :: 0 <= k < |r.value| ==>
      r.value[k].digest in Fields(NonBlankLines(SplitOn(stdout, '\n'))[k]) &&
      r.value[k].tag in Fields(NonBlankLines(SplitOn(stdout, '\n'))[k]);
    r
  }

  /** One listing row as the `--format "{{.Digest}} {{.Tag}}"` template prints it. */
  function RowText(p: Pair): string {
    p.digest + " " + p.tag
  }

  /** The output of the listing command for the given rows: each row followed by a newline. */
  function ListingText(pairs: seq<Pair>): string
    decreases |pairs|
  {
    if pairs == [] then [] else RowText(pairs[0]) + "\n" + ListingText(pairs[1..])
  }

  function RowTexts(pairs: seq<Pair>): (r: seq<string>)
    ensures |r| == |pairs|
    ensures forall k :: 0 <= k < |pairs| ==> r[k] == RowText(pairs[k])
  {
    seq(|pairs|, k requires 0 <= k < |pairs| => RowText(pairs[k]))
  }

  lemma {:induction false} ListingTextLines(pairs: seq<Pair>)
    ensures ListingText(pairs) == JoinWith(RowTexts(pairs) + [[]], '\n')
    decreases |pairs|
  {
    if pairs != [] {
      ListingTextLines(pairs[1..]);
      assert RowTexts(pairs) + [[]] == [RowText(pairs[0])] + (RowTexts(pairs[1..]) + [[]]);
    }
  }

  predicate ValidPair(p: Pair) {
    p.digest != [] && NoSpace(p.digest) && p.tag != [] && NoSpace(p.tag)
  }

  lemma RowTextFields(p: Pair)
    requires ValidPair(p)
    ensures Fields(RowText(p)) == [p.digest, p.tag]
    ensures '\n' !in RowText(p) && !IsBlank(RowText(p))
  {
    assert JoinWith([p.digest, p.tag], ' ') == RowText(p);
    FieldsOfWords([p.digest, p.tag]);
    NoNewline(p);
  }

  lemma NoNewline(p: Pair)
    requires ValidPair(p)
    ensures '\n' !in RowText(p)
  {
    var s := RowText(p);
    forall i | 0 <= i < |s|
      ensures s[i] != '\n'
    {
      if i < |p.digest| {
        assert s[i] == p.digest[i];
      } else if i > |p.digest| {
        assert s[i] == p.tag[i - |p.digest| - 1];
      }
    }
  }

  lemma NonBlankRows(pairs: seq<Pair>)
    requires forall k :: 0 <= k < |pairs| ==> ValidPair(pairs[k])
    ensures NonBlankLines(RowTexts(pairs) + [[]]) == RowTexts(pairs)
  {
    var rows := RowTexts(pairs);
    forall k | 0 <= k < |rows|
      ensures !IsBlank(rows[k])
    {
      RowTextFields(pairs[k]);
    }
    NonBlankDropLast(rows, []);
    NonBlankAll(rows);
  }

  /** Without blank lines there is nothing to drop. */
  lemma {:induction false} NonBlankAll(lines: seq<string>)
    requires forall k :: 0 <= k < |lines| ==> !IsBlank(lines[k])
    ensures NonBlankLines(lines) == lines
    decreases |lines|
  {
    if lines != [] {
      assert forall k :: 0 <= k < |lines[1..]| ==> lines[1..][k] == lines[k + 1];
      NonBlankAll(lines[1..]);
      assert lines == [lines[0]] + lines[1..];
    }
  }

  /** A blank last line is dropped. */
  lemma {:induction false} NonBlankDropLast(lines: seq<string>, x: string)
    requires IsBlank(x)
    ensures NonBlankLines(lines + [x]) == NonBlankLines(lines)
    decreases |lines|
  {
    if lines == [] {
      assert lines + [x] == [x];
      assert [x][1..] == [];
    } else {
      assert (lines + [x])[0] == lines[0];
      assert (lines + [x])[1..] == lines[1..] + [x];
      NonBlankDropLast(lines[1..], x);
    }
  }

  lemma ListingLines(pairs: seq<Pair>)
    requires forall k :: 0 <= k < |pairs| ==> ValidPair(pairs[k])
    ensures SplitOn(ListingText(pairs), '\n') == RowTexts(pairs) + [[]]
  {
    var lines := RowTexts(pairs) + [[]];
    ListingTextLines(pairs);
    forall k | 0 <= k < |lines|
      ensures '\n' !in lines[k]
    {
      if k < |pairs| {
        NoNewline(pairs[k]);
      }
    }
    SplitJoin(lines, '\n');
  }

  lemma ParseRowTexts(pairs: seq<Pair>)
    requires forall k :: 0 <= k < |pairs| ==> ValidPair(pairs[k])
    ensures ParseRows(RowTexts(pairs)) == Some(pairs)
  {
    var lines := RowTexts(pairs);
    forall k | 0 <= k < |lines|
      ensures Fields(lines[k]) == [pairs[k].digest, pairs[k].tag]
    {
      RowTextFields(pairs[k]);
    }
    var r := ParseRows(lines);
    assert r.Some?;
    forall k | 0 <= k < |pairs|
      ensures r.value[k] == pairs[k]
    {
      var f := [r.value[k].digest, r.value[k].tag];
      assert f == [pairs[k].digest, pairs[k].tag];
      assert f[0] == pairs[k].digest && f[1] == pairs[k].tag;
    }
    assert r.value == pairs;
  }

  /**
   * Reading back the listing the command prints gives the rows it printed,
   * whatever their order, as long as digests and tags are non-empty and hold
   * no whitespace.
   */
  lemma ListingRoundTrip(pairs: seq<Pair>)
    requires forall k :: 0 <= k < |pairs| ==> ValidPair(pairs[k])
    ensures ParseListing(ListingText(pairs)) == Some(pairs)
  {
    ListingLines(pairs);
    NonBlankRows(pairs);
    ParseRowTexts(pairs);
  }

  /* ---------------------------------------------------------------- snapshot */

  /**
   * What the grouping guarantees: digests strictly ascending (so each digest
   * has one group), every group non-empty, tags within a group ascending.
   */
  predicate WellFormed(snap: Snapshot) {
    && (forall i, j :: 0 <= i < j < |snap| ==> Less(snap[i].digest, snap[j].digest))
    && (forall i :: 0 <= i < |snap| ==> snap[i].tags != [] && Ascending(snap[i].tags))
  }

  /** How many times the row `p` occurs in the snapshot. */
  function Count(snap: Snapshot, p: Pair): nat
    decreases |snap|
  {
    if snap == [] then 0
    else (if snap[0].digest == p.digest then multiset(snap[0].tags)[p.tag] else 0) + Count(snap[1..], p)
  }

  function Digests(snap: Snapshot): set<string>
    decreases |snap|
  {
    if snap == [] then {} else {snap[0].digest} + Digests(snap[1..])
  }

  lemma {:induction false} DigestsIndex(snap: Snapshot, d: string)
    ensures d in Digests(snap) <==> exists i :: 0 <= i < |snap| && snap[i].digest == d
    decreases |snap|
  {
    if snap != [] {
      DigestsIndex(snap[1..], d);
      if d in Digests(snap[1..]) {
        var i :| 0 <= i < |snap[1..]| && snap[1..][i].digest == d;
        assert snap[i + 1].digest == d;
      }
      if exists i :: 0 <= i < |snap| && snap[i].digest == d {
        var i :| 0 <= i < |snap| && snap[i].digest == d;
        if i > 0 {
          assert snap[1..][i - 1].digest == d;
        }
      }
    }
  }

  lemma ConsFacts(g: Group, snap: Snapshot)
    ensures forall q :: Count([g] + snap, q) == (if g.digest == q.digest then multiset(g.tags)[q.tag] else 0) + Count(snap, q)
    ensures Digests([g] + snap) == {g.digest} + Digests(snap)
  {
    assert ([g] + snap)[1..] == snap;
  }

  /** Adds one listing row to a well-formed snapshot, keeping it well-formed. */
  function AddPair(snap: Snapshot, p: Pair): (r: Snapshot)
    requires WellFormed(snap)
    ensures WellFormed(r)
    ensures forall q :: Count(r, q) == Count(snap, q) + (if q == p then 1 else 0)
    ensures Digests(r) == Digests(snap) + {p.digest}
    decreases |snap|
  {
    if snap == [] then
      ConsFacts(Group(p.digest, [p.tag]), snap);
      [Group(p.digest, [p.tag])]
    else if p.digest == snap[0].digest then
      AddToFirst(snap, p);
      [Group(p.digest, Insert(snap[0].tags, p.tag))] + snap[1..]
    else if Less(p.digest, snap[0].digest) then
      AddInFront(snap, p);
      [Group(p.digest, [p.tag])] + snap
    else
      var rest := AddPair(snap[1..], p);
      LessTrichotomy(p.digest, snap[0].digest);
      AddBehind(snap, p, rest);
      [snap[0]] + rest
  }

  lemma AddToFirst(snap: Snapshot, p: Pair)
    requires WellFormed(snap) && snap != [] && p.digest == snap[0].digest
    ensures var r := [Group(p.digest, Insert(snap[0].tags, p.tag))] + snap[1..];
      && WellFormed(r)
      && (forall q :: Count(r, q) == Count(snap, q) + (if q == p then 1 else 0))
      && Digests(r) == Digests(snap) + {p.digest}
  {
    var g := Group(p.digest, Insert(snap[0].tags, p.tag));
    var r := [g] + snap[1..];
    ConsFacts(g, snap[1..]);
    ConsFacts(snap[0], snap[1..]);
    assert snap == [snap[0]] + snap[1..];
    SameDigestsWellFormed(snap, r);
  }

  /** Replacing the first group's tags by other non-empty ascending tags keeps a snapshot well-formed. */
  lemma SameDigestsWellFormed(snap: Snapshot, r: Snapshot)
    requires WellFormed(snap) && snap != [] && |r| == |snap| && r[1..] == snap[1..]
    requires r[0].digest == snap[0].digest && r[0].tags != [] && Ascending(r[0].tags)
    ensures WellFormed(r)
  {
    assert forall i :: 0 < i < |r| ==> r[i] == snap[i] by {
      forall i | 0 < i < |r|
        ensures r[i] == snap[i]
      {
        assert r[1..][i - 1] == snap[1..][i - 1];
      }
    }
  }

  lemma AddInFront(snap: Snapshot, p: Pair)
    requires WellFormed(snap) && snap != [] && Less(p.digest, snap[0].digest)
    ensures var r := [Group(p.digest, [p.tag])] + snap;
      && WellFormed(r)
      && (forall q :: Count(r, q) == Count(snap, q) + (if q == p then 1 else 0))
      && Digests(r) == Digests(snap) + {p.digest}
  {
    var r := [Group(p.digest, [p.tag])] + snap;
    ConsFacts(Group(p.digest, [p.tag]), snap);
    forall i, j | 0 <= i < j < |r|
      ensures Less(r[i].digest, r[j].digest)
    {
      if i == 0 && j > 1 {
        LessTransitive(p.digest, snap[0].digest, snap[j - 1].digest);
      }
    }
  }

  lemma AddBehind(snap: Snapshot, p: Pair, rest: Snapshot)
    requires WellFormed(snap) && snap != [] && Less(snap[0].digest, p.digest)
    requires WellFormed(rest)
    requires forall q :: Count(rest, q) == Count(snap[1..], q) + (if q == p then 1 else 0)
    requires Digests(rest) == Digests(snap[1..]) + {p.digest}
    ensures var r := [snap[0]] + rest;
      && WellFormed(r)
      && (forall q :: Count(r, q) == Count(snap, q) + (if q == p then 1 else 0))
      && Digests(r) == Digests(snap) + {p.digest}
  {
    var r := [snap[0]] + rest;
    ConsFacts(snap[0], rest);
    ConsFacts(snap[0], snap[1..]);
    assert snap == [snap[0]] + snap[1..];
    forall j | 0 <= j < |rest|
      ensures Less(snap[0].digest, rest[j].digest)
    {
      DigestsIndex(rest, rest[j].digest);
      DigestsIndex(snap[1..], rest[j].digest);
      if rest[j].digest != p.digest {
        var k :| 0 <= k < |snap[1..]| && snap[1..][k].digest == rest[j].digest;
        assert snap[k + 1].digest == rest[j].digest;
      }
    }
    forall i, j | 0 <= i < j < |r|
      ensures Less(r[i].digest, r[j].digest)
    {
      if i > 0 {
        assert r[i] == rest[i - 1] && r[j] == rest[j - 1];
      } else {
        assert r[j] == rest[j - 1];
      }
    }
  }

  /**
   * `digest_x_tags`: the listing rows grouped by digest. The result is
   * well-formed and holds every row exactly as often as the listing does.
   */
  function GroupByDigest(pairs: seq<Pair>): (snap: Snapshot)
    ensures WellFormed(snap)
    ensures forall q :: Count(snap, q) == multiset(pairs)[q]
    decreases |pairs|
  {
    if pairs == [] then []
    else
      var init := pairs[..|pairs| - 1];
      assert pairs == init + [pairs[|pairs| - 1]];
      AddPair(GroupByDigest(init), pairs[|pairs| - 1])
  }

  /** In a well-formed snapshot a row's count is its tag's count in the one group of its digest. */
  lemma {:induction false} CountInGroup(snap: Snapshot, i: nat, t: string)
    requires WellFormed(snap) && i < |snap|
    ensures Count(snap, Pair(snap[i].digest, t)) == multiset(snap[i].tags)[t]
    decreases |snap|
  {
    var d := snap[i].digest;
    if i == 0 {
      forall j | 0 <= j < |snap[1..]|
        ensures snap[1..][j].digest != d
      {
        assert Less(d, snap[j + 1].digest);
        LessIrreflexive(d);
      }
      CountAbsent(snap[1..], Pair(d, t));
    } else {
      assert snap[1..][i - 1] == snap[i];
      assert Less(snap[0].digest, d);
      LessIrreflexive(d);
      CountInGroup(snap[1..], i - 1, t);
    }
  }

  /** A row whose digest is below every group's digest does not occur. */
  lemma {:induction false} CountAbsent(snap: Snapshot, p: Pair)
    requires forall j :: 0 <= j < |snap| ==> snap[j].digest != p.digest
    ensures Count(snap, p) == 0
    decreases |snap|
  {
    if snap != [] {
      CountAbsent(snap[1..], p);
    }
  }

  /** Rows present in a snapshot sit in a group carrying their digest. */
  lemma {:induction false} CountPositive(snap: Snapshot, p: Pair)
    requires Count(snap, p) > 0
    ensures exists i :: 0 <= i < |snap| && snap[i].digest == p.digest && p.tag in snap[i].tags
    decreases |snap|
  {
    if snap[0].digest == p.digest && multiset(snap[0].tags)[p.tag] > 0 {
      assert p.tag in snap[0].tags;
    } else {
      CountPositive(snap[1..], p);
      var i :| 0 <= i < |snap[1..]| && snap[1..][i].digest == p.digest && p.tag in snap[1..][i].tags;
      assert snap[i + 1] == snap[1..][i];
    }
  }

  /** Two well-formed snapshots holding the same rows are the same snapshot. */
  lemma {:induction false} SnapshotUnique(a: Snapshot, b: Snapshot)
    requires WellFormed(a) && WellFormed(b)
    requires forall q :: Count(a, q) == Count(b, q)
    ensures a == b
    decreases |a| + |b|
  {
    if a != [] || b != [] {
      // Both are non-empty: the first tag of either occurs in the other.
      var x := if a != [] then a else b;
      var y := if a != [] then b else a;
      CountInGroup(x, 0, x[0].tags[0]);
      assert x[0].tags[0] in multiset(x[0].tags);
      CountPositive(y, Pair(x[0].digest, x[0].tags[0]));
      assert a != [] && b != [];
      FirstDigestLeast(a, b);
      FirstDigestLeast(b, a);
      LessEqAntisymmetric(a[0].digest, b[0].digest);
      var d := a[0].digest;
      forall t
        ensures multiset(a[0].tags)[t] == multiset(b[0].tags)[t]
      {
        CountInGroup(a, 0, t);
        CountInGroup(b, 0, t);
      }
      assert multiset(a[0].tags) == multiset(b[0].tags);
      AscendingUnique(a[0].tags, b[0].tags);
      assert a[0] == b[0];
      forall q
        ensures Count(a[1..], q) == Count(b[1..], q)
      {
        assert Count(a, q) == Count(b, q);
      }
      SnapshotUnique(a[1..], b[1..]);
      assert a == [a[0]] + a[1..] && b == [b[0]] + b[1..];
    }
  }

  /** The first digest of a well-formed snapshot is at most every digest of another with the same rows. */
  lemma FirstDigestLeast(a: Snapshot, b: Snapshot)
    requires WellFormed(a) && WellFormed(b) && a != [] && b != []
    requires forall q :: Count(a, q) == Count(b, q)
    ensures LessEq(a[0].digest, b[0].digest)
  {
    var p := Pair(b[0].digest, b[0].tags[0]);
    CountInGroup(b, 0, b[0].tags[0]);
    assert b[0].tags[0] in multiset(b[0].tags);
    CountPositive(a, p);
    var i :| 0 <= i < |a| && a[i].digest == b[0].digest && p.tag in a[i].tags;
  }

  /* ---------------------------------------------------------------- tags */

  /** Every tag of the snapshot in display order, group by group (`sum(digest_x_tags.values(), [])`). */
  function Tags(snap: Snapshot): seq<string>
    decreases |snap|
  {
    if snap == [] then [] else snap[0].tags + Tags(snap[1..])
  }

  /** The set of tags of the snapshot: the selection `select_images` starts from. */
  function AllTags(snap: Snapshot): set<string> {
    set t | t in Tags(snap)
  }

  /** A tag is in the snapshot exactly when some group lists it. */
  lemma {:induction false} TagsOfGroups(snap: Snapshot, t: string)
    ensures t in Tags(snap) <==> exists i :: 0 <= i < |snap| && t in snap[i].tags
    decreases |snap|
  {
    if snap != [] {
      TagsOfGroups(snap[1..], t);
      if t in Tags(snap[1..]) {
        var i :| 0 <= i < |snap[1..]| && t in snap[1..][i].tags;
        assert snap[i + 1] == snap[1..][i];
      }
      if exists i :: 0 <= i < |snap| && t in snap[i].tags {
        var i :| 0 <= i < |snap| && t in snap[i].tags;
        if i > 0 {
          assert snap[1..][i - 1] == snap[i];
        }
      }
    }
  }

  /**
   * Grouping loses and invents no row: the snapshot shows exactly as many tag
   * rows as the listing has rows, so the loop numbers the rows `1` to
   * `|pairs|`.
   */
  lemma {:induction false} RowCount(pairs: seq<Pair>)
    ensures |Tags(GroupByDigest(pairs))| == |pairs|
    decreases |pairs|
  {
    if pairs != [] {
      var init := pairs[..|pairs| - 1];
      RowCount(init);
      AddPairSize(GroupByDigest(init), pairs[|pairs| - 1]);
    }
  }

  /** Adding a row adds one tag row. */
  lemma {:induction false} AddPairSize(snap: Snapshot, p: Pair)
    requires WellFormed(snap)
    ensures |Tags(AddPair(snap, p))| == |Tags(snap)| + 1
    decreases |snap|
  {
    var r := AddPair(snap, p);
    if snap == [] {
      assert r == [Group(p.digest, [p.tag])] && r[1..] == [];
    } else if p.digest == snap[0].digest {
      var tags := Insert(snap[0].tags, p.tag);
      assert r == [Group(p.digest, tags)] + snap[1..] && r[1..] == snap[1..];
      assert |multiset(tags)| == |multiset(snap[0].tags)| + 1;
    } else if Less(p.digest, snap[0].digest) {
      assert r == [Group(p.digest, [p.tag])] + snap && r[1..] == snap;
    } else {
      var rest := AddPair(snap[1..], p);
      assert r == [snap[0]] + rest && r[1..] == rest;
      AddPairSize(snap[1..], p);
    }
  }

  /**
   * The initial selection of a snapshot built from a listing is exactly the
   * set of tags the listing mentions.
   */
  lemma InitialSelection(pairs: seq<Pair>)
    ensures forall t :: t in AllTags(GroupByDigest(pairs)) <==> exists k :: 0 <= k < |pairs| && pairs[k].tag == t
  {
    forall t
      ensures t in AllTags(GroupByDigest(pairs)) <==> exists k :: 0 <= k < |pairs| && pairs[k].tag == t
    {
      ListedTag(pairs, t);
    }
  }

  lemma ListedTag(pairs: seq<Pair>, t: string)
    ensures t in AllTags(GroupByDigest(pairs)) <==> exists k :: 0 <= k < |pairs| && pairs[k].tag == t
  {
    var snap := GroupByDigest(pairs);
    TagsOfGroups(snap, t);
    if t in AllTags(snap) {
      var i :| 0 <= i < |snap| && t in snap[i].tags;
      CountInGroup(snap, i, t);
      assert Pair(snap[i].digest, t) in multiset(pairs);
      var k :| 0 <= k < |pairs| && pairs[k] == Pair(snap[i].digest, t);
    }
    if exists k :: 0 <= k < |pairs| && pairs[k].tag == t {
      var k :| 0 <= k < |pairs| && pairs[k].tag == t;
      assert pairs[k] in multiset(pairs);
      CountPositive(snap, pairs[k]);
    }
  }

  /**
   * The grouping keeps every row: a digest has a group exactly when the
   * listing mentions it, and within that group each tag appears as many
   * times as the listing pairs it with that digest, repeats included.
   */
  lemma GroupingKeepsRows(pairs: seq<Pair>, i: nat, t: string)
    requires i < |GroupByDigest(pairs)|
    ensures multiset(GroupByDigest(pairs)[i].tags)[t] == multiset(pairs)[Pair(GroupByDigest(pairs)[i].digest, t)]
  {
    CountInGroup(GroupByDigest(pairs), i, t);
  }

  /** A digest has a group exactly when some listing row carries it. */
  lemma GroupPerDigest(pairs: seq<Pair>, d: string)
    ensures (exists i :: 0 <= i < |GroupByDigest(pairs)| && GroupByDigest(pairs)[i].digest == d)
        <==> exists k :: 0 <= k < |pairs| && pairs[k].digest == d
  {
    var snap := GroupByDigest(pairs);
    if exists i :: 0 <= i < |snap| && snap[i].digest == d {
      var i :| 0 <= i < |snap| && snap[i].digest == d;
      GroupIsListed(pairs, i);
    }
    if exists k :: 0 <= k < |pairs| && pairs[k].digest == d {
      var k :| 0 <= k < |pairs| && pairs[k].digest == d;
      ListedHasGroup(pairs, k);
    }
  }

  lemma GroupIsListed(pairs: seq<Pair>, i: nat)
    requires i < |GroupByDigest(pairs)|
    ensures exists k :: 0 <= k < |pairs| && pairs[k].digest == GroupByDigest(pairs)[i].digest
  {
    var snap := GroupByDigest(pairs);
    var p := Pair(snap[i].digest, snap[i].tags[0]);
    CountInGroup(snap, i, p.tag);
    assert p.tag in multiset(snap[i].tags);
    assert p in multiset(pairs);
    var k :| 0 <= k < |pairs| && pairs[k] == p;
  }

  lemma ListedHasGroup(pairs: seq<Pair>, k: nat)
    requires k < |pairs|
    ensures exists i :: 0 <= i < |GroupByDigest(pairs)| && GroupByDigest(pairs)[i].digest == pairs[k].digest
  {
    assert pairs[k] in multiset(pairs);
    CountPositive(GroupByDigest(pairs), pairs[k]);
  }
}
