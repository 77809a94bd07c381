/**
 * The interactive loop of `select_images`: the rows are numbered afresh on
 * every pass, one answer is read and applied to the selection, and `g` ends
 * the loop with the selection sorted.
 */
module Selector {
  import opened Options
  import opened Text
  import opened Order
  import opened Grouping

  /* ---------------------------------------------------------------- numbering */

  /** The entries `enumerate(tags, start=next)` puts into `num_x_image` for one group. */
  function NumberTags(tags: seq<string>, next: int): (m: map<int, string>)
    ensures forall i :: i in m <==> next <= i < next + |tags|
    ensures forall i :: next <= i < next + |tags| ==> m[i] == tags[i - next]
    decreases |tags|
  {
    if tags == [] then map[]
    else NumberTags(tags[1..], next + 1)[next := tags[0]]
  }

  /**
   * The entries the rendering loop adds for the groups `snap`, when the rows
   * numbered so far are `1 .. next - 1` (so `len(num_x_image) + 1 == next`).
   * Numbering group by group is numbering the concatenated tags in one go.
   */
  function NumberGroups(snap: Snapshot, next: int): (m: map<int, string>)
    ensures m == NumberTags(Tags(snap), next)
    decreases |snap|
  {
    if snap == [] then map[]
    else
      var first := NumberTags(snap[0].tags, next);
      var rest := NumberGroups(snap[1..], next + |snap[0].tags|);
      NumberGroupsCons(snap, next);
      first + rest
  }

  lemma NumberGroupsCons(snap: Snapshot, next: int)
    requires snap != []
    ensures NumberTags(Tags(snap), next)
         == NumberTags(snap[0].tags, next) + NumberTags(Tags(snap[1..]), next + |snap[0].tags|)
  {
    NumberTagsAppend(snap[0].tags, Tags(snap[1..]), next);
  }

  /** Numbering `a + b` from `next` numbers `a` from `next` and `b` from just past `a`. */
  lemma NumberTagsAppend(a: seq<string>, b: seq<string>, next: int)
    ensures NumberTags(a + b, next) == NumberTags(a, next) + NumberTags(b, next + |a|)
  {
    var m := NumberTags(a + b, next);
    var u := NumberTags(a, next) + NumberTags(b, next + |a|);
    assert forall i :: i in m <==> i in u;
    forall i | i in m
      ensures m[i] == u[i]
    {
      if i < next + |a| {
        assert (a + b)[i - next] == a[i - next];
      } else {
        assert (a + b)[i - next] == b[i - next - |a|];
      }
    }
  }

  /**
   * `num_x_image` of one rendering pass: the numbers `1 .. N` for the `N`
   * tag rows, each naming the tag shown on that row in display order. It is
   * a function of the snapshot alone, so every pass builds the same map.
   */
  function Numbering(snap: Snapshot): (m: map<int, string>)
    ensures forall i :: i in m <==> 1 <= i <= |Tags(snap)|
    ensures forall i :: 1 <= i <= |Tags(snap)| ==> m[i] == Tags(snap)[i - 1]
  {
    NumberGroups(snap, 1)
  }

  /** The number of tag rows shown before group `k`. */
  function RowsBefore(snap: Snapshot, k: nat): nat
    requires k <= |snap|
  {
    |Tags(snap[..k])|
  }

  lemma {:induction false} TagsSplit(snap: Snapshot, k: nat)
    requires k <= |snap|
    ensures Tags(snap) == Tags(snap[..k]) + Tags(snap[k..])
    decreases k
  {
    if k > 0 {
      assert snap[..k][1..] == snap[1..][..k - 1];
      assert snap[k..] == snap[1..][k - 1..];
      TagsSplit(snap[1..], k - 1);
    } else {
      assert snap[k..] == snap;
    }
  }

  /**
   * Rows are numbered group by group and tag by tag: tag `p` of group `k`
   * carries the number one past the rows of the earlier groups plus `p`.
   */
  lemma RowNumber(snap: Snapshot, k: nat, p: nat)
    requires k < |snap| && p < |snap[k].tags|
    ensures RowsBefore(snap, k) + p + 1 in Numbering(snap)
    ensures Numbering(snap)[RowsBefore(snap, k) + p + 1] == snap[k].tags[p]
  {
    TagAt(snap, k, p);
  }

  /** Tag `p` of group `k` sits in the flattened tags right after the earlier groups' tags. */
  lemma TagAt(snap: Snapshot, k: nat, p: nat)
    requires k < |snap| && p < |snap[k].tags|
    ensures RowsBefore(snap, k) + p < |Tags(snap)|
    ensures Tags(snap)[RowsBefore(snap, k) + p] == snap[k].tags[p]
  {
    TagsSplit(snap, k);
    var rest := snap[k..];
    assert rest[0] == snap[k];
    assert Tags(rest) == snap[k].tags + Tags(rest[1..]);
  }

  /** The rows the loop numbers are one per listing row: the numbers `1` to `|pairs|`. */
  lemma RowsNumbered(pairs: seq<Pair>)
    ensures forall i :: i in Numbering(GroupByDigest(pairs)) <==> 1 <= i <= |pairs|
  {
    RowCount(pairs);
  }

  /* ---------------------------------------------------------------- commands */

  /** What an answer asks for. */
  datatype Command = Toggle(row: nat) | SelectAll | SelectNone | Go | Other

  /**
   * How the loop reads an answer: lower-case it, strip it, and if it starts
   * with digits take their value as a row number (`re.match(r"[0-9]+", ...)`);
   * otherwise compare the whole answer with `a`, `n` and `g`. Surrounding
   * whitespace and case do not matter, and an answer starting with a digit
   * is never a letter command. CPython's 4300-digit limit on `int()` of a
   * digit string is not modelled: a longer run is still read as its value.
   */
  function Parse(raw: string): (c: Command)
    ensures c.Toggle? <==> Strip(raw) != [] && IsDigit(Strip(raw)[0])
    ensures c == SelectAll <==> Strip(raw) == "a" || Strip(raw) == "A"
    ensures c == SelectNone <==> Strip(raw) == "n" || Strip(raw) == "N"
    ensures c == Go <==> Strip(raw) == "g" || Strip(raw) == "G"
    ensures c.Toggle? ==> c.row == DecimalValue(LeadingDigits(Strip(raw)))
  {
    var answer := Strip(Lower(raw));
    StripLower(raw);
    LowerLeadingDigits(Strip(raw));
    LowerSingle(Strip(raw), 'a', 'A');
    LowerSingle(Strip(raw), 'n', 'N');
    LowerSingle(Strip(raw), 'g', 'G');
    var digits := LeadingDigits(answer);
    if digits != [] then Toggle(DecimalValue(digits))
    else if answer == "a" then SelectAll
    else if answer == "n" then SelectNone
    else if answer == "g" then Go
    else Other
  }

  /**
   * Typing a row number back, with any whitespace around it, any number of
   * leading zeros, and followed by anything that does not start with a digit,
   * toggles that row: `"2x"` reads as row 2 and `"07"` as row 7.
   */
  lemma TypedRowNumber(j: nat, zeros: string, pad: string, suffix: string, tail: string)
    requires IsBlank(pad) && IsBlank(tail)
    requires forall i :: 0 <= i < |zeros| ==> zeros[i] == '0'
    requires suffix == [] || (!IsDigit(suffix[0]) && !IsSpace(suffix[|suffix| - 1]))
    ensures Parse(pad + zeros + Decimal(j) + suffix + tail) == Toggle(j)
  {
    TypedStrip(j, zeros, pad, suffix, tail);
    Regroup(pad, zeros, Decimal(j));
    Regroup(pad, zeros + Decimal(j), suffix);
    ParseZeroPadded(j, zeros, suffix, pad + zeros + Decimal(j) + suffix + tail);
  }

  /** `strip` removes exactly the whitespace typed around a zero-padded numeral and its suffix. */
  lemma TypedStrip(j: nat, zeros: string, pad: string, suffix: string, tail: string)
    requires IsBlank(pad) && IsBlank(tail)
    requires forall i :: 0 <= i < |zeros| ==> zeros[i] == '0'
    requires suffix == [] || !IsSpace(suffix[|suffix| - 1])
    ensures Strip(pad + (zeros + Decimal(j) + suffix) + tail) == zeros + Decimal(j) + suffix
  {
    var ds := zeros + Decimal(j);
    ZerosValue(zeros, Decimal(j));
    NumeralWord(ds, suffix);
    StripPadded(pad, ds + suffix, tail);
  }

  /** An answer that strips to a zero-padded numeral and a non-digit suffix names the numeral's row. */
  lemma ParseZeroPadded(j: nat, zeros: string, suffix: string, raw: string)
    requires forall i :: 0 <= i < |zeros| ==> zeros[i] == '0'
    requires suffix == [] || !IsDigit(suffix[0])
    requires Strip(raw) == zeros + Decimal(j) + suffix
    ensures Parse(raw) == Toggle(j)
  {
    ZerosValue(zeros, Decimal(j));
    ParseNumeral(raw, zeros + Decimal(j), suffix);
  }

  /** An answer that strips to digits and a suffix not starting with a digit names the digits' row. */
  lemma ParseNumeral(raw: string, ds: string, suffix: string)
    requires ds != [] && AllDigits(ds)
    requires suffix == [] || !IsDigit(suffix[0])
    requires Strip(raw) == ds + suffix
    ensures Parse(raw) == Toggle(DecimalValue(ds))
  {
    LeadingDigitsOf(ds, suffix);
    assert Strip(raw)[0] == ds[0];
  }

  /** A digit run followed by a suffix that does not end in whitespace is a word `strip` keeps whole. */
  lemma NumeralWord(ds: string, suffix: string)
    requires ds != [] && AllDigits(ds)
    requires suffix == [] || !IsSpace(suffix[|suffix| - 1])
    ensures var x := ds + suffix; x != [] && !IsSpace(x[0]) && !IsSpace(x[|x| - 1])
  {
    var x := ds + suffix;
    assert x[0] == ds[0];
    assert x[|x| - 1] == if suffix == [] then ds[|ds| - 1] else suffix[|suffix| - 1];
  }

  /* ---------------------------------------------------------------- one pass */

  /** The selection after one pass, and whether the loop has ended. */
  datatype Pass = Pass(selected: set<string>, done: bool)

  /** Flips one tag's membership. */
  function Flip(selected: set<string>, tag: string): (r: set<string>)
    ensures forall t :: t in r <==> (t in selected) != (t == tag)
  {
    if tag in selected then selected - {tag} else selected + {tag}
  }

  /**
   * One pass of the loop: a valid row number flips exactly that row's tag, a
   * number outside `1 .. N` changes nothing, `a` selects every tag, `n`
   * clears the selection, `g` ends the loop, and anything else (the empty
   * answer included) changes nothing and keeps the loop going. No pass puts
   * a tag outside the snapshot into the selection.
   */
  function Step(snap: Snapshot, selected: set<string>, cmd: Command): (r: Pass)
    ensures r.done <==> cmd == Go
    ensures cmd.Toggle? && 1 <= cmd.row <= |Tags(snap)| ==>
      forall t :: t in r.selected <==> (t in selected) != (t == Tags(snap)[cmd.row - 1])
    ensures cmd.Toggle? && !(1 <= cmd.row <= |Tags(snap)|) ==> r.selected == selected
    ensures cmd == SelectAll ==> r.selected == AllTags(snap)
    ensures cmd == SelectNone ==> r.selected == {}
    ensures cmd == Go || cmd == Other ==> r.selected == selected
    ensures selected <= AllTags(snap) ==> r.selected <= AllTags(snap)
  {
    var numbers := Numbering(snap);
    match cmd
    case Toggle(j) =>
      if j in numbers then
        assert numbers[j] in Tags(snap);
        Pass(Flip(selected, numbers[j]), false)
      else
        Pass(selected, false)
    case SelectAll => Pass(AllTags(snap), false)
    case SelectNone => Pass({}, false)
    case Go => Pass(selected, true)
    case Other => Pass(selected, false)
  }

  /** Toggling the same row twice gives back the selection it started from. */
  lemma ToggleTwice(snap: Snapshot, selected: set<string>, j: nat)
    ensures Step(snap, Step(snap, selected, Toggle(j)).selected, Toggle(j)).selected == selected
  {
  }

  /* ---------------------------------------------------------------- the loop */

  /** Where the loop stands once the given commands are used up. */
  datatype Session = Waiting(selected: set<string>) | Finished(selected: set<string>)

  /**
   * The `while True` loop fed the parsed answers in order. It finishes
   * exactly when some answer reads as `g`; otherwise it is still waiting for
   * input. The selection stays within the snapshot's tags throughout.
   */
  function Run(snap: Snapshot, selected: set<string>, cmds: seq<Command>): (r: Session)
    ensures selected <= AllTags(snap) ==> r.selected <= AllTags(snap)
    ensures r.Finished? <==> Go in cmds
    decreases |cmds|
  {
    if cmds == [] then Waiting(selected)
    else
      var pass := Step(snap, selected, cmds[0]);
      assert cmds == [cmds[0]] + cmds[1..];
      if pass.done then Finished(pass.selected)
      else Run(snap, pass.selected, cmds[1..])
  }

  /** Commands after the first `g` are never read. */
  lemma {:induction false} RunStopsAtGo(snap: Snapshot, selected: set<string>, cmds: seq<Command>, k: nat)
    requires k < |cmds| && cmds[k] == Go && Go !in cmds[..k]
    ensures Run(snap, selected, cmds) == Run(snap, selected, cmds[..k + 1])
    decreases k
  {
    if k > 0 {
      var pass := Step(snap, selected, cmds[0]);
      assert cmds[0] == cmds[..k][0];
      assert cmds[..k + 1][1..] == cmds[1..][..k];
      assert cmds[1..][..k - 1] == cmds[..k][1..];
      RunStopsAtGo(snap, pass.selected, cmds[1..], k - 1);
    }
  }

  /** Answering the same row number twice leaves the loop where it began. */
  lemma ToggleTwiceInLoop(snap: Snapshot, selected: set<string>, j: nat)
    ensures Run(snap, selected, [Toggle(j), Toggle(j)]) == Waiting(selected)
  {
    var once := Step(snap, selected, Toggle(j)).selected;
    ToggleTwice(snap, selected, j);
    assert [Toggle(j), Toggle(j)][1..] == [Toggle(j)];
    assert [Toggle(j)][1..] == [];
    assert Run(snap, once, [Toggle(j)]) == Run(snap, selected, []);
  }

  /* ---------------------------------------------------------------- the result */

  /** What `select_images` comes to on the given listing and answers. */
  datatype Outcome =
    | ListingError                          // a listing line without exactly two fields
    | AwaitingInput(selected: set<string>)  // no `g` among the answers yet
    | Selected(tags: seq<string>)           // `sorted(selected)` after `g`

  /** Every answer read in turn. */
  function ParseAll(answers: seq<string>): (cmds: seq<Command>)
    ensures |cmds| == |answers|
    ensures forall k :: 0 <= k < |answers| ==> cmds[k] == Parse(answers[k])
    decreases |answers|
  {
    if answers == [] then [] else [Parse(answers[0])] + ParseAll(answers[1..])
  }

  /**
   * The loop run on a snapshot from its initial selection (every tag): once
   * a `g` arrives the selection is returned sorted, each tag once, and only
   * tags of the snapshot.
   */
  function Conclude(snap: Snapshot, cmds: seq<Command>): (r: Outcome)
    ensures !r.ListingError?
    ensures r.AwaitingInput? <==> Go !in cmds
    ensures r.Selected? ==> StrictlyAscending(r.tags)
    ensures r.Selected? ==> forall t :: t in r.tags ==> t in AllTags(snap)
  {
    match Run(snap, AllTags(snap), cmds)
    case Waiting(s) => AwaitingInput(s)
    case Finished(s) => Selected(SortSet(s))
  }

  /** The tag `t` appears on some row of the listing. */
  predicate Listed(pairs: seq<Pair>, t: string) {
    exists k :: 0 <= k < |pairs| && pairs[k].tag == t
  }

  /**
   * `select_images` with the listing command's output and the operator's
   * answers as inputs. A malformed listing line is an error; otherwise the
   * loop waits until some answer reads as `g`, and then returns every
   * selected tag once, in ascending order, and only tags the listing
   * mentions.
   */
  function SelectImages(stdout: string, answers: seq<string>): (r: Outcome)
    ensures r.ListingError? <==> ParseListing(stdout).None?
    ensures r.AwaitingInput? <==> ParseListing(stdout).Some? && Go !in ParseAll(answers)
    ensures r.Selected? ==> StrictlyAscending(r.tags)
    ensures r.Selected? ==> forall t :: t in r.tags ==> Listed(ParseListing(stdout).value, t)
  {
    match ParseListing(stdout)
    case None => ListingError
    case Some(pairs) =>
      InitialSelection(pairs);
      Conclude(GroupByDigest(pairs), ParseAll(answers))
  }

  /* ---------------------------------------------------------------- sessions */

  /** Feeding commands in two batches: a batch without `g` leaves the loop waiting on its selection. */
  lemma {:induction false} RunAppend(snap: Snapshot, selected: set<string>, cmds: seq<Command>, more: seq<Command>)
    requires Go !in cmds
    ensures Run(snap, selected, cmds + more) == Run(snap, Run(snap, selected, cmds).selected, more)
    decreases |cmds|
  {
    if cmds == [] {
      assert cmds + more == more;
    } else {
      var pass := Step(snap, selected, cmds[0]);
      assert cmds[0] in cmds;
      assert (cmds + more)[0] == cmds[0];
      assert (cmds + more)[1..] == cmds[1..] + more;
      RunAppend(snap, pass.selected, cmds[1..], more);
    }
  }

  /** A last pair of commands, the second `g`, decides the result from whatever came before. */
  lemma ConcludeLast(snap: Snapshot, cmds: seq<Command>, last: Command)
    requires Go !in cmds && last != Go
    ensures Conclude(snap, cmds + [last, Go])
         == Selected(SortSet(Step(snap, Run(snap, AllTags(snap), cmds).selected, last).selected))
  {
    RunAppend(snap, AllTags(snap), cmds, [last, Go]);
    assert [last, Go][1..] == [Go];
    assert [Go][1..] == [];
  }

  /** A lone answer `g` (either case, any surrounding whitespace) reads as `g` and nothing else. */
  lemma ParseAllGo(go: string)
    requires Strip(go) == "g" || Strip(go) == "G"
    ensures ParseAll([go]) == [Go]
  {
    ParseGo(go);
    ParseOne(go);
  }

  lemma ParseOne(answer: string)
    ensures ParseAll([answer]) == [Parse(answer)]
  {
    assert [answer][1..] == [];
  }

  lemma ParseTwo(first: string, second: string)
    ensures ParseAll([first, second]) == [Parse(first), Parse(second)]
  {
    assert [first, second][1..] == [second];
    ParseOne(second);
  }

  lemma {:induction false} ParseAllAppend(answers: seq<string>, more: seq<string>)
    ensures ParseAll(answers + more) == ParseAll(answers) + ParseAll(more)
    decreases |answers|
  {
    if answers == [] {
      assert answers + more == more;
    } else {
      assert (answers + more)[1..] == answers[1..] + more;
      ParseAllAppend(answers[1..], more);
    }
  }

  lemma ParseGo(go: string)
    requires Strip(go) == "g" || Strip(go) == "G"
    ensures Parse(go) == Go
  {
  }

  lemma ParseSelectAll(all: string)
    requires Strip(all) == "a" || Strip(all) == "A"
    ensures Parse(all) == SelectAll
  {
  }

  lemma ParseSelectNone(none: string)
    requires Strip(none) == "n" || Strip(none) == "N"
    ensures Parse(none) == SelectNone
  {
  }

  lemma ConcludeGo(snap: Snapshot)
    ensures Conclude(snap, [Go]) == Selected(SortSet(AllTags(snap)))
  {
    assert [Go][1..] == [];
  }

  /** Answering `g` straight away returns every tag of the listing, once each, in ascending order. */
  lemma GoAtOnce(stdout: string, pairs: seq<Pair>, go: string)
    requires ParseListing(stdout) == Some(pairs)
    requires Strip(go) == "g" || Strip(go) == "G"
    ensures SelectImages(stdout, [go]).Selected?
    ensures forall t :: t in SelectImages(stdout, [go]).tags <==> Listed(pairs, t)
  {
    ParseAllGo(go);
    var snap := GroupByDigest(pairs);
    ConcludeGo(snap);
    assert SelectImages(stdout, [go]) == Conclude(snap, [Go]);
    InitialSelection(pairs);
  }

  /** An empty listing is not an error: the loop shows no rows, and `g` returns nothing. */
  lemma EmptyListing(go: string)
    requires Strip(go) == "g" || Strip(go) == "G"
    ensures SelectImages("", [go]) == Selected([])
  {
    assert SplitOn("", '\n') == [[]];
    assert NonBlankLines([[]]) == [];
    assert ParseListing("") == Some([]);
    ParseAllGo(go);
    ConcludeGo([]);
    assert GroupByDigest([]) == [];
    assert AllTags([]) == {};
    assert SelectImages("", [go]) == Conclude([], [Go]);
  }

  /** Whatever came before, `n` then `g` returns nothing. */
  lemma ClearThenGo(stdout: string, pairs: seq<Pair>, answers: seq<string>, none: string, go: string)
    requires ParseListing(stdout) == Some(pairs) && Go !in ParseAll(answers)
    requires Strip(none) == "n" || Strip(none) == "N"
    requires Strip(go) == "g" || Strip(go) == "G"
    ensures SelectImages(stdout, answers + [none, go]) == Selected([])
  {
    ParseSelectNone(none);
    ParseGo(go);
    ParseTwo(none, go);
    ParseAllAppend(answers, [none, go]);
    var snap := GroupByDigest(pairs);
    ConcludeLast(snap, ParseAll(answers), SelectNone);
    assert SelectImages(stdout, answers + [none, go]) == Conclude(snap, ParseAll(answers) + [SelectNone, Go]);
  }

  /** Whatever came before, `a` then `g` returns every tag of the listing. */
  lemma AllThenGo(stdout: string, pairs: seq<Pair>, answers: seq<string>, all: string, go: string)
    requires ParseListing(stdout) == Some(pairs) && Go !in ParseAll(answers)
    requires Strip(all) == "a" || Strip(all) == "A"
    requires Strip(go) == "g" || Strip(go) == "G"
    ensures SelectImages(stdout, answers + [all, go]).Selected?
    ensures forall t :: t in SelectImages(stdout, answers + [all, go]).tags <==> Listed(pairs, t)
  {
    ParseSelectAll(all);
    ParseGo(go);
    ParseTwo(all, go);
    ParseAllAppend(answers, [all, go]);
    var snap := GroupByDigest(pairs);
    ConcludeLast(snap, ParseAll(answers), SelectAll);
    assert SelectImages(stdout, answers + [all, go]) == Conclude(snap, ParseAll(answers) + [SelectAll, Go]);
    InitialSelection(pairs);
  }

  /** Toggling a valid row from the initial selection and then answering `g` drops exactly that row's tag. */
  lemma ConcludeToggle(snap: Snapshot, j: nat)
    requires 1 <= j <= |Tags(snap)|
    ensures Conclude(snap, [Toggle(j), Go]).Selected?
    ensures forall t :: t in Conclude(snap, [Toggle(j), Go]).tags <==> t in AllTags(snap) && t != Tags(snap)[j - 1]
  {
    ConcludeFirst(snap, Toggle(j));
    ToggleFromAll(snap, j);
  }

  /** A first command followed by `g` returns the selection that command leaves, sorted. */
  lemma ConcludeFirst(snap: Snapshot, first: Command)
    requires first != Go
    ensures Conclude(snap, [first, Go]) == Selected(SortSet(Step(snap, AllTags(snap), first).selected))
  {
    ConcludeLast(snap, [], first);
    assert [] + [first, Go] == [first, Go];
  }

  /** From the initial selection, toggling a valid row drops that row's tag and keeps all others. */
  lemma ToggleFromAll(snap: Snapshot, j: nat)
    requires 1 <= j <= |Tags(snap)|
    ensures forall t :: t in Step(snap, AllTags(snap), Toggle(j)).selected <==> t in AllTags(snap) && t != Tags(snap)[j - 1]
  {
    assert Tags(snap)[j - 1] in AllTags(snap);
  }

  /**
   * Answering one valid row number and then `g` returns every listed tag
   * except the one on that row; a tag listed under several digests goes
   * with it, since the selection holds tags rather than rows.
   */
  lemma DeselectRow(stdout: string, pairs: seq<Pair>, row: string, j: nat, go: string)
    requires ParseListing(stdout) == Some(pairs)
    requires Parse(row) == Toggle(j) && 1 <= j <= |Tags(GroupByDigest(pairs))|
    requires Strip(go) == "g" || Strip(go) == "G"
    ensures SelectImages(stdout, [row, go]).Selected?
    ensures forall t :: t in SelectImages(stdout, [row, go]).tags <==>
      Listed(pairs, t) && t != Tags(GroupByDigest(pairs))[j - 1]
  {
    ParseGo(go);
    ParseTwo(row, go);
    var snap := GroupByDigest(pairs);
    ConcludeToggle(snap, j);
    assert SelectImages(stdout, [row, go]) == Conclude(snap, [Toggle(j), Go]);
    InitialSelection(pairs);
  }

  /**
   * A session on three rows: two tags under `d1`, one under `d2`;
   * unselecting row 2 (`v2`) and answering `g` returns `v1` and `v3`.
   */
  lemma ExampleSession()
    ensures SelectImages("d1 v1\nd1 v2\nd2 v3\n", ["2", "g"]) == Selected(["v1", "v3"])
  {
    var pairs := [Pair("d1", "v1"), Pair("d1", "v2"), Pair("d2", "v3")];
    var snap := [Group("d1", ["v1", "v2"]), Group("d2", ["v3"])];
    ExampleListing(pairs);
    ExampleGrouping(pairs, snap);
    ExampleAnswers();
    ExampleOutcome(snap);
  }

  lemma ExampleOutcome(snap: Snapshot)
    requires snap == [Group("d1", ["v1", "v2"]), Group("d2", ["v3"])]
    ensures Conclude(snap, [Toggle(2), Go]) == Selected(["v1", "v3"])
  {
    ExampleTags(snap);
    ConcludeToggle(snap, 2);
    var r := Conclude(snap, [Toggle(2), Go]);
    forall t
      ensures t in r.tags <==> t in ["v1", "v3"]
    {
    }
    assert Less("v1", "v3");
    StrictlyAscendingUnique(r.tags, ["v1", "v3"]);
  }

  lemma ExampleTags(snap: Snapshot)
    requires snap == [Group("d1", ["v1", "v2"]), Group("d2", ["v3"])]
    ensures Tags(snap) == ["v1", "v2", "v3"]
    ensures forall t :: t in AllTags(snap) <==> t == "v1" || t == "v2" || t == "v3"
  {
    assert snap[1..][1..] == [];
    assert Tags(snap[1..]) == ["v3"] + Tags(snap[1..][1..]) == ["v3"];
    assert Tags(snap) == ["v1", "v2"] + ["v3"];
  }

  lemma ExampleListing(pairs: seq<Pair>)
    requires pairs == [Pair("d1", "v1"), Pair("d1", "v2"), Pair("d2", "v3")]
    ensures ParseListing("d1 v1\nd1 v2\nd2 v3\n") == Some(pairs)
  {
    assert ListingText(pairs[3..]) == [];
    assert ListingText(pairs[2..]) == "d2 v3\n";
    assert ListingText(pairs[1..]) == "d1 v2\nd2 v3\n";
    assert ListingText(pairs) == "d1 v1\nd1 v2\nd2 v3\n";
    ListingRoundTrip(pairs);
  }

  lemma ExampleGrouping(pairs: seq<Pair>, snap: Snapshot)
    requires pairs == [Pair("d1", "v1"), Pair("d1", "v2"), Pair("d2", "v3")]
    requires snap == [Group("d1", ["v1", "v2"]), Group("d2", ["v3"])]
    ensures GroupByDigest(pairs) == snap
  {
    ExampleWellFormed(snap);
    forall q
      ensures Count(snap, q) == multiset(pairs)[q]
    {
      ExampleCount(pairs, snap, q);
    }
    SnapshotUnique(GroupByDigest(pairs), snap);
  }

  lemma ExampleWellFormed(snap: Snapshot)
    requires snap == [Group("d1", ["v1", "v2"]), Group("d2", ["v3"])]
    ensures WellFormed(snap)
  {
    assert Less("d1", "d2") && Less("v1", "v2");
  }

  lemma ExampleCount(pairs: seq<Pair>, snap: Snapshot, q: Pair)
    requires pairs == [Pair("d1", "v1"), Pair("d1", "v2"), Pair("d2", "v3")]
    requires snap == [Group("d1", ["v1", "v2"]), Group("d2", ["v3"])]
    ensures Count(snap, q) == multiset(pairs)[q]
  {
    assert snap[1..] == [Group("d2", ["v3"])];
    assert snap[1..][1..] == [];
    assert multiset(pairs) == multiset{Pair("d1", "v1"), Pair("d1", "v2"), Pair("d2", "v3")};
    assert multiset(["v1", "v2"]) == multiset{"v1", "v2"};
    assert multiset(["v3"]) == multiset{"v3"};
    assert Count(snap[1..][1..], q) == 0;
    assert Count(snap[1..], q) == if q.digest == "d2" then multiset{"v3"}[q.tag] else 0;
    assert Count(snap, q) == (if q.digest == "d1" then multiset{"v1", "v2"}[q.tag] else 0) + Count(snap[1..], q);
  }

  lemma ExampleAnswers()
    ensures ParseAll(["2", "g"]) == [Toggle(2), Go]
  {
    ExampleRow();
    ExampleGo();
    ParseTwo("2", "g");
  }

  lemma ExampleRow()
    ensures Parse("2") == Toggle(2)
  {
    assert Decimal(2) == "2";
    TypedRowNumber(2, "", "", "", "");
    assert [] + [] + "2" + [] + [] == "2";
  }

  lemma ExampleGo()
    ensures Parse("g") == Go
  {
    StripPadded("", "g", "");
    assert [] + "g" + [] == "g";
    ParseGo("g");
  }
}
