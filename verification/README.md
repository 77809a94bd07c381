# install-tools release helpers, modelled in Dafny

This project models the decision logic of the release helpers of
install-tools:

- the interactive image-tag selector `select_images` of the Docker release
  script: the `docker images` listing is parsed into (digest, tag) rows,
  grouped by digest, numbered row by row, and edited by a command loop
  (a row number toggles that row's tag, `a` selects all, `n` selects none,
  `g` ends the loop) whose result is the sorted selection;
- the yes/no `confirm` prompt of both release scripts;
- the PyPI script's job plan, its "files still to publish" filter and the
  points where `publish` and `clean` stop;
- the project template's pre-generation hook, which refuses installer names
  outside a fixed character class.

Everything is pure functions over immutable values. The listing text, the
operator's answers, the `dist/` file names and the link paths of the package
index page are inputs; processes, the console, the network and the file
system are not modelled.

Modules, one concern each:

| file | module | what it holds |
|---|---|---|
| `option.dfy` | `Options` | the optional result used for parse failures and absent abort codes |
| `text.dfy` | `Text` | Python's `str.isspace`, `strip`, ASCII `lower`, `split(sep)`, `split()`, the leading digit run and decimal numerals |
| `order.dfy` | `Order` | Python's `<` on `str` and `sorted` for lists and sets of strings |
| `grouping.dfy` | `Grouping` | parsing the listing and grouping its rows by digest |
| `selector.dfy` | `Selector` | row numbering, answer parsing, one loop pass, the loop, the result |
| `confirm.dfy` | `Confirm` | the `y(es)?` test and both `confirm` functions |
| `pypi.dfy` | `Pypi` | job plans, last path segment, files to publish, `publish`/`clean` outcomes |
| `installer.dfy` | `InstallerName` | the installer-name pattern and the hook's exit |

Design choices worth knowing:

- The grouping is built by inserting each row into an already well-formed
  grouping, not by sorting and `itertools.groupby`. `Grouping.SnapshotUnique`
  shows that two well-formed groupings holding the same rows are equal, so
  this is the value the script computes.
- Duplicate tags inside a group are kept: `sorted(...)` of the tags, with no
  set in between.
- A tag listed under two digests is shown on two rows with two numbers, but
  the selection is a set of tags, so toggling either row flips both.
- A listing line that does not split into exactly two fields makes the script
  raise `ValueError`; the model returns `ListingError` for it instead of
  excluding it by a precondition. An empty listing is not an error: the loop
  shows no rows and `g` returns nothing (`Selector.EmptyListing`).
- The loop reads a finite list of answers. When they run out before a `g`,
  the outcome is `AwaitingInput` with the current selection: the script would
  still be blocked on `input()`. The code does not handle end of input, so no
  separate end-of-input error is modelled.
- An empty answer is a no-op, not `g`, even though the prompt shows `[g]`.

## Model

| member | source | states |
|---|---|---|
| `Text.IsSpace` | scripts/docker.py:99-115 | defines the characters for which `str.isspace()` holds, the class `strip()` and `split()` remove and split on: `U+0009`-`U+000D`, `U+001C`-`U+001F`, `U+0020`, `U+0085`, `U+00A0`, `U+1680`, `U+2000`-`U+200A`, `U+2028`, `U+2029`, `U+202F`, `U+205F`, `U+3000` |
| `Text.Strip` | scripts/docker.py:115 | the stripped answer is empty exactly when the answer is all whitespace, and otherwise starts and ends with a non-whitespace character |
| `Text.StripPadded` | scripts/docker.py:115 | whitespace around a word that starts and ends with non-whitespace is exactly what `strip` removes |
| `Text.Lower` | scripts/docker.py:115 | ASCII lower-casing (`A`-`Z` only) keeps the answer's length and lowers each character on its own; a lowered character is whitespace or a digit exactly when the original is, and is `a`, `n` or `g` exactly when the original is that letter in either case |
| `Text.StripLower` | scripts/docker.py:115 | lower-casing then stripping equals stripping then lower-casing |
| `Text.LowerSingle` | scripts/docker.py:115 | a lower-cased answer is the one letter `c` exactly when the answer is `c` or its capital |
| `Text.SplitOn` | scripts/docker.py:99 | `split("\n")` gives at least one piece, no piece holds a newline, and joining the pieces with newlines gives the text back |
| `Text.SplitJoin` | scripts/docker.py:99 | splitting newline-free pieces joined with newlines gives the pieces back |
| `Text.Fields` | scripts/docker.py:99 | `split()` gives non-empty fields without whitespace, and none at all exactly for a blank line |
| `Text.FieldsCons` | scripts/docker.py:99 | `split()` skips leading whitespace, takes the next maximal run of non-whitespace as a field and goes on after it; with no fields on blank text this fixes the fields of every line |
| `Text.FieldsOfWords` | scripts/docker.py:99 | `split()` of words joined by single spaces gives the words back |
| `Text.LeadingDigits` | scripts/docker.py:116 | the leading digit run is a prefix of the answer made of digits that no further digit follows; `[0-9]+` matches exactly when it is non-empty |
| `Text.LowerLeadingDigits` | scripts/docker.py:115-116 | lower-casing leaves the leading digit run of an answer unchanged |
| `Text.LeadingDigitsOf` | scripts/docker.py:116-117 | digits followed by a non-digit are exactly the leading digit run |
| `Text.DecimalValue` | scripts/docker.py:117 | defines `int(ds)` for a string of ASCII digits, leading zeros allowed: each digit adds its value to ten times the value of the digits before it |
| `Text.ZerosValue` | scripts/docker.py:117 | leading zeros do not change the value `int` reads from a digit string |
| `Text.Decimal` | scripts/docker.py:117 | every row number has a decimal numeral without leading zero whose `int` value is that number |
| `Order.Less` | scripts/docker.py:97-99 | defines Python's `<` on `str`, the order every `sorted` call uses: code point by code point, a proper prefix first |
| `Order.LessTrichotomy` | scripts/docker.py:99 | any two strings are ordered one way, the other way, or are equal |
| `Order.LessTransitive` | scripts/docker.py:99 | the string order is transitive |
| `Order.Insert` | scripts/docker.py:97 | inserting into an ascending list keeps it ascending and adds exactly that element |
| `Order.AscendingUnique` | scripts/docker.py:97 | two ascending lists with the same elements and counts are equal, so the sorted tag list is determined |
| `Order.StrictlyAscendingUnique` | scripts/docker.py:133 | two increasing lists with the same elements are equal, so `sorted` of a set is determined |
| `Order.SortSet` | scripts/docker.py:133 | `sorted(selected)` is increasing, holds exactly the set's elements, and has the set's size |
| `Grouping.NonBlankLines` | scripts/docker.py:99 | the lines kept by `if line.strip()` are exactly the non-blank ones |
| `Grouping.NonBlankCount` | scripts/docker.py:99 | each non-blank line is kept exactly as often as it occurs, repeats included, and a blank line never |
| `Grouping.NonBlankAppend` | scripts/docker.py:99 | the filter keeps line order: filtering a concatenation concatenates the filtered parts |
| `Grouping.SpacedRow` | scripts/docker.py:99 | a line with any whitespace around and between its two words, tabs and runs of spaces included, splits into exactly those two words |
| `Grouping.ParseRows` | scripts/docker.py:97-99 | the rows parse exactly when every kept line has two fields, and then row `k` is the two fields of line `k` |
| `Grouping.ParseListing` | scripts/docker.py:97-99 | every parsed digest and tag is non-empty and holds no whitespace |
| `Grouping.ListingRoundTrip` | scripts/docker.py:90-99 | the listing printed for well-formed rows parses back to the same rows |
| `Grouping.AddPair` | scripts/docker.py:96-102 | adding a row keeps the grouping well-formed, adds that row once, and adds its digest |
| `Grouping.GroupByDigest` | scripts/docker.py:96-102 | the grouping is well-formed (digests increasing, groups non-empty, tags ascending) and holds each row as often as the listing does |
| `Grouping.SnapshotUnique` | scripts/docker.py:96-102 | two well-formed groupings holding the same rows are equal |
| `Grouping.GroupPerDigest` | scripts/docker.py:96-102 | a digest has a group exactly when some listing row carries it |
| `Grouping.GroupingKeepsRows` | scripts/docker.py:97 | a group holds each tag as often as the listing pairs it with the group's digest, duplicates included |
| `Grouping.RowCount` | scripts/docker.py:96-110 | the grouping shows exactly as many tag rows as the listing has rows: none lost, none invented |
| `Grouping.Tags` | scripts/docker.py:103 | defines `sum(digest_x_tags.values(), [])`: every group's tags, group by group in digest order, each group's tags in their sorted order |
| `Grouping.AllTags` | scripts/docker.py:103 | defines `set(sum(...))`, the selection the loop starts from and the one `a` restores: the set of tags the groups list |
| `Grouping.TagsOfGroups` | scripts/docker.py:103 | a tag is among all tags exactly when some group lists it |
| `Grouping.InitialSelection` | scripts/docker.py:103 | the initial selection is exactly the set of tags the listing mentions |
| `Selector.NumberTags` | scripts/docker.py:109-110 | `enumerate(tags, start=next)` numbers exactly `next .. next + len(tags) - 1`, and number `next + i` maps to the `i`-th tag |
| `Selector.NumberGroups` | scripts/docker.py:107-110 | numbering group by group equals numbering all tags in display order in one go |
| `Selector.NumberTagsAppend` | scripts/docker.py:109-110 | numbering two runs of tags equals numbering the second from just past the first |
| `Selector.Numbering` | scripts/docker.py:105-110 | the row numbers are exactly `1 .. N` for `N` tag rows and row `i` shows the `i`-th tag in display order |
| `Selector.RowsNumbered` | scripts/docker.py:105-118 | the row numbers the loop accepts are exactly `1` to the number of listing rows |
| `Selector.RowNumber` | scripts/docker.py:107-110 | tag `p` of group `k` is on row one past the earlier groups' rows plus `p` |
| `Selector.Parse` | scripts/docker.py:113-131 | an answer is a row number exactly when its stripped form starts with a digit, and for a leading digit run of at most 4300 digits, leading zeros included, the row is its `int` value; it is `a`, `n` or `g` exactly when it strips to that letter in either case |
| `Selector.TypedRowNumber` | scripts/docker.py:113-117 | a numeral with whitespace around it, leading zeros and any suffix not starting with a digit reads as that row while the digit run, zeros included, has at most 4300 digits: `2x` is row 2, `07` is row 7 |
| `Selector.Flip` | scripts/docker.py:119-123 | removing a selected tag or adding an unselected one flips that tag's membership and leaves every other tag as it was |
| `Selector.Step` | scripts/docker.py:116-131 | a valid row flips exactly its tag, any other number changes nothing, `a` selects all, `n` none, `g` ends, anything else changes nothing; the selection stays within the tags |
| `Selector.ToggleTwice` | scripts/docker.py:118-123 | toggling the same row twice restores the selection |
| `Selector.Run` | scripts/docker.py:104-131 | the loop finishes exactly when some command is `g`, and the selection stays within the tags |
| `Selector.RunStopsAtGo` | scripts/docker.py:130-131 | answers after the first `g` are never read |
| `Selector.ToggleTwiceInLoop` | scripts/docker.py:118-123 | two equal row numbers in a row leave the loop waiting on the selection it started with |
| `Selector.RunAppend` | scripts/docker.py:104-131 | commands without `g` followed by more commands run as the second batch from the first batch's selection |
| `Selector.Conclude` | scripts/docker.py:103-133 | from the initial selection the loop waits exactly while no `g` has come, and then returns an increasing list of tags of the grouping |
| `Selector.SelectImages` | scripts/docker.py:89-133 | a malformed listing is an error; otherwise the result waits exactly while no answer reads as `g`, and then is increasing and holds only listed tags |
| `Selector.GoAtOnce` | scripts/docker.py:103-133 | answering `g` first returns exactly the listed tags |
| `Selector.EmptyListing` | scripts/docker.py:96-133 | with an empty listing, `g` returns the empty list |
| `Selector.ClearThenGo` | scripts/docker.py:128-133 | whatever came before, `n` then `g` returns the empty list |
| `Selector.AllThenGo` | scripts/docker.py:126-133 | whatever came before, `a` then `g` returns exactly the listed tags |
| `Selector.ConcludeToggle` | scripts/docker.py:118-133 | toggling a valid row from the initial selection then `g` returns every tag but that row's |
| `Selector.DeselectRow` | scripts/docker.py:113-133 | answering a valid row number then `g` returns every listed tag except that row's tag |
| `Selector.ExampleSession` | scripts/docker.py:89-133 | for rows `d1 v1`, `d1 v2`, `d2 v3`, answering `2` then `g` returns `v1`, `v3` |
| `Confirm.MatchYes` | scripts/docker.py:14 | `y(es)?` matches exactly when the answer starts with `y`, taking three characters exactly when it starts with `yes` |
| `Confirm.AcceptsFirstY` | scripts/docker.py:14 | an answer is a yes exactly when its first character is lower-case `y` |
| `Confirm.DockerConfirm` | scripts/docker.py:13-19 | a yes proceeds; otherwise no abort code means the caller is told no, and an abort code means exiting with it |
| `Confirm.PypiConfirm` | scripts/pypi.py:28-31 | the prompt never says no: a yes proceeds, anything else exits with the abort code |
| `Confirm.PypiIsDockerWithCode` | scripts/pypi.py:28-31 | the PyPI prompt behaves as the Docker prompt given an abort code |
| `Confirm.RefusalExitsOne` | scripts/pypi.py:28 | with the default abort code a refusal exits with status 1 |
| `Pypi.JobNamed` | scripts/pypi.py:38-41 | only `build`, `publish` and `clean` name a job |
| `Pypi.Plan` | scripts/pypi.py:47-53 | a plan ends with its job's own step, builds right before publishing, and runs cleaning alone |
| `Pypi.LastSegment` | scripts/pypi.py:67 | the name taken from a link path is a suffix of it without `/`, preceded by `/` unless it is the whole path |
| `Pypi.LastSegmentAfterSlash` | scripts/pypi.py:67 | the name after a final `/` is the name, whatever comes before |
| `Pypi.RemoteNames` | scripts/pypi.py:66-72 | remote names never hold a `/`, there are at most as many as links, and a link that is already a plain name counts as written |
| `Pypi.RemoteNameOf` | scripts/pypi.py:66-67 | a link ending in `/` and a plain name makes that name a remote name |
| `Pypi.FilesToPublish` | scripts/pypi.py:60-73 | the files to publish are exactly the local names other than `.gitignore` that are not the last `/`-segment of any link path |
| `Pypi.PublishSettles` | scripts/pypi.py:60-73 | once every file to publish has a link on the index, nothing is left to publish |
| `Pypi.PublishOutcome` | scripts/pypi.py:76-97 | with nothing new `publish` stops with status 0 before asking; otherwise a yes uploads exactly the new files and anything else exits with status 1 |
| `Pypi.CleanOutcome` | scripts/pypi.py:100-102 | `clean` deletes `dist/` on a yes and otherwise exits with status 1 |
| `InstallerName.Valid` | template/hooks/pre_gen_project.py:6 | the character-by-character test agrees with the pattern as Python's `re.match` reads it |
| `InstallerName.PreGenHook` | template/hooks/pre_gen_project.py:6-15 | an accepted name lets generation go on, any other stops it with status 1 |
| `InstallerName.AcceptsClassNames` | template/hooks/pre_gen_project.py:6 | a name of class characters only is accepted exactly when it is non-empty |
| `InstallerName.RejectsEmpty` | template/hooks/pre_gen_project.py:6 | the empty name is refused |
| `InstallerName.RejectsOutsideClass` | template/hooks/pre_gen_project.py:6 | a character outside the class, other than one final newline, gets the name refused |
| `InstallerName.RejectsBlanks` | template/hooks/pre_gen_project.py:6-11 | a space or tab anywhere gets the name refused |
| `InstallerName.AcceptsTrailingNewline` | template/hooks/pre_gen_project.py:6 | an accepted name followed by one newline is accepted, because `$` matches before it |
| `InstallerName.RejectsTwoNewlines` | template/hooks/pre_gen_project.py:6 | a name followed by two newlines is refused |

## Left out

- The `docker images`, `docker build`, `docker push`, `docker image rm`, `uv build`, `uv publish` and `openssl` processes and their exit-status checks: external processes; the listing text is an input.
- The build step's latest-tag update: the command it runs lacks the `tag` subcommand, and it is a process call, so neither it nor the `confirm(..., None)` that guards it is modelled beyond `Confirm.DockerConfirm`.
- Fetching and parsing the package index page, `urlparse`, and listing `dist/`: network, HTML and file-system calls; the link paths and local file names are inputs.
- The order of the list `files_to_publish` returns: the source converts a set, so the order is unspecified; the model returns the set.
- Printing: the row rendering, the `x` markers, the rule width from `COLUMNS`, the prompt texts and the hook's wrapped error message.
- End of input: the code does not catch `EOFError`; the model's answer list simply runs out (`AwaitingInput`).
- `argparse` plumbing, the default version from the clock, `shutil.rmtree`, and running the plan's functions in turn.
- The Docker script's `test` job: it only raises `NotImplementedError`.
- `resolve.py`, `src/getmodels.py` and `template/hooks/post_gen_project.py` are not part of this model: file and console glue and a library smoke test.
- Selector.Parse: does not model CPython's limit on `int()` of a digit string: a leading digit run of more than 4300 digits, leading zeros included, makes `int(m.group(0))` raise `ValueError` and ends the script with a traceback, while the model still reads it as the row of its value. The loop's outcomes have no crash case for it.
- Selector.TypedRowNumber: holds as stated only while the zeros and the numeral together have at most 4300 digits; past that the script raises `ValueError` instead of toggling the row, as for `Selector.Parse`.
- Text.Lower: lowers only `A`-`Z`, one character at a time. Python's `str.lower()` follows the full Unicode tables: `U+0130` becomes two code points, and a capital sigma becomes the final form `ς` depending on the characters around it, so the length and the per-character correspondence are not Python's in general. No character other than `A`, `N` and `G` lowers to an ASCII digit, whitespace, `a`, `n` or `g`, so how an answer is classified does not depend on this.
- Exit statuses are kept as the integers passed to `sys.exit`; reduction modulo 256 by the operating system is not modelled.
- The installer name reaches the hook pasted into a string literal; the model takes the literal's value and does not model quoting problems of that substitution.
