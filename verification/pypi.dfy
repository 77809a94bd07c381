/**
 * The decisions of the PyPI release script: which jobs a command line runs,
 * which built files still need uploading, and when publishing and cleaning
 * stop before doing anything. The `dist/` listing, the package index page
 * and the operator's answers are inputs.
 */
module Pypi {
  import opened Options
  import opened Text
  import opened Confirm

  /* ---------------------------------------------------------------- jobs */

  /** The values the `job` argument accepts. */
  datatype Job = BuildJob | PublishJob | CleanJob

  /** The functions a plan runs in order. */
  datatype Task = Build | Publish | Clean

  /** The job named on the command line; any other word is refused. */
  function JobNamed(word: string): (j: Option<Job>)
    ensures j == Some(BuildJob) <==> word == "build"
    ensures j == Some(PublishJob) <==> word == "publish"
    ensures j == Some(CleanJob) <==> word == "clean"
    ensures j.None? <==> word != "build" && word != "publish" && word != "clean"
  {
    if word == "build" then Some(BuildJob)
    else if word == "publish" then Some(PublishJob)
    else if word == "clean" then Some(CleanJob)
    else None
  }

  /**
   * The plan `parse_args` returns: every plan is non-empty, ends with the
   * job's own task, runs a build before any publish, and cleaning runs alone.
   */
  function Plan(job: Job): (plan: seq<Task>)
    ensures plan != [] && plan[|plan| - 1] == TaskOf(job)
    ensures forall k :: 0 <= k < |plan| && plan[k] == Publish ==> 0 < k && plan[k - 1] == Build
    ensures Clean in plan <==> job == CleanJob
    ensures Clean in plan ==> |plan| == 1
    ensures Build in plan <==> job != CleanJob
  {
    match job
    case BuildJob => [Build]
    case PublishJob => [Build, Publish]
    case CleanJob => [Clean]
  }

  /** The plan step a job is named after. */
  function TaskOf(job: Job): Task {
    match job
    case BuildJob => Build
    case PublishJob => Publish
    case CleanJob => Clean
  }

  /** Every task appears at most once in a plan. */
  lemma PlanNoRepeats(job: Job)
    ensures forall i, k :: 0 <= i < k < |Plan(job)| ==> Plan(job)[i] != Plan(job)[k]
  {
  }

  /* ---------------------------------------------------------------- file names */

  /**
   * `path.split("/")[-1]`: the text after the last `/` of a URL path, or the
   * whole path when it holds none. It is a suffix of the path, holds no `/`,
   * and is preceded by a `/` unless it is the whole path.
   */
  function LastSegment(path: string): (name: string)
    ensures |name| <= |path| && path[|path| - |name|..] == name
    ensures '/' !in name
    ensures |name| < |path| ==> path[|path| - |name| - 1] == '/'
  {
    var parts := SplitOn(path, '/');
    JoinEnds(parts, '/');
    parts[|parts| - 1]
  }

  /** The last piece of a join ends it, right after a separator when there are several pieces. */
  lemma {:induction false} JoinEnds(parts: seq<string>, sep: char)
    requires |parts| >= 1
    ensures var s := JoinWith(parts, sep); var last := parts[|parts| - 1];
      |last| <= |s| && s[|s| - |last|..] == last && (|parts| > 1 ==> |last| < |s| && s[|s| - |last| - 1] == sep)
    decreases |parts|
  {
    if |parts| > 1 {
      JoinEnds(parts[1..], sep);
      var rest := JoinWith(parts[1..], sep);
      var s := parts[0] + [sep] + rest;
      assert JoinWith(parts, sep) == s;
      assert parts[1..][|parts[1..]| - 1] == parts[|parts| - 1];
      assert s[|s| - |rest|..] == rest;
    }
  }

  /** A name after a `/` is the last segment of the path, whatever comes before. */
  lemma LastSegmentAfterSlash(prefix: string, name: string)
    requires '/' !in name
    ensures LastSegment(prefix + "/" + name) == name
  {
    var path := prefix + "/" + name;
    var r := LastSegment(path);
    assert path[|prefix|] == '/';
    assert path[|path| - |name|..] == name;
  }

  /** A path without `/` is its own last segment. */
  lemma LastSegmentPlain(name: string)
    requires '/' !in name
    ensures LastSegment(name) == name
  {
    var r := LastSegment(name);
    assert name[|name| - |r|..] == r;
  }

  /**
   * The names the package index already holds, one per link path: plain file
   * names, never holding a `/`, at most one per link, and a link that is
   * already a plain name counts as written.
   */
  function RemoteNames(linkPaths: seq<string>): (names: set<string>)
    ensures forall n :: n in names ==> '/' !in n
    ensures |names| <= |linkPaths|
    ensures forall k :: 0 <= k < |linkPaths| && '/' !in linkPaths[k] ==> linkPaths[k] in names
  {
    var names := set k | 0 <= k < |linkPaths| :: LastSegment(linkPaths[k]);
    forall k | 0 <= k < |linkPaths| && '/' !in linkPaths[k]
      ensures linkPaths[k] in names
    {
      LastSegmentPlain(linkPaths[k]);
    }
    ImageSize(linkPaths);
    names
  }

  /** Taking one name per link gives at most as many names as links. */
  lemma {:induction false} ImageSize(linkPaths: seq<string>)
    ensures |set k | 0 <= k < |linkPaths| :: LastSegment(linkPaths[k])| <= |linkPaths|
    decreases |linkPaths|
  {
    if linkPaths != [] {
      var init := linkPaths[..|linkPaths| - 1];
      ImageSize(init);
      var a := set k | 0 <= k < |init| :: LastSegment(init[k]);
      var b := set k | 0 <= k < |linkPaths| :: LastSegment(linkPaths[k]);
      assert b == a + {LastSegment(linkPaths[|linkPaths| - 1])};
    }
  }

  /** A link ending in `/` and a plain name makes that name a remote name. */
  lemma RemoteNameOf(linkPaths: seq<string>, k: nat, dir: string, name: string)
    requires k < |linkPaths| && linkPaths[k] == dir + "/" + name && '/' !in name
    ensures name in RemoteNames(linkPaths)
  {
    LastSegmentAfterSlash(dir, name);
  }

  /** The name the `dist/` directory keeps under version control, never a build artifact. */
  const GitIgnore: string := ".gitignore"

  /**
   * `files_to_publish`: the local file names that are not `.gitignore` and
   * that are not the last `/`-segment of any link path of the package
   * index. Listing order is not modelled; the source returns the set
   * difference as a list.
   */
  function FilesToPublish(local: set<string>, linkPaths: seq<string>): (files: set<string>)
    ensures files <= local
    ensures GitIgnore !in files
    ensures forall k :: 0 <= k < |linkPaths| ==> LastSegment(linkPaths[k]) !in files
    ensures forall f :: f in local && f != GitIgnore && f !in RemoteNames(linkPaths) ==> f in files
  {
    (local - {GitIgnore}) - RemoteNames(linkPaths)
  }

  /** A link path for each name, as the index writes them under some directory. */
  function LinksFor(dir: string, names: seq<string>): (paths: seq<string>)
    ensures |paths| == |names|
    ensures forall k :: 0 <= k < |names| ==> paths[k] == dir + "/" + names[k]
  {
    seq(|names|, k requires 0 <= k < |names| => dir + "/" + names[k])
  }

  /**
   * Once every file to publish is on the index, nothing is left to publish:
   * running the script again after a successful upload does nothing.
   */
  lemma PublishSettles(local: set<string>, linkPaths: seq<string>, dir: string, uploaded: seq<string>)
    requires forall f :: f in local ==> '/' !in f
    requires forall f :: f in FilesToPublish(local, linkPaths) ==> f in uploaded
    ensures FilesToPublish(local, linkPaths + LinksFor(dir, uploaded)) == {}
  {
    var links := linkPaths + LinksFor(dir, uploaded);
    forall f | f in FilesToPublish(local, linkPaths)
      ensures f in RemoteNames(links)
    {
      var k :| 0 <= k < |uploaded| && uploaded[k] == f;
      LastSegmentAfterSlash(dir, f);
      assert links[|linkPaths| + k] == dir + "/" + f;
    }
    forall k | 0 <= k < |linkPaths|
      ensures links[k] == linkPaths[k]
    {
    }
  }

  /* ---------------------------------------------------------------- publish and clean */

  /** How a run of `publish` or `clean` ends. */
  datatype Outcome =
    | NothingToDo             // every built file is already on the index: exit status 0
    | Upload(files: set<string>)  // `uv publish` is called with these files
    | Remove                  // `dist/` is deleted
    | Abort(code: int)        // the operator did not answer yes

  /**
   * `publish` after the build: with nothing new it stops with status 0
   * before asking anything; otherwise a yes uploads exactly the new files
   * and anything else exits with status 1.
   */
  function PublishOutcome(local: set<string>, linkPaths: seq<string>, answer: string): (o: Outcome)
    ensures o == NothingToDo <==> FilesToPublish(local, linkPaths) == {}
    ensures o.Upload? <==> FilesToPublish(local, linkPaths) != {} && answer != [] && answer[0] == 'y'
    ensures o.Upload? ==> o.files == FilesToPublish(local, linkPaths) && o.files != {}
    ensures o.Abort? ==> o.code == DefaultAbortCode
    ensures !o.Remove?
  {
    var files := FilesToPublish(local, linkPaths);
    if files == {} then NothingToDo
    else match PypiConfirm(answer, DefaultAbortCode)
      case Proceed => Upload(files)
      case Decline => assert false; Abort(DefaultAbortCode)
      case Exit(code) => Abort(code)
  }

  /** `clean`: a yes deletes `dist/`, anything else exits with status 1. */
  function CleanOutcome(answer: string): (o: Outcome)
    ensures o == Remove <==> answer != [] && answer[0] == 'y'
    ensures o != Remove ==> o == Abort(DefaultAbortCode)
  {
    match PypiConfirm(answer, DefaultAbortCode)
    case Proceed => Remove
    case Decline => assert false; Abort(DefaultAbortCode)
    case Exit(code) => Abort(code)
  }
}
