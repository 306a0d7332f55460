/**
 * The schema migrator of app/Infrastructure/MigrationRunner.php: the `*.sql`
 * files of one directory, in `strcmp` order, each applied in its own
 * transaction and recorded in `public.schema_migrations` unless its version
 * (the file name without `.sql`) is recorded already; the first failure
 * stops the run.
 *
 * The database and the file system are inputs: whether the bookkeeping
 * table could be created, the directory listing `glob` sees, the recorded
 * versions, and for each file whether it can be read and whether its
 * transaction commits.
 */
module MigrationRunner {
  import opened Wrappers
  import opened Text

  // ---- the configured path ----

  predicate IsSlash(c: char) {
    c == '/' || c == '\\'
  }

  /** `rtrim($migrationsPath, '/\\')`: every trailing slash or backslash is removed. */
  function RTrimSlashes(path: string): (r: string)
    ensures |r| <= |path| && r == path[..|r|]
    ensures |r| > 0 ==> !IsSlash(r[|r| - 1])
    ensures forall i :: |r| <= i < |path| ==> IsSlash(path[i])
  {
    if |path| > 0 && IsSlash(path[|path| - 1]) then RTrimSlashes(path[..|path| - 1]) else path
  }

  /** A path that does not end in a slash keeps exactly its own text, whatever run of slashes followed it. */
  lemma {:induction false} RTrimSlashesAppended(path: string, slashes: string)
    requires |path| == 0 || !IsSlash(path[|path| - 1])
    requires forall i :: 0 <= i < |slashes| ==> IsSlash(slashes[i])
    ensures RTrimSlashes(path + slashes) == path
    decreases |slashes|
  {
    if |slashes| > 0 {
      var shorter := slashes[..|slashes| - 1];
      assert (path + slashes)[..|path + slashes| - 1] == path + shorter;
      RTrimSlashesAppended(path, shorter);
    } else {
      assert path + slashes == path;
    }
  }

  /** The runner as constructed: the configured directory without trailing separators. */
  datatype Runner = Runner(migrationsPath: string)

  function NewRunner(path: string): (r: Runner)
    ensures r.migrationsPath == RTrimSlashes(path)
    ensures RTrimSlashes(r.migrationsPath) == r.migrationsPath
  {
    Runner(RTrimSlashes(path))
  }

  // ---- file names and versions ----

  /** The text after the last `/` (all of `path` if there is none). */
  function LastSegment(path: string): string {
    if |path| == 0 || path[|path| - 1] == '/' then ""
    else LastSegment(path[..|path| - 1]) + [path[|path| - 1]]
  }

  /** The last segment is the longest slash-free suffix of the path. */
  lemma {:induction false} LastSegmentIsSuffix(path: string)
    ensures var r := LastSegment(path);
      '/' !in r && |r| <= |path| && r == path[|path| - |r|..] &&
      (|r| < |path| ==> path[|path| - |r| - 1] == '/')
    decreases |path|
  {
    if |path| > 0 && path[|path| - 1] != '/' {
      var shorter := path[..|path| - 1];
      LastSegmentIsSuffix(shorter);
      var r := LastSegment(shorter);
      assert path[|path| - |r| - 1..] == shorter[|shorter| - |r|..] + [path[|path| - 1]];
    }
  }

  /** `basename($path, $suffix)` for a path that does not end in `/`: the last segment, less the suffix unless that is all of it. */
  function Basename(path: string, suffix: string): string {
    var base := LastSegment(path);
    if EndsWith(base, suffix) && base != suffix then base[..|base| - |suffix|] else base
  }

  /** The version a migration file stands for. */
  function Version(path: string): string {
    Basename(path, ".sql")
  }

  /** What `glob` matches with the pattern `*.sql` in the directory: names ending in `.sql` that do not start with a dot (`*` does not match one). */
  predicate IsMigrationName(name: string) {
    |name| > 4 && name[0] != '.' && EndsWith(name, ".sql") && '/' !in name
  }

  /** The paths `glob` returns for a directory holding `names`. */
  function Glob(dir: string, names: seq<string>): (r: seq<string>)
    ensures forall p :: p in r <==> exists n :: n in names && IsMigrationName(n) && p == dir + "/" + n
  {
    if |names| == 0 then []
    else
      var rest := Glob(dir, names[1..]);
      assert forall n :: n in names <==> n == names[0] || n in names[1..];
      if IsMigrationName(names[0]) then [dir + "/" + names[0]] + rest else rest
  }

  /** The version of a globbed file is its name without `.sql`. */
  lemma VersionOfGlobbed(dir: string, name: string)
    requires IsMigrationName(name)
    ensures Version(dir + "/" + name) == name[..|name| - 4]
  {
    LastSegmentAfterSlash(dir, name);
  }

  lemma {:induction false} LastSegmentAfterSlash(dir: string, name: string)
    requires '/' !in name
    ensures LastSegment(dir + "/" + name) == name
    decreases |name|
  {
    var path := dir + "/" + name;
    if |name| == 0 {
      assert path[|path| - 1] == '/';
    } else {
      var shorter := name[..|name| - 1];
      assert path[..|path| - 1] == dir + "/" + shorter;
      assert path[|path| - 1] == name[|name| - 1];
      LastSegmentAfterSlash(dir, shorter);
      assert shorter + [name[|name| - 1]] == name;
    }
  }

  // ---- sort($files, SORT_STRING) ----

  /**
   * `strcmp(a, b) <= 0`. PHP compares bytes; characters compare by code
   * point, which orders UTF-8 text the same way.
   */
  predicate LexLe(a: string, b: string)
    decreases |a|
  {
    |a| == 0 || (|b| > 0 && (a[0] < b[0] || (a[0] == b[0] && LexLe(a[1..], b[1..]))))
  }

  lemma {:induction false} LexLeTotal(a: string, b: string)
    ensures LexLe(a, b) || LexLe(b, a)
    decreases |a|
  {
    if |a| > 0 && |b| > 0 && a[0] == b[0] {
      LexLeTotal(a[1..], b[1..]);
    }
  }

  lemma {:induction false} LexLeTransitive(a: string, b: string, c: string)
    requires LexLe(a, b) && LexLe(b, c)
    ensures LexLe(a, c)
    decreases |a|
  {
    if |a| > 0 && a[0] == b[0] && b[0] == c[0] {
      LexLeTransitive(a[1..], b[1..], c[1..]);
    }
  }

  lemma {:induction false} LexLeAntisymmetric(a: string, b: string)
    requires LexLe(a, b) && LexLe(b, a)
    ensures a == b
    decreases |a|
  {
    if |a| > 0 {
      LexLeAntisymmetric(a[1..], b[1..]);
      assert a == [a[0]] + a[1..] && b == [b[0]] + b[1..];
    }
  }

  /** Each element is at most the next one. */
  predicate Sorted(s: seq<string>) {
    forall i :: 0 <= i < |s| - 1 ==> LexLe(s[i], s[i + 1])
  }

  /** `x` placed before the first element it does not exceed. */
  function Insert(x: string, s: seq<string>): (r: seq<string>)
    requires Sorted(s)
    ensures Sorted(r)
    ensures multiset(r) == multiset(s) + multiset{x}
    ensures |r| > 0 && (r[0] == x || (|s| > 0 && r[0] == s[0]))
  {
    if |s| == 0 then [x]
    else if LexLe(x, s[0]) then [x] + s
    else
      LexLeTotal(x, s[0]);
      var rest := Insert(x, s[1..]);
      assert s == [s[0]] + s[1..];
      [s[0]] + rest
  }

  /** `sort($files, SORT_STRING)`: the files in ascending `strcmp` order. */
  function Sort(s: seq<string>): (r: seq<string>)
    ensures Sorted(r)
    ensures multiset(r) == multiset(s)
  {
    if |s| == 0 then []
    else
      assert s == [s[0]] + s[1..];
      Insert(s[0], Sort(s[1..]))
  }

  /** In a sorted sequence every element is at most every later one. */
  lemma {:induction false} SortedAscending(s: seq<string>, i: nat, j: nat)
    requires Sorted(s) && i <= j < |s|
    ensures LexLe(s[i], s[j])
    decreases j - i
  {
    if i == j {
      LexLeTotal(s[i], s[i]);
    } else {
      SortedAscending(s, i + 1, j);
      LexLeTransitive(s[i], s[i + 1], s[j]);
    }
  }

  /** There is one sorted order of a collection: two sorted sequences with the same elements are equal. */
  lemma {:induction false} SortedUnique(a: seq<string>, b: seq<string>)
    requires Sorted(a) && Sorted(b) && multiset(a) == multiset(b)
    ensures a == b
    decreases |a|
  {
    if |a| > 0 {
      SortedHeads(a, b);
      DropHead(a, b);
      SortedUnique(a[1..], b[1..]);
      assert a == [a[0]] + a[1..] && b == [b[0]] + b[1..];
    } else {
      assert |multiset(b)| == 0;
    }
  }

  lemma SortedHeads(a: seq<string>, b: seq<string>)
    requires Sorted(a) && Sorted(b) && multiset(a) == multiset(b) && |a| > 0
    ensures |b| > 0 && a[0] == b[0]
  {
    assert a[0] in multiset(b);
    assert b[0] in multiset(a);
    var i :| 0 <= i < |b| && b[i] == a[0];
    var j :| 0 <= j < |a| && a[j] == b[0];
    SortedAscending(b, 0, i);
    SortedAscending(a, 0, j);
    LexLeAntisymmetric(a[0], b[0]);
  }

  lemma DropHead(a: seq<string>, b: seq<string>)
    requires multiset(a) == multiset(b) && |a| > 0 && |b| > 0 && a[0] == b[0]
    ensures Sorted(a) ==> Sorted(a[1..])
    ensures Sorted(b) ==> Sorted(b[1..])
    ensures multiset(a[1..]) == multiset(b[1..])
  {
    TailMultiset(a);
    TailMultiset(b);
  }

  lemma TailMultiset(a: seq<string>)
    requires |a| > 0
    ensures multiset(a[1..]) == multiset(a) - multiset{a[0]}
  {
    assert a == [a[0]] + a[1..];
  }

  // ---- migrate ----

  /** What happens to one pending file: it cannot be read, its transaction raises (and is rolled back), or it commits. */
  datatype FileOutcome = Unreadable | Fails(message: string) | Commits

  /** The recorded versions after the run, and the versions applied in this run or the exception message. */
  datatype Run = Run(recorded: set<string>, result: Result<seq<string>, string>)

  /** The versions among `files` that are not in `applied`, in order. */
  function Pending(files: seq<string>, applied: set<string>): (r: seq<string>)
    ensures forall v :: v in r ==> v !in applied
  {
    if |files| == 0 then []
    else (if Version(files[0]) in applied then [] else [Version(files[0])]) + Pending(files[1..], applied)
  }

  /** The message of the exception raised for a file that could not be applied. */
  function FailureMessage(file: string, outcome: FileOutcome): string {
    match outcome
    case Unreadable => "Unable to read migration file: " + file
    case Fails(message) => "Migration \"" + Version(file) + "\" failed: " + message
    case Commits => ""
  }

  /**
   * The `foreach` over the sorted files, from some file on: `applied` is
   * the set read before the loop, `recorded` the table as it stands.
   */
  function ApplyPending(files: seq<string>, applied: set<string>, recorded: set<string>,
                        outcome: string -> FileOutcome): (r: Run)
    ensures recorded <= r.recorded
    decreases |files|
  {
    if |files| == 0 then Run(recorded, Ok([]))
    else
      var file := files[0];
      var version := Version(file);
      if version in applied then
        ApplyPending(files[1..], applied, recorded, outcome)
      else if !outcome(file).Commits? then
        Run(recorded, Err(FailureMessage(file, outcome(file))))
      else
        var rest := ApplyPending(files[1..], applied, recorded + {version}, outcome);
        match rest.result
        case Ok(versions) => Run(rest.recorded, Ok([version] + versions))
        case Err(message) => Run(rest.recorded, Err(message))
  }

  /** The bookkeeping table once `versions` are inserted into it. */
  function Record(recorded: set<string>, versions: seq<string>): (r: set<string>)
    ensures forall v :: v in r <==> v in recorded || v in versions
  {
    recorded + set v | v in versions
  }

  /** Whether every file not yet applied commits. */
  predicate AllCommit(files: seq<string>, applied: set<string>, outcome: string -> FileOutcome) {
    forall i :: 0 <= i < |files| && Version(files[i]) !in applied ==> outcome(files[i]).Commits?
  }

  /** The position of the first file not yet applied that does not commit, `|files|` if there is none. */
  function FirstFailure(files: seq<string>, applied: set<string>, outcome: string -> FileOutcome): (k: nat)
    ensures k <= |files|
    ensures k < |files| ==> Version(files[k]) !in applied && !outcome(files[k]).Commits?
    ensures forall i :: 0 <= i < k && Version(files[i]) !in applied ==> outcome(files[i]).Commits?
    ensures k == |files| <==> AllCommit(files, applied, outcome)
  {
    if |files| == 0 then 0
    else if Version(files[0]) !in applied && !outcome(files[0]).Commits? then 0
    else
      var k := 1 + FirstFailure(files[1..], applied, outcome);
      assert forall i :: 0 < i < |files| ==> files[i] == files[1..][i - 1];
      k
  }

  /**
   * The loop stops at the first file not yet applied that does not commit:
   * the exception names it, the pending versions before it stay recorded,
   * and nothing after it is attempted. Without such a file it applies and
   * returns exactly the pending versions, in file order.
   */
  lemma {:induction false} ApplyPendingOutcome(files: seq<string>, applied: set<string>, recorded: set<string>,
                                               outcome: string -> FileOutcome)
    ensures StopsAtFirstFailure(files, applied, recorded, outcome)
    decreases |files|
  {
    if |files| > 0 {
      var version := Version(files[0]);
      if version !in applied && !outcome(files[0]).Commits? {
        assert files[..0] == [];
      } else {
        var next := if version in applied then recorded else recorded + {version};
        ApplyPendingOutcome(files[1..], applied, next, outcome);
        OutcomeAfterPassing(files, applied, recorded, outcome);
      }
    }
  }

  /**
   * The run from `files` on records the pending versions before the first
   * file that does not commit and raises that file's message, or, without
   * such a file, records and returns every pending version.
   */
  predicate StopsAtFirstFailure(files: seq<string>, applied: set<string>, recorded: set<string>, outcome: string -> FileOutcome) {
    var k := FirstFailure(files, applied, outcome);
    var r := ApplyPending(files, applied, recorded, outcome);
    r.recorded == Record(recorded, Pending(files[..k], applied)) &&
    r.result == if k == |files| then Ok(Pending(files, applied)) else Err(FailureMessage(files[k], outcome(files[k])))
  }

  lemma OutcomeAfterPassing(files: seq<string>, applied: set<string>, recorded: set<string>, outcome: string -> FileOutcome)
    requires |files| > 0 && (Version(files[0]) in applied || outcome(files[0]).Commits?)
    requires StopsAtFirstFailure(files[1..], applied, if Version(files[0]) in applied then recorded else recorded + {Version(files[0])}, outcome)
    ensures StopsAtFirstFailure(files, applied, recorded, outcome)
  {
    var version := Version(files[0]);
    var tail := files[1..];
    var next := if version in applied then recorded else recorded + {version};
    var head := if version in applied then [] else [version];
    var k := FirstFailure(tail, applied, outcome);
    ApplyPendingPasses(files, applied, recorded, outcome);
    FirstFailurePasses(files, applied, outcome);
    PendingPrefix(files, applied, k);
    assert Record(next, Pending(tail[..k], applied)) == Record(recorded, head + Pending(tail[..k], applied));
    if k == |tail| {
      assert tail[..k] == tail && files[..k + 1] == files;
      assert Pending(files, applied) == head + Pending(tail, applied);
    } else {
      assert tail[k] == files[k + 1];
    }
  }

  /** One file that is skipped or commits: the run is the run of the rest, with that file's version in front. */
  lemma ApplyPendingPasses(files: seq<string>, applied: set<string>, recorded: set<string>, outcome: string -> FileOutcome)
    requires |files| > 0 && (Version(files[0]) in applied || outcome(files[0]).Commits?)
    ensures var version := Version(files[0]);
      var head := if version in applied then [] else [version];
      var rest := ApplyPending(files[1..], applied, if version in applied then recorded else recorded + {version}, outcome);
      ApplyPending(files, applied, recorded, outcome)
      == Run(rest.recorded, if rest.result.Ok? then Ok(head + rest.result.value) else rest.result)
  {
    if Version(files[0]) !in applied {
      ApplyPendingCommits(files, applied, recorded, outcome);
    } else {
      ApplyPendingSkips(files, applied, recorded, outcome);
      var rest := ApplyPending(files[1..], applied, recorded, outcome);
      if rest.result.Ok? {
        assert [] + rest.result.value == rest.result.value;
      }
    }
  }

  lemma ApplyPendingSkips(files: seq<string>, applied: set<string>, recorded: set<string>, outcome: string -> FileOutcome)
    requires |files| > 0 && Version(files[0]) in applied
    ensures ApplyPending(files, applied, recorded, outcome) == ApplyPending(files[1..], applied, recorded, outcome)
  {
  }

  lemma ApplyPendingCommits(files: seq<string>, applied: set<string>, recorded: set<string>, outcome: string -> FileOutcome)
    requires |files| > 0 && Version(files[0]) !in applied && outcome(files[0]).Commits?
    ensures var rest := ApplyPending(files[1..], applied, recorded + {Version(files[0])}, outcome);
      ApplyPending(files, applied, recorded, outcome)
      == Run(rest.recorded, if rest.result.Ok? then Ok([Version(files[0])] + rest.result.value) else rest.result)
  {
  }

  lemma FirstFailurePasses(files: seq<string>, applied: set<string>, outcome: string -> FileOutcome)
    requires |files| > 0 && (Version(files[0]) in applied || outcome(files[0]).Commits?)
    ensures FirstFailure(files, applied, outcome) == 1 + FirstFailure(files[1..], applied, outcome)
  {
  }

  /** The pending versions of the first `k + 1` files are those of the first file, then those of the next `k`. */
  lemma PendingPrefix(files: seq<string>, applied: set<string>, k: nat)
    requires k < |files|
    ensures Pending(files[..k + 1], applied)
         == (if Version(files[0]) in applied then [] else [Version(files[0])]) + Pending(files[1..][..k], applied)
  {
    assert files[..k + 1][0] == files[0];
    assert files[..k + 1][1..] == files[1..][..k];
  }

  /**
   * `migrate`: create the bookkeeping table if needed, list and sort the
   * files, read the recorded versions, then apply the pending files in
   * order. `schema` is the exception raised before any file is applied:
   * by `ensureMigrationsTable`, or, the connection being in
   * `ERRMODE_EXCEPTION`, by the SELECT of `getAppliedVersions` once the
   * listing succeeded; either way nothing is applied and the message
   * propagates.
   */
  function Migrate(runner: Runner, schema: Option<string>, listing: Option<seq<string>>, recorded: set<string>,
                   outcome: string -> FileOutcome): (r: Run)
    ensures recorded <= r.recorded
    ensures schema.Some? ==> r == Run(recorded, Err(schema.value))
    ensures schema.None? && listing.None? ==>
      r == Run(recorded, Err("Unable to read migrations directory: " + runner.migrationsPath))
  {
    match schema
    case Some(message) => Run(recorded, Err(message))
    case None =>
      match listing
      case None => Run(recorded, Err("Unable to read migrations directory: " + runner.migrationsPath))
      case Some(names) => ApplyPending(Sort(Glob(runner.migrationsPath, names)), recorded, recorded, outcome)
  }

  /** The files of a run, in the order they are considered. */
  function Files(runner: Runner, names: seq<string>): seq<string> {
    Sort(Glob(runner.migrationsPath, names))
  }

  /**
   * When every pending file commits, `migrate` returns exactly the versions
   * not recorded before, in ascending order of their files, and records
   * them; the files are every `*.sql` of the directory, each once.
   */
  lemma MigrateApplies(runner: Runner, names: seq<string>, recorded: set<string>, outcome: string -> FileOutcome)
    requires AllCommit(Files(runner, names), recorded, outcome)
    ensures var r := Migrate(runner, None, Some(names), recorded, outcome);
      r.result == Ok(Pending(Files(runner, names), recorded)) &&
      r.recorded == Record(recorded, Pending(Files(runner, names), recorded))
    ensures Sorted(Files(runner, names)) && multiset(Files(runner, names)) == multiset(Glob(runner.migrationsPath, names))
  {
    ApplyPendingOutcome(Files(runner, names), recorded, recorded, outcome);
    assert Files(runner, names)[..|Files(runner, names)|] == Files(runner, names);
  }

  /** After a run that applied everything, every file's version is recorded. */
  lemma {:induction false} PendingCovers(files: seq<string>, applied: set<string>)
    ensures forall i :: 0 <= i < |files| ==> Version(files[i]) in Record(applied, Pending(files, applied))
    decreases |files|
  {
    if |files| > 0 {
      PendingCovers(files[1..], applied);
      var rest := Pending(files[1..], applied);
      var head := if Version(files[0]) in applied then [] else [Version(files[0])];
      assert Pending(files, applied) == head + rest;
      forall i | 0 <= i < |files|
        ensures Version(files[i]) in Record(applied, head + rest)
      {
        if i > 0 {
          assert files[i] == files[1..][i - 1];
        }
      }
    }
  }

  /** A run in which every file is already recorded applies nothing and records nothing, whatever the files would do. */
  lemma {:induction false} NothingPending(files: seq<string>, applied: set<string>, outcome: string -> FileOutcome)
    requires forall i :: 0 <= i < |files| ==> Version(files[i]) in applied
    ensures ApplyPending(files, applied, applied, outcome) == Run(applied, Ok([]))
    decreases |files|
  {
    if |files| > 0 {
      assert Version(files[0]) in applied;
      NothingPending(files[1..], applied, outcome);
    }
  }

  /**
   * `migrate` is idempotent: after a run that succeeded, a second run over
   * the same directory returns an empty list and records nothing new.
   */
  lemma MigrateTwice(runner: Runner, names: seq<string>, recorded: set<string>,
                     first: string -> FileOutcome, second: string -> FileOutcome)
    requires Migrate(runner, None, Some(names), recorded, first).result.Ok?
    ensures var once := Migrate(runner, None, Some(names), recorded, first);
      Migrate(runner, None, Some(names), once.recorded, second) == Run(once.recorded, Ok([]))
  {
    var files := Files(runner, names);
    var once := Migrate(runner, None, Some(names), recorded, first);
    ApplyPendingOutcome(files, recorded, recorded, first);
    assert files[..|files|] == files;
    PendingCovers(files, recorded);
    NothingPending(files, once.recorded, second);
  }
}
