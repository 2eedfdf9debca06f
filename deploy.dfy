/**
 * `main`: resolve the environment's settings once, then render and execute
 * every SQL file of the definitions directory in sorted path order.
 */
module RenderAndDeploy {
  import opened Wrappers
  import opened Text
  import opened Sql
  import opened Config
  import opened Executor

  /** Ascending in Python's string order. */
  predicate Sorted(paths: seq<string>) {
    forall i :: 0 < i < |paths| ==> LexLe(paths[i - 1], paths[i])
  }

  function Insert(p: string, sorted: seq<string>): (r: seq<string>)
    requires Sorted(sorted)
    ensures Sorted(r)
    ensures multiset(r) == multiset(sorted) + multiset{p}
    ensures r[0] == p || (sorted != [] && r[0] == sorted[0])
  {
    if sorted == [] || LexLe(p, sorted[0]) then [p] + sorted
    else
      LexLeTotal(p, sorted[0]);
      var rest := Insert(p, sorted[1..]);
      assert sorted == [sorted[0]] + sorted[1..];
      [sorted[0]] + rest
  }

  /** `sorted(paths)`: the same paths, ascending. */
  function SortPaths(paths: seq<string>): (r: seq<string>)
    ensures Sorted(r)
    ensures multiset(r) == multiset(paths)
  {
    if paths == [] then []
    else
      assert paths == [paths[0]] + paths[1..];
      Insert(paths[0], SortPaths(paths[1..]))
  }

  lemma {:induction false} SortedHeadIsLeast(s: seq<string>, k: nat)
    requires Sorted(s) && k < |s|
    ensures LexLe(s[0], s[k])
  {
    if k == 0 {
      LexLeReflexive(s[0]);
    } else {
      SortedHeadIsLeast(s, k - 1);
      LexLeTransitive(s[0], s[k - 1], s[k]);
    }
  }

  lemma TailsHaveSameElements(a: seq<string>, b: seq<string>)
    requires a != [] && b != [] && a[0] == b[0] && multiset(a) == multiset(b)
    ensures multiset(a[1..]) == multiset(b[1..])
  {
    assert a == [a[0]] + a[1..] && b == [b[0]] + b[1..];
    assert multiset(a) == multiset{a[0]} + multiset(a[1..]);
    assert multiset(b) == multiset{b[0]} + multiset(b[1..]);
    forall z ensures multiset(a[1..])[z] == multiset(b[1..])[z] {
      assert multiset(a)[z] == multiset{a[0]}[z] + multiset(a[1..])[z];
      assert multiset(b)[z] == multiset{b[0]}[z] + multiset(b[1..])[z];
    }
  }

  lemma SortedHeadsAgree(a: seq<string>, b: seq<string>)
    requires Sorted(a) && Sorted(b) && multiset(a) == multiset(b) && a != []
    ensures b != [] && a[0] == b[0]
  {
    assert a[0] in multiset(b);
    assert b != [] && b[0] in multiset(a);
    var j :| 0 <= j < |b| && b[j] == a[0];
    var i :| 0 <= i < |a| && a[i] == b[0];
    SortedHeadIsLeast(b, j);
    SortedHeadIsLeast(a, i);
    LexLeAntisymmetric(a[0], b[0]);
  }

  /** A sorted list is determined by its elements. */
  lemma {:induction false} SortedUnique(a: seq<string>, b: seq<string>)
    requires Sorted(a) && Sorted(b) && multiset(a) == multiset(b)
    ensures a == b
    decreases |a|
  {
    if a == [] {
      assert |b| == |multiset(b)| == 0;
    } else {
      SortedHeadsAgree(a, b);
      TailsHaveSameElements(a, b);
      SortedUnique(a[1..], b[1..]);
      assert a == [a[0]] + a[1..] && b == [b[0]] + b[1..];
    }
  }

  /** So the order files are processed in is the one Python's `sorted` gives:
    * the only ascending arrangement of the globbed paths. */
  lemma SortPathsIsTheSortedOrder(paths: seq<string>, q: seq<string>)
    requires Sorted(q) && multiset(q) == multiset(paths)
    ensures SortPaths(paths) == q
  {
    SortedUnique(SortPaths(paths), q);
  }

  /** One SQL file's part of the run. */
  datatype FileRun = FileRun(path: string, entries: seq<Entry>, calls: seq<Command>)

  /** What ends a deployment early: the environment lookup, or an exception
    * while opening or reading a file, or while Jinja parses or renders it. */
  datatype Failure =
    | LookupFailed(error: ConfigError)
    | ReadFailed(path: string, message: string)
    | RenderFailed(path: string, message: string)

  /** The files processed before the run ended, and why it ended early, if it did. */
  datatype Report = Report(runs: seq<FileRun>, failure: Option<Failure>)

  /** A file's text read and rendered against the configuration, or the first
    * of the two steps that raised. */
  function Rendered(path: string, config: Configuration, read: string -> Result<string, string>,
                    render: (string, Configuration) -> Result<string, string>): (r: Result<string, Failure>)
    ensures r.Ok? <==> read(path).Ok? && render(read(path).value, config).Ok?
    ensures r.Ok? ==> r.value == render(read(path).value, config).value
    ensures read(path).Err? ==> r == Err(ReadFailed(path, read(path).error))
    ensures read(path).Ok? && render(read(path).value, config).Err? ==>
              r == Err(RenderFailed(path, render(read(path).value, config).error))
  {
    match read(path)
    case Err(message) => Err(ReadFailed(path, message))
    case Ok(raw) =>
      match render(raw, config)
      case Err(message) => Err(RenderFailed(path, message))
      case Ok(text) => Ok(text)
  }

  /** Every command of the run so far, in the order it was sent. */
  function AllCalls(runs: seq<FileRun>): seq<Command> {
    if runs == [] then [] else AllCalls(runs[..|runs| - 1]) + runs[|runs| - 1].calls
  }

  /** `runs` processes `paths` in that order, each file read and rendered
    * without error and its text executed on its own, with the client seeing
    * the commands of all earlier files first. */
  ghost predicate Deployed(paths: seq<string>, config: Configuration, connection: string,
                           read: string -> Result<string, string>,
                           render: (string, Configuration) -> Result<string, string>,
                           client: Client, runs: seq<FileRun>)
  {
    && |runs| == |paths|
    && forall k :: 0 <= k < |runs| ==>
         && runs[k].path == paths[k]
         && Rendered(paths[k], config, read, render).Ok?
         && Executed(Statements(Rendered(paths[k], config, read, render).value), connection, client,
                     AllCalls(runs[..k]), runs[k].entries, runs[k].calls)
  }

  lemma DeployedStep(paths: seq<string>, config: Configuration, connection: string,
                     read: string -> Result<string, string>,
                     render: (string, Configuration) -> Result<string, string>,
                     client: Client, runs: seq<FileRun>, run: FileRun)
    requires Deployed(paths, config, connection, read, render, client, runs)
    requires Rendered(run.path, config, read, render).Ok?
    requires Executed(Statements(Rendered(run.path, config, read, render).value), connection, client,
                      AllCalls(runs), run.entries, run.calls)
    ensures Deployed(paths + [run.path], config, connection, read, render, client, runs + [run])
  {
    var runs' := runs + [run];
    assert runs'[..|runs|] == runs;
    forall k | 0 <= k < |runs| ensures runs'[..k] == runs[..k] {
      assert runs'[..k] == runs'[..|runs|][..k];
    }
  }

  /** The whole deployment. The environment name is upper-cased and looked up
    * first: an unknown one ends the run with that error before any file is
    * read or any command sent. Otherwise the found files are processed in
    * sorted order, whatever their statements' outcomes, until one cannot be
    * read or rendered: the run ends there, with the earlier files' commands
    * already sent and no later file touched. The connection name is passed
    * along rather than kept in a global. */
  method Deploy(manifest: Manifest, environment: string, connection: string, found: seq<string>,
                read: string -> Result<string, string>,
                render: (string, Configuration) -> Result<string, string>, client: Client)
    returns (report: Report)
    ensures LoadConfig(manifest, Upper(environment)).Err? ==>
              report == Report([], Some(LookupFailed(EnvironmentNotFound(Upper(environment)))))
    ensures LoadConfig(manifest, Upper(environment)).Ok? ==>
              var config := LoadConfig(manifest, Upper(environment)).value;
              var paths := SortPaths(found);
              && |report.runs| <= |paths|
              && Deployed(paths[..|report.runs|], config, connection, read, render, client, report.runs)
              && (report.failure.None? <==> |report.runs| == |paths|)
              && (report.failure.Some? ==>
                    && Rendered(paths[|report.runs|], config, read, render).Err?
                    && report.failure.value == Rendered(paths[|report.runs|], config, read, render).error)
  {
    var env := Upper(environment);
    match LoadConfig(manifest, env)
    case Err(e) =>
      report := Report([], Some(LookupFailed(e)));
    case Ok(config) =>
      var paths := SortPaths(found);
      var runs: seq<FileRun> := [];
      for k := 0 to |paths|
        invariant Deployed(paths[..k], config, connection, read, render, client, runs)
      {
        var path := paths[k];
        match Rendered(path, config, read, render)
        case Err(failure) =>
          return Report(runs, Some(failure));
        case Ok(rendered) =>
          var entries, calls := ExecuteSql(rendered, connection, client, AllCalls(runs));
          DeployedStep(paths[..k], config, connection, read, render, client, runs, FileRun(path, entries, calls));
          assert paths[..k + 1] == paths[..k] + [path];
          runs := runs + [FileRun(path, entries, calls)];
      }
      assert paths[..|paths|] == paths;
      report := Report(runs, None);
  }
}
