/**
 * `execute_sql`: every statement of a rendered file is sent, once and in
 * order, to the `snow` client; each attempt is logged as OK or as a warning
 * and none stops the batch.
 */
module Executor {
  import opened Text
  import opened Sql

  /** An argument vector handed to the operating system. */
  type Command = seq<string>

  /** `['snow', 'sql', '-q', stmt, '-c', connection]` */
  function SnowCommand(stmt: string, connection: string): (argv: Command)
    ensures |argv| == 6 && argv[..3] == ["snow", "sql", "-q"] && argv[4] == "-c"
    ensures argv[3] == stmt && argv[5] == connection
  {
    ["snow", "sql", "-q", stmt, "-c", connection]
  }

  /** The statement and the connection can be read back from the command:
    * distinct attempts give distinct commands. */
  lemma SnowCommandInjective(s1: string, c1: string, s2: string, c2: string)
    ensures SnowCommand(s1, c1) == SnowCommand(s2, c2) <==> s1 == s2 && c1 == c2
  {
    if SnowCommand(s1, c1) == SnowCommand(s2, c2) {
      assert SnowCommand(s1, c1)[3] == s1 && SnowCommand(s1, c1)[5] == c1;
    }
  }

  /** What `subprocess.run` gives back: the process finished (with its exit
    * status and captured standard error), the 120-second timeout expired, or
    * some other exception was raised (its text). */
  datatype RunResult = Finished(returncode: int, stderr: string) | TimedOut | Raised(message: string)

  /** The client, seen from the script: its answer to a command may depend on
    * every command sent before it. */
  type Client = (seq<Command>, Command) -> RunResult

  datatype Outcome = Succeeded | Warning(message: string)

  /** One statement's log: the `> preview` line and the `OK` or `WARNING:`
    * line after it. */
  datatype Entry = Entry(preview: string, outcome: Outcome)

  const TimeoutMessage: string := "Statement timed out"

  /** Only a zero exit status is OK; a non-zero one warns with the captured
    * standard error, a timeout with a fixed text, an exception with its own
    * text. */
  function Classify(r: RunResult): (o: Outcome)
    ensures o == Succeeded <==> r.Finished? && r.returncode == 0
    ensures r.Finished? && r.returncode != 0 ==> o == Warning(r.stderr)
    ensures r.TimedOut? ==> o == Warning(TimeoutMessage)
    ensures r.Raised? ==> o == Warning(r.message)
  {
    match r
    case Finished(code, stderr) => if code != 0 then Warning(stderr) else Succeeded
    case TimedOut => Warning(TimeoutMessage)
    case Raised(message) => Warning(message)
  }

  /** `calls` sends each of `stmts`, exactly once and in order, over
    * `connection`, and `entries` logs for each the preview and the outcome
    * of the client's answer, given everything sent before (`history`, then
    * the earlier statements of this batch). */
  ghost predicate Executed(stmts: seq<string>, connection: string, client: Client, history: seq<Command>,
                           entries: seq<Entry>, calls: seq<Command>)
  {
    && |entries| == |stmts|
    && |calls| == |stmts|
    && forall i :: 0 <= i < |stmts| ==>
         && calls[i] == SnowCommand(stmts[i], connection)
         && entries[i] == Entry(Preview(stmts[i]), Classify(client(history + calls[..i], calls[i])))
  }

  /** The client's answers decide only what is logged, never what is sent:
    * any two runs of the same statements send the same commands. */
  lemma CallsIgnoreAnswers(stmts: seq<string>, connection: string,
                           client1: Client, history1: seq<Command>, entries1: seq<Entry>, calls1: seq<Command>,
                           client2: Client, history2: seq<Command>, entries2: seq<Entry>, calls2: seq<Command>)
    requires Executed(stmts, connection, client1, history1, entries1, calls1)
    requires Executed(stmts, connection, client2, history2, entries2, calls2)
    ensures calls1 == calls2
    ensures forall i :: 0 <= i < |stmts| ==> entries1[i].preview == entries2[i].preview
  {
  }

  /** A statement whose attempt times out gets exactly the timeout warning,
    * and the statements after it are still attempted. */
  lemma TimeoutDoesNotStopBatch(stmts: seq<string>, connection: string, client: Client, history: seq<Command>,
                                entries: seq<Entry>, calls: seq<Command>, i: nat)
    requires Executed(stmts, connection, client, history, entries, calls)
    requires i < |stmts| && client(history + calls[..i], calls[i]) == TimedOut
    ensures entries[i].outcome == Warning(TimeoutMessage)
    ensures forall j :: i < j < |stmts| ==> calls[j] == SnowCommand(stmts[j], connection)
  {
  }

  lemma ExecutedStep(stmts: seq<string>, connection: string, client: Client, history: seq<Command>,
                     entries: seq<Entry>, calls: seq<Command>, stmt: string)
    requires Executed(stmts, connection, client, history, entries, calls)
    ensures var command := SnowCommand(stmt, connection);
            Executed(stmts + [stmt], connection, client, history,
                     entries + [Entry(Preview(stmt), Classify(client(history + calls, command)))],
                     calls + [command])
  {
    var command := SnowCommand(stmt, connection);
    var calls' := calls + [command];
    assert calls'[..|stmts|] == calls;
    forall i | 0 <= i < |stmts| ensures calls'[..i] == calls[..i] {
      assert calls'[..i] == calls'[..|stmts|][..i];
    }
  }

  /** Runs one rendered file. Whatever the client answers, every statement of
    * `sql` is attempted and logged: the batch is never cut short. */
  method ExecuteSql(sql: string, connection: string, client: Client, history: seq<Command>)
    returns (entries: seq<Entry>, calls: seq<Command>)
    ensures Executed(Statements(sql), connection, client, history, entries, calls)
  {
    var statements := Statements(sql);
    entries, calls := [], [];
    for i := 0 to |statements|
      invariant Executed(statements[..i], connection, client, history, entries, calls)
    {
      var stmt := statements[i];
      if stmt == [] {
        continue;
      }
      var preview := Preview(stmt);
      var command := SnowCommand(stmt, connection);
      var result := client(history + calls, command);
      ExecutedStep(statements[..i], connection, client, history, entries, calls, stmt);
      assert statements[..i + 1] == statements[..i] + [stmt];
      entries := entries + [Entry(preview, Classify(result))];
      calls := calls + [command];
    }
    assert statements[..|statements|] == statements;
  }
}
