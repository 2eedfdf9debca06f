# render_and_deploy — a Dafny model

`scripts/render_and_deploy.py` deploys SQL to a Snowflake warehouse. It
upper-cases the environment name given on the command line and looks up that
environment's variables in `manifest.yml`. Then, for every `definitions/*.sql`
file in sorted path order, it renders the file with Jinja and splits the
result on `;`. Each non-empty statement goes to the `snow sql` client once.
The script logs a preview of each statement and an `OK` or `WARNING:` line,
and it never stops partway through a batch.

This project models the deterministic logic around those external calls:

- `wrappers.dfy` (`Wrappers`): `Option` and `Result`. The script's exceptions become `Err` values.
- `text.dfy` (`Text`): the Python string built-ins the script relies on, written out:
  - `str.strip()`, using exactly the characters for which `str.isspace` holds;
  - `str.split(';')` and its inverse `';'.join`;
  - ASCII `str.upper()`;
  - the code-point order that `sorted` uses on strings.
- `statements.dfy` (`Sql`): the split/strip/filter comprehension of `execute_sql` and the statement preview.
- `config.dfy` (`Config`): `load_config` over an already-parsed manifest.
- `executor.dfy` (`Executor`): the statement loop of `execute_sql`.
  - The `snow` client is a function parameter. It maps the commands sent so far and the new command to one of three results: the process finished (exit status and standard error), the timeout expired, or another exception was raised (its text).
  - The printed log becomes the returned sequence of entries. Each entry is a preview plus `Succeeded` or `Warning(text)`.
- `deploy.dfy` (`RenderAndDeploy`): `main`.
  - The global `CONNECTION` becomes a parameter.
  - What `glob.glob` returns is an input. Reading a file and rendering it with Jinja are function parameters, and either one may fail.

Splitting is naive, as in the source: a `;` inside a string literal or a
procedure body splits the statement. `SplitJoin`/`JoinSplit` pin down exactly
this behaviour.

## Model

| member | source | states |
|---|---|---|
| Text.Strip | scripts/render_and_deploy.py:39 | the stripped text has no whitespace at either end, and it is empty exactly when the input is all whitespace |
| Text.IsSpaceIsPythonWhitespace | scripts/render_and_deploy.py:39 | a character counts as whitespace for `strip()` if and only if it is one of the 29 characters Python's `str.isspace` accepts, listed one by one |
| Text.StripPads | scripts/render_and_deploy.py:39 | the stripped text is a contiguous piece of the input with only whitespace before and after it |
| Text.StripAddsNothing | scripts/render_and_deploy.py:39 | every character of the stripped text occurs in the input |
| Text.StripUnique | scripts/render_and_deploy.py:39 | when the input is a non-empty trimmed text padded with whitespace, strip returns exactly that text |
| Text.StripOfTrimmed | scripts/render_and_deploy.py:39 | stripping a text with no whitespace at its ends changes nothing (strip is idempotent) |
| Text.Split | scripts/render_and_deploy.py:39 | `split(';')` yields at least one fragment, and no fragment contains `;` |
| Text.JoinSplit | scripts/render_and_deploy.py:39 | joining the fragments with `;` gives back the input, so nothing is lost or reordered |
| Text.SplitJoin | scripts/render_and_deploy.py:39 | splitting a join of `;`-free fragments gives those fragments back (split and join are inverse bijections) |
| Text.SplitAppend | scripts/render_and_deploy.py:39 | the fragments of `a;b` are the fragments of `a` followed by those of `b` |
| Text.Upper | scripts/render_and_deploy.py:72 | in this ASCII model, `upper()` keeps the length; each ASCII lower-case letter becomes its capital, 32 code points lower, and every other character is kept |
| Text.UpperHasNoLower | scripts/render_and_deploy.py:72 | upper-casing keeps the length and leaves no lower-case ASCII letter |
| Text.UpperEqualIff | scripts/render_and_deploy.py:72 | in this ASCII model, two names upper-case to the same key if and only if they differ only in ASCII letter case |
| Text.LexLeTotal | scripts/render_and_deploy.py:84 | any two paths are comparable in string order |
| Text.LexLeAntisymmetric | scripts/render_and_deploy.py:84 | two paths each at most the other are equal |
| Text.LexLeTransitive | scripts/render_and_deploy.py:84 | string order is transitive |
| Text.LexLeIff | scripts/render_and_deploy.py:84 | one path sorts before or equal to another if and only if it is a prefix of the other, or at their first differing position its character has the lower code point |
| Sql.Clean | scripts/render_and_deploy.py:39 | the comprehension keeps at most one statement per fragment, and every statement it keeps is non-empty and has no whitespace at either end |
| Sql.StripAll | scripts/render_and_deploy.py:39 | `s.strip()` for every fragment: one result per fragment, none with whitespace at either end |
| Sql.DropEmpty | scripts/render_and_deploy.py:39 | the `if s.strip()` filter keeps at most as many strings as it is given, each of them one of the inputs and non-empty |
| Sql.DropEmptyKeepsNonEmpty | scripts/render_and_deploy.py:39 | the filter drops no non-empty string |
| Sql.CleanSeparatorFree | scripts/render_and_deploy.py:39 | stripping and filtering `;`-free fragments introduces no `;` |
| Sql.Statements | scripts/render_and_deploy.py:39-43 | every statement is non-empty, contains no `;` and has no whitespace at either end; being non-empty, none is skipped by the `if not stmt: continue` guard |
| Sql.StatementsAreStripped | scripts/render_and_deploy.py:39 | every statement equals its own strip, so applying `strip()` once more changes nothing |
| Sql.StatementsAppend | scripts/render_and_deploy.py:39 | the statements of `a;b` are those of `a` followed by those of `b` (source order is kept) |
| Sql.StatementsWithoutSeparator | scripts/render_and_deploy.py:39 | a text without `;` gives no statement if it is all whitespace, otherwise exactly its strip (at most one statement) |
| Sql.StatementsEmptyIff | scripts/render_and_deploy.py:39 | a text gives no statement if and only if it contains nothing but whitespace and `;` |
| Sql.StatementsExample | scripts/render_and_deploy.py:39 | `"A; B ;; C"` gives `["A", "B", "C"]` |
| Sql.StatementsOfTerminatedStatement | scripts/render_and_deploy.py:39 | one trimmed statement followed by `;` (such as `CREATE SCHEMA dev_schema;`) gives exactly that statement |
| Sql.Preview | scripts/render_and_deploy.py:45 | a statement of at most 100 characters is its own preview; a longer one previews as exactly 103 characters, its first 100 followed by `...` |
| Sql.PreviewBounded | scripts/render_and_deploy.py:45 | a preview is never longer than 103 characters, and it begins with the statement's first min(length, 100) characters |
| Sql.PreviewOnlySeesPrefix | scripts/render_and_deploy.py:45 | two long statements with the same first 100 characters have the same preview |
| Config.LoadConfig | scripts/render_and_deploy.py:23-26 | the lookup succeeds if and only if `configurations` exists and holds the environment; it then returns that environment's mapping unchanged, and otherwise the not-found error for that name |
| Config.Environments | scripts/render_and_deploy.py:23 | `manifest.get('configurations', {})`: the manifest's environments when it has a `configurations` entry, and an empty mapping otherwise |
| Config.LoadConfigIgnoresOtherEnvironments | scripts/render_and_deploy.py:26 | no merging: two manifests that agree on the requested environment give the same result, whatever the other environments hold |
| Config.MissingConfigurationsIsEmpty | scripts/render_and_deploy.py:23 | a manifest without `configurations` behaves like one with an empty mapping: every lookup fails |
| Config.ErrorMessage | scripts/render_and_deploy.py:24 | the message is `Environment '`, then the environment name, then `' not found in manifest.yml` |
| Config.ErrorMessageInjective | scripts/render_and_deploy.py:24 | two errors have the same message if and only if they name the same environment |
| Config.LookupIgnoresCase | scripts/render_and_deploy.py:72-79 | names that differ only in ASCII case select the same configuration |
| Config.DevIsDEV | scripts/render_and_deploy.py:72 | `dev` and `DEV` select the same configuration |
| Executor.SnowCommandInjective | scripts/render_and_deploy.py:50 | two `snow sql -q … -c …` commands are equal if and only if their statements and connections are equal |
| Executor.SnowCommand | scripts/render_and_deploy.py:50 | exactly six arguments, `snow sql -q <statement> -c <connection>`, with the statement and the connection each passed whole as one argument |
| Executor.Classify | scripts/render_and_deploy.py:55-62 | OK if and only if the process finished with status 0; a non-zero status warns with the captured standard error, a timeout with "Statement timed out", an exception with its text |
| Executor.ExecuteSql | scripts/render_and_deploy.py:39-62 | each statement of the split is sent exactly once, in order, over the given connection; there is exactly one log entry per statement, holding its preview and the classification of the client's answer to that command after all earlier commands |
| Executor.CallsIgnoreAnswers | scripts/render_and_deploy.py:41-62 | the client's answers never change which commands are sent or which previews are logged, so no outcome stops the batch |
| Executor.TimeoutDoesNotStopBatch | scripts/render_and_deploy.py:59-60 | a timed-out statement gets exactly the timeout warning, and every later statement is still sent |
| RenderAndDeploy.SortPaths | scripts/render_and_deploy.py:84 | the result is ascending in string order and is a permutation of the found paths |
| RenderAndDeploy.SortedUnique | scripts/render_and_deploy.py:84 | two ascending lists with the same elements are equal |
| RenderAndDeploy.SortPathsIsTheSortedOrder | scripts/render_and_deploy.py:84 | any ascending permutation of the found paths equals SortPaths, so the processing order is the one `sorted` gives |
| RenderAndDeploy.Rendered | scripts/render_and_deploy.py:92-95 | the file is read first, and a read error gives ReadFailed without consulting render. Otherwise a render error gives RenderFailed, and if neither fails the result is the rendered text |
| RenderAndDeploy.Deploy | scripts/render_and_deploy.py:72-97 | the environment name is upper-cased and looked up first. An unknown name ends the run with that error, before any file is read or any command is sent. Otherwise the found files are processed in sorted order, and each file's rendered text is executed as ExecuteSql does, with the client seeing every earlier file's commands first. The run stops at the first file whose read or render raises: it reports that file's error, together with the runs of all earlier files. No later file is read. When no file fails there is exactly one run per found file |

## Left out

- YAML parsing (line 21), and the error for a missing or unparseable `manifest.yml`: the manifest is an already-parsed value.
- Manifests that are not mappings (an empty document, `configurations:` with no value, or an environment bound to a scalar): the model types them out. In the source these raise `AttributeError` or `TypeError`, or fail later.
- Configuration values other than text, integers and booleans (floats, lists, nested mappings).
- Jinja rendering (`render_sql`, lines 28-31): a function parameter from the file text and the configuration to either the rendered text or the exception's message. Which templates fail and what they render to is not modelled.
- `subprocess.run` (lines 49-54), and its 120-second wall-clock timeout: the client parameter returns `TimedOut` in its place. Standard output is captured but never used, so it is not modelled.
- `glob.glob` and file reading (lines 84, 92-93): the list of found paths is an input. Reading is a function parameter giving either the text or the exception's message (a vanished file, a directory, undecodable bytes). Paths are assumed to have been found by the glob, and an exception is reported as a `Failure` rather than as a traceback and exit status.
- `argparse` (lines 67-70), including the `default` connection name: the environment and the connection are plain parameters.
- Banners and the printed configuration (lines 35-37, 75-77, 80-82, 85, 88-90, 99-101). The `description` argument of `execute_sql` is used only in a banner. The log is only the sequence of per-statement entries.
- Text.Upper, Text.UpperHasNoLower, Text.UpperEqualIff: `str.upper` is modelled on ASCII letters only. Other characters are left unchanged, whereas Python also maps non-ASCII letters (`é` to `É`) and can change the length (`ß` to `SS`). So in Python, names the model keeps apart, such as `é` and `É`, can share a key. The "only if" direction of `UpperEqualIff` holds for ASCII names only.
- The global `CONNECTION` (lines 16, 65, 73) is passed as an explicit parameter. Only the command (line 50) and the banner (line 76) read it. The parameter feeds the command, and banners are left out.
