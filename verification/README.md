# WPressForge, verified

WPressForge manages WordPress servers: a *panel* with a job queue, schedules, alerts and
accounts, and an *agent* on every server that creates sites, switches PHP versions, copies
databases and keeps its own record of the sites. This project models the parts of both whose
correctness does not show in one function body, and proves what they promise.

`dafny verify dfyconfig.toml` checks everything.

## What is modelled

| files | of the system |
|---|---|
| `Shell.dfy` | a POSIX shell lexer (POSIX.1-2017, Shell Command Language, sections 2.2 to 2.4), `shell_quote`, and the two pipelines that the agent builds with it |
| `Redact.dfy`, `RedactPieces.dfy`, `CommandLog.dfy` | the redaction of command lines in the agent's log, and what the log shows of those pipelines |
| `WpConfig.dfy` | the textual reader of `wp-config.php` |
| `Tokenize.dfy` | the tokenizer of the WP-CLI console |
| `Base32.dfy` | the Base32 codec of the TOTP secrets (RFC 4648 section 6), the truncation of RFC 4226 section 5.3 and the window of RFC 6238 section 5.2 |
| `Fingerprint.dfy`, `Bearer.dfy` | the certificate pin as printed, normalised and verified; the bearer check |
| `Jobs.dfy`, `Schedules.dfy`, `Panel.dfy`, `PanelSafety.dfy`, `PanelTables.dfy`, `Scheduler.dfy` | the job queue, the workers and the backup scheduler as a concurrent protocol with crashes and reboots |
| `Metrics.dfy` | the thinning of the metrics history |
| `Alerts.dfy` | the evaluation of the alert rules and the notifications |
| `Expiry.dfy`, `Idempotency.dfy` | lazily swept maps: the credential stash and the remembered request ids |
| `AgentStore.dfy` | the agent's record of its sites, on disk and in memory, and the allocation of uids |
| `SwitchPhp.dfy` | the PHP switch with a failure, a dropped request or a crash at any command |
| `Csrf.dfy` | form tokens and the two-factor challenge |
| `Teams.dfy` | invitations, registrations and role changes |
| `Text.dfy`, `Octets.dfy` | what is used of Rust's string functions and of its bitwise operators |

Code that computes by expressions is functions; loops over local variables are methods with
invariants, proved equal to a function about which the properties are then proved; tables, maps
and objects that are updated in place are classes. Concurrent parts are state machines: a SQL
statement or a command is one step, a run is any sequence of possible steps, and the theorems are
about every state that a run reaches.

## Assumptions

- A SQL statement, a command or a file operation that reports an error has had no effect, except
  that a temporary file may be written in part. Renaming a file is atomic. A list that cannot be
  read is empty where the code says so.
- Clocks do not go back. Times are integers: seconds, and minutes for the interval of a schedule.
- Random tokens do not repeat. A MAC is an arbitrary function to 32 bytes; where a lemma says that a
  token is *rejected*, it assumes that the MAC tells the two payloads in question apart.
- The JSON form of the store is an arbitrary pair of functions of which the second undoes the first.
- Text is a sequence of Unicode characters, except where bytes are compared.

## Where the code and its promises differ

- `wpconfig.rs` says that commented-out lines are skipped. Only lines that start with `//`, `#` or
  `*` are; a definition behind `/* ` wins over all later ones. `CommentedOutDefinition` gives the
  exact condition.
- `base32_decode` casts each character to a byte, so characters above U+00FF can pass for letters.
  `WideCharacterCountsAsItsLowByte` says which.
- Replayed request ids are said not to be executed twice within the window. Requests with one id
  are *accepted* ten minutes apart, but an execution that had to wait for the permit can start
  less than ten minutes before the next one: `ExecutedApart` gives the bound, `WindowIffNoWait` the
  exact condition.
- The log redactor finds `-p'` behind a user name such as `shop-p` as well, so that the closing
  quote of `--user='shop-p'` opens a secret: the flag behind it is hidden and the password logged.
  And a password with a quote is logged from its first quote on. `MaskHidesSecretIff` gives the
  exact condition for any command, `CloneLogHidesSourcePasswordIff` and its neighbours for those
  of the agent.
- A definition behind a guard, `defined('DB_NAME') or define('DB_NAME', 'shop');`, is read as a
  database called `DB_NAME`, because the first occurrence of the constant counts. `DefineLine`
  says what is read behind any text.
- After a crash the store may name a container that the PHP switch has removed, and after a dropped
  request the memory may. `ServedAfterCrashIff` and `ServedAfterDropIff` say exactly when.
- A store whose file cannot be read starts empty and replaces the file at the next flush.
  `ReopenFindsLastFlush` states when it finds the last flush.
- Role changes are made from a strictly higher role when requests do not overlap, and by owners
  always; an admin who is demoted meanwhile still completes the request
  (`OvertakenAdminIsNotStrict`), and so does one whose target was made an admin
  (`PromotedTargetIsNotBelow`). `AdminsChangeIsStrictIff` and `RemovalIsStrictIff` give the exact
  conditions.
- Container names of different sites collide if the versions are the same and the domains differ
  only in dots and dashes (`NamesCollideIff`). Docker refuses a name that is taken, so a switch
  never makes two records name one container; where two do already, `SwitchKeepsServedIff` says
  exactly when one of them loses it.
- A pin with a character of several bytes can make the TLS verifier panic; `PanicsIff` says when,
  `EuroPanics` is such a pin. The panel's form stores none.
- Empty quoted arguments of the console are dropped, so lists with an empty argument cannot be
  typed (`RepresentableIff`).

## Model

| member | source | states |
|---|---|---|
| Shell.QuoteIsLiteral | crates/agent/src/exec.rs:322-324 | read by the shell in the unquoted state, a quoted value appends exactly its characters, all quoted, to the current word and leaves the shell unquoted |
| Shell.QuoteIsOneWordIffNoNul | crates/agent/src/exec.rs:322-324 | the quoted value is one word with exactly that text if and only if the value has no NUL |
| Shell.PipelineMeansItsItems | crates/agent/src/exec.rs:318-324 | every pipeline written as fixed words and quoted values, each command beginning with neither an assignment nor a reserved word, is parsed to the same commands with the values as literal text |
| Shell.HostOnly | crates/agent/src/ops/wpconfig.rs:26-28 | the part of the host in front of its first colon, or all of it |
| Shell.ClonePipelineIsFixed | crates/agent/src/ops/site.rs:789-807 | for all credentials the clone pipeline is two commands, `mysqldump` into `mysql`, whose arguments are those of the quoted items, all literal |
| Shell.RemoteDumpIsFixed | crates/agent/src/ops/import.rs:274-282 | the command that the remote shell runs during an import is one command with the credentials as literal arguments |
| Shell.CloneWithPort | crates/agent/src/ops/wpconfig.rs:26-33 | with a source host `a:p`, no colon in `a`, the clone runs exactly `mysqldump … --host=a --port=p --user=… --password=… name` and `mysql --host=… --user=… --password=… name`, for all credentials without NUL |
| Shell.CloneWithoutPort | crates/agent/src/ops/site.rs:789-807 | with a host without a colon it runs the same without a `--port=` argument |
| Shell.RemoteDumpRuns | crates/agent/src/ops/import.rs:274-282 | the remote shell runs exactly `mysqldump --host=… --port=… --user=… --password=… --single-transaction --quick name` |
| Redact.NextMarker | crates/agent/src/exec.rs:159-165 | finds the earliest marker of a text |
| Redact.MaskInlineSecrets | crates/agent/src/exec.rs:153-190 | the scanning loop terminates and computes the function the lemmas below are about |
| Redact.MaskHidesExactlyTheSecrets | crates/agent/src/exec.rs:150-190 | two texts are masked alike if and only if they have the same clear text around their secrets |
| Redact.SecretTextIsIrrelevant | crates/agent/src/exec.rs:174-186 | quote-free text between an active marker and its closing quote has no influence on the output |
| Redact.MaskIsIdempotent | crates/agent/src/exec.rs:153-190 | masking a masked text changes nothing |
| Redact.RedactCommand | crates/agent/src/exec.rs:112-148 | the loop over the arguments produces the log line that the lemmas below are about |
| Redact.LogIgnoresSecrets | crates/agent/src/exec.rs:112-148 | command lines that differ in secrets only, in any of the three forms, are logged alike |
| Redact.AgentLogHidesExactlySecrets | crates/agent/src/exec.rs:100-148 | with the agent's flags and markers two command lines give the same log line if and only if they differ in secrets only |
| Redact.FlagValuesAreHidden | crates/agent/src/exec.rs:100-148 | the value of each of the eight named flags, behind it or behind an equals sign, has no influence on the log line |
| Redact.MarkedValuesAreHidden | crates/agent/src/exec.rs:150-190 | nor has quote-free text behind each of the four named markers |
| Redact.OtherArgumentsAreShown | crates/agent/src/exec.rs:112-148 | an argument whose name is none of the flags and which contains none of the markers is logged as it is |
| RedactPieces.MaskSplitsAtQuotes | crates/agent/src/exec.rs:150-190 | for every text: split at its quotes, exactly the pieces behind a piece that ends in a marker are replaced by stars |
| CommandLog.MaskHidesSecretIff | crates/agent/src/exec.rs:150-190 | in a command built from plain text and quoted values of any content, a value behind a marker is kept out of the mask exactly up to its first quote, and exactly if the value in front of the marker does not end like a marker |
| CommandLog.MaskIsStarredIff | crates/agent/src/exec.rs:150-190 | such a command is masked as itself with stars for its secrets if and only if no secret has a quote and no piece of any other value ends like a marker |
| CommandLog.CloneLineShows | crates/agent/src/exec.rs:112-148 | a clone is logged as `sh`, `-c` and the masked pipeline |
| CommandLog.CloneLogHidesSourcePasswordIff | crates/agent/src/ops/site.rs:795-815 | for all credentials the log lines of a clone tell two source passwords apart, unless they are alike from their first quotes on and the source's user name does not end like a marker |
| CommandLog.CloneLogHidesTargetPasswordIff | crates/agent/src/ops/site.rs:795-815 | the same for the target's password and user name |
| CommandLog.RemoteDumpLogHidesPasswordIff | crates/agent/src/ops/import.rs:270-289 | the same for the dump of an import, behind any arguments of `ssh` whose last is no flag |
| CommandLog.TargetIsNoFlag | crates/agent/src/ops/import.rs:203 | the target `user@host` is none |
| CommandLog.QuoteFreePasswordsAreHiddenIff | crates/agent/src/exec.rs:150-190 | a clone's log line does not depend on a quote-free source password if and only if the user name does not end like a marker |
| CommandLog.UserShowsPassword | crates/agent/src/exec.rs:153-190 | with the user name `shop-p` every password can be told from the log line |
| CommandLog.CloneLogIsStarredIff | crates/agent/src/ops/site.rs:795-815 | the logged entry of a clone is the pipeline itself with stars for both passwords if and only if neither password has a quote and no piece of the other credentials ends like a marker |
| CommandLog.RemoteDumpLogIsStarredIff | crates/agent/src/ops/import.rs:270-289 | the same for the dump of an import |
| WpConfig.FirstQuoted | crates/agent/src/ops/wpconfig.rs:133-154 | the loop reads the first quoted string with its escapes |
| WpConfig.UnquoteEscaped | crates/agent/src/ops/wpconfig.rs:133-154 | reading undoes escaping of quote and backslash |
| WpConfig.FindDefine | crates/agent/src/ops/wpconfig.rs:95-115 | gives the value of the first line that defines the constant |
| WpConfig.FindTablePrefix | crates/agent/src/ops/wpconfig.rs:118-130 | gives what the first `$table_prefix` line says, which ends the search |
| WpConfig.ParseDbConfig | crates/agent/src/ops/wpconfig.rs:78-92 | name and user are required, the rest has defaults |
| WpConfig.DefineLine | crates/agent/src/ops/wpconfig.rs:95-115 | what a `define` in any spacing and quoting, behind any text, gives: nothing if its line starts with `//`, `#` or `*`, its value if the text in front does not name the constant, and exactly what otherwise |
| WpConfig.GuardedDefine | crates/agent/src/ops/wpconfig.rs:101-112 | behind the guard `defined('NAME') or` the constant's own name is taken for its value |
| WpConfig.DefinesNothingElse | crates/agent/src/ops/wpconfig.rs:101-112 | a definition gives no value to another constant that is not named in front of it or in its name, provided its value has no quotes or does not contain the other name |
| WpConfig.PrefixLine | crates/agent/src/ops/wpconfig.rs:118-130 | a `$table_prefix` line in any spacing and quoting gives its value |
| WpConfig.CommentsAreIgnored | crates/agent/src/ops/wpconfig.rs:95-126 | a line whose trimmed text starts with `//`, `#` or `*` does not change the result, at any line boundary of any file |
| WpConfig.PrefixIgnoresOtherLines | crates/agent/src/ops/wpconfig.rs:118-126 | nor does a line that starts with `//` or `#`, or not with `$table_prefix`, change the table prefix |
| WpConfig.CommentedOutDefinition | crates/agent/src/ops/wpconfig.rs:76-100 | a commented-out definition anywhere in a file is passed over if and only if its line starts with `//`, `#` or `*`; otherwise it wins over all later lines |
| WpConfig.RenderedIsRecovered | crates/agent/src/ops/wpconfig.rs:73-154 | a configuration written in any order and style, behind any text that names none of the constants, among lines that set nothing, with either line end, is recovered exactly, with the defaults for what is not written, and refused exactly if name or user is not written |
| Tokenize.Tokenize | crates/panel/src/web/sites.rs:1445-1489 | the two loops compute the outcome the lemmas below are about |
| Tokenize.TokensAreTheLine | crates/panel/src/web/sites.rs:1445-1489 | exactly which lines are accepted; the tokens, none empty, are together the line without active quotes and unquoted whitespace |
| Tokenize.TokensOfConcat | crates/panel/src/web/sites.rs:1461-1478 | unquoted whitespace separates: tokens of two balanced lines side by side are those of the first and then those of the second |
| Tokenize.RepresentableIff | crates/panel/src/web/sites.rs:1445-1489 | a list of tokens has a line if and only if it is not empty, no token is empty and none has a refused character |
| Tokenize.ConsoleTokens | crates/panel/src/web/sites.rs:1450-1455 | the same with the console's refused characters: semicolon, bar, ampersand, backtick, dollar, parentheses, angle brackets and line ends |
| Tokenize.RefusedAs | crates/panel/src/web/sites.rs:1450-1487 | a refused line is told its first refused character in the order of the list; else that a quote is open; else that it is empty |
| Base32.Base32Encode | crates/panel/src/totp.rs:9-25 | with a 32-bit accumulator that is never masked, the loops of shifts and masks write the letters of the 5-bit groups of the data |
| Base32.LetterAt | crates/panel/src/totp.rs:9-25 | the k-th letter stands for bits 5k to 5k+4 of the zero-filled bit string |
| Base32.PaddedIsFilled | crates/panel/src/totp.rs:21-23 | the bit string is filled with at most four zeros at its end |
| Base32.LettersLength | crates/panel/src/totp.rs:9-25 | the number of letters is the number of bits divided by five, rounded up |
| Base32.Base32Decode | crates/panel/src/totp.rs:27-46 | with a masked 32-bit accumulator, the loop gives the complete bytes of the symbols' bits, or nothing if a symbol is unknown |
| Base32.RoundTrip | crates/panel/src/totp.rs:9-46 | decoding undoes encoding in any alphabet of 32 different upper-case letters and digits |
| Base32.DecodeUndoesEncode | crates/panel/src/totp.rs:9-46 | in the alphabet of RFC 4648, decoding the encoding of any bytes gives them back |
| Base32.DecodeIgnoresLayout | crates/panel/src/totp.rs:31-35 | ASCII case, whitespace and `=` make no difference |
| Base32.PaddingAnywhereIsIgnored | crates/panel/src/totp.rs:31-35 | `=` or whitespace inserted anywhere makes no difference |
| Base32.CaseIsIgnored | crates/panel/src/totp.rs:31-36 | nor does a lower-case letter in place of its capital |
| Base32.RefusedIff | crates/panel/src/totp.rs:36 | a text is refused if and only if it has a character, neither `=` nor whitespace, outside the alphabet |
| Base32.WideCharacterCountsAsItsLowByte | crates/panel/src/totp.rs:36 | a character beyond ASCII counts as the letter its low byte is, and is refused if that is none |
| Base32.CrossedLPassesForA | crates/panel/src/totp.rs:36 | `Ł`, U+0141, passes for an `A` |
| Base32.GenerateCode | crates/panel/src/totp.rs:54-64 | the code is below a million and the bytes put together by shifts and ORs are the dynamic truncation of RFC 4226: the 31 low bits of the four bytes at the named offset |
| Base32.VerifyCode | crates/panel/src/totp.rs:66-82 | accepted if and only if the code belongs to a time step in the window |
| Base32.CodeLifetime | crates/panel/src/totp.rs:70-81 | exactly when a code shown at a given time is looked for |
| Fingerprint.AcceptedIffSpelled | crates/panel/src/web/servers.rs:344-371 | the form stores the printed form of a digest if and only if the cleaned text spells it in either case |
| Fingerprint.AcceptedIffForm | crates/panel/src/web/servers.rs:344-371 | for every text: it is stored as the digest's printed form if and only if, trimmed, it is `sha256:` any number of times, `SHA256:` any number of times, and then only hexadecimal digits, colons, spaces and dashes, of which the digits are the digest in either case |
| Fingerprint.PrintedIsNormal | crates/agent/src/tls.rs:122-133 | the printed form is a fixed point of the normalisation |
| Fingerprint.DecodePin | crates/panel/src/agent.rs:187-198 | the buffer is filled with the bytes of the pin, or a pair is no number or cuts a character in two |
| Fingerprint.Difference | crates/panel/src/agent.rs:200-206 | the OR of the XORs is zero if and only if the two arrays are equal |
| Octets.XorAddsWithoutCarry | crates/panel/src/agent.rs:200-203 | XOR is the sum without carries, AND the carries, and OR both together, for all numbers |
| Fingerprint.VerifyServerCert | crates/panel/src/agent.rs:180-210 | the verdict on any Unicode pin and a certificate's digest, panics included |
| Fingerprint.VerifiedIff | crates/panel/src/agent.rs:180-211 | a pin is accepted if and only if, lower-cased and without prefix and colons, it is 64 ASCII characters that spell the digest |
| Fingerprint.VerifiedIffPairs | crates/panel/src/agent.rs:187-193 | that is: each of its 32 pairs is the byte in either case or, for a byte below 16, a plus sign and its digit |
| Fingerprint.PanicsIff | crates/panel/src/agent.rs:180-198 | the verifier panics if and only if the pin, lower-cased and without prefix and colons, has 64 bytes and its first pair of bytes that is no number ends inside a character |
| Fingerprint.EuroPanics | crates/panel/src/agent.rs:187-193 | it does for a euro sign and sixty-one digits |
| Fingerprint.PrintedPinVerifies | crates/panel/src/agent.rs:180-211 | a printed pin is accepted exactly for the digest it was printed for |
| Fingerprint.AnyCaseVerifies | crates/panel/src/agent.rs:180-184 | and so is every mixture of capitals and small letters of it, those of the prefix included |
| Fingerprint.StoredPinVerifies | crates/panel/src/web/servers.rs:344-371 | for every accepted spelling the stored pin is normal, and verifies a certificate if and only if it is that certificate's printed fingerprint |
| Bearer.AuthorisedIff | crates/agent/src/api.rs:87-105 | exactly the configured token behind the scheme is accepted |
| Jobs.OldestQueued | crates/panel/src/db/jobs.rs:91-92 | the lowest id with status queued |
| Jobs.JobsTable.Enqueue | crates/panel/src/db/jobs.rs:65-86 | appends a queued job without progress, start or end |
| Jobs.JobsTable.ClaimNext | crates/panel/src/db/jobs.rs:89-103 | the queued job with the lowest id runs from now on, with all else of it and all other rows as before |
| Jobs.JobsTable.HasActive | crates/panel/src/db/jobs.rs:160-169 | true if and only if a queued or running job of that kind exists for the site |
| Jobs.JobsTable.Progress | crates/panel/src/db/jobs.rs:171-179 | one row says the progress; the rest of it and all other rows are as before |
| Jobs.JobsTable.FinishJob | crates/panel/src/db/jobs.rs:181-205 | one row has its outcome, the time and 100 or 0 as progress; the rest of it and all other rows are as before |
| Jobs.JobsTable.RequeueOrphans | crates/panel/src/db/jobs.rs:208-218 | fails exactly the running jobs |
| PanelSafety.JobsAreClaimedInOrder | crates/panel/src/db/jobs.rs:89-103 | in every run the n-th claim is of the n-th job, and a job has left the queue if and only if it was claimed |
| PanelSafety.WorkersShareNoJob | crates/panel/src/jobs.rs:124-166 | no two workers execute the same job, and what they execute is marked running |
| PanelSafety.FinishedStaysFinished | crates/panel/src/jobs.rs:281-405 | after any further run a finished job has its outcome still, the one that the next row says; only the deletion of its site touches the row |
| PanelSafety.JobsEndAsTheyWereEnded | crates/panel/src/jobs.rs:281-405 | in every run a job is succeeded or failed if and only if an event of the run ended it, and says what the last one did: succeeded, 100 and no error for a completion with success by the worker executing it, failed with its error for one without success or for a written fallback, failed as interrupted for a boot that found it running, each with the time |
| PanelSafety.ProgressIsTheLastWritten | crates/panel/src/jobs.rs:370-405 | in every run a job's progress is the last that its worker wrote, `index * 100 / steps`, or that of its end |
| PanelSafety.ClaimTakesTheOldest | crates/panel/src/jobs.rs:124-166 | a claim takes the queued job with the lowest id, which runs from now on, and the worker executes it if it could be read back |
| PanelTables.JobsStartWhenClaimed | crates/panel/src/db/jobs.rs:89-103 | in every run a job's start is the time of the claim that found it the oldest in the queue, and nothing else starts one |
| PanelTables.JobsAreTheRequests | crates/panel/src/db/jobs.rs:65-86 | in every run the jobs are what users and the scheduler asked for, one row for each request in order, with its kind and actor, and its site unless that is gone |
| PanelTables.WorkersAreWhereTheyWereLeft | crates/panel/src/jobs.rs:124-166 | in every run a worker is at the job that it last took and read back, until it completes it; a failed run or an unwritten progress makes it give the job up |
| PanelSafety.NothingRunsAfterBoot | crates/panel/src/db/jobs.rs:207-218 | right after a boot nothing is running, what was running failed, all else is as before |
| PanelTables.UpSinceTheLastBoot | crates/panel/src/main.rs:53-74 | in every run the panel is up if and only if the last boot is not followed by a crash, and its clock shows the start plus the time waited |
| PanelTables.OnlyABootStartsIt | crates/panel/src/main.rs:53-74 | while it is not, nothing happens but that time goes on and that it is booted |
| PanelSafety.ProgressIsFullForSucceeded | crates/panel/src/db/jobs.rs:171-205 | progress is at most 100, and 100 exactly for succeeded jobs |
| PanelSafety.OneScheduledBackup | crates/panel/src/scheduler.rs:27-79 | in every state each site has at most one active backup made by the scheduler |
| PanelSafety.ScheduledBackupsAreSpaced | crates/panel/src/scheduler.rs:60-69 | the j-th and the i-th backup of a schedule whose interval is fixed and whose runs were recorded are at least j - i intervals apart |
| PanelTables.InsertionsAreSpaced | crates/panel/src/scheduler.rs:27-79 | the same in terms of the run alone: of the times of the scheduler's insertions for a schedule, in any run that neither changes its interval nor leaves an insertion unrecorded |
| PanelTables.HistoryIsOfTheRun | crates/panel/src/scheduler.rs:27-79 | the recorded times, the interval, and whether it was disturbed are what the events of the run say |
| PanelSafety.NextRunIsNear | crates/panel/src/scheduler.rs:60-69 | in every run the next run of an undisturbed schedule is at most its interval ahead |
| PanelTables.FailuresEndTheTick | crates/panel/src/scheduler.rs:16-25 | in every run the scheduler works on a list only if it was read since the last failure and the last crash |
| PanelTables.SchedulesAreAsLastWritten | crates/panel/src/db/schedules.rs:94-165 | in every run a schedule's row is what the last events wrote: no next run when it is made, a next run one interval behind each recording, interval and switch of the last change, gone when it or its site is deleted |
| PanelTables.SitesAreThoseMade | crates/panel/src/db/sites.rs:182-308 | in every run the sites are those made and not deleted since |
| PanelTables.ReferencesResolve | migrations/0001_init.sql:108-168 | in every run each site that a schedule or a job names exists |
| PanelTables.DeletedSiteIsGone | crates/panel/src/db/sites.rs:301-308 | deleting a site deletes exactly its schedules, empties the site of exactly its jobs, and changes nothing else |
| Schedules.SchedulesTable.DueRows | crates/panel/src/db/schedules.rs:55-65 | lists a row if and only if it is enabled and has no next run or one that is not in the future, each once |
| Schedules.SchedulesTable.Upsert | crates/panel/src/db/schedules.rs:94-140 | sets interval and switch of the site's schedule, whose next run stays, or inserts one without a next run; all other rows are as before |
| Schedules.SchedulesTable.MarkScheduled | crates/panel/src/db/schedules.rs:143-153 | the row of that id is next due exactly from the given time on, and every other row and field is as before |
| SchedulerTick.RunTick | crates/panel/src/scheduler.rs:27-79 | the loop over the due schedules, without interference, has the result the lemmas below are about |
| SchedulerTick.TickIsARun | crates/panel/src/scheduler.rs:27-79 | the uninterrupted tick is a run of the concurrent scheduler |
| SchedulerTick.TickServesAllDue | crates/panel/src/scheduler.rs:31-76 | afterwards every due site that exists has an active backup |
| SchedulerTick.DueScheduleIsServed | crates/panel/src/scheduler.rs:27-79 | after a tick at any time every enabled schedule without a next run, as a new one, or with one that has come has a queued or running backup of its site, if that exists |
| SchedulerTick.OnlyDueAreServed | crates/panel/src/scheduler.rs:31-58 | every job that a tick adds is a queued backup, by the scheduler, of the site of a listed schedule |
| SchedulerTick.ServedIsDueAfterInterval | crates/panel/src/scheduler.rs:60-69 | a schedule that is served has its next run one interval after now |
| SchedulerTick.TickIsIdempotent | crates/panel/src/scheduler.rs:32-35 | another tick over the same schedules does nothing |
| Metrics.History.Insert | crates/panel/src/db/metrics.rs:17-58 | adds one sample with a new id |
| Metrics.History.Downsample | crates/panel/src/db/metrics.rs:150-177 | young samples stay, every bucket keeps a sample that is no later, at most one old sample is left in each, and nothing is changed or added |
| Metrics.History.Cleanup | crates/panel/src/db/metrics.rs:136-147 | exactly the samples of the last days are left, unchanged, and the others are counted |
| Metrics.History.RemoveOwner | migrations/0004_monitoring.sql:3-23 | deleting a server or site removes exactly its samples |
| Metrics.IncrementalIsOneShot | crates/panel/src/db/metrics.rs:150-177 | any interleaving of inserts, downsamplings and deletions of owners followed by one more downsampling leaves what a single downsampling of everything inserted would leave; with cleanups in between, in every quarter of an hour that begins no earlier than any cleanup's limit |
| Metrics.FullIsWhatWasInserted | crates/panel/src/db/metrics.rs:17-58 | the table that was never thinned out holds exactly the samples of the run's insertions, each with its number and time, whose owner was not deleted since |
| Metrics.StepIsTheMethod | crates/panel/src/db/metrics.rs:136-177 | what each step of a run does to a row is what the table's methods do |
| Metrics.DownsampledKeeps | crates/panel/src/db/metrics.rs:149-162 | no bucket is emptied: for every sample the bucket keeps it or an earlier one |
| Metrics.DownsampleIsIdempotent | crates/panel/src/db/metrics.rs:150-177 | downsampling twice is downsampling once |
| Alerts.Notifications.OpenIfAbsent | crates/panel/src/db/notifications.rs:82-114 | adds an unresolved notification of the rule's severity unless one is open for the topic |
| Alerts.Notifications.ResolveRule | crates/panel/src/db/notifications.rs:117-129 | resolves all open notifications of the topic and nothing else |
| Alerts.Notifications.Resolve | crates/panel/src/db/notifications.rs:70-76 | one row is resolved now; the rest of it and all other rows are as before |
| Alerts.Evaluate | crates/panel/src/alerts.rs:30-123 | the four loops apply the verdicts of the rules in order |
| Alerts.OpenIffConditionHolds | crates/panel/src/alerts.rs:30-123 | after an evaluation a notification is open if and only if the condition of its rule holds, for every target the rule examines; of several schedules of a site the last one read counts |
| Alerts.OthersAreUntouched | crates/panel/src/alerts.rs:36-39 | the notifications of topics without a verdict are unchanged |
| Alerts.SecondEvaluationChangesNothing | crates/panel/src/db/notifications.rs:78-82 | applying the same verdicts again changes nothing, as long as those on one topic agree |
| Alerts.SameDataChangesNothing | crates/panel/src/alerts.rs:30-123 | so it is for an evaluation whose reads of one site agree |
| Alerts.NeverTwoOpen | crates/panel/src/db/notifications.rs:82-129 | in every run, with manual resolutions and failures anywhere, at most one notification is open for a rule and target |
| Alerts.EvaluationIsARun | crates/panel/src/db/notifications.rs:82-129 | an evaluation that nothing interrupts is a run of the single statements |
| Alerts.EvaluationKeepsOne | crates/panel/src/alerts.rs:30-123 | so after any run and a whole evaluation of any verdicts at most one notification is open for a rule and target |
| Expiry.LazyIsExact | crates/panel/src/credentials.rs:81-83 | whenever the map was last swept, a sweep leaves what exact expiry leaves |
| CredentialStash.EventsAreMethods | crates/panel/src/credentials.rs:36-69 | each event of a run does what the stash's method does, and every value given is on record |
| CredentialStash.Stash.Put | crates/panel/src/credentials.rs:36-49 | sweeps and stores |
| CredentialStash.Stash.Peek | crates/panel/src/credentials.rs:52-59 | sweeps and gives the owner's value |
| CredentialStash.Stash.Take | crates/panel/src/credentials.rs:62-69 | sweeps, gives the owner's value and removes it |
| CredentialStash.HandlesAreSafe | crates/panel/src/credentials.rs:1-10 | in every run a value is given to its owner only, before it expires only, and never again after it was taken |
| CredentialStash.HandlesAreLive | crates/panel/src/credentials.rs:51-69 | and it is given if and only if it was put, not taken, and is not too old |
| Idempotency.SeenMap.AlreadyHandled | crates/agent/src/api.rs:107-119 | sweeps, tells whether the id is there and stores it if not |
| Idempotency.DuplicateIffRecent | crates/agent/src/api.rs:64-67 | in every run a request is a duplicate if and only if its id was accepted less than ten minutes ago |
| Idempotency.AcceptedUnlessRecent | crates/agent/src/api.rs:64-69 | a request is accepted, once, and waits for the permit unless one with its id was accepted less than 600 seconds ago |
| Idempotency.OneAtATime | crates/agent/src/api.rs:69-71 | in every run nothing starts between the start of one execution and its end |
| Idempotency.RequestsAreAccountedFor | crates/agent/src/api.rs:64-71 | in every run each accepted request waits, was started once, or was dropped while it waited |
| Idempotency.AcceptedApart | crates/agent/src/api.rs:17-19 | requests with one id are accepted at least ten minutes apart |
| Idempotency.ExecutedApart | crates/agent/src/api.rs:64-71 | they start at least ten minutes apart, less the time the first waited for the permit |
| Idempotency.WindowIffNoWait | crates/agent/src/api.rs:64-71 | for all runs ten minutes between the starts are certain if and only if the first did not wait |
| AgentStore.Store.Open | crates/agent/src/store.rs:46-61 | the map of the file, or an empty one |
| AgentStore.Store.Put | crates/agent/src/store.rs:73-80 | changes the memory first and then flushes |
| AgentStore.Store.Remove | crates/agent/src/store.rs:82-85 | changes the memory first and then flushes |
| AgentStore.Store.Flush | crates/agent/src/store.rs:102-116 | writes the temporary file and renames it, or leaves the file as it was |
| AgentStore.Store.NextUid | crates/agent/src/store.rs:92-100 | terminates with the least unused uid from the base on, at most the base plus the number of sites |
| AgentStore.CrashIsAtomic | crates/agent/src/store.rs:102-116 | a flush is a write of any length followed by a rename: wherever it stops, the file holds the old map or the new one |
| AgentStore.OperationIsARun | crates/agent/src/store.rs:73-116 | what a method of the store does, with any outcome, is a run of the single steps: change the memory, write, rename, give up or crash |
| AgentStore.ReopenFindsLastFlush | crates/agent/src/store.rs:46-61 | in every run of single steps reopening finds the last completely flushed map if and only if the file can be read or that map is empty |
| AgentStore.UidsAreDistinct | crates/agent/src/ops/site.rs:22-36 | in every reachable store, in memory and on disk, different sites have different uids, all from the base on |
| AgentStore.ChangeKeepsUids | crates/agent/src/ops/import.rs:169-220 | creating, cloning, importing, resyncing, updating and deleting keep that |
| SwitchPhp.NamesCollideIff | crates/agent/src/ops/docker.rs:136-142 | container names are the same if and only if the version is and the domains differ in dots and dashes only |
| SwitchPhp.Agent.Switch | crates/agent/src/ops/site.rs:264-325 | the operation goes through the stages the lemmas below are about, with a failure possible at each command |
| SwitchPhp.SwitchKeepsServed | crates/agent/src/ops/site.rs:264-325 | however a switch ends, the container of the version in every record in memory exists, as long as no two records name one container, which it keeps true |
| SwitchPhp.SwitchKeepsServedIff | crates/agent/src/ops/site.rs:264-325 | with records that share containers: every record in memory names an existing container afterwards if and only if the switch does not get as far as removing a container that another record names |
| SwitchPhp.SharedContainerIsLost | crates/agent/src/ops/docker.rs:136-142 | the sites `a.b` and `a-b` of one version share a container, and switching one takes it from the other |
| SwitchPhp.RecordsAreServedIff | crates/agent/src/ops/site.rs:264-325 | over every run of switches, dropped requests and crashes the records in memory name existing containers after every event if and only if each drop and each crash is outside of the windows below |
| SwitchPhp.NeverWithoutContainer | crates/agent/src/ops/site.rs:262-263 | at every step every site has a container of some version |
| SwitchPhp.RemovedLast | crates/agent/src/ops/site.rs:294-321 | the old container is gone only after the new one was started and found healthy and Nginx was rewritten and reloaded |
| SwitchPhp.UnhealthyIsRemoved | crates/agent/src/ops/site.rs:294-307 | a new container that is found unhealthy is removed again, and records, file and containers are as before |
| SwitchPhp.ServedAfterCrashIff | crates/agent/src/ops/site.rs:316-323 | after a crash in any stage and a restart, the containers named on disk exist, as they did before, if and only if it was not between removing the old container and storing the record, or nothing on disk named that container |
| SwitchPhp.ServedAfterDropIff | crates/agent/src/ops/site.rs:306-323 | if the request is dropped in any stage, the containers named in memory exist if and only if it was not between removing the old container and changing the record |
| SwitchPhp.DroppedAfterRemoval | crates/agent/src/ops/site.rs:316-323 | one switch that is dropped right after the removal leaves its record without a container |
| SwitchPhp.FailedFlushExposes | crates/agent/src/store.rs:73-80 | a switch whose last flush fails leaves a file that names the removed container, while the memory is in order |
| SwitchPhp.RecordAfterCrashIff | crates/agent/src/ops/site.rs:264-325 | whatever the file says, a crash in any stage finds one of its records with its container if and only if the memory was just stored, or the container was there or was started by this switch, and was not removed by it: so an exposed record stays so until one of these |
| SwitchPhp.FileAfterCrashIff | crates/agent/src/store.rs:46-80 | the same for all records of the file |
| Csrf.AcceptedIff | crates/panel/src/csrf.rs:20-54 | the request is let through if and only if a session and a token are there and the token is for this session and of today or yesterday |
| Csrf.TokenLivesADay | crates/panel/src/csrf.rs:5-6 | a token is accepted for twenty-four hours, across midnight |
| Csrf.TokenDiesAfterTwo | crates/panel/src/csrf.rs:24-54 | and rejected from forty-eight hours on |
| Csrf.PayloadIsInjective | crates/panel/src/csrf.rs:56-61 | different sessions or days have different payloads |
| Csrf.ChallengeLifetime | crates/panel/src/web/pages.rs:281-296 | the challenge issued for any email gives that email back for three hundred seconds and nothing afterwards |
| Csrf.AcceptedIsSigned | crates/panel/src/web/pages.rs:281-296 | whatever is accepted carries an email and a recent time that were signed together |
| Csrf.ParseIntIff | crates/panel/src/web/pages.rs:290 | a text is read as the time `n` if and only if `n` has 64 bits and the text is its decimal form, with leading zeros and a plus sign allowed |
| Csrf.IntTextForm | crates/panel/src/csrf.rs:56-61 | the decimal form has a sign if and only if the number is negative, and no leading zero |
| Csrf.DayIsTruncated | crates/panel/src/csrf.rs:70-72 | days begin at multiples of 86400, and before 1970 they end there |
| Teams.ManagingNeedsRank | crates/panel/src/db/teams.rs:14-39 | nobody manages or makes an owner, and only owners manage or make admins |
| Teams.Team.Invite | crates/panel/src/web/users.rs:71-131 | who may invite whom to which role, and that the invitation expires 7 * 24 * 60 * 60 seconds later |
| Teams.Team.Register | crates/panel/src/web/users.rs:174-202 | answers `Done` if and only if the invitation exists, is unused and not yet expired, the password has eight characters and the email is free; then it makes the account with the invited role and marks the invitation used, and otherwise changes nothing |
| Teams.UsedInvitationIsRefused | crates/panel/src/db/teams.rs:240-260 | after a registration every later one with the same invitation is refused |
| Teams.InvitationLivesAWeek | crates/panel/src/db/teams.rs:240-260 | an invitation made at a time gives an account until 604800 seconds later, exclusively |
| Teams.Team.UpdateRole | crates/panel/src/web/users.rs:213-257 | who may give whom which role; the actor is strictly above the old and the new one |
| Teams.Team.Remove | crates/panel/src/web/users.rs:263-294 | who may remove whom; the account and exactly its invitations go, and all else is as before |
| Teams.InviteIsAStep | crates/panel/src/web/users.rs:71-131 | an invitation that nothing overtakes is a possible step of every run, with the effect of its handler |
| Teams.RegisterIsTwoSteps | crates/panel/src/web/users.rs:174-202 | so is a registration, as its two statements |
| Teams.UpdateIsAStep | crates/panel/src/web/users.rs:213-257 | and a change of a role |
| Teams.RemoveIsAStep | crates/panel/src/web/users.rs:263-294 | and a removal |
| Teams.OwnersNeverChange | crates/panel/src/web/users.rs:71-294 | in every run of overlapping requests with arbitrarily old reads the owners are the bootstrap accounts |
| Teams.AdminsComeFromOwners | crates/panel/src/web/users.rs:71-257 | and every admin was invited or promoted by an owner |
| Teams.OwnersChangesAreStrict | crates/panel/src/web/users.rs:230-245 | in every run a role change requested by an owner is made from strictly above the old and the new role |
| Teams.AdminsChangeIsStrictIff | crates/panel/src/web/users.rs:213-245 | one requested by an admin is so if and only if the admin is one still and the target was not made one, or the admin has become an operator and a viewer stays a viewer |
| Teams.RemovalIsStrictIff | crates/panel/src/web/users.rs:263-283 | the same for removals: those by owners always, those by admins exactly under such a condition |
| Teams.OvertakenAdminIsNotStrict | crates/panel/src/web/users.rs:213-245 | one requested by an admin need not be, if the admin is demoted meanwhile |
| Teams.PromotedTargetIsNotBelow | crates/panel/src/web/users.rs:213-283 | nor need a change or a removal be, if the target is made an admin meanwhile |

## Left out

- HTTP, TLS handshakes, Docker, Nginx templates, certbot, restic, rsync, SSH and SMTP: a command is a step that succeeds or fails.
- SQL text, migrations and the mapping of rows: a statement is an operation on the rows it names.
- HMAC, SHA-2, AES-GCM, Argon2 and random numbers: parameters.
- Unicode's lower case: a parameter that agrees with ASCII's on ASCII text.
- Commands that go on in the background after their request was dropped, beside those of the next one: a dropped operation stops between two commands here.
- A write of the agent's store that goes on in the background after its request was dropped, beside the next one: flushes are one at a time here.
- JSON payloads of jobs and operations, job steps and messages: they decide nothing that is proved here.
- Display code: templates, sparklines, message texts of notifications, durations.
- Expansions, assignments, reserved words, redirections, lists and here-documents of the shell: the model reports them as unsupported, and no command that the agent quotes needs them.
- Redact.SecretTextIsIrrelevant: does not cover inline secrets that contain a single quote, because the scanner ends them at that quote; `CommandLog.MaskHidesSecretIff` says what it shows of them.
- AgentStore.Store.NextUid: counts in unbounded numbers; the proved bound says that `u32` suffices as long as the base plus the number of sites does.
- Metrics.IncrementalIsOneShot: says nothing of buckets that a cleanup reached into, because what is left of them depends on when the cleanups ran.
- PanelSafety.ScheduledBackupsAreSpaced: says nothing of schedules whose interval was changed or for which a run was not recorded, because the next run is then computed from other data.
- The life cycle of a site through `SiteRecord::container_name`, which differs from the name the container is started with: health checks of start and create therefore ask for another container.
- Site grants, sessions, login throttling and the rate of two-factor attempts: single statements or single branches.
- Backup sizes, memory figures and other parsing of command output: one expression each.
