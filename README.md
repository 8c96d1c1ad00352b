# witr process diagnosis: file context and source detectors, in Dafny

This project models two pieces of decision logic of the witr process-diagnosis
tool and proves what they promise.

- **File-context evaluator** (`internal/proc/filecontext_linux.go`). It counts a
  process's open descriptors and reads its soft "Max open files" limit from the
  limits table (`getOpenFileCount`). It collects the device:inode identifiers of
  the locks the process owns from the global lock table (`getLockedFiles`). It
  reports the snapshot only when it is relevant (`GetFileContext`): some file
  is locked, or a positive limit is more than half used.
- **Source detectors** (`internal/source/shell.go`, `internal/source/cron.go`).
  `detectShell` and `detectCron` scan an ancestry chain, nearest ancestor
  first. Each returns a scored `Source` for the first process whose command
  matches.

Files:

- `wrappers.dfy`: module `Wrappers`, the `Option` type. `None` stands for a nil
  result and for a failed read.
- `model.dfy`: module `Model`, the value types `Process`, `SourceType`,
  `Source` and `FileContext`. Confidence is an exact `real`.
- `gostrings.dfy`: module `GoStrings`, the parts of Go's `strings` and
  `strconv` that the evaluator uses: `Split`, `Fields` (with `unicode.IsSpace`'s
  code points), `HasPrefix`, `Atoi` (sign, digits, 64-bit range) and `Itoa`.
- `proc.dfy`: module `Proc`, the evaluator. `GetOpenFileCount` and
  `GetLockedFiles` are methods with the source's loops. Each is proved against a
  specification function (`SoftLimit`, `LockedFiles`), and lemmas prove the
  source's promises about those functions. `GetFileContext` is a method whose
  postconditions give the relevance decision and the snapshot it returns.
- `detectors.dfy`: module `SourceDetectors`, the shell and cron detectors as
  recursive first-match functions, with lemmas.

The operating-system reads are inputs. The fd directory listing is an
`Option<nat>` holding the number of entries. The limits file and `/proc/locks`
are `Option<string>` holding the file text. `None` means the read failed.

Some facts about the code that shape the model:

- The code hard-codes the confidences 0.5 (shell) and 0.6 (cron). The model
  names them `ShellConfidence` and `CronConfidence`.
- `getLockedFiles` returns a slice in first-seen order, so the model uses a
  sequence and proves it holds no duplicates.
- `strings.Fields` splits the row "Max open files <soft> <hard> <unit>" into
  six fields, because the key itself is three words. Field index 3, which the
  code reads, is therefore the soft limit (`KeyFields`, `KeyRowSoftLimit`).
- `GetFileContext` computes the usage as a float64 percentage. The model
  computes the same quotient with exact real division, then proves it equals
  the integer rule `2*open > limit`.

## Model

| member | source | states |
|---|---|---|
| `Proc.RowSoftLimit` | internal/proc/filecontext_linux.go:53-58 | The limit one key row gives lies in the 64-bit range. A row with fewer than four fields gives 0. A row with at least four fields whose field 3 parses gives that value, and a non-zero limit always comes from such a field. |
| `Proc.LinesSoftLimit` | internal/proc/filecontext_linux.go:49-62 | The limit read from the lines of a limits table lies in the 64-bit range. A non-zero limit comes from some line that starts with "Max open files". |
| `Proc.SoftLimit` | internal/proc/filecontext_linux.go:47-63 | The limit read from the text of a limits table lies in the 64-bit range. |
| `Proc.GetOpenFileCount` | internal/proc/filecontext_linux.go:39-66 | An unreadable fd directory gives (0, 0) and the limits text is not consulted. Otherwise the open count is the number of fd entries. The limit is 0 when the limits file is unreadable, and otherwise the `SoftLimit` of its text. |
| `Proc.FirstKeyLine` | internal/proc/filecontext_linux.go:50-51 | Finds the first line that starts with "Max open files". There is none exactly when no line has that prefix. If one is found, no earlier line has the prefix. |
| `Proc.FirstKeyRowDecides` | internal/proc/filecontext_linux.go:50-61 | Only the first key row decides the limit. The loop stops there even when that row yields nothing and a later key row would yield a limit. |
| `Proc.NoKeyRowNoLimit` | internal/proc/filecontext_linux.go:46-63 | A limits table without a "Max open files" row gives limit 0. |
| `Proc.ShortKeyRowNoLimit` | internal/proc/filecontext_linux.go:54-59 | A key row with fewer than four fields gives limit 0. |
| `Proc.KeyFields` | internal/proc/filecontext_linux.go:52-55 | The key "Max open files" is the three fields "Max", "open" and "files", so the soft limit is field index 3. |
| `Proc.KeyRowSoftLimit` | internal/proc/filecontext_linux.go:52-58 | For any key row of the form "Max open files <soft> <hard> <unit>" with any white-space padding, the fields are exactly those six words. The limit is the parsed soft field, or 0 when the soft field does not parse. |
| `Proc.KeyRowExample` | internal/proc/filecontext_linux.go:52-57 | The row "Max open files   1024  524288  files" gives soft limit 1024. |
| `Proc.UnlimitedRowExample` | internal/proc/filecontext_linux.go:56-58 | A soft field of "unlimited" fails to parse, so the limit stays 0. |
| `Proc.RowQualifies` | internal/proc/filecontext_linux.go:80-96 | A row is attributed only to a pid text that is a single non-empty field and not the sentinel "-1". |
| `Proc.RowDevice` | internal/proc/filecontext_linux.go:91 | The device:inode identifier of a row is one non-empty field without white space. |
| `Proc.LockIds` | internal/proc/filecontext_linux.go:79-97 | The rows contribute at most one identifier each, and every identifier is a non-empty field without white space. |
| `Proc.Dedup` | internal/proc/filecontext_linux.go:98-100 | The contains-then-append step never lengthens its input and keeps only elements of it. |
| `Proc.LockedFiles` | internal/proc/filecontext_linux.go:69-105 | There are at most as many locked files as lines in the lock table, and each is a non-empty field without white space. |
| `Proc.GetLockedFiles` | internal/proc/filecontext_linux.go:69-105 | The one-pass loop with its contains-check produces exactly `LockedFiles`. This is the deduplicated device fields of the attributed rows. An unreadable lock table gives an empty result. |
| `Proc.LockIdsMembers` | internal/proc/filecontext_linux.go:84-97 | An identifier is collected exactly when some row is attributed to the pid and carries that identifier in field 5. A row is attributed when it is non-empty, has at least 8 fields, and field 4 equals the pid text and is not "-1". |
| `Proc.LockedFilesMembers` | internal/proc/filecontext_linux.go:77-101 | Soundness and completeness. Every listed identifier is field 5 of a row attributed to `Itoa(pid)`, and every such row's field 5 is listed. |
| `Proc.LockedFilesNoDuplicates` | internal/proc/filecontext_linux.go:98-100 | The result never lists an identifier twice. |
| `Proc.LockedFilesFirstSeenOrder` | internal/proc/filecontext_linux.go:79-101 | Identifiers appear in the order of their first attributed rows. If f is listed before g, then every attributed row carrying g comes after some attributed row carrying f. |
| `Proc.LockedFilesSentinelPid` | internal/proc/filecontext_linux.go:96 | For pid -1 the result is always empty, because the pid text then equals the sentinel "-1". |
| `Proc.ShortRowIgnored` | internal/proc/filecontext_linux.go:80-87 | Empty rows and rows with fewer than 8 fields contribute nothing. Removing one anywhere in the table leaves the result unchanged. |
| `Proc.SentinelOwnsNothing` | internal/proc/filecontext_linux.go:96 | No row is attributed to the pid text "-1". |
| `Proc.LockIdsAppend` | internal/proc/filecontext_linux.go:79-101 | Rows are judged one at a time. The identifiers collected from two tables placed end to end are those of the first table followed by those of the second. |
| `Proc.DedupMembers` | internal/proc/filecontext_linux.go:98-100 | The contains-then-append step keeps exactly the elements it is given. |
| `Proc.DedupNoDuplicates` | internal/proc/filecontext_linux.go:98-100 | The contains-then-append step never appends an element twice. |
| `Proc.WatchedDirs` | internal/proc/filecontext_linux.go:109-112 | getWatchedDirs always returns an empty list. |
| `Proc.UsagePercent` | internal/proc/filecontext_linux.go:27 | The usage percentage is never negative, and at most 100 when the open count does not exceed the limit. |
| `Proc.IsRelevant` | internal/proc/filecontext_linux.go:23-33 | A relevant snapshot lists a locked file, or has a positive limit and a positive open count. |
| `Proc.UsageOverHalf` | internal/proc/filecontext_linux.go:26-28 | With a positive limit, usage is strictly over 50% exactly when `2*open > limit`. |
| `Proc.RelevanceInIntegers` | internal/proc/filecontext_linux.go:23-33 | The relevance rule is: a locked file is listed, or `limit > 0`, `open > 0` and `2*open > limit`. Both directions are proved. |
| `Proc.RelevanceBoundaries` | internal/proc/filecontext_linux.go:23-33 | 51 open of 100 is reported. Exactly 50% is not. A zero limit never is. A held lock is reported even at 0% usage. |
| `Proc.Snapshot` | internal/proc/filecontext_linux.go:19-22 | The context built from the reads. A failed fd read gives open count 0 and limit 0. The limit is `SoftLimit` of the limits text only when both reads succeeded, and 0 otherwise. The locked files hold no duplicates and are empty when the lock table is unreadable. The watched directories are empty. |
| `Proc.GetFileContext` | internal/proc/filecontext_linux.go:17-34 | A context is returned exactly when a locked file is listed, or when limit > 0, open > 0 and 2*open > limit; otherwise None. A returned context holds exactly the computed open count, limit and locked files with no duplicates, and an empty list of watched directories. |
| `GoStrings.Split` | internal/proc/filecontext_linux.go:49 | strings.Split on "\n" always gives at least one piece, and no piece contains a newline. |
| `GoStrings.JoinSplit` | internal/proc/filecontext_linux.go:49 | Joining the pieces of a split with the separator gives back the original text. |
| `GoStrings.SplitNoSeparator` | internal/proc/filecontext_linux.go:79 | Text without a newline is one line. |
| `GoStrings.IsSpace` | internal/proc/filecontext_linux.go:53 | The white space that `strings.Fields` splits on includes space, tab, newline and carriage return, and never a digit or a sign. |
| `GoStrings.HasPrefix` | internal/proc/filecontext_linux.go:51 | `strings.HasPrefix(s, p)` holds exactly when s is p followed by the rest of s. |
| `GoStrings.Fields` | internal/proc/filecontext_linux.go:53 | strings.Fields gives non-empty fields that contain no white space. |
| `GoStrings.FieldsSkipSpace` | internal/proc/filecontext_linux.go:84 | Leading white space of any length does not change the fields. |
| `GoStrings.FieldsWord` | internal/proc/filecontext_linux.go:84 | A word followed by white space, or by nothing, is the next field. |
| `GoStrings.FieldsAllSpace` | internal/proc/filecontext_linux.go:80-87 | A row made only of white space has no fields. |
| `GoStrings.Atoi` | internal/proc/filecontext_linux.go:56 | strconv.Atoi succeeds only on an optional sign followed by one or more digits, with a value inside the 64-bit int range. The value is the decimal value of the digits, negated after a '-'. |
| `GoStrings.AtoiDigits` | internal/proc/filecontext_linux.go:56 | A digit string whose value is at most 2^63-1 parses, bare or after '+', to that value. After '-' it parses to the negated value whenever that is at least -2^63. |
| `GoStrings.AtoiRejectsNonDigit` | internal/proc/filecontext_linux.go:56-58 | A non-digit after the first character, as in "1x" or "unlimited", makes the parse fail. |
| `GoStrings.DecimalValueLeadingZero` | internal/proc/filecontext_linux.go:56 | A leading zero does not change the value, so "007" parses to 7. |
| `GoStrings.Itoa` | internal/proc/filecontext_linux.go:77 | strconv.Itoa gives a non-empty text that starts with '-' exactly for negative numbers, and is otherwise all digits. |
| `GoStrings.ItoaCanonical` | internal/proc/filecontext_linux.go:77 | The Itoa text is canonical: no leading zero except in "0" itself, and none after the '-'. So a pid field "0042" is never the pid text of 42. |
| `GoStrings.AtoiItoa` | internal/proc/filecontext_linux.go:77 | Parsing the Itoa text of any 64-bit int gives that int back. |
| `SourceDetectors.DetectShell` | internal/source/shell.go:13-24 | Returns None exactly when no ancestry entry's command is in {bash, zsh, sh, fish}. A result always has type Shell and confidence 0.5, which lies in [0, 1]. |
| `SourceDetectors.DetectShellFirstMatch` | internal/source/shell.go:14-20 | On a match, the name is the command of the first, nearest, shell entry, and every earlier entry's command is outside the set. |
| `SourceDetectors.DetectShellAppend` | internal/source/shell.go:14-16 | Entries after the first match do not matter. Appending to a chain that already matches changes nothing. |
| `SourceDetectors.DetectShellIgnoresPids` | internal/source/shell.go:15 | Only the commands matter. Two chains with the same commands give the same result whatever their PIDs. |
| `SourceDetectors.DetectShellExample` | internal/source/shell.go:14-20 | Ancestry [bash, systemd] gives Source{Shell, "bash", 0.5}. |
| `SourceDetectors.DetectShellExactNames` | internal/source/shell.go:5-10 | Matching is exact key lookup, so "/bin/bash" and "bash5" are not shells. |
| `SourceDetectors.DetectCron` | internal/source/cron.go:5-16 | Returns a result exactly when some entry's command is exactly "cron" or "crond". The result is always Source{Cron, "cron", 0.6}, and 0.6 lies in [0, 1]. |
| `SourceDetectors.DetectCronAppend` | internal/source/cron.go:6-8 | Once a chain contains a cron entry, appending entries does not change the result. |
| `SourceDetectors.DetectCronIgnoresPids` | internal/source/cron.go:7 | Only the commands matter, not the PIDs. |
| `SourceDetectors.DetectCronCrond` | internal/source/cron.go:7-10 | A "crond" entry anywhere in the chain is reported under the name "cron". |

## Left out

- The operating-system reads (`os.ReadDir`, `os.ReadFile`) and the formatting of the `/proc/<pid>/...` paths are left out. They become inputs, and a failed read is `None`.
- The float64 percentage is replaced by exact real division. Rounding of float64 on very large counts is not modelled.
- Go's `int` is unbounded in the model, except that `Atoi` rejects values outside the 64-bit range, as Go does on a 64-bit platform. The 32-bit Linux targets, where `int` and the range of `Atoi` are 32 bits, are not modelled. The fd count is a `nat`.
- Strings are sequences of Unicode code points, while `string(limitsData)` in Go holds the file bytes unchanged. `strings.Split`, `strings.HasPrefix` and `==` compare bytes, which agrees with comparing code points on valid UTF-8. Only `strings.Fields` decodes the bytes as UTF-8 runes. Invalid UTF-8, which `strings.Fields` treats as non-space, is not modelled.
- The lock type is never examined (line 89 of `filecontext_linux.go` is commented out). So a FLOCK row whose pid field equals the pid text is attributed like any other, and the model does the same.
- The distinction between a nil slice and an empty slice is not modelled. Both are the empty sequence.
- The `//go:build linux` constraint and the `pkg/model` package are left out. `pkg/model` is not part of this model, so its types are rebuilt from how the code uses them.
- Only `detectShell` and `detectCron` of package `source` are modelled, each on its own. The code that calls them is not part of this model.
- Running the same evaluation twice on the same inputs always gives the same result, because every member here is a function of its inputs. No separate lemma states this.
