# iVnstat server: bandwidth monitor and report helpers, in Dafny

iVnstat is a small Go web server. It shows the traffic statistics that `vnstat`
keeps for each network interface. It can also run a background monitor that
executes a command (by default `shutdown`) once the current month's transfer
reaches a limit. This project models the parts of `server.go` that make
decisions:

- **The monitor** (`Monitor.MonitorUsage`): a loop that polls once per tick. It
  fires at the first tick whose poll parsed without error and reached the
  limit. It then runs the command once and stops for good. Running `vnstat` and
  decoding its XML are replaced by the sequence of records decoded at
  successive ticks. The infinite `for {}` loop is bounded by that sequence. The
  command that would run is returned, not executed.
- **The poll value** (`Monitor.TotalTransfer`): 0 when the report lists no
  month. Otherwise it is `strconv.Atoi` of the first month's `tx` text. Go's
  `Atoi` is modelled exactly for a 64-bit `int` (`Strconv.Atoi`). That covers
  the optional sign, ASCII digits only, `ErrSyntax` versus `ErrRange` in Go's
  order, and the signed 64-bit bounds.
- **The command line** (`Monitor.SplitCommand`): `strings.Fields`, with the
  first field as the executable and the rest as arguments.
- **The interface list** (`Interfaces.IfaceList`): `strings.TrimSpace` and then
  `strings.Split` on `"\n"`, with no filtering of the pieces.
- **The limit** (`Monitor.LimitBytes`): `nLimit*1024*1024` in Go's wrapping
  64-bit `int`. `Monitor.StartMonitor` models how `main` starts the monitor.
- **The record types** (`Records`): `Vnstat`, `Iface`, `TrafficType`,
  `MonthsType`, `DateTimeData` and the rest (server.go:21-83), as plain
  datatypes, one field per struct field.

The Go library functions the server calls are modelled from Go's documented
behaviour in `Strconv` and `Strings`. Their source is not part of this model.
They are `strconv.Atoi` (server.go:169), `strings.TrimSpace` (server.go:141),
`strings.Split` (server.go:142) and `strings.Fields` (server.go:175), with
white space as `unicode.IsSpace` defines it. `Strings.JoinWith` is not called
by the server: it is a helper used to state round trips and the exact effect
of splitting.

What the code does at the points a reader might expect otherwise:

- The poll reads only the first month's sent count (`tx`, server.go:168-169).
  It does not add the received count (`rx`).
- A poll that fails to parse never fires, whatever the limit (server.go:180).
  It is not counted as zero usage.
- A failed `vnstat` run gives empty output, which decodes to nothing and
  leaves the zero record (server.go:164-167). That record reads as 0
  (`Monitor.FailedReportReadsAsZero`), so it fires only for a limit of 0 or
  less.
- The interface list keeps blank entries, and empty output gives `[""]`
  (server.go:141-142).
- The limit is multiplied by 2^20 (server.go:208), while the `-l` flag text
  (server.go:201) and the log lines (server.go:187, 207) say GiB. The poll
  value is compared in whatever unit `vnstat`'s XML uses, and the log line at
  server.go:187 divides by 2^20 the same way, so the two are consistent with
  each other; the model does not interpret the unit.
- The conversion at server.go:208 wraps around silently. A `-l` of 2^43
  becomes the most negative `int`, so every poll that parses fires the
  action. Any multiple of 2^44 becomes 0, so a poll fires when it parses to a
  non-negative value or the report lists no month; a negative `tx` such as
  `-1` still does not fire (`Monitor.WrappedLimitFiresOnAnyParse`).

Files: `strconv.dfy`, `strings.dfy`, `records.dfy`, `monitor.dfy`,
`interfaces.dfy`.

## Model

| member | source | states |
|---|---|---|
| `Strconv.Atoi` | server.go:169 | A successful parse always yields a value within the signed 64-bit range |
| `Strconv.AtoiCharacterization` | server.go:169 | `Atoi` succeeds exactly on an optional sign followed by one or more digits whose value fits in 64 bits, and returns that value. A well-formed numeral outside the range gives `ErrRange`. Anything else fails |
| `Strconv.AtoiItoa` | server.go:169 | Round trip: `Atoi` of the decimal rendering of any 64-bit integer gives it back |
| `Strconv.ScanDigits` | server.go:169 | The digit loop of `Atoi` on a digit string yields the positional value, or `ErrRange` exactly when the value passes 2^64-1 |
| `Strconv.ScanRejectsNonDigit` | server.go:169 | A non-digit in the magnitude always makes the parse fail |
| `Strings.IsSpaceTable` | server.go:175 | `Strings.IsSpace` is `unicode.IsSpace`, which decides what `TrimSpace` and `Fields` remove: within Latin-1 exactly '\t', '\n', '\v', '\f', '\r', ' ', U+0085 and U+00A0, and nothing above U+3000 (in between, the Unicode White_Space characters) |
| `Strings.TrimSpace` | server.go:141 | The result is a contiguous piece of the input with only white space before and after it. It neither starts nor ends with white space |
| `Strings.TrimSpaceIdempotent` | server.go:141 | Trimming twice equals trimming once |
| `Strings.TrimSpaceOfPadded` | server.go:141 | White space around a text that starts and ends with a non-space is exactly what is removed |
| `Strings.Fields` | server.go:175 | No field is empty and no field contains white space |
| `Strings.FieldsConcat` | server.go:175 | The fields concatenated equal the input with every white-space character removed |
| `Strings.FieldsEmpty` | server.go:175-176 | There is no field exactly when the input is empty or all white space. That is the case in which `cmdSlice[0]` would panic |
| `Strings.JoinFields` | server.go:175 | Joining the fields with single spaces gives the input with every white-space run collapsed to one space and its leading and trailing white space dropped (`Normalize`, defined on its own) |
| `Strings.FieldsOfJoin` | server.go:175 | Round trip: non-empty, space-free words joined with single spaces split back into the same words |
| `Strings.Split` | server.go:142 | There is one piece more than there are separators, and no piece contains the separator |
| `Strings.SplitJoin` | server.go:142 | Joining the pieces with the separator gives back the input exactly |
| `Strings.SplitOfJoin` | server.go:142 | Round trip: separator-free pieces joined with the separator split back into the same pieces |
| `Records.ZeroVnstat` | server.go:166-167 | Go's zero `Vnstat`, which `xml.Unmarshal` leaves when the output is empty or has no decodable element: every string empty and every period list (days, months, tops, hours) empty |
| `Monitor.TotalTransfer` | server.go:158-173 | No month listed gives 0 with no error. Otherwise the poll succeeds exactly when the first month's `tx` is a well-formed numeral in the 64-bit range, and the value is that numeral's value |
| `Monitor.TransferReadsFirstTxOnly` | server.go:168-169 | Reports that agree on the first month's `tx` give the same poll value, whatever their `rx` or later months |
| `Monitor.TransferOfDecimalCount` | server.go:169 | A first-month `tx` written in decimal is read back exactly |
| `Monitor.FailedReportReadsAsZero` | server.go:164-171 | The zero record, which is what a failed run (empty output) or output with no decodable element leaves, polls as 0 with no error. It fires exactly when the limit is at most 0 |
| `Monitor.Triggers` | server.go:180 | The test `e == nil && n >= nlimit`: an error never triggers, and a successful poll triggers for every limit up to its value |
| `Monitor.FirstTrigger` | server.go:179-185 | The index of the first `Ok` poll with value >= limit, `None` if there is none; the index it names is in range and triggers (pinned down fully by `FirstTriggerIsFirst`) |
| `Monitor.FirstTriggerIsFirst` | server.go:179-185 | The tick `FirstTrigger` names triggers (no error and `n >= nlimit`) and no earlier tick does. `None` means that no tick triggers |
| `Monitor.ErrorsNeverFire` | server.go:180-188 | Polls that all failed to parse never fire |
| `Monitor.FirstTriggerIgnoresLaterPolls` | server.go:179-185 | Once a prefix of polls fires, polls appended after it do not change when the monitor fires |
| `Monitor.FirstTriggerAfterQuietPolls` | server.go:179-190 | A prefix in which nothing fires only shifts the firing tick of the remaining polls by the prefix's length |
| `Monitor.LimitOf100Examples` | server.go:180 | With limit 100, polls 10, 50, 99, 150 fire at the fourth tick. Polls 10, 20, 30 never fire |
| `Monitor.SplitCommand` | server.go:175-177 | Executable followed by arguments equals the field list. None of them is empty or contains white space. Together they hold every non-space character of the command line in order, and joined with single spaces they give the command line with its white space normalized |
| `Monitor.SplitCommandOfJoin` | server.go:175-177 | Round trip: a command written with single spaces splits back into its executable and arguments |
| `Monitor.DefaultCommand` | server.go:202 | The default `shutdown` runs `shutdown` with no arguments |
| `Monitor.Outcomes` | server.go:180 | One `getTotalTransfer` result per tick: as many outcomes as reports, each the poll of its report, and every successful value within the 64-bit range |
| `Monitor.MonitorUsage` | server.go:157-191 | The command runs at most once. If tick k is the first to trigger, exactly k+1 polls happen and the command is the split command line. If no tick triggers, every supplied tick is polled and nothing runs |
| `Monitor.Wrap64` | server.go:208 | The result is a signed 64-bit value congruent to the input modulo 2^64 |
| `Monitor.LimitBytes` | server.go:208 | The two wrapping multiplications by 1024 equal the flag times 2^20 modulo 2^64. The result is that product exactly when the flag is in [-2^43, 2^43) |
| `Monitor.WrappedLimitFiresOnAnyParse` | server.go:208 | A `-l` of 2^43 becomes the most negative `int` and one of 2^44 becomes 0. With the former every poll that parses fires; with the latter a parsed poll fires exactly when its value is non-negative |
| `Monitor.DefaultLimit` | server.go:201 | The default flag value 0x8FFFFFF becomes 0x8FFFFFF00000, with no wrap-around |
| `Monitor.StartMonitor` | server.go:205-208 | The monitor starts only for a non-empty interface name. It then fires at the first tick whose poll reaches the converted limit |
| `Interfaces.IfaceList` | server.go:141-142 | Joining the names with newlines gives the trimmed output exactly. There are as many names as newlines in the trimmed output plus one, and no name contains a newline |
| `Interfaces.BlankOutputGivesOneEmptyName` | server.go:141-142 | Empty or all-white-space output, as from a failed command, gives the list `[""]` |
| `Interfaces.IfaceListOfLines` | server.go:139-142 | Names listed one per line, with white space only before the first and after the last, come back in order. Blank interior lines stay as empty names |
| `Interfaces.TwoInterfaces` | server.go:141-142 | `"eth0\nwlan0\n"` gives `["eth0", "wlan0"]` |
| `Interfaces.BlankLineKept` | server.go:141-142 | `"eth0\n\nwlan0"` gives `["eth0", "", "wlan0"]` |

## Left out

- Process spawning is not modelled: `runcmd`, `exec.Command`, `cmd.Output` (server.go:85-96) and running the action (server.go:182-183) are foreign calls. The monitor receives decoded records and returns the command it would run.
- XML decoding (server.go:109, 167) and JSON encoding (server.go:115-117, 144) are library serializers. The decoded record is the model's input, and the `vnstat` and `ifacelist` handlers' JSON output is not modelled.
- HTTP routing, the handlers' context and the `/` redirect are I/O and are left out (server.go:104, 153-155, 210-214). So are the `dashboard` passthrough (server.go:126-134) and flag parsing (server.go:200-203).
- The goroutine launch (server.go:208) is not modelled as concurrency: `Monitor.StartMonitor` calls the monitor directly.
- `time.Sleep` (server.go:189) and all log output are left out: timing has no behavioural content here, and logging has no effect on the result.
- Monitor.MonitorUsage: the loop is bounded by the supplied sequence of reports. The real loop never ends unless it fires, and the model does not produce its log lines, including the `float32` usage line (server.go:187). A command line that is empty or all white space is excluded by a `requires` (here and on `Monitor.StartMonitor`), not modelled: in the source, `-c ""` with a non-empty `-i` indexes an empty field list at server.go:176 and the panic in the goroutine ends the whole server before any poll.
- Strconv.Atoi: models the result and the error kind only. Go also returns an integer alongside an error (0, or a clamped bound for `ErrRange`), which the server uses only in a log line.
- Go's `int` is taken to be 64 bits wide, as on the usual 64-bit platforms.
- Go strings are byte strings; the model's `string` is the sequence of characters they decode to as UTF-8. An invalid byte corresponds to U+FFFD, which is not white space, as Go's `strings.TrimSpace` and `strings.Fields` treat it. The bytes are not read one character each (Latin-1), which would wrongly make 0x85 and 0xA0 white space.
