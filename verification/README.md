# VPN relay list scraper, modelled in Dafny

The scraper downloads the public relay list of a VPN directory. The list is a
line-delimited text with comma-separated records. The scraper does four things:

- It skips comment lines (`*`, `#`) and the header line (any line containing `HostName`).
- It splits every other line on commas.
- For each record with at least 15 fields, it starts a goroutine. The goroutine takes the
  base64 OpenVPN configuration in field 14 and extracts the port of its first
  `remote <host> <port>` directive. It then builds a `VPNEntry` from the record's fields by
  position.
- Entries with a non-empty port are appended under a mutex and written out as JSON.

The model has five modules:

- `Wrappers`: the `Option` type.
- `GoStrings`: the parts of Go's `strings` package the scraper uses.
  - `HasPrefix` and `Contains`.
  - `Split` with a one-character separator.
  - `Fields`, with ASCII white space as separators.
- `Base64`: Go's `base64.StdEncoding.DecodeString`, together with an encoder.
  - The encoder is the decoder's partner in round-trip proofs.
  - Decoding skips `\r` and `\n` anywhere in the input.
  - Padding is required and may appear only in the last quantum.
  - Unused low bits in a padded quantum are ignored.
- `Config`: `extractPortFromConfig`.
  - A reference function `ExtractPort`, with lemmas about it.
  - A method with the source's early-return loop, proved equal to that function.
- `Scraper`: the per-line pipeline of `main`.
  - `DispatchTasks` is the scan loop.
  - `RunTask` is one goroutine's body.
  - `CompleteTasks` runs the dispatched goroutines to completion in an order the scheduler
    chooses. It picks any pending task at each step.
  - `ScrapeEntries` is the whole pipeline. The result is stated as a multiset equal to the
    in-order reference `Collect(lines)`, so any completion order is covered.

Strings are Dafny `string`s whose characters stand for bytes. Go's `string(data)` is
`Config.BytesToString`.

Three things the program does not do, and so neither does the model:

- It does not check that the port is numeric. `extractPortFromConfig` accepts any third
  whitespace-separated token of a line that starts with `remote `.
- It has no input format other than the line-delimited, comma-separated list.
- It reports no per-record error. Every failure, such as a blob that is not base64 or a
  configuration without a port line, gives the empty string, and the record is dropped.

## Model

| member | source | states |
|---|---|---|
| Config.ExtractPortFromConfig | main.go:25-40 | The decode, split and early-return scan returns exactly `ExtractPort` of the blob. |
| Config.ExtractPort | main.go:25-40 | The port has no white space. A blob that is not valid base64 gives `""`. |
| Config.ExtractPortFound | main.go:26-39 | The port is non-empty exactly when the blob decodes and some decoded line is a port line. Invalid base64 and texts without such a line give `""`. |
| Config.BytesToString | main.go:30 | Go's `string(data)`: the text has one character per decoded byte, with that byte's code. |
| Config.IsPortLine | main.go:32-34 | A line ends the scan exactly when it starts with `remote ` and at least two tokens follow the keyword. Its first token is then `remote` and its third, the port, is non-empty and free of white space. |
| Config.FirstPort | main.go:31-39 | The scanned port never contains white space. |
| Config.FirstPortFound | main.go:31-39 | The scan yields a non-empty port exactly when some line starts with `remote ` and has at least three tokens. |
| Config.FirstPortAt | main.go:31-36 | The result is the third token of the first port line. |
| Config.FirstPortIgnoresLater | main.go:31-36 | Once a port has been found, lines appended after it do not change the result. |
| Config.ShortRemoteLineSkipped | main.go:31-37 | A `remote ` line with fewer than three tokens does not stop the scan. Wherever it stands, the result is that of the other lines. |
| Config.RemoteLineFields | main.go:32-33 | The tokens of a `remote ` line are `remote` followed by the tokens of the rest of the line. |
| Config.DirectivePort | main.go:32-35 | `remote <host> <port>` with non-empty, space-free host and port is a port line whose third token is the port. |
| Config.ExtractPortOfEncoding | main.go:26-30 | For a base64-encoded text, the result is the scan over that text's lines. |
| Config.PortOfEncodedConfig | main.go:25-40 | End to end: a base64 configuration whose first port line is `remote <host> <port>` yields exactly that port. |
| Base64.Decode | main.go:26-29 | Decoding succeeds exactly when the text, with line breaks removed, is well-formed base64: length a multiple of 4, alphabet characters, `=` or `==` only at the end. |
| Base64.DecodeStripped | main.go:26 | The decoder without line-break skipping succeeds exactly on well-formed text. |
| Base64.DecodeEncode | main.go:26 | Round trip: decoding the encoding of any byte string gives back that byte string. |
| Base64.EncodeDecodeStripped | main.go:26 | Round trip the other way: well-formed text with zero unused padding bits re-encodes to itself. |
| Base64.PaddingBitsIgnored | main.go:26 | The decoder is not strict: two `ab==` quanta that differ only in unused low bits decode alike. |
| Base64.PaddingBitsIgnoredOnePad | main.go:26 | The decoder is not strict: two `abc=` quanta that differ only in the low two bits of the third character decode alike. |
| Base64.EncodeShape | main.go:26 | Encoding n bytes gives 4·⌈n/3⌉ characters, each from the alphabet or the pad. |
| GoStrings.HasPrefix | main.go:58 | `strings.HasPrefix` holds exactly when the prefix is no longer than the text and agrees with it character by character. |
| GoStrings.Contains | main.go:58 | `strings.Contains` holds exactly when the substring occurs at some position. |
| GoStrings.Split | main.go:30 | Splitting gives one more piece than there are separators, and no piece contains the separator. |
| GoStrings.JoinSplit | main.go:62 | Joining the pieces of a split with the separator gives back the line. |
| GoStrings.SplitJoin | main.go:62 | Splitting a join of separator-free pieces gives back the pieces, so field k is the k-th piece. |
| GoStrings.Fields | main.go:33 | Every token is non-empty and free of white space. |
| GoStrings.FieldsAround | main.go:33 | A white-space character splits the tokens: the tokens of `a c b` are those of `a` followed by those of `b`. |
| Scraper.IsSkipped | main.go:58 | A line is skipped exactly when its first character is `*` or `#`, or `HostName` occurs in it. |
| Scraper.TaskResult | main.go:66-83 | A task yields an entry exactly when it has at least 15 fields and its blob gives a non-empty port. The entry takes host name, IP, score, ping, speed and country from fields 0-5 and has the extracted, space-free port and no blob. |
| Scraper.LineTask | main.go:58-64 | A task is dispatched exactly for lines that are neither skipped nor short (fewer than 15 comma fields). Every dispatched task has at least 15 fields. |
| Scraper.RunTask | main.go:66-83 | One goroutine yields an entry exactly when the extracted port is non-empty. The entry has host name, IP, country, score, ping and speed from fields 0, 1, 5, 2, 3 and 4, and the non-empty, space-free port. |
| Scraper.DispatchTasks | main.go:55-86 | The scan loop dispatches exactly the tasks of the non-skipped lines with at least 15 fields, in input order, each handed field 14. |
| Scraper.CompleteTasks | main.go:66-88 | Running the tasks in any order the scheduler picks, appending non-empty results, gives the same multiset as running them in order. |
| Scraper.ScrapeEntries | main.go:51-88 | The collected list equals the in-order reference as a multiset. Every entry has a non-empty, space-free port and no configuration blob. There are no more entries than dispatched lines. |
| Scraper.DispatchedTasks | main.go:62-65 | Dispatched tasks all have at least 15 fields, one task per dispatched line. |
| Scraper.DispatchedOutcomes | main.go:55-86 | Running the dispatched tasks in scan order yields exactly the entries of the lines. |
| Scraper.YieldsRemove | main.go:79-82 | Taking any one task out of the pending work takes exactly its result out of the multiset of results. |
| Scraper.CollectEntries | main.go:76-82 | Every collected entry has a non-empty, space-free port and no blob. There are at most as many entries as dispatched lines. |
| Scraper.CollectMember | main.go:55-86 | An entry is in the output exactly when some input line produces it. |
| Scraper.CollectIgnores | main.go:58-63 | A skipped line (`*`, `#` or containing `HostName`), or one with fewer than 15 fields, contributes nothing. |
| Scraper.RecordEntry | main.go:62-77 | For a record joined from comma-free fields, the entry maps host name 0, IP 1, score 2, ping 3, speed 4 and country 5. Its port is extracted from field 14. There is no entry when that port is empty. |
| Scraper.RecordWithDirective | main.go:62-81 | End to end: a record whose field 14 encodes a configuration with `remote <host> <port>` yields the positional entry with that port. |

## Left out

- The HTTP request to the relay directory and its panic on failure (main.go:43-47). The model starts from the lines of the response body.
- `bufio.Scanner` (main.go:49, 55-56) and the `scanner.Err` panic (main.go:90-92). The input is the sequence of lines the scanner yields. Two scanner behaviours are not modelled:
  - it strips a trailing `\r`;
  - it stops on lines over its 64 KiB token limit.
- Interleaving of the scan with the goroutines. The model dispatches all tasks first, then completes them in an arbitrary order.
  - `WaitGroup` and `Mutex` (main.go:51-53, 65-67, 80-82, 88) are not modelled. The mutex-protected append is one sequential append.
  - The output order of the source is not fixed, so results are stated as multisets.
- Writing `list.json` with two-space indentation and printing the count (main.go:94-106). These are I/O. `ConfigBase64` is tagged `json:"-"` and never assigned, so the model's entries always have an empty `configBase64`.
- GoStrings.Fields: only the ASCII white-space characters (tab, line feed, vertical tab, form feed, carriage return, space) separate tokens. Go's `strings.Fields` also treats Unicode spaces encoded in UTF-8 (such as U+0085 and U+00A0) as separators.
- Base64.Decode: reports only success or failure. Go's error value, with the offset of the first bad byte, and the partial data returned with it are not modelled, because the source discards both.
