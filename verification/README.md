# aaa-cmd ingestion, modelled in Dafny

aaa-cmd is a command-line tool that loads account/ip bindings into a Redis
store. It lists a source directory, keeps the files that are ready (a
`txt` name, at least one byte, and a completion marker beside them), sorts
them by a number embedded in their names, and feeds each file's lines through
a hand-written scanner. A line of the form `<account>|<ip>|<anything>` whose
ip field has four dot-separated segments, each with a digit `1`..`9`, is
written to the store as `ip -> account`: with `setex` when a positive TTL is
configured, with `set` otherwise.

This project models that core in `Entrance.java`:

- `JavaText` — the string operations the core computes: `IndexOf`, the stop
  point of the hand-written `while` loops that look for the next `|`;
  `lastIndexOf` on characters; `String.trim`; `Integer.parseInt`; and
  `EndsWith`, the test of `SuffixFileFilter("txt")`.
- `FileNames` — commons-io `getName`, `removeExtension`, `getBaseName`.
- `IpShape` — the counters of the ip scan (`pointCnt`, `digPart`,
  `afterPoint`) as a fold over the field, and an independent description of
  the accepted shape by splitting on dots.
- `LineParser` — one line (`ParseLine`, and `ParseLineScan` with `ScanIpField`, the two
  `while` loops of `parseAndInsert` with their invariants) and one file (`ParseFile`).
- `Store` — the store as a map receiving `set`/`setex` writes.
- `FileSelection` — the file filter and the sort comparator of `main`.
- `Ingest` — the loop over the sorted files, and a whole run (`Run`: the order, then `Finish`).

A line has one of three outcomes: it is skipped, it yields a record, or it
crashes. The crash is the `ArrayIndexOutOfBoundsException` of a scan that
runs off the end of a line with no closing `|` (an empty line, a line with no
`|`, or a non-empty account followed by a single `|`). Nothing catches it, so
it ends the run. Writes made before it stay in the store, which is external.
The same holds when the sort comparator throws, and then nothing is written at
all.

Two details of the code are easy to misread, and the model follows the code:

- The name filter is `SuffixFileFilter("txt")`: a case-sensitive suffix test,
  not an extension test, so a file named `notxt` passes it.
- The sort key skips the last `+` of the base name and four more characters,
  then parses the rest. A base name without `+` is not rejected: `lastIndexOf`
  gives -1, so the key is read from index 4 on. For `batch+2024010100001` the
  parsed tail is `010100001`, whose value is 10100001.

## Model

| member | source | states |
|---|---|---|
| `JavaText.IndexOf` | src/main/java/cn/ctwsm/aaa/Entrance.java:152-154 | the first occurrence at or after `from`, or none: the found index holds the character and nothing before it from `from` on does |
| `JavaText.IndexOfPast` | src/main/java/cn/ctwsm/aaa/Entrance.java:163-173 | searching from the end of a prefix finds the separator that closes a stretch without one |
| `JavaText.LastIndexOf` | src/main/java/cn/ctwsm/aaa/Entrance.java:121-122 | -1 exactly when the character is absent; otherwise an index holding it with no later occurrence |
| `JavaText.LastIndexOfAt` | src/main/java/cn/ctwsm/aaa/Entrance.java:121 | an occurrence with none after it is the one `lastIndexOf` reports |
| `JavaText.Trim` | src/main/java/cn/ctwsm/aaa/Entrance.java:175-176 | `String.trim` as its two index loops: the result is no longer than the input, starts and ends with a character above space, is empty only for an all-blank input, and takes its characters from the input |
| `JavaText.TrimStart` | src/main/java/cn/ctwsm/aaa/Entrance.java:175-176 | the first loop of `trim` stops at the first character above space, having passed only blanks |
| `JavaText.TrimEnd` | src/main/java/cn/ctwsm/aaa/Entrance.java:175-176 | the second loop of `trim` stops just past the last character above space, never below the start, having passed only blanks |
| `JavaText.TrimPadded` | src/main/java/cn/ctwsm/aaa/Entrance.java:175-176 | blank padding on both sides of an unpadded core is removed exactly, leaving the core |
| `JavaText.TrimIdempotent` | src/main/java/cn/ctwsm/aaa/Entrance.java:175-176 | trimming twice is trimming once |
| `JavaText.ParseInt` | src/main/java/cn/ctwsm/aaa/Entrance.java:121-122 | a parsed value lies in the 32-bit range, comes from a non-empty text starting with a sign or a digit, and is negative only after a '-' |
| `JavaText.ParseFormatRoundTrip` | src/main/java/cn/ctwsm/aaa/Entrance.java:121-122 | every 32-bit value written in decimal parses back to itself |
| `JavaText.LeadingZeros` | src/main/java/cn/ctwsm/aaa/Entrance.java:121-122 | leading zeros do not change the value of a digit string |
| `JavaText.ParseIntShape` | src/main/java/cn/ctwsm/aaa/Entrance.java:121-122 | whatever `parseInt` accepts is a sign (none, '+' or '-', the '-' only with a value that is not positive), then zeros, then the decimal digits of the magnitude without leading zero |
| `JavaText.ParseIntCanonical` | src/main/java/cn/ctwsm/aaa/Entrance.java:121-122 | conversely, a sign, any run of zeros and the digits of a magnitude parse to the signed magnitude when it fits in 32 bits and throw otherwise; with `ParseIntShape` this decides every text |
| `JavaText.DigitsCanonical` | src/main/java/cn/ctwsm/aaa/Entrance.java:121-122 | any non-empty digit run is a run of zeros followed by the digits of its value |
| `JavaText.ParseIntParts` | src/main/java/cn/ctwsm/aaa/Entrance.java:121-122 | an accepted text is a sign followed by a non-empty digit run, and the value is that run's value, negated after '-' |
| `JavaText.ParseSignDigits` | src/main/java/cn/ctwsm/aaa/Entrance.java:121-122 | a sign followed by a non-empty digit run parses to the run's value, negated after '-', when that fits in 32 bits, and throws otherwise |
| `FileNames.LastSeparator` | src/main/java/cn/ctwsm/aaa/Entrance.java:119-120 | -1 or the index of a separator (a slash or a backslash) with no separator after it; `FileNames.GetName` and `FileNames.GetBaseName` cut the path there |
| `FileNames.GetName` | src/main/java/cn/ctwsm/aaa/Entrance.java:119-120 | a separator-free suffix of the path, preceded by a separator when shorter than the path |
| `FileNames.RemoveExtension` | src/main/java/cn/ctwsm/aaa/Entrance.java:106 | a prefix of the path, cut at a '.' followed by neither '.' nor separator; when nothing is cut, the file name has no '.' |
| `FileNames.GetBaseName` | src/main/java/cn/ctwsm/aaa/Entrance.java:119-120 | a separator-free prefix of the file name, followed in the name by a '.' when shorter |
| `FileNames.BaseNameOfPlain` | src/main/java/cn/ctwsm/aaa/Entrance.java:119-120 | a separator-free name with one extension has the part before the extension as its base name |
| `IpShape.Split` | src/main/java/cn/ctwsm/aaa/Entrance.java:163-172 | one segment more than there are dots, and no segment holds a dot |
| `IpShape.SplitJoin` | src/main/java/cn/ctwsm/aaa/Entrance.java:163-172 | splitting dot-free segments joined by dots gives the segments back |
| `IpShape.JoinSplit` | src/main/java/cn/ctwsm/aaa/Entrance.java:163-172 | joining the segments with dots gives the field back |
| `IpShape.WithDigit` | src/main/java/cn/ctwsm/aaa/Entrance.java:164-166 | at most the number of segments, and equal to it exactly when every segment has a digit `1`..`9` |
| `IpShape.Step` | src/main/java/cn/ctwsm/aaa/Entrance.java:163-171 | one iteration of the ip loop: a digit `1`..`9` with `afterPoint` set counts a segment and clears it, a '.' counts a dot and sets it, anything else changes nothing; its meaning over a whole field is pinned by `IpShape.ScanTracksSegments` |
| `IpShape.Scan` | src/main/java/cn/ctwsm/aaa/Entrance.java:161-172 | `pointCnt` equals the number of dots, `digPart <= pointCnt + 1`, and while `afterPoint` holds (no segment counted since the last dot) `digPart <= pointCnt` |
| `IpShape.ScanTracksSegments` | src/main/java/cn/ctwsm/aaa/Entrance.java:161-172 | after any prefix, `pointCnt` is the segment count minus one, `digPart` the number of segments holding a digit `1`..`9`, and `afterPoint` says the last segment holds none |
| `IpShape.CountersAcceptIff` | src/main/java/cn/ctwsm/aaa/Entrance.java:174 | the counter test `pointCnt == 3 && digPart == 4` passes exactly for fields with four segments that each hold a digit `1`..`9` |
| `IpShape.ValidIpShapeIff` | src/main/java/cn/ctwsm/aaa/Entrance.java:174 | the accepted shape is exactly: four dot-free segments joined by dots, each holding a digit `1`..`9` |
| `LineParser.ParseLine` | src/main/java/cn/ctwsm/aaa/Entrance.java:148-176 | the verdict on one line: crash when a separator is missing, skip on an empty account or a rejected ip field, else the trimmed record; defined, and characterised by `LineParser.TwoBars`, `LineParser.NoBarCrashes`, `LineParser.OneBarCrashes`, `LineParser.LeadingBarSkips` and `LineParser.AcceptedAt` |
| `LineParser.ParseLineScan` | src/main/java/cn/ctwsm/aaa/Entrance.java:148-176 | the two character loops with their counters agree with the functional line parser on every line, crash included |
| `LineParser.ScanIpField` | src/main/java/cn/ctwsm/aaa/Entrance.java:161-173 | the second loop stops at the next separator or the end of the line, and its counters equal the fold of the scan over what it passed |
| `LineParser.LeadingBarSkips` | src/main/java/cn/ctwsm/aaa/Entrance.java:150-157 | a line starting with the separator is skipped whatever follows, even with no second separator |
| `LineParser.NoBarCrashes` | src/main/java/cn/ctwsm/aaa/Entrance.java:152-154 | a line without any separator, the empty line included, crashes |
| `LineParser.OneBarCrashes` | src/main/java/cn/ctwsm/aaa/Entrance.java:159-172 | a non-empty account followed by a single separator crashes in the ip scan |
| `LineParser.TwoBars` | src/main/java/cn/ctwsm/aaa/Entrance.java:150-176 | with two separators and a non-empty account, the line is accepted exactly when the ip field has the accepted shape, yields the trimmed account and ip, and what follows the second separator plays no part |
| `LineParser.ParseLineAt` | src/main/java/cn/ctwsm/aaa/Entrance.java:150-176 | given the positions of the first two separators, the second lies strictly after the first, so the `accEnd == ipEnd` test never decides, and the verdict is the counter test on the field between them |
| `LineParser.EmptyIpFieldRejected` | src/main/java/cn/ctwsm/aaa/Entrance.java:152-174 | a non-empty account followed by two adjacent separators is skipped whatever follows: the two searches find the separators next to each other, leaving an empty field with no dot |
| `LineParser.AcceptedFields` | src/main/java/cn/ctwsm/aaa/Entrance.java:175-176 | an accepted record has no separator in account or ip, and its ip is never empty |
| `LineParser.AcceptedAt` | src/main/java/cn/ctwsm/aaa/Entrance.java:150-176 | an accepted line has its two separators after a non-empty account, no separator inside either field, four counted digits in the ip field, and yields the two trimmed fields |
| `LineParser.CountedDigitIn` | src/main/java/cn/ctwsm/aaa/Entrance.java:164-166 | a positive `digPart` means the field holds a digit `1`..`9` |
| `LineParser.ZeroPaddedIpAccepted` | src/main/java/cn/ctwsm/aaa/Entrance.java:163-176 | the line made of `alice`, a bar, `192.168.001.010`, a bar and `ignored` yields the record (alice, 192.168.001.010) |
| `LineParser.ZeroSegmentRejected` | src/main/java/cn/ctwsm/aaa/Entrance.java:163-174 | the line made of `bob`, a bar, `10.0.0.1`, a bar and `x` is skipped because a segment holds only zeros |
| `LineParser.DotlessFieldRejected` | src/main/java/cn/ctwsm/aaa/Entrance.java:163-174 | the line made of `bob`, a bar, `999`, a bar and `x` is skipped |
| `LineParser.BlankAccountAccepted` | src/main/java/cn/ctwsm/aaa/Entrance.java:156-176 | any non-empty all-blank account followed by a separator, `1.1.1.1` and a separator passes the empty-account test and yields an empty account |
| `LineParser.Classify` | src/main/java/cn/ctwsm/aaa/Entrance.java:147-148 | one verdict per line, in line order |
| `LineParser.Emit` | src/main/java/cn/ctwsm/aaa/Entrance.java:146-182 | the outer loop over the verdicts of a file's lines; what it emits and when it crashes is stated by `LineParser.EmitSpec` and `LineParser.EmitPrefix` |
| `LineParser.ParseFile` | src/main/java/cn/ctwsm/aaa/Entrance.java:144-183 | one file given as its lines: the verdicts of `Classify` fed to `Emit` |
| `LineParser.EmitSpec` | src/main/java/cn/ctwsm/aaa/Entrance.java:146-182 | a file crashes exactly when one of its lines does; otherwise it emits every accepted record in order; on a crash it has emitted the records of the lines before the first crashing line |
| `LineParser.EmitCrashed` | src/main/java/cn/ctwsm/aaa/Entrance.java:146-172 | a file crashes exactly when one of its lines does |
| `LineParser.EmitComplete` | src/main/java/cn/ctwsm/aaa/Entrance.java:146-182 | a file that does not crash emits every accepted record, in line order |
| `LineParser.EmitCrashPrefix` | src/main/java/cn/ctwsm/aaa/Entrance.java:146-182 | a file that crashes has emitted the records of the lines before its first crashing line |
| `LineParser.EmitPrefix` | src/main/java/cn/ctwsm/aaa/Entrance.java:146-182 | what a file emits is always a prefix of the records its lines accept |
| `LineParser.EmptyAccountContinues` | src/main/java/cn/ctwsm/aaa/Entrance.java:155-157 | a line starting with the separator emits nothing and the file goes on with the next line |
| `Store.Apply` | src/main/java/cn/ctwsm/aaa/Entrance.java:177-181 | after a `set` or `setex` the key holds the account written, and every other key keeps its presence and value |
| `Store.ApplyAll` | src/main/java/cn/ctwsm/aaa/Entrance.java:177-181 | a key is present afterwards exactly when it was before or some write names it |
| `Store.ApplyAllAppend` | src/main/java/cn/ctwsm/aaa/Entrance.java:126-127 | writing one batch then another is writing their concatenation |
| `Store.LastWriteWins` | src/main/java/cn/ctwsm/aaa/Entrance.java:177-181 | a key holds the value of the last write to it |
| `Store.UntouchedKey` | src/main/java/cn/ctwsm/aaa/Entrance.java:177-181 | a key no write names keeps its value, or stays absent |
| `FileSelection.MarkerPath` | src/main/java/cn/ctwsm/aaa/Entrance.java:106 | the marker of a file is its absolute path without extension followed by the marker suffix |
| `FileSelection.Eligible` | src/main/java/cn/ctwsm/aaa/Entrance.java:99-111 | the three filters: the name ends in `txt`, the size is at least one byte, the marker exists; `FileSelection.SelectEligible` applies it to the listing |
| `FileSelection.SelectEligible` | src/main/java/cn/ctwsm/aaa/Entrance.java:99-111 | every selected file passes the three filters, and each listed file is kept as often as listed when it passes and dropped otherwise |
| `FileSelection.SuffixNotExtension` | src/main/java/cn/ctwsm/aaa/Entrance.java:101 | a file named `notxt` passes the name filter |
| `FileSelection.OrderKey` | src/main/java/cn/ctwsm/aaa/Entrance.java:119-122 | a computed key is a 32-bit value |
| `FileSelection.KeyOfBaseName` | src/main/java/cn/ctwsm/aaa/Entrance.java:121 | a key read from a base name is a 32-bit value; `KeyWithoutPlus`, `KeyPastEnd` and `KeyOfPlusTail` give its cases |
| `FileSelection.KeyWithoutPlus` | src/main/java/cn/ctwsm/aaa/Entrance.java:121 | without '+', the key is the tail from index 4, and there is none for base names shorter than 4 |
| `FileSelection.KeyPastEnd` | src/main/java/cn/ctwsm/aaa/Entrance.java:121 | fewer than four characters after the last '+' means no key |
| `FileSelection.KeyOfPlusTail` | src/main/java/cn/ctwsm/aaa/Entrance.java:121 | with no '+' after the one followed by four characters, the key is the parsed tail |
| `FileSelection.KeyOfTxtName` | src/main/java/cn/ctwsm/aaa/Entrance.java:119-122 | for `<prefix>+<four>tail.txt` the key is the parsed tail |
| `FileSelection.Insert` | src/main/java/cn/ctwsm/aaa/Entrance.java:117 | inserting into a sorted list adds exactly that file and keeps the list sorted |
| `FileSelection.Sort` | src/main/java/cn/ctwsm/aaa/Entrance.java:117 | the result is a permutation of the input, sorted by key |
| `FileSelection.SortByKey` | src/main/java/cn/ctwsm/aaa/Entrance.java:116-124 | fails exactly when there are at least two files and one has no key; otherwise returns a permutation sorted by non-decreasing key |
| `FileSelection.SmallerKeyFirst` | src/main/java/cn/ctwsm/aaa/Entrance.java:116-124 | in a sorted list a file with a smaller key comes strictly earlier |
| `Ingest.WriteOf` | src/main/java/cn/ctwsm/aaa/Entrance.java:177-181 | key is the ip, value the account, and the write is a `setex` carrying the TTL exactly when the TTL is positive |
| `Ingest.DefaultTtlPlainSets` | src/main/java/cn/ctwsm/aaa/Entrance.java:78 | with the default TTL every write is a plain `set` |
| `Ingest.Writes` | src/main/java/cn/ctwsm/aaa/Entrance.java:177-181 | one write per record, in record order |
| `Ingest.WritesAppend` | src/main/java/cn/ctwsm/aaa/Entrance.java:126-127 | the writes of two record batches are the writes of their concatenation |
| `Ingest.FileCrashesIff` | src/main/java/cn/ctwsm/aaa/Entrance.java:146-172 | a file's processing crashes exactly when one of its lines crashes the scan |
| `Ingest.ProcessFiles` | src/main/java/cn/ctwsm/aaa/Entrance.java:126-132 | processing either completes or stops at a malformed line |
| `Ingest.ProcessLogPrefix` | src/main/java/cn/ctwsm/aaa/Entrance.java:126-127 | the writes issued are always a prefix of the writes for every accepted record of every file, in order |
| `Ingest.ProcessCompleted` | src/main/java/cn/ctwsm/aaa/Entrance.java:126-127 | processing completes exactly when no file crashes, and then has written every accepted record in file and line order |
| `Ingest.ProcessAbortNamesFile` | src/main/java/cn/ctwsm/aaa/Entrance.java:126-127 | an abort names the first file that crashes |
| `Ingest.ProcessAbortLog` | src/main/java/cn/ctwsm/aaa/Entrance.java:126-127 | when clean files are followed by a crashing one, processing aborts naming it, having written exactly the records of the clean files and then those the crashing file emitted before its first crashing line |
| `Ingest.ProcessAbortAt` | src/main/java/cn/ctwsm/aaa/Entrance.java:126-127 | the same with the first crashing file given by its position in the order |
| `Ingest.AbortAfterCleanFile` | src/main/java/cn/ctwsm/aaa/Entrance.java:126-127 | a clean first file puts the writes of all its accepted records in front of the writes of the rest |
| `Ingest.ProcessClean` | src/main/java/cn/ctwsm/aaa/Entrance.java:126-127 | a file that does not crash writes all its accepted records, and processing continues with the next file |
| `Ingest.Order` | src/main/java/cn/ctwsm/aaa/Entrance.java:99-124 | the eligible files sorted by key, or nothing when the comparator throws; stated by `Ingest.OrderSpec` |
| `Ingest.OrderSpec` | src/main/java/cn/ctwsm/aaa/Entrance.java:99-124 | the processing order fails exactly when two or more files are eligible and one has no key; otherwise it is a permutation of the eligible files sorted by key |
| `Ingest.Finish` | src/main/java/cn/ctwsm/aaa/Entrance.java:126-132 | the final store is the initial one after the logged writes; a comparator failure writes nothing and processes no file; otherwise the sorted files are processed and the log is a prefix of their records' writes |
| `Ingest.Run` | src/main/java/cn/ctwsm/aaa/Entrance.java:99-132 | `main` after argument parsing: the order, then processing against the store; stated by `Ingest.Finish`, `Ingest.RunCompleted`, `Ingest.RunAbortLog` and the lemmas below |
| `Ingest.RunCompleted` | src/main/java/cn/ctwsm/aaa/Entrance.java:116-132 | a run completes exactly when the sort succeeds and no processed file crashes, and then it has written every accepted record |
| `Ingest.RunLastRecordWins` | src/main/java/cn/ctwsm/aaa/Entrance.java:126-127 | after a completed run an ip holds the account of the last record accepted for it across all files |
| `Ingest.RunUntouchedKey` | src/main/java/cn/ctwsm/aaa/Entrance.java:126-127 | an ip that no processed file accepts keeps its old value or stays absent, however the run ends |
| `Ingest.RunAborted` | src/main/java/cn/ctwsm/aaa/Entrance.java:126-127 | a run stopped by a malformed line names the first processed file holding one |
| `Ingest.RunAbortLog` | src/main/java/cn/ctwsm/aaa/Entrance.java:126-132 | a run stopped in its `i`-th file has logged and stored exactly the writes for the records of the files before it, then those that file emitted before its first crashing line |
| `Ingest.SortedPair` | src/main/java/cn/ctwsm/aaa/Entrance.java:117-123 | two files with distinct keys sort only one way, smaller key first |
| `Ingest.SortPair` | src/main/java/cn/ctwsm/aaa/Entrance.java:116-124 | two files with known, distinct keys, listed in either order, sort into smaller key first |
| `Ingest.SelectBoth` | src/main/java/cn/ctwsm/aaa/Entrance.java:99-111 | two eligible files are both selected, in listing order |
| `Ingest.SelectAllEligible` | src/main/java/cn/ctwsm/aaa/Entrance.java:99-111 | when the listing holds exactly two eligible files, the filter keeps both |
| `Ingest.OrderPair` | src/main/java/cn/ctwsm/aaa/Entrance.java:116-124 | a listing of exactly two eligible files with known, distinct keys, in either order, is processed smaller key first |
| `Ingest.ProcessPair` | src/main/java/cn/ctwsm/aaa/Entrance.java:126-127 | two clean one-record files issue exactly their two writes, in order |
| `Ingest.LaterFileWins` | src/main/java/cn/ctwsm/aaa/Entrance.java:116-127 | a listing of exactly two eligible files, in either order, with known, distinct keys, each accepting exactly one record and both binding the same ip: the run completes, processes the smaller key first, and the ip holds the larger-key file's account; `Ingest.RunLastRecordWins` states the general cross-file rule |
| `Ingest.NothingEligible` | src/main/java/cn/ctwsm/aaa/Entrance.java:99-132 | with no eligible file the run completes and leaves the store unchanged |

## Left out

- Command-line parsing, the help path and option defaults other than the TTL and the marker suffix (Entrance.java lines 26-65 and 69-84): they are library calls around the core; the TTL and the marker suffix are parameters of `Ingest.Run`.
- The Redis connection, authentication and close (lines 87-91, 134): the store is a map, and each write records whether it was a `set` or a `setex`.
- TTL expiry: it happens inside the store; only the TTL attached to each write is recorded.
- Directory enumeration and reading file bytes (lines 99, 127): the listing, each file's size and its lines are inputs, in the order the file system produced them.
- UTF-8 decoding and line splitting by `LineIterator` (line 145): each file is given as its sequence of lines. Java strings are UTF-16; every character the scan compares is in the basic range, so a line is modelled as a sequence of characters.
- Deleting processed files and their markers with `-d` (lines 128-131): the model keeps the listing fixed for the whole run. This changes what is written only when one file's marker is itself a later file in the order, which needs a marker suffix ending in `txt`. With the suffix `+abcd2.txt`, the marker of `/d/f+abcd1.txt` is `/d/f+abcd1+abcd2.txt`, an eligible file with key 2. The source deletes it after the first file and then fails to read it, ending the run; the model processes it.
- `FileSelection.OrderKey`: the comparator subtracts two keys as Java `int`s, which can overflow for keys of opposite sign far apart; the model compares keys as mathematical integers.
- `FileSelection.SortByKey`: `Collections.sort` is stable and the model's insertion sort keeps equal keys in listing order too, but since the listing order itself is unspecified, no tie order is claimed.
- `JavaText.ParseInt`: accepts ASCII digits only, where `Integer.parseInt` also accepts other Unicode decimal digits.
- `FileNames.RemoveExtension`: commons-io also rejects paths holding a NUL character; that check is not modelled.
- `Ingest.ProcessFiles`: its own contract only states how processing can end; what it writes is stated by `Ingest.ProcessLogPrefix`, `Ingest.ProcessCompleted`, `Ingest.ProcessAbortLog` and `Ingest.ProcessAbortAt`, and which file an abort names by `Ingest.ProcessAbortNamesFile`.
