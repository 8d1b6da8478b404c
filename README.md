# optimize-hpc-nic, modelled in Dafny

`optimize-hpc-nic` raises the RX/TX ring sizes of a host's high-speed
network interfaces to the maxima the hardware supports. This project
models its core and proves properties of that model:

- **ethtool readers** (`pkg/system/ethtool.go`) — module `Ethtool`. Three
  readers of `ethtool` output: the driver name (`ethtool -i`), the link speed
  (`ethtool`) and the four ring sizes (`ethtool -g`). Each reader is a method
  whose loop is proved against a specification function of the output lines.
  The ring reader's flag-driven scan is also proved equal to an independent
  reading: "in each section, the last line that sets a size wins; a size no
  line sets is 0".
- **Interface discovery** (`internal/nic/nic.go`) — module `Nic`. The
  listing without `lo`, the three-tier physical test, the speed fallback from
  ethtool to sysfs, the MAC read, and `GetHighSpeedNICs`. That method builds
  one fresh `NIC` object per kept interface and fills it field by field.
- **Ring-buffer optimisation** (`internal/ringbuffer/ringbuffer.go`) — module
  `RingBuffer`.
  - `OptimizeNIC` updates a `NIC` in place through a `RingWriter` that logs
    every `ethtool -G` call.
  - `OptimizeAll` splits the NICs by link type, runs `OptimizeNIC` on each
    Ethernet NIC, receives the results in an order the model leaves open, and
    chooses the list to display.
  - `DisplayFormattedResults` produces the table rows and the summary counters.
- **Configuration** (`internal/config/config.go`) — module `Config`. The
  defaults, the settings a command line overrides, and the choice between
  the query, set and monitor modes.

The Go library routines these files rely on live in module `GoText`:
`strings.TrimSpace`, `Fields`, `SplitN` and `Contains`; `strconv.Atoi` with
its range errors; the `(\d+)` regular expression; `fmt.Sscanf("%d")`; and
`fmt`'s `%d`. Module `Common` holds `Option`, `Result` and the error
conditions.

The host is a value of type `Nic.Host`. It gives, per interface name, the
outcome of each `ethtool` command, the sysfs files and markers, and the
interface's link type. Command output is a sequence of lines.

The model keeps these behaviours of the code:
- `OptimizeNIC` trusts an accepted write. It sets the current sizes to the
  maxima without re-reading them (ringbuffer.go:90-93).
- An interface whose speed cannot be determined is recorded with speed 0.
  It is kept whenever 0 reaches the threshold (nic.go:132-138).
- `ethtool -g` output without `RX:`/`TX:` lines yields four zero sizes. Such
  a NIC is marked optimal, and `OptimizeNIC` then skips it
  (`RingBuffer.ZeroRingChain`).
- The list `OptimizeAll` returns is in result-arrival order, so its contents
  are stated as a multiset.

## Model

| member | source | states |
|---|---|---|
| GoText.FieldsAreWords | pkg/system/ethtool.go:96 | every field `strings.Fields` returns is a non-empty run without white space |
| GoText.FieldIsWord | pkg/system/ethtool.go:96 | the same, for the field at a given index |
| GoText.TrimSpaceIsSlice | internal/nic/nic.go:110 | `strings.TrimSpace` returns a contiguous slice of its input; everything cut before and after it is white space, and the slice neither starts nor ends with white space |
| GoText.SplitN2 | pkg/system/ethtool.go:32-33 | `SplitN(s, sep, 2)` gives one part, `s` itself, exactly when `sep` does not occur; otherwise two parts around the first `sep` |
| GoText.FirstDigitRunPosition | pkg/system/ethtool.go:55-56 | the `(\d+)` submatch starts at the first digit of the line and runs to the next non-digit or the end |
| GoText.FirstDigitRun | pkg/system/ethtool.go:55-57 | the regular expression matches exactly when the line holds a digit, and the match is a non-empty run of digits |
| GoText.DigitRunParse | pkg/system/ethtool.go:58-59 | `strconv.Atoi` accepts a digit string exactly when its value fits in a signed 64-bit integer, and then returns that value |
| GoText.ParseInt | pkg/system/ethtool.go:58 | `strconv.Atoi` returns a value within the signed 64-bit range, and a range error carries the bound it clamps to, -2^63 or 2^63-1 |
| GoText.ParseIntAcceptsOnlyNumbers | pkg/system/ethtool.go:58 | a string `strconv.Atoi` accepts is an optional sign followed by at least one digit and nothing else, and a negative value comes only from a leading `-` |
| GoText.ScanUintOnlyDigits | pkg/system/ethtool.go:58 | the digit loop of `strconv` accepts only strings made entirely of digits |
| GoText.AtoiValue | pkg/system/ethtool.go:98-113 | the size kept when the error of `strconv.Atoi` is dropped: the parsed value, 0 for a syntax error, the clamped bound for a range error; always within the signed 64-bit range |
| GoText.ScanfInt | internal/nic/nic.go:94 | a value `fmt.Sscanf("%d")` reads into an `int` lies within the signed 64-bit range |
| GoText.ScanfIntToken | internal/nic/nic.go:94 | an optional `-`, a run of digits that parses, and any text not starting with a digit: the scan reads the sign and digits as one token and its value is the parsed number |
| GoText.ScanfIntIgnoresRest | internal/nic/nic.go:94 | the `%d` token is an optional sign and ASCII digits only: text that follows it and does not start with a digit (a newline, a unit, an underscore) is ignored, and the number is read as printed |
| GoText.ScanfIntReadsBack | internal/nic/nic.go:94 | `fmt.Sscanf("%d")` reads back every 64-bit value that `%d` prints, negative ones included |
| GoText.ScanfIntDownLink | internal/nic/nic.go:94 | the text `-1`, which the kernel writes for a link that is down, is read as -1 and not rejected |
| GoText.ScanUintDigits | pkg/system/ethtool.go:58 | the digit loop of `strconv` accumulates the decimal value of the digits read, or reports a range error once it exceeds 2^64-1 |
| GoText.IntToStringParses | internal/ringbuffer/ringbuffer.go:295 | `%d` output of every 64-bit value is read back by `strconv` as that value |
| Ethtool.DriverOfFirstLine | pkg/system/ethtool.go:28-39 | a driver is found exactly when some line starts with `driver:`, and it is the trimmed text after the key on the first such line |
| Ethtool.DriverLineSplit | pkg/system/ethtool.go:31-34 | on a `driver:` line, `SplitN(line, ":", 2)` always has two parts, so the length check never rejects one |
| Ethtool.GetDriverInfo | pkg/system/ethtool.go:21-40 | the method's answer is `DriverResult`: a command error, the first line's driver, or "driver not found" |
| Ethtool.DriverIgnoresLaterLines | pkg/system/ethtool.go:29-34 | once a driver line has been read, the following lines cannot change the answer |
| Ethtool.LineSpeedValue | pkg/system/ethtool.go:55-61 | a `Speed:` line yields a speed exactly when it holds a digit run whose value is at most 2^63-1; the speed is that value |
| Ethtool.SpeedOfFirstLine | pkg/system/ethtool.go:50-64 | a speed is found exactly when some line gives one, and it is the speed of the first such line |
| Ethtool.SpeedInRange | pkg/system/ethtool.go:58-60 | a reported speed is between 0 and 2^63-1 |
| Ethtool.UnknownSpeedSkipped | pkg/system/ethtool.go:53-62 | any line without a digit yields no speed, and the scan moves on to the lines after it |
| Ethtool.UnknownLineSkipped | pkg/system/ethtool.go:53-62 | the `Speed: Unknown!` line of a link that is down is passed over |
| Ethtool.GetSpeed | pkg/system/ethtool.go:43-67 | the method's answer is `SpeedResult`: a command error, the first usable speed, or "speed not found" |
| Ethtool.GetRingBufferSettings | pkg/system/ethtool.go:70-119 | a failed command gives an error and four zeros; otherwise no error, and the four sizes of the line-by-line scan |
| Ethtool.StepEffects | pkg/system/ethtool.go:83-115 | one line of the scan: a header switches exactly one section flag on and sets no size; any other line leaves the flags alone; a line outside both sections, one not starting with `RX:` or `TX:`, or one with fewer than two fields sets no size |
| Ethtool.FlagsTrackSection | pkg/system/ethtool.go:79-93 | the `inPreset`/`inCurrent` flags name exactly the section of the last header line, so they are never both set |
| Ethtool.FinalValueUnassigned | pkg/system/ethtool.go:70-119 | under the reference reading, a size no line assigns stays 0 |
| Ethtool.FinalValueLastAssigned | pkg/system/ethtool.go:95-115 | under the reference reading, a size holds the value of the last line that assigns it |
| Ethtool.StepAssigns | pkg/system/ethtool.go:82-116 | one more line moves the flag scanner and the reference reading alike |
| Ethtool.ScanIsLastAssignment | pkg/system/ethtool.go:78-118 | the flag-driven scan equals the reference reading: headers set nothing, lines before any header set nothing, a later line overrides an earlier one, a bad number reads as 0, and a one-field line leaves the size unchanged |
| Ethtool.NoSizeLinesAllZero | pkg/system/ethtool.go:95-118 | output without any `RX:` or `TX:` line gives four zero sizes, not an error |
| Nic.NIC.constructor | internal/nic/nic.go:126-129 | a new record holds the name, is physical, and has every other field at its zero value |
| Nic.WithoutLoopbackKeeps | internal/nic/nic.go:52-58 | exactly the name `lo` is dropped; every other name stays, as often as it occurs |
| Nic.WithoutLoopbackMembers | internal/nic/nic.go:52-58 | a name is listed exactly when it is in the directory and is not `lo` |
| Nic.WithoutLoopbackAppend | internal/nic/nic.go:53-58 | the filter commutes with concatenation, so the listing's order (sorted by name) is kept |
| Nic.GetAllInterfaces | internal/nic/nic.go:43-61 | an unreadable directory is an error; otherwise the result is the directory listing without `lo` |
| Nic.IsPhysicalNIC | internal/nic/nic.go:63-78 | a physical interface has no virtual-device entry and has a device link or an `ethtool -i` that ran; an interface with a device link and no virtual-device entry is physical |
| Nic.PhysicalPrecedence | internal/nic/nic.go:63-78 | a virtual-device entry means not physical; otherwise a device link means physical; otherwise the interface is physical exactly when `ethtool -i` ran and printed a `driver:` line |
| Nic.GetNICSpeed | internal/nic/nic.go:80-101 | a failure is "unable to determine speed"; a speed lies within the signed 64-bit range; a speed of 0 or below can only come from the sysfs file |
| Nic.SpeedFallback | internal/nic/nic.go:80-101 | a positive ethtool speed always wins. Otherwise the answer is the value scanned from the sysfs `speed` file, whatever its sign (-1 for a link that is down), when the file can be read and scanned. The query fails exactly when neither source answers, with "unable to determine speed" |
| Nic.GetNICMAC | internal/nic/nic.go:103-111 | the MAC query succeeds exactly when the `address` file can be read, fails with the read error otherwise, and never returns more text than the file holds |
| Nic.MacIsTrimmedText | internal/nic/nic.go:103-111 | the MAC query fails exactly when the `address` file cannot be read, and otherwise returns that file's text with white space trimmed from both ends |
| Nic.EnrichedFields | internal/nic/nic.go:124-160 | a kept record has the interface's name, is physical, has speed at least the threshold, and has its link type. Its four ring fields come together from `ethtool -g` or stay 0. When the ring query ran, `isOptimal` holds exactly when current equals maximum on both axes; when it failed, `isOptimal` is false. A failed MAC or driver query leaves that field empty |
| Nic.RecordsAreKept | internal/nic/nic.go:123-164 | discovery returns a record for exactly the physical interfaces whose speed reaches the threshold, and no more records than names |
| Nic.RecordsAppend | internal/nic/nic.go:124-164 | discovery preserves list order: the records of a concatenation are those of each part in turn |
| Nic.Examine | internal/nic/nic.go:125-162 | one loop iteration: a fresh NIC exactly when the interface is kept, holding its enriched record |
| Nic.FillMAC | internal/nic/nic.go:139-143 | the MAC field is set only when the address file can be read; nothing else changes |
| Nic.FillDriver | internal/nic/nic.go:145-149 | the driver field is set only when `GetDriverInfo` succeeds; nothing else changes |
| Nic.FillRing | internal/nic/nic.go:151-159 | the four sizes and `isOptimal` are set together, and only when `ethtool -g` ran |
| Nic.CollectNICs | internal/nic/nic.go:123-164 | the interface loop: distinct fresh NICs, one per kept interface in the given order, holding the records of `Records` |
| Nic.GetHighSpeedNICs | internal/nic/nic.go:113-167 | an error only when the interface directory cannot be listed; otherwise distinct fresh NICs, one per kept interface in the listing's order (sorted by name), holding the records of `Discover` |
| RingBuffer.RingWriter.SetRingBufferSettings | internal/ringbuffer/ringbuffer.go:56-62 | the write is logged, and it succeeds exactly when the host accepts it |
| RingBuffer.DecideWrites | internal/ringbuffer/ringbuffer.go:66-82 | a write is due exactly for a non-Infiniband record that is not yet optimal and has both maxima positive; the "invalid max values" error concerns only non-Infiniband records that are not yet optimal |
| RingBuffer.OptimizeFrame | internal/ringbuffer/ringbuffer.go:64-96 | "optimized" comes only from an accepted write of a due record, without an error; any other outcome leaves the record as it was; and an accepted write changes only the two current sizes and the optimal flag |
| RingBuffer.OptimizeNIC | internal/ringbuffer/ringbuffer.go:64-96 | the result and the new record are `Optimize` of the old record, and the write log grows by exactly the writes `Writes` asks for |
| RingBuffer.OptimizeCases | internal/ringbuffer/ringbuffer.go:66-95 | the checks take effect in order. Infiniband is skipped without a write. An optimal record is skipped before its maxima are checked. Non-positive maxima are an error with no write. An accepted write sets current to maximum and marks the record optimal, changing nothing else. A refused write is an error that changes nothing |
| RingBuffer.OptimizeSucceedsOptimal | internal/ringbuffer/ringbuffer.go:79-95 | "optimized" never comes with an error; an error-free result for a non-Infiniband record leaves it optimal; an error leaves the record unchanged |
| RingBuffer.OptimizeIdempotent | internal/ringbuffer/ringbuffer.go:72-93 | OptimizeNIC keeps "optimal implies current equals maximum", and a second run after an error-free one writes nothing and changes nothing |
| RingBuffer.ZeroRingChain | internal/ringbuffer/ringbuffer.go:72-82 | a NIC whose `ethtool -g` output has no size lines is discovered as optimal with zero maxima, and OptimizeNIC skips it without an error and without a write |
| RingBuffer.SplitPartition | internal/ringbuffer/ringbuffer.go:113-120 | every record lands in exactly one of the Ethernet and Infiniband lists |
| RingBuffer.SplitMembers | internal/ringbuffer/ringbuffer.go:113-120 | the Ethernet list holds exactly the non-Infiniband records (Unknown included), and the Infiniband list exactly the Infiniband ones |
| RingBuffer.AllInfiniband | internal/ringbuffer/ringbuffer.go:125-131 | with no Ethernet record, every record is Infiniband |
| RingBuffer.Split | internal/ringbuffer/ringbuffer.go:110-120 | the two lists hold the records of `EthernetOf` and `InfinibandOf`, in order, with each Ethernet NIC once; an input NIC is in the Ethernet list exactly when it is not Infiniband and in the Infiniband list exactly when it is, and neither list holds anything else |
| RingBuffer.SplitViews | internal/ringbuffer/ringbuffer.go:113-120 | splitting the NICs splits their records the same way |
| RingBuffer.SplitKeeps | internal/ringbuffer/ringbuffer.go:113-120 | every NIC of the input is in the list its link type names, and each list holds only input NICs of that type |
| RingBuffer.EthernetDistinct | internal/ringbuffer/ringbuffer.go:113-120 | from distinct NICs, the Ethernet list holds each NIC once |
| RingBuffer.SelectedAreOptimal | internal/ringbuffer/ringbuffer.go:172-189 | for Ethernet records the returned list is exactly the records that end optimal; the optimised count is at most its length, which is at most the number of records |
| RingBuffer.Dispatch | internal/ringbuffer/ringbuffer.go:146-159 | each Ethernet NIC is optimised exactly once: its report and its new record are `Optimize` of its record, and the writes are those of the records in dispatch order |
| RingBuffer.ReceiveStep | internal/ringbuffer/ringbuffer.go:172-188 | receiving one more report extends the processed list, the count and the kept list by that report's share |
| RingBuffer.Reordered | internal/ringbuffer/ringbuffer.go:168-189 | the processed NICs and the optimised count do not depend on the order in which reports arrive |
| RingBuffer.ReorderedChosen | internal/ringbuffer/ringbuffer.go:176-188 | the kept NICs do not depend on the order in which reports arrive |
| RingBuffer.Receive | internal/ringbuffer/ringbuffer.go:167-189 | whatever the arrival order, every reported NIC is processed once, the count is that of the successful optimisations, and the kept NICs are those of the reports |
| RingBuffer.ReportsMatch | internal/ringbuffer/ringbuffer.go:172-189 | the receiving loop's accounts, read against the starting records, are `OptimizedTotal`, `Selected` and `Afters` |
| RingBuffer.ViewsPermutation | internal/ringbuffer/ringbuffer.go:172-189 | two orderings of the same NICs hold the same records |
| RingBuffer.NoEthernetLayout | internal/ringbuffer/ringbuffer.go:125-135 | with no Ethernet NIC, the displayed list is the discovered one, all Infiniband |
| RingBuffer.ShownLayout | internal/ringbuffer/ringbuffer.go:194-203 | the displayed list has one entry per discovered NIC: the Infiniband NICs first, unchanged and in order, then the processed Ethernet NICs in their new state |
| RingBuffer.RunWorkers | internal/ringbuffer/ringbuffer.go:137-189 | workers plus receipt: the count, the returned list and the processed list are those of OptimizeNIC on the starting records, in any order |
| RingBuffer.OptimizeAll | internal/ringbuffer/ringbuffer.go:98-206 | a discovery error is returned with nothing written. Otherwise: the count is the number of successful optimisations; the returned NICs hold exactly the records that end optimal; only the Ethernet NICs' writes are issued; and with showAll set, the displayed list is the Infiniband NICs followed by the processed Ethernet NICs |
| RingBuffer.RingCell | internal/ringbuffer/ringbuffer.go:283-295 | the ring column reads `N/A` exactly for an Infiniband NIC |
| RingBuffer.RowOf | internal/ringbuffer/ringbuffer.go:277-298 | a row copies the NIC's name, speed, type, driver and MAC and holds its ring cell; the status is SKIPPED exactly for Infiniband, OPTIMIZED exactly for an optimal non-Infiniband NIC, and SUB-OPTIMAL exactly for a non-optimal one |
| RingBuffer.Tally | internal/ringbuffer/ringbuffer.go:271-299 | the total counts every NIC, the Ethernet and Infiniband counters add up to it, and the optimised counter never exceeds the Ethernet one |
| RingBuffer.DisplayFormattedResults | internal/ringbuffer/ringbuffer.go:264-313 | one row per NIC in order, with its status and ring cell; a summary exactly when the list is non-empty, holding the counters of `Tally` |
| RingBuffer.TallySplit | internal/ringbuffer/ringbuffer.go:272-298 | the Ethernet and Infiniband counters add up to the total and equal the lengths of OptimizeAll's two lists; the optimised counter never exceeds the Ethernet one |
| RingBuffer.TallyMatchesRows | internal/ringbuffer/ringbuffer.go:278-298 | the Infiniband counter is the number of SKIPPED rows, the optimised counter the number of OPTIMIZED rows, and the rest of the Ethernet counter the number of SUB-OPTIMAL rows |
| RingBuffer.SplitAtSlash | internal/ringbuffer/ringbuffer.go:295 | a `%d/%d` cell splits at its first slash back into its two numbers, since the first holds no slash |
| RingBuffer.RingCellReadsBack | internal/ringbuffer/ringbuffer.go:295 | split at its slash, an Ethernet ring cell parses back to the current RX and TX sizes |
| Config.Config.constructor | internal/config/config.go:41-50 | the starting configuration: query mode and every default |
| Config.SelectMode | internal/config/config.go:65-72 | monitor exactly when `-m`; set exactly when `-s` without `-m`; query exactly when neither |
| Config.QueryFlagIrrelevant | internal/config/config.go:66-72 | `-q` never changes the mode, and the mode is always one of the three named modes |
| Config.DefaultsWithoutFlags | internal/config/config.go:9-20 | without flags: query mode, 200000 Mbps, 300 s, five workers and the default log settings; the log rotation limits never come from the command line |
| Config.ApplyFlags | internal/config/config.go:56-63 | each setting given on the command line overwrites its field, and every other field keeps its value |
| Config.ParseFlags | internal/config/config.go:39-75 | a fresh configuration equal to `Configured(flags)`: the defaults, overridden by the given settings, with the selected mode |

## Left out

- Running `ethtool`, `os.ReadDir`, `os.Stat` and `os.ReadFile` is not modelled. Their outcomes are fields of `Nic.Host` and `Ethtool.Command`, and output arrives already split into lines. `bufio.Scanner`'s 64 KiB line limit is not modelled.
- The ring write goes through `system.RunCommand` (ringbuffer.go:57-61, 315-318), a function-valued variable that no file of the repository assigns. The model makes the write a host answer, `RingWriter.accepts`, and logs every call.
- `ethtool.go`'s own `SetRingBuffer` (ethtool.go:121-129) is not called by the core and is not modelled.
- `nic.NIC` has no `LinkType` field, yet ringbuffer.go reads one (lines 67, 114, 280). The model takes the link type from the host (`Host.linkType`) when the NIC is created.
- RingBuffer.OptimizeAll: goroutines, the `sync.WaitGroup`, the worker semaphore and the results channel are not modelled. The workers run one after the other in dispatch order, and results are received in an order chosen by the `arrival` argument. Bounded concurrency (`maxWorkers`) is therefore not modelled; it appears only as the requirement `maxWorkers >= 1`.
- RingBuffer.OptimizeAll and RingBuffer.Receive: the returned list is stated as a multiset of records, because Go's order depends on goroutine scheduling.
- RingBuffer.DisplayFormattedResults: printing, column padding, the header, the dashed lines and the Infiniband note are not modelled. The method returns the unpadded rows and the summary counters.
- Logging (internal/logger), `Query`, `Monitor`, `time.Sleep` and `main.go` are not modelled. `OptimizeAll`'s logged counts and messages are not modelled either; the count it computes is returned instead.
- Config.ParseFlags: the `flag` package's parsing of `os.Args` is not modelled. The parsed command line is the `Flags` input, in which each setting is either given or absent. The `-v` flag is kept as a setting.
- GoText.FieldsAreWords, GoText.FieldIsWord: the lemmas state only that each field is a non-empty run without white space. That the fields are all the maximal runs, in order, is the function's definition and is not restated.
- `ethtool -i` runs twice for a kept interface that has no device link: once in `IsPhysicalNIC` (nic.go:76) and once for the driver field (nic.go:146). The model reads one `Host.driverInfo` answer for both, so it assumes the two runs agree.
- Go's `int` is 64 bits wide. Only `strconv`'s range limits are modelled; arithmetic on sizes and speeds never overflows in the source.
- Strings are sequences of characters, whereas Go works on UTF-8 bytes. For the ASCII text ethtool and sysfs print the two agree.
