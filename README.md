# gomap port-range parser, modelled in Dafny

gomap is a small TCP/UDP port scanner. Before it scans, it turns the `-ports` flag, a
`"start-end"` string such as `"20-80"`, into the list of ports to probe. That is the job of
`parsePorts` in `gomap.go`. This project models `parsePorts` and the two Go library functions
it relies on, and proves what it returns.

- `wrappers.dfy` (module `Wrappers`): `Option` and `Result`, the shapes of Go's `(value, error)` returns.
- `go_strings.dfy` (module `GoStrings`): `strings.Split` on a one-character separator, with
  `CountOf` (`strings.Count`) and `Join` (`strings.Join`) as its partners.
- `go_strconv.dfy` (module `GoStrconv`): `strconv.Atoi` (an optional `+` or `-`, then at least one
  ASCII digit; leading zeros allowed), its digit loop `Accumulate`, and `strconv.Itoa` as
  `FormatNat`/`FormatInt`, its inverse.
- `port_range.dfy` (module `PortRange`): the two errors (`InvalidRange`, `InvalidNumbers`) with
  their `fmt.Errorf` texts, the checks before the loop (`Bounds`), the inclusive range (`Range`),
  the specification of the whole parse (`PortsOf`), and `ParsePorts`. `ParsePorts` runs the
  source's append loop and is proved against `PortsOf`.

Go returns `([]int, error)`. `ParsePorts` returns a pair `(ports, err)` with `err: Option<PortsError>`.
Go's nil slice is the empty sequence. A successful parse always has `start <= end`, so its
result is never empty. An empty `ports` therefore always means an error.

parsePorts reports two errors: `invalid port range: <input>` when the split does not give two
parts, and `invalid port numbers: <input>` for bad numbers or bounds. Atoi accepts a leading `+`
and leading zeros, so `"+5-10"` gives ports 5..10 and `"08-010"` gives 8..10.

## Model

| member | source | states |
|---|---|---|
| GoStrings.Split | gomap.go:119 | the split has one part more than the input has `-` characters, and no part contains `-` |
| GoStrings.JoinOfSplit | gomap.go:119 | joining the parts of a split with `-` gives back the input |
| GoStrings.SplitOfJoin | gomap.go:119 | splitting the join of a non-empty list of `-`-free parts gives back those parts |
| GoStrings.SplitAroundSeparator | gomap.go:119 | a string with exactly one `-` splits into the two texts on either side of it |
| GoStrconv.Accumulate | gomap.go:123-124 | Atoi's digit loop fails exactly when the string holds a non-digit |
| GoStrconv.AccumulateValue | gomap.go:123-124 | continuing the digit loop from the value of the digits read so far ends at the decimal value of all the digits |
| GoStrconv.Atoi | gomap.go:123-124 | Atoi succeeds exactly on an optional sign followed by one or more digits, and its value is the decimal value with the sign applied |
| GoStrconv.AtoiOfFormatInt | gomap.go:123-124 | Atoi inverts Itoa: every integer's decimal spelling parses back to that integer |
| GoStrconv.AtoiPlusAndZeros | gomap.go:123-124 | a leading `+` and a leading zero in front of a digit string do not change what Atoi reads |
| PortRange.Bounds | gomap.go:119-127 | the part-count error happens exactly when the input lacks exactly one `-`; an error carries the input; accepted bounds satisfy 1 <= start <= end <= 65535 |
| PortRange.Range | gomap.go:129-132 | the range from lo to hi has hi - lo + 1 elements (none if lo > hi), and element k is lo + k |
| PortRange.ParsePorts | gomap.go:118-134 | the append loop gives exactly the specified result; on error the port list is empty; on success there are 1..65535 consecutive ports, all within 1..65535 |
| PortRange.SplitAtSoleDash | gomap.go:119-120 | a string whose only `-` is at index i splits into the text before i and the text after i |
| PortRange.RejectsWrongDashCount | gomap.go:119-121 | an input without exactly one `-` gives the `invalid port range` error |
| PortRange.RejectsMalformedNumber | gomap.go:123-126 | with one `-`, a side that is not an optional sign followed by digits (empty, non-digits, a sign alone) gives the `invalid port numbers` error |
| PortRange.AcceptsExactlyValidBounds | gomap.go:123-133 | with one `-` and integers a and b on its two sides, the parse gives ports a..b if 1 <= a <= b <= 65535, and the `invalid port numbers` error otherwise |
| PortRange.AcceptedHasFields | gomap.go:119-133 | every accepted input is `a-b` with a single `-`, sides that Atoi reads as a and b, 1 <= a <= b <= 65535, and ports a..b |
| PortRange.AcceptsDecimalRange | gomap.go:118-134 | for all 1 <= a <= b <= 65535, the string `"<a>-<b>"` is accepted and yields a..b |
| PortRange.AcceptedPortsWellFormed | gomap.go:125-133 | an accepted range has end - start + 1 ports, starts at start, ends at end, stays within 1..65535, rises by exactly one each step, and is strictly ascending, so it has no duplicates |
| PortRange.MessagesDiffer | gomap.go:121-126 | the two error messages of `Message` differ for every pair of inputs |
| PortRange.MessageInjective | gomap.go:121-126 | `Message`, the fixed prefix of each error followed by the input, determines the error: equal messages mean the same kind of error with the same input |
| PortRange.SoleDashOfCount | gomap.go:119-120 | an input with exactly one `-` has it at some index whose two sides are `-`-free, so the two-part lemmas apply from the dash count |
| PortRange.SinglePortRange | gomap.go:125-133 | `"22-22"` yields exactly `[22]` |
| PortRange.RejectsStartBelowOne | gomap.go:125-126 | `"0-100"` gives the `invalid port numbers` error |
| PortRange.RejectsEndAboveMax | gomap.go:125-126 | `"1-65536"` gives the `invalid port numbers` error |
| PortRange.RejectsStartAboveEnd | gomap.go:125-126 | `"80-20"` gives the `invalid port numbers` error |
| PortRange.AcceptsPlusSign | gomap.go:123-125 | `"+5-10"` is accepted and yields 5..10 |
| PortRange.AcceptsLeadingZeros | gomap.go:123-125 | `"08-010"` is accepted and yields 8..10 |
| PortRange.RejectsDegenerate | gomap.go:119-126 | `""` and `"1-2-3"` give the range error; `"-"` splits into two empty parts and gives the numbers error |

## Left out

- `scanTCPPorts` and `scanUDPPorts` (gomap.go:51-116) are left out. They are concurrent network probing: goroutines, a buffered-channel semaphore, `sync.WaitGroup`, `net.DialTimeout` and socket reads with deadlines.
- `grabBanner` (gomap.go:35-49) is left out. It is network I/O with a read deadline and console output.
- `init` and `main` (gomap.go:19-33, 136-166) and the colour constants (gomap.go:14-17) are left out. They are flag parsing, the usage banner, exit codes and printing.
- GoStrconv.Atoi: does not model the range error for values that overflow Go's `int` (32 or 64 bits). It returns the unbounded value instead. Every such value lies outside 1..65535, so parsePorts gives the same `invalid port numbers` error either way.
- Strings are sequences of characters rather than UTF-8 bytes. `-` and the digits are ASCII, and no byte of a multi-byte UTF-8 character equals one of them, so Split and Atoi behave the same on bytes.
- The loop counter and the ports are unbounded integers. This makes no difference, because the loop only runs when end <= 65535.
- Go distinguishes a nil slice from an empty one. The model does not, and does not need to: on success the result is never empty.
