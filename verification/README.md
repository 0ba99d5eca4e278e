# utcs-lab in Dafny

`utcs-lab` prints the name of the least loaded machine in the UTCS Unix lab.
It fetches the lab status page and finds every table row with one regular
expression. Each row becomes a `Host` with a name, an up/down flag, an
uptime, a user count and a load. The hosts go into a `BinaryHeap` whose
order is inverted on the load, and the program prints the host that comes
out first.

This project models everything between the page text and the printed name.

- **Characters and classes** (`chars.dfy`): the classes the row pattern
  uses. `\w` is letters, digits and `_`. `\d` is the ASCII digits plus the
  non-ASCII decimal digits that keep the parse failures reachable.
- **Numbers** (`numbers.dfy`): `usize::from_str` on the user count and
  `f64::from_str` on the load. Both accept only ASCII digits, with one
  optional dot in the load and at least one digit, as Rust's float parser
  has since its 2015 rewrite. The load is modelled as an exact decimal
  (`real`).
- **Rows** (`rows.dfy`): the row pattern as a sequence of tokens and a
  matcher that never backtracks. For a *deterministic* pattern this matcher
  finds a match exactly when one exists (`Rows.MatchTokensComplete`; for
  the row pattern, `Rows.MatchRowSpec`). A pattern is
  deterministic when its alternatives start with different letters, and when
  each capture is followed by a literal that the capture's class cannot
  continue into. The row pattern is proved deterministic
  (`Rows.RowDeterministic`). The five captures of a matched row are in their
  classes.
- **Hosts** (`hosts.dfy`): `Host` and its `PartialEq`, `PartialOrd` and
  `Ord` implementations.
- **Queue** (`queue.dfy`): `captures_iter` as leftmost, non-overlapping
  matches; the coercion loop of `get_queue`; `BinaryHeap::pop`; and `main`
  without the network and the print.

## Model

| member | source | states |
|---|---|---|
| Hosts.PartialCmp | src/main.rs:37-47 | always `Some`; `Equal` exactly when the loads are equal, `Less` exactly when `self` is more loaded, `Greater` exactly when it is less loaded |
| Hosts.Cmp | src/main.rs:49-53 | the `unwrap` never panics; `Equal` exactly when `eq` holds; `Greater` exactly when `self` has the lower load |
| Hosts.CmpAntisymmetric | src/main.rs:37-53 | swapping the two hosts reverses the ordering |
| Hosts.EqEquivalence | src/main.rs:29-35 | `eq` is reflexive, symmetric and transitive, as `impl Eq` promises |
| Hosts.EqIgnoresIdentity | src/main.rs:29-33 | for any two hosts, `eq` does not change when one takes every field but the load from the other; hosts with the same load are equal and compare `Equal` |
| Hosts.AtLeastTotalPreorder | src/main.rs:49-53 | the heap order is total and transitive |
| Hosts.AtLeastMeansLighter | src/main.rs:41-44 | a host ranks at least as high as another exactly when its load is no higher |
| Numbers.ParseUsers | src/main.rs:118-122 | succeeds exactly on non-empty ASCII digit strings; the value is below ten to the number of digits |
| Numbers.ParseUsersRoundTrip | src/main.rs:118-122 | a count printed in decimal parses back to itself |
| Numbers.ParseUsersPadded | src/main.rs:118-122 | a count padded with leading zeros parses back to itself |
| Numbers.ParseLoad | src/main.rs:124-128 | succeeds exactly on ASCII digits with at most one dot and at least one digit, with no length limit; the value is never negative |
| Numbers.ParseLoadSplit | src/main.rs:124-128 | `whole.frac` parses to the whole part plus the fraction over ten to the number of fraction digits |
| Numbers.ParseLoadFraction | src/main.rs:124-128 | a load printed as `w.f` with `m` fraction digits parses back to `w + f / 10^m` |
| Numbers.ParseLoadWhole | src/main.rs:124-128 | a load printed without a dot parses back to itself |
| Numbers.ParseLoadPadded | src/main.rs:124-128 | a load padded with leading zeros, such as `007`, parses back to its value |
| Numbers.ParseLoadLeadingDot | src/main.rs:124-128 | a load printed as `.f` parses back to its fraction |
| Numbers.ParseLoadRejects | src/main.rs:124-128 | `1.2.3`, `.` and a load with an Arabic-Indic digit do not parse |
| Rows.MatchToken | src/main.rs:98-111 | a token matched at `i` is spelled out at `i`, and the match ends right after it |
| Rows.MatchTokens | src/main.rs:98-111 | a pattern matched at `i` has pieces that fit it, its text occurs at `i`, and the match ends right after that text |
| Rows.MatchTokensComplete | src/main.rs:98-111 | for a deterministic pattern, any fitting text at `i` is exactly what the matcher finds |
| Rows.RowDeterministic | src/main.rs:98-111 | the row pattern is deterministic |
| Rows.RowFieldClasses | src/main.rs:101-109 | the captures are, in order, `[\w-]+`, `[\w-]+`, `[\d\+:,]+`, `\d+` and `[\d\.]+` |
| Rows.CapturesClasses | src/main.rs:101-109 | each capture is non-empty and lies in the class of its group |
| Rows.MatchRowSpec | src/main.rs:98-114 | the matcher finds a row at `i` with given pieces and end exactly when the row pattern with those pieces spells out the text at `i` |
| Rows.MatchNeedsTag | src/main.rs:99 | a pattern that opens with `<tr>` matches only at a `<` and never matches empty text |
| Rows.RowCaptures | src/main.rs:114-117 | a matched row has five captures, each in its class |
| Rows.RowNameAndUptime | src/main.rs:115-117 | the captured host name is non-empty `[\w-]` and the uptime non-empty `[\d+:,]` |
| Rows.CellFits | src/main.rs:100-101 | a cell written out from its parts fits the cell pattern and captures its field |
| Rows.CellsFits | src/main.rs:100-109 | cells written one after another fit the cells pattern and capture their fields in order |
| Rows.RowFits | src/main.rs:98-111 | a row written out from its parts fits the row pattern, and its captures are its five fields |
| Queue.Scan | src/main.rs:114 | the matches found are the leftmost, non-overlapping ones, in order |
| Queue.LeftmostUnique | src/main.rs:114 | there is only one leftmost, non-overlapping sequence of matches |
| Queue.ScanIsLeftmost | src/main.rs:114 | a sequence of matches is what the scan returns exactly when it is leftmost and non-overlapping |
| Queue.ScanSkipsText | src/main.rs:114 | text without `<` in front of the rows changes nothing |
| Queue.ScanRendered | src/main.rs:114 | matches written one after another, followed by text without `<`, are found one for one |
| Queue.RowsFrom | src/main.rs:98-114 | the rows found are leftmost and non-overlapping, and each fits the row pattern |
| Queue.CapturesOf | src/main.rs:114-117 | one capture list per match, in page order |
| Queue.RowFields | src/main.rs:115-117 | each row has five fields; its host name and uptime are in their classes |
| Queue.ToHost | src/main.rs:115-137 | succeeds exactly when both numbers parse; fails on the user count exactly when it does not parse, and on the load exactly when the count parses and the load does not; copies the host name and uptime; `up` exactly when the status is `up`; the numbers are the parsed values |
| Queue.StatusText | src/main.rs:116 | the status text reads `up` exactly for an up host |
| Queue.ToHostRoundTrip | src/main.rs:115-137 | a host written out as the page writes it coerces back to itself |
| Queue.ToHostExample | src/main.rs:115-137 | a concrete row coerces as expected, up or down |
| Queue.ToHostBadLoad | src/main.rs:124-128 | a load with two dots stops the program |
| Queue.ToHostBadUsers | src/main.rs:118-122 | a user count that `\d` accepts but `from_str` rejects stops the program, before the load is read |
| Queue.CoerceRow | src/main.rs:115-128 | a row coerces exactly when its user count and load parse; the host name and uptime are its first and third captures, and `up` holds exactly when the second reads `up` |
| Queue.CoerceAll | src/main.rs:114-139 | succeeds exactly when every row coerces; then one host per row, in order; otherwise the failure of the first row that does not coerce |
| Queue.CoercedHosts | src/main.rs:115-117 | every host built copies its row's host name and uptime, so they stay in their classes |
| Queue.PageFields | src/main.rs:98-117 | one list of five captures per row found on the page, in page order; the host name and uptime are in their classes |
| Queue.GetQueue | src/main.rs:95-142 | succeeds exactly when every row of the page coerces; then one host per row, in page order, each the coercion of that row's captures, with the host name and uptime copied from them; otherwise the failure of the first row that does not coerce; a page without rows gives no hosts; it never fails for lack of hosts |
| Queue.ScanPage | src/main.rs:114 | for any deterministic pattern opening with `<`, matches written one after another between texts without `<` are exactly the matches found |
| Queue.RowsOfPage | src/main.rs:98-114 | a page of rows between text without `<` holds exactly those rows |
| Queue.GetQueueOfRows | src/main.rs:95-142 | such a page yields one host per row, in order, exactly when every row coerces |
| Queue.Pop | src/main.rs:148 | `None` exactly on an empty heap; otherwise a host of the heap that ranks at least as high as every host, with the rest of the heap left over |
| Queue.GreatestLoadsAgree | src/main.rs:148 | every host `pop` may return has the same load, so only the name printed for a tie is open |
| Queue.DownHostSelected | src/main.rs:145-148 | a down host that is strictly least loaded is the only host `pop` may return |
| Queue.LeastLoadedHost | src/main.rs:144-148 | a page whose rows do not all coerce gives that failure; a page without rows gives `EmptyQueue`; a page with at least one row, all of which coerce, gives the name of a host with the least load |

## Left out

- `get_utcs_html` (src/main.rs:55-92): DNS, the TCP connection and the HTTP request. The page is a parameter.
- The `print!` in `main`: `Queue.LeastLoadedHost` returns the name instead.
- A panic (`expect`, `unwrap`) is modelled as a `Failure` value, not as ending the process.
- The regular-expression engine in general: only this one row pattern, as tokens, with the proof that the non-backtracking matcher is exact for it.
- `.` with `(?s)` matches any character, including newlines; the model matches any character too. Line anchors under `(?m)` do not occur in the pattern.
- Unicode classes: `\w` is ASCII letters, digits and `_`. `\d` is the ASCII digits plus the Arabic-Indic, Extended Arabic-Indic, Devanagari and Fullwidth digits. The other Unicode letters and digits that Rust's classes also accept are not modelled.
- Numbers.ParseUsers: does not model `usize` overflow; a count of 2^64 or more makes `from_str` fail and the program stop, but here it parses.
- Numbers.ParseLoad: does not model `f64` rounding or overflow; the load is the exact decimal the text spells. The grammar is that of Rust's float parser since its 2015 rewrite (ASCII digits, at most one dot, at least one digit); the crate's `#![feature(lookup_host, ip_addr)]` (src/main.rs:5) ties it to a nightly of that period, and an older release may read a lone `.` as 0 rather than reject it, as `Numbers.ParseLoadRejects` states. That parser also rejects a load whose significant digits span more than 375 places, which the model parses.
- Queue.GetQueue: `get_queue` pushes the hosts into a `BinaryHeap`; the model returns them in page order, and `Queue.Pop` takes that sequence as the heap's contents.
- Queue.Pop: `BinaryHeap` is modelled by its contents; the heap's internal layout and push order, and so which of several equally loaded hosts comes out, are not modelled.
- A row whose user count or load does not parse stops the program (`expect`); it is not skipped (`Queue.ToHostBadLoad`, `Queue.CoerceAll`).
- Among hosts with equal loads, `BinaryHeap` promises no order, so which of them is printed is open (`Queue.GreatestLoadsAgree`).
- A page without rows makes `unwrap` panic; the model returns `Err(EmptyQueue)`.
- Down hosts are not excluded from the selection, as in the code (`Queue.DownHostSelected`).
