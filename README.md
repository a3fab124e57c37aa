# AntiElectrophile: the MAC-address text pipeline

AntiElectrophile is a passive link-layer traffic monitor. Its capture loop
(`networkScanning`) takes each frame it captures, renders the decoded link
header with Rust's `Debug` formatting, and scrapes the source and destination
hardware addresses out of that text with a regular expression
(`extract_mac_addresses`). It formats each address as six upper-case hex pairs
joined by ':' (`format_mac`) and keeps a duplicate-free, first-seen-ordered
list of every address it has discovered (`listMac`).

This project models that pipeline in Dafny and proves its properties:

- `text.dfy` (module `Text`): `str::split(", ")` as `Split` and `join` as
  `Join`, and the fact that each undoes the other.
- `mac_format.dfy` (module `MacFormat`):
  - `u8` parsing (`ParseU8`), `{:02X}` rendering (`Hex2`) and `format_mac`
    (`FormatMac`);
  - the canonical address text of a list of octets (`Canonical`) and its
    layout;
  - its round trip back to the octets.
- `mac_extract.dfy` (module `MacExtract`):
  - the regular expression written out as a matcher (`MatchAt`: greedy `\d+`
    runs, the literal text, the closing bracket);
  - a declarative statement of the pattern, with proofs that the matcher finds
    exactly the pattern's matches and that a match at a position is unique;
  - the leftmost-match search (`FirstMatch`) and `extract_mac_addresses`
    (`ExtractMac`).
- `host_scan.dfy` (module `HostScan`):
  - the guarded pushes onto `listMac` (`RecordHosts`, specified by `Observed`);
  - the capture loop over a sequence of receive events (`NetworkScanning`),
    specified by the fold `ObserveAll` of `Observed` over the extraction
    results;
  - the lemmas that the list stays duplicate-free, holds every offered
    address, keeps prior entries and records addresses in first-seen order.
- `wrappers.dfy` (module `Wrappers`): `Option`.

The extractor reads the `Debug` text, not the header's fields, and
`format_mac` parses decimal text and returns `Option`, not a typed error. The
model follows that. Octets (`seq<Byte>`) enter as the input of `Canonical`
and of the lemmas relating text to octets: `CanonicalRoundTrip`,
`CanonicalOfPairs`, `DebugListIsGroup`, `FormatMacOfDebugList` and
`ExtractFromRendering`. The last two state what happens when the text really
is the rendering of a link header.

## Model

| member | source | states |
|---|---|---|
| `Text.SepIndex` | src/main.rs:33 | The index found is the leftmost occurrence of ", " at or after the start, or the end of the text when there is none. |
| `Text.SplitCons` | src/main.rs:33 | A comma-free head followed by ", " is split off as the first piece, and the rest is split on its own. |
| `Text.SplitNoComma` | src/main.rs:33 | A text without a comma splits into one piece, itself. |
| `Text.SplitFirst` | src/main.rs:33 | When a separator occurs, the first piece is the text before it and the remaining pieces are the split of the text after it. |
| `Text.JoinSplit` | src/main.rs:33 | Joining the pieces of a split with ", " gives back the input. |
| `Text.SplitJoin` | src/main.rs:33 | Splitting a ", "-join of comma-free pieces gives back those pieces. |
| `MacFormat.DigitChar` | src/main.rs:39 | The digit character of a value below 10 is an ASCII digit with that value. |
| `MacFormat.Decimal` | src/main.rs:39 | The decimal rendering of a number is a non-empty string of digits. |
| `MacFormat.Hex2` | src/main.rs:39 | `{:02X}` of an octet is exactly two upper-case hex digits, and their value read back is the octet. |
| `MacFormat.ParseCanonical` | src/main.rs:38-41 | Reading an address text succeeds exactly on canonical texts. The six octets read render back to the same text, so no two canonical texts read as the same octets. |
| `MacFormat.ParseAll` | src/main.rs:38-40 | Collecting the parsed pieces succeeds iff every piece parses as a `u8`; the values are the pieces' values, in order. |
| `MacFormat.FormatMac` | src/main.rs:32-44 | Returns Some iff the input splits into exactly six pieces and each parses as a `u8`. The result is then 17 characters: six upper-case hex pairs at offsets 3k and 3k+1, and ':' at offsets 3k+2. Hex pair k reads back as the value of piece k. |
| `MacFormat.CanonicalLayout` | src/main.rs:38-41 | For n octets, the joined pairs have length 3n-1; octet k's two digits sit at 3k and 3k+1, with ':' between consecutive pairs. |
| `MacFormat.CanonicalRoundTrip` | src/main.rs:38-41 | The canonical text of six octets reads back as exactly those octets. |
| `MacFormat.Hex2Of` | src/main.rs:39 | Two upper-case hex digits are the `{:02X}` rendering of the value they spell. |
| `MacFormat.CanonicalOfPairs` | src/main.rs:38-41 | A canonical text is the canonical form of the six octets its hex pairs spell. |
| `MacFormat.DecValueOfDecimal` | src/main.rs:39 | The value of a number's decimal rendering is that number. |
| `MacFormat.DecValueLeadingZero` | src/main.rs:39 | Putting a '0' in front of a digit string does not change its value. |
| `MacFormat.DecValueLeadingZeros` | src/main.rs:39 | Any number of leading zeros keeps a digit string all digits and keeps its value. |
| `MacFormat.ParseU8Decimal` | src/main.rs:39 | Every octet's decimal rendering parses back as that octet. |
| `MacFormat.ParseU8LeadingZeros` | src/main.rs:39 | Leading zeros are accepted: zero-padded decimal renderings of an octet parse to the octet. |
| `MacFormat.ParseU8Overflow` | src/main.rs:39 | A digit string whose value exceeds 255 is rejected, however many leading zeros it has. |
| `MacFormat.ParseU8Accepts` | src/main.rs:39 | "007" parses as 7, "255" as 255 and "+12" as 12. |
| `MacFormat.ParseU8Rejects` | src/main.rs:39 | "256", "", "+", "-1" and "1a" are all rejected. |
| `MacFormat.FormatMacOfDebugList` | src/main.rs:32-44 | The `Debug` list of six octets ("1, 2, 3, 4, 5, 6") always formats, to the canonical text of those octets. |
| `MacExtract.DigitRun` | src/main.rs:21 | The greedy `\d+` run starting at a position stays inside the text. |
| `MacExtract.DigitRunMaximal` | src/main.rs:21 | The run is all digits, and the character after it, if any, is not a digit. |
| `MacExtract.DigitRunExact` | src/main.rs:21 | Digits followed by a non-digit are exactly what the greedy run consumes. |
| `MacExtract.MatchNumbers` | src/main.rs:21 | Matching n ", "-separated digit runs consumes at least one character and ends inside the text. |
| `MacExtract.MatchNumbersSound` | src/main.rs:21 | What the number matcher consumes is a list of n digit strings separated by ", ", followed by a non-digit. |
| `MacExtract.MatchNumbersComplete` | src/main.rs:21 | A list of n digit strings separated by ", ", followed by a non-digit, is consumed in full by the number matcher. |
| `MacExtract.MatchAtSound` | src/main.rs:20-21 | Whatever the matcher reports at a position is a match there of the pattern `source: [..], destination: [..]` with six-number groups. |
| `MacExtract.MatchAtComplete` | src/main.rs:20-21 | Every match of the pattern at a position is what the matcher reports there, with the same two groups. |
| `MacExtract.MatchesAtText` | src/main.rs:20 | A match at a position is two six-number groups such that the text holds, from that position, the pattern's literal text with the groups in place. |
| `MacExtract.MatchUnique` | src/main.rs:20-21 | The groups of a match at a given position are uniquely determined. |
| `MacExtract.FirstMatch` | src/main.rs:21 | The search reports the smallest start at or after the given position at which the matcher succeeds, or None when it succeeds nowhere there. |
| `MacExtract.NoMatchPastEnd` | src/main.rs:21 | No match starts at or beyond the end of the text. |
| `MacExtract.FirstMatchExists` | src/main.rs:21 | The search from the start finds nothing exactly when no position of the text starts a match of the pattern. |
| `MacExtract.FirstMatchLeftmost` | src/main.rs:21 | When several positions match, the search returns the leftmost one with its groups. |
| `MacExtract.ExtractMac` | src/main.rs:19-30 | A successful extraction yields two canonical address texts. |
| `MacExtract.ExtractNoMatch` | src/main.rs:21 | Without any occurrence of the pattern there is no result. |
| `MacExtract.FormatMacOfGroup` | src/main.rs:23-27 | A captured group formats exactly when none of its six numbers exceeds 255. |
| `MacExtract.ExtractLeftmost` | src/main.rs:19-30 | With the leftmost match (g1, g2), the result is Some of the two formatted groups when both format, and None otherwise. It is None exactly when some captured number exceeds 255. |
| `MacExtract.DebugListIsGroup` | src/main.rs:21 | The `Debug` list of six octets is a capture group of the pattern. |
| `MacExtract.ExtractFromRendering` | src/main.rs:19-30 | A text holding the rendering of a link header with octets src and dst yields exactly their canonical texts. The rendering may follow any preamble without a lower-case 's' (a type or variant name) and be followed by anything. |
| `HostScan.Add` | src/main.rs:144-149 | A contains-guarded push puts the address in the list and adds at most one entry. It keeps prior entries as a prefix, adds entries only when the address was absent, and keeps a duplicate-free list duplicate-free. |
| `HostScan.Observed` | src/main.rs:140-153 | On failure the list is unchanged. On success the list contains src and dst, prior entries are a prefix, and at most two entries are added. The added entries are src (when absent), then dst (when absent and different from src), so exactly one is added when src == dst and it was new. Membership is exactly the old entries plus src and dst, and duplicate-freedom is kept. |
| `HostScan.RecordHosts` | src/main.rs:144-149 | The two guarded pushes, as written, produce the list `Observed` describes. |
| `HostScan.FirstIndex` | src/main.rs:144-149 | The first occurrence of an address in a stream is an occurrence with none before it. |
| `HostScan.Extracted` | src/main.rs:134-138 | An undecodable frame yields no addresses, and a decoded one yields canonical addresses when it yields any. |
| `HostScan.Handled` | src/main.rs:105-173 | The loop handles a prefix of the events that contains no receive error and is followed by one when it stops early. |
| `HostScan.NetworkScanning` | src/main.rs:91-173 | The loop stops on a receive error iff one occurs. The list it builds is the fold of `Observed` over the extraction results of the events before the first error, starting from the empty list, and it has no duplicates. |
| `HostScan.HandledPrefix` | src/main.rs:160-165 | A receive error ends the loop: what it handled is exactly the events before the first error. |
| `HostScan.ObserveAllPrefix` | src/main.rs:144-149 | Handling a run of results never removes or reorders existing entries. |
| `HostScan.ObserveAllNoDup` | src/main.rs:144-149 | A duplicate-free list stays duplicate-free over any run of results. |
| `HostScan.ObserveAllIsAddAll` | src/main.rs:144-149 | Handling a run of results is the same as pushing, one at a time, every address the results offer, src before dst. |
| `HostScan.AddAllMembers` | src/main.rs:144-149 | After the pushes, an address is in the list iff it was there before or was pushed. |
| `HostScan.ObserveAllMembers` | src/main.rs:144-149 | After a run of results, an address is in the list iff it was there before or some successful result offered it. |
| `HostScan.AddAllKnown` | src/main.rs:144-149 | Pushing addresses the list already contains changes nothing. |
| `HostScan.ObserveAllIdempotent` | src/main.rs:144-149 | Handling the same run of results a second time changes nothing. |
| `HostScan.FirstIndexPrefix` | src/main.rs:144-149 | An address in a prefix of a stream has its first occurrence there. |
| `HostScan.FirstIndexLast` | src/main.rs:144-149 | An address new at the end of a stream is first seen at the end. |
| `HostScan.FirstSeenExtend` | src/main.rs:144-149 | Extending the stream keeps the first occurrences of listed addresses where they were. |
| `HostScan.FirstSeenKnown` | src/main.rs:144-149 | Seeing a listed address again keeps the list in first-seen order. |
| `HostScan.FirstSeenNew` | src/main.rs:144-149 | Appending an address new to the stream keeps the list in first-seen order. |
| `HostScan.FirstSeenStep` | src/main.rs:144-149 | One guarded push keeps the list in the order in which its addresses first occur in the stream. |
| `HostScan.AddAllFirstSeen` | src/main.rs:144-149 | Pushing a stream onto an empty list gives its addresses in the order of their first occurrence. |
| `HostScan.HostsFirstSeen` | src/main.rs:91-173 | The host list built from empty has no duplicates and holds exactly the addresses the results offered. It lists them in first-seen order. |

## Left out

- Packet capture: the device lookup, the promiscuous open and `next_packet` (src/main.rs:93-102, 129). This is foreign I/O. The capture is modelled as a finite sequence of receive events, so the loop also ends when the events run out, not only on a receive error.
- Frame decoding by `etherparse::SlicedPacket::from_ethernet` and its `Debug` rendering (src/main.rs:134, 138). This is library code that is not shown. A decoded frame is represented by the text it renders to, and the extractor takes any string.
- The ARP builder `arpSpoofing` (src/main.rs:72-88): it only calls the library's packet builder with fixed arguments.
- The spinner thread, the `AtomicBool` flag and `join` (src/main.rs:106-132, 166-167), and the two-second `sleep` (src/main.rs:172). These are concurrency and timing; they do not affect the list.
- Terminal and colour output: the `println!`/`eprintln!` reports, `show_waiting_animation` (src/main.rs:46-70), the banner, `local_ip` (src/main.rs:177) and the `unimplemented!()` loop in `main` (src/main.rs:187-191).
- `Regex::new` failing (src/main.rs:20): the pattern is a constant that always compiles, so the matcher is total.
- `MacExtract.DigitRun`: `\d` is read as ASCII '0'..'9'. Rust's `\d` also matches other Unicode decimal digits, which `u8` parsing would then reject. So a text with such digits inside the pattern can give None in the program where the model finds no match, or finds a later one.
- `HostScan.Add`: `Vec::contains` is modelled by sequence membership, and `push` by appending to a sequence value, not by an in-place buffer.
