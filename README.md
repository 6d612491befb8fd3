# cidr-ip, modelled in Dafny

cidr-ip is a browser page that takes an IPv4 block in CIDR notation
(`A.B.C.D/P`, section 3.1 of RFC 4632) and shows the following:

- its network and broadcast addresses;
- its size;
- the number of usable host addresses, with the first and last of them;
- a paged list of every address in the block, for blocks of at most 65,536;
- a newline-separated download of the addresses, capped at 1,000,000.

All of the logic is in `script.js`. This project models that logic and
proves what it computes.

| file | module | models |
|---|---|---|
| `wrappers.dfy` | `Wrappers` | `Option` and `Result` |
| `bits.dfy` | `Bits` | the 32-bit semantics of JavaScript's shift, and, or and not operators |
| `text.dfy` | `Text` | `split`, `join` and decimal reading and writing |
| `address.dfy` | `Address` | `ipToNum` and `numToIp` |
| `cidr.dfy` | `Cidr` | `parseCIDR`, `cidrCalc` and the summary the input handler derives |
| `session.dfy` | `Session` | the module-level state and the handlers |
| `examples.dfy` | `Examples` | worked cases |

### Address codec

**Bitwise operators.** The model uses unbounded naturals. `ToInt32` and
`ToUint32` are written out, and `&`, `|` and `~` are recursions over the
low 32 bits. Lemmas state each operator in arithmetic:

- masking with low ones keeps a remainder;
- masking with high ones rounds down;
- `~` complements;
- `>>>` divides.

**`ipToNum`.** There are two forms:

- `ParseAddress` states the result as the base-256 value of the four parts.
- `IpToNum` runs the source's loop, including the signed 32-bit wrap of
  `n << 8` on the fourth octet and the final `>>> 0`.

`IpToNum` is proved equal to `ParseAddress`.

**`numToIp`.** The codec is proved to round-trip over the whole address
space.

### CIDR engine

**`parseCIDR`.** The model separates the regular-expression match from the
number checks. The match is proved complete for every string of the
pattern's shape. The outcome for such a string is then given one error kind
at a time.

**`cidrCalc`.** It is proved to return an aligned block of
2^(32-prefix) addresses that contains the input address. Prefix 0 and
prefix 32 are stated exactly.

**Summary.** The usable count and the first and last usable addresses are
derived as the source does. Like the source, the model has no /31
exception.

### Session

The module-level state `currentPage`, `ipArray`, `lastNetwork`,
`lastBroadcast` and `lastTotal` is the class `Session.CidrSession`. Its
methods are the input, previous-page, next-page and download handlers.

**Invariant.** `Valid` holds at every step:

- the page is between 1 and the page count;
- the last accepted range is a well-formed block;
- a non-empty list is exactly that block's addresses, in order.

**Push loops.** The `push` loops are the method `Collect`, proved against
the function `Tabulate`. Lemmas about `Tabulate` state what the list and
the downloaded file hold:

- each line reads back as its own address;
- splitting the file at its newlines gives the list back.

### Behaviour kept from the code

- **Last range on empty or rejected input.** The code resets only
  `ipArray` and `currentPage` (script.js:96-103, 141-147). It keeps
  `lastNetwork`, `lastBroadcast` and `lastTotal`, so a later download still
  exports the last valid range. The summary cells also keep the last valid
  range's values.
- **Error kinds.** The code throws four messages, and the model keeps one
  `ErrorKind` per message:
  - `ShapeError` when the pattern does not match;
  - `IpFormatError` when the address does not split into four parts;
  - `OctetError` when a part is not in 0..255;
  - `PrefixError` when the prefix is above 32.

  The pattern guarantees four parts, so `IpFormatError` never reaches the
  caller of `parseCIDR`. `ParseCidr` and `CidrCalc` state this.

## Model

| member | source | states |
|---|---|---|
| Bits.ToInt32 | script.js:29 | the signed reading of the low 32 bits lies in [-2^31, 2^31) and has the same low 32 bits as its input |
| Bits.HalveIsDivision | script.js:36-38 | `Halve`, which `>>>` uses, shifts out k bits, which is division by 2^k |
| Bits.ShiftRightIsQuotient | script.js:36-38 | `ShiftRightUnsigned` (`v >>> k`) is the unsigned reading of v divided by 2^k, and below 2^(32-k) |
| Bits.ShiftLeftIsProduct | script.js:29 | `ShiftLeft` (`v << k`) is a signed 32-bit value congruent to v·2^k modulo 2^32 |
| Bits.BitAndLowOnes | script.js:36-39 | masking with k low one-bits (`& 255` for k = 8) leaves the residue modulo 2^k |
| Bits.BitAndBound | script.js:36-39 | `BitAnd` (`a & b`) is a 32-bit value no larger than either operand, so `& 255` is at most 255 |
| Bits.BitOrBound | script.js:63 | `BitOr` (bitwise or) is a 32-bit value no smaller than its 32-bit first operand |
| Bits.BitNotBound | script.js:60 | `BitNot` (`~a`) is a 32-bit value |
| Bits.BitNotValue | script.js:60 | `~a` on 32 bits is 2^32 - 1 - a |
| Bits.BitAndHighOnes | script.js:62 | masking with ones above the low h bits rounds down to a multiple of 2^h |
| Bits.BitOrLowOnes | script.js:63 | setting the low h bits of a multiple of 2^h adds 2^h - 1 |
| Text.Split | script.js:21 | `split` gives at least one piece, and no piece holds the separator |
| Text.SplitJoin | script.js:21 | splitting a join of separator-free parts gives back the parts |
| Text.JoinSplit | script.js:40 | `Join` (`join`) of the pieces of a split gives back the string |
| Text.JoinAvoids | script.js:40 | `Join` adds no character other than the separator |
| Text.DecimalRoundTrip | script.js:25 | reading back with `Number` the decimal text `Decimal(n)` gives n |
| Text.DecimalCanonical | script.js:40 | `Decimal(n)`, the number-to-string conversion `join` applies, is non-empty digits with no leading zero |
| Address.ParseOctet | script.js:25-28 | an accepted part is an octet, at most 255 |
| Address.ParseAddress | script.js:20-32 | an accepted address is below 2^32 |
| Address.ParseAddressSpec | script.js:21-31 | the format error exactly when the text does not split into 4 parts; the octet error exactly when 4 parts hold a non-octet; otherwise the value o0·2^24 + o1·2^16 + o2·2^8 + o3 |
| Address.IpToNum | script.js:20-32 | the loop with 32-bit `<<` and the final `>>> 0` returns what ParseAddress states, errors included |
| Address.ShiftStep | script.js:29 | `(n << 8) + x` read unsigned is n·256 + x for n below 2^24, with no wrap below 2^16 |
| Address.PrefixStep | script.js:24-30 | one loop step extends the accepted prefix by one octet and multiplies its value by 256 |
| Address.NumToIpOctets | script.js:34-41 | `NumToIp` (`numToIp`) writes the four bytes of the address, high byte first, in decimal |
| Address.ShiftedByte | script.js:36-38 | `(n >>> k) & 255` is the byte of n at bit k |
| Address.NumToIpParts | script.js:34-41 | the text `numToIp` writes splits into four octet texts whose base-256 value is the address |
| Address.AddressRoundTrip | script.js:20-41 | `ipToNum(numToIp(n)) == n` for every n below 2^32 |
| Address.OctetOfDecimal | script.js:25-27 | the decimal text of an octet is accepted as that octet |
| Cidr.MatchCidr | script.js:44-45 | a match splits the input into an address group of the dotted shape and a prefix group of one or two digits, joined by "/" |
| Cidr.MatchCidrComplete | script.js:44 | every string of the pattern's shape is matched, with its own groups |
| Cidr.ParseCidr | script.js:43-52 | the shape error exactly when the pattern does not match; never the format error; an accepted block has an address below 2^32 and a prefix at most 32 |
| Cidr.ParseCidrOfShape | script.js:44-50 | on text of the right shape: the octet error for a bad address, then the prefix error above 32, otherwise the parsed block |
| Cidr.CidrRoundTrip | script.js:34-52 | the text `numToIp(n) + "/" + prefix` parses back to the same block |
| Cidr.AddressShape | script.js:34-44 | `numToIp` writes text the CIDR pattern accepts as an address |
| Cidr.Mask | script.js:59-60 | the mask is 2^32 - 2^hostBits, with 0 for 32 host bits |
| Cidr.Calc | script.js:56-63 | total is 2^(32-prefix); network is ipNum rounded down to a multiple of total; broadcast is network + total - 1, below 2^32; network <= ipNum <= broadcast |
| Cidr.NetworkFacts | script.js:62 | `ipNum & mask` clears the host bits, and the block fits below 2^32 |
| Cidr.BroadcastFacts | script.js:63 | the bitwise or of network and `~mask` is network + 2^hostBits - 1 |
| Cidr.CalcFacts | script.js:59-63 | the network and broadcast formulas together |
| Cidr.BlockFits | script.js:62-63 | an aligned block that contains an address below 2^32 ends at or below 2^32 |
| Cidr.CidrCalc | script.js:54-66 | fails exactly when parseCIDR fails, with the same error; otherwise a well-formed block with the parsed prefix that contains the address |
| Cidr.CalcIdempotent | script.js:56-63 | calculating again from the network address gives the same range |
| Cidr.CalcPrefixZero | script.js:56-63 | prefix 0 gives mask 0, network 0, broadcast 2^32 - 1 and 2^32 addresses |
| Cidr.CalcPrefix32 | script.js:56-63 | prefix 32 gives network == broadcast == ipNum and one address |
| Cidr.Usable | script.js:117 | `Math.max(total - 2, 0)`: at least total - 2, and equal to it or to 0 |
| Cidr.Summarize | script.js:114-121 | usable is total - 2 for blocks of two or more addresses, else 0; first and last usable exist exactly when total > 2, are network + 1 and broadcast - 1, and span the usable count |
| Session.Collect | script.js:133-135 | the push loop builds exactly `Tabulate(f, lo, hi)`, the list `[f(lo), ..., f(hi - 1)]` |
| Session.TabulateInverse | script.js:133-135 | each entry of a tabulated list is undone by an inverse of the function |
| Session.AddressListAt | script.js:133-135 | entry k of the list from network up reads back as network + k: ascending, gap-free |
| Session.TabulateAvoids | script.js:182-186 | a character no entry's text holds is in no entry of the list |
| Session.NoNewline | script.js:186 | an address text holds no newline |
| Session.ExportLines | script.js:181-186 | the downloaded file split at its newlines gives back the listed addresses |
| Session.TotalPages | script.js:79-82 | at least one page; one for an empty list; otherwise the least count of pages of 256 that holds the list |
| Session.PageSlice | script.js:72-74 | page p holds entries (p-1)·256 onward, at most 256 of them, stopping only at the end of the list |
| Session.PagesCoverList | script.js:71-82 | pages 1 to totalPages, laid end to end, are exactly the list |
| Session.PagesFromSuffix | script.js:71-82 | the pages from p on are the list from entry (p-1)·256 on |
| Session.NextGuard | script.js:158 | `currentPage · 256 < length` exactly when the current page is not the last |
| Session.PageEmptyIff | script.js:72-82 | a page within the page count is empty exactly when the list is empty |
| Session.CidrSession.constructor | script.js:10-15 | page 1, empty list, no range accepted, total 0; `Valid` holds: page within the page count, last range a well-formed block, a non-empty list exactly its addresses |
| Session.CidrSession.View | script.js:71-86 | the rendered page number, page count and page slice; the page is empty only for an empty list |
| Session.CidrSession.Input | script.js:91-148 | keeps `Valid`; empty input and rejected input clear the list, return to page 1 and keep the last range; an accepted range is remembered, summarised, and listed in full when at most 65,536 addresses, otherwise warned about with its size |
| Session.CidrSession.Accept | script.js:105-136 | establishes `Valid`; remembers network, broadcast and total, resets to page 1, lists network..broadcast or warns above 65,536 |
| Session.CidrSession.PrevPage | script.js:150-155 | keeps `Valid`; moves back exactly when past page 1; the list and the range are untouched |
| Session.CidrSession.NextPage | script.js:157-162 | keeps `Valid`; moves on exactly when the current page is not the last; the list and the range are untouched |
| Session.CidrSession.Download | script.js:168-184 | nothing before a range is accepted; otherwise the newline-joined addresses from the network address up, all of them or exactly the first 1,000,000 when the block is larger |
| Examples.ExampleSlash24 | script.js:54-66 | address 10.0.0.0 with prefix 24 gives 10.0.0.0 to 10.0.0.255, 256 addresses, 254 usable, 10.0.0.1 to 10.0.0.254 |
| Examples.ExampleHost | script.js:117-121 | address 192.168.1.5 with prefix 32 gives a block of one address, none usable, and no first or last usable address |
| Examples.ExampleWholeSpace | script.js:56-63 | prefix 0 covers all 2^32 addresses, above both the listing limit and the download cap |
| Examples.ExampleSlash8 | script.js:128 | address 10.0.0.0 with prefix 8 gives 10.0.0.0 to 10.255.255.255, 16,777,216 addresses, too many to list or to download whole |
| Examples.ExampleShapeError | script.js:44-45 | "not-a-cidr" is refused by the pattern |
| Examples.ExampleOctetError | script.js:26-27 | "999.1.1.1/24" is refused for its octet |
| Examples.ExamplePrefixError | script.js:49 | "10.0.0.0/33" is refused for its prefix |
| Examples.ExamplePaging | script.js:72-82 | a list of 600 addresses makes three pages, page 1 its first 256 and page 3 its last 88; the next guard holds on page 2 and not on page 3 |

## Left out

- The page's DOM reads and writes (`getElementById`, `textContent`) are not modelled. The handlers return what they write instead: a `PageView`, an `InputOutcome`, or the file text.
- `alert` and `toLocaleString` in the download handler are presentation only. The alert is the `truncated` flag.
- The Blob, `URL.createObjectURL` and the link click that save the file are browser I/O. The download is the joined text it would contain.
- The clear button's `location.reload` and the footer year are browser I/O.
- The summary cells are not cleared on empty or rejected input (script.js:96-103, 141-147 do not write them), so they go on showing the last accepted block next to the error. `Cleared` and `Failed` carry only what those paths write, not the stale cells.
- `trim()` of the input is not modelled. `Session.CidrSession.Input` takes text that is already trimmed.
- `Address.ParseOctet` does not model the quirks of JavaScript's `Number()`, such as "" being 0 or "1e2" being 100. It reads ASCII-digit parts only, the only parts the CIDR pattern lets through, and refuses any other part as an octet.
- The wording of the thrown error messages is not modelled. Each message is one `ErrorKind`.
- The `prefix < 0` test in `parseCIDR` is not modelled separately. The pattern admits digits only, so it never holds.
- The six cells of the summary table are written with `Cidr.SummaryCells`, which carries no contract of its own. The derivations behind them are stated by `Cidr.Summarize`.
