# Postcode: virtual address ⇄ page-walk fields

Postcode is a small GTK converter between a 64-bit virtual address and the
fields of its page walk (4 KiB granule, 48-bit VA, the layout of the AArch64
VMSAv8-64 translation scheme). Its main view has these rows:

- an address row, written in hexadecimal;
- a VA range selector, "Bottom" or "Top";
- four table-index rows, named L3, L2, L1 and L0 (L3 is bits 47..39);
- a page-offset row.

Every editable row carries an error icon while the last validity reported
for it is false. The icon follows those reports, not the row's current
text: the address handler marks an offset text such as "a" valid although
the offset row cannot read it, and a part edit that rewrites the address
row leaves that row's icon as it was. Two change handlers keep the rows in
step:

- Editing the address rewrites the range and the field rows.
- Editing a field (or the range) recomposes the address.

Each handler does nothing unless its row has the focus. This is what keeps
them from triggering each other without end.

This project models that core as it is written:

- `Numerals`: Rust's `u64` parsing (`from_str_radix`, `parse::<u64>`),
  printing (`to_string`, `{:x}`) and `trim_start_matches("0x")`.
- `AddressCodec`: composing an address from its fields with shifts and
  adds, and taking a canonical address apart.
- `Validity`: the `valid_setter` state machine.
- `Postcode`: `parse_from_entry`, and the `MainView` class whose two
  handlers change the rows and the validity indicators in place.
- `Scenarios`: concrete edits and edit cycles.
- `Findings`: the places where the address handler's masks and radix
  disagree with what the part handler reads back, and the round trip the
  handler was evidently meant to complete.

Integers are unbounded in the model. `U64` is the subtype `0 <= x < 2^64`.
A shift `a >> k` is `a / 2^k` and a mask `x & (2^w - 1)` is `x % 2^w`.

## Model

| member | source | states |
|---|---|---|
| Numerals.DigitValue | src/main.rs:114 | a character is a digit exactly when it is `0`-`9`, or (radix 16) `a`-`f` / `A`-`F`; its value is below the radix |
| Numerals.DigitChar | src/main.rs:124 | the printed digit is `0`-`9` or lower-case `a`-`f` and reads back as the same digit |
| Numerals.ToRadix | src/main.rs:120-124 | `to_string` / `{:x}` print a non-empty digit string whose value is the number printed |
| Numerals.PrintedDigits | src/main.rs:180 | a printed number has no leading zero unless it is 0, and uses only `0`-`9` and lower-case `a`-`f` |
| Numerals.ParsePrinted | src/main.rs:142 | parsing the printed form of any `u64` in the same radix gives the value back |
| Numerals.AcceptedText | src/main.rs:114 | `from_str_radix` (`ParseUnsigned`, with `ParseDec` for `parse::<u64>` and `ParseHex` for radix 16) accepts only a non-empty text of an optional `+` followed by digits: `+` and `0`-`9` for decimal, also `a`-`f` and `A`-`F` for hexadecimal; the digits after the `+` denote a value below 2^64, and that value is the result |
| Numerals.ParseOverflows | src/main.rs:114 | a digit text whose value is 2^64 or more is rejected (the overflow error), with or without a leading `+` |
| Numerals.ParseAcceptsPlusAndZeros | src/main.rs:142 | the parser accepts one leading `+` and any number of leading zeros without changing the value |
| Numerals.TrimSkipsPrefix | src/main.rs:114 | a `0x` in front of a text is trimmed away and the rest is trimmed as the text alone |
| Numerals.DigitValues | src/main.rs:114 | `0`-`9` are worth 0-9; in radix 16 `a`-`f` and `A`-`F` are worth 10-15, and a letter is worth the same in either case |
| Numerals.ParseRejects | src/main.rs:142 | the empty text, a lone `+`, `++`, a leading `-` and leading white space are rejected |
| Numerals.TrimHexPrefix | src/main.rs:114 | `trim_start_matches("0x")` removes a whole number of lower-case `0x` prefixes and leaves none at the front |
| Numerals.HexRoundTrip | src/main.rs:114 | the lower-case hexadecimal text of any `u64` survives the prefix trim and parses back to the same value |
| AddressCodec.RangeOf | src/main.rs:115-119 | an address is Bottom exactly when `a >> 48 == 0x0000` and Top exactly when `a >> 48 == 0xFFFF` |
| AddressCodec.Compose | src/main.rs:174-179 | the handler's sum never overflows `u64` (the result type) and lies in the block of its range: `base <= sum < base + 2^48` |
| AddressCodec.DecomposeFails | src/main.rs:115-119 | the reference nine/twelve-bit decomposition `Decompose` has no fields exactly for addresses from `2^48` up to below `0xFFFF_0000_0000_0000`, the ones between the two ranges |
| AddressCodec.ComposeLayout | src/main.rs:174-179 | within the bounds the sum stays in `u64`; its bits 63..48 are the range's, and each shift-and-mask (`0x1ff`, `0xfff`) recovers its field |
| AddressCodec.DecomposeCompose | src/main.rs:174-179 | taking a composed address apart gives back the fields it was composed from |
| AddressCodec.ComposeDecompose | src/main.rs:174-179 | the fields of every canonical address are within the bounds and compose back to the address |
| AddressCodec.SumIsBitwiseOr | src/main.rs:174-179 | on 64-bit words within the bounds, the handler's `+` of the shifted fields equals their bitwise or |
| Validity.ValidSetter.constructor | src/main.rs:86 | a new indicator starts valid with no icon |
| Validity.ValidSetter.Set | src/main.rs:89-96 | `was_valid` becomes the argument; the icon is added only on a valid-to-invalid change and removed only on invalid-to-valid; a repeated value changes nothing; the icon is shown exactly while invalid |
| Postcode.ParseFromEntry | src/main.rs:138-145 | the result is a value exactly when the text parses as a decimal `u64` below the limit, and then it is that value |
| Postcode.PartsOf | src/main.rs:168-172 | fields are read exactly when all five rows parse under their bounds; they are then the parsed values, within the bounds, with the selected range |
| Postcode.SelectedRange | src/main.rs:153-156 | combo item 0 gives base `0x0000_0000_0000_0000` and item 1 base `0xFFFF_0000_0000_0000` |
| Postcode.SelectionOf | src/main.rs:116-117 | the combo item chosen for a range is 0 or 1 and selects that range back |
| Postcode.ParseAddressSkipsPrefix | src/main.rs:114 | `ParseAddress` (trim, then hexadecimal) reads a text the same with or without a `0x` in front, and reads the printed form of every address back |
| Postcode.ParseFromEntryPrinted | src/main.rs:138-145 | a row holding the decimal text of `v` gives `v` when `v` is below the limit, and nothing otherwise |
| Postcode.AddressPartTextsRead | src/main.rs:120-124 | `AddressPartTexts` (the texts the address handler writes): each index text reads back as the five-bit field `(a >> k) & 0x1f`, accepted under the bound 512; the offset text is the hexadecimal of `a & 0x7ff` |
| Postcode.RecomposedAddressReadsBack | src/main.rs:174-180 | the address the part handler writes parses back through the address row, lies in the selected range, and decomposes into exactly the fields read |
| Postcode.MainView.constructor | src/main.rs:86 | a new view has empty rows, "Bottom" selected and every indicator valid |
| Postcode.MainView.SetPartsValid | src/main.rs:163-167 | each field row's `was_valid` becomes its argument, the address indicator is untouched, and repeating the current values changes nothing |
| Postcode.MainView.SetPartTexts | src/main.rs:120-124 | the five field rows hold the given texts; the address row and the range selection are untouched |
| Postcode.MainView.ShowAddress | src/main.rs:115-129 | the range follows bits 63..48 (left alone and reported invalid otherwise); the field rows hold the masked texts of the address and are all marked valid |
| Postcode.MainView.OnAddressChanged | src/main.rs:105-136 | unfocused: nothing changes; unparsable text: only the address indicator changes, to invalid; parsed: the address is valid exactly when canonical, the range follows its top bits, the field rows hold its masked texts and are marked valid; the address text is never changed |
| Postcode.MainView.OnPartChanged | src/main.rs:146-183 | unfocused: nothing changes; otherwise every field indicator becomes whether its row parses under its bound, the address text becomes the lower-case hexadecimal of the composed address when all five parse and is kept otherwise, and the address indicator, range and field texts are untouched |
| Scenarios.IndexBoundAccepts511 | src/main.rs:158 | an index row accepts "511" |
| Scenarios.IndexBoundRejects512 | src/main.rs:158 | an index row rejects "512" |
| Scenarios.MinusRejected | src/main.rs:142 | an index row rejects "-1" |
| Scenarios.OffsetBoundAccepts4095 | src/main.rs:162 | the offset row accepts "4095" |
| Scenarios.OffsetBoundRejects4096 | src/main.rs:162 | the offset row rejects "4096" |
| Scenarios.AddressWithoutPrefix | src/main.rs:114 | the address text "1f" reads as 31 |
| Scenarios.AddressWithPrefix | src/main.rs:114 | the address text "0x1f" reads as 31 |
| Scenarios.AddressWithRepeatedPrefix | src/main.rs:114 | the address text "0x0x1f" reads as 31 |
| Scenarios.MalformedAddresses | src/main.rs:114 | the address texts "0X1f", "0x" and "xyz" are rejected |
| Scenarios.TopAddressRange | src/main.rs:115-117 | `0xffff800012345000` is a Top address |
| Scenarios.TopAddressFieldTexts | src/main.rs:120-124 | the address handler writes "0", "0", "17", "5", "0" for `0xffff800012345000` |
| Scenarios.TopAddressTexts | src/main.rs:115-124 | for `0xffff800012345000` the written texts differ from its nine- and twelve-bit fields 256, 0, 145, 325, 0 |
| Scenarios.ZeroFieldsCompose | src/main.rs:168-180 | all-"0" rows in the Bottom range compose to the address text "0" |
| Scenarios.OutOfRangeOffsetRows | src/main.rs:158-162 | the rows "0", "17", "5" are accepted as indices and "5000" is rejected as an offset |
| Scenarios.OutOfRangeOffsetUnread | src/main.rs:168-172 | with the offset row at "5000" the part handler has no fields to compose |
| Scenarios.KeyByKeyOffsets | src/main.rs:168-180 | typed key by key, the offset texts "5", "50" and "500" beside the Top rows each compose fields (offset 5, 50, 500), so each keystroke rewrites the address row |
| Scenarios.AddressEditCycle | src/main.rs:105-136 | an address edit followed by the unfocused echoes of every row it writes ends in the state the address handler alone produces |
| Scenarios.PartEditCycle | src/main.rs:146-183 | a field edit followed by the unfocused echo of the address row ends in the state the part handler alone produces |
| Scenarios.ViewWithAddressText | src/main.rs:114 | a new view whose address row holds the printed form of `a` reads `a` back |
| Scenarios.TypeAddress | src/main.rs:105-136 | typing the printed form of any `u64` into a new view reads it back and shows its masked texts, all marked valid |
| Scenarios.TypeTopAddress | src/main.rs:114-129 | typing `0xffff800012345000` selects Top, marks it valid and shows "0", "0", "17", "5", "0" |
| Scenarios.EditSession | src/main.rs:146-183 | then changing the offset row to "5000" in one step (a paste) flags that row with the icon, keeps the index rows valid, and leaves the address row at the same address |
| Findings.LowAddressTexts | src/main.rs:120-124 | below one page every index row is written as "0" |
| Findings.MaskedToZeroTexts | src/main.rs:120-124 | an address whose five-bit index fields and eleven-bit offset are all zero has every row written as "0" |
| Findings.ZeroIndexRowsRead | src/main.rs:158-172 | with all index rows at "0", the part handler reads the Bottom fields exactly when the offset row parses |
| Findings.IndexMaskDropsBits | src/main.rs:120 | `0x1000_0000_0000` (L3 index 32) is written with all rows "0" and recomposes to address 0 |
| Findings.OffsetMaskDropsBit | src/main.rs:124 | `0x800` (offset 2048) is written with all rows "0" and recomposes to address 0 |
| Findings.OffsetRadixMismatch | src/main.rs:124 | `0x10` (offset 16) is written as "10", read back as ten, and recomposes to `0xa` |
| Findings.OffsetRadixRejected | src/main.rs:124 | `0xa` is written as "a", which the offset row then rejects, so nothing is recomposed |
| Findings.IntendedTextsRoundTrip | src/main.rs:120-124 | with nine- and twelve-bit masks and one radix, the rows of every canonical address read back as exactly its fields and compose to the address |

## Left out

- Application start-up, window and widget construction, layout and styling
  (`main`, `main_view` up to the rows) are presentation only.
- The GTK signal wiring through `connect_changed`, `connect_selected_item_notify`,
  `Rc` and `clone!` is left out. The handlers are methods of `MainView`.
  A widget's change signal is modelled as a later call to the handler
  with `focused == false`, not as a call nested inside `set_text`
  (`Scenarios.AddressEditCycle`, `Scenarios.PartEditCycle`).
- `focus_child()` is not modelled as GTK's focus tracking. It becomes the
  handler's `focused` parameter.
- The `data-error` image becomes the indicator's `iconAttached` flag plus
  the `IconCall` that `Validity.ValidSetter.Set` reports.
- The `panic!()` on a range selection other than 0 or 1 is not modelled.
  `vaRange <= 1` is part of `MainView.Valid()`, and every method keeps it.
- `checked_shr(48)` cannot fail for a shift of 48. The model divides by `2^48`.
- `trim_start_matches("0x")` removes only the lower-case prefix: `0X` is
  not stripped, so "0X1f" is rejected (`Scenarios.MalformedAddresses`).
- AddressCodec.SumIsBitwiseOr: stated on `bv64` words and not linked to
  `Compose` on integers. `Compose`'s own result type and
  `AddressCodec.ComposeLayout` carry the no-overflow and disjoint-fields
  facts on the integer side.
- The handlers keep the masks `0x1f` and `0x7ff` and the hexadecimal offset
  text as written. The corrected texts are only stated in `Findings`.

## Findings

| source | as written | input that shows it | evidently intended | confidence | as-written member | corrected member |
|---|---|---|---|---|---|---|
| src/main.rs:120-123 | each index is masked with `0x1f` (five bits), while the part handler accepts nine-bit indices below 512 | address `0x1000_0000_0000` (L3 index 32): the L3 row shows "0" and a field edit recomposes address 0 | mask `0x1ff` | high, not executed | Findings.IndexMaskDropsBits | Findings.IntendedTextsRoundTrip |
| src/main.rs:124 | the offset is masked with `0x7ff` (eleven bits), while the part handler accepts offsets below 4096 | address `0x800`: the offset row shows "0" and a field edit recomposes address 0 | mask `0xfff` | high, not executed | Findings.OffsetMaskDropsBit | Findings.IntendedTextsRoundTrip |
| src/main.rs:124, src/main.rs:142 | the offset is written in hexadecimal but read back in decimal | address `0x10`: the row shows "10", read as ten, recomposing `0xa`; address `0xa`: the row shows "a", which is then flagged invalid | one radix both ways | high, not executed | Findings.OffsetRadixMismatch | Findings.IntendedTextsRoundTrip |
