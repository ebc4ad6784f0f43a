# Objective-C trampoline renamer, modelled in Dafny

The plugin targets Binary Ninja and Mach-O binaries for arm64. Such a binary
holds its selector names as strings in a `__objc_methname` section. Its
`__objc_stubs` section holds five-instruction message-send stubs, called
trampolines. Each trampoline loads a selector and the `objc_msgSend` address
and branches.

The plugin walks the selector strings and follows each code reference that
lies in the stubs. It looks for a trampoline shape just before the reference:
ADRP, LDR, ADRP, LDR, BR. It tries three candidate starts, in a fixed order.
The first candidate with that shape, for which the host yields a function, is
renamed `_objc_sendMsg$<selector>`. The plugin counts the selectors it saw and
the trampolines it renamed.

The two plugin files `rename_objc_trampolines.py` and
`rename_objc_method_dispatch_trampolines.py` are identical line for line. The
table cites the first.

Modules:

- `Instructions` (`instructions.dfy`). Bytes are `bv8` and words `bv32`. It
  holds:
  - the ADRP, LDR and BR mask predicates, written as in the source;
  - their disjointness, and the exact set of words each accepts;
  - little-endian unpacking, with its inverse and its value as a byte-weighted
    sum.
- `Host` (`host.dfy`). The binary view is a value with these fields:
  - the byte image;
  - the symbols;
  - the code references;
  - the sections and the string starts;
  - the addresses where the host's find-or-create-function step succeeds.

  It also models `bv.read`, which may return fewer bytes than asked for.
- `Trampolines` (`trampolines.dfy`). It holds:
  - `read_le_instruction`;
  - the shape predicate, and the five-read loop `is_valid_objc_trampoline`
    proved against it;
  - the shape check's all-or-nothing behaviour;
  - the fact that two trampolines whose starts differ by a multiple of four
    cannot overlap (a reference's three candidates always do).
- `SelectorNames` (`selector_names.dfy`). It holds `is_selector_string` and
  the sanitising of names: drop four characters, strip one trailing
  `[0x<lower-case hex>]`, put `_objc_sendMsg$` in front.
- `Locator` (`locator.dfy`). It holds `process_selector_reference`:
  - the half-open stubs test;
  - the first-fit loop over `ref-20`, `ref-16`, `ref-24`;
  - the fall-through when the host yields no function.

  The loop is a method proved against the spec function `ReferenceOutcome`.
- `Plugin` (`plugin.dfy`). It holds `register_plugin`:
  - the section-lookup loops with `break`;
  - the early return when a section is missing or empty;
  - the counting loops, proved against the spec function `Scan`;
  - what the counts and the rename log mean.
- `Scenario` (`scenario.dfy`). A whole scan of a small image, where the first
  candidate fails and the second is renamed.

Notes on the code that the model follows as written:

- The ADRP mask `0x9F000000` fixes bit 24 to 0 and leaves bits 29 and 30
  free.
- The comment at line 23 names the top bytes `0x81` and `0x80`. The mask
  rejects both (`Instructions.AdrpTopByte`).
- The candidate starts have no region filter. A candidate below address 0
  fails its read.
- The tests `if not objc_methname_section:` and `if not objc_stubs_section:`
  are Python truth tests. Binary Ninja's `Section` has a length, so a matching
  section of length zero also stops the scan (`Plugin.ScanAbortsWithoutSections`).

## Model

| member | source | states |
|---|---|---|
| Instructions.IsAdrp | rename_objc_trampolines.py:18-24 | `is_adrp_instruction`: the word masked with 0x9F000000 equals 0x90000000. |
| Instructions.IsLdr | rename_objc_trampolines.py:26-32 | `is_ldr_instruction`: the word masked with 0xFF000000 equals 0xF9000000. |
| Instructions.IsBr | rename_objc_trampolines.py:34-39 | `is_br_instruction`: the word masked with 0xFFFFFC1F equals 0xD61F0000. |
| Instructions.ClassifiersDisjoint | rename_objc_trampolines.py:18-39 | No 32-bit word passes two of the ADRP, LDR and BR tests. |
| Instructions.Classify | rename_objc_trampolines.py:18-39 | Every word falls in exactly one of the classes ADRP, LDR, BR or none of them. |
| Instructions.AdrpTopByte | rename_objc_trampolines.py:23-24 | The ADRP test holds exactly when the top byte is 0x90, 0xB0, 0xD0 or 0xF0. The top bytes 0x80 and 0x81 that the comment names are rejected. |
| Instructions.LdrIsTopByte | rename_objc_trampolines.py:32 | The LDR test holds exactly when the top byte is 0xF9. This includes 0xF9000000, whose bits 22-23 are clear. |
| Instructions.BrIsBranchToRegister | rename_objc_trampolines.py:39 | The BR test holds exactly for 0xD61F0000 with some register number in bits 5-9; no other bit is free. |
| Instructions.BranchTo | rename_objc_trampolines.py:39 | The BR encoding built for register `reg` carries `reg` in bits 5-9. |
| Instructions.UnpackLe | rename_objc_trampolines.py:50 | `struct.unpack('<I', ...)` yields a word exactly when given four bytes. |
| Instructions.UnpackPack | rename_objc_trampolines.py:50 | Unpacking the little-endian bytes of a word gives the word back. |
| Instructions.PackUnpack | rename_objc_trampolines.py:50 | Packing an unpacked word gives the four bytes back, so unpacking loses nothing. |
| Instructions.UnpackIsWeightedSum | rename_objc_trampolines.py:50 | As an integer, the unpacked word equals b0 + 2^8 b1 + 2^16 b2 + 2^24 b3, and it is below 2^32. |
| Host.NonEmpty | rename_objc_trampolines.py:173-179 | The truth value of a section: it is true when the section has a non-zero length. |
| Host.InSection | rename_objc_trampolines.py:90 | Section membership is half-open: `start <= a < end`, the test used for the stubs and, at line 193, for `__objc_methname`. |
| Host.CodeRefs | rename_objc_trampolines.py:207 | `list(bv.get_code_refs(string.start))`: the references recorded for an address, in the host's order, or none when nothing is recorded. |
| Host.BackedRun | rename_objc_trampolines.py:47 | A read never returns more bytes than were asked for. |
| Host.BackedRunAt | rename_objc_trampolines.py:47 | Byte i of a read is the image's byte at address + i. |
| Host.BackedRunStops | rename_objc_trampolines.py:47 | A read that comes back short stopped at an unbacked address. |
| Host.ReadBytes | rename_objc_trampolines.py:47 | `bv.read` fails exactly at a negative address; otherwise it returns at most the requested length. |
| Trampolines.ReadLeInstruction | rename_objc_trampolines.py:41-54 | A word comes back exactly when the address is non-negative and all four of its bytes are backed; otherwise the result is `None`. |
| Trampolines.ReadIsUnpackOfRead | rename_objc_trampolines.py:45-54 | The word read is `None` when `bv.read` fails or returns fewer than four bytes. Otherwise it is the unpacked word. |
| Trampolines.ReadFourBytes | rename_objc_trampolines.py:47 | A four-byte read comes back whole exactly when all four addresses are backed, and then it holds the image's bytes. |
| Trampolines.ReadLeIsWeightedSum | rename_objc_trampolines.py:41-54 | A successful read is the byte-weighted sum of the image's four bytes, least significant first, and is below 2^32. |
| Trampolines.IsValidObjcTrampoline | rename_objc_trampolines.py:56-83 | The five-read loop with early return answers true exactly when the five words at start, +4, ..., +16 read successfully and are ADRP, LDR, ADRP, LDR, BR. |
| Trampolines.IsTrampoline | rename_objc_trampolines.py:70-77 | The shape: the five words at start, +4, +8, +12 and +16 all read, and they pass the ADRP, LDR, ADRP, LDR and BR tests in that order. |
| Trampolines.TrampolineOfWords | rename_objc_trampolines.py:70-77 | Given the five words read, the shape holds exactly when they pass the ADRP, LDR, ADRP, LDR and BR tests in that order. |
| Trampolines.FailedReadRejects | rename_objc_trampolines.py:65-67 | A failed read in any of the five slots makes the check false. |
| Trampolines.UnbackedByteRejects | rename_objc_trampolines.py:62-67 | One unbacked byte among the 20, or a negative start, makes the check false. |
| Trampolines.WrongSlotRejects | rename_objc_trampolines.py:70-79 | Overwriting any one slot with a word of the wrong class makes the check false, whatever the other slots hold. |
| Trampolines.StoredWrongClass | rename_objc_trampolines.py:70-79 | At a non-negative start, a slot overwritten with a word of the wrong class rejects the start. |
| Trampolines.SlotMismatch | rename_objc_trampolines.py:70-79 | A slot whose word reads back with the wrong class rejects the start. |
| Trampolines.TrampolineSlot | rename_objc_trampolines.py:70-77 | Each slot of an accepted start holds a word of the class the shape asks for. |
| Trampolines.ReadAfterStore | rename_objc_trampolines.py:45-51 | A word stored little-endian at a non-negative address reads back unchanged. |
| Trampolines.ReadOtherAfterStore | rename_objc_trampolines.py:45-51 | Storing a word leaves every word that does not overlap it unchanged. |
| Trampolines.StoredWordsReadBack | rename_objc_trampolines.py:62-68 | Each of several words stored one after another reads back. |
| Trampolines.StoreWordsKeepsBelow | rename_objc_trampolines.py:62-68 | Storing words from `start` on leaves any word that ends at or before `start` unchanged. |
| Trampolines.StoredShapeAccepted | rename_objc_trampolines.py:62-79 | Any five words of the classes ADRP, LDR, ADRP, LDR, BR, stored at a non-negative start, are accepted: the check rejects nothing of the right shape. |
| Trampolines.TrampolinesDoNotOverlap | rename_objc_trampolines.py:62-79 | Two accepted starts that differ by a multiple of four are at least 20 bytes apart. |
| Trampolines.ShiftedTrampolineClash | rename_objc_trampolines.py:70-77 | Two starts 4, 8, 12 or 16 bytes apart are never both accepted. |
| Trampolines.ClassesClash | rename_objc_trampolines.py:18-39 | One word never has two different shape classes. |
| SelectorNames.IsSelectorString | rename_objc_trampolines.py:5-16 | `is_selector_string`: a symbol sits at the string's start and its name starts with `sel_`. |
| SelectorNames.SelectorStringMeaning | rename_objc_trampolines.py:5-16 | A string is a selector exactly when a symbol sits at its start and the symbol's first four characters are `sel_`. The test is case-sensitive (`SEL_init` fails), and a missing symbol fails it. |
| SelectorNames.DropPrefix | rename_objc_trampolines.py:108 | `symbol.name[4:]`: the name without its first four characters, or the empty name when it is shorter. |
| SelectorNames.Sanitize | rename_objc_trampolines.py:108 | `sanitized_name`: the name without its first four characters and with one trailing `[0x<hex>]` removed. |
| SelectorNames.TrampolineName | rename_objc_trampolines.py:109 | `full_name`: `_objc_sendMsg$` followed by the sanitised name. |
| SelectorNames.IsLowerHexDigit | rename_objc_trampolines.py:108 | The character class `[0-9a-f]`: a decimal digit or a lower-case letter from `a` to `f`. |
| SelectorNames.IsHexSuffix | rename_objc_trampolines.py:108 | The strings the pattern `\[0x[0-9a-f]+\]` matches in full: `[0x`, at least one lower-case hex digit, then `]`. |
| SelectorNames.HexRunStart | rename_objc_trampolines.py:108 | Finds the longest run of lower-case hex digits that ends at a given index. |
| SelectorNames.StripHexSuffix | rename_objc_trampolines.py:108 | The result is a prefix of the input. If it differs, the removed tail is exactly one `[0x` + lower-case hex digits + `]`. If it does not differ, no tail of the input has that form. |
| SelectorNames.HexSuffixAt | rename_objc_trampolines.py:108 | A tail of that form starts three characters before the hex run that ends just before the final `]`. |
| SelectorNames.HexRunFrom | rename_objc_trampolines.py:108 | A hex run that cannot be extended to the left is the one found. |
| SelectorNames.HexSuffixUnique | rename_objc_trampolines.py:108 | At most one tail of a string has the suffix form, so the end-anchored substitution removes at most one suffix. |
| SelectorNames.TrampolineNameOfSelector | rename_objc_trampolines.py:106-109 | For a selector symbol `sel_` + rest, the new name is `_objc_sendMsg$` + rest, with the suffix removed exactly when rest ends in one. |
| SelectorNames.PlainNameExamples | rename_objc_trampolines.py:108-109 | `sel_initWithFrame:` gives `_objc_sendMsg$initWithFrame:`, `sel_bar` gives `bar`, and a name shorter than four characters gives the empty name. |
| SelectorNames.StripsHexSuffixExample | rename_objc_trampolines.py:108 | `sel_foo:[0x1000]` gives `foo:`. |
| SelectorNames.KeepsUpperCaseSuffixExample | rename_objc_trampolines.py:108 | `sel_x[0xAB]` gives `x[0xAB]`: upper-case hex is not stripped. |
| SelectorNames.StripsOnlyOnceExample | rename_objc_trampolines.py:108 | `sel_x[0x1][0x2]` gives `x[0x1]`: only the last suffix goes. |
| Locator.Candidates | rename_objc_trampolines.py:98-102 | `potential_starts`: 20, 16 and 24 bytes before the reference, tried in that order. |
| Locator.Accepts | rename_objc_trampolines.py:104-148 | A candidate is accepted when it has the trampoline shape and the host yields a function there, so the rename completes. |
| Locator.ReferenceOutcome | rename_objc_trampolines.py:85-152 | The rename one reference leads to: none outside the stubs; else the first accepted candidate, named after the selector; else none. |
| Locator.Examined | rename_objc_trampolines.py:89-105 | The candidates whose shape is checked: none outside the stubs, else every candidate up to and including the first accepted one. |
| Locator.FirstAccepted | rename_objc_trampolines.py:104-150 | Finds the first candidate that has the shape and gets a function. Every candidate before it was turned down. |
| Locator.FirstAcceptedAt | rename_objc_trampolines.py:104-150 | If nothing before position n is accepted and n is, then n is the first accepted position. |
| Locator.ProcessSelectorReference | rename_objc_trampolines.py:85-152 | The loop's result is the spec outcome: no rename outside the stubs, else a rename of the first accepted candidate with the sanitised name, else none. The ghost `tried` lists the candidates whose words were read: none outside the stubs, and none after the first accepted one. |
| Locator.ReferenceOutcomeMeaning | rename_objc_trampolines.py:89-152 | A reference yields a rename exactly when it lies in the stubs and some candidate is accepted. The renamed start is then 16 to 24 bytes before the reference, has the shape, and gets a function. It is the only candidate with the shape, and it gets the selector's trampoline name. |
| Locator.AtMostOneShape | rename_objc_trampolines.py:98-102 | No two of `ref-20`, `ref-16`, `ref-24` have the trampoline shape at once. |
| Locator.BinderFailureIsFinal | rename_objc_trampolines.py:111-152 | Falling through after a shape match whose function step fails never renames anything for that reference. |
| Locator.SecondCandidateWins | rename_objc_trampolines.py:98-105 | If `ref-20` lacks the shape and `ref-16` is accepted, `ref-16` is renamed, and only those two are examined. |
| Locator.LastCandidateNotExaminedAfterSuccess | rename_objc_trampolines.py:104-148 | Once `ref-20` or `ref-16` is accepted, `ref-24` is never examined. |
| Locator.OutsideStubsSkipped | rename_objc_trampolines.py:89-92 | A reference before the stubs' start, or at or after their end, is skipped with no read and no rename. |
| Plugin.LowerChar | rename_objc_trampolines.py:162 | `lower()` maps an ASCII capital to its small letter and leaves every other character alone. |
| Plugin.Lower | rename_objc_trampolines.py:162 | Lowering keeps the length and lowers each character in place. |
| Plugin.LowerIdempotent | rename_objc_trampolines.py:162 | Lowering twice is lowering once, and leaves no ASCII capital. |
| Plugin.Contains | rename_objc_trampolines.py:162 | Python's `in` on strings: the key occurs in the name as a contiguous substring. |
| Plugin.MatchesKey | rename_objc_trampolines.py:162 | A section matches a key when its lowered name contains the key. |
| Plugin.SectionLookup | rename_objc_trampolines.py:160-171 | The section a lookup loop settles on: the first matching section, or none. |
| Plugin.FirstMatch | rename_objc_trampolines.py:161-164 | Finds the first section whose lowered name contains the label; no earlier section matches. |
| Plugin.FirstMatchAt | rename_objc_trampolines.py:161-164 | If no section before position n matches and section n does, n is the first match. |
| Plugin.SectionLookupMeaning | rename_objc_trampolines.py:160-171 | The lookup finds nothing exactly when no section matches. Otherwise it finds a matching section that no earlier section precedes in matching. |
| Plugin.FindSection | rename_objc_trampolines.py:160-171 | The loop with `break` returns the section the lookup specifies. |
| Plugin.Found | rename_objc_trampolines.py:173-179 | `if not section:` passes when a section was found and its length is not zero. |
| Plugin.FirstMatchNonEmpty | rename_objc_trampolines.py:160-179 | Some section matches the key, and the first one that matches is not empty. |
| Plugin.FoundMeaning | rename_objc_trampolines.py:160-179 | A lookup passes the truth test exactly when some section matches and the first match is not empty. |
| Plugin.Selected | rename_objc_trampolines.py:191-196 | A string counts as a selector when it lies in `__objc_methname` and is a selector string. |
| Plugin.SelectorStrings | rename_objc_trampolines.py:191-196 | The selector strings of the string table, in table order. |
| Plugin.RefRenames | rename_objc_trampolines.py:207-213 | The renames a selector's code references lead to, in reference order. |
| Plugin.StringRenames | rename_objc_trampolines.py:191-213 | The renames of the whole string walk: each selector string's reference renames, in table order. |
| Plugin.Scan | rename_objc_trampolines.py:154-216 | The whole command: nothing when either section is missing or empty; else the selector count, the rename count and the rename log of the string walk. |
| Plugin.ScanStep | rename_objc_trampolines.py:191-213 | Scanning one more string appends that string to the selector list if it is selected, and its references' renames to the log. |
| Plugin.RefStep | rename_objc_trampolines.py:210-213 | Processing one more reference appends its rename, if any, to the log. |
| Plugin.ProcessReferences | rename_objc_trampolines.py:207-213 | The reference loop collects, in order, the renames that the references lead to. |
| Plugin.ScanOfSections | rename_objc_trampolines.py:173-216 | Once both sections are found and are not empty, the report holds the selector count, the rename count and the rename log of the string walk. |
| Plugin.RegisterPlugin | rename_objc_trampolines.py:154-216 | The section loops, the early returns and the nested counting loops produce exactly the report `Scan` gives. They produce nothing when a section is missing or has length zero. |
| Plugin.ScanAbortsWithoutSections | rename_objc_trampolines.py:160-179 | The scan stops before any string exactly when, for `__objc_methname` or for `__objc_stubs`, no section matches or the first matching section has length zero. In particular it stops when no section matches. |
| Plugin.SelectorCountMeaning | rename_objc_trampolines.py:191-196 | The selector count equals the number of string-table positions that hold a string inside `__objc_methname` with a `sel_` symbol. |
| Plugin.SelectorStringsMembers | rename_objc_trampolines.py:191-196 | The selectors counted are exactly the strings that lie in `__objc_methname` and have a `sel_` symbol. |
| Plugin.RefRenamesMeaning | rename_objc_trampolines.py:207-213 | A selector's references yield at most one rename each. Each rename comes from a reference in the stubs, names an accepted candidate for it, and carries the selector's trampoline name. |
| Plugin.StringRenamesMeaning | rename_objc_trampolines.py:187-213 | Over the strings scanned so far, there are no more renames than code references to selector strings. Every rename is justified by such a reference and named after its selector. |
| Plugin.ScanReportMeaning | rename_objc_trampolines.py:187-216 | In a completed scan, the selector count is the number of selector strings in `__objc_methname`. The trampoline count is the number of renames and at most the number of references to those selectors. Every rename is justified by one of those references. |
| Scenario.EmptyStubsAborts | rename_objc_trampolines.py:173-179 | With a matching `__objc_stubs` section of length zero, the scan stops before counting anything. |
| Scenario.ExampleShapes | rename_objc_trampolines.py:56-83 | The stub `adrp x1; ldr x1; adrp x16; ldr x16; br x16` is accepted. The start 20 bytes before the reference, whose first byte is unbacked, is not. |
| Scenario.ExampleLookups | rename_objc_trampolines.py:160-171 | With the stubs listed first, the `__objc_methname` loop passes over them, and each lookup finds its section. |
| Scenario.OneReferenceRenames | rename_objc_trampolines.py:98-152 | In the example, the reference falls through `ref-20` and renames `ref-16` to `_objc_sendMsg$initWithFrame:`. |
| Scenario.OneSelectorScan | rename_objc_trampolines.py:154-216 | For any image where the stub has the shape and `ref-20` does not, the example scan reports one selector, one trampoline and that one rename. |
| Scenario.ExampleScan | rename_objc_trampolines.py:154-216 | Whatever else the image holds, with nothing mapped 20 bytes before the reference, the scan reports one selector, one trampoline and the single rename of the stub. |

## Left out

- Logging (`log_info`, `log_error`) is presentation only and is not modelled.
- The `PluginCommand.register` call (lines 219-221) is registration glue and is not modelled.
- The host's function step is not modelled in detail. That step is `get_functions_at`, with `create_function` only when no function is found. Then, if a function results, it assigns `name`, calls `define_user_symbol` and `define_auto_symbol`, re-assigns `function_type`, and assigns `temp_name`. The model reduces it to one question: is the address in `bindable`? If so, the outcome is one `Rename(address, name)` event. Which function object the host returns, and how its analysis reacts to the renaming, are host behaviour.
- Renames are collected in the report's log rather than applied to the view. The model therefore assumes a rename does not change anything later steps read: bytes, code references, or the symbols at selector strings. A rename defines a symbol only at a trampoline start.
- Python exceptions become `None` or `false`, as the `try`/`except` blocks do. Exceptions from host calls that the code does not catch are not modelled: `bv.sections`, `bv.strings`, `get_symbol_at`, `get_code_refs`.
- A string-table entry is modelled by its start address only. The plugin never reads the string's text.
- The model treats `symbol and ...` as "a symbol exists". Host symbols are never falsy.
- The `$` anchor of Python's `re` is modelled as "at the end of the name". The model ignores that it also matches before a final newline; selector names contain no newlines.
- `str.lower()` is modelled for ASCII letters only. Unicode case mapping of section names is out of scope.
- Addresses are unbounded integers. A read at a negative address fails, which is how `bv.read` treats a candidate below zero.
- Plugin.ProcessReferences: the inner loop over a selector's references is its own method, so the outer loop adds the number of renames it returns to `trampoline_count`. The source adds one per successful reference, which gives the same count.
