# FFX section reader

An After Effects preset file (`.ffx`) is a big-endian, RIFX-style chunk container. Each
section starts with a 4-byte type tag and a 4-byte big-endian length. `RIFX` and `LIST`
sections are containers: a 4-byte form type follows the header, then child sections.
Every other tag holds a leaf payload whose shape depends on the tag. The reader in
`src/main.ts`, `FFXStructureAnalyzer`, walks a buffer with a read cursor. It skips zero
padding before each section and accepts only 29 allow-listed tags. It rejects a declared
length above 10000 or one that runs past the buffer. Where an allow-listed tag has an arm
in the tag switch, that arm decodes the payload; all others become opaque spans. Any read
past the end of the buffer turns the whole section into `null`.

The project has six modules:

- `Wrappers` holds `Option`, which stands for the source's `null` and for every exception
  the reads raise (the `catch` of `parseSection` turns them all into `null`).
- `Bytes` holds bytes, unsigned 32-bit words, the big-endian read, `Buffer.slice` with its
  clamping, and the removal of trailing NUL bytes.
- `Sections` holds the section tree (`Section`, with its `Payload` variant in place of
  the loosely typed `value`, `data` and `children`), the tag registry, and the reader as
  pure functions of the buffer. These are `Parse`, `ParseAt`, `ParseBody`,
  `ContainerChildren`, `DecodeLeaf` and `ScannedChildren`.
- `Analyzer` holds the class `StructureAnalyzer`, with the buffer and a mutable
  `position`. Its methods follow the source's statements: the cursor reads, the
  zero-skip loop, the tag switch and the child loops. Each is proved to compute the
  matching function of `Sections`.
- `Properties` holds what the reader promises, proved over those functions:
  - exactly when it returns `null`;
  - where a section is found and what its header holds;
  - what each kind of leaf carries;
  - the order of a container's children;
  - when the two child walks agree.
- `Scenarios` holds concrete buffers and the section trees the reader makes of them.

Tags and text are compared and kept as raw bytes. The source decodes them as UTF-8
first. A 4-byte sequence decodes to a 4-character ASCII tag exactly when it is those
four ASCII bytes, since an invalid byte becomes U+FFFD, which is not ASCII. So the
allow-list check and the tag switch are byte comparisons. Trailing NUL characters are
exactly trailing zero bytes.

Some behaviour of the code is easy to misread, and the model keeps it as written:

- The container loop stops at `offset + length`. When the length is 12, the first child
  position `offset + 12` already reaches that bound. So `RIFX u32be(12) FaFX head
  u32be(4) 00000001` is a container with no children, and the `head` section after it
  is a section of its own (`Scenarios.ContainerBoundExample`).
- The tdmn and tdsn arms read `length - 8` bytes after the header. The fnam arm takes
  the span from the end of the header to `offset + length`.
- The header check accepts a section when `offset + length` is within the buffer. It
  does not require room for the 8 header bytes beyond that.
- Only tdb4 reads a number of words that depends on the declared length. tdsb, tdsl,
  tdps and parn read their words whatever the length says
  (`Scenarios.RecordIgnoresLengthExample`).

## Model

| member | source | states |
|---|---|---|
| Analyzer.StructureAnalyzer.constructor | src/main.ts:16-22 | the analyzer holds the given buffer with the cursor at 0 |
| Analyzer.StructureAnalyzer.ReadString | src/main.ts:24-35 | fails exactly when `position + n` passes the end of the buffer, leaving the cursor alone; otherwise returns the `n` bytes at the cursor and moves the cursor past them |
| Analyzer.StructureAnalyzer.ReadUInt32 | src/main.ts:37-46 | fails exactly when fewer than four bytes remain; otherwise returns the big-endian word at the cursor and moves the cursor four bytes on |
| Analyzer.StructureAnalyzer.ParseSection | src/main.ts:48-238 | returns exactly the section `Parse(buffer, offset)` describes, or `None` where the source returns `null`; the buffer is not changed |
| Analyzer.StructureAnalyzer.SkipZeroBytes | src/main.ts:56-62 | the loop leaves the cursor at `SkipZeros` of where it started: the first non-zero byte or the end of the buffer |
| Analyzer.StructureAnalyzer.ParseSectionBody | src/main.ts:97-230 | the tag switch on an accepted header computes `ParseBody`: a container with its form type and children, or the leaf decoder's payload |
| Analyzer.StructureAnalyzer.CollectChildren | src/main.ts:98-135 | the RIFX and LIST child loops collect exactly `ContainerChildren(buffer, start, end)` |
| Analyzer.StructureAnalyzer.ReadLeaf | src/main.ts:137-229 | the leaf arms compute `DecodeLeaf`: text, record, scalar, tdb4 or opaque span by tag, `None` on an overflowing read |
| Analyzer.StructureAnalyzer.ReadText | src/main.ts:137-166 | the fnam, tdmn and tdsn arms compute `DecodeText` and never fail |
| Analyzer.StructureAnalyzer.ReadRecord | src/main.ts:143-204 | the tdsb, tdsl, tdps and parn arms read 3, 4, 2 and 1 words from the cursor (`RecordAt`), failing when they pass the end |
| Analyzer.StructureAnalyzer.ReadTdb4 | src/main.ts:206-225 | the tdb4 arm computes `DecodeTdb4`: four or eight words, then the rest of the span as trailing data when the cursor has not reached `offset + length` |
| Analyzer.StructureAnalyzer.ReadFourWords | src/main.ts:207-219 | fails exactly when fewer than 16 bytes remain; otherwise returns the four consecutive big-endian words at the cursor and moves 16 bytes on |
| Analyzer.StructureAnalyzer.ParseChildren | src/main.ts:282-300 | the unused helper collects exactly `ScannedChildren(buffer, start, start + length)` |
| Bytes.U32AtDigits | src/main.ts:43 | the four bytes of a big-endian read are the base-256 digits of the word, most significant first |
| Bytes.U32AtInjective | src/main.ts:43 | two reads give the same word only when they read the same four bytes |
| Bytes.U32At | src/main.ts:43 | `readUInt32BE`: the big-endian value of four bytes; `Bytes.U32AtDigits` and `Bytes.U32AtInjective` state its laws |
| Bytes.WordsSplit | src/main.ts:207-219 | reading `n + m` consecutive words is reading `n` words and then `m` more where they end, as tdb4 reads `value1` to `value4` and then `value5` to `value8` |
| Bytes.Slice | src/main.ts:196 | `Buffer.slice`: both ends clamped to the buffer, empty when the end is at or before the start; `Properties.OpaqueLeafIsVerbatim` and `Properties.TextLeaf` state what the arms take with it |
| Bytes.StripTrailingNul | src/main.ts:139 | the result is a prefix of the input, ends in a non-zero byte or is empty, and only zero bytes were removed |
| Bytes.StripTrailingNulIdempotent | src/main.ts:139 | stripping twice is stripping once, and a sequence is left alone exactly when it does not end in NUL |
| Sections.IsValidSectionType | src/main.ts:247-280 | `validTypes.includes(type)` as a front-to-back search of the 29 tags in the source's order; `Properties.ValidSectionTypes` states that it is membership |
| Sections.Parse | src/main.ts:48-95 | the section read at `off`, or `None` for `null`: past the end gives `None`, otherwise the zero skip and then `ParseAt`; `Properties.ParseFailsExactlyWhen` and `Properties.ParsedSectionHeader` state its behaviour |
| Sections.ParseAt | src/main.ts:68-84 | the tag read, allow-list check, length read and length checks at `p`, then `ParseBody`; `Properties.ParseAtUnfold` and `Properties.ParseAtHeader` state them |
| Sections.ParseBody | src/main.ts:90-230 | the tag switch on an accepted header; `Properties.ParseBodyPayload` states its result |
| Sections.ContainerChildren | src/main.ts:98-135 | the children the RIFX and LIST loops collect; `Properties.ContainerChildrenInOrder`, `Properties.ChildrenReparse` and `Properties.RevisitedChild` state their properties |
| Sections.DecodeLeaf | src/main.ts:137-229 | the leaf arms of the switch; `Properties.TextLeaf`, `Properties.RecordLeaf`, `Properties.ScalarLeaf`, `Properties.Tdb4Leaf` and `Properties.OpaqueLeafIsVerbatim` state each arm |
| Sections.DecodeText | src/main.ts:137-166 | the fnam, tdmn and tdsn arms; `Properties.TextLeaf` states them |
| Sections.RecordAt | src/main.ts:143-204 | the tdsb, tdsl, tdps and parn word reads; `Properties.RecordLeaf` states them |
| Sections.DecodeTdb4 | src/main.ts:206-225 | the tdb4 arm; `Properties.Tdb4Leaf` states it |
| Sections.ScannedChildren | src/main.ts:282-300 | the children `parseChildren` collects; `Properties.WalksAgreeWithoutPadding` relates them to the container loop |
| Sections.SkipZeros | src/main.ts:56-62 | the skip never moves backwards and, when it moves, stays within the buffer |
| Sections.SkipZerosSkipsZeros | src/main.ts:56-62 | every byte skipped is zero, and the skip stops at the end of the buffer or at a non-zero byte |
| Sections.NextChild | src/main.ts:106-107 | the next child position is even and is `at + length + 8` or one more |
| Sections.ContainerChildrenStep | src/main.ts:102-108 | appending the child found at `at` and continuing from `NextChild` keeps the collected prefix plus the rest equal to all the children |
| Sections.ContainerChildrenStop | src/main.ts:102-108 | when the loop reaches `end` or a child fails, the children collected so far are all of them |
| Sections.ScannedChildrenStep | src/main.ts:287-297 | one `parseChildren` step keeps the collected prefix plus the rest equal to the whole walk |
| Properties.IncludesIsMembership | src/main.ts:279 | the front-to-back search finds a tag exactly when it is in the list |
| Properties.ValidSectionTypes | src/main.ts:247-280 | a tag is valid exactly when it is one of the 29 on the list |
| Properties.AllowListed | src/main.ts:247-280 | every tag on the list is valid |
| Properties.SkipZerosLands | src/main.ts:56-62 | when only zeros lie in `[p, q)` and `q` is the end or holds a non-zero byte, the skip from `p` stops at `q` |
| Properties.SkipZerosMonotone | src/main.ts:56-62 | asking further into the buffer never finds an earlier section start |
| Properties.ParseAtUnfold | src/main.ts:68-97 | reading at a position is the header check at that position followed by the tag switch |
| Properties.ParseUnfold | src/main.ts:48-97 | reading at `off` is the zero skip, then the header check at the first non-zero byte, then the tag switch |
| Properties.ParseFailsExactlyWhen | src/main.ts:48-237 | `null` exactly when the offset is past the end, or the header at the first non-zero byte is rejected or unreadable, or the arm's cursor reads pass the end |
| Properties.ParseOnlyZeros | src/main.ts:52-73 | when only zero bytes remain from `off`, there is no section |
| Properties.ParseAllZeroBuffer | src/main.ts:52-73 | a buffer of zeros holds no section |
| Properties.ParseBodyPayload | src/main.ts:90-230 | an accepted header gives a section with that tag, offset and length; it is a container exactly for RIFX and LIST, holding the form type and the children from `p + 12` to `p + length`; otherwise it holds the leaf decoder's payload |
| Properties.ParseAtHeader | src/main.ts:68-95 | a section read at `p` passed the header check there and carries the tag and length read there |
| Properties.ParsedSectionHeader | src/main.ts:56-95 | a returned section sits at the first non-zero byte at or after `off`, with only zeros before it; its tag is the allow-listed 4 bytes there, and its length is the word after them, at most 10000 and within the buffer |
| Properties.ParsedSectionPayload | src/main.ts:90-230 | the payload of a returned section is a container exactly for RIFX and LIST, laid out as in `ParseBodyPayload`, and otherwise the leaf decoder's result |
| Properties.ShortContainerHasNoChildren | src/main.ts:98-108 | a container of length at most 12 has no children, because the loop bound `offset + length` is already reached |
| Properties.PrependKeepsOrder | src/main.ts:102-108 | a well-placed section placed before well-placed, ordered children keeps them well placed and ordered |
| Properties.ContainerChildrenInOrder | src/main.ts:98-135 | every child is at or after the first position asked for, carries an allow-listed tag and ends within the buffer, and child offsets never decrease |
| Properties.ChildrenReparse | src/main.ts:98-135 | every child a container collects is a section in its own right: reading at its offset yields that child |
| Properties.ReparseAtOwnOffset | src/main.ts:48-95 | reading again at a section's own offset yields the same section |
| Properties.RevisitedChild | src/main.ts:101-108 | when the next requested position lands on the child's own offset, the loop collects that section twice |
| Properties.OpaqueLeafIsVerbatim | src/main.ts:192-198 | prmm, tdxp, tglf, tdpf and the tags without an arm never fail; they keep the bytes from the end of the header to `offset + length` verbatim, none when the length is below 8 |
| Properties.TextLeaf | src/main.ts:137-166 | tdmn and tdsn hold the `length - 8` bytes after the header, less trailing NULs, when `length > 8`, and no value otherwise; fnam holds the span to `offset + length`, less trailing NULs |
| Properties.TextLeavesNeverOverflow | src/main.ts:151-166 | an accepted header with a text tag always yields a section |
| Properties.RecordLeaf | src/main.ts:143-204 | record tags hold exactly their 3, 4, 2 or 1 words read from the end of the header, whatever the declared length, and fail exactly when those words pass the end |
| Properties.ScalarLeaf | src/main.ts:177-183 | tdpt and tdpi hold the word after the header and fail exactly when it passes the end |
| Properties.Tdb4Leaf | src/main.ts:206-225 | tdb4 holds 8 words exactly when the length exceeds 16, else 4, and fails exactly when they pass the end; it has trailing data exactly when the words end before `offset + length`, the data being the rest of the span, and never when the length is at most 40 |
| Properties.WalksAgreeWithoutPadding | src/main.ts:282-300 | from an even start with even-length children, `parseChildren` collects the same children as the container loop |
| Scenarios.HeadIsOpaque | src/main.ts:227-229 | `head` falls to the default arm |
| Scenarios.ContainerBoundExample | src/main.ts:98-108 | `RIFX` of length 12 followed by a `head` section parses as a container with no children |
| Scenarios.SectionAfterContainerExample | src/main.ts:227-229 | that `head` section, asked for at 12, is an opaque section of length 4 with no data |
| Scenarios.PaddedHeadFound | src/main.ts:56-62 | asked for at 12, the reader skips eight zero bytes and finds `head` at 20 |
| Scenarios.PaddedChildren | src/main.ts:101-108 | the child loop from 12 to 28 collects that `head` section twice |
| Scenarios.RepeatedChildExample | src/main.ts:98-108 | the padded `RIFX` container lists its one `head` section twice |
| Scenarios.RecordWords | src/main.ts:168-175 | the four words after the `tdsl` header are 1, 2, 3 and 4 |
| Scenarios.RecordIgnoresLengthExample | src/main.ts:168-175 | `tdsl` with declared length 0 still reads its four words |
| Scenarios.TruncatedHeader | src/main.ts:185-190 | the truncated buffer starts with a `tdps` header of length 8 |
| Scenarios.OverflowExample | src/main.ts:185-190 | a `tdps` section whose second word is missing parses as `null` |

## Left out

- `FFXAnalyzer`, `printStructure` and `looksLikeText` (`src/main.ts:303-372`) and the run at the bottom of the file (`src/main.ts:374-375`) are file I/O and console output on top of the reader.
- `formatDebugBytes` and every `console` call in `parseSection` are diagnostics that change no result.
- `src/writer.ts`, `src/example.ts` and `src/compare.ts` are outside the reader. There is no encoder, so there is no round trip to state.
- UTF-8 decoding of tags and text is not modelled. Text is kept as bytes, and tags compare as bytes (see above).
- Analyzer.StructureAnalyzer.ParseSection: the final cursor position is not specified. Nested calls move it, and no caller reads it afterwards.
- Analyzer.StructureAnalyzer.ParseSectionBody, Analyzer.StructureAnalyzer.CollectChildren, Analyzer.StructureAnalyzer.ReadLeaf, Analyzer.StructureAnalyzer.ReadText, Analyzer.StructureAnalyzer.ReadRecord, Analyzer.StructureAnalyzer.ReadTdb4 and Analyzer.StructureAnalyzer.ParseChildren: the cursor position they leave is not specified either. That includes the explicit `position = offset + length` of the fnam, opaque, tdb4 and default arms (`src/main.ts:140`, `197`, `223`, `229`). Every caller resets the cursor before it reads again.
- Analyzer.StructureAnalyzer.ParseSection: `offset` is a `nat`. A negative or fractional JavaScript `number` is not modelled, and no caller passes one.
- The `length < 0` test (`src/main.ts:78`) can never be true for an unsigned 32-bit read, so it is not modelled.
- The JavaScript call-stack limit on deeply nested containers is not modelled. In the model, recursion depth is bounded only by the buffer.
- Analyzer.StructureAnalyzer.CollectChildren: one method models the RIFX and LIST loops, which are the same apart from logging. It returns where the source `break`s out of the loop, because nothing follows the loop in either arm.
- `Math.max(section.length + 8, 8)` in `parseChildren` is modelled as `length + 8`, since the length is never negative.
