# fix-utf8 in Dafny

A model of the byte-level UTF-8 repair routines of fix-utf8, with proofs of what
they produce.

`fix_utf8` makes one pass over a byte string. Each well-formed `UTF8-char`, in the
grammar of section 4 of RFC 3629, is copied as it is. Any other byte is replaced,
one byte at a time, by the three-byte UTF-8B escape `ED, AC + (b >> 6), 80 | (b & 3F)`.
The bytes after it are then examined afresh.

`to_json_string` is a second routine built from `utf8len`, `validate_seq` and the
overlong, surrogate and over-maximum tests. It emits the same escapes. It
escapes a whole rejected sequence at once, and a lead byte too close to the end
escapes every byte left. The unit tests drive this routine. Their helpers
`utf8_encode`, `utf8b_encode` and `SBit` are modelled as well, so the test
scenarios become lemmas.

Modules, one per concern:

- `Utf8` (utf8.dfy): the RFC 3629 grammar.
  - `Utf8Char` is the `UTF8-char` rule written out.
  - `CharLen` gives the `UTF8-char` a string starts with.
  - `ValidUtf8` is `UTF8-octets`.
- `Utf8b` (utf8b.dfy): the escape triple of `utf8b_1/2/3`.
  - `EscapeAll` escapes every byte of a string.
  - `Decode` is a reference decoder that understands the convention.
- `FixUtf8` (fix_utf8.dfy): the engine of src/fix_utf8.cc.
  - `Classify` is the lead-byte switch.
  - `Repair` specifies the output.
  - The method `FixUtf8` is the `while` loop, proved to append `Repair(input)`.
- `Json` (json.dfy): src/json.cc.
  - `Utf8Len` and the macros are functions.
  - `Front` is the decision of one loop turn, and `ToJson` is the output.
  - The methods `EscapeCharacter`, `ValidateSeq` and `ToJsonString` keep the source's loops.
- `Agreement` (agreement.dfy): how the two routines relate.
  - They agree wherever the tail rule does not fire.
  - They differ on `E2 61`.
  - The tail rule, corrected, makes them agree everywhere (see Findings).
- `FixUtf8Test` (fix_utf8_test.dfy): the test helpers and every scenario of the `utf8_fix` tests.
  - `utf8_encode` is the method `Utf8Encode` and its function `Encoded`.
  - `utf8b_encode` is `Utf8bEncode`, with the function `Utf8bEncoded`.
  - `SBit` is a datatype, joined by `Join`.
  - `fix_utf8_test` is `RunTest`.

Modelling choices:

- Bytes are `bv8` and `unsigned long` is `bv64`, so masks and shifts are written as in the source.
- A caller-owned `std::string &` that a routine appends to is an input sequence plus the returned sequence.
- The escape is the three-byte form of the code point U+DB00 + b, which is U+DB80..U+DBFF for b >= 0x80.
  - The header comment (src/fix_utf8.h:5) speaks of U+DC80..U+DCFF.
  - The model follows the bytes the code emits.
- `utf8b_encode` computes `0xDC00 + c` for a `char c`.
  - The model assumes `char` is signed, as on the platforms the tests were written for.
  - A byte of 80..FF then sign-extends, and the sum wraps in 32 bits to U+DB00 + c, which is the engine's escape (`Utf8bCodeHigh`, `EscapeIsEncoded`).
  - For an ASCII byte the helper gives U+DC00 + c, which is not the engine's escape (`Utf8bAscii`).
  - No test passes an ASCII byte to `bad_str`.
- The engine is defined only for a `std::string &` output, which grows as needed.
  - The model follows that overload.

## Model

| member | source | states |
|---|---|---|
| Utf8.IsCont | src/fix_utf8.cc:15 | `utf8_contb` holds exactly for the `UTF8-tail` bytes 80..BF |
| Utf8.CharShape | src/fix_utf8.cc:41-97 | a `UTF8-char` is as long as its lead byte says, every later byte is a continuation byte, and after ED the second byte is at most 9F |
| Utf8.CharLen | src/fix_utf8.cc:31-106 | the length found is at most 4 and fits the input, and a positive length delimits one whole `UTF8-char` |
| Utf8.CharLenComplete | src/fix_utf8.cc:31-106 | any prefix that is a `UTF8-char` is the one found, so a string starts with at most one and the lead-byte switch misses none |
| Utf8.ValidConcat | src/fix_utf8.cc:24-120 | valid UTF-8 followed by valid UTF-8 is valid |
| Utf8.AsciiValid | src/fix_utf8.cc:33-39 | seven-bit ASCII is valid UTF-8 |
| Utf8.NoCharConcat | src/fix_utf8.cc:111-112 | two strings with no `UTF8-char` anywhere still have none when joined, unless the second begins with a continuation byte |
| Utf8b.Escape | src/json.cc:5-7 | the triple of `utf8b_1/2/3` is recognised as an escape and decodes to its byte, is never a `UTF8-char`, and has AE or AF second for a byte of 80..FF |
| Utf8b.EscapeAll | src/json.cc:99-101 | escaping a string triples its length |
| Utf8b.EscapeAllConcat | src/json.cc:138-139 | escaping a concatenation escapes each part in order |
| Utf8b.DecodeEscape | src/fix_utf8.cc:113-116 | an escape at the front decodes to its byte whatever follows |
| Utf8b.DecodeChar | src/fix_utf8.h:14 | a `UTF8-char` at the front is read back as itself whatever follows, so it is never taken for an escape |
| Utf8b.DecodeEscapeAll | src/fix_utf8.h:4-6 | a run of escapes decodes to the bytes it stands for |
| FixUtf8.Classify | src/fix_utf8.cc:26-106 | the switch copies exactly when a `UTF8-char` starts at the cursor, and copies that char; every lookahead read is inside the input |
| FixUtf8.FixUtf8 | src/fix_utf8.cc:19-121 | the loop appends `Repair(input)` to `result` and leaves its earlier contents alone |
| FixUtf8.RepairStep | src/fix_utf8.cc:24-119 | one turn either copies the `UTF8-char` at the cursor or escapes one byte and moves on by one |
| FixUtf8.AsciiPassthrough | src/fix_utf8.cc:33-39 | an ASCII byte is copied on its own and never escaped |
| FixUtf8.AlwaysRejected | src/fix_utf8.cc:99-106 | 80..BF, C0, C1 and F5..FF are escaped alone, and so is a non-ASCII last byte (line 28) |
| FixUtf8.RepairLength | src/fix_utf8.cc:37-118 | the output is the input length plus two bytes per escaped byte; at most every byte is escaped; none is escaped exactly when the input is valid |
| FixUtf8.RepairFixedPoint | src/fix_utf8.cc:24-120 | the output is one to three times as long as the input, and equals it exactly when the input is valid UTF-8 |
| FixUtf8.RepairValidPrefix | src/fix_utf8.cc:24-97 | a valid prefix is copied through whatever follows it |
| FixUtf8.RepairConcat | src/fix_utf8.cc:111-112 | unless the second part begins with a continuation byte, the repair of a concatenation is the concatenation of the repairs: a bad byte affects only its own escape |
| FixUtf8.RepairNoChar | src/fix_utf8.cc:109-119 | where no position starts a `UTF8-char`, every byte is escaped |
| FixUtf8.DecodeRepair | src/fix_utf8.h:4-14 | decoding the output gives back the input, for every input |
| FixUtf8.RepairAboveMax | src/fix_utf8.cc:81-85 | F4 90 80 80 (above U+10FFFF) becomes four escapes |
| FixUtf8.RepairMax | src/fix_utf8.cc:88-97 | F4 8F BF BF (U+10FFFF) is copied |
| FixUtf8.RepairOverlongAndSurrogate | src/fix_utf8.cc:51-60 | the overlong C0 80 and the surrogate ED A0 80 are escaped byte by byte |
| FixUtf8.RepairTruncatedLead | src/fix_utf8.cc:68-69 | a three-byte lead cut short by ASCII is escaped and the ASCII byte kept |
| Json.Utf8Len | src/json.cc:24-39 | `utf8len` gives 1 for 00..7F, 2 for C0..DF, 3 for E0..EF, 4 for F0..F7 and -1 for 80..BF and F8..FF |
| Json.L2Overlong | src/json.cc:77 | for a two-byte lead, true exactly for C0 and C1 |
| Json.L3Overlong | src/json.cc:79 | for a three-byte lead and a continuation byte, true exactly for E0 followed by 80..9F |
| Json.L4Overlong | src/json.cc:83 | for a four-byte lead and a continuation byte, true exactly for F0 followed by 80..8F |
| Json.L4Overmax | src/json.cc:84 | for a four-byte lead and a continuation byte, true exactly for F5..F7, or F4 followed by 90..BF |
| Json.CheckIsGrammar | src/json.cc:150-196 | on a lead byte followed by the continuation bytes it announces, the post-checks accept exactly the `UTF8-char`s |
| Json.FirstNonCont | src/json.cc:97-98 | the offset found is the first non-continuation byte before the end of the sequence, or the end |
| Json.Front | src/json.cc:135-202 | a turn keeps exactly the leading `UTF8-char`; a rejected run away from the tail holds only continuation bytes after its lead |
| Json.EscapeCharacter | src/json.cc:9-15 | appends the escape of the byte, ASCII included |
| Json.ValidateSeq | src/json.cc:94-107 | true, with nothing written and the cursor unchanged, exactly when the announced bytes are all continuation bytes; otherwise the bytes before the first bad one are escaped and the cursor moves to it |
| Json.ToJsonString | src/json.cc:123-207 | the loop returns `ToJson(s)` |
| Json.EscapeRange | src/json.cc:138-139 | the escaping loop appends the escapes of exactly the bytes in its range |
| Json.Sequence | src/json.cc:150-196 | cases 2, 3 and 4 move the cursor forward and produce what `ToJson` produces for the bytes they consume |
| Json.CheckSeq | src/json.cc:152-195 | the post-check of a complete sequence copies it, or escapes all of it |
| Json.Check2 | src/json.cc:152-160 | case 2's post-check |
| Json.Check3 | src/json.cc:166-175 | case 3's post-check |
| Json.Check4 | src/json.cc:182-193 | case 4's post-check |
| Json.TailStep | src/json.cc:137-141 | a lead byte announcing more bytes than remain escapes every remaining byte |
| Json.OneStep | src/json.cc:143-149 | an ASCII byte is copied and a byte that leads nothing is escaped alone |
| Json.SeqStep | src/json.cc:150-196 | a complete sequence is copied or escaped whole, and the rest follows |
| Json.BrokenStep | src/json.cc:97-104 | a sequence broken by a non-continuation byte escapes the bytes before it, and the rest starts at that byte |
| Json.ToJsonCopies | src/json.cc:150-196 | a leading `UTF8-char` is copied whatever follows |
| Json.ToJsonLength | src/json.cc:134-204 | the output is one to three times as long as the input, and as long exactly when the input is valid |
| Json.ToJsonValid | src/json.cc:123-207 | valid UTF-8 comes back unchanged |
| Json.ToJsonFixedPoint | src/json.cc:123-207 | the output equals the input exactly when the input is valid UTF-8 |
| Json.ToJsonNoChar | src/json.cc:123-207 | where no position starts a `UTF8-char`, every byte is escaped |
| Json.DecodeToJson | src/json.cc:5-15 | decoding the output gives back the input, for every input |
| Agreement.RunIsRepair | src/json.cc:150-202 | a keep or reject decision that resynchronises as `fix_utf8` does gives `fix_utf8`'s output |
| Agreement.ToJsonIsRepair | src/json.cc:123-207 | when no lead byte announces more bytes than remain, `to_json_string` and `fix_utf8` give the same bytes |
| Agreement.ToJsonIsRepairWithPadding | src/json.cc:134-141 | any input followed by at least three ASCII bytes is handled alike by both routines |
| Agreement.TailRuleDisagrees | src/json.cc:137-141 | on E2 61 `to_json_string` escapes both bytes while `fix_utf8` keeps the 61 |
| Agreement.FrontIntended | src/json.cc:116-120 | the corrected decision resynchronises as `fix_utf8` does |
| Agreement.IntendedIsRepair | src/json.cc:109-122 | with the tail rule corrected the two routines agree on every input |
| Agreement.IntendedKeepsTail | src/json.cc:137-141 | on F0 90 74 the corrected routine keeps the 74, while `to_json_string` escapes it |
| FixUtf8Test.AutoWidthIsNarrowest | src/fix_utf8_test.cc:51-65 | the chosen width is the narrowest whose payload holds the code point, up to six bytes |
| FixUtf8Test.Encoded | src/fix_utf8_test.cc:49-75 | the form has exactly as many bytes as the width |
| FixUtf8Test.Conts | src/fix_utf8_test.cc:72-73 | the trailing bytes are continuation bytes, one per bit group |
| FixUtf8Test.Utf8Encode | src/fix_utf8_test.cc:49-75 | the descending loop builds `Encoded(code, width)` |
| FixUtf8Test.EncodeScalar | src/fix_utf8_test.cc:49-75 | the shortest form is a `UTF8-char` exactly for a scalar value, decoding to it; for anything else no position starts a `UTF8-char` |
| FixUtf8Test.LongForm | src/fix_utf8_test.cc:62-64 | five- and six-byte forms start with F8 or above and contain no `UTF8-char` |
| FixUtf8Test.Overlong | src/fix_utf8_test.cc:66-74 | a code point forced one width wider than it needs contains no `UTF8-char` |
| FixUtf8Test.Utf8bEncode | src/fix_utf8_test.cc:77-83 | the loop builds `Utf8bEncoded(input)` |
| FixUtf8Test.Utf8bLength | src/fix_utf8_test.cc:77-83 | three bytes out per byte in |
| FixUtf8Test.Utf8bCodeHigh | src/fix_utf8_test.cc:80-81 | for a byte of 80..FF the 32-bit sum wraps to U+DB00 + c |
| FixUtf8Test.EscapeIsEncoded | src/fix_utf8_test.cc:80-81 | the engine's escape of c is `utf8_encode(0xDB00 + c)` |
| FixUtf8Test.Utf8bHigh | src/fix_utf8_test.cc:77-83 | on bytes of 80..FF `utf8b_encode` gives exactly the engine's escapes |
| FixUtf8Test.Utf8bAscii | src/fix_utf8_test.cc:80-81 | on an ASCII byte `utf8b_encode` does not give the engine's escape |
| FixUtf8Test.Utf8bConcat | src/fix_utf8_test.cc:77-83 | `utf8b_encode` of a concatenation is the concatenation of the parts' |
| FixUtf8Test.CodeGood | src/fix_utf8_test.cc:17-18 | a piece built from a scalar value is valid UTF-8 and expects itself back unchanged |
| FixUtf8Test.TextGood | src/fix_utf8_test.cc:19-20 | a piece built from ASCII text is valid UTF-8 and expects itself back unchanged |
| FixUtf8Test.Ascii | src/fix_utf8_test.cc:19-20 | a string literal gives one byte per character, equal to the character's code and below 0x80 |
| FixUtf8Test.Join | src/fix_utf8_test.cc:21-26 | the loop joins the inputs and the expected outputs in order |
| FixUtf8Test.JoinedAppend | src/fix_utf8_test.cc:21-26 | joining two lists of pieces joins their inputs and their expected outputs |
| FixUtf8Test.RunTest | src/fix_utf8_test.cc:30-40 | the two strings compared are the joined expected output and `to_json_string` of the joined input |
| FixUtf8Test.GoodPasses | src/fix_utf8_test.cc:30-36 | a test made only of valid pieces that expect themselves back passes |
| FixUtf8Test.CodesPass | src/fix_utf8_test.cc:119-129 | a test made of scalar values passes |
| FixUtf8Test.BadPasses | src/fix_utf8_test.cc:43 | `bad_str(s)` passes when no position of `s` starts a `UTF8-char` |
| FixUtf8Test.BadThenTextPasses | src/fix_utf8_test.cc:145 | such a `bad_str` followed by ASCII text of three bytes or more passes |
| FixUtf8Test.BadsJoin | src/fix_utf8_test.cc:152-154 | two `bad_str` pieces in a row are one `bad_str` of the joined bytes |
| FixUtf8Test.BadCodePasses | src/fix_utf8_test.cc:44-47 | `bad_code` of anything but a scalar value passes |
| FixUtf8Test.OverlongPasses | src/fix_utf8_test.cc:44-47 | `bad_code` of an overlong form passes |
| FixUtf8Test.GoodText | src/fix_utf8_test.cc:116-117 | the empty test and "Hello, world!" pass |
| FixUtf8Test.GoodMixed | src/fix_utf8_test.cc:118 | text mixed with code points passes |
| FixUtf8Test.GoodTwoByteCodes | src/fix_utf8_test.cc:119-121 | the first run of two-byte code points passes |
| FixUtf8Test.GoodTwoByteCodesHigh | src/fix_utf8_test.cc:122-124 | the second run of two-byte code points passes |
| FixUtf8Test.GoodThreeByteCodes | src/fix_utf8_test.cc:125-127 | the run of three-byte code points passes |
| FixUtf8Test.GoodFourByteCodes | src/fix_utf8_test.cc:128-129 | the run of four-byte code points passes |
| FixUtf8Test.BadBytes | src/fix_utf8_test.cc:131-142 | every run of lone continuation bytes, C0 C1, and F5..FF passes as bad bytes |
| FixUtf8Test.TruncatedSeq | src/fix_utf8_test.cc:143-150 | truncated C2, E0 A0 and F0 90 8D pass as bad bytes, at the end and before "test" |
| FixUtf8Test.FiveBytesPlus | src/fix_utf8_test.cc:151-155 | a five-byte form followed by a six-byte form passes as bad bytes |
| FixUtf8Test.MaxCodePointCases | src/fix_utf8_test.cc:156-160 | U+10FFFF passes as text; 0x110000 and 0x1FFFFF pass as bad bytes |
| FixUtf8Test.OverlongEnc | src/fix_utf8_test.cc:161-171 | the shortest forms at each width boundary pass as text; the same code points one width wider pass as bad bytes |
| FixUtf8Test.Surrogates | src/fix_utf8_test.cc:172-177 | U+D7FF and U+E000 pass as text; U+D800 and U+DFFF pass as bad bytes |
| FixUtf8Test.SanityShort | src/fix_utf8_test.cc:90-94 | the one- and two-byte forms of the sanity check |
| FixUtf8Test.SanityThree | src/fix_utf8_test.cc:95-96 | the three-byte forms of U+0800 and U+20AC |
| FixUtf8Test.SanityWide | src/fix_utf8_test.cc:97-98 | the forms of U+FFFF and U+10348 |
| FixUtf8Test.SanityOverlong | src/fix_utf8_test.cc:100-103 | the forced-width forms C0 80 and F0 82 82 AC |
| FixUtf8Test.SanityUtf8b | src/fix_utf8_test.cc:104-111 | `utf8b_encode` of F0 82 82 AC is the four escapes |

## Left out

- src/benchmark.cc: random sample generation, timing and reporting make up a measurement program, not repair logic.
- The `size_t fix_utf8(void *buf, ...)` overload (src/fix_utf8.h:19-20) is declared but not defined in this source, so it is not part of this model.
- Fixed-capacity output buffers and capacity checks are not modelled: this source writes only to a growable `std::string`.
- `ASM_COMMENT`, `__builtin_expect` and `reserve` affect code generation and allocation only.
- `escape_control` and `escape_sequence` (src/json.cc:17-75) are dead code: the only call is commented out and nothing calls `escape_sequence`.
- The gtest macros and `ASSERT_EQ` are left out: a scenario is a lemma that `Passes` holds, which is what the assertion checks.
- Encoded: widths above 8 are excluded by its precondition. There the source's shifts `-1 << (8 - width)` are undefined behaviour in C++, and no test uses such a width.
- Utf8bCode: it assumes `char` is signed. With an unsigned `char`, the helper would give U+DC00 + c for every byte, and the `bad_str` expectations would not match the engine's escapes.
- Sanity lemmas: SanityShort, SanityThree, SanityWide and SanityOverlong are concrete facts that the verifier evaluates directly. They record the sanity checks and prove no general property.
- Idempotence and "the output is valid UTF-8" are not claimed. The escapes are surrogate encodings that the engine itself rejects (src/fix_utf8.cc:57-60).
- Termination and in-bounds reads are not stated as separate lemmas. The verifier checks every index and every loop's `decreases` as part of the proofs.

## Findings

| source | as written | input that shows it | evidently intended | confidence | as-written member | corrected member |
|---|---|---|---|---|---|---|
| src/json.cc:137-141 | a lead byte announcing more bytes than remain escapes every byte left, ASCII included | `E2 61`: both bytes escaped, where `fix_utf8` keeps the `a`; `F0 90 74` likewise loses the `t` | the comment at src/json.cc:116-120 treats a sequence cut short by the end like one cut short by a bad byte: escape the lead and the continuation bytes after it, then carry on | medium, not executed | Agreement.TailRuleDisagrees | Agreement.IntendedIsRepair |
