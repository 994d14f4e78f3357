# sabir in Dafny

This is a model of the engine of sabir, a streaming language identifier. It covers the library's
state machine and its model-file loader.

The library keeps a per-session state, `struct sabir`:
- the label names;
- a feature table of scores;
- a four-byte ring buffer of the bytes most recently written, with its write cursor `buf_pos`;
- one score accumulator per label.

How a session runs:
- **Feeding.** Each chunk of text is scanned codepoint by codepoint.
  - A letter pushes its raw bytes into the ring.
  - Any other codepoint pushes one pad byte (0x00), then restarts the window.
  - A position that does not decode is skipped one byte at a time.
- **Scoring.** Once four bytes are in the window, every push scores the quadgram in the ring. The quadgram's 32-bit hash is continued over each label's name and reduced modulo the table size, and that table entry is added to the label's accumulator.
- **Finishing.** `sb_finish` flushes one more pad byte, sets `buf_pos` to 0, and returns the first label with the highest score.
- **Loading.** `sb_load` reads a model file. It checks the header, `num_labels` label lines and `num_features` count lines, in that order. It reports a fixed set of status codes, which `sb_strerror` describes.

The project is built in layers:
- **`Errors`:** the status codes and `sb_strerror`.
- **`Hash`:** the two hashes, as bv32 folds. The loops of `sb_hash_feature` and `sb_hash_lang` are proved to compute them.
- **`Unicode`:** `utf8proc_iterate` and the general-category lookup, as an oracle. `sb_is_letter` is defined over it.
- **`Scan`:** the session as values.
  - `PutByte`, `Apply`, `Consume`, `Flush`, `Decide` and `Classify` are the specification functions.
  - The lemmas about chunking, idempotence, ties, the window and monotone scores are stated over them.
- **`Engine`:** `struct sabir` as the class `Sabir`. Its arrays are updated in place.
  - Each library function is a method proved against the `Scan` functions.
  - A ghost history `hist` ties the ring buffer to the bytes written.
- **`Loader`:** `sb_load`.
  - The label section is read with a byte-level `fgets` and `strlen`.
  - The feature section is read with a byte-level `fscanf("%" SCNu64 "\n")`.
  - The error taxonomy is `Parse`. `Load` is the imperative loader proved against it.
  - The feature loop takes the count guard as a parameter. `AsWritten` is the code's `n > DBL_MAX - 1`, which admits UINT64_MAX and makes its table entry log(0). `Corrected` is the intended `n < UINT64_MAX`. `Load` with `AsWritten` is sb_load as the code has it, and the non-negative table is proved under `Corrected`.
  - A writer (`Render`) turns labels and counts into a model file, and a lemma proves the loader reads that file back.

## Model

| member | source | states |
|---|---|---|
| Errors.Strerror | src/imp.c:32-46 | the fixed description for codes 0..5 (each status's own message), and "unknown error" exactly when the code is negative or 6 or more |
| Hash.FoldAppend | src/imp.c:211-214 | hashing the quadgram and then continuing over a label is one fold over the quadgram's bytes followed by the label's bytes |
| Hash.Mix | src/imp.c:170 | one step of the hash, `h ^= (h << 5) + b + (h >> 2)` on wrapping 32-bit values (a definition; HashFeature and HashLang are proved to compute its folds) |
| Hash.Fold | src/imp.c:168-170 | the hash state after mixing in bytes in order (a definition; FoldAppend is its splitting law) |
| Hash.CString | src/imp.c:176-177 | the string read from a buffer is a NUL-free prefix of it, ended by a NUL when shorter than the buffer |
| Hash.CStringStopsAtNul | src/imp.c:176-177 | the bytes after a NUL are never read |
| Hash.CStringWhole | src/imp.c:176-177 | a label with no NUL byte is hashed whole |
| Hash.HashFeature | src/imp.c:166-172 | the loop returns the seeded fold (seed 1315423911, wrapping 32-bit `h ^= (h<<5)+b+(h>>2)`) over the four slots read from `pos mod 4` on |
| Hash.HashLang | src/imp.c:174-179 | the loop continues `h` over the label bytes up to the first NUL, so an empty name returns `h` unchanged |
| Unicode.IsLetter | src/imp.c:181-195 | a codepoint is a letter exactly when its category is Lu, Ll, Lt, Lm or Lo |
| Scan.Slot | src/imp.c:214-215 | the slot read for a quadgram and a label is always below num_features |
| Scan.SlotIsOneFold | src/imp.c:211-215 | the slot is one seeded fold over the quadgram's bytes followed by the label's name, reduced modulo num_features |
| Scan.AddGram | src/imp.c:213-216 | every accumulator plus the table entry of its own slot (a definition; UpdateProbs is proved to compute it, PutByteGrows states its effect) |
| Scan.PutByte | src/imp.c:237-239 | the byte joins the window history, and no accumulator changes while fewer than four bytes have been written |
| Scan.PutAll | src/imp.c:236-240 | pushing a letter's bytes appends exactly those bytes to the window history |
| Scan.Advance | src/imp.c:228-233 | the scan always moves: one byte past a failed decode, the codepoint's length otherwise |
| Scan.Front | src/imp.c:230-247 | a decoding attempt yields at most one token, and none exactly when the decode fails |
| Scan.Tokens | src/imp.c:228-248 | the tokens of a chunk in order (a definition; TokensBound and TokensAppend state its properties) |
| Scan.TokensBound | src/imp.c:228-248 | a chunk yields at most one token per byte |
| Scan.Apply | src/imp.c:235-247 | a letter pushes its bytes, a boundary pushes a pad byte and leaves the window holding it alone (a definition; EndsWithBoundary and HistAfterBoundary state its effect) |
| Scan.ApplyAll | src/imp.c:228-248 | tokens applied in order (a definition; ApplyAllAppend and ApplyAllSplit are its splitting laws) |
| Scan.Consume | src/imp.c:222-250 | sb_process on values: the tokens of the chunk applied in order (a definition; ConsumeSplit, ConsumeKeepsWindow and ScoresNeverDecrease state its properties, Engine.Sabir.Process is proved to compute it) |
| Scan.Start | src/imp.c:48-54 | the state sb_init leaves fits the table: one accumulator per label (EmptyInputPicksFirstLabel states what it decides) |
| Scan.Flush | src/imp.c:263-269 | sb_finish's state change fits the table (FlushIdempotent states that a second one changes nothing decided) |
| Scan.Step | src/imp.c:230-247 | one turn of the scan loop: the front token, if the decode succeeds, applied to the state before it |
| Scan.ArgMax | src/imp.c:271-274 | the strict `>` scan returns a maximal index, and no earlier index reaches the maximum, so ties go to the lowest index |
| Scan.Decide | src/imp.c:261-277 | the index sb_finish returns is the index of a label |
| Scan.Classify | src/imp.c:279-284 | the index sb_detect returns is the index of a label |
| Scan.ConsumeAdvance | src/imp.c:228-247 | scanning a chunk is one turn of the loop (Step) followed by the scan of the rest of the chunk after Advance bytes |
| Scan.TokensAppend | src/imp.c:228-248 | when no codepoint straddles the split, the tokens of `s1 ++ s2` are the tokens of `s1` followed by those of `s2` |
| Scan.FrontOfAppend | src/imp.c:230-247 | when the decode of `s1` agrees with that of `s1 ++ s2`, the token taken and the distance moved are the same |
| Scan.ApplyAllAppend | src/imp.c:228-248 | applying two token runs one after the other is applying their concatenation |
| Scan.ConsumeSplit | src/imp.c:222-259 | `sb_feed(s1); sb_feed(s2)` leaves the state `sb_feed(s1 ++ s2)` leaves when no codepoint straddles the split |
| Scan.ClassifyInChunks | src/imp.c:256-284 | init, feed s1, feed s2, finish returns the label sb_detect returns on `s1 ++ s2` (no codepoint straddling) |
| Scan.FlushIdempotent | src/imp.c:263-276 | a second sb_finish right after the first adds nothing to any score and returns the same label |
| Scan.ArgMaxOfTies | src/imp.c:271-274 | when all scores are equal the first label wins |
| Scan.EmptyInputPicksFirstLabel | src/imp.c:261-277 | sb_init then sb_finish scores nothing (buf_pos goes from 1 to 2) and returns label 0 |
| Scan.HistWithoutBoundary | src/imp.c:235-240 | with no boundary, the window history grows by exactly the letters' bytes, in order |
| Scan.HistAfterBoundary | src/imp.c:235-247 | after the last boundary the window is the pad byte followed by every letter byte pushed since, oldest first |
| Scan.ApplyAllSplit | src/imp.c:228-248 | the token run cut at any point is the second part applied to the state the first part leaves |
| Scan.EndsWithBoundary | src/imp.c:241-246 | a boundary leaves the window holding the pad byte alone |
| Scan.HistStaysNonEmpty | src/imp.c:228-248 | a window holding at least one byte (buf_pos >= 1) keeps at least one through any tokens |
| Scan.ConsumeKeepsWindow | src/imp.c:222-250 | an empty chunk changes nothing, and buf_pos >= 1 survives any chunk |
| Scan.PutByteGrows | src/imp.c:237-239 | with a non-negative table, one push lowers no accumulator |
| Scan.PutAllGrows | src/imp.c:236-240 | with a non-negative table, a letter's pushes lower no accumulator |
| Scan.ApplyAllGrows | src/imp.c:228-248 | with a non-negative table, no token run lowers an accumulator |
| Scan.ScoresNeverDecrease | src/imp.c:213-216 | with a non-negative table, no accumulator decreases through any chunk or the final flush |
| Engine.Sabir.RingIsLastFour | src/imp.c:166-172 | read from slot `buf_pos mod 4` on, the ring holds the last four bytes written, oldest first |
| Engine.Sabir.constructor | src/imp.c:98-108 | the allocation for num_labels accumulators, followed by sb_init: fresh arrays, buf_pos 1, window holding the pad byte, scores zero |
| Engine.Sabir.Init | src/imp.c:48-54 | buf[0] = 0, buf_pos = 1, every accumulator zero; the other slots, the labels and the table are unchanged |
| Engine.Sabir.UpdateProbs | src/imp.c:207-220 | each label's accumulator gains exactly the table entry its slot selects for the last four bytes written; buf, buf_pos, labels and table are unchanged |
| Engine.Sabir.Write | src/imp.c:237 | `buf[pos++ % 4] = b` writes slot `pos mod 4`, advances the cursor by one, and keeps the ring holding the last four bytes |
| Engine.Sabir.Put | src/imp.c:237-239 | one push: the byte is written, and the quadgram is scored once buf_pos reaches 4 |
| Engine.Sabir.PushLetter | src/imp.c:235-240 | a letter's bytes pushed in order, each scored once the window holds four bytes |
| Engine.Sabir.PushBoundary | src/imp.c:241-246 | one pad byte pushed and scored, then buf[0] = 0 and buf_pos = 1 |
| Engine.Sabir.ProcessOne | src/imp.c:228-247 | one turn of the scan loop moves `clen` bytes, 1 past a failed decode and the codepoint's length otherwise, within the chunk; the new state is Step of the old one, from which the rest of the chunk scans as the whole chunk would |
| Engine.Sabir.Process | src/imp.c:222-250 | the new state is the scan of the chunk from the old one, and buf_pos >= 1 is preserved |
| Engine.Sabir.Feed | src/imp.c:256-259 | sb_feed is sb_process on the chunk |
| Engine.Sabir.Finish | src/imp.c:261-277 | one pad byte is flushed, buf_pos becomes 0, and the result is the first label with the maximal score |
| Engine.Sabir.Detect | src/imp.c:279-284 | sb_detect leaves the state sb_init, sb_process on the text and sb_finish leave (buf_pos 0), and returns the label Classify selects on the text |
| Engine.Sabir.Langs | src/imp.c:159-164 | the names in file order followed by NULL, and the number of labels exactly when a place for it is given |
| Loader.LineLen | src/imp.c:116 | fgets takes at most `limit` bytes, and a line cut short of the limit and the input ends in a newline |
| Loader.Fgets | src/imp.c:116 | fgets returns fewer than `size` bytes, taken from the input at the read position, or NULL at end of input |
| Loader.LineLenStopsAtNewline | src/imp.c:116 | fgets takes no newline before its last byte |
| Loader.FgetsStopsAtNewline | src/imp.c:116 | the line fgets returns has its only newline, if any, at its end |
| Loader.LabelLine | src/imp.c:116-121 | an accepted label line is at least two bytes and fits in the room left in the label area |
| Loader.LabelLineIsStrlenCheck | src/imp.c:116-121 | a line is accepted exactly when fgets returns one whose strlen is at least 2 and whose last counted byte is the newline; strlen then measures the whole line |
| Loader.ReadLabels | src/imp.c:113-125 | the label loop yields num_labels labels, ends inside the input, and never passes the label area |
| Loader.ReadLabelsStep | src/imp.c:115-125 | an accepted line advances the read position and `pos` by its length and appends the label without its newline |
| Loader.ReadLabelsAccepted | src/imp.c:119-124 | a line fgets and strlen accept has length strlen, and the loop goes on from after it |
| Loader.ReadLabelsRefused | src/imp.c:116-121 | a NULL from fgets, or a line failing the strlen test, fails the load |
| Loader.AcceptedLabelLine | src/imp.c:119-122 | an accepted line is a label of one or more bytes without newline or NUL, followed by its newline |
| Loader.ReadLabelsSound | src/imp.c:113-125 | what the label loop reads is a run of good label lines taken from the input, and `pos` advances by exactly the bytes read |
| Loader.Saturate | src/imp.c:133 | a converted count never exceeds UINT64_MAX |
| Loader.ScanCount | src/imp.c:133 | a scanned count is at most UINT64_MAX and moves the read position forward |
| Loader.LogArgument | src/imp.c:135 | `n + 1` in uint64_t arithmetic, that is modulo 2^64 (a definition; LogArgumentWraps and AcceptedCountsHavePositiveLogArgument state its two cases) |
| Loader.AcceptsCountAsWritten | src/imp.c:133 | the guard as written, `n > DBL_MAX - 1` negated, with the comparison on exact reals (a definition; CountGuardAsWrittenAdmitsAll states that it rejects no uint64_t) |
| Loader.AcceptsCount | src/imp.c:133 | the guard as intended, `n + 1` does not overflow: n < UINT64_MAX (a definition; AcceptedCountsHavePositiveLogArgument states its point) |
| Loader.Admits | src/imp.c:133 | the guard the feature loop applies: the code's under `AsWritten`, the intended one under `Corrected` (a definition) |
| Loader.ReadCounts | src/imp.c:131-136 | the feature loop, under the guard given (`AsWritten` is the code's `n > DBL_MAX - 1`), yields num_features counts and ends inside the input |
| Loader.ReadCountsStep | src/imp.c:131-136 | an accepted count is appended and the loop goes on after its line |
| Loader.ReadCountsSound | src/imp.c:131-136 | every count the feature loop reads is at most UINT64_MAX and passes the guard in use |
| Loader.LabelSection | src/imp.c:113-128 | a label section that loads holds num_labels labels and ends inside the input |
| Loader.Sections | src/imp.c:113-140 | label and feature sections that read successfully hold num_labels labels and num_features counts |
| Loader.Parse | src/imp.c:66-152 | a load that succeeds had a sizes line and yields num_labels labels and num_features counts (FailureCauses and LoadedModelIsWellFormed state the rest) |
| Loader.Weights | src/imp.c:135 | one table entry per count |
| Loader.ReadLabelLines | src/imp.c:113-128 | the imperative label loop succeeds exactly when the label section is well formed, and returns its labels and end position |
| Loader.ReadFeatureLines | src/imp.c:130-136 | the imperative feature loop succeeds exactly when num_features counts pass the guard given, and fills the table with log of each count's `n + 1` in uint64_t arithmetic |
| Loader.Load | src/imp.c:66-152 | on failure `*sbp` is NULL and the status is Parse's; on success SB_OK and a fresh, initialised session holding the labels in file order and the table of log(n + 1); with the guard `AsWritten` this is sb_load as the code has it |
| Loader.LoadedModelIsWellFormed | src/imp.c:66-152 | a successful load had sizes in range, num_labels good labels whose lines fill exactly labels_len + num_labels bytes, and num_features counts, each at most UINT64_MAX and admitted by the guard, which are exactly what the feature loop reads from after the label lines to the end of the input |
| Loader.FailureCauses | src/imp.c:66-151 | SB_EOPEN exactly when fopen fails, SB_EMAGIC exactly when the magic scan hits EOF, SB_ENOMEM exactly when malloc fails after valid sizes, otherwise SB_EIO or SB_EMODEL as ferror says |
| Loader.LineLenOfLine | src/imp.c:116 | fgets on a line with room for it takes the line through its newline |
| Loader.LabelLineOfLabel | src/imp.c:116-124 | a good label followed by its newline is accepted whole |
| Loader.LabelLinesAt | src/imp.c:113-125 | label lines as written, filling the label area, are accepted one by one |
| Loader.ReadFirstLabel | src/imp.c:115-125 | one turn of the label loop over label lines as written reads the first label |
| Loader.ReadLabelsComplete | src/imp.c:113-125 | the label loop reads back every label as written and ends with the label area full |
| Loader.LabelSectionOfLines | src/imp.c:113-128 | label lines as written at the start of the body are the label section |
| Loader.ScanCountOfLine | src/imp.c:133 | a line of decimal digits scans as the number the digits spell, ending after the newline |
| Loader.DigitsLineReadsBack | src/imp.c:133 | a digit line alone in the input scans as its value |
| Loader.CountLineReadsBack | src/imp.c:133 | the decimal line of any uint64_t count scans back as that count |
| Loader.CountLinesAt | src/imp.c:131-136 | count lines as written, ending the input, are each scanned and accepted |
| Loader.ReadCountsComplete | src/imp.c:131-136 | the feature loop reads back every count as written, up to the end of the input |
| Loader.CountSectionOfLines | src/imp.c:130-140 | count lines as written, ending the input, are the feature section and leave nothing for getc |
| Loader.RenderedModelLoads | src/imp.c:66-152 | a model file written from labels and counts within the limits, every count passing the guard, loads them back unchanged when the first label does not start with white space |
| Loader.CountGuardAsWrittenAdmitsAll | src/imp.c:133-134 | the guard `n > DBL_MAX - 1` rejects no uint64_t value |
| Loader.CountGuardAsWrittenAdmitsWrap | src/imp.c:133-135 | the line of UINT64_MAX scans as UINT64_MAX, the guard as written admits it, and `n + 1` wraps to 0 |
| Loader.AcceptedCountsHavePositiveLogArgument | src/imp.c:133-135 | under the corrected guard, log is applied to n + 1 >= 1 without wrapping |
| Loader.LoadedTableIsNonNegative | src/imp.c:130-136 | under the corrected guard, every table a load produces is non-empty and non-negative, given a log that is non-negative from 1 on |
| Loader.LogArgumentWraps | src/imp.c:135 | for UINT64_MAX, `n + 1` wraps to 0 |
| Loader.WrappedCountLoadsAsWritten | src/imp.c:130-150 | a model file whose one count line is UINT64_MAX loads under the guard as written, with the table entry log(0), and fails with SB_EMODEL under the corrected guard |
| Loader.AsWrittenGuardLoadsOneCount | src/imp.c:130-136 | under the guard as written, a model file with any single uint64_t count loads back unchanged |
| Loader.WrappedCountWeighsZero | src/imp.c:135 | the table entry of a count of UINT64_MAX is log(0) |
| Loader.CorrectedGuardRefusesWrap | src/imp.c:130-150 | under the corrected guard, the model file whose count line is UINT64_MAX fails with SB_EMODEL |
| Loader.CountRefused | src/imp.c:133-134 | a count the corrected guard rejects stops the feature loop |

## Left out

- utf8proc is not part of this model. `utf8proc_iterate` and the category lookup are an oracle. The only requirement on them is that a decode never claims more bytes than remain. The Unicode tables are not derived.
- Floating point is not modelled.
  - Scores are exact reals, and accumulation is exact addition.
  - `log` is a parameter `ln` of the loader.
  - `n > DBL_MAX - 1` is evaluated on exact reals (Loader.AcceptsCountAsWritten). In either arithmetic it rejects no uint64_t value, since UINT64_MAX is far below DBL_MAX - 1.
- Loader.Load: `fopen`, the magic line and the sizes line are taken by their outcome. These are fields of `Source`: open or not, magic scan at EOF or not, the three sizes when all three convert. The fscanf whitespace matching of those two lines is not modelled.
- Loader.Load: `ferror` is the `ioError` flag, and `malloc` success is the `allocOk` parameter.
- `fclose` and `free` are not modelled. Neither is `sb_dealloc`, which only frees.
- Loader.ScanCount: a leading `+` or `-` before the digits is not accepted. `%SCNu64` accepts one, and `-` negates the value.
- Loader.ScanCount: a value beyond UINT64_MAX reads as UINT64_MAX. This is strtoull's saturation; the C standard leaves it undefined for fscanf.
- The single allocation is not modelled: `sb_pad` and the offset arithmetic (src/imp.c:56-59, 92-111) only lay out memory. The labels are kept as byte sequences, and the `'\n'` overwritten by NUL is dropped from each.
- `sb_report` and `sb_verbose` only print debugging output.
- Engine.Sabir.Feed: the `SSIZE_MAX` clamp on the length is not modelled. A chunk is a sequence of any length.
- Engine.Sabir.Process: `buf_pos` is an unbounded natural. The `size_t` wrap after 2^64 bytes without a boundary is not modelled.
- The command-line tool, the example driver and the test script are not part of this model.
- The model follows these facts of the code:
  - the pad byte is 0x00;
  - labels are hashed by their names up to the NUL;
  - the table index is `%` with no power-of-two requirement;
  - the limits are 600 labels, 2048 label bytes and 300000 features;
  - no partial UTF-8 sequence is carried from one `sb_feed` to the next. A sequence cut off by the end of a chunk fails to decode and is skipped byte by byte.
- The loader does not check that labels are unique or sorted, and neither does the source.
- Loader.Parse: SB_EMAGIC is reported only when the magic scan hits EOF. A wrong magic line stops that scan at the first mismatching byte, without EOF, and the sizes scan goes on from there. The load may then succeed, or fail with SB_EMODEL or SB_EIO. `Source.header` stands for the outcome of that sizes scan, wherever it starts.
- Loader.RenderedModelLoads: the trailing `\n` of the sizes line's format skips any white space, so a first label that starts with white space is not read back as written. The lemma requires that the first label does not.

## Findings

| source | as written | input that shows it | evidently intended | confidence | as-written member | corrected member |
|---|---|---|---|---|---|---|
| src/imp.c:133-135 | a count is rejected when `n > DBL_MAX - 1`, then the table entry is `log(n + 1)` computed on the `uint64_t` n | a count line `18446744073709551615` (UINT64_MAX): the guard cannot fire for any uint64_t, so it admits the value; `n + 1` wraps to 0 and the entry becomes log(0), minus infinity | reject counts whose `n + 1` overflows (n < UINT64_MAX), so every entry is the log of at least 1 and non-negative, and no score decreases | not executed | Loader.WrappedCountLoadsAsWritten | Loader.LoadedTableIsNonNegative |
