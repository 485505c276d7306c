# LDB console front end, in Dafny

A model of the command front end of LDB, the Lightweight Database: the part of
`src/command.c` that turns a line typed at the console into a call of the
storage engine. This front end:

- normalises the line;
- recognises it against the table of command templates;
- reads the key list of a `delete`;
- checks each handler's parameters against the table configuration;
- frames the record an `insert` writes.

The storage engine itself is not modelled. A handler's outcome is the engine
call it would make, given as an `Action` value, or the error it would print.

Modules:

- `CText` (`ctext.dfy`): the C conventions the code relies on.
  - Signed `char`: a byte 0x80..0xFF counts as a separator.
  - `tolower` and `stricmp`.
  - `strstr`.
  - glibc's `strtol` and `atoi`, including saturation and the `(int)` truncation.
- `Normalize` (`normalize.dfy`): `ldb_command_normalize` as an array-filling
  loop. Its meaning is a function: the words of the input joined by single
  spaces.
- `Syntax` (`syntax.dfy`): `ldb_syntax_check` as nested loops, specified by
  `Hits`, the number of leading words that fulfil a template.
- `Keys` (`keys.dfy`): `keys_start`, `valid_hex_ln` and `fetch_keys`.
  - `FetchKeys` writes into a `keyblob` array and is proved against the
    specification function `ParseKeys`.
  - `ParseKeys` is then proved sound, complete, block-aligned and
    single-sector.
- `Framing` (`frame.dfy`): the 2+2-byte record header and the in-place
  `memmove` that makes room for it.
- `Handlers` (`handlers.dfy`): the checks of collate, delete, merge, select,
  unlink list, insert and dump.

Helpers that `src/command.c` calls but does not define are given bodies or
are parameters:

- `ldb_word_count`/`ldb_extract_word` become `Words`/`ExtractWord`.
- `ldb_hex_to_bin` becomes `HexToBin`.
- `uint16_write` becomes `U16`, taken to be little-endian.
- `ldb_valid_hex`/`ldb_valid_ascii` are function parameters of `SyntaxCheck`.
- The template table `ldb_commands` is a parameter.
- `ldb_valid_table`/`ldb_read_cfg` are the two fields of a `Catalog`.

## Model

| member | source | states |
|---|---|---|
| CText.StrICmp | src/command.c:687-691 | true exactly when both strings have equal length and agree position by position under `tolower` |
| CText.Find | src/command.c:136 | `strstr`: the first index at or after `from` where the pattern occurs, or none when it occurs nowhere from there on |
| CText.StrToL | src/command.c:311 | `strtol` in base 10 or 16 stays within LONG_MIN..LONG_MAX, and a word made only of digits of the base reads as the number they spell, saturated at LONG_MAX |
| CText.Int32 | src/command.c:311 | the `(int)` cast lands in the 32-bit range, is congruent to its argument modulo 2^32, and leaves in-range values alone |
| CText.Atoi | src/command.c:216 | `atoi` is `strtol` in base 10 cut to `int`, so it always lands in the 32-bit range |
| CText.AtoiDecimal | src/command.c:216 | `atoi` reads back every non-negative `int` written in decimal |
| CText.AtoiNoDigits | src/command.c:216 | `atoi` of a word that starts with neither a sign nor a digit is 0 |
| Normalize.NormalizeCommand | src/command.c:52-74 | the buffer the loop fills, once right-trimmed, is the input's words joined by single spaces, and is canonical: only printable characters and single inner spaces, with none leading or trailing |
| Normalize.CollapseBlanks | src/command.c:58-68 | the fill loop leaves, in a buffer of `strlen + 1` characters, the printable characters in order, with one space for each run of blanks that follows a word |
| Normalize.NormalizedCanonical | src/command.c:58-71 | every normalised command is canonical |
| Normalize.NormalizedKeepsPrintables | src/command.c:61 | the printable characters of the input all survive, in order, and nothing else but spaces |
| Normalize.NormalizeIdempotent | src/command.c:58-71 | normalising twice is normalising once |
| Normalize.NormalizedFixedPoint | src/command.c:58-71 | a string is left unchanged by normalisation exactly when it is canonical |
| Normalize.WordsOfJoin | src/command.c:58-71 | words joined by single spaces split back into the same words |
| Normalize.ExtractWord | src/command.c:214 | the n-th word of a command is a word, and is empty exactly when n is not between 1 and the word count |
| Normalize.ExtractJoined | src/command.c:214 | on words joined by single spaces, word n is the n-th of those words |
| Normalize.WordsAreWords | src/command.c:58-71 | every piece `Words` splits a text into is a non-empty run of printable characters |
| Normalize.ConcatWords | src/command.c:58-71 | the words of a text, run together, are exactly its printable characters in order |
| Syntax.HitsFulfilled | src/command.c:99-119 | every command word before the `Hits`-th fulfils its template word, and the next pair, where both words exist, does not |
| Syntax.HitsOfPrefix | src/command.c:99-119 | conversely, a run of fulfilled pairs that ends at a failing pair or at either list's end has exactly `Hits` pairs |
| Syntax.SyntaxCheck | src/command.c:85-125 | true exactly when some template is matched in all its words. On success: the index of the first such template and its word count. On failure: the last template that matched any leading words and how many, or 0 and 0 when none did |
| Syntax.CompareWords | src/command.c:97-118 | the inner loop counts exactly `Hits` for one template, and overwrites the recorded best match with this template and that count exactly when the count is positive |
| Syntax.BestSpec | src/command.c:111-117 | the values the outer loop leaves behind are 0 and 0 when no template matched a leading word, otherwise the last template that did and its count |
| Syntax.RecognisedWithTrailingWords | src/command.c:94-96 | extra words after a recognised command do not stop it being recognised |
| Syntax.LiteralTemplateMatchesItself | src/command.c:107-109 | a template without placeholders matches its own words |
| Syntax.ShortCommandNotRecognised | src/command.c:94-96 | a command with fewer words than a template never matches it |
| Keys.KeysStart | src/command.c:133-139 | the offset right after the first occurrence of " keys ", or none exactly when " keys " does not occur |
| Keys.ValidHexLn | src/command.c:148-156 | true exactly when the first `ln` characters exist and are `0-9` or `a-f`; uppercase is rejected |
| Keys.HexToBin | src/command.c:182 | `ldb_hex_to_bin` yields half as many bytes as it reads characters |
| Keys.HexToBinAt | src/command.c:182 | byte j of the decoding is the byte spelt by characters 2j and 2j+1, high nibble first |
| Keys.HexToBinOfBinToHex | src/command.c:182 | decoding the lowercase hex spelling of bytes gives those bytes back |
| Keys.BinToHexOfHexToBin | src/command.c:182 | an even run of lowercase hex digits is the spelling of its decoding |
| Keys.HexToBinInto | src/command.c:182 | decoding into the blob at offset `at` writes the decoded key there and leaves the bytes before and after it alone |
| Keys.FetchKeys | src/command.c:166-204 | the loop leaves a blob of `strlen / 2` bytes whose first `size` bytes are exactly `ParseKeys` of the list, with every key character checked |
| Keys.FetchStep | src/command.c:175-199 | one pass of the loop skips a space or comma, advancing one character, or reads a key, advancing `2 * key_ln` characters and `key_ln` bytes when it is kept; it moves forward keeping the loop's state, or the whole list parses to nothing |
| Keys.ReadKey | src/command.c:179-198 | a key whose first `2 * key_ln` characters are not all lowercase hex is rejected and the whole list parses to nothing; a kept key advances `2 * key_ln` characters and `key_ln` bytes and keeps the loop's state |
| Keys.StoreKey | src/command.c:181-197 | a well-formed key is decoded into the blob right after the keys already read; it is kept exactly when it is the first thing in the list or its first byte equals the blob's first byte, and then the loop advances `2 * key_ln` characters and `key_ln` bytes with that key appended; otherwise the list parses to nothing |
| Keys.ParseKeysSound | src/command.c:172-201 | a non-empty blob is the list's keys in order: its hex spelling is the list with separators removed |
| Keys.ParseKeysRejectsNonHex | src/command.c:180-199 | a list holding any character other than separators and lowercase hex digits gives size 0 |
| Keys.ParseKeysBlocks | src/command.c:166-204 | the size is a multiple of `key_ln` and fits the `strlen / 2` allocation, and every `key_ln`-byte block starts with the first block's byte |
| Keys.ParseKeysComplete | src/command.c:172-201 | keys of one sector, printed in lowercase hex and separated by commas, are parsed back into their concatenation |
| Keys.ParseKeysMixedSectors | src/command.c:185-189 | a list holding a key whose first byte differs from the first key's gives size 0 |
| Keys.AsWrittenAcceptsNonHex | src/command.c:180-192 | as written, "aabbzzzz" with `key_ln` 4 is accepted as one key, although the corrected parser rejects it |
| Keys.AsWrittenOverrunsBlob | src/command.c:168-182 | as written, "aabb" with `key_ln` 4 yields 4 bytes, more than the 2-byte blob holds; the corrected parser rejects it |
| Keys.ParseKeysAsWritten | src/command.c:166-204 | `fetch_keys` as written gives the same blob as the corrected parser on every list the corrected parser accepts |
| Keys.ScanFullCheckAgrees | src/command.c:180 | checking `key_ln` of a key's characters accepts everything checking all `2 * key_ln` accepts, with the same keys |
| Framing.UnframeFrame | src/command.c:456-459 | the header reads back to the payload exactly when the payload is at most 65533 bytes; beyond that the 16-bit sizes wrap |
| Framing.U16 | src/command.c:457-458 | `uint16_write` stores the value modulo 2^16 in two bytes, low byte first |
| Framing.Frame | src/command.c:456-459 | the framed record is the payload behind 4 header bytes |
| Framing.FrameInPlace | src/command.c:456-459 | the overlapping move plus the two header writes leave the framed payload in the first `dataln + 4` bytes and nothing after them changed |
| Handlers.CheckMax | src/command.c:235-238 | passes exactly when the table has no fixed record length or `max` equals it, and `max` is at least the key length; the fixed-length error comes first, and otherwise a too-small `max` is the key-length error |
| Handlers.ReadCfg | src/command.c:550 | the table `ldb_read_cfg` returns is the one named by its argument |
| Handlers.CollateCommand | src/command.c:261-293 | nothing happens for an unknown table; a failed `max` check is reported with its error and calls no engine function; otherwise the named table is collated, with the typed `max`, into its temporary copy with 4-byte keys |
| Handlers.CollateTyped | src/command.c:263-285 | "collate T max N" collates T with the cap N exactly when the checks on N pass, and reports the fixed-length error when N differs from a fixed record length |
| Handlers.DeleteCommand | src/command.c:211-254 | a parse giving less than one key is reported first, then a failed `max` check with its error; otherwise the named table is collated with the typed `max` into its temporary copy, with the keys of the corrected key parser as the keys to remove |
| Handlers.DeleteKeysWellFormed | src/command.c:230-243 | the keys a delete hands to the engine are at least one whole key of the table's key length, all in one sector, and are all the list holds |
| Handlers.MergeCommand | src/command.c:334-374 | a failed `max` check, then differing key lengths, then differing record types are reported in that order and call no engine function; otherwise the table named by word 2 is merged into the table named by word 4, made non-temporary with 4-byte keys, with the typed `max`; each side carries its own table name |
| Handlers.SelectCommand | src/command.c:521-585 | keys under 8 characters are reported; a key whose byte length is neither the table's key length nor 4 is reported as invalid; otherwise the named table is fetched with the decoding of the typed key |
| Handlers.SelectKeyLengths | src/command.c:547-567 | a fetch uses a key of the table's key length or of 4 bytes, and matches by prefix exactly for the 4-byte one |
| Handlers.SelectHexWidth | src/command.c:553-554 | the hex printer is as wide as the fixed record length, or 16 bytes |
| Handlers.SelectPrinter | src/command.c:532-535 | ascii output uses the ascii printer, and csv output the csv printer given `atoi` of the eighth word |
| Handlers.SelectOnShortKeyTable | src/command.c:555-567 | on a table with 4-byte keys every fetch is a short-key fetch |
| Handlers.UnlinkCommand | src/command.c:387-420 | the list is unlinked exactly when the table exists and the key is 8 characters, on that table with the decoding of the key; other lengths are reported |
| Handlers.UnlinkKey | src/command.c:398-409 | the unlinked list is named by a 4-byte key whose hex spelling is the key typed |
| Handlers.InsertCommand | src/command.c:428-483 | a key under 8 characters on an existing table is reported; otherwise a write happens, to the named table, of the decoding of the key, at least 4 bytes, and a record whose payload behind the 4 header bytes is the data |
| Handlers.InsertRecordReadsBack | src/command.c:446-459 | the written record reads back, through its header, as the data typed: its bytes for ascii, its decoding for hex |
| Handlers.SectorAsWritten | src/command.c:313 | as written, the sector is kept unless it is below 0 or above 256 |
| Handlers.Sector | src/command.c:313 | corrected: the sector is a first key byte, 0..255, or -1 for all sectors |
| Handlers.SectorAsWrittenLets256Through | src/command.c:311-313 | as written, sector word "100" passes as sector 256; the corrected check turns it into -1 |
| Handlers.DumpCommand | src/command.c:300-327 | every existing table is dumped, with `atoi` of the hex word; the sector is -1 without a sector word, and otherwise the base-16 value of the sector word cut to `int` and checked by the corrected check |
| Handlers.DumpOneSector | src/command.c:308-314 | a sector named by two lowercase hex digits dumps the sector whose first key byte they spell |

## Left out

- The storage engine is not modelled: `ldb_collate`, `ldb_node_write`, `ldb_fetch_recordset`, `ldb_list_unlink`, `ldb_dump`, `ldb_dump_keys` and `mz_cat`. Their code is not part of this model, so a handler ends in the `Action` describing the call.
- Files, locks and printing are left out: `ldb_open`/`fclose`, `ldb_lock`/`ldb_unlock`, the `printf` messages, and `ldb_command_show_databases`, `ldb_command_show_tables`, `ldb_command_create_database`, `ldb_command_create_table` and `print_record`. Errors are `Error` tags.
- `ldb_unlock` is also called when the table name is invalid. The model has no locks.
- The `qsort` of the keys a delete removes is left out (src/command.c:241): its comparator is not part of this model, so `delKeys` is the blob in list order.
- `ldb_mz_cat` (MD5 and decompression state) is left out, as is `src/shell.c`, which dispatches, reads stdin and prints help.
- Handlers.DeleteCommand: requires that `keys_start` finds " keys ". Without it the source passes NULL to `fetch_keys`, which dereferences it. It also requires a positive key length in the table configuration, because `fetch_keys` makes no progress with `key_ln` 0. It uses the corrected key parser `ParseKeys`, so a list the as-written check accepts, e.g. "aabbzzzz" with key length 4, is rejected here where src/command.c:231-243 collates (see Findings).
- Keys.FetchKeys: models the corrected check (see Findings). The as-written check is `ParseKeysAsWritten`. The pointer walking past the string's end in that version is modelled by padding with NUL characters (`Chars`).
- Handlers.InsertCommand: models the intended hex insert, a framed `HexToBin(data)`. As written, the hex path decodes `strlen(key)` characters of the data (src/command.c:450). It also frames the undecoded text and then writes the unframed `databin` (src/command.c:469). The bytes that path writes are partly uninitialised memory, so they are not modelled.
- Framing.FrameInPlace: requires 4 spare bytes after the payload. In the source, `data` is the word as `ldb_extract_word` allocated it, so the `memmove` writes up to 4 bytes past it. That allocation is not part of this model.
- Syntax.SyntaxCheck: the validators `ldb_valid_hex`/`ldb_valid_ascii` and the word splitting of `ldb_word_count`/`ldb_extract_word` are not part of this model. `Words` is taken to split at characters that are not printable, the normaliser's own notion of a word.
- `ldb_hex_to_bin` reads a character that is not a hex digit as 0 here (`HexValue`). Its real treatment of such characters is not part of this model. Every decoding of a word the source does not validate depends on it: the select key (src/command.c:546), the unlink key (src/command.c:403), the insert key and hex data (src/command.c:447, 450), and the as-written key list, e.g. the bytes `AsWrittenAcceptsNonHex` gives for "aabbzzzz".
- Handlers.DumpCommand: uses the corrected sector check `Sector`, so sector word "100" gives -1 where src/command.c:313 as written passes 256 (see Findings; `SectorAsWritten` is the as-written check).
- A C string is modelled as its characters before the terminating NUL, so a Dafny string stands for no text with an embedded NUL. Where the C loops stop at a NUL (`*key` in src/command.c:174), the model's loops run to the end of the string, which is the same place.
- `LDB_KEY_LN` is taken to be 4: the header that defines it is not part of this model. The select handler compares with `LDB_KEY_LN` (src/command.c:557) and with the literal 4 (src/command.c:565); the model uses `LDB_KEY_LN` for both.
- `ldb_read_cfg` and `struct ldb_table` are not part of this model: a `Table` holds the name it was read for and the three fields the checks use.
- `uint16_write` is taken to be little-endian.
- `char` is taken to be signed, so `text[i] > ' '` fails for bytes 0x80..0xFF.

## Findings

| source | as written | input that shows it | evidently intended | confidence | as-written member | corrected member |
|---|---|---|---|---|---|---|
| src/command.c:180-192 | `valid_hex_ln(key, key_ln)` checks `key_ln` characters, but `2 * key_ln` are decoded and skipped | "aabbzzzz" with key length 4 is accepted; "aabb" with key length 4 decodes 4 bytes into a 2-byte `calloc` | `valid_hex_ln(key, key_ln * 2)` | high (not executed) | Keys.AsWrittenAcceptsNonHex | Keys.FetchKeys |
| src/command.c:313 | `sectorn > 256` lets sector 256 through | "dump T hex 16 sector 100" (hex 100 = 256) | `sectorn > 255`: a sector is one byte, 0..255 | medium (not executed) | Handlers.SectorAsWrittenLets256Through | Handlers.Sector |
