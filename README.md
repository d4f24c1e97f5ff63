# gcc-hexdump tools in Dafny

A model of the core of five small C utilities for the 8-bit Intel HEX
format and for hex dumps of files, each with proofs of what the code does:

- **gcc-load** reads Intel HEX text one character at a time (`i_read_hex`).
  Each record's data bytes are written to the output file as they are
  decoded. After each record the program echoes ` - Ok` or ` - Error`, and
  it counts errors. The output file's name is the input name with `.hex`
  replaced by `.com`. Module `Load`:
  - The pure state machine is `Advance`/`Run`/`Decode`, over a `Reader`
    value that holds all the locals of the C function.
  - Class `HexReader` has the same locals as mutable fields, and its
    `Step`/`ReadHex` methods are proved against `Advance`/`Run`.
- **gcc-unload** writes a file as Intel HEX (`v_dump_hex`): data records of up
  to 16 bytes from address 0x0100, each with its two's-complement checksum,
  then the end-of-file record `:00000001FF`. Module `Unload`:
  - The specification is a list of `Record`s (`DataRecords`).
  - Its printed form is `Line`/`Lines`/`IntelHex`.
  - The methods mirror the `fread` loop over a 16-byte buffer.
- **RoundTrip** proves that the reader, fed the writer's output, writes back
  the original bytes. It reports `Ok` for every record and counts no error,
  provided every address fits in four hex digits.
- **gcc-dump** (`v_dump_hex`) has two modes:
  - With `-i` it is the Intel HEX writer above.
  - Otherwise it prints plain dump lines: a 4-digit hex or 6-digit octal
    address, the bytes in groups of four hex bytes or as octal triples, and
    with `-a` the bytes masked to printable characters. Non-printing bytes
    are replaced in the buffer itself.

  Module `Dump`.
- **gcc-hexdump** (`i_fprintbuf` and the read loop of `main`) prints one row
  per 16-byte chunk:
  - The row starts with a 7-digit address and the bytes as `%02X ` or
    `%03o ` fields.
  - With `-a`, an ASCII column follows that lines up however short the
    chunk is.
  - With `-c`, a second row shows each masked byte under its digits.

  The address is the count of bytes of the file read so far. Module
  `Hexdump`.
- **gcc-entab** (`v_entab`) replaces runs of spaces that reach a tab stop
  (every 8 columns) with a tab. It holds back spaces until the next
  character. Module `Entab`:
  - `Step`/`Run` are the two counters of the C loop.
  - `EntabFile` is the loop itself.
  - Expanding the tabs of the copy again gives back the input, less the
    trailing spaces that were never written.

Shared pieces:
- `Bytes`: the unsigned-char range, the checksum byte, and the printable mask
  with its in-place loop.
- `Bytes.Fread`: the `fread` of a 16-byte buffer.
- `Printf`: the `printf` conversions used.
  - `%0wX` and `%0wo` are `Numeral`, which widens past `w` digits as C does.
  - `%*s` is `FieldWidth`.
  - `%.*s` is `Precision`, which stops at a NUL.

Files are modelled as byte sequences in and strings out. The flags are
plain values: the command-line parsing that sets them is not modelled.

Where the code and the format's usual description disagree, the model
follows the code:
- the reader does not stop at an end-of-file record;
- it writes a record's data before its checksum is known, so bytes of a bad
  record are not withheld;
- it never looks at the record type, which enters only the checksum;
- it accepts only the checksum that includes the type, so there is no
  alternative end-of-file checksum;
- byte pairs after a record's checksum are written to the output as data
  without any error.

## Model

| member | source | states |
|---|---|---|
| Bytes.Negate8 | gcc-unload.c:132 | `(~(sum & 0xFF) + 1) & 0xFF` added to the sum gives a multiple of 256 |
| Bytes.MaskByte | gcc-hexdump.c:161-168 | the replacement is always printable; printable bytes are kept, others become a space with `-c` or a full stop otherwise |
| Bytes.MaskInPlace | gcc-dump.c:150-159 | the first `n` bytes of the buffer are replaced by their masked values and the rest of the buffer is unchanged |
| Bytes.Masked | gcc-hexdump.c:161-168 | the masked chunk has the chunk's length, every byte of it is printable, and every printable byte of the chunk is kept where it was |
| Bytes.Fread | gcc-unload.c:122 | `fread` returns the number of bytes left, at most the buffer size, copies exactly those next bytes of the file to the front of the buffer and leaves the rest of the buffer as it was |
| Printf.Numeral | gcc-unload.c:124 | `%0wX`/`%0wo` prints at least one digit and at least `w` digits, and the digits read in base 16 or 8 have the value printed |
| Printf.NumeralWidth | gcc-unload.c:124 | a value below `base^w` prints in exactly `w` digits |
| Printf.NumeralDigits | gcc-hexdump.c:154 | a numeral consists of upper-case hex digits, and of octal digits in base 8 |
| Printf.HexBytes | gcc-unload.c:126-130 | the byte loop prints exactly two upper-case hex digits per byte |
| Printf.FieldWidth | gcc-hexdump.c:170 | `%*s` is as wide as the string or as the absolute field width, whichever is larger; the string is printed whole, at the right end for a positive width and at the left for a negative one, and every other column is a space |
| Printf.Precision | gcc-hexdump.c:171 | `%.*s` prints at most `n` characters and stops only at a NUL |
| Printf.PrecisionWhole | gcc-dump.c:163 | with no NUL among the first `n` bytes, `%.*s` prints exactly those `n` bytes |
| Printf.MaskedText | gcc-hexdump.c:171 | after masking, `%.*s` prints the whole chunk, since no masked byte is a NUL |
| Load.Nibble | gcc-load.c:179-182 | `0`..`9` give 0..9, `a`..`f` and `A`..`F` give 10..15, and any other character gives 0 |
| Load.Advance | gcc-load.c:160-254 | one character appends at most one byte to the output and at most one verdict, never takes any back, and every ` - Error` verdict comes with one more error in the count |
| Load.Run | gcc-load.c:160-254 | over a whole text the output and the verdicts only grow, by at most one per character, and the error count rises by at least the number of ` - Error` verdicts |
| Load.Decode | gcc-load.c:148-256 | from the initial state the output and the verdicts are no longer than the input, and the error count is at least the number of ` - Error` verdicts |
| Load.SkipText | gcc-load.c:164-175 | junk between records: while seeking, text in which no ':' follows a line end changes nothing but the previous character, which NULs straight after a newline leave alone |
| Load.FirstRecord | gcc-load.c:164-175 | after such junk ending in a line end, the next ':' starts a record with the count, address, type, data and checksum reset, whatever junk came before |
| Load.LeadingNuls | gcc-load.c:253 | NULs after a newline leave the reader unchanged, so a following ':' still starts a record |
| Load.CountField | gcc-load.c:176-185 | the two count nibbles build the count most-significant first; each malformed digit adds one error and nothing else changes, line ends included |
| Load.AddressField | gcc-load.c:186-197 | the four address nibbles build the address most-significant first; malformed digits are counted as errors |
| Load.TypeField | gcc-load.c:198-208 | the type nibbles build the type, which is never checked; after each type nibble the checksum is count + type + high and low address bytes |
| Load.DataPair | gcc-load.c:220-249 | a pair while bytes are expected is written out and summed; the pair at count zero is the checksum, reported Ok iff it equals the two's complement of the sum, otherwise Error with one more error; the count goes on down past zero |
| Load.DataBytes | gcc-load.c:228-235 | while the count does not reach zero mid-field, and also after the checksum (negative count), every decoded pair is appended to the output in order and added to the sum |
| Load.DataLineEnd | gcc-load.c:209-218 | a line end after the header ends the record and writes no byte; it reports ` - Error` and counts one more error exactly when the checksum pair has not yet been read (the byte count is still 0 or more) |
| Load.BytePair | gcc-load.c:222-235 | the two digits `%02X` prints for a byte read back as that byte, written and summed |
| Load.NumeralReadsBack | gcc-load.c:178-181 | a numeral printed by `%0wX` reads back as its value, with no malformed digit |
| Load.HexReader.constructor | gcc-load.c:150-158 | the reader starts seeking, with newline as the previous character and no errors |
| Load.HexReader.Step | gcc-load.c:160-254 | one character updates the fields exactly as the pure step function does |
| Load.HexReader.SeekChar | gcc-load.c:164-175 | the seek state's branch |
| Load.HexReader.HeaderChar | gcc-load.c:176-208 | the count, address and type branches |
| Load.HexReader.LineEndChar | gcc-load.c:210-219 | the line-end branch of the data phase |
| Load.HexReader.DataChar | gcc-load.c:222-249 | a data nibble, completing a pair on every second one |
| Load.HexReader.CompletePair | gcc-load.c:228-249 | a completed pair: written and summed, or compared as the checksum |
| Load.HexReader.ReadHex | gcc-load.c:160-254 | reading a whole input leaves the fields equal to the pure run over it |
| Load.LoadFile | gcc-load.c:148-256 | the bytes written and the verdicts reported for one input file are those of the pure decoder |
| Load.ComName | gcc-load.c:335-340 | a name is accepted iff it is longer than 4 characters and ends in `.hex`; the new name keeps everything before the last four characters and ends in `.com` |
| Load.RenameToCom | gcc-load.c:335-366 | the name buffer is rewritten in place exactly when accepted, and left alone when rejected |
| Unload.Checksum | gcc-unload.c:125-132 | count + type + address bytes + data + checksum is a multiple of 256 |
| Unload.Line | gcc-unload.c:124-132 | a record's line starts with ':', ends with a newline and has at least 12 characters plus two per data byte |
| Unload.DataRecords | gcc-unload.c:122-133 | a file of n bytes gives ceil(n / 16) data records |
| Unload.IntelHex | gcc-unload.c:115-140 | the output starts with ':' and always ends with the end-of-file line `:00000001FF` |
| Unload.Chunking | gcc-unload.c:122-133 | there are ceil(n/16) data records, each of 1 to 16 bytes and all but the last of 16, the k-th of type 0 at base + 16k |
| Unload.DataPreserved | gcc-unload.c:122-134 | the records' data, concatenated, is the input |
| Unload.LineFormat | gcc-unload.c:124-132 | a record whose fields fit prints as ':' then 2+4+2+2n+2 upper-case hex digits and a newline |
| Unload.EofLine | gcc-unload.c:136-139 | the end-of-file record prints as `:00000001FF` and a newline |
| Unload.EmptyInput | gcc-unload.c:135-139 | an empty file gives only the end-of-file line |
| Unload.WriteData | gcc-unload.c:126-130 | the byte loop prints each byte as two hex digits and sums them |
| Unload.WriteRecord | gcc-unload.c:124-132 | one pass of the read loop prints the record's line |
| Unload.PrintChunk | gcc-unload.c:124-132 | printing the chunk in the buffer appends its record's line to the lines already printed |
| Unload.NextChunk | gcc-unload.c:122-133 | the next `fread` moves on by the chunk size, the address with it, and records the chunk just printed; the buffer past the bytes read is left as it was |
| Unload.WriteRecords | gcc-unload.c:122-134 | the read loop prints the lines of all data records |
| Unload.DumpHex | gcc-unload.c:115-140 | the writer prints the data records followed by the end-of-file record |
| RoundTrip.HeaderReadBack | gcc-load.c:164-208 | the reader parses the written `:LLAAAATT` back into the count and seeds the checksum as the writer computed it |
| RoundTrip.ChecksumPair | gcc-load.c:236-246 | the checksum pair is reported Ok exactly when it matches |
| RoundTrip.BodyReadBack | gcc-load.c:209-249 | the data and checksum of a written record are read back: data appended, Ok reported, no error, and the final newline ends the record |
| RoundTrip.ShortRecord | gcc-load.c:209-219 | a record whose line ends after k of its n data pairs writes exactly those k bytes, reports ` - Error`, counts one error and goes back to seeking |
| RoundTrip.RecordReadBack | gcc-load.c:148-256 | one written line is read back as its data with one Ok |
| RoundTrip.LinesReadBack | gcc-load.c:148-256 | written lines read back as their concatenated data with one Ok each |
| RoundTrip.RecordsFit | gcc-unload.c:122-133 | when the last record's address fits in 4 digits, so do all of them |
| RoundTrip.RoundTrip | gcc-unload.c:115-140 | the reader fed the writer's output writes back exactly the input, reports Ok for every data record and the end-of-file record, and counts no error |
| RoundTrip.Example | gcc-unload.c:124-139 | the three bytes 3E FF 87 at 0x0100 give `:030100003EFF8738` and the end-of-file line |
| Dump.AddressField | gcc-dump.c:136-139 | the plain address is 6 octal digits with `-b` or 4 hex digits otherwise, while it fits |
| Dump.ByteFields | gcc-dump.c:140-149 | the byte loop prints 4 columns per byte in octal, or 2 per byte plus one space per group of four in hex |
| Dump.HexByteAt | gcc-dump.c:144-148 | byte k's two hex digits sit at column 2k + k/4 + 1 of the byte part, after a space when k is a multiple of 4 |
| Dump.OctalByteAt | gcc-dump.c:141-142 | byte k's three octal digits sit at column 4k, followed by a space |
| Dump.HexAsciiColumn | gcc-dump.c:160-166 | with `-a` in hex, while the address fits four digits (below 0x10000), the masked bytes, exactly `n` of them, start at column 42 whatever the chunk size, and the line ends there; every column between the last byte field and column 42 is a space |
| Dump.OctalAsciiColumn | gcc-dump.c:160-166 | with `-a` in octal, while the address fits six octal digits (below 0x40000), the masked bytes start at column 43 + 2n - (n-1)/4, which moves with the size of a short last chunk, and the columns from the end of the byte fields up to there are spaces |
| Dump.PlainLine | gcc-dump.c:136-166 | a chunk prints exactly one line: its only newline is its last character |
| Dump.PlainLines | gcc-dump.c:134-167 | the plain dump of a list of chunks has one line per chunk |
| Dump.Dump | gcc-dump.c:113-168 | with `-i` the output ends with the end-of-file line; otherwise a file of n bytes prints ceil(n / 16) lines |
| Dump.DumpFile | gcc-dump.c:304-311 | with `-f` (`--filenames`) the output starts with `name:` and a newline; without `-i` it has that header line, if any, and then ceil(n / 16) lines |
| Dump.WriteBytes | gcc-dump.c:140-149 | the byte loop prints the byte fields of the buffer |
| Dump.WriteAscii | gcc-dump.c:150-164 | the buffer's first `n` bytes are masked in place, the rest of the buffer is left as it was, and, with `-a`, the padding and exactly those `n` masked bytes are printed |
| Dump.WritePlainLine | gcc-dump.c:136-166 | one pass prints the plain line for the chunk and leaves the chunk masked in the buffer and the rest of the buffer as it was |
| Dump.PlainChunk | gcc-dump.c:136-166 | printing the chunk in the buffer appends its plain line to the lines already printed, masks the chunk in the buffer and leaves the rest of the buffer as it was |
| Dump.WritePlainLines | gcc-dump.c:134-167 | the plain read loop prints one line per 16-byte chunk, the address advancing by each chunk's size |
| Dump.DumpHex | gcc-dump.c:113-168 | with `-i` the output is the Intel HEX writer's; otherwise it is the plain lines |
| Dump.DumpOne | gcc-dump.c:304-311 | a file gets the optional `name:` header, then the dump from 0x0100 with `-i` or 0 otherwise |
| Dump.DumpAll | gcc-dump.c:302-322 | the files are dumped in command-line order |
| Hexdump.Prefix | gcc-hexdump.c:154 | the row address `%07X: ` takes 9 columns while it fits in 7 digits |
| Hexdump.Cells | gcc-hexdump.c:155-160 | the byte loop takes (3 + b) columns per byte |
| Hexdump.CellAt | gcc-hexdump.c:155-160 | byte k's field, `%02X ` or `%03o `, starts at column (3 + b)k of the byte part |
| Hexdump.ByteColumn | gcc-hexdump.c:154-160 | while the address fits seven digits (below 0x1000_0000), on the first row byte k's field starts at column 9 + (3 + b)k |
| Hexdump.AsciiColumn | gcc-hexdump.c:169-172 | with `-a`, while the address fits seven digits (below 0x1000_0000), the (3 + b)(16 - size) padding puts the masked text at column 9 + (3 + b)16 for every chunk size, and every padding column is a space; exactly `size` masked bytes follow and end the first row |
| Hexdump.CharColumn | gcc-hexdump.c:173-181 | with `-c`, while the address fits seven digits (below 0x1000_0000), the second row repeats the 9-column address, and byte k's masked character sits at column 9 + (3 + b)k + 1, under that byte's digits |
| Hexdump.Row | gcc-hexdump.c:152-184 | one chunk prints one line, or two with `-c`, the last newline ending the text |
| Hexdump.Rows | gcc-hexdump.c:288-294 | a list of chunks prints one line per chunk, or two per chunk with `-c` |
| Hexdump.HexdumpFile | gcc-hexdump.c:282-295 | a file prints nothing iff it is empty; otherwise the optional header line and ceil(n / 16) rows of one line, or two with `-c` |
| Hexdump.RowAddresses | gcc-hexdump.c:282-294 | the first chunk of every file is at address 0, and each next one at the previous address plus the previous chunk's size |
| Hexdump.WriteCells | gcc-hexdump.c:155-160 | the byte loop prints the byte fields of the buffer |
| Hexdump.WriteChars | gcc-hexdump.c:175-180 | the character loop prints each buffer byte in its 3- or 4-wide field |
| Hexdump.WriteAscii | gcc-hexdump.c:161-172 | the first `size` bytes are masked in place, the rest of the buffer is left as it was, and, with `-a`, the padding and exactly those bytes are printed |
| Hexdump.WriteFirstRow | gcc-hexdump.c:154-172 | the address, byte loop, masking and ASCII part print the first row; the chunk is left masked in the buffer and the rest of the buffer as it was |
| Hexdump.PrintBuf | gcc-hexdump.c:152-184 | the dump routine prints the chunk's row, with `-c` the character row, and leaves the chunk masked in the buffer and the rest of the buffer as it was |
| Hexdump.FileChunk | gcc-hexdump.c:288-293 | one pass of the read loop prints the `name:` header only while the byte count is 0, then the chunk's row; the chunk is left masked in the buffer and the rest of the buffer as it was |
| Hexdump.RowChunk | gcc-hexdump.c:291 | printing the chunk in the buffer appends its row to the rows already printed, masks the chunk in the buffer and leaves the rest of the buffer as it was |
| Hexdump.HexdumpOne | gcc-hexdump.c:282-295 | each file restarts its byte count at 0; a non-empty file prints its optional header and one row per chunk at the bytes read before it; an empty file prints nothing |
| Hexdump.HexdumpAll | gcc-hexdump.c:281-302 | the files are dumped in command-line order |
| Entab.Step | gcc-entab.c:125-146 | one character never takes back what was written, appends to the visible characters (neither space nor tab) exactly its own, and adds at most one to what is written plus what is held back |
| Entab.Run | gcc-entab.c:119-148 | after any input the column counter is the current column plus one; the held-back spaces are fewer than 8, no more than the column past the last tab stop, and are the input's trailing spaces; the copy has the input's visible characters in order and is, with the held-back spaces, no longer than the input |
| Entab.Entab | gcc-entab.c:119-148 | the copy is never longer than the input and has exactly its visible characters, in order |
| Entab.SpaceStep | gcc-entab.c:127-134 | a space at a column that is a multiple of 8 writes one tab and drops the held-back spaces; any other space is only held back |
| Entab.OtherStep | gcc-entab.c:136-146 | any other character is written after exactly the held-back spaces (the input's trailing spaces); `\n` and `\r` restart the column at 1 |
| Entab.AgreesStep | gcc-entab.c:125-146 | each character keeps the copy, with its tabs expanded, equal to the input less the held-back spaces, at the same column; a tab spans exactly the held-back spaces plus one |
| Entab.Put | gcc-entab.c:125-146 | the loop body for one character, with its drain loop, updates the column, the held-back count and the copy exactly as one step of the counters |
| Entab.Inverse | gcc-entab.c:119-148 | for input without tabs, expanding the copy's tabs to 8-column stops gives the input less its trailing held-back spaces, which are never written |
| Entab.EntabFile | gcc-entab.c:119-148 | the character loop, with its inner loop that drains held-back spaces, writes exactly the copy |

## Left out

- File handling is left out: opening, closing and `stat`-ing files; rejecting directories; the error messages for files that cannot be opened; and the exit status. Files are byte sequences and output is a string.
- Command-line parsing is left out, including the DEC/Microsoft `/OPTION` syntax and `v_version`/`v_about`/`v_error`. The flags are plain parameters.
- gcc-load's echo of each record's fields to standard output is reduced to the sequence of ` - Ok`/` - Error` verdicts. The two different causes of ` - Error` share one outcome, because the program prints the same text for both.
- gcc-load's file-name echo when several files are given, and its loop over files, are left out; `LoadFile` models one file.
- The `i_offset` argument of `i_read_hex` is never used by the code and is left out. The reader never uses a record's address to position its output.
- Motorola S-records are not part of this model: the code has no S-record writer.
- `isprint` is modelled as the C-locale range 0x20..0x7E. Locale-dependent behaviour and `isprint` on a negative `char` (gcc-hexdump's `char` buffer) are left out.
- The return value of `fflush` from `i_fprintbuf` is ignored by the caller and is left out.
- C `int` overflow is left out: a record count, address or byte count past 2^31, and an entab column past 2^31. Integers are unbounded.
- Unload.LineFormat, Dump.AddressField, Hexdump.Prefix, and the column lemmas Dump.HexAsciiColumn, Dump.OctalAsciiColumn, Hexdump.ByteColumn, Hexdump.AsciiColumn and Hexdump.CharColumn: state fixed widths and columns only while the value fits the field (address <= 0xFFFF, < 0x10000, < 0x40000 or < 0x1000_0000). Beyond that, `Printf.Numeral` widens as `printf` does.
- RoundTrip.RoundTrip: requires every record address to fit in four hex digits. Past 0xFFFF the writer's `%04X` widens and the reader misparses the record.
- Bytes.Fread: `fread` may return fewer bytes than asked before end of file. The model always fills the buffer, as a regular file does.
- gcc-entab's loop over files is left out; `EntabFile` models `v_entab` on one file. The `name:` line that loop would print before each file is unreachable code: no option of gcc-entab sets `b_hflag`, which starts false (gcc-entab.c:56, 190-212).
- Entab.Inverse: holds for input without tabs only. The code counts an input tab as one column, so the copy of a text that already has tabs may expand differently.

