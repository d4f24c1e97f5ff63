/** gcc-hexdump: each file is read 16 bytes at a time and every chunk printed
    as one row `AAAAAAA: ` followed by the bytes in hex (`%02X `) or octal
    (`%03o `); with `-a` the masked bytes follow in a column that lines up
    whatever the size of the chunk, and with `-c` a second row repeats the
    address and shows each masked byte under its digits. */
module Hexdump {
  import opened Bytes
  import opened Printf
  import opened Unload

  /** The switches the dump routine consults: `-a` ASCII column, `-b` octal,
      `-c` blanks for non-printing bytes and the character row, `-h` file name
      header. */
  datatype Flags = Flags(ascii: bool, octal: bool, spaceFill: bool, header: bool)

  /** The columns `n` byte fields take on a row, `(3 + b_bflag) * n`. */
  function Columns(n: int, octal: bool): int
  {
    if octal then 4 * n else 3 * n
  }

  /** `%07X: ` of the address at the head of each row. */
  function Prefix(address: nat): (r: string)
    ensures address < 0x1000_0000 ==> |r| == 9
  {
    assert Pow(16, 7) == 0x1000_0000;
    if address < 0x1000_0000 then NumeralWidth(address, 16, 7); Numeral(address, 16, 7) + ": "
    else Numeral(address, 16, 7) + ": "
  }

  /** The field of one byte: `%03o ` in octal, `%02X ` in hex. */
  function ByteCell(b: Byte, octal: bool): (r: string)
    ensures |r| == Columns(1, octal)
  {
    assert Pow(16, 2) == 256 && Pow(8, 3) == 512;
    NumeralWidth(b, 16, 2);
    NumeralWidth(b, 8, 3);
    if octal then Numeral(b, 8, 3) + " " else Numeral(b, 16, 2) + " "
  }

  /** The byte loop over a chunk. */
  function Cells(s: seq<Byte>, octal: bool): (r: string)
    ensures |r| == Columns(|s|, octal)
  {
    if s == [] then "" else Cells(s[..|s| - 1], octal) + ByteCell(s[|s| - 1], octal)
  }

  /** The field of one masked byte on the character row: ` %c  ` in octal,
      ` %c ` in hex. */
  function CharCell(c: Byte, octal: bool): (r: string)
    ensures |r| == Columns(1, octal)
  {
    if octal then " " + [c as char] + "  " else " " + [c as char] + " "
  }

  /** The character loop over a masked chunk. */
  function CharCells(s: seq<Byte>, octal: bool): (r: string)
    ensures |r| == Columns(|s|, octal)
  {
    if s == [] then "" else CharCells(s[..|s| - 1], octal) + CharCell(s[|s| - 1], octal)
  }

  /** `%*s` of `(3 + b_bflag) * (BUFFER_SIZE - size)` spaces, then `%.*s` of
      the masked chunk. */
  function AsciiPart(m: seq<Byte>, octal: bool): string
  {
    FieldWidth("", Columns(BufferSize - |m|, octal)) + Precision(m, |m|)
  }

  /** The start of every first row: the address and the byte fields. */
  function Head(address: nat, chunk: seq<Byte>, octal: bool): string
  {
    Prefix(address) + Cells(chunk, octal)
  }

  /** The first row for a chunk read at `address`: the address, the byte
      fields, and with `-a` the ASCII part. */
  function FirstRow(address: nat, chunk: seq<Byte>, flags: Flags): string
  {
    Head(address, chunk, flags.octal)
    + (if flags.ascii then AsciiPart(Masked(chunk, flags.spaceFill), flags.octal) else "")
  }

  /** The `-c` character row: the address again, then each masked byte in a
      field as wide as its digits. */
  function CharRow(address: nat, chunk: seq<Byte>, octal: bool): string
  {
    Prefix(address) + CharCells(Masked(chunk, true), octal)
  }

  /** What the dump routine prints for one chunk: the first row, with `-c` a
      newline and the character row, then a newline. That is one line, or two
      with `-c`, the last of them ending the text. */
  function Row(address: nat, chunk: seq<Byte>, flags: Flags): (r: string)
    ensures Newlines(r) == (if flags.spaceFill then 2 else 1) && r[|r| - 1] == '\n'
  {
    var first := FirstRow(address, chunk, flags);
    var second := if flags.spaceFill then "\n" + CharRow(address, chunk, flags.octal) else "";
    RowParts(address, chunk, flags);
    NewlinesAppend(first, second);
    NewlinesAppend(first + second, "\n");
    first + second + "\n"
  }

  /** The rows of a sequence of chunks, in order: one line per chunk, or two
      with `-c`. */
  function Rows(rs: seq<Record>, flags: Flags): (r: string)
    ensures Newlines(r) == if flags.spaceFill then 2 * |rs| else |rs|
  {
    if rs == [] then ""
    else
      var init, last := Rows(rs[..|rs| - 1], flags), Row(rs[|rs| - 1].address, rs[|rs| - 1].data, flags);
      NewlinesAppend(init, last);
      init + last
  }

  /** The `-h` line naming a file. */
  function Header(name: string, flags: Flags): string
  {
    if flags.header then name + ":\n" else ""
  }

  /** One file: the rows of its 16-byte chunks, each at the number of bytes
      read before it, after the optional `name:` header. An empty file prints
      nothing; any other prints the header line and ceil(n / 16) rows. */
  function HexdumpFile(name: string, input: seq<Byte>, flags: Flags): (r: string)
    ensures r == [] <==> input == []
    ensures NoNewline(name) && input != [] ==>
      Newlines(r) == (if flags.header then 1 else 0)
                     + (if flags.spaceFill then 2 * ((|input| + 15) / 16) else (|input| + 15) / 16)
  {
    if input == [] then ""
    else
      var rows := Rows(DataRecords(input, 0), flags);
      Chunking(input, 0);
      Labelled(name, flags.header, rows);
      Header(name, flags) + rows
  }

  /** Every file named on the command line, in order. */
  function HexdumpFiles(files: seq<(string, seq<Byte>)>, flags: Flags): string
  {
    if files == [] then ""
    else HexdumpFiles(files[..|files| - 1], flags) + HexdumpFile(files[|files| - 1].0, files[|files| - 1].1, flags)
  }

  /** Printing the first `j` bytes of a chunk prints a prefix of the whole. */
  lemma {:induction false} CellsPrefix(s: seq<Byte>, j: nat, octal: bool)
    requires j <= |s|
    ensures |Cells(s[..j], octal)| <= |Cells(s, octal)|
    ensures Cells(s, octal)[..|Cells(s[..j], octal)|] == Cells(s[..j], octal)
    decreases |s|
  {
    if j < |s| {
      var init := s[..|s| - 1];
      assert init[..j] == s[..j];
      CellsPrefix(init, j, octal);
    } else {
      assert s[..j] == s;
    }
  }

  /** The k-th byte's field starts at column `Columns(k)` of the byte loop. */
  lemma CellAt(s: seq<Byte>, k: nat, octal: bool)
    requires k < |s|
    ensures Columns(k + 1, octal) <= |Cells(s, octal)|
    ensures forall j :: 0 <= j < Columns(1, octal) ==>
      Cells(s, octal)[Columns(k, octal) + j] == ByteCell(s[k], octal)[j]
  {
    var before, cell, upto := Cells(s[..k], octal), ByteCell(s[k], octal), Cells(s[..k + 1], octal);
    assert upto == before + cell by {
      assert s[..k + 1][..k] == s[..k];
    }
    CellsPrefix(s, k + 1, octal);
    FieldAt(Cells(s, octal), before, cell);
  }

  /** A text that starts with `before + cell` holds `cell` at column `|before|`. */
  lemma FieldAt(r: string, before: string, cell: string)
    requires |before| + |cell| <= |r| && r[..|before| + |cell|] == before + cell
    ensures forall j :: 0 <= j < |cell| ==> r[|before| + j] == cell[j]
  {
    forall j | 0 <= j < |cell|
      ensures r[|before| + j] == cell[j]
    {
      assert r[|before| + j] == r[..|before| + |cell|][|before| + j];
    }
  }

  /** The k-th masked byte sits at column `Columns(k)` + 1 of the character loop. */
  lemma {:induction false} CharAt(s: seq<Byte>, k: nat, octal: bool)
    requires k < |s|
    ensures CharCells(s, octal)[Columns(k, octal) + 1] == s[k] as char
    decreases |s|
  {
    var last := |s| - 1;
    var init := CharCells(s[..last], octal);
    assert CharCells(s, octal) == init + CharCell(s[last], octal);
    if k < last {
      CharAt(s[..last], k, octal);
      assert s[..last][k] == s[k];
    }
  }

  /** A row made of `head`, space padding and a text `t`: the text starts at
      column `n`, the columns from the end of `head` up to there are spaces, and
      the text ends the row. */
  lemma PaddedRow(row: string, head: string, pad: string, t: string, n: int)
    requires row == head + (pad + t) && |head| + |pad| == n
    requires forall j :: 0 <= j < |pad| ==> pad[j] == ' '
    ensures |row| == n + |t| && row[n..] == t
    ensures forall i :: |head| <= i < n ==> row[i] == ' '
  {
    forall i | |head| <= i < n
      ensures row[i] == ' '
    {
      assert row[i] == pad[i - |head|];
    }
    assert row[n..] == t;
  }

  /** The first row with `-a`: the head, then the ASCII part. */
  lemma FirstRowSplit(address: nat, chunk: seq<Byte>, flags: Flags)
    requires flags.ascii
    ensures FirstRow(address, chunk, flags)
      == Head(address, chunk, flags.octal) + AsciiPart(Masked(chunk, flags.spaceFill), flags.octal)
  {
  }

  /** The ASCII part cut where its padding ends. */
  lemma AsciiPartSplit(m: seq<Byte>, n: nat, octal: bool)
    requires |m| == n
    ensures AsciiPart(m, octal) == FieldWidth("", Columns(BufferSize - n, octal)) + Precision(m, n)
  {
  }

  /** With `-a` the masked text starts at column `9 + Columns(16)` whatever the
      size of the chunk, so a short last row lines up with the full ones, and it
      is the masked chunk exactly; the columns between the last byte field and
      the text are spaces. */
  lemma AsciiColumn(address: nat, chunk: seq<Byte>, flags: Flags)
    requires flags.ascii && |chunk| <= BufferSize && address < 0x1000_0000
    ensures |FirstRow(address, chunk, flags)| == 9 + Columns(BufferSize, flags.octal) + |chunk|
    ensures FirstRow(address, chunk, flags)[9 + Columns(BufferSize, flags.octal) ..]
      == Text(Masked(chunk, flags.spaceFill))
    ensures forall i :: 9 + Columns(|chunk|, flags.octal) <= i < 9 + Columns(BufferSize, flags.octal) ==>
      FirstRow(address, chunk, flags)[i] == ' '
  {
    var head := Head(address, chunk, flags.octal);
    var pad := FieldWidth("", Columns(BufferSize - |chunk|, flags.octal));
    var m := Masked(chunk, flags.spaceFill);
    assert FirstRow(address, chunk, flags) == head + (pad + Text(m)) by {
      FirstRowSplit(address, chunk, flags);
      AsciiPartSplit(m, |chunk|, flags.octal);
      MaskedText(chunk, flags.spaceFill);
    }
    assert |head| == 9 + Columns(|chunk|, flags.octal);
    PaddedRow(FirstRow(address, chunk, flags), head, pad, Text(m), 9 + Columns(BufferSize, flags.octal));
  }

  /** On the first row the k-th byte's field starts at column `9 + Columns(k)`. */
  lemma ByteColumn(address: nat, chunk: seq<Byte>, octal: bool, k: nat)
    requires k < |chunk| && address < 0x1000_0000
    ensures 9 + Columns(k + 1, octal) <= |Head(address, chunk, octal)|
    ensures forall j :: 0 <= j < Columns(1, octal) ==>
      Head(address, chunk, octal)[9 + Columns(k, octal) + j] == ByteCell(chunk[k], octal)[j]
  {
    var p, cells, cell := Prefix(address), Cells(chunk, octal), ByteCell(chunk[k], octal);
    CellAt(chunk, k, octal);
    Shifted(p, cells, cell, Columns(k, octal));
  }

  /** A field found at column `a` of a text is found at column `|p| + a` once
      the text follows `p`. */
  lemma Shifted(p: string, t: string, cell: string, a: nat)
    requires a + |cell| <= |t|
    requires forall j :: 0 <= j < |cell| ==> t[a + j] == cell[j]
    ensures |p| + a + |cell| <= |p + t|
    ensures forall j :: 0 <= j < |cell| ==> (p + t)[|p| + a + j] == cell[j]
  {
    forall j | 0 <= j < |cell|
      ensures (p + t)[|p| + a + j] == cell[j]
    {
      assert (p + t)[|p| + a + j] == t[a + j];
    }
  }

  /** On the `-c` character row the k-th masked byte is printed one column
      after the start of that byte's field on the first row, so it sits under
      its digits. */
  lemma CharColumn(address: nat, chunk: seq<Byte>, octal: bool, k: nat)
    requires k < |chunk| && address < 0x1000_0000
    ensures |CharRow(address, chunk, octal)| == 9 + Columns(|chunk|, octal)
    ensures CharRow(address, chunk, octal)[9 + Columns(k, octal) + 1] == MaskByte(chunk[k], true) as char
  {
    CharAt(Masked(chunk, true), k, octal);
  }

  /** The chunk addresses the read loop passes on: the first chunk of a file is
      at 0, and each next one at the previous address plus the bytes that
      chunk held, so every row shows the number of bytes of the file read
      before it. */
  lemma RowAddresses(input: seq<Byte>)
    ensures var rs := DataRecords(input, 0);
      && (rs != [] ==> rs[0].address == 0)
      && forall k :: 0 <= k < |rs| - 1 ==> rs[k + 1].address == rs[k].address + |rs[k].data|
  {
    Chunking(input, 0);
  }

  /** The address is all digits. */
  lemma PrefixNoNewline(address: nat)
    ensures NoNewline(Prefix(address))
  {
    NumeralDigits(address, 16, 7);
    assert NoNewline(": ");
    NoNewlineAppend(Numeral(address, 16, 7), ": ");
  }

  /** The byte loop prints digits and spaces only. */
  lemma {:induction false} CellsNoNewline(s: seq<Byte>, octal: bool)
    ensures NoNewline(Cells(s, octal))
  {
    if s != [] {
      var b := s[|s| - 1];
      CellsNoNewline(s[..|s| - 1], octal);
      if octal {
        NumeralDigits(b, 8, 3);
        NoNewlineAppend(Numeral(b, 8, 3), " ");
      } else {
        NumeralDigits(b, 16, 2);
        NoNewlineAppend(Numeral(b, 16, 2), " ");
      }
      NoNewlineAppend(Cells(s[..|s| - 1], octal), ByteCell(b, octal));
    }
  }

  /** The character loop over printable bytes prints no newline. */
  lemma {:induction false} CharCellsNoNewline(s: seq<Byte>, octal: bool)
    requires forall i :: 0 <= i < |s| ==> Printable(s[i])
    ensures NoNewline(CharCells(s, octal))
  {
    if s != [] {
      CharCellsNoNewline(s[..|s| - 1], octal);
      NoNewlineAppend(CharCells(s[..|s| - 1], octal), CharCell(s[|s| - 1], octal));
    }
  }

  /** The ASCII part is spaces and printable characters. */
  lemma AsciiPartNoNewline(chunk: seq<Byte>, flags: Flags)
    ensures NoNewline(AsciiPart(Masked(chunk, flags.spaceFill), flags.octal))
  {
    var m := Masked(chunk, flags.spaceFill);
    var pad := FieldWidth("", Columns(BufferSize - |m|, flags.octal));
    MaskedText(chunk, flags.spaceFill);
    assert NoNewline(pad);
    assert NoNewline(Text(m)) by {
      forall i | 0 <= i < |m|
        ensures Text(m)[i] != '\n'
      {
        assert Printable(MaskByte(chunk[i], flags.spaceFill));
      }
    }
    NoNewlineAppend(pad, Text(m));
  }

  /** The first row holds no newline of its own. */
  lemma FirstRowNoNewline(address: nat, chunk: seq<Byte>, flags: Flags)
    ensures NoNewline(FirstRow(address, chunk, flags))
  {
    var rest := if flags.ascii then AsciiPart(Masked(chunk, flags.spaceFill), flags.octal) else "";
    PrefixNoNewline(address);
    CellsNoNewline(chunk, flags.octal);
    NoNewlineAppend(Prefix(address), Cells(chunk, flags.octal));
    AsciiPartNoNewline(chunk, flags);
    NoNewlineAppend(Head(address, chunk, flags.octal), rest);
  }

  /** The character row holds no newline of its own. */
  lemma CharRowNoNewline(address: nat, chunk: seq<Byte>, octal: bool)
    ensures NoNewline(CharRow(address, chunk, octal))
  {
    var m := Masked(chunk, true);
    PrefixNoNewline(address);
    assert forall i :: 0 <= i < |m| ==> Printable(m[i]);
    CharCellsNoNewline(m, octal);
    NoNewlineAppend(Prefix(address), CharCells(m, octal));
  }

  /** The first row holds no newline; the `-c` part holds exactly one, the
      one that starts the character row. */
  lemma RowParts(address: nat, chunk: seq<Byte>, flags: Flags)
    ensures Newlines(FirstRow(address, chunk, flags)) == 0
    ensures Newlines(if flags.spaceFill then "\n" + CharRow(address, chunk, flags.octal) else "")
      == if flags.spaceFill then 1 else 0
  {
    FirstRowNoNewline(address, chunk, flags);
    NoNewlines(FirstRow(address, chunk, flags));
    if flags.spaceFill {
      CharRowNoNewline(address, chunk, flags.octal);
      NoNewlines(CharRow(address, chunk, flags.octal));
      NewlinesAppend("\n", CharRow(address, chunk, flags.octal));
    }
  }

  /** The byte loop of the dump routine. */
  method WriteCells(buffer: array<Byte>, n: nat, octal: bool) returns (text: string)
    requires n <= buffer.Length
    ensures text == Cells(buffer[..n], octal)
  {
    text := "";
    for i := 0 to n
      invariant text == Cells(buffer[..i], octal)
    {
      assert buffer[..i + 1][..i] == buffer[..i];
      if octal {
        text := text + Numeral(buffer[i], 8, 3) + " ";
      } else {
        text := text + Numeral(buffer[i], 16, 2) + " ";
      }
    }
  }

  /** The `-c` character loop over the (masked) buffer. */
  method WriteChars(buffer: array<Byte>, n: nat, octal: bool) returns (text: string)
    requires n <= buffer.Length
    ensures text == CharCells(buffer[..n], octal)
  {
    text := "";
    for i := 0 to n
      invariant text == CharCells(buffer[..i], octal)
    {
      assert buffer[..i + 1][..i] == buffer[..i];
      if octal {
        text := text + " " + [buffer[i] as char] + "  ";
      } else {
        text := text + " " + [buffer[i] as char] + " ";
      }
    }
  }

  /** The masking loop and, with `-a`, the padding and `%.*s` of the masked
      bytes, none of which is a NUL any more. */
  method WriteAscii(buffer: array<Byte>, n: nat, flags: Flags) returns (text: string)
    requires n <= buffer.Length
    modifies buffer
    ensures buffer[..n] == Masked(old(buffer[..n]), flags.spaceFill)
    ensures buffer[n..] == old(buffer[n..])
    ensures text == if flags.ascii then AsciiPart(Masked(old(buffer[..n]), flags.spaceFill), flags.octal) else ""
  {
    ghost var chunk, rest := buffer[..n], buffer[n..];
    MaskInPlace(buffer, n, flags.spaceFill);
    ghost var m := Masked(chunk, flags.spaceFill);
    assert buffer[..n] == m by {
      assert buffer[..n] == buffer[..][..n];
    }
    assert buffer[n..] == rest by {
      assert buffer[n..] == buffer[..][n..] && (m + rest)[|m|..] == rest;
    }
    text := "";
    if flags.ascii {
      PrecisionWhole(buffer[..], n);
      MaskedText(chunk, flags.spaceFill);
      assert buffer[..][..n] == m;
      text := FieldWidth("", Columns(BufferSize - n, flags.octal)) + Precision(buffer[..], n);
    }
  }

  /** The address, the byte loop and the masking loop with the optional ASCII
      part: the first row, the buffer masked in place on the way. */
  method WriteFirstRow(buffer: array<Byte>, address: nat, n: nat, flags: Flags) returns (text: string)
    requires n <= buffer.Length
    modifies buffer
    ensures text == FirstRow(address, old(buffer[..n]), flags)
    ensures buffer[..n] == Masked(old(buffer[..n]), flags.spaceFill)
    ensures buffer[n..] == old(buffer[n..])
  {
    var cells := WriteCells(buffer, n, flags.octal);
    var ascii := WriteAscii(buffer, n, flags);
    text := Prefix(address) + cells + ascii;
  }

  /** The dump routine for the first `n` bytes of the buffer at `address`:
      the row it prints, the buffer masked in place on the way. */
  method PrintBuf(buffer: array<Byte>, address: nat, n: nat, flags: Flags) returns (text: string)
    requires n <= buffer.Length
    modifies buffer
    ensures text == Row(address, old(buffer[..n]), flags)
    ensures buffer[..n] == Masked(old(buffer[..n]), flags.spaceFill)
    ensures buffer[n..] == old(buffer[n..])
  {
    var first := WriteFirstRow(buffer, address, n, flags);
    var second := "";
    if flags.spaceFill {
      var chars := WriteChars(buffer, n, flags.octal);
      second := "\n" + (Prefix(address) + chars);
    }
    text := first + second + "\n";
  }

  /** The printing half of the read loop's body: the row for the chunk in the
      buffer follows those already printed after `head`. */
  method RowChunk(buffer: array<Byte>, n: nat, addr: nat, flags: Flags,
                  ghost head: string, ghost done: seq<Record>, ghost r: Record, out: string)
    returns (out': string)
    requires n <= buffer.Length && r == Record(addr, 0, buffer[..n])
    requires out == head + Rows(done, flags)
    modifies buffer
    ensures out' == head + Rows(done + [r], flags)
    ensures buffer[..n] == Masked(old(buffer[..n]), flags.spaceFill)
    ensures buffer[n..] == old(buffer[n..])
  {
    var row := PrintBuf(buffer, addr, n, flags);
    RowsSnoc(head, done, r, flags, out, row);
    out' := out + row;
  }

  /** Printing one more row appends it to those already printed. */
  lemma RowsSnoc(head: string, rs: seq<Record>, r: Record, flags: Flags, out: string, row: string)
    requires out == head + Rows(rs, flags) && row == Row(r.address, r.data, flags)
    ensures out + row == head + Rows(rs + [r], flags)
  {
    RowsLast(rs, r, flags);
    TailAppend(out, head, Rows(rs, flags), Rows(rs + [r], flags), row);
  }

  /** Appending to text that ends with `a` makes it end with `a + row`. */
  lemma TailAppend(out: string, head: string, a: string, b: string, row: string)
    requires out == head + a && b == a + row
    ensures out + row == head + b
  {
    assert out + row == head + (a + row);
  }

  /** The rows of one more chunk are the rows so far and then its row. */
  lemma RowsLast(rs: seq<Record>, r: Record, flags: Flags)
    ensures Rows(rs + [r], flags) == Rows(rs, flags) + Row(r.address, r.data, flags)
  {
    var all := rs + [r];
    assert all[..|all| - 1] == rs && all[|all| - 1] == r;
  }

  /** One pass of the read loop: the `name:` header when nothing has been
      counted yet, then the row for the chunk in the buffer. */
  method FileChunk(buffer: array<Byte>, n: nat, bytes: nat, name: string, flags: Flags,
                   ghost done: seq<Record>, out: string)
    returns (out': string)
    requires n <= buffer.Length && (bytes == 0 <==> done == [])
    requires out == (if done == [] then "" else Header(name, flags)) + Rows(done, flags)
    modifies buffer
    ensures out' == Header(name, flags) + Rows(done + [Record(bytes, 0, old(buffer[..n]))], flags)
    ensures buffer[..n] == Masked(old(buffer[..n]), flags.spaceFill)
    ensures buffer[n..] == old(buffer[n..])
  {
    out' := out;
    if bytes == 0 && flags.header {
      out' := out' + name + ":\n";
    }
    assert out' == Header(name, flags) + Rows(done, flags);
    out' := RowChunk(buffer, n, bytes, flags, Header(name, flags), done, Record(bytes, 0, buffer[..n]), out');
  }

  /** The body of the main loop for a file that opens: `i_bytes` starts at 0,
      the `name:` header goes out when a chunk is read while it is still 0,
      and each chunk is dumped at the count of bytes read before it. */
  method HexdumpOne(name: string, input: seq<Byte>, flags: Flags) returns (out: string)
    ensures out == HexdumpFile(name, input, flags)
  {
    var buffer := new Byte[BufferSize];
    var bytes := 0;
    var pos: nat := 0;
    out := "";
    var n := Fread(buffer, input, pos);
    ghost var done: seq<Record> := [];
    ReadBounds(input, 0, pos, done);
    while n > 0
      invariant ReadSoFar(input, 0, pos, bytes, done) && (pos == 0 <==> done == [])
      invariant out == (if done == [] then "" else Header(name, flags)) + Rows(done, flags)
      invariant n == Min(BufferSize, |input| - pos) && buffer[..n] == input[pos..pos + n]
      decreases |input| - pos
    {
      out := FileChunk(buffer, n, bytes, name, flags, done, out);
      pos, bytes, n, done := NextChunk(buffer, input, 0, pos, bytes, n, done);
    }
    FileDone(name, input, flags, pos, done);
  }

  /** At end of file the rows of every chunk have been printed, after the
      header exactly when there was a chunk. */
  lemma FileDone(name: string, input: seq<Byte>, flags: Flags, pos: nat, done: seq<Record>)
    requires ReadSoFar(input, 0, pos, pos, done) && (pos == 0 <==> done == [])
    requires pos == |input|
    ensures (if done == [] then "" else Header(name, flags)) + Rows(done, flags)
      == HexdumpFile(name, input, flags)
  {
    ReadBounds(input, 0, pos, done);
  }

  /** The main loop over the files named on the command line. */
  method HexdumpAll(files: seq<(string, seq<Byte>)>, flags: Flags) returns (out: string)
    ensures out == HexdumpFiles(files, flags)
  {
    out := "";
    for i := 0 to |files|
      invariant out == HexdumpFiles(files[..i], flags)
    {
      var text := HexdumpOne(files[i].0, files[i].1, flags);
      assert HexdumpFiles(files[..i + 1], flags) == HexdumpFiles(files[..i], flags) + text by {
        assert files[..i + 1][..i] == files[..i] && files[..i + 1][i] == files[i];
      }
      out := out + text;
    }
    assert files[..|files|] == files;
  }
}
