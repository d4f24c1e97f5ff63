/** gcc-dump: each file is read 16 bytes at a time and printed either as
    Intel HEX records (with `-i`, exactly as gcc-unload prints them, from the
    CP/M origin 0x0100) or as plain lines: the address, the bytes in hex
    (grouped in fours) or in octal, and with `-a` the printable bytes as text. */
module Dump {
  import opened Bytes
  import opened Printf
  import opened Unload

  /** The switches the dump routine consults: `-a` ASCII column, `-b` octal,
      `-c` blanks for non-printing bytes, `-i` Intel HEX, `-f` (`--filenames`)
      file name header. */
  datatype Flags = Flags(ascii: bool, octal: bool, spaceFill: bool, intel: bool, header: bool)

  /** `%06o` or `%04X` of the address at the head of a plain line. */
  function AddressField(address: nat, octal: bool): (r: string)
    ensures octal && address < 0x40000 ==> |r| == 6
    ensures !octal && address < 0x10000 ==> |r| == 4
  {
    assert Pow(8, 6) == 0x40000 && Pow(16, 4) == 0x10000;
    if octal then
      (if address < 0x40000 then NumeralWidth(address, 8, 6); Numeral(address, 8, 6)
       else Numeral(address, 8, 6))
    else
      (if address < 0x10000 then NumeralWidth(address, 16, 4); Numeral(address, 16, 4)
       else Numeral(address, 16, 4))
  }

  /** The `%02X` and `%03o` of a byte take two and three digits. */
  lemma ByteWidth(b: Byte)
    ensures |Numeral(b, 16, 2)| == 2 && |Numeral(b, 8, 3)| == 3
  {
    assert Pow(16, 2) == 256 && Pow(8, 3) == 512;
    NumeralWidth(b, 16, 2);
    NumeralWidth(b, 8, 3);
  }

  /** What the byte loop prints for the byte at index `i` of the buffer: `%03o `
      in octal, otherwise `%02X` preceded by a space at the start of each group
      of four. */
  function ByteField(b: Byte, i: nat, octal: bool): string
  {
    if octal then Numeral(b, 8, 3) + " "
    else (if i % 4 == 0 then " " else "") + Numeral(b, 16, 2)
  }

  /** The byte loop over a whole chunk: four characters per byte in octal; two
      per byte and one per group of four in hex. */
  function ByteFields(s: seq<Byte>, octal: bool): (r: string)
    ensures |r| == if octal then 4 * |s| else 2 * |s| + (|s| + 3) / 4
  {
    if s == [] then []
    else
      ByteWidth(s[|s| - 1]);
      ByteFields(s[..|s| - 1], octal) + ByteField(s[|s| - 1], |s| - 1, octal)
  }

  /** `4 - ((n - 1) / 4) + 2 * (BUFFER_SIZE - n)`, with C's division, which
      truncates toward zero. */
  function Padding(n: nat): int
  {
    4 - (if n == 0 then 0 else (n - 1) / 4) + 2 * (BufferSize - n)
  }

  /** `printf(" %*s", padding, "")` then `printf("%.*s", n, buffer)`. */
  function AsciiField(buffer: seq<Byte>, n: nat): string
  {
    " " + FieldWidth("", Padding(n)) + Precision(buffer, n)
  }

  /** One plain line for the chunk read at `address`; the ASCII part shows the
      chunk after the non-printing bytes have been masked. It is a single
      line: its only newline is its last character. */
  function PlainLine(address: nat, chunk: seq<Byte>, flags: Flags): (r: string)
    ensures Newlines(r) == 1 && r[|r| - 1] == '\n'
  {
    var t := if flags.ascii then AsciiField(Masked(chunk, flags.spaceFill), |chunk|) else "";
    LineParts(address, chunk, flags);
    LineOfParts(AddressField(address, flags.octal), ByteFields(chunk, flags.octal), t);
    AddressField(address, flags.octal) + ByteFields(chunk, flags.octal) + t + "\n"
  }

  /** The plain lines of a sequence of chunks, in order: one line per chunk.
      The chunks are the records the writer would make of the same input; a
      plain line uses their address and data and never their `rtype`. */
  function PlainLines(rs: seq<Record>, flags: Flags): (r: string)
    ensures Newlines(r) == |rs|
  {
    if rs == [] then ""
    else
      var init, last := PlainLines(rs[..|rs| - 1], flags), PlainLine(rs[|rs| - 1].address, rs[|rs| - 1].data, flags);
      NewlinesAppend(init, last);
      init + last
  }

  /** What the dump routine prints for one file read from `address`: Intel HEX
      records, ending with the end-of-file record, or one plain line per
      16-byte chunk. */
  function Dump(input: seq<Byte>, address: nat, flags: Flags): (r: string)
    ensures flags.intel ==> |r| >= 12 && r[|r| - 12..] == ":00000001FF\n"
    ensures !flags.intel ==> Newlines(r) == (|input| + 15) / 16
  {
    if flags.intel then IntelHex(input, address)
    else
      Chunking(input, address);
      PlainLines(DataRecords(input, address), flags)
  }

  /** One file as the main loop prints it: the optional `name:` header, then
      the dump from the CP/M origin in Intel mode and from zero otherwise. A
      plain dump is one header line (with `-f`) and one line per chunk. */
  function DumpFile(name: string, input: seq<Byte>, flags: Flags): (r: string)
    ensures flags.header ==> |r| >= |name| + 2 && r[..|name| + 2] == name + ":\n"
    ensures !flags.intel && NoNewline(name) ==>
      Newlines(r) == (if flags.header then 1 else 0) + (|input| + 15) / 16
  {
    var head := if flags.header then name + ":\n" else "";
    var body := Dump(input, if flags.intel then Origin else 0, flags);
    Labelled(name, flags.header, body);
    assert (head + body)[..|head|] == head;
    head + body
  }

  /** Every file named on the command line, in order. */
  function DumpFiles(files: seq<(string, seq<Byte>)>, flags: Flags): string
  {
    if files == [] then ""
    else DumpFiles(files[..|files| - 1], flags) + DumpFile(files[|files| - 1].0, files[|files| - 1].1, flags)
  }

  /** Groups of four begun before byte k. */
  lemma GroupsBefore(k: nat)
    ensures (k + 3) / 4 == k / 4 + (if k % 4 == 0 then 0 else 1)
  {
  }

  /** The hex field of the last byte of a chunk: two digits at 2k + k/4 + 1,
      after the group space when k is a multiple of four. */
  lemma HexLastByte(s: seq<Byte>)
    requires s != []
    ensures var k := |s| - 1;
      && 2 * k + k / 4 + 3 == |ByteFields(s, false)|
      && ByteFields(s, false)[2 * k + k / 4 + 1] == Numeral(s[k], 16, 2)[0]
      && ByteFields(s, false)[2 * k + k / 4 + 2] == Numeral(s[k], 16, 2)[1]
      && (k % 4 == 0 ==> ByteFields(s, false)[2 * k + k / 4] == ' ')
  {
    var k := |s| - 1;
    var init := ByteFields(s[..k], false);
    var g, d := (if k % 4 == 0 then " " else ""), Numeral(s[k], 16, 2);
    ByteWidth(s[k]);
    GroupsBefore(k);
    assert ByteFields(s, false) == init + g + d;
    assert |init| + |g| == 2 * k + k / 4 + 1;
  }

  /** A chunk's byte fields are those of all but its last byte followed by the
      last byte's field. */
  lemma ByteFieldsSnoc(s: seq<Byte>, octal: bool)
    requires s != []
    ensures ByteFields(s, octal) == ByteFields(s[..|s| - 1], octal) + ByteField(s[|s| - 1], |s| - 1, octal)
  {
  }

  /** Printing the field of byte `i` after those of the bytes before it prints
      the fields of the first `i + 1` bytes. */
  lemma FieldsNext(s: seq<Byte>, i: nat, octal: bool, before: string, text: string)
    requires i < |s| && before == ByteFields(s[..i], octal)
    requires text == before + ByteField(s[i], i, octal)
    ensures text == ByteFields(s[..i + 1], octal)
  {
    ByteFieldsSnoc(s[..i + 1], octal);
    assert s[..i + 1][..i] == s[..i];
  }

  /** Printing the first `j` bytes of a chunk prints a prefix of the whole. */
  lemma {:induction false} ByteFieldsPrefix(s: seq<Byte>, j: nat, octal: bool)
    requires j <= |s|
    ensures |ByteFields(s[..j], octal)| <= |ByteFields(s, octal)|
    ensures ByteFields(s, octal)[..|ByteFields(s[..j], octal)|] == ByteFields(s[..j], octal)
    decreases |s|
  {
    if j < |s| {
      var init := s[..|s| - 1];
      assert init[..j] == s[..j];
      ByteFieldsPrefix(init, j, octal);
    } else {
      assert s[..j] == s;
    }
  }

  /** In hex the k-th byte of a chunk is printed as two digits at 2k + k/4 + 1,
      after the group space when k is a multiple of four. */
  lemma HexByteAt(s: seq<Byte>, k: nat)
    requires k < |s|
    ensures 2 * k + k / 4 + 3 <= |ByteFields(s, false)|
    ensures ByteFields(s, false)[2 * k + k / 4 + 1] == Numeral(s[k], 16, 2)[0]
    ensures ByteFields(s, false)[2 * k + k / 4 + 2] == Numeral(s[k], 16, 2)[1]
    ensures k % 4 == 0 ==> ByteFields(s, false)[2 * k + k / 4] == ' '
  {
    var upto := ByteFields(s[..k + 1], false);
    HexLastByte(s[..k + 1]);
    ByteFieldsPrefix(s, k + 1, false);
    assert s[..k + 1][k] == s[k];
    var r := ByteFields(s, false);
    assert forall i :: 0 <= i < |upto| ==> r[i] == upto[i] by {
      assert r[..|upto|] == upto;
    }
  }

  /** In octal the k-th byte of a chunk is printed as three digits and a space
      at 4k. */
  lemma {:induction false} OctalByteAt(s: seq<Byte>, k: nat)
    requires k < |s|
    ensures 4 * k + 4 <= |ByteFields(s, true)|
    ensures forall j :: 0 <= j < 3 ==> ByteFields(s, true)[4 * k + j] == Numeral(s[k], 8, 3)[j]
    ensures ByteFields(s, true)[4 * k + 3] == ' '
    decreases |s|
  {
    var last := |s| - 1;
    var init, f := ByteFields(s[..last], true), ByteField(s[last], last, true);
    assert ByteFields(s, true) == init + f;
    if k < last {
      OctalByteAt(s[..last], k);
      assert s[..last][k] == s[k];
    } else {
      ByteWidth(s[k]);
    }
  }

  /** Where the ASCII part `t` sits in a line `a + b + " " + pad + t + "\n"`. */
  lemma AsciiAt(a: string, b: string, pad: string, t: string)
    ensures |a + b + (" " + pad + t) + "\n"| == |a| + |b| + 1 + |pad| + |t| + 1
    ensures (a + b + (" " + pad + t) + "\n")[|a| + |b| + 1 + |pad| .. |a| + |b| + 1 + |pad| + |t|] == t
    ensures (a + b + (" " + pad + t) + "\n")[|a| + |b| + 1 + |pad| + |t|] == '\n'
  {
    var line := a + b + (" " + pad + t) + "\n";
    assert line == (a + b + " " + pad) + t + "\n";
  }

  /** The space and the padding before the ASCII part show as spaces. */
  lemma AsciiPadSpaces(a: string, b: string, pad: string, t: string)
    requires forall j :: 0 <= j < |pad| ==> pad[j] == ' '
    ensures forall i :: |a| + |b| <= i < |a| + |b| + 1 + |pad| ==> (a + b + (" " + pad + t) + "\n")[i] == ' '
  {
    var line := a + b + (" " + pad + t) + "\n";
    forall i | |a| + |b| <= i < |a| + |b| + 1 + |pad|
      ensures line[i] == ' '
    {
      assert line == (a + b) + (" " + pad) + (t + "\n");
      assert line[i] == (" " + pad)[i - |a| - |b|];
    }
  }

  /** With `-a` a plain line is the address, the byte fields, a space, the
      padding and the masked chunk. */
  lemma PlainLineAscii(address: nat, chunk: seq<Byte>, flags: Flags)
    requires flags.ascii
    ensures PlainLine(address, chunk, flags)
      == AddressField(address, flags.octal) + ByteFields(chunk, flags.octal)
         + (" " + FieldWidth("", Padding(|chunk|)) + Text(Masked(chunk, flags.spaceFill))) + "\n"
  {
    MaskedText(chunk, flags.spaceFill);
  }

  /** The widths before the ASCII part of a hex line add up to 42. */
  lemma HexWidths(n: nat)
    requires 1 <= n <= BufferSize
    ensures 4 + (2 * n + (n + 3) / 4) + 1 + Padding(n) == 42
  {
  }

  /** In hex with `-a`, the ASCII text of every line starts in column 42,
      whatever the length of the chunk, and is the masked chunk exactly. */
  lemma HexAsciiColumn(address: nat, chunk: seq<Byte>, flags: Flags)
    requires !flags.octal && flags.ascii && 1 <= |chunk| <= BufferSize && address < 0x10000
    ensures |PlainLine(address, chunk, flags)| == 42 + |chunk| + 1
    ensures PlainLine(address, chunk, flags)[42 .. 42 + |chunk|] == Text(Masked(chunk, flags.spaceFill))
    ensures PlainLine(address, chunk, flags)[42 + |chunk|] == '\n'
    ensures forall i :: 4 + 2 * |chunk| + (|chunk| + 3) / 4 <= i < 42 ==> PlainLine(address, chunk, flags)[i] == ' '
  {
    var m := Masked(chunk, flags.spaceFill);
    var a, b, pad := AddressField(address, false), ByteFields(chunk, false), FieldWidth("", Padding(|chunk|));
    MaskedText(chunk, flags.spaceFill);
    PlainLineAscii(address, chunk, flags);
    HexWidths(|chunk|);
    AsciiAt(a, b, pad, Text(m));
    AsciiPadSpaces(a, b, pad, Text(m));
  }

  /** The widths before the ASCII part of an octal line. */
  lemma OctalWidths(n: nat)
    requires 1 <= n <= BufferSize
    ensures 6 + 4 * n + 1 + Padding(n) == 43 + 2 * n - (n - 1) / 4
  {
  }

  /** In octal with `-a` the padding, computed for hex, leaves the ASCII text of
      a chunk of n bytes in column 43 + 2n - (n - 1)/4: column 72 for a full
      line, further left for a short last one. */
  lemma OctalAsciiColumn(address: nat, chunk: seq<Byte>, flags: Flags)
    requires flags.octal && flags.ascii && 1 <= |chunk| <= BufferSize && address < 0x40000
    ensures var c := 43 + 2 * |chunk| - (|chunk| - 1) / 4;
      && |PlainLine(address, chunk, flags)| == c + |chunk| + 1
      && PlainLine(address, chunk, flags)[c .. c + |chunk|] == Text(Masked(chunk, flags.spaceFill))
      && PlainLine(address, chunk, flags)[c + |chunk|] == '\n'
    ensures forall i :: 6 + 4 * |chunk| <= i < 43 + 2 * |chunk| - (|chunk| - 1) / 4 ==>
      PlainLine(address, chunk, flags)[i] == ' '
  {
    var m := Masked(chunk, flags.spaceFill);
    var a, b, pad := AddressField(address, true), ByteFields(chunk, true), FieldWidth("", Padding(|chunk|));
    MaskedText(chunk, flags.spaceFill);
    PlainLineAscii(address, chunk, flags);
    OctalWidths(|chunk|);
    AsciiAt(a, b, pad, Text(m));
    AsciiPadSpaces(a, b, pad, Text(m));
  }

  /** The address is all digits. */
  lemma AddressNoNewline(address: nat, octal: bool)
    ensures NoNewline(AddressField(address, octal))
  {
    if octal {
      NumeralDigits(address, 8, 6);
    } else {
      NumeralDigits(address, 16, 4);
    }
  }

  predicate DigitOrSpace(c: char)
  {
    UpperHex(c) || c == ' '
  }

  /** The field of one byte is digits and spaces. */
  lemma ByteFieldDigits(b: Byte, i: nat, octal: bool)
    ensures forall j :: 0 <= j < |ByteField(b, i, octal)| ==> DigitOrSpace(ByteField(b, i, octal)[j])
  {
    var f := ByteField(b, i, octal);
    ByteWidth(b);
    if octal {
      var d := Numeral(b, 8, 3);
      NumeralDigits(b, 8, 3);
      assert f == d + " ";
      forall j | 0 <= j < |f|
        ensures DigitOrSpace(f[j])
      {
        if j < |d| {
          assert f[j] == d[j];
        }
      }
    } else {
      var g, d := (if i % 4 == 0 then " " else ""), Numeral(b, 16, 2);
      NumeralDigits(b, 16, 2);
      assert f == g + d;
      forall j | 0 <= j < |f|
        ensures DigitOrSpace(f[j])
      {
        if j >= |g| {
          assert f[j] == d[j - |g|];
        }
      }
    }
  }

  /** The byte loop prints digits and spaces only. */
  lemma {:induction false} ByteFieldsDigits(s: seq<Byte>, octal: bool)
    ensures forall i :: 0 <= i < |ByteFields(s, octal)| ==> DigitOrSpace(ByteFields(s, octal)[i])
  {
    if s != [] {
      var init, f := ByteFields(s[..|s| - 1], octal), ByteField(s[|s| - 1], |s| - 1, octal);
      ByteFieldsDigits(s[..|s| - 1], octal);
      ByteFieldDigits(s[|s| - 1], |s| - 1, octal);
      assert ByteFields(s, octal) == init + f;
      forall i | 0 <= i < |ByteFields(s, octal)|
        ensures DigitOrSpace(ByteFields(s, octal)[i])
      {
        if i < |init| {
          assert ByteFields(s, octal)[i] == init[i];
        } else {
          assert ByteFields(s, octal)[i] == f[i - |init|];
        }
      }
    }
  }

  /** The ASCII part is spaces and printable characters. */
  lemma AsciiNoNewline(chunk: seq<Byte>, spaceFill: bool)
    ensures NoNewline(AsciiField(Masked(chunk, spaceFill), |chunk|))
  {
    var m := Masked(chunk, spaceFill);
    var pad := FieldWidth("", Padding(|chunk|));
    MaskedText(chunk, spaceFill);
    var t := Text(m);
    assert AsciiField(m, |chunk|) == " " + pad + t;
    assert forall i :: 0 <= i < |pad| ==> pad[i] == ' ';
    forall i | 0 <= i < |t|
      ensures t[i] != '\n'
    {
      assert t[i] == m[i] as char && m[i] == MaskByte(chunk[i], spaceFill);
    }
  }

  /** The address, the byte fields and the ASCII part hold no newline. */
  lemma LineParts(address: nat, chunk: seq<Byte>, flags: Flags)
    ensures NoNewline(AddressField(address, flags.octal))
    ensures NoNewline(ByteFields(chunk, flags.octal))
    ensures NoNewline(if flags.ascii then AsciiField(Masked(chunk, flags.spaceFill), |chunk|) else "")
  {
    AddressNoNewline(address, flags.octal);
    ByteFieldsDigits(chunk, flags.octal);
    if flags.ascii {
      AsciiNoNewline(chunk, flags.spaceFill);
    }
  }

  /** Three parts without a newline and a newline make one line. */
  lemma LineOfParts(a: string, b: string, t: string)
    requires NoNewline(a) && NoNewline(b) && NoNewline(t)
    ensures Newlines(a + b + t + "\n") == 1
  {
    NoNewlines(a);
    NoNewlines(b);
    NoNewlines(t);
    NewlinesAppend(a, b);
    NewlinesAppend(a + b, t);
    NewlinesAppend(a + b + t, "\n");
    assert Newlines("\n") == 1 by {
      assert "\n"[..0] == "";
    }
  }

  /** The byte loop of a plain line. */
  method WriteBytes(buffer: array<Byte>, n: nat, octal: bool) returns (text: string)
    requires n <= buffer.Length
    ensures text == ByteFields(buffer[..n], octal)
  {
    text := "";
    for i := 0 to n
      invariant text == ByteFields(buffer[..i], octal)
    {
      ghost var before := text;
      if octal {
        text := text + Numeral(buffer[i], 8, 3) + " ";
      } else {
        if i % 4 == 0 {
          text := text + " ";
        }
        text := text + Numeral(buffer[i], 16, 2);
      }
      assert text == before + ByteField(buffer[i], i, octal);
      FieldsNext(buffer[..], i, octal, before, text);
    }
  }

  /** The masking loop and, with `-a`, the padding and the masked bytes: the
      first `n` bytes of the buffer are masked in place, and `%.*s` prints them
      all since none of them is a NUL any more. */
  method WriteAscii(buffer: array<Byte>, n: nat, flags: Flags) returns (text: string)
    requires 1 <= n <= buffer.Length
    modifies buffer
    ensures buffer[..n] == Masked(old(buffer[..n]), flags.spaceFill)
    ensures buffer[n..] == old(buffer[n..])
    ensures text == if flags.ascii then AsciiField(Masked(old(buffer[..n]), flags.spaceFill), n) else ""
  {
    ghost var chunk, rest := buffer[..n], buffer[n..];
    MaskInPlace(buffer, n, flags.spaceFill);
    var shown := buffer[..];
    ghost var m := Masked(chunk, flags.spaceFill);
    assert shown == m + rest;
    assert shown[..n] == m by {
      assert (m + rest)[..|m|] == m;
    }
    assert buffer[..n] == m by {
      assert buffer[..n] == shown[..n];
    }
    text := "";
    if flags.ascii {
      text := " " + FieldWidth("", 4 - ((n - 1) / 4) + 2 * (BufferSize - n)) + Precision(shown, n);
      AsciiOfMasked(shown, chunk, flags.spaceFill, text);
    }
    assert buffer[n..] == rest by {
      assert buffer[n..] == shown[n..] && (m + rest)[|m|..] == rest;
    }
    assert old(buffer[..n]) == chunk;
  }

  /** Once the chunk at the head of the buffer is masked, the `-a` part of the
      line shows the masked chunk. */
  lemma AsciiOfMasked(buf: seq<Byte>, chunk: seq<Byte>, spaceFill: bool, text: string)
    requires 1 <= |chunk| <= |buf| && buf[..|chunk|] == Masked(chunk, spaceFill)
    requires var n := |chunk|;
      text == " " + FieldWidth("", 4 - ((n - 1) / 4) + 2 * (BufferSize - n)) + Precision(buf, n)
    ensures text == AsciiField(Masked(chunk, spaceFill), |chunk|)
  {
    var n, m := |chunk|, Masked(chunk, spaceFill);
    assert Padding(n) == 4 - ((n - 1) / 4) + 2 * (BufferSize - n);
    assert Precision(buf, n) == Precision(m, n) by {
      forall i | 0 <= i < n
        ensures buf[i] != 0
      {
        assert buf[i] == buf[..n][i] == m[i];
      }
      PrecisionWhole(buf, n);
      MaskedText(chunk, spaceFill);
    }
  }

  /** One plain line from the first `n` bytes of the buffer, which are masked in
      place before the ASCII part is printed. */
  method WritePlainLine(buffer: array<Byte>, n: nat, address: nat, flags: Flags) returns (line: string)
    requires 1 <= n <= buffer.Length
    modifies buffer
    ensures line == PlainLine(address, old(buffer[..n]), flags)
    ensures buffer[..n] == Masked(old(buffer[..n]), flags.spaceFill)
    ensures buffer[n..] == old(buffer[n..])
  {
    var bytes := WriteBytes(buffer, n, flags.octal);
    var ascii := WriteAscii(buffer, n, flags);
    line := AddressField(address, flags.octal) + bytes + ascii + "\n";
  }

  /** The printing half of the plain read loop's body: the line for the chunk
      in the buffer follows those already printed. */
  method PlainChunk(buffer: array<Byte>, n: nat, addr: nat, flags: Flags,
                    ghost done: seq<Record>, ghost r: Record, out: string)
    returns (out': string)
    requires 1 <= n <= buffer.Length && r == Record(addr, 0, buffer[..n])
    requires out == PlainLines(done, flags)
    modifies buffer
    ensures out' == PlainLines(done + [r], flags)
    ensures buffer[..n] == Masked(old(buffer[..n]), flags.spaceFill)
    ensures buffer[n..] == old(buffer[n..])
  {
    var line := WritePlainLine(buffer, n, addr, flags);
    PlainLinesSnoc(done, r, flags);
    out' := out + line;
  }

  /** The plain branch's read loop: one line per chunk, the address advancing by
      the chunk size. */
  method WritePlainLines(buffer: array<Byte>, input: seq<Byte>, address: nat, flags: Flags)
    returns (out: string)
    requires buffer.Length == BufferSize
    modifies buffer
    ensures out == PlainLines(DataRecords(input, address), flags)
  {
    var addr := address;
    var pos: nat := 0;
    out := "";
    var n := Fread(buffer, input, pos);
    ghost var done: seq<Record> := [];
    ReadBounds(input, address, pos, done);
    while n > 0
      invariant ReadSoFar(input, address, pos, addr, done) && out == PlainLines(done, flags)
      invariant n == Min(BufferSize, |input| - pos) && buffer[..n] == input[pos..pos + n]
      decreases |input| - pos
    {
      ghost var r := Record(addr, 0, buffer[..n]);
      out := PlainChunk(buffer, n, addr, flags, done, r, out);
      pos, addr, n, done := NextChunk(buffer, input, address, pos, addr, n, done);
    }
    ReadBounds(input, address, pos, done);
  }

  lemma PlainLinesSnoc(rs: seq<Record>, r: Record, flags: Flags)
    ensures PlainLines(rs + [r], flags) == PlainLines(rs, flags) + PlainLine(r.address, r.data, flags)
  {
    assert (rs + [r])[..|rs|] == rs;
  }

  /** The dump routine: Intel mode is the unload writer itself; the plain
      branch reads into the 16-byte buffer. */
  method DumpHex(input: seq<Byte>, address: nat, flags: Flags) returns (out: string)
    ensures out == Dump(input, address, flags)
  {
    if flags.intel {
      out := Unload.DumpHex(input, address);
    } else {
      var buffer := new Byte[BufferSize];
      out := WritePlainLines(buffer, input, address, flags);
    }
  }

  /** The body of the main loop for a file that opens: the optional `name:`
      header, then the dump from the origin the mode calls for. */
  method DumpOne(name: string, input: seq<Byte>, flags: Flags) returns (text: string)
    ensures text == DumpFile(name, input, flags)
  {
    text := if flags.header then name + ":\n" else "";
    var body := DumpHex(input, if flags.intel then Origin else 0, flags);
    text := text + body;
  }

  /** The main loop over the files named on the command line. */
  method DumpAll(files: seq<(string, seq<Byte>)>, flags: Flags) returns (out: string)
    ensures out == DumpFiles(files, flags)
  {
    out := "";
    for i := 0 to |files|
      invariant out == DumpFiles(files[..i], flags)
    {
      var text := DumpOne(files[i].0, files[i].1, flags);
      assert files[..i + 1][..i] == files[..i];
      out := out + text;
    }
    assert files[..|files|] == files;
  }
}
