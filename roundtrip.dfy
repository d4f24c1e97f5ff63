/** What gcc-load makes of what gcc-unload writes: every line the writer
    prints is read back by the reader as exactly the bytes it carries, with a
    ` - Ok` verdict and no error, provided the addresses fit the four address
    digits the reader takes. */
module RoundTrip {
  import opened Bytes
  import opened Printf
  import opened Load
  import opened Unload

  /** `n` verdicts of ` - Ok`. */
  function AllOk(n: nat): (r: seq<Outcome>)
    ensures |r| == n && forall i :: 0 <= i < n ==> r[i] == Ok
  {
    seq(n, _ => Ok)
  }

  /** A record whose fields fit the widths the reader takes: two digits of count
      and type, four of address. */
  predicate Fits(r: Record)
  {
    |r.data| < 256 && r.address <= 0xFFFF && r.rtype < 256
  }

  /** The header `:LLAAAATT` of a record, starting at a line start, is read as
      its count, address and type, and leaves the running checksum at
      count + type + high and low address bytes. */
  lemma HeaderReadBack(s: Reader, n: nat, addr: nat, ty: nat)
    requires s.count == 0 && s.last == '\n'
    requires n < 256 && addr <= 0xFFFF && ty < 256
    ensures var t := Run(s, ":" + Numeral(n, 16, 2) + Numeral(addr, 16, 4) + Numeral(ty, 16, 2));
      && AtPair(t) && t.count == 9 && t.bytes == n
      && t.checksum == n + ty + addr / 256 + addr % 256
      && t.output == s.output && t.report == s.report && t.errors == s.errors
  {
    HeaderState(s, n, addr, ty);
  }

  /** The reader's whole state after the header: only the fields of the record
      and the position have changed. */
  lemma HeaderState(s: Reader, n: nat, addr: nat, ty: nat)
    requires s.count == 0 && s.last == '\n'
    requires n < 256 && addr <= 0xFFFF && ty < 256
    ensures var t := Run(s, ":" + Numeral(n, 16, 2) + Numeral(addr, 16, 4) + Numeral(ty, 16, 2));
      t == s.(count := 9, bytes := n, address := addr, rtype := ty, data := 0,
              checksum := n + ty + addr / 256 + addr % 256, last := t.last)
  {
    var c, a, y := Numeral(n, 16, 2), Numeral(addr, 16, 4), Numeral(ty, 16, 2);
    RunOne(s, ':');
    var s1 := Run(s, ":");
    assert s1 == s.(count := 1, bytes := 0, address := 0, rtype := 0, data := 0, checksum := 0, last := ':');
    var s2 := Run(s1, c);
    assert s2 == s1.(count := 3, bytes := n, last := s2.last) by {
      CountDigits(s1, n);
    }
    var s3 := Run(s2, a);
    assert s3 == s2.(count := 7, address := addr, last := s3.last) by {
      AddressDigits(s2, addr);
    }
    var s4 := Run(s3, y);
    assert s4 == s3.(count := 9, rtype := ty, checksum := n + ty + addr / 256 + addr % 256,
                     last := s4.last) by {
      TypeDigits(s3, ty);
    }
    assert Run(s, ":" + c + a + y) == s4 by {
      RunAppend(s, ":", c);
      RunAppend(s, ":" + c, a);
      RunAppend(s, ":" + c + a, y);
    }
  }

  lemma CountDigits(s: Reader, n: nat)
    requires s.count == 1 && s.bytes == 0 && n < 256
    ensures Run(s, Numeral(n, 16, 2)) == s.(count := 3, bytes := n, last := Run(s, Numeral(n, 16, 2)).last)
  {
    assert Pow(16, 2) == 256;
    NumeralWidth(n, 16, 2);
    NumeralReadsBack(n, 2);
    CountField(s, Numeral(n, 16, 2));
  }

  lemma AddressDigits(s: Reader, addr: nat)
    requires s.count == 3 && s.address == 0 && addr <= 0xFFFF
    ensures Run(s, Numeral(addr, 16, 4)) == s.(count := 7, address := addr, last := Run(s, Numeral(addr, 16, 4)).last)
  {
    assert Pow(16, 4) == 65536;
    NumeralWidth(addr, 16, 4);
    NumeralReadsBack(addr, 4);
    AddressField(s, Numeral(addr, 16, 4));
  }

  lemma TypeDigits(s: Reader, ty: nat)
    requires s.count == 7 && s.rtype == 0 && ty < 256
    ensures var t := Run(s, Numeral(ty, 16, 2));
      t == s.(count := 9, rtype := ty, checksum := s.bytes + ty + s.address / 256 + s.address % 256, last := t.last)
  {
    assert Pow(16, 2) == 256;
    NumeralWidth(ty, 16, 2);
    NumeralReadsBack(ty, 2);
    TypeField(s, Numeral(ty, 16, 2));
  }

  /** The checksum pair `%02X` prints, read when no data bytes are expected:
      compared with the two's complement of the running sum and reported. */
  lemma ChecksumPair(s: Reader, c: Byte)
    requires AtPair(s) && s.bytes == 0
    ensures var t := Run(s, Numeral(c, 16, 2));
      && AtPair(t) && t.count == s.count + 2 && t.bytes == -1
      && t.output == s.output
      && t.report == s.report + [if Negate8(s.checksum) == c then Ok else Error]
      && t.errors == s.errors + (if Negate8(s.checksum) == c then 0 else 1)
  {
    Hex2Digits(c);
    var d1, d2 := Digit(c / 16), Digit(c % 16);
    DigitNibble(c / 16);
    DigitNibble(c % 16);
    RunTwo(s, d1, d2);
    DataPair(s, d1, d2);
  }

  /** The body of a record after its header: data, checksum, newline. */
  lemma BodyReadBack(s: Reader, r: Record)
    requires Fits(r) && AtPair(s) && s.bytes == |r.data|
    requires s.checksum == |r.data| + r.rtype + r.address / 256 + r.address % 256
    ensures var t := Run(s, HexBytes(r.data) + Numeral(Checksum(r), 16, 2) + "\n");
      && t.count == 0 && t.last == '\n'
      && t.output == s.output + r.data && t.report == s.report + [Ok] && t.errors == s.errors
  {
    var h, k := HexBytes(r.data), Numeral(Checksum(r), 16, 2);
    DataBytes(s, r.data);
    var s1 := Run(s, h);
    assert s1.checksum == RecordSum(r);
    RunAppend(s, h, k);
    ChecksumPair(s1, Checksum(r));
    var s2 := Run(s, h + k);
    RunAppend(s, h + k, "\n");
    RunOne(s2, '\n');
    DataLineEnd(s2, '\n');
  }

  /** A record cut short by a line end before its checksum pair, after `k` of
      its `n` data pairs (k <= n): the `k` bytes are written out, then the line
      end echoes ` - Error`, counts one error and returns to seeking. */
  lemma ShortRecord(s: Reader, n: nat, addr: nat, ty: nat, data: seq<Byte>, e: char)
    requires s.count == 0 && s.last == '\n'
    requires n < 256 && addr <= 0xFFFF && ty < 256 && |data| <= n && LineEnd(e)
    ensures var t := Run(s, ":" + Numeral(n, 16, 2) + Numeral(addr, 16, 4) + Numeral(ty, 16, 2)
                            + HexBytes(data) + [e]);
      && t.count == 0 && t.last == e
      && t.output == s.output + data && t.report == s.report + [Error] && t.errors == s.errors + 1
  {
    var head := ":" + Numeral(n, 16, 2) + Numeral(addr, 16, 4) + Numeral(ty, 16, 2);
    HeaderReadBack(s, n, addr, ty);
    var s1 := Run(s, head);
    DataBytes(s1, data);
    var s2 := Run(s1, HexBytes(data));
    RunOne(s2, e);
    DataLineEnd(s2, e);
    assert Run(s, head + HexBytes(data) + [e]) == Advance(s2, e) by {
      RunAppend(s, head, HexBytes(data));
      RunAppend(s, head + HexBytes(data), [e]);
    }
  }

  /** One line printed by the writer, read at a line start, yields its data,
      one ` - Ok` and no error, and leaves the reader at the next line start. */
  lemma RecordReadBack(s: Reader, r: Record)
    requires s.count == 0 && s.last == '\n' && Fits(r)
    ensures var t := Run(s, Line(r));
      && t.count == 0 && t.last == '\n'
      && t.output == s.output + r.data && t.report == s.report + [Ok] && t.errors == s.errors
  {
    var head := ":" + Numeral(|r.data|, 16, 2) + Numeral(r.address, 16, 4) + Numeral(r.rtype, 16, 2);
    var body := HexBytes(r.data) + Numeral(Checksum(r), 16, 2) + "\n";
    assert Line(r) == head + body;
    HeaderReadBack(s, |r.data|, r.address, r.rtype);
    RunAppend(s, head, body);
    BodyReadBack(Run(s, head), r);
  }

  /** The reader went from `s` to `t` reading `k` clean records that carried
      `data`: back at a line start, the data written, `k` verdicts of ` - Ok`
      and no error. */
  predicate Clean(s: Reader, t: Reader, data: seq<Byte>, k: nat)
  {
    t.count == 0 && t.last == '\n'
    && t.output == s.output + data && t.report == s.report + AllOk(k) && t.errors == s.errors
  }

  lemma CleanThen(s: Reader, s1: Reader, t: Reader, d1: seq<Byte>, d2: seq<Byte>, n: nat,
                   u: Reader, d: seq<Byte>)
    requires n >= 1 && Clean(s, s1, d1, 1) && Clean(s1, t, d2, n - 1)
    requires u == t && d == d1 + d2
    ensures Clean(s, u, d, n)
  {
    assert AllOk(1) + AllOk(n - 1) == AllOk(n);
  }

  /** A sequence of printed lines yields the data of all its records in order,
      one ` - Ok` per record and no error. */
  lemma {:induction false} LinesReadBack(s: Reader, rs: seq<Record>)
    requires s.count == 0 && s.last == '\n'
    requires forall i :: 0 <= i < |rs| ==> Fits(rs[i])
    ensures Clean(s, Run(s, Lines(rs)), Flatten(rs), |rs|)
    decreases |rs|
  {
    if rs == [] {
      assert s.output + [] == s.output && s.report + [] == s.report;
    } else {
      var s1 := Run(s, Line(rs[0]));
      assert Clean(s, s1, rs[0].data, 1) by {
        RecordReadBack(s, rs[0]);
      }
      LinesReadBack(s1, rs[1..]);
      ReadThen(s, Line(rs[0]), Lines(rs[1..]), rs[0].data, Flatten(rs[1..]), |rs|);
    }
  }

  /** Text `a` read cleanly and then text `b` read cleanly: `a + b` reads
      cleanly, with both outputs and both reports in order. */
  lemma ReadThen(s: Reader, a: string, b: string, d1: seq<Byte>, d2: seq<Byte>, n: nat)
    requires n >= 1 && Clean(s, Run(s, a), d1, 1) && Clean(Run(s, a), Run(Run(s, a), b), d2, n - 1)
    ensures Clean(s, Run(s, a + b), d1 + d2, n)
  {
    RunAppend(s, a, b);
    CleanThen(s, Run(s, a), Run(Run(s, a), b), d1, d2, n, Run(s, a + b), d1 + d2);
  }

  /** Every data record the writer makes fits the reader's field widths when
      the last one's address does. */
  lemma RecordsFit(input: seq<Byte>, address: nat)
    requires |input| == 0 || address + (|input| - 1) / 16 * 16 <= 0xFFFF
    ensures |DataRecords(input, address)| == (|input| + 15) / 16
    ensures forall i :: 0 <= i < |DataRecords(input, address)| ==> Fits(DataRecords(input, address)[i])
  {
    var rs := DataRecords(input, address);
    Chunking(input, address);
    forall i | 0 <= i < |rs|
      ensures Fits(rs[i])
    {
      assert rs[i].address == address + 16 * i;
    }
  }

  /** A clean read followed by one more printed record is a clean read. */
  lemma ThenRecord(s: Reader, text: string, r: Record, data: seq<Byte>, k: nat)
    requires Clean(s, Run(s, text), data, k) && Fits(r)
    ensures Clean(s, Run(s, text + Line(r)), data + r.data, k + 1)
  {
    var s1 := Run(s, text);
    RecordReadBack(s1, r);
    var t := Run(s1, Line(r));
    assert Clean(s1, t, r.data, 1);
    assert Run(s, text + Line(r)) == t by {
      RunAppend(s, text, Line(r));
    }
    CleanThenOne(s, s1, t, data, r.data, k);
  }

  lemma CleanThenOne(s: Reader, s1: Reader, t: Reader, d1: seq<Byte>, d2: seq<Byte>, k: nat)
    requires Clean(s, s1, d1, k) && Clean(s1, t, d2, 1)
    ensures Clean(s, t, d1 + d2, k + 1)
  {
    assert AllOk(k) + AllOk(1) == AllOk(k + 1);
  }

  /** The lines of any fitting records followed by the end-of-file line read
      back as the records' data, one ` - Ok` per line and no error. */
  lemma ReadAll(rs: seq<Record>)
    requires forall i :: 0 <= i < |rs| ==> Fits(rs[i])
    ensures var t := Run(Start, Lines(rs) + Line(EofRecord));
      && t.output == Flatten(rs)
      && t.report == AllOk(|rs| + 1)
      && t.errors == 0
  {
    var data := Flatten(rs);
    LinesReadBack(Start, rs);
    ThenRecord(Start, Lines(rs), EofRecord, data, |rs|);
    CleanFromStart(Run(Start, Lines(rs) + Line(EofRecord)), data + EofRecord.data, |rs| + 1);
    assert data + EofRecord.data == data;
  }

  /** A clean read from the initial state has written exactly `data`. */
  lemma CleanFromStart(t: Reader, data: seq<Byte>, k: nat)
    requires Clean(Start, t, data, k)
    ensures t.output == data && t.report == AllOk(k) && t.errors == 0
  {
  }

  /** Loading what was unloaded gives back the original bytes, with one ` - Ok`
      per line (the end-of-file record included) and no error, provided the last
      data record's address still fits in four hexadecimal digits. */
  lemma RoundTrip(input: seq<Byte>, address: nat)
    requires |input| == 0 || address + (|input| - 1) / 16 * 16 <= 0xFFFF
    ensures var t := Decode(IntelHex(input, address));
      && t.output == input
      && t.report == AllOk((|input| + 15) / 16 + 1)
      && t.errors == 0
  {
    var rs := DataRecords(input, address);
    RecordsFit(input, address);
    DataPreserved(input, address);
    ReadAll(rs);
  }

  /** The data field and the byte sum of `3E FF 87`. */
  lemma ExampleData()
    ensures HexBytes([0x3E, 0xFF, 0x87]) == "3EFF87" && Sum([0x3E, 0xFF, 0x87]) == 452
  {
    var data: seq<Byte> := [0x3E, 0xFF, 0x87];
    assert data[..2] == [0x3E, 0xFF] && data[..2][..1] == [0x3E] && [0x3E][..0] == [];
    Hex2Digits(0x3E);
    Hex2Digits(0xFF);
    Hex2Digits(0x87);
  }

  /** The numerals of the example's header and checksum fields. */
  lemma ExampleFields()
    ensures Numeral(3, 16, 2) == "03" && Numeral(0, 16, 2) == "00"
    ensures Numeral(0x0100, 16, 4) == "0100" && Numeral(0x38, 16, 2) == "38"
  {
    assert Numeral(0, 16, 1) == "0";
    assert Numeral(1, 16, 2) == "01";
    assert Numeral(0x10, 16, 3) == "010";
    Hex2Digits(0x38);
  }

  /** The record the writer makes of the three bytes `3E FF 87` at the CP/M
      program origin 0x0100. */
  lemma ExampleLine()
    ensures Line(Record(0x0100, 0, [0x3E, 0xFF, 0x87])) == ":030100003EFF8738\n"
  {
    var r := Record(0x0100, 0, [0x3E, 0xFF, 0x87]);
    ExampleData();
    ExampleFields();
    assert Checksum(r) == 0x38;
    assert Line(r) == ":" + "03" + "0100" + "00" + "3EFF87" + "38" + "\n";
  }

  /** The whole output for those three bytes: one data record and the
      end-of-file record. */
  lemma Example()
    ensures IntelHex([0x3E, 0xFF, 0x87], 0x0100) == ":030100003EFF8738\n" + ":00000001FF\n"
  {
    var input: seq<Byte> := [0x3E, 0xFF, 0x87];
    var r := Record(0x0100, 0, input);
    assert DataRecords(input, 0x0100) == [r] by {
      assert input[..3] == input && input[3..] == [];
    }
    assert Lines([r]) == Line(r) by {
      assert [r][1..] == [];
    }
    ExampleLine();
    EofLine();
  }
}
