/** The Intel HEX writer of gcc-unload: the input is cut into 16-byte
    chunks, each printed as one data record `:LLAAAA00DD..CC` at an address
    counting up from the start address, followed by the end-of-file record
    `:00000001FF`. */
module Unload {
  import opened Bytes
  import opened Printf

  /** Size of the read buffer, and so of every data record but the last. */
  const BufferSize: nat := 16

  /** The load address of a CP/M program, where the writer starts its records. */
  const Origin: nat := 0x0100

  /** One record as the writer prints it. */
  datatype Record = Record(address: nat, rtype: nat, data: seq<Byte>)

  /** Count + type + high and low address bytes + data: what the checksum covers. */
  function RecordSum(r: Record): nat
  {
    |r.data| + r.rtype + r.address / 256 + r.address % 256 + Sum(r.data)
  }

  /** The checksum byte: with it, the bytes of the record sum to a multiple of 256. */
  function Checksum(r: Record): (c: Byte)
    ensures (|r.data| + r.rtype + r.address / 256 + r.address % 256 + Sum(r.data) + c) % 256 == 0
  {
    Negate8(RecordSum(r))
  }

  /** `:%02X%04X%02X`, `%02X` per data byte, then `%02X\n` of the checksum:
      a ':', at least twelve characters with two per data byte, and a newline
      at the end. */
  function Line(r: Record): (l: string)
    ensures |l| >= 12 + 2 * |r.data|
    ensures l[0] == ':' && l[|l| - 1] == '\n'
  {
    ":" + Numeral(|r.data|, 16, 2) + Numeral(r.address, 16, 4) + Numeral(r.rtype, 16, 2)
    + HexBytes(r.data) + Numeral(Checksum(r), 16, 2) + "\n"
  }

  /** The end-of-file record: no data, address 0, type 1. */
  const EofRecord: Record := Record(0, 1, [])

  /** One data record per chunk of at most 16 bytes, each at the address just
      past the previous one: ceil(n / 16) records for n bytes. */
  function DataRecords(input: seq<Byte>, address: nat): (rs: seq<Record>)
    ensures |rs| == (|input| + 15) / 16
    decreases |input|
  {
    if input == [] then []
    else
      var n := Min(BufferSize, |input|);
      [Record(address, 0, input[..n])] + DataRecords(input[n..], address + n)
  }

  function Lines(rs: seq<Record>): string
  {
    if rs == [] then "" else Line(rs[0]) + Lines(rs[1..])
  }

  /** The whole text the writer prints for `input` starting at `address`: the
      data records, then the end-of-file record, so every output starts a
      record on its first character and ends with `:00000001FF`. */
  function IntelHex(input: seq<Byte>, address: nat): (r: string)
    ensures |r| >= 12 && r[0] == ':' && r[|r| - 12..] == ":00000001FF\n"
  {
    EofLine();
    Lines(DataRecords(input, address)) + Line(EofRecord)
  }

  /** The data fields of the records, one after another. */
  function Flatten(rs: seq<Record>): seq<Byte>
  {
    if rs == [] then [] else rs[0].data + Flatten(rs[1..])
  }

  /** Every record carries 1 to 16 bytes and all but the last exactly 16; the
      k-th is of type 0 at address + 16 k; there are ceil(|input| / 16) of them. */
  lemma {:induction false} Chunking(input: seq<Byte>, address: nat)
    ensures var rs := DataRecords(input, address);
      && |rs| == (|input| + 15) / 16
      && (forall k :: 0 <= k < |rs| ==> 1 <= |rs[k].data| <= BufferSize)
      && (forall k :: 0 <= k < |rs| - 1 ==> |rs[k].data| == BufferSize)
      && (forall k :: 0 <= k < |rs| ==> rs[k].address == address + 16 * k && rs[k].rtype == 0)
    decreases |input|
  {
    if input != [] {
      var n := Min(BufferSize, |input|);
      Chunking(input[n..], address + n);
      var rs := DataRecords(input, address);
      var rest := DataRecords(input[n..], address + n);
      assert rs == [Record(address, 0, input[..n])] + rest;
      forall k | 1 <= k < |rs|
        ensures rs[k].address == address + 16 * k
      {
        assert rs[k] == rest[k - 1];
        if k - 1 < |rest| - 1 || n == 16 {
          assert n == 16;
        } else {
          assert false;
        }
      }
    }
  }

  /** The data fields of the records, concatenated, are exactly the input. */
  lemma {:induction false} DataPreserved(input: seq<Byte>, address: nat)
    ensures Flatten(DataRecords(input, address)) == input
    decreases |input|
  {
    if input != [] {
      var n := Min(BufferSize, |input|);
      DataPreserved(input[n..], address + n);
      var rs := DataRecords(input, address);
      assert rs[1..] == DataRecords(input[n..], address + n);
      assert input == input[..n] + input[n..];
    }
  }

  /** A record line is ':', two digits of count, four of address, two of type,
      two per data byte, two of checksum and a newline, all digits upper-case
      hexadecimal, provided each field fits its width. */
  lemma LineFormat(r: Record)
    requires |r.data| < 256 && r.address <= 0xFFFF && r.rtype < 256
    ensures var l := Line(r);
      && |l| == 1 + 2 + 4 + 2 + 2 * |r.data| + 2 + 1
      && l[0] == ':' && l[|l| - 1] == '\n'
      && forall i :: 1 <= i < |l| - 1 ==> UpperHex(l[i])
  {
    assert Pow(16, 2) == 256 && Pow(16, 4) == 65536;
    NumeralWidth(|r.data|, 16, 2);
    NumeralWidth(r.address, 16, 4);
    NumeralWidth(r.rtype, 16, 2);
    NumeralWidth(Checksum(r), 16, 2);
    NumeralDigits(|r.data|, 16, 2);
    NumeralDigits(r.address, 16, 4);
    NumeralDigits(r.rtype, 16, 2);
    NumeralDigits(Checksum(r), 16, 2);
  }

  /** The four-digit zero address of the end-of-file record. */
  lemma ZeroAddress()
    ensures Numeral(0, 16, 4) == "0000"
  {
    assert Numeral(0, 16, 1) == "0";
    assert Numeral(0, 16, 2) == "00";
    assert Numeral(0, 16, 3) == "000";
  }

  /** The end-of-file record is always `:00000001FF`. */
  lemma EofLine()
    ensures Line(EofRecord) == ":00000001FF\n"
  {
    Hex2Digits(0);
    Hex2Digits(1);
    Hex2Digits(255);
    ZeroAddress();
    assert Checksum(EofRecord) == 255;
    assert HexBytes([]) == "";
  }

  /** An empty input prints the end-of-file record alone. */
  lemma EmptyInput(address: nat)
    ensures IntelHex([], address) == ":00000001FF\n"
  {
    EofLine();
  }

  /** The read loop has printed the records `done` and is at byte `pos` of the
      input, at address `addr`: the records still to print are those of the
      rest of the input. */
  predicate ReadSoFar(input: seq<Byte>, address: nat, pos: nat, addr: nat, done: seq<Record>)
  {
    pos <= |input| && addr == address + pos
    && done + DataRecords(input[pos..], addr) == DataRecords(input, address)
  }

  /** DataRecords peels one chunk off the front: the records still to print
      from `pos` are the one for the next `n` bytes and those after it. */
  lemma NextRecord(input: seq<Byte>, address: nat, pos: nat, n: nat, addr: nat, done: seq<Record>,
                   pos': nat, addr': nat, done': seq<Record>)
    requires ReadSoFar(input, address, pos, addr, done)
    requires pos + n <= |input| && n == Min(BufferSize, |input| - pos) && n > 0
    requires pos' == pos + n && addr' == addr + n && done' == done + [Record(addr, 0, input[pos..pos + n])]
    ensures ReadSoFar(input, address, pos', addr', done')
  {
    var r := Record(addr, 0, input[pos..pos + n]);
    var later := DataRecords(input[pos + n..], addr + n);
    assert DataRecords(input[pos..], addr) == [r] + later by {
      PeelRecord(input[pos..], addr, n);
      assert input[pos..][..n] == input[pos..pos + n];
      assert input[pos..][n..] == input[pos + n..];
    }
    Regroup(done, r, later, DataRecords(input[pos..], addr), DataRecords(input, address));
  }

  /** Moving the front record of what is left onto what is done keeps the whole. */
  lemma Regroup(done: seq<Record>, r: Record, later: seq<Record>, rest: seq<Record>, all: seq<Record>)
    requires done + rest == all && rest == [r] + later
    ensures (done + [r]) + later == all
  {
    assert (done + [r]) + later == done + ([r] + later);
  }

  /** The first record holds the first chunk; the rest are those of what follows. */
  lemma PeelRecord(rest: seq<Byte>, addr: nat, n: nat)
    requires 0 < n == Min(BufferSize, |rest|)
    ensures DataRecords(rest, addr) == [Record(addr, 0, rest[..n])] + DataRecords(rest[n..], addr + n)
  {
  }

  /** At the start nothing is printed; at end of file everything is. */
  lemma ReadBounds(input: seq<Byte>, address: nat, pos: nat, done: seq<Record>)
    ensures ReadSoFar(input, address, 0, address, [])
    ensures ReadSoFar(input, address, pos, address + pos, done) && pos == |input|
      ==> done == DataRecords(input, address)
  {
    assert input[0..] == input;
    if pos == |input| {
      assert input[pos..] == [];
    }
  }

  /** The data loop of a record: `%02X` of each of the first `n` bytes of the
      buffer, and their sum for the checksum. */
  method WriteData(buffer: array<Byte>, n: nat) returns (hex: string, sum: nat)
    requires n <= buffer.Length
    ensures hex == HexBytes(buffer[..n]) && sum == Sum(buffer[..n])
  {
    hex, sum := "", 0;
    for i := 0 to n
      invariant hex == HexBytes(buffer[..i]) && sum == Sum(buffer[..i])
    {
      assert buffer[..i + 1][..i] == buffer[..i];
      hex := hex + Numeral(buffer[i], 16, 2);
      sum := sum + buffer[i];
    }
  }

  /** One record line, as the body of the writer's read loop prints it from the
      first `n` bytes of the buffer. */
  method WriteRecord(buffer: array<Byte>, n: nat, addr: nat, rtype: nat) returns (line: string)
    requires n <= buffer.Length
    ensures line == Line(Record(addr, rtype, buffer[..n]))
  {
    var hex, sum := WriteData(buffer, n);
    var checksum := n + rtype + addr / 256 + addr % 256 + sum;
    line := ":" + Numeral(n, 16, 2) + Numeral(addr, 16, 4) + Numeral(rtype, 16, 2)
          + hex + Numeral(Negate8(checksum), 16, 2) + "\n";
  }

  /** Printing one more record appends its line. */
  lemma {:induction false} LinesSnoc(rs: seq<Record>, r: Record)
    ensures Lines(rs + [r]) == Lines(rs) + Line(r)
  {
    if rs != [] {
      assert (rs + [r])[1..] == rs[1..] + [r];
      LinesSnoc(rs[1..], r);
    }
  }

  /** The printing half of the read loop's body: the record for the chunk in
      the buffer is printed after those already printed. */
  method PrintChunk(buffer: array<Byte>, n: nat, addr: nat, ghost done: seq<Record>, ghost r: Record, out: string)
    returns (out': string)
    requires n <= buffer.Length && r == Record(addr, 0, buffer[..n]) && out == Lines(done)
    ensures out' == Lines(done + [r])
  {
    var line := WriteRecord(buffer, n, addr, 0);
    LinesSnoc(done, r);
    out' := out + line;
  }

  /** The reading half of the read loop's body: the chunk just printed is
      counted as done and the next chunk is read into the buffer. */
  method NextChunk(buffer: array<Byte>, input: seq<Byte>, address: nat,
                   pos: nat, addr: nat, n: nat, ghost done: seq<Record>)
    returns (pos': nat, addr': nat, n': nat, ghost done': seq<Record>)
    requires ReadSoFar(input, address, pos, addr, done)
    requires buffer.Length == BufferSize && 0 < n == Min(BufferSize, |input| - pos)
    modifies buffer
    ensures ReadSoFar(input, address, pos', addr', done')
    ensures done' == done + [Record(addr, 0, input[pos..pos + n])]
    ensures n' == Min(BufferSize, |input| - pos') && buffer[..n'] == input[pos'..pos' + n']
    ensures buffer[n'..] == old(buffer[n'..])
    ensures pos' == pos + n
  {
    done' := done + [Record(addr, 0, input[pos..pos + n])];
    NextRecord(input, address, pos, n, addr, done, pos + n, addr + n, done');
    pos', addr' := pos + n, addr + n;
    n' := Fread(buffer, input, pos');
  }

  /** The read loop of the writer: `fread` into the buffer until end of file,
      one data record per chunk at an address advancing by the chunk size. */
  method WriteRecords(buffer: array<Byte>, input: seq<Byte>, address: nat) returns (out: string)
    requires buffer.Length == BufferSize
    modifies buffer
    ensures out == Lines(DataRecords(input, address))
  {
    var addr := address;
    var pos: nat := 0;
    out := "";
    var n := Fread(buffer, input, pos);
    ghost var done: seq<Record> := [];
    ReadBounds(input, address, pos, done);
    while n > 0
      invariant ReadSoFar(input, address, pos, addr, done) && out == Lines(done)
      invariant n == Min(BufferSize, |input| - pos) && buffer[..n] == input[pos..pos + n]
      decreases |input| - pos
    {
      ghost var r := Record(addr, 0, buffer[..n]);
      out := PrintChunk(buffer, n, addr, done, r, out);
      pos, addr, n, done := NextChunk(buffer, input, address, pos, addr, n, done);
    }
    ReadBounds(input, address, pos, done);
  }

  /** The writer as the program runs it: the data records, then the
      end-of-file record. */
  method DumpHex(input: seq<Byte>, address: nat) returns (out: string)
    ensures out == IntelHex(input, address)
  {
    var buffer := new Byte[BufferSize];
    out := WriteRecords(buffer, input, address);
    var line := WriteRecord(buffer, 0, 0, 1);
    assert buffer[..0] == [];
    out := out + line;
  }
}
