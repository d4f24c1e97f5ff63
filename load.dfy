/** The Intel HEX reader of gcc-load: a character-at-a-time state machine
    that turns records `:LLAAAATTDD..CC` back into the bytes they carry,
    reporting ` - Ok` or ` - Error` for each record, and the `.hex` to `.com`
    renaming of the output file. */
module Load {
  import opened Bytes
  import opened Printf

  /** The verdict echoed after a record: ` - Ok` or ` - Error`. */
  datatype Outcome = Ok | Error

  /** The locals of the reader together with what it has produced so far. */
  datatype Reader = Reader(
    last: char,          // previous character (NULs straight after a newline excepted)
    count: nat,          // position in the record: 0 seeking ':', 1-2 count, 3-6 address,
                         // 7-8 type, 9 and beyond data and checksum nibbles
    bytes: int,          // data bytes still expected; 0 means the next pair is the checksum
    address: nat,
    rtype: nat,
    data: nat,           // the byte being assembled from two nibbles
    checksum: int,       // running sum, then the expected checksum byte
    errors: nat,         // malformed digits, checksum mismatches and short records
    output: seq<Byte>,   // every byte written to the output file, in order
    report: seq<Outcome>)

  /** The reader before the first character: the previous character counts as a
      newline, so a record may start at the very beginning of the input. */
  const Start: Reader := Reader('\n', 0, 0, 0, 0, 0, 0, 0, [], [])

  predicate IsHexDigit(c: char)
  {
    '0' <= c <= '9' || 'a' <= c <= 'f' || 'A' <= c <= 'F'
  }

  predicate LineEnd(c: char)
  {
    c == '\r' || c == '\n'
  }

  /** The value a character contributes as a nibble: its digit value in either
      case, and nothing for any other character. */
  function Nibble(c: char): (v: nat)
    ensures v < 16
    ensures '0' <= c <= '9' ==> v == c as int - '0' as int
    ensures 'a' <= c <= 'f' ==> v == c as int - 'a' as int + 10
    ensures 'A' <= c <= 'F' ==> v == c as int - 'A' as int + 10
    ensures !IsHexDigit(c) ==> v == 0
    ensures UpperHex(c) ==> v == DigitValue(c)
  {
    if '0' <= c <= '9' then c as int - '0' as int
    else if 'a' <= c <= 'f' then c as int - 'a' as int + 10
    else if 'A' <= c <= 'F' then c as int - 'A' as int + 10
    else 0
  }

  /** 1 for a malformed digit, which the reader counts as an error. */
  function Bad(c: char): nat
  {
    if IsHexDigit(c) then 0 else 1
  }

  /** Number of ` - Error` verdicts in a report. */
  function Errors(report: seq<Outcome>): nat
  {
    if report == [] then 0
    else Errors(report[..|report| - 1]) + (if report[|report| - 1] == Error then 1 else 0)
  }

  /** The previous character after `c`: a NUL straight after a newline leaves
      the newline in place. */
  function NextLast(last: char, c: char): char
  {
    if last != '\n' || c != '\0' then c else last
  }

  /** One character of input, following the `switch` on the position counter,
      then the update of the previous character. The output file is only
      appended to, at most one byte per character; at most one verdict is
      echoed; and every ` - Error` echoed is counted as an error. */
  function Advance(s: Reader, c: char): (r: Reader)
    ensures s.output <= r.output && |r.output| <= |s.output| + 1
    ensures s.report <= r.report && |r.report| <= |s.report| + 1
    ensures Errors(r.report) - Errors(s.report) <= r.errors - s.errors
  {
    DispatchGrows(s, c);
    Dispatch(s, c).(last := NextLast(s.last, c))
  }

  /** The `switch` on the position counter. */
  function Dispatch(s: Reader, c: char): Reader
  {
    if s.count == 0 then Seek(s, c)
    else if s.count <= 8 then HeaderDigit(s, c)
    else if LineEnd(c) then EndOfLine(s)
    else DataDigit(s, c)
  }

  /** Each branch of the `switch` appends at most one byte and one verdict, and
      counts an error with every ` - Error`. */
  lemma DispatchGrows(s: Reader, c: char)
    ensures var t := Dispatch(s, c);
      && s.output <= t.output && |t.output| <= |s.output| + 1
      && s.report <= t.report && |t.report| <= |s.report| + 1
      && Errors(t.report) - Errors(s.report) <= t.errors - s.errors
  {
    if s.count == 0 || s.count <= 8 {
    } else if LineEnd(c) {
      ErrorsSnoc(s.report, Error);
    } else {
      var s' := s.(data := s.data * 16 + Nibble(c), errors := s.errors + Bad(c), count := s.count + 1);
      if s'.count % 2 == 1 && s'.bytes == 0 {
        ErrorsSnoc(s.report, if Negate8(s'.checksum) == s'.data then Ok else Error);
      }
    }
  }

  lemma ErrorsSnoc(report: seq<Outcome>, o: Outcome)
    ensures Errors(report + [o]) == Errors(report) + (if o == Error then 1 else 0)
  {
    assert (report + [o])[..|report|] == report;
  }

  /** Position 0: only a ':' straight after a line end starts a record. */
  function Seek(s: Reader, c: char): Reader
  {
    if (s.last == '\n' || s.last == '\r') && c == ':' then
      s.(count := 1, bytes := 0, address := 0, rtype := 0, data := 0, checksum := 0)
    else s
  }

  /** Positions 1 to 8: a nibble of the count, the address or the type field.
      The checksum is seeded from the fields on each type nibble. */
  function HeaderDigit(s: Reader, c: char): Reader
    requires 1 <= s.count <= 8
  {
    var e := s.errors + Bad(c);
    if s.count <= 2 then
      s.(bytes := s.bytes * 16 + Nibble(c), errors := e, count := s.count + 1)
    else if s.count <= 6 then
      s.(address := s.address * 16 + Nibble(c), errors := e, count := s.count + 1)
    else
      var ty := s.rtype * 16 + Nibble(c);
      s.(rtype := ty, errors := e, count := s.count + 1,
         checksum := s.bytes + ty + s.address / 256 + s.address % 256)
  }

  /** A line end after the type field: back to seeking, with an error when the
      checksum pair has not been read. */
  function EndOfLine(s: Reader): Reader
  {
    if s.bytes >= 0 then s.(count := 0, errors := s.errors + 1, report := s.report + [Error])
    else s.(count := 0)
  }

  /** A nibble of the data phase; every second one completes a byte. */
  function DataDigit(s: Reader, c: char): Reader
  {
    var s' := s.(data := s.data * 16 + Nibble(c), errors := s.errors + Bad(c), count := s.count + 1);
    if s'.count % 2 == 1 then PairDone(s') else s'
  }

  /** A completed byte: written out and summed while `bytes` is non-zero,
      otherwise compared with the two's complement of the sum. */
  function PairDone(s: Reader): Reader
  {
    if s.bytes != 0 then
      s.(output := s.output + [LowByte(s.data)], checksum := s.checksum + s.data,
         bytes := s.bytes - 1, data := 0)
    else
      var cs := Negate8(s.checksum);
      s.(checksum := cs, report := s.report + [if cs == s.data then Ok else Error],
         errors := if cs == s.data then s.errors else s.errors + 1,
         bytes := s.bytes - 1, data := 0)
  }

  /** The reader after consuming `input` one character at a time: what was
      written and echoed before is kept, each character adds at most one byte
      and one verdict, and each ` - Error` adds to the error count. */
  function Run(s: Reader, input: string): (r: Reader)
    ensures s.output <= r.output && |r.output| <= |s.output| + |input|
    ensures s.report <= r.report && |r.report| <= |s.report| + |input|
    ensures Errors(r.report) - Errors(s.report) <= r.errors - s.errors
    decreases |input|
  {
    if input == [] then s else Advance(Run(s, input[..|input| - 1]), input[|input| - 1])
  }

  /** What one call of the reader produces from a whole input file: at most one
      byte and one verdict per character, and an error count no smaller than
      the number of ` - Error` verdicts. */
  function Decode(input: string): (r: Reader)
    ensures |r.output| <= |input| && |r.report| <= |input|
    ensures Errors(r.report) <= r.errors
  {
    Run(Start, input)
  }

  /** Reading `a` then `b` is reading `a + b`. */
  lemma {:induction false} RunAppend(s: Reader, a: string, b: string)
    ensures Run(s, a + b) == Run(Run(s, a), b)
    decreases |b|
  {
    if b == [] {
      assert a + b == a;
    } else {
      var b' := b[..|b| - 1];
      assert (a + b)[..|a + b| - 1] == a + b';
      RunAppend(s, a, b');
    }
  }

  lemma RunOne(s: Reader, c: char)
    ensures Run(s, [c]) == Advance(s, c)
  {
    assert [c][..0] == [];
  }

  /** The previous character the reader holds after `text`, starting from `last`. */
  function LastAfter(last: char, text: string): char
  {
    if text == [] then last else NextLast(LastAfter(last, text[..|text| - 1]), text[|text| - 1])
  }

  /** No ':' of `text` comes straight after a line end (NULs after a newline
      not counting), so none of them starts a record. */
  predicate NoRecordStart(last: char, text: string)
  {
    forall i :: 0 <= i < |text| && text[i] == ':' ==> !LineEnd(LastAfter(last, text[..i]))
  }

  lemma NoRecordStartInit(last: char, text: string)
    requires text != [] && NoRecordStart(last, text)
    ensures NoRecordStart(last, text[..|text| - 1])
  {
    var init := text[..|text| - 1];
    forall i | 0 <= i < |init| && init[i] == ':'
      ensures !LineEnd(LastAfter(last, init[..i]))
    {
      assert init[..i] == text[..i];
    }
  }

  /** Text between records is skipped: while seeking, any text in which no ':'
      follows a line end writes nothing, echoes nothing, counts no error and
      leaves every field but the previous character as it was. */
  lemma {:induction false} SkipText(s: Reader, text: string)
    requires s.count == 0 && NoRecordStart(s.last, text)
    ensures Run(s, text) == s.(last := LastAfter(s.last, text))
    decreases |text|
  {
    if text != [] {
      var init := text[..|text| - 1];
      NoRecordStartInit(s.last, text);
      SkipText(s, init);
      assert text[..|text| - 1] == init;
    }
  }

  /** The first ':' that follows a line end starts a record, whatever text was
      skipped before it: the fields are reset and the count, address and type
      digits are expected next. */
  lemma FirstRecord(s: Reader, text: string)
    requires s.count == 0 && NoRecordStart(s.last, text) && LineEnd(LastAfter(s.last, text))
    ensures Run(s, text + ":")
      == s.(count := 1, bytes := 0, address := 0, rtype := 0, data := 0, checksum := 0, last := ':')
  {
    SkipText(s, text);
    RunAppend(s, text, ":");
    RunOne(Run(s, text), ':');
  }

  function Nuls(k: nat): (r: string)
    ensures |r| == k && forall i :: 0 <= i < k ==> r[i] == '\0'
  {
    seq(k, _ => '\0')
  }

  /** NULs after a newline leave the newline as the previous character. */
  lemma {:induction false} NulsAfterNewline(k: nat)
    ensures LastAfter('\n', Nuls(k)) == '\n'
  {
    if k > 0 {
      assert Nuls(k)[..k - 1] == Nuls(k - 1);
      NulsAfterNewline(k - 1);
    }
  }

  /** NULs between a newline and a ':' do not stop the ':' from starting a record. */
  lemma LeadingNuls(s: Reader, k: nat)
    requires s.count == 0 && s.last == '\n'
    ensures Run(s, Nuls(k)) == s
    ensures Run(s, Nuls(k) + [':']).count == 1
  {
    NulsAfterNewline(k);
    assert NoRecordStart(s.last, Nuls(k));
    SkipText(s, Nuls(k));
    FirstRecord(s, Nuls(k));
  }

  /** Horner's rule over nibbles: the value the reader accumulates from a field,
      most significant digit first, a malformed digit counting as zero. */
  function Horner(acc: int, s: string): int
  {
    if s == [] then acc else Horner(acc, s[..|s| - 1]) * 16 + Nibble(s[|s| - 1])
  }

  /** Number of malformed digits in a string. */
  function BadDigits(s: string): nat
  {
    if s == [] then 0 else BadDigits(s[..|s| - 1]) + Bad(s[|s| - 1])
  }

  /** The two byte-count nibbles, whatever the characters (line ends included). */
  lemma {:induction false} CountField(s: Reader, h: string)
    requires 1 <= s.count && s.count + |h| <= 3
    ensures var t := Run(s, h);
      && t.count == s.count + |h|
      && t.bytes == Horner(s.bytes, h)
      && t.errors == s.errors + BadDigits(h)
      && t.(last := s.last, count := s.count, bytes := s.bytes, errors := s.errors) == s
    decreases |h|
  {
    if h != [] {
      CountField(s, h[..|h| - 1]);
    }
  }

  /** The four address nibbles. */
  lemma {:induction false} AddressField(s: Reader, h: string)
    requires 3 <= s.count && s.count + |h| <= 7
    ensures var t := Run(s, h);
      && t.count == s.count + |h|
      && t.address == Horner(s.address, h)
      && t.errors == s.errors + BadDigits(h)
      && t.(last := s.last, count := s.count, address := s.address, errors := s.errors) == s
    decreases |h|
  {
    if h != [] {
      AddressField(s, h[..|h| - 1]);
    }
  }

  /** The two type nibbles; once they are in, the running checksum holds
      count + type + high address byte + low address byte. The type itself is
      never checked. */
  lemma {:induction false} TypeField(s: Reader, h: string)
    requires 7 <= s.count && s.count + |h| <= 9
    ensures var t := Run(s, h);
      && t.count == s.count + |h|
      && t.rtype == Horner(s.rtype, h)
      && t.errors == s.errors + BadDigits(h)
      && (h != [] ==> t.checksum == s.bytes + t.rtype + s.address / 256 + s.address % 256)
      && t.(last := s.last, count := s.count, rtype := s.rtype, errors := s.errors,
            checksum := s.checksum) == s
    decreases |h|
  {
    if h != [] {
      TypeField(s, h[..|h| - 1]);
    }
  }

  /** The position counter is odd between byte pairs of the data phase. */
  predicate AtPair(s: Reader)
  {
    s.count >= 9 && s.count % 2 == 1 && s.data == 0
  }

  /** One byte pair of the data phase. While data bytes are still expected, or
      once the checksum has gone by, the byte is written out at once; the pair
      read when none are expected is the checksum, reported Ok exactly when it is
      the two's complement of the running sum. */
  lemma DataPair(s: Reader, c1: char, c2: char)
    requires AtPair(s) && !LineEnd(c1) && !LineEnd(c2)
    ensures var b := Nibble(c1) * 16 + Nibble(c2);
      var t := Advance(Advance(s, c1), c2);
      && AtPair(t) && t.count == s.count + 2
      && t.bytes == (if s.bytes == 0 then -1 else s.bytes - 1)
      && t.output == (if s.bytes != 0 then s.output + [b] else s.output)
      && t.checksum == (if s.bytes != 0 then s.checksum + b else Negate8(s.checksum))
      && t.report == (if s.bytes != 0 then s.report
                      else s.report + [if Negate8(s.checksum) == b then Ok else Error])
      && t.errors == s.errors + Bad(c1) + Bad(c2)
                     + (if s.bytes == 0 && Negate8(s.checksum) != b then 1 else 0)
      && t.(last := s.last, count := s.count, bytes := s.bytes, output := s.output,
            checksum := s.checksum, report := s.report, errors := s.errors) == s
  {
    var t1 := Advance(s, c1);
    assert t1 == s.(data := Nibble(c1), errors := s.errors + Bad(c1), count := s.count + 1, last := t1.last);
    var full := t1.(data := Nibble(c1) * 16 + Nibble(c2), errors := t1.errors + Bad(c2), count := t1.count + 1);
    assert full.count % 2 == 1;
    assert Advance(t1, c2) == PairDone(full).(last := Advance(t1, c2).last);
  }

  lemma RunTwo(s: Reader, c1: char, c2: char)
    ensures Run(s, [c1, c2]) == Advance(Advance(s, c1), c2)
  {
    assert [c1, c2][..1] == [c1];
    RunOne(s, c1);
  }

  /** A line end in the data phase ends the record; it is an error exactly when
      the checksum pair has not been read. */
  lemma DataLineEnd(s: Reader, c: char)
    requires s.count >= 9 && LineEnd(c)
    ensures var t := Advance(s, c);
      && t.count == 0 && t.last == c && t.output == s.output
      && t.report == (if s.bytes >= 0 then s.report + [Error] else s.report)
      && t.errors == (if s.bytes >= 0 then s.errors + 1 else s.errors)
  {
  }

  /** Whole data fields: while no pair meets a zero byte count, every decoded
      byte is appended to the output in order and added to the running sum;
      this covers both the declared data and any pairs after the checksum. */
  lemma {:induction false} DataBytes(s: Reader, data: seq<Byte>)
    requires AtPair(s)
    requires s.bytes < 0 || s.bytes >= |data|
    ensures var t := Run(s, HexBytes(data));
      && AtPair(t) && t.count == s.count + 2 * |data|
      && t.bytes == s.bytes - |data|
      && t.output == s.output + data
      && t.checksum == s.checksum + Sum(data)
      && t.(last := s.last, count := s.count, bytes := s.bytes, output := s.output,
            checksum := s.checksum) == s
    decreases |data|
  {
    if data != [] {
      var init, b := data[..|data| - 1], data[|data| - 1];
      DataBytes(s, init);
      var m := Run(s, HexBytes(init));
      var t := Run(m, Numeral(b, 16, 2));
      assert Run(s, HexBytes(data)) == t by {
        assert HexBytes(data) == HexBytes(init) + Numeral(b, 16, 2);
        RunAppend(s, HexBytes(init), Numeral(b, 16, 2));
      }
      BytePair(m, b);
      AppendLast(s.output, data);
      assert Sum(data) == Sum(init) + b;
    }
  }

  lemma AppendLast(o: seq<Byte>, data: seq<Byte>)
    requires data != []
    ensures o + data == (o + data[..|data| - 1]) + [data[|data| - 1]]
  {
    assert data == data[..|data| - 1] + [data[|data| - 1]];
  }

  /** The pair `%02X` prints for a data byte is read back as that byte. */
  lemma BytePair(s: Reader, b: Byte)
    requires AtPair(s) && s.bytes != 0
    ensures var t := Run(s, Numeral(b, 16, 2));
      && AtPair(t) && t.count == s.count + 2
      && t.bytes == s.bytes - 1
      && t.output == s.output + [b]
      && t.checksum == s.checksum + b
      && t.(last := s.last, count := s.count, bytes := s.bytes, output := s.output,
            checksum := s.checksum) == s
  {
    Hex2Digits(b);
    var d1, d2 := Digit(b / 16), Digit(b % 16);
    DigitNibble(b / 16);
    DigitNibble(b % 16);
    RunTwo(s, d1, d2);
    DataPair(s, d1, d2);
  }

  /** The reader reads back every digit `%X` prints. */
  lemma DigitNibble(d: nat)
    requires d < 16
    ensures IsHexDigit(Digit(d)) && Nibble(Digit(d)) == d && !LineEnd(Digit(d))
  {
  }

  /** On upper-case digits the reader's accumulation is the value the digits
      denote, with no malformed digit. */
  lemma {:induction false} HornerValue(s: string)
    requires forall i :: 0 <= i < |s| ==> UpperHex(s[i])
    ensures Horner(0, s) == Value(s, 16) && BadDigits(s) == 0
  {
    if s != [] {
      HornerValue(s[..|s| - 1]);
    }
  }

  /** A printed numeral reads back as its value, with no malformed digit. */
  lemma NumeralReadsBack(n: nat, w: nat)
    ensures Horner(0, Numeral(n, 16, w)) == n
    ensures BadDigits(Numeral(n, 16, w)) == 0
  {
    NumeralDigits(n, 16, w);
    HornerValue(Numeral(n, 16, w));
  }

  /** The reader as the program holds it: one variable per local of the
      function, plus the output file and the verdicts echoed so far. */
  class HexReader {
    var last: char
    var count: nat
    var bytes: int
    var address: nat
    var rtype: nat
    var data: nat
    var checksum: int
    var errors: nat
    var output: seq<Byte>
    var report: seq<Outcome>

    function State(): Reader
      reads this
    {
      Reader(last, count, bytes, address, rtype, data, checksum, errors, output, report)
    }

    constructor ()
      ensures State() == Start
    {
      last, count, bytes, address, rtype := '\n', 0, 0, 0, 0;
      data, checksum, errors, output, report := 0, 0, 0, [], [];
    }

    /** One character: the `switch` on the position counter, then the update
        of the previous character. */
    method Step(c: char)
      modifies this
      ensures State() == Advance(old(State()), c)
    {
      if count == 0 {
        SeekChar(c);
      } else if count <= 8 {
        HeaderChar(c);
      } else if c == '\r' || c == '\n' {
        LineEndChar();
      } else {
        DataChar(c);
      }
      if last != '\n' || c != '\0' {
        last := c;
      }
    }

    method SeekChar(c: char)
      requires count == 0
      modifies this
      ensures State() == Seek(old(State()), c)
    {
      if (last == '\n' || last == '\r') && c == ':' {
        bytes, address, rtype, data, checksum := 0, 0, 0, 0, 0;
        count := count + 1;
      }
    }

    method HeaderChar(c: char)
      requires 1 <= count <= 8
      modifies this
      ensures State() == HeaderDigit(old(State()), c)
    {
      if count <= 2 {
        bytes := bytes * 16 + Nibble(c);
        if !IsHexDigit(c) { errors := errors + 1; }
      } else if count <= 6 {
        address := address * 16 + Nibble(c);
        if !IsHexDigit(c) { errors := errors + 1; }
      } else {
        rtype := rtype * 16 + Nibble(c);
        if !IsHexDigit(c) { errors := errors + 1; }
        checksum := bytes + rtype + address / 256 + address % 256;
      }
      count := count + 1;
    }

    method LineEndChar()
      modifies this
      ensures State() == EndOfLine(old(State()))
    {
      count := 0;
      if bytes >= 0 {
        errors := errors + 1;
        report := report + [Error];
      }
    }

    method DataChar(c: char)
      modifies this
      ensures State() == DataDigit(old(State()), c)
    {
      data := data * 16 + Nibble(c);
      if !IsHexDigit(c) { errors := errors + 1; }
      count := count + 1;
      if count % 2 == 1 {
        CompletePair();
      }
    }

    method CompletePair()
      modifies this
      ensures State() == PairDone(old(State()))
    {
      if bytes != 0 {
        output := output + [LowByte(data)];
        checksum := checksum + data;
      } else {
        checksum := Negate8(checksum);
        if checksum != data {
          errors := errors + 1;
          report := report + [Error];
        } else {
          report := report + [Ok];
        }
      }
      bytes := bytes - 1;
      data := 0;
    }

    /** Every character of the input, in order, until end of file. */
    method ReadHex(input: string)
      modifies this
      ensures State() == Run(old(State()), input)
    {
      var i := 0;
      while i < |input|
        invariant 0 <= i <= |input|
        invariant State() == Run(old(State()), input[..i])
      {
        Step(input[i]);
        assert input[..i + 1][..i] == input[..i];
        i := i + 1;
      }
      assert input[..|input|] == input;
    }
  }

  /** Loading one file: the bytes written to the output file and the verdict
      echoed for each record. */
  method LoadFile(input: string) returns (output: seq<Byte>, report: seq<Outcome>)
    ensures output == Decode(input).output && report == Decode(input).report
  {
    var reader := new HexReader();
    reader.ReadHex(input);
    output, report := reader.output, reader.report;
  }

  /** The output file name: the input name with its final ".hex" replaced by
      ".com"; a name of four characters or fewer, or of another type, is refused. */
  function ComName(name: string): (r: Option<string>)
    ensures r.Some? <==> |name| > 4 && name[|name| - 4..] == ".hex"
    ensures r.Some? ==> |r.value| == |name| && r.value[..|name| - 4] == name[..|name| - 4]
                        && r.value[|name| - 4..] == ".com"
  {
    if |name| > 4 && name[|name| - 4..] == ".hex" then Some(name[..|name| - 4] + ".com") else None
  }

  datatype Option<T> = None | Some(value: T)

  /** The check on the name and the `strcpy` of ".com" over its last four characters. */
  method RenameToCom(name: array<char>) returns (ok: bool)
    modifies name
    ensures ok <==> ComName(old(name[..])).Some?
    ensures name[..] == if ok then ComName(old(name[..])).value else old(name[..])
  {
    var n := name.Length;
    ok := n > 4 && name[n - 4..] == ".hex";
    if ok {
      name[n - 4], name[n - 3], name[n - 2], name[n - 1] := '.', 'c', 'o', 'm';
    }
  }
}
