/** The few `printf` conversions the tools use, as functions on strings:
    `%0wX` and `%0wo` (zero-padded upper-case hexadecimal and octal, at least
    `w` digits, widening when the value needs more), `%*s` with an empty
    argument, and `%.*s` (at most n characters of a NUL-terminated buffer). */
module Printf {
  import opened Bytes

  /** The digit `%X` and `%o` print for a value below 16. */
  function Digit(d: nat): (c: char)
    requires d < 16
    ensures UpperHex(c) && DigitValue(c) == d
  {
    if d < 10 then ('0' as int + d) as char else ('A' as int + d - 10) as char
  }

  /** The value of a digit `%X` or `%o` prints. */
  function DigitValue(c: char): nat
  {
    if '0' <= c <= '9' then c as int - '0' as int
    else if 'A' <= c <= 'F' then c as int - 'A' as int + 10
    else 0
  }

  /** The number a string of digits denotes in `base`, most significant first. */
  function Value(s: string, base: nat): nat
  {
    if s == [] then 0 else Value(s[..|s| - 1], base) * base + DigitValue(s[|s| - 1])
  }

  predicate UpperHex(c: char)
  {
    '0' <= c <= '9' || 'A' <= c <= 'F'
  }

  predicate OctalDigit(c: char)
  {
    '0' <= c <= '7'
  }

  function Pow(b: nat, e: nat): (r: nat)
    ensures b >= 1 ==> r >= 1
  {
    if e == 0 then 1 else b * Pow(b, e - 1)
  }

  /** `printf("%0*X", width, n)` for base 16 and `printf("%0*o", width, n)`
      for base 8: the digits of `n`, most significant first, zero padded on the
      left to `width`, and as many more as `n` needs. */
  function Numeral(n: nat, base: nat, width: nat): (r: string)
    requires base == 8 || base == 16
    ensures |r| >= 1 && |r| >= width
    ensures Value(r, base) == n
    decreases n, width
  {
    if n < base && width <= 1 then
      assert [Digit(n)][..0] == [];
      [Digit(n)]
    else
      assert n >= base ==> n / base < n;
      var head := Numeral(n / base, base, if width == 0 then 0 else width - 1);
      assert (head + [Digit(n % base)])[..|head|] == head;
      head + [Digit(n % base)]
  }

  /** A numeral is made of upper-case hexadecimal digits, octal ones in base 8. */
  lemma {:induction false} NumeralDigits(n: nat, base: nat, width: nat)
    requires base == 8 || base == 16
    ensures forall i :: 0 <= i < |Numeral(n, base, width)| ==> UpperHex(Numeral(n, base, width)[i])
    ensures base == 8 ==>
      forall i :: 0 <= i < |Numeral(n, base, width)| ==> OctalDigit(Numeral(n, base, width)[i])
    decreases n, width
  {
    var r := Numeral(n, base, width);
    if !(n < base && width <= 1) {
      var head := Numeral(n / base, base, if width == 0 then 0 else width - 1);
      NumeralDigits(n / base, base, if width == 0 then 0 else width - 1);
      assert r == head + [Digit(n % base)];
      forall i | 0 <= i < |r|
        ensures UpperHex(r[i]) && (base == 8 ==> OctalDigit(r[i]))
      {
        if i < |head| {
          assert r[i] == head[i];
          assert UpperHex(head[i]) && (base == 8 ==> OctalDigit(head[i]));
        } else {
          assert r[i] == Digit(n % base);
          DigitOctal(n % base);
        }
      }
    }
  }

  lemma DigitOctal(d: nat)
    requires d < 16
    ensures UpperHex(Digit(d)) && (d < 8 ==> OctalDigit(Digit(d)))
  {
  }

  lemma DivBelow(n: nat, b: nat, p: nat)
    requires b >= 1 && n < b * p
    ensures n / b < p
  {
  }

  /** A value below base^width prints in exactly `width` digits. */
  lemma {:induction false} NumeralWidth(n: nat, base: nat, width: nat)
    requires base == 8 || base == 16
    requires width >= 1 && n < Pow(base, width)
    ensures |Numeral(n, base, width)| == width
    decreases width
  {
    if n < base && width <= 1 {
    } else {
      assert width >= 2;
      DivBelow(n, base, Pow(base, width - 1));
      NumeralWidth(n / base, base, width - 1);
    }
  }

  /** `%02X` of a byte: its two hexadecimal digits. */
  lemma Hex2Digits(b: Byte)
    ensures Numeral(b, 16, 2) == [Digit(b / 16), Digit(b % 16)]
  {
    assert Numeral(b / 16, 16, 1) == [Digit(b / 16)];
  }

  /** `%02X` of each byte in turn, as the data field of a record is printed:
      two upper-case hexadecimal digits per byte. */
  function HexBytes(s: seq<Byte>): (r: string)
    ensures |r| == 2 * |s|
    ensures forall i :: 0 <= i < |r| ==> UpperHex(r[i])
  {
    if s == [] then []
    else
      Hex2Digits(s[|s| - 1]);
      NumeralDigits(s[|s| - 1], 16, 2);
      UpperHexAppend(HexBytes(s[..|s| - 1]), Numeral(s[|s| - 1], 16, 2));
      HexBytes(s[..|s| - 1]) + Numeral(s[|s| - 1], 16, 2)
  }

  lemma UpperHexAppend(a: string, b: string)
    requires forall i :: 0 <= i < |a| ==> UpperHex(a[i])
    requires forall i :: 0 <= i < |b| ==> UpperHex(b[i])
    ensures forall i :: 0 <= i < |a + b| ==> UpperHex((a + b)[i])
  {
    forall i | 0 <= i < |a + b|
      ensures UpperHex((a + b)[i])
    {
      if i >= |a| {
        assert (a + b)[i] == b[i - |a|];
      }
    }
  }

  /** n space characters. */
  function Spaces(n: int): (r: string)
    ensures |r| == if n < 0 then 0 else n
    ensures forall i :: 0 <= i < |r| ==> r[i] == ' '
  {
    if n <= 0 then [] else seq(n, _ => ' ')
  }

  /** `printf("%*s", w, s)`: right-justified in `w` columns, or left-justified in
      `-w` columns when `w` is negative; never truncated. The columns not taken
      by the string are spaces, before it or after it. */
  function FieldWidth(s: string, w: int): (r: string)
    ensures |r| == if |s| >= (if w < 0 then -w else w) then |s| else if w < 0 then -w else w
    ensures w >= 0 ==> forall i :: 0 <= i < |s| ==> r[|r| - |s| + i] == s[i]
    ensures w < 0 ==> forall i :: 0 <= i < |s| ==> r[i] == s[i]
    ensures w >= 0 ==> forall i :: 0 <= i < |r| - |s| ==> r[i] == ' '
    ensures w < 0 ==> forall i :: |s| <= i < |r| ==> r[i] == ' '
  {
    if w >= 0 then Spaces(w - |s|) + s else s + Spaces(-w - |s|)
  }

  /** The bytes of a buffer shown as characters. */
  function Text(s: seq<Byte>): (r: string)
    ensures |r| == |s|
  {
    seq(|s|, i requires 0 <= i < |s| => s[i] as char)
  }

  /** `printf("%.*s", n, buf)`: at most `n` characters, stopping at a NUL. */
  function Precision(buf: seq<Byte>, n: nat): (r: string)
    ensures |r| <= n && |r| <= |buf|
    ensures |r| < n && |r| < |buf| ==> buf[|r|] == 0
  {
    if n == 0 || buf == [] || buf[0] == 0 then []
    else [buf[0] as char] + Precision(buf[1..], n - 1)
  }

  /** `%.*s` prints the bytes of the buffer as they are, none of them a NUL. */
  lemma {:induction false} PrecisionChars(buf: seq<Byte>, n: nat)
    ensures forall i :: 0 <= i < |Precision(buf, n)| ==>
      Precision(buf, n)[i] as int == buf[i] && buf[i] != 0
  {
    if !(n == 0 || buf == [] || buf[0] == 0) {
      var rest := Precision(buf[1..], n - 1);
      PrecisionChars(buf[1..], n - 1);
      assert Precision(buf, n) == [buf[0] as char] + rest;
      forall i | 0 <= i < |Precision(buf, n)|
        ensures Precision(buf, n)[i] as int == buf[i] && buf[i] != 0
      {
        if i > 0 {
          assert Precision(buf, n)[i] == rest[i - 1];
          assert buf[1..][i - 1] == buf[i];
        }
      }
    }
  }

  /** With no NUL among the first `n` bytes, `%.*s` prints exactly those `n`. */
  lemma PrecisionWhole(buf: seq<Byte>, n: nat)
    requires n <= |buf|
    requires forall i :: 0 <= i < n ==> buf[i] != 0
    ensures Precision(buf, n) == Text(buf[..n])
  {
    var r := Precision(buf, n);
    PrecisionChars(buf, n);
    assert |r| == n;
  }

  /** The masked chunk holds no NUL, so `%.*s` prints all `n` bytes of it. */
  lemma MaskedText(chunk: seq<Byte>, spaceFill: bool)
    ensures Precision(Masked(chunk, spaceFill), |chunk|) == Text(Masked(chunk, spaceFill))
  {
    var m := Masked(chunk, spaceFill);
    PrecisionWhole(m, |chunk|);
    assert m[..|chunk|] == m;
  }

  /** Number of newlines in a text. */
  function Newlines(s: string): nat
  {
    if s == [] then 0 else Newlines(s[..|s| - 1]) + (if s[|s| - 1] == '\n' then 1 else 0)
  }

  lemma {:induction false} NewlinesAppend(a: string, b: string)
    ensures Newlines(a + b) == Newlines(a) + Newlines(b)
    decreases |b|
  {
    if b == [] {
      assert a + b == a;
    } else {
      assert (a + b)[..|a + b| - 1] == a + b[..|b| - 1];
      NewlinesAppend(a, b[..|b| - 1]);
    }
  }

  predicate NoNewline(s: string)
  {
    forall i :: 0 <= i < |s| ==> s[i] != '\n'
  }

  /** A text with no newline character counts no line. */
  lemma {:induction false} NoNewlines(s: string)
    requires NoNewline(s)
    ensures Newlines(s) == 0
  {
    if s != [] {
      NoNewlines(s[..|s| - 1]);
    }
  }

  /** An optional `name:` label line before a text adds one line to it, when
      the name holds no newline. */
  lemma Labelled(name: string, present: bool, body: string)
    ensures NoNewline(name) ==>
      Newlines((if present then name + ":\n" else "") + body) == (if present then 1 else 0) + Newlines(body)
  {
    NewlinesAppend(if present then name + ":\n" else "", body);
    if present && NoNewline(name) {
      NoNewlines(name);
      NewlinesAppend(name, ":\n");
      assert ":\n"[..1] == ":" && ":"[..0] == "";
    }
  }

  /** Text without newlines joined to text without newlines has none. */
  lemma NoNewlineAppend(a: string, b: string)
    requires NoNewline(a) && NoNewline(b)
    ensures NoNewline(a + b)
  {
    forall i | 0 <= i < |a + b|
      ensures (a + b)[i] != '\n'
    {
      if i >= |a| {
        assert (a + b)[i] == b[i - |a|];
      }
    }
  }
}
