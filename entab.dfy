/** gcc-entab: a text is copied character by character, and runs of spaces
    that reach a tab stop (every 8 columns) are replaced by a tab. The copy
    keeps two counters: the 1-based column of the character being read and
    the number of spaces read but not yet written. */
module Entab {
  import opened Bytes

  const TabWidth := 8
  const Space: Byte := 0x20
  const Tab: Byte := 0x09
  const Lf: Byte := 0x0A
  const Cr: Byte := 0x0D

  /** `\n` and `\r` both start a new line. */
  predicate LineEnd(c: Byte)
  {
    c == Lf || c == Cr
  }

  /** `k` spaces. */
  function Blanks(k: nat): (r: seq<Byte>)
    ensures |r| == k && forall i :: 0 <= i < k ==> r[i] == Space
  {
    seq(k, _ => Space)
  }

  /** The counters of the copy loop (`i_offset`, `i_blanks`) and what it has
      written so far. */
  datatype State = State(offset: nat, blanks: nat, out: seq<Byte>)

  /** Column 1, nothing pending, nothing written. */
  const Start := State(1, 0, [])

  /** One character through the loop: a space is held back, or becomes a tab
      that swallows those held back when it falls on a tab stop; any other
      character first writes the spaces held back, then itself, and a line end
      sends the column back to 1. What is written stays written, and a
      character other than a space or tab is copied as it is. */
  function Step(s: State, c: Byte): (r: State)
    ensures s.out <= r.out
    ensures Visible(r.out) == Visible(s.out) + Visible([c])
    ensures |r.out| + r.blanks <= |s.out| + s.blanks + 1
  {
    assert [c][..0] == [];
    if c == Space then
      if s.offset % TabWidth == 0 then
        VisibleAppend(s.out, [Tab]);
        assert [Tab][..0] == [];
        State(s.offset + 1, 0, s.out + [Tab])
      else State(s.offset + 1, s.blanks + 1, s.out)
    else
      VisibleAppend(s.out + Blanks(s.blanks), [c]);
      VisibleAppend(s.out, Blanks(s.blanks));
      VisibleBlanks(s.blanks);
      State(if LineEnd(c) then 1 else s.offset + 1, 0, s.out + Blanks(s.blanks) + [c])
  }

  /** The state after the copy loop has read all of `input`. The column counter
      is one past the characters on the current line; fewer than 8 spaces are
      held back, all after the last tab stop, and they are exactly the last
      characters read; every character other than a space or tab has been
      copied in order. */
  function Run(input: seq<Byte>): (r: State)
    ensures r.offset == Column(input) + 1
    ensures r.blanks <= Column(input) % TabWidth < TabWidth
    ensures r.blanks <= |input| && input[|input| - r.blanks..] == Blanks(r.blanks)
    ensures Visible(r.out) == Visible(input)
    ensures |r.out| + r.blanks <= |input|
  {
    if input == [] then Start
    else
      var init, c := input[..|input| - 1], input[|input| - 1];
      assert input == init + [c];
      Tracks(init, Run(init), c);
      Step(Run(init), c)
  }

  /** The counters of `s` track `input`, as the contract of `Run` states. */
  predicate Tracking(input: seq<Byte>, s: State)
  {
    && s.offset == Column(input) + 1
    && s.blanks <= Column(input) % TabWidth
    && s.blanks <= |input| && input[|input| - s.blanks..] == Blanks(s.blanks)
    && Visible(s.out) == Visible(input)
    && |s.out| + s.blanks <= |input|
  }

  /** One step keeps the counters tracking the input. */
  lemma Tracks(init: seq<Byte>, s: State, c: Byte)
    requires Tracking(init, s)
    ensures Tracking(init + [c], Step(s, c))
  {
    var input := init + [c];
    assert input[..|init|] == init;
    VisibleAppend(init, [c]);
    if c == Space && s.offset % TabWidth != 0 {
      assert input[|input| - (s.blanks + 1)..] == init[|init| - s.blanks..] + [Space];
      BlanksSnoc(s.blanks);
    }
  }

  /** The copy of `input`: what the loop writes; spaces still held back at end
      of input are never written. The copy is never longer than the input, and
      every character other than a space or tab comes out unchanged and in
      order: the copy only ever adds or drops spaces and tabs. */
  function Entab(input: seq<Byte>): (r: seq<Byte>)
    ensures |r| <= |input|
    ensures Visible(r) == Visible(input)
  {
    Run(input).out
  }

  /** The number of characters on the current line: those after the last line
      end (a tab counts as one, as it does for the copy loop). */
  function Column(s: seq<Byte>): nat
  {
    if s == [] then 0
    else if LineEnd(s[|s| - 1]) then 0
    else Column(s[..|s| - 1]) + 1
  }

  lemma BlanksSnoc(k: nat)
    ensures Blanks(k) + [Space] == Blanks(k + 1)
  {
  }

  lemma BlanksCons(k: nat)
    requires k > 0
    ensures Blanks(k) == [Space] + Blanks(k - 1)
  {
  }

  /** A space written at a column that is a multiple of 8 puts out a tab and
      drops the spaces held back; elsewhere a space is only held back. */
  lemma SpaceStep(input: seq<Byte>)
    ensures (Column(input) + 1) % TabWidth == 0 ==>
      Entab(input + [Space]) == Entab(input) + [Tab] && Run(input + [Space]).blanks == 0
    ensures (Column(input) + 1) % TabWidth != 0 ==>
      Entab(input + [Space]) == Entab(input) && Run(input + [Space]).blanks == Run(input).blanks + 1
  {
    assert (input + [Space])[..|input|] == input;
  }

  /** Any other character is written after exactly the spaces held back, which
      are the spaces that end the input read so far; a line end starts the
      next character at column 1. */
  lemma OtherStep(input: seq<Byte>, c: Byte)
    requires c != Space
    ensures var k := Run(input).blanks;
      && k <= |input| && input[|input| - k..] == Blanks(k)
      && Entab(input + [c]) == Entab(input) + Blanks(k) + [c]
      && Run(input + [c]).blanks == 0
    ensures LineEnd(c) ==> Run(input + [c]).offset == 1 && Column(input + [c]) == 0
  {
    assert (input + [c])[..|input|] == input;
  }

  /** Every character other than a space or a tab, in order. */
  function Visible(s: seq<Byte>): seq<Byte>
  {
    if s == [] then []
    else Visible(s[..|s| - 1]) + (if s[|s| - 1] == Space || s[|s| - 1] == Tab then [] else [s[|s| - 1]])
  }

  lemma {:induction false} VisibleAppend(a: seq<Byte>, b: seq<Byte>)
    ensures Visible(a + b) == Visible(a) + Visible(b)
    decreases |b|
  {
    if b == [] {
      assert a + b == a;
    } else {
      assert (a + b)[..|a + b| - 1] == a + b[..|b| - 1];
      VisibleAppend(a, b[..|b| - 1]);
    }
  }

  lemma {:induction false} VisibleBlanks(k: nat)
    ensures Visible(Blanks(k)) == []
  {
    if k > 0 {
      assert Blanks(k)[..k - 1] == Blanks(k - 1);
      VisibleBlanks(k - 1);
    }
  }

  /** Where a reader of the copy stands: the column on the current line and
      the text seen so far with tabs shown as spaces. */
  datatype Expansion = Expansion(col: nat, text: seq<Byte>)

  /** A tab moves on to the next multiple of 8 columns, a line end back to
      column 0, anything else one column. */
  function ExpandStep(e: Expansion, c: Byte): Expansion
  {
    if c == Tab then
      var k := TabWidth - e.col % TabWidth;
      Expansion(e.col + k, e.text + Blanks(k))
    else if LineEnd(c) then Expansion(0, e.text + [c])
    else Expansion(e.col + 1, e.text + [c])
  }

  function ExpandFrom(e: Expansion, s: seq<Byte>): Expansion
  {
    if s == [] then e else ExpandStep(ExpandFrom(e, s[..|s| - 1]), s[|s| - 1])
  }

  /** A text with its tabs expanded to 8-column stops. */
  function Expand(s: seq<Byte>): seq<Byte>
  {
    ExpandFrom(Expansion(0, []), s).text
  }

  lemma {:induction false} ExpandAppend(e: Expansion, a: seq<Byte>, b: seq<Byte>)
    ensures ExpandFrom(e, a + b) == ExpandFrom(ExpandFrom(e, a), b)
    decreases |b|
  {
    if b == [] {
      assert a + b == a;
    } else {
      assert (a + b)[..|a + b| - 1] == a + b[..|b| - 1];
      ExpandAppend(e, a, b[..|b| - 1]);
    }
  }

  lemma {:induction false} ExpandBlanks(e: Expansion, k: nat)
    ensures ExpandFrom(e, Blanks(k)) == Expansion(e.col + k, e.text + Blanks(k))
  {
    if k > 0 {
      assert Blanks(k)[..k - 1] == Blanks(k - 1);
      ExpandBlanks(e, k - 1);
      assert e.text + Blanks(k - 1) + [Space] == e.text + Blanks(k) by {
        BlanksSnoc(k - 1);
      }
    }
  }

  predicate TabFree(s: seq<Byte>)
  {
    forall i :: 0 <= i < |s| ==> s[i] != Tab
  }

  /** Reading the copy with its tabs expanded gives the input less the spaces
      held back, and stands at the column the input reached before them. */
  predicate Agrees(input: seq<Byte>)
  {
    var s := Run(input);
    var e := ExpandFrom(Expansion(0, []), s.out);
    e.text + Blanks(s.blanks) == input && e.col + s.blanks == Column(input)
  }

  /** The tab put out at a tab stop covers exactly the spaces held back and
      the one just read. */
  lemma TabCovers(col: nat, b: nat, offset: nat)
    requires offset == col + b + 1 && offset % TabWidth == 0 && b < TabWidth
    ensures TabWidth - col % TabWidth == b + 1
  {
    var q := offset / TabWidth;
    assert col == TabWidth * (q - 1) + (TabWidth - 1 - b);
  }

  /** What one step writes. */
  function Emitted(s: State, c: Byte): seq<Byte>
  {
    if c != Space then Blanks(s.blanks) + [c]
    else if s.offset % TabWidth == 0 then [Tab]
    else []
  }

  lemma StepEmits(s: State, c: Byte)
    ensures Step(s, c).out == s.out + Emitted(s, c)
  {
    if c == Space && s.offset % TabWidth != 0 {
      assert s.out + [] == s.out;
    }
  }

  /** Reading one more character of the input moves the counters one step. */
  lemma RunSnoc(init: seq<Byte>, c: Byte)
    ensures Run(init + [c]) == Step(Run(init), c)
    ensures Column(init + [c]) == if LineEnd(c) then 0 else Column(init) + 1
  {
    assert (init + [c])[..|init|] == init;
  }

  /** Expanding a single character takes one step. */
  lemma ExpandOne(e: Expansion, c: Byte)
    ensures ExpandFrom(e, [c]) == ExpandStep(e, c)
  {
    assert [c][..0] == [];
  }

  /** One character keeps the agreement between the counters and a reader of
      the copy: a space on a tab stop is covered by the tab, whose width is
      the spaces held back plus one, and any other character comes after the
      spaces held back. */
  lemma AgreesStep(s: State, e: Expansion, prefix: seq<Byte>, col: nat, c: Byte)
    requires c != Tab
    requires e.text + Blanks(s.blanks) == prefix && e.col + s.blanks == col
    requires s.offset == col + 1 && s.blanks <= col % TabWidth
    ensures ExpandFrom(e, Emitted(s, c)).text + Blanks(Step(s, c).blanks) == prefix + [c]
    ensures ExpandFrom(e, Emitted(s, c)).col + Step(s, c).blanks == if LineEnd(c) then 0 else col + 1
  {
    BlanksSnoc(s.blanks);
    if c != Space {
      ExpandAppend(e, Blanks(s.blanks), [c]);
      ExpandBlanks(e, s.blanks);
      ExpandOne(Expansion(e.col + s.blanks, e.text + Blanks(s.blanks)), c);
    } else if s.offset % TabWidth == 0 {
      ExpandOne(e, Tab);
      TabCovers(e.col, s.blanks, s.offset);
    }
  }

  lemma {:induction false} ExpandRun(input: seq<Byte>)
    requires TabFree(input)
    ensures Agrees(input)
  {
    if input != [] {
      var init, c := input[..|input| - 1], input[|input| - 1];
      assert input == init + [c];
      ExpandRun(init);
      var s := Run(init);
      var e := ExpandFrom(Expansion(0, []), s.out);
      RunSnoc(init, c);
      StepEmits(s, c);
      ExpandAppend(Expansion(0, []), s.out, Emitted(s, c));
      AgreesStep(s, e, init, Column(init), c);
    }
  }

  /** For a text without tabs, expanding the copy's tabs gives the text back
      less the spaces at its end that no later character wrote out. */
  lemma Inverse(input: seq<Byte>)
    requires TabFree(input)
    ensures Run(input).blanks <= |input|
    ensures Expand(Entab(input)) == input[..|input| - Run(input).blanks]
    ensures input[|input| - Run(input).blanks..] == Blanks(Run(input).blanks)
  {
    ExpandRun(input);
  }

  /** `v_entab`: read a character at a time until end of file, holding spaces
      back and draining them one by one before the next other character. */
  method EntabFile(input: seq<Byte>) returns (out: seq<Byte>)
    ensures out == Entab(input)
  {
    var offset: nat := 1;
    var blanks: nat := 0;
    out := [];
    var i := 0;
    while i < |input|
      invariant 0 <= i <= |input|
      invariant State(offset, blanks, out) == Run(input[..i])
    {
      offset, blanks, out := Put(offset, blanks, out, input[i]);
      RunNext(input, i);
      i := i + 1;
    }
    RunAll(input);
  }

  /** Reading the next character of the input is one more step. */
  lemma RunNext(input: seq<Byte>, i: nat)
    requires i < |input|
    ensures Run(input[..i + 1]) == Step(Run(input[..i]), input[i])
  {
    assert input[..i + 1][..i] == input[..i];
  }

  lemma RunAll(input: seq<Byte>)
    ensures Run(input[..|input|]) == Run(input)
  {
    assert input[..|input|] == input;
  }

  /** The body of the copy loop for one character `c`. */
  method Put(offset: nat, blanks: nat, out: seq<Byte>, c: Byte) returns (offset': nat, blanks': nat, out': seq<Byte>)
    ensures State(offset', blanks', out') == Step(State(offset, blanks, out), c)
  {
    offset', blanks', out' := offset, blanks, out;
    if c == Space {
      blanks' := blanks' + 1;
      if offset' % TabWidth == 0 {
        out' := out' + [Tab];
        blanks' := 0;
      }
    } else {
      ghost var held := out' + Blanks(blanks');
      while blanks' > 0
        invariant out' + Blanks(blanks') == held
      {
        BlanksCons(blanks');
        out' := out' + [Space];
        blanks' := blanks' - 1;
      }
      out' := out' + [c];
      if LineEnd(c) {
        offset' := 0;
      }
    }
    offset' := offset' + 1;
  }
}
