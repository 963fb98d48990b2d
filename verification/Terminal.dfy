/** The kernel terminal: a wrapping cursor, and numbers printed digit by digit. Drawing a glyph
    is an entry in a log of cells; the pixels are not modelled. */
module Terminal {
  import opened Bits
  import opened Numerals

  type u32 = x: nat | x < 0x1_0000_0000

  const SPACE: u8 := 0x20
  const NEWLINE: u8 := 0xa
  const ZERO: u8 := 0x30

  datatype Cursor = Cursor(x: u32, y: u32)

  /** One drawn character and its cell. */
  datatype Glyph = Glyph(at: Cursor, character: u8)

  // ----- Printing as a function -----

  function Inc(n: u32): u32 {
    (n + 1) % 0x1_0000_0000
  }

  /** The cursor after one character on lines of `width` cells. */
  function Moved(c: Cursor, width: u32, character: u8): Cursor {
    var d := if character == NEWLINE then Cursor(0, Inc(c.y)) else Cursor(Inc(c.x), c.y);
    if d.x >= width then Cursor(0, Inc(d.y)) else d
  }

  function MovedBy(c: Cursor, width: u32, text: seq<u8>): Cursor
    decreases |text|
  {
    if text == [] then c else Moved(MovedBy(c, width, text[..|text| - 1]), width, text[|text| - 1])
  }

  /** What the characters of a text draw, starting at c. */
  function Drawn(c: Cursor, width: u32, text: seq<u8>): seq<Glyph>
    decreases |text|
  {
    if text == [] then []
    else
      var before, last := text[..|text| - 1], text[|text| - 1];
      Drawn(c, width, before)
      + if last == SPACE || last == NEWLINE then [] else [Glyph(MovedBy(c, width, before), last)]
  }

  lemma NoText(c: Cursor, width: u32)
    ensures MovedBy(c, width, []) == c && Drawn(c, width, []) == []
  {
  }

  lemma OneMore(c: Cursor, width: u32, log: seq<Glyph>, text: seq<u8>, k: nat)
    requires k < |text|
    ensures MovedBy(c, width, text[..k + 1]) == MovedBy(MovedBy(c, width, text[..k]), width, [text[k]])
    ensures log + Drawn(c, width, text[..k + 1])
            == log + Drawn(c, width, text[..k]) + Drawn(MovedBy(c, width, text[..k]), width, [text[k]])
  {
    assert text[..k + 1][..k] == text[..k] && [text[k]][..0] == [];
    var before, one := Drawn(c, width, text[..k]), Drawn(MovedBy(c, width, text[..k]), width, [text[k]]);
    assert log + before + one == log + (before + one);
  }

  /** The number of a cell in reading order. */
  function Cell(c: Cursor, width: u32): nat {
    c.y * width + c.x
  }

  // ----- Conservation -----

  /** On lines of at least one cell the cursor is inside its line after every character. */
  lemma CursorStaysInLine(c: Cursor, width: u32, text: seq<u8>)
    requires width >= 1 && text != []
    ensures MovedBy(c, width, text).x < width
  {
  }

  /** Printing n characters other than newline moves the cursor by exactly n cells, around the
      2^32 lines that its row number can count. */
  lemma {:induction false} CursorIsConserved(c: Cursor, width: u32, text: seq<u8>)
    requires width >= 1 && c.x < width && NEWLINE !in text
    ensures Cell(MovedBy(c, width, text), width) == (Cell(c, width) + |text|) % (0x1_0000_0000 * width)
    decreases |text|
  {
    hide Cell, Moved;
    if text == [] {
      CellInRange(c, width);
      SmallModulus(Cell(c, width), 0x1_0000_0000 * width);
    } else {
      var before := text[..|text| - 1];
      var d := MovedBy(c, width, before);
      CursorIsConserved(c, width, before);
      if before != [] {
        CursorStaysInLine(c, width, before);
      }
      OneCell(d, width, text[|text| - 1]);
      NextModulo(Cell(c, width) + |before|, 0x1_0000_0000 * width);
    }
  }

  lemma CellInRange(c: Cursor, width: u32)
    requires c.x < width
    ensures 0 <= Cell(c, width) < 0x1_0000_0000 * width
  {
    MulAtMost(c.y, 0xffff_ffff, width);
    assert 0xffff_ffff * width + width == 0x1_0000_0000 * width;
  }

  lemma OneCell(c: Cursor, width: u32, character: u8)
    requires c.x < width && character != NEWLINE
    ensures Cell(Moved(c, width, character), width) == (Cell(c, width) + 1) % (0x1_0000_0000 * width)
  {
    var total := 0x1_0000_0000 * width;
    CellInRange(c, width);
    if c.x + 1 < width {
      CellInRange(Cursor(c.x + 1, c.y), width);
      SmallModulus(Cell(c, width) + 1, total);
    } else if c.y < 0xffff_ffff {
      assert (c.y + 1) * width == c.y * width + width;
      CellInRange(Cursor(0, c.y + 1), width);
      SmallModulus(Cell(c, width) + 1, total);
    } else {
      assert Cell(c, width) + 1 == total;
      assert total % total == 0 by { DivUnique(total, total, 1, 0); }
    }
  }

  lemma NextModulo(a: nat, m: nat)
    requires m >= 1
    ensures (a % m + 1) % m == (a + 1) % m
  {
    var q, r := a / m, a % m;
    assert a == m * q + r;
    if r + 1 < m {
      DivUnique(a + 1, m, q, r + 1);
      SmallModulus(r + 1, m);
    } else {
      assert m * (q + 1) == m * q + m;
      DivUnique(a + 1, m, q + 1, 0);
      DivUnique(r + 1, m, 1, 0);
    }
  }

  /** Character k of a text without newlines is drawn, if it is not a space, in the cell k
      places after the start. */
  lemma {:induction false} TextIsInOrder(c: Cursor, width: u32, text: seq<u8>, k: nat)
    requires width >= 1 && c.x < width && NEWLINE !in text && k < |text| && text[k] != SPACE
    ensures exists g :: g in Drawn(c, width, text) && g.character == text[k]
              && Cell(g.at, width) == (Cell(c, width) + k) % (0x1_0000_0000 * width)
    decreases |text|
  {
    var before := text[..|text| - 1];
    if k < |text| - 1 {
      TextIsInOrder(c, width, before, k);
      var g :| g in Drawn(c, width, before) && g.character == before[k]
        && Cell(g.at, width) == (Cell(c, width) + k) % (0x1_0000_0000 * width);
      assert g in Drawn(c, width, text);
    } else {
      CursorIsConserved(c, width, before);
      assert Glyph(MovedBy(c, width, before), text[k]) in Drawn(c, width, text);
    }
  }

  // ----- Lines -----

  /** A newline moves to the first cell of the next line, around the last line of the counter. */
  lemma NewlineStartsALine(c: Cursor, width: u32)
    requires width >= 1 && c.x < width
    ensures Moved(c, width, 0xa).x == 0
    ensures Cell(Moved(c, width, 0xa), width) == (Cell(c, width) - c.x + width) % (0x1_0000_0000 * width)
  {
    NextRow(c.y, width);
  }

  lemma NextRow(y: u32, width: u32)
    requires width >= 1
    ensures Inc(y) * width == (y * width + width) % (0x1_0000_0000 * width)
  {
    var total := 0x1_0000_0000 * width;
    assert (y + 1) * width == y * width + width;
    if y < 0xffff_ffff {
      MulAtMost(y + 1, 0xffff_ffff, width);
      assert 0xffff_ffff * width + width == total;
      SmallModulus(y * width + width, total);
    } else {
      DivUnique(total, total, 1, 0);
    }
  }

  lemma {:induction false} MovedByAppend(c: Cursor, width: u32, a: seq<u8>, b: seq<u8>)
    ensures MovedBy(c, width, a + b) == MovedBy(MovedBy(c, width, a), width, b)
    decreases |b|
  {
    if b == [] {
      assert a + b == a;
    } else {
      assert (a + b)[..|a + b| - 1] == a + b[..|b| - 1];
      MovedByAppend(c, width, a, b[..|b| - 1]);
    }
  }

  /** Over any text: what follows the last newline stands on one line (and its continuations),
      from the first cell on, below the line where the newline was printed. */
  lemma TextAfterNewline(c: Cursor, width: u32, before: seq<u8>, line: seq<u8>)
    requires width >= 1 && c.x < width && NEWLINE !in line
    ensures var d := MovedBy(c, width, before);
            Cell(MovedBy(c, width, before + [0xa] + line), width)
            == (Cell(d, width) - d.x + width + |line|) % (0x1_0000_0000 * width)
  {
    hide Cell, Moved, MovedBy;
    var total := 0x1_0000_0000 * width;
    var d := MovedBy(c, width, before);
    MovedByOne(c, width);
    if before != [] {
      CursorStaysInLine(c, width, before);
    }
    var e := Moved(d, width, NEWLINE);
    NewlineStartsALine(d, width);
    MovedByAppend(c, width, before, [NEWLINE]);
    MovedByAppend(c, width, before + [NEWLINE], line);
    MovedByOne(d, width);
    CursorIsConserved(e, width, line);
    LineStart(d, width);
    ModuloOfSum(Cell(d, width) - d.x + width, |line|, total);
  }

  lemma MovedByOne(c: Cursor, width: u32)
    ensures MovedBy(c, width, []) == c
    ensures MovedBy(c, width, [NEWLINE]) == Moved(c, width, NEWLINE)
  {
    assert [NEWLINE][..0] == [];
  }

  lemma LineStart(c: Cursor, width: u32)
    ensures Cell(c, width) - c.x >= 0
  {
    MulAtMost(0, c.y, width);
  }

  lemma ModuloOfSum(a: nat, k: nat, m: nat)
    requires m >= 1
    ensures (a % m + k) % m == (a + k) % m
  {
    var q, r := a / m, a % m;
    assert a == m * q + r;
    var x := r + k;
    assert a + k == m * (q + x / m) + x % m;
    DivUnique(a + k, m, q + x / m, x % m);
  }

  predicate Visible(character: u8) {
    character != 0x20 && character != 0xa
  }

  function VisibleCount(text: seq<u8>): nat
    decreases |text|
  {
    if text == [] then 0
    else VisibleCount(text[..|text| - 1]) + if Visible(text[|text| - 1]) then 1 else 0
  }

  /** The log is exactly the visible characters in their order, each at the cursor that the text
      before it leads to, newlines included. */
  lemma {:induction false} DrawnExactly(c: Cursor, width: u32, text: seq<u8>, k: nat)
    requires k < |text|
    ensures |Drawn(c, width, text)| == VisibleCount(text)
    ensures Visible(text[k]) ==>
              && VisibleCount(text[..k]) < |Drawn(c, width, text)|
              && Drawn(c, width, text)[VisibleCount(text[..k])] == Glyph(MovedBy(c, width, text[..k]), text[k])
    decreases |text|
  {
    hide MovedBy;
    var before := text[..|text| - 1];
    if before == [] {
      assert text[..0] == before && Drawn(c, width, before) == [];
    } else if k < |before| {
      DrawnExactly(c, width, before, k);
      assert before[..k] == text[..k];
    } else {
      DrawnExactly(c, width, before, 0);
      assert text[..k] == before;
    }
  }

  /** On a screen narrower than one cell every character ends its line, and a newline two. */
  lemma {:induction false} NoColumns(c: Cursor, text: seq<u8>)
    requires text != []
    ensures MovedBy(c, 0, text).x == 0
    ensures MovedBy(c, 0, text).y == (c.y + |text| + NewlineCount(text)) % 0x1_0000_0000
    decreases |text|
  {
    hide NewlineCount, Inc;
    var before := text[..|text| - 1];
    NewlineCountMore(text);
    if before != [] {
      NoColumns(c, before);
    } else {
      SmallModulus(c.y, 0x1_0000_0000);
    }
    var lines := c.y + |before| + NewlineCount(before);
    NextModulo(lines, 0x1_0000_0000);
    NextModulo(lines + 1, 0x1_0000_0000);
    NoColumnsStep(MovedBy(c, 0, before), text[|text| - 1]);
  }

  lemma NoColumnsStep(c: Cursor, character: u8)
    ensures var once := (c.y + 1) % 0x1_0000_0000;
            Moved(c, 0, character) == Cursor(0, if character == 0xa then (once + 1) % 0x1_0000_0000 else once)
  {
  }

  function NewlineCount(text: seq<u8>): nat
    decreases |text|
  {
    if text == [] then 0 else NewlineCount(text[..|text| - 1]) + if text[|text| - 1] == 0xa then 1 else 0
  }

  lemma NewlineCountMore(text: seq<u8>)
    requires text != []
    ensures NewlineCount(text) == NewlineCount(text[..|text| - 1]) + if text[|text| - 1] == 0xa then 1 else 0
    ensures NewlineCount([]) == 0
  {
  }

  // ----- Numerals -----

  /** '0' to '9', then 'A' to 'F'. */
  function DigitChar(d: nat): u8
    requires d < 16
  {
    if d < 10 then 0x30 + d else 55 + d
  }

  function CharDigit(c: u8): nat {
    if 0x30 <= c < 0x3a then c - 0x30 else if c >= 55 then c - 55 else 0
  }

  function Numeral(n: nat, base: nat): (t: seq<u8>)
    requires 2 <= base <= 16
    ensures |t| == |Digits(n, base)|
  {
    var d := Digits(n, base);
    seq(|d|, i requires 0 <= i < |d| => DigitChar(d[i]))
  }

  function Parsed(t: seq<u8>, base: nat): nat {
    Value(seq(|t|, i requires 0 <= i < |t| => CharDigit(t[i])), base)
  }

  /** What is printed for n reads back as n, has no leading zero, and needs at most 10 characters
      in base 10 for 32 bits and 16 in base 16 for 64 bits. */
  lemma NumeralReadsBack(n: nat, base: nat)
    requires 2 <= base <= 16
    ensures Parsed(Numeral(n, base), base) == n
    ensures Numeral(n, base)[0] == ZERO ==> n == 0 && |Numeral(n, base)| == 1
    ensures forall i | 0 <= i < |Numeral(n, base)| ::
              var d := Digits(n, base)[i];
              Numeral(n, base)[i] == if d < 10 then '0' as nat + d else 'A' as nat + (d - 10)
    ensures NEWLINE !in Numeral(n, base) && SPACE !in Numeral(n, base)
    ensures base == 10 && n < 0x1_0000_0000 ==> |Numeral(n, base)| <= 10
    ensures base == 16 && n < TWO_64 ==> |Numeral(n, base)| <= 16
  {
    var d, t := Digits(n, base), Numeral(n, base);
    DigitsRoundTrip(n, base);
    assert seq(|t|, i requires 0 <= i < |t| => CharDigit(t[i])) == d;
    NumeralFits(n, base);
  }

  /** Printing a number moves the cursor by the number of its digits. */
  lemma NumeralAdvances(c: Cursor, width: u32, n: nat, base: nat)
    requires 2 <= base <= 16 && width >= 1 && c.x < width
    ensures Cell(MovedBy(c, width, Numeral(n, base)), width)
            == (Cell(c, width) + |Digits(n, base)|) % (0x1_0000_0000 * width)
  {
    hide MovedBy, Cell, Digits, Numeral, Parsed;
    NumeralReadsBack(n, base);
    CursorIsConserved(c, width, Numeral(n, base));
  }

  lemma NumeralFits(n: nat, base: nat)
    requires 2 <= base <= 16
    ensures base == 10 && n < 0x1_0000_0000 ==> |Numeral(n, base)| <= 10
    ensures base == 16 && n < TWO_64 ==> |Numeral(n, base)| <= 16
  {
    if base == 10 && n < 0x1_0000_0000 {
      TenDigits();
      DigitCount(n, 10, 10);
    }
    if base == 16 && n < TWO_64 {
      SixteenDigits();
      DigitCount(n, 16, 16);
    }
  }

  lemma TenDigits()
    ensures Power(10, 10) == 10_000_000_000
  {
  }

  lemma SixteenDigits()
    ensures Power(16, 16) == TWO_64
  {
    assert Power(16, 8) == 0x1_0000_0000;
  }

  // ----- The terminal in place -----

  class Console {
    var x: u32
    var y: u32
    var maxHorizontal: u32
    var maxVertical: u32
    /** What was drawn since the terminal was set up. */
    var drawn: seq<Glyph>

    const FONT_HEIGHT: u32 := 40
    const FONT_WIDTH: u32 := 40

    constructor (inVertical: u32, inHorizontal: u32)
      ensures Here() == Cursor(0, 0) && drawn == []
      ensures maxHorizontal == inHorizontal / 40 && maxVertical == inVertical / 40
    {
      x, y := 0, 0;
      maxVertical := inVertical / FONT_HEIGHT;
      maxHorizontal := inHorizontal / FONT_WIDTH;
      drawn := [];
    }

    function Here(): Cursor
      reads this
    {
      Cursor(x, y)
    }

    /** From the old state the terminal has printed a text and done nothing else. */
    twostate predicate Printed(text: seq<u8>)
      reads this
    {
      && Here() == MovedBy(old(Here()), maxHorizontal, text)
      && drawn == old(drawn) + Drawn(old(Here()), maxHorizontal, text)
      && maxHorizontal == old(maxHorizontal) && maxVertical == old(maxVertical)
    }

    method PrintChar(character: u8)
      modifies this
      ensures Printed([character])
    {
      assert [character][..0] == [];
      if character == 0x20 {
        x := Inc(x);
      } else if character == 0xa {
        y := Inc(y);
        x := 0;
      } else {
        drawn := drawn + [Glyph(Cursor(x, y), character)];
        x := Inc(x);
      }
      if x >= maxHorizontal {
        y := Inc(y);
        x := 0;
      }
    }

    /** The second loop of PrintNum and PrintHex: the buffer holds the numeral back to front. */
    method PrintReversed(numstring: array<u8>, numsize: nat, ghost text: seq<u8>)
      requires numsize == |text| <= numstring.Length
      requires Backwards(numstring[..numsize], text)
      modifies this
      ensures Printed(text)
    {
      hide MovedBy, Drawn;
      NoText(Here(), maxHorizontal);
      var i := numsize;
      while i > 0
        invariant 0 <= i <= numsize
        invariant Here() == MovedBy(old(Here()), maxHorizontal, text[..numsize - i])
        invariant drawn == old(drawn) + Drawn(old(Here()), maxHorizontal, text[..numsize - i])
        invariant maxHorizontal == old(maxHorizontal) && maxVertical == old(maxVertical)
      {
        OneMore(old(Here()), maxHorizontal, old(drawn), text, numsize - i);
        assert numstring[numsize - 1 - (numsize - i)] == text[numsize - i];
        PrintChar(numstring[i - 1]);
        i := i - 1;
      }
      assert text[..numsize] == text;
    }

    method PrintNum(n: u32)
      modifies this
      ensures Printed(Numeral(n, 10))
    {
      hide MovedBy, Drawn, Digits, Numeral, Buffered, Backwards, DigitChar, StillToSplit;
      ghost var text := Numeral(n, 10);
      NumeralFits(n, 10);
      NothingSplit(n, 10);
      if n == 0 {
        ZeroNumeral(10);
        PrintChar(0x30);
        return;
      }
      var numstring := new u8[10];
      var numsize := 0;
      var number := n;
      ghost var tail: seq<nat> := [];
      BufferNone(numstring[..0]);
      while number != 0
        modifies numstring
        invariant numsize == |tail| <= 10 && numstring.Length == 10
        invariant StillToSplit(n, 10, number, tail)
        invariant Buffered(numstring[..numsize], tail)
      {
        SplitDigits(n, 10, number, tail);
        ghost var buffered, digit := numstring[..numsize], number % 10;
        BufferOne(buffered, tail, digit);
        DecimalChar(digit);
        tail := [digit] + tail;
        numstring[numsize] := number % 10 + 0x30;
        number := number / 10;
        numsize := numsize + 1;
        assert numstring[..numsize] == buffered + [digit + 0x30];
      }
      AllSplit(n, 10, tail);
      BufferedNumeral(numstring[..numsize], n, 10);
      PrintReversed(numstring, numsize, text);
    }

    /** The middle of the loop of PrintHex: a digit becomes its character. */
    method StoreHexDigit(numstring: array<u8>, numsize: nat, digit: u8)
      requires numsize < numstring.Length && digit < 16
      modifies numstring
      ensures numstring[..numsize + 1] == old(numstring[..numsize]) + [DigitChar(digit)]
    {
      hide DigitChar;
      HexChar(digit);
      numstring[numsize] := digit;
      if numstring[numsize] < 10 {
        numstring[numsize] := numstring[numsize] + 0x30;
      } else {
        numstring[numsize] := numstring[numsize] + 55;
      }
    }

    method PrintHex(n: u64)
      modifies this
      ensures Printed(Numeral(n, 16))
    {
      hide MovedBy, Drawn, Digits, Numeral, Buffered, Backwards, DigitChar, StillToSplit;
      ghost var text := Numeral(n, 16);
      NumeralFits(n, 16);
      NothingSplit(n, 16);
      if n == 0 {
        ZeroNumeral(16);
        PrintChar(0x30);
        return;
      }
      var numstring := new u8[16];
      var numsize := 0;
      var number := n;
      ghost var tail: seq<nat> := [];
      BufferNone(numstring[..0]);
      while number != 0
        modifies numstring
        invariant numsize == |tail| <= 16 && numstring.Length == 16
        invariant StillToSplit(n, 16, number, tail)
        invariant Buffered(numstring[..numsize], tail)
      {
        ghost var buffered, digit := numstring[..numsize], number % 16;
        SplitDigits(n, 16, number, tail);
        BufferOne(buffered, tail, digit);
        tail := [digit] + tail;
        StoreHexDigit(numstring, numsize, number % 0x10);
        number := number / 0x10;
        numsize := numsize + 1;
      }
      AllSplit(n, 16, tail);
      BufferedNumeral(numstring[..numsize], n, 16);
      PrintReversed(numstring, numsize, text);
    }

    /** Prints a NUL-terminated string up to its terminator. */
    method PrintString(s: seq<u8>)
      requires 0 in s && |s| < 0x8000_0000
      modifies this
      ensures Printed(UpToNul(s))
    {
      hide MovedBy, Drawn;
      NoText(Here(), maxHorizontal);
      var length := StrLen(s);
      ghost var text := UpToNul(s);
      var i := 0;
      while i < length
        invariant 0 <= i <= length == |text|
        invariant Here() == MovedBy(old(Here()), maxHorizontal, text[..i])
        invariant drawn == old(drawn) + Drawn(old(Here()), maxHorizontal, text[..i])
        invariant maxHorizontal == old(maxHorizontal) && maxVertical == old(maxVertical)
      {
        OneMore(old(Here()), maxHorizontal, old(drawn), text, i);
        NulPrefix(s, i);
        PrintChar(s[i]);
        i := i + 1;
      }
      assert text[..length] == text;
    }
  }

  /** The part of a string before its first NUL. */
  function UpToNul(s: seq<u8>): (t: seq<u8>)
    ensures |t| <= |s|
  {
    if s == [] || s[0] == 0 then [] else [s[0]] + UpToNul(s[1..])
  }

  lemma {:induction false} NulPrefix(s: seq<u8>, i: nat)
    requires i <= |UpToNul(s)|
    ensures i < |UpToNul(s)| ==> s[i] == UpToNul(s)[i] && s[i] != 0
    ensures i == |UpToNul(s)| ==> i == |s| || s[i] == 0
    decreases |s|
  {
    if s != [] && s[0] != 0 && i > 0 {
      NulPrefix(s[1..], i - 1);
    }
  }

  method StrLen(s: seq<u8>) returns (n: nat)
    requires 0 in s
    ensures n == |UpToNul(s)| && n < |s| && s[n] == 0 && 0 !in s[..n]
  {
    n := 0;
    NulPrefix(s, 0);
    while s[n] != 0
      invariant n < |s| && n <= |UpToNul(s)| && 0 !in s[..n]
      invariant s[n] == 0 <==> n == |UpToNul(s)|
      decreases |s| - n
    {
      n := n + 1;
      NulPrefix(s, n);
    }
  }

  /** The buffer holds the text from its end. */
  predicate Backwards(buffer: seq<u8>, text: seq<u8>) {
    |buffer| == |text| && forall k | 0 <= k < |text| :: buffer[|text| - 1 - k] == text[k]
  }

  /** The buffer holds the characters of some digits from their end. */
  predicate Buffered(buffer: seq<u8>, digits: seq<nat>) {
    |buffer| == |digits|
    && forall k | 0 <= k < |digits| :: digits[k] < 16 && buffer[|digits| - 1 - k] == DigitChar(digits[k])
  }

  lemma BufferNone(buffer: seq<u8>)
    requires buffer == []
    ensures Buffered(buffer, [])
  {
  }

  lemma BufferOne(buffer: seq<u8>, digits: seq<nat>, d: nat)
    requires Buffered(buffer, digits) && d < 16
    ensures Buffered(buffer + [DigitChar(d)], [d] + digits)
    ensures |buffer| == |digits|
  {
  }

  lemma BufferedNumeral(buffer: seq<u8>, n: nat, base: nat)
    requires 2 <= base <= 16 && Buffered(buffer, Digits(n, base))
    ensures Backwards(buffer, Numeral(n, base))
  {
  }

  lemma DecimalChar(d: nat)
    requires d < 10
    ensures d + 0x30 == DigitChar(d)
  {
  }

  lemma HexChar(d: nat)
    requires d < 16
    ensures (if d < 10 then d + 0x30 else d + 55) == DigitChar(d)
  {
  }

  lemma ZeroNumeral(base: nat)
    requires 2 <= base <= 16
    ensures Numeral(0, base) == [ZERO]
  {
    assert Digits(0, base) == [0];
  }

  /** The digits of n are those of `number`, if it is not 0, and the tail. */
  predicate StillToSplit(n: nat, base: nat, number: nat, tail: seq<nat>)
    requires base >= 2
  {
    Digits(n, base) == (if number == 0 then [] else Digits(number, base)) + tail
  }

  lemma NothingSplit(n: nat, base: nat)
    requires base >= 2
    ensures n != 0 ==> StillToSplit(n, base, n, [])
  {
    assert Digits(n, base) + [] == Digits(n, base);
  }

  lemma AllSplit(n: nat, base: nat, tail: seq<nat>)
    requires base >= 2 && StillToSplit(n, base, 0, tail)
    ensures Digits(n, base) == tail
  {
  }

  lemma SplitDigits(n: nat, base: nat, number: nat, tail: seq<nat>)
    requires base >= 2 && number >= 1 && StillToSplit(n, base, number, tail)
    ensures 0 <= number / base < number
    ensures StillToSplit(n, base, number / base, [number % base] + tail)
    ensures |tail| < |Digits(n, base)|
  {
    QuotientIsLess(number, base);
    if number < base {
      DivUnique(number, base, 0, number);
    } else {
      QuotientPositive(number, base);
      var high := Digits(number / base, base);
      assert high + [number % base] + tail == high + ([number % base] + tail);
    }
  }
}
