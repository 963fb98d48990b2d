/** What the formatter of the boot stub prints, as a function from a format and its arguments
    to a stream of characters and attribute changes. */
module FormatSpec {
  import opened Bits
  import opened Numerals

  type CHAR16 = x: nat | x < 0x1_0000

  const NUL: CHAR16 := 0
  const LF: CHAR16 := 0xa
  const CR: CHAR16 := 0xd
  const BLANK: CHAR16 := 0x20
  const PERCENT: CHAR16 := 0x25

  /** `(UINTN) -1`: no field width. */
  const NONE: u64 := 0xFFFF_FFFF_FFFF_FFFF

  /** One element of the output: a character, or a change of the text attribute. */
  datatype Tok = Ch(c: CHAR16) | Attribute(a: u64)

  /** A variadic argument: an integer or pointer passed to a converter, or a string (a null
      pointer is None). */
  datatype Arg = Word(w: u64) | Str(text: Option)
  datatype Option = None | Some(text: seq<CHAR16>)

  /** The attributes of the output device, whether it can be told an attribute, and the
      converters of numbers, times, status codes and so on to text: directive letter, comma
      flag, long flag and argument. */
  datatype Config = Config(norm: u64, highlight: u64, error: u64, canSet: bool,
                           convert: (char, bool, bool, u64) -> seq<CHAR16>)

  // ----- Strings -----

  /** A string up to its first NUL. */
  function CString(s: seq<CHAR16>): (t: seq<CHAR16>)
    ensures |t| <= |s| && NUL !in t
    ensures forall i | 0 <= i < |t| :: t[i] == s[i]
    ensures |t| < |s| ==> s[|t|] == NUL
  {
    if s == [] || s[0] == NUL then [] else [s[0]] + CString(s[1..])
  }

  /** A NUL after NUL-free characters ends the string there. */
  lemma {:induction false} CStringEnds(s: seq<CHAR16>, p: nat)
    requires p <= |s| && NUL !in s[..p] && (p < |s| ==> s[p] == NUL)
    ensures CString(s) == s[..p]
    decreases p
  {
    if p > 0 {
      assert s[1..][..p - 1] == s[..p][1..];
      assert s[0] == s[..p][0];
      CStringEnds(s[1..], p - 1);
    }
  }

  function Repeated(c: CHAR16, n: nat): seq<CHAR16> {
    seq(n, _ => c)
  }

  function Chars(s: seq<CHAR16>): seq<Tok> {
    seq(|s|, i requires 0 <= i < |s| => Ch(s[i]))
  }

  function Ascii(s: string): seq<CHAR16>
    requires forall i | 0 <= i < |s| :: s[i] as nat < 0x80
  {
    seq(|s|, i requires 0 <= i < |s| => s[i] as nat)
  }

  // ----- Items -----

  /** The state of one directive while it is read. */
  datatype Item = Item(fieldWidth: u64, width: u64, toField: bool, pad: CHAR16, padBefore: bool, comma: bool, long: bool)

  const FRESH_ITEM := Item(NONE, 0, false, BLANK, true, false, false)

  /** The part of an item's text that is printed: cut at the field width, if there is one. */
  function Cut(it: Item, text: seq<CHAR16>): seq<CHAR16> {
    var t := CString(text);
    if |t| > it.fieldWidth then t[..it.fieldWidth] else t
  }

  function Max(a: nat, b: nat): nat {
    if a >= b then a else b
  }

  /** The columns of an item, blanks to the field width on one side and pad characters always in
      front of the text. */
  function Columns(it: Item, text: seq<CHAR16>): seq<CHAR16> {
    var t := Cut(it, text);
    var field := if it.fieldWidth == NONE then |t| else it.fieldWidth;
    var width := Max(it.width, |t|);
    var blanks := Repeated(BLANK, if field > width then field - width else 0);
    (if it.padBefore then blanks else []) + Repeated(it.pad, width - |t|) + t + if it.padBefore then [] else blanks
  }

  // ----- Reading a directive -----

  function Letter(c: CHAR16): char {
    if c < 0x80 then c as char else '?'
  }

  predicate IsDigit(c: CHAR16) {
    0x30 <= c <= 0x39
  }

  /** A decimal number in a format, in 64-bit arithmetic, and the index after it. */
  function Number(fmt: seq<CHAR16>, i: nat, value: u64): (r: (u64, nat))
    requires i <= |fmt|
    ensures i <= r.1 <= |fmt|
    decreases |fmt| - i
  {
    if i < |fmt| && IsDigit(fmt[i]) then Number(fmt, i + 1, (value * 10 + (fmt[i] - 0x30)) % 0x1_0000_0000_0000_0000)
    else (value, i)
  }

  function WithWidth(it: Item, w: u64): Item {
    if it.toField then it.(fieldWidth := w) else it.(width := w)
  }

  /** The next argument as a word, and the arguments after it. */
  function NextWord(args: seq<Arg>): (u64, seq<Arg>) {
    if args == [] then (0, []) else (if args[0].Word? then args[0].w else 0, args[1..])
  }

  /** The next argument as a string; a null pointer prints as "(null)". */
  function NextText(args: seq<Arg>): (seq<CHAR16>, seq<Arg>) {
    if args == [] then (Ascii("(null)"), [])
    else (if args[0].Str? && args[0].text.Some? then args[0].text.text else Ascii("(null)"), args[1..])
  }

  /** What one character of a directive says: a flag, an attribute for this field, an attribute
      for good, or an item to print. */
  datatype Sign =
    | Flag(it: Item, args: seq<Arg>, next: nat)
    | Lower(attr: u64)
    | Upper(attr: u64)
    | Print(it: Item, text: seq<CHAR16>, args: seq<Arg>)

  function Converted(cfg: Config, letter: char, it: Item, args: seq<Arg>): Sign {
    var (w, rest) := NextWord(args);
    Print(it, cfg.convert(letter, it.comma, it.long, w), rest)
  }

  /** The letters that complete a directive with an item to print. */
  function ReadItem(letter: char, it: Item, args: seq<Arg>, cfg: Config): (sign: Sign)
    ensures sign.Print?
  {
    match letter
    case '%' => Print(it, [PERCENT], args)
    case 'a' => Print(it, NextText(args).0, NextText(args).1)
    case 'c' => Print(it, [NextWord(args).0 % 0x1_0000], NextWord(args).1)
    case 'D' =>
      var text := CString(cfg.convert('D', it.comma, it.long, NextWord(args).0));
      Print(it, if |text| > 99 then text[..99] else text, NextWord(args).1)
    case 'd' => Converted(cfg, 'd', it, args)
    case 'f' => Converted(cfg, 'f', it, args)
    case 'g' => Converted(cfg, 'g', it, args)
    case 'p' =>
      var (w, rest) := NextWord(args);
      Print(it.(width := 0, pad := 0x30), Ascii("0x") + cfg.convert('x', it.comma, it.long, w), rest)
    case 'r' => Converted(cfg, 'r', it, args)
    case 's' => Print(it, NextText(args).0, NextText(args).1)
    case 't' => Converted(cfg, 't', it, args)
    case 'u' => Converted(cfg, 'u', it, args)
    case 'X' => Converted(cfg, 'x', it.(width := if it.long then 16 else 8, pad := 0x30), args)
    case 'x' => Converted(cfg, 'x', it, args)
    case _ => Print(it, [0x3f], args)
  }

  function Read(fmt: seq<CHAR16>, i: nat, it: Item, args: seq<Arg>, cfg: Config): (sign: Sign)
    requires i < |fmt|
    ensures sign.Flag? ==> i < sign.next <= |fmt|
  {
    match Letter(fmt[i])
    case ',' => Flag(it.(comma := true), args, i + 1)
    case '-' => Flag(it.(padBefore := false), args, i + 1)
    case '*' => Flag(WithWidth(it, NextWord(args).0), NextWord(args).1, i + 1)
    case '.' => Flag(it.(toField := true), args, i + 1)
    case '0' => Flag(it.(pad := 0x30), args, i + 1)
    case 'E' => Upper(cfg.error)
    case 'e' => Lower(cfg.error)
    case 'H' => Upper(cfg.highlight)
    case 'h' => Lower(cfg.highlight)
    case 'l' => Flag(it.(long := true), args, i + 1)
    case 'N' => Upper(cfg.norm)
    case 'n' => Lower(cfg.norm)
    case letter =>
      if IsDigit(fmt[i]) then Flag(WithWidth(it, Number(fmt, i, 0).0), args, Number(fmt, i, 0).1)
      else ReadItem(letter, it, args, cfg)
  }

  // ----- Directives and formats -----

  /** A directive that runs into the end of the format never closes. */
  datatype Directed = Unclosed | Closed(next: nat, toks: seq<Tok>, args: seq<Arg>, attr: u64)

  function AttrTok(cfg: Config, a: u64): seq<Tok> {
    if cfg.canSet then [Attribute(a)] else []
  }

  function Before(toks: seq<Tok>, d: Directed): (r: Directed)
    ensures r.Closed? == d.Closed? && (d.Closed? ==> r.next == d.next)
  {
    if d.Unclosed? then d else d.(toks := toks + d.toks)
  }

  /** The end of a directive that printed an item: an attribute for this field is taken back. */
  function Restored(cfg: Config, next: nat, toks: seq<Tok>, args: seq<Arg>, attr: u64, restore: u64): (r: Directed)
    ensures r.Closed? && r.next == next
  {
    if restore != 0 then Closed(next, toks + AttrTok(cfg, restore), args, restore)
    else Closed(next, toks, args, attr)
  }

  function Directive(fmt: seq<CHAR16>, i: nat, it: Item, args: seq<Arg>, attr: u64, restore: u64, cfg: Config)
    : (d: Directed)
    requires i <= |fmt|
    ensures d.Closed? ==> i < d.next <= |fmt|
    decreases |fmt| - i
  {
    if i == |fmt| then Unclosed
    else match Read(fmt, i, it, args, cfg)
      case Flag(it', args', next) => Directive(fmt, next, it', args', attr, restore, cfg)
      case Lower(a) => Before(AttrTok(cfg, a), Directive(fmt, i + 1, it, args, a, attr, cfg))
      case Upper(a) =>
        if a != 0 then Closed(i + 1, AttrTok(cfg, a), args, a)
        else Directive(fmt, i + 1, it, args, attr, restore, cfg)
      case Print(it', text, args') =>
        Restored(cfg, i + 1, Chars(Columns(it', text)), args', attr, restore)
  }

  /** The output of a whole format and the attribute at its end; a format whose last directive
      does not close makes the formatter read past the end of the format. */
  datatype Formatted = Overrun | Done(toks: seq<Tok>, attr: u64)

  function After(toks: seq<Tok>, f: Formatted): Formatted {
    if f.Overrun? then f else f.(toks := toks + f.toks)
  }

  function Format(fmt: seq<CHAR16>, i: nat, args: seq<Arg>, attr: u64, cfg: Config): Formatted
    requires i <= |fmt|
    decreases |fmt| - i
  {
    if i == |fmt| then Done([], attr)
    else if fmt[i] != PERCENT then After([Ch(fmt[i])], Format(fmt, i + 1, args, attr, cfg))
    else
      match Directive(fmt, i + 1, FRESH_ITEM, args, attr, 0, cfg)
      case Unclosed => Overrun
      case Closed(next, toks, args', attr') => After(toks, Format(fmt, next, args', attr', cfg))
  }

  // ----- What the parser reads -----

  /** The longest run of digits from i on. */
  function DigitRun(fmt: seq<CHAR16>, i: nat): seq<nat>
    requires i <= |fmt|
    decreases |fmt| - i
  {
    if i < |fmt| && IsDigit(fmt[i]) then [fmt[i] - 0x30] + DigitRun(fmt, i + 1) else []
  }

  /** A width in a format is the number that its longest run of digits stands for, in 64 bits. */
  lemma {:induction false} NumberIsTheDigitRun(fmt: seq<CHAR16>, i: nat, before: seq<nat>, value: u64)
    requires i <= |fmt| && value == Value(before, 10) % 0x1_0000_0000_0000_0000
    ensures Number(fmt, i, value).0 == Value(before + DigitRun(fmt, i), 10) % 0x1_0000_0000_0000_0000
    ensures Number(fmt, i, value).1 == i + |DigitRun(fmt, i)|
    decreases |fmt| - i
  {
    hide Value;
    if i < |fmt| && IsDigit(fmt[i]) {
      var d := fmt[i] - 0x30;
      ValueOfOneMore(before, d, 10);
      NextValue(Value(before, 10), d);
      NumberIsTheDigitRun(fmt, i + 1, before + [d], (value * 10 + d) % 0x1_0000_0000_0000_0000);
      assert before + [d] + DigitRun(fmt, i + 1) == before + DigitRun(fmt, i);
    } else {
      assert before + [] == before;
    }
  }

  lemma NextValue(v: nat, d: nat)
    ensures (v % 0x1_0000_0000_0000_0000 * 10 + d) % 0x1_0000_0000_0000_0000 == (v * 10 + d) % 0x1_0000_0000_0000_0000
  {
    var m := 0x1_0000_0000_0000_0000;
    var q, r := v / m, v % m;
    var x := r * 10 + d;
    assert v * 10 + d == m * (10 * q + x / m) + x % m;
    DivUnique(v * 10 + d, m, 10 * q + x / m, x % m);
  }

  /** A format without directives prints itself. */
  lemma {:induction false} PlainFormat(fmt: seq<CHAR16>, i: nat, args: seq<Arg>, attr: u64, cfg: Config)
    requires i <= |fmt| && PERCENT !in fmt
    ensures Format(fmt, i, args, attr, cfg) == Done(Chars(fmt[i..]), attr)
    decreases |fmt| - i
  {
    if i < |fmt| {
      PlainFormat(fmt, i + 1, args, attr, cfg);
      assert Chars(fmt[i..]) == [Ch(fmt[i])] + Chars(fmt[i + 1..]);
    }
  }

  // ----- Items: how many columns, and which -----

  /** An item takes as many columns as the largest of its width, its field width and its text. */
  lemma ColumnCount(it: Item, text: seq<CHAR16>)
    ensures |Columns(it, text)|
            == Max(Max(it.width, |Cut(it, text)|), if it.fieldWidth == NONE then 0 else it.fieldWidth)
    ensures |Cut(it, text)| == if |CString(text)| > it.fieldWidth then it.fieldWidth else |CString(text)|
  {
  }

  /** The flag for justifying on the left only moves the blanks that fill a field width. Without
      a field width above the width and the text it changes nothing: padding to the width stays
      in front of the text. */
  lemma LeftJustifyNeedsAFieldWidth(it: Item, text: seq<CHAR16>)
    requires it.fieldWidth == NONE || it.fieldWidth <= Max(it.width, |Cut(it, text)|)
    ensures Columns(it.(padBefore := true), text) == Columns(it.(padBefore := false), text)
    ensures Columns(it, text) == Repeated(it.pad, Max(it.width, |Cut(it, text)|) - |Cut(it, text)|) + Cut(it, text)
  {
    hide Cut, Columns;
    CutIgnoresJustification(it, text, true);
    CutIgnoresJustification(it, text, false);
    NoBlanks(it.(padBefore := true), text);
    NoBlanks(it.(padBefore := false), text);
    NoBlanks(it, text);
  }

  lemma CutIgnoresJustification(it: Item, text: seq<CHAR16>, left: bool)
    ensures Cut(it.(padBefore := left), text) == Cut(it, text)
  {
  }

  lemma NoBlanks(it: Item, text: seq<CHAR16>)
    requires it.fieldWidth == NONE || it.fieldWidth <= Max(it.width, |Cut(it, text)|)
    ensures Columns(it, text) == Repeated(it.pad, Max(it.width, |Cut(it, text)|) - |Cut(it, text)|) + Cut(it, text)
  {
    hide CString, Cut;
    var t := Cut(it, text);
    var pads := Repeated(it.pad, Max(it.width, |t|) - |t|);
    assert Repeated(BLANK, 0) == [];
    assert [] + pads + t + [] == pads + t;
  }

  /** The flag for justifying on the left puts the text first exactly when the text already fills
      the width, or cannot be told from its padding. */
  lemma MinusJustifiesLeft(it: Item, text: seq<CHAR16>)
    requires !it.padBefore
    ensures var t := Cut(it, text);
            t <= Columns(it, text) <==> |t| >= it.width || forall k | 0 <= k < |t| :: t[k] == it.pad
  {
    hide Cut;
    var t := Cut(it, text);
    var n := Max(it.width, |t|) - |t|;
    var field := if it.fieldWidth == NONE then |t| else it.fieldWidth;
    var blanks := Repeated(BLANK, if field > n + |t| then field - (n + |t|) else 0);
    assert Columns(it, text) == Repeated(it.pad, n) + t + blanks;
    PrefixAfterPadding(it.pad, n, t, blanks);
  }

  lemma PrefixAfterPadding(pad: CHAR16, n: nat, t: seq<CHAR16>, tail: seq<CHAR16>)
    ensures t <= Repeated(pad, n) + t + tail <==> n == 0 || forall k | 0 <= k < |t| :: t[k] == pad
  {
    var whole := Repeated(pad, n) + t + tail;
    if n > 0 && t <= whole {
      forall k | 0 <= k < |t|
        ensures t[k] == pad
      {
        PrefixIsPadding(pad, n, t, tail, k);
      }
    }
  }

  lemma {:induction false} PrefixIsPadding(pad: CHAR16, n: nat, t: seq<CHAR16>, tail: seq<CHAR16>, k: nat)
    requires n >= 1 && t <= Repeated(pad, n) + t + tail && k < |t|
    ensures t[k] == pad
    decreases k
  {
    assert t[k] == (Repeated(pad, n) + t + tail)[k];
    if k >= n {
      PrefixIsPadding(pad, n, t, tail, k - n);
    }
  }

  /** A directive that ends in `5d`. */
  lemma FiveD(fmt: seq<CHAR16>, i: nat, it: Item, args: seq<Arg>, attr: u64, cfg: Config)
    requires i + 2 == |fmt| && fmt[i] == 0x35 && fmt[i + 1] == 0x64
    requires !it.toField && !it.comma && !it.long
    ensures var text := cfg.convert('d', false, false, NextWord(args).0);
            Directive(fmt, i, it, args, attr, 0, cfg)
            == Closed(|fmt|, Chars(Columns(it.(width := 5), text)), NextWord(args).1, attr)
  {
    hide Columns, Chars;
    assert Number(fmt, i + 1, 5) == (5, i + 1);
    assert Read(fmt, i, it, args, cfg) == Flag(it.(width := 5), args, i + 1);
  }

  /** In the format `%-5d` the flag changes nothing, whatever number is printed: the text stands
      on the right of its five columns. */
  lemma MinusFiveD(args: seq<Arg>, attr: u64, cfg: Config)
    ensures Format(Ascii("%-5d"), 0, args, attr, cfg) == Format(Ascii("%5d"), 0, args, attr, cfg)
    ensures var t := Cut(FRESH_ITEM, cfg.convert('d', false, false, NextWord(args).0));
            Format(Ascii("%-5d"), 0, args, attr, cfg)
            == Done(Chars(Repeated(BLANK, Max(5, |t|) - |t|) + t), attr)
  {
    hide Columns, Chars, Cut, Max, Repeated;
    var text := cfg.convert('d', false, false, NextWord(args).0);
    var five := FRESH_ITEM.(width := 5);
    var left, right := Ascii("%-5d"), Ascii("%5d");
    FiveD(left, 2, FRESH_ITEM.(padBefore := false), args, attr, cfg);
    FiveD(right, 1, FRESH_ITEM, args, attr, cfg);
    assert Read(left, 1, FRESH_ITEM, args, cfg) == Flag(FRESH_ITEM.(padBefore := false), args, 2);
    LastDirective(left, args, attr, cfg);
    LastDirective(right, args, attr, cfg);
    LeftJustifyNeedsAFieldWidth(five, text);
    CutIgnoresWidth(FRESH_ITEM, 5, text);
  }

  lemma CutIgnoresWidth(it: Item, w: u64, text: seq<CHAR16>)
    ensures Cut(it.(width := w), text) == Cut(it, text)
  {
  }

  /** A format of a single directive. */
  lemma LastDirective(fmt: seq<CHAR16>, args: seq<Arg>, attr: u64, cfg: Config)
    requires fmt != [] && fmt[0] == PERCENT
    ensures var d := Directive(fmt, 1, FRESH_ITEM, args, attr, 0, cfg);
            d.Closed? && d.next == |fmt| ==> Format(fmt, 0, args, attr, cfg) == Done(d.toks, d.attr)
  {
    hide Directive;
    var d := Directive(fmt, 1, FRESH_ITEM, args, attr, 0, cfg);
    if d.Closed? && d.next == |fmt| {
      assert d.toks + [] == d.toks;
    }
  }

  // ----- Where directives close, and the attributes they leave -----

  predicate IsFlag(c: CHAR16) {
    IsDigit(c) || Letter(c) in {',', '-', '*', '.', 'l'}
  }

  predicate IsLower(c: CHAR16) {
    Letter(c) in {'e', 'h', 'n'}
  }

  predicate IsUpper(c: CHAR16) {
    Letter(c) in {'E', 'H', 'N'}
  }

  /** The attribute that a letter stands for; 0 for any other character. */
  function AttrOf(c: CHAR16, cfg: Config): u64 {
    match Letter(c)
    case 'e' => cfg.error
    case 'E' => cfg.error
    case 'h' => cfg.highlight
    case 'H' => cfg.highlight
    case 'n' => cfg.norm
    case 'N' => cfg.norm
    case _ => 0
  }

  /** The characters after which a directive goes on: flags, attributes for its field, and
      attributes for good that are 0. */
  predicate GoesOn(c: CHAR16, cfg: Config) {
    IsFlag(c) || IsLower(c) || (IsUpper(c) && AttrOf(c, cfg) == 0)
  }

  /** The first character from i on after which a directive does not go on; |fmt| if there is
      none. */
  function ClosingIndex(fmt: seq<CHAR16>, i: nat, cfg: Config): (j: nat)
    requires i <= |fmt|
    ensures i <= j <= |fmt|
    ensures forall k | i <= k < j :: GoesOn(fmt[k], cfg)
    ensures j < |fmt| ==> !GoesOn(fmt[j], cfg)
    decreases |fmt| - i
  {
    if i == |fmt| || !GoesOn(fmt[i], cfg) then i else ClosingIndex(fmt, i + 1, cfg)
  }

  /** The attributes that a piece of a directive sets for its field, in order. */
  function FieldAttrs(s: seq<CHAR16>, cfg: Config): seq<u64> {
    if s == [] then []
    else (if IsLower(s[0]) then [AttrOf(s[0], cfg)] else []) + FieldAttrs(s[1..], cfg)
  }

  /** The attribute after an item that followed the given attributes for its field: the one
      before the last of them, if that is not 0. */
  function AttrAfterItem(attr: u64, restore: u64, lowers: seq<u64>): u64 {
    var n := |lowers|;
    var last := if n == 0 then attr else lowers[n - 1];
    var back := if n == 0 then restore else if n == 1 then attr else lowers[n - 2];
    if back != 0 then back else last
  }

  /** The attribute after a directive whose characters from i on are closed by the one at j. */
  function AttrAfter(fmt: seq<CHAR16>, i: nat, j: nat, attr: u64, restore: u64, cfg: Config): u64
    requires i <= j < |fmt|
  {
    if IsUpper(fmt[j]) then AttrOf(fmt[j], cfg)
    else AttrAfterItem(attr, restore, FieldAttrs(fmt[i..j], cfg))
  }

  /** A directive closes at the first character after which it does not go on, and never if there
      is none, whatever its arguments; the attribute that it leaves depends on nothing but its
      characters and the attribute before it. */
  lemma {:induction false} DirectiveAttr(
      fmt: seq<CHAR16>, i: nat, it: Item, args: seq<Arg>, attr: u64, restore: u64, cfg: Config)
    requires i <= |fmt|
    ensures var d := Directive(fmt, i, it, args, attr, restore, cfg);
            var j := ClosingIndex(fmt, i, cfg);
            if j == |fmt| then d.Unclosed?
            else d.Closed? && d.next == j + 1 && d.attr == AttrAfter(fmt, i, j, attr, restore, cfg)
    decreases |fmt| - i
  {
    hide Chars, Columns, AttrAfterItem, AttrTok, Read, ClosingIndex, GoesOn;
    hide IsFlag, IsLower, IsUpper, AttrOf, FieldAttrs;
    NoFieldAttrs(attr, restore, cfg);
    if i < |fmt| {
      var j := ClosingIndex(fmt, i, cfg);
      SignOf(fmt, i, it, args, cfg);
      ClosingHere(fmt, i, cfg);
      match Read(fmt, i, it, args, cfg) {
        case Flag(it', args', next) =>
          ClosingSkips(fmt, i, next, cfg);
          FlagsSetNothing(fmt, i, next, j, cfg);
          DirectiveAttr(fmt, next, it', args', attr, restore, cfg);
        case Lower(a) =>
          DirectiveAttr(fmt, i + 1, it, args, a, attr, cfg);
          OneMoreAttr(fmt, i, j, attr, restore, cfg);
        case Upper(a) =>
          if a == 0 {
            FlagsSetNothing(fmt, i, i + 1, j, cfg);
            DirectiveAttr(fmt, i + 1, it, args, attr, restore, cfg);
          }
        case Print(_, _, _) =>
          assert fmt[i..i] == [];
      }
    }
  }

  /** What a character says, in terms of the character alone. */
  lemma SignOf(fmt: seq<CHAR16>, i: nat, it: Item, args: seq<Arg>, cfg: Config)
    requires i < |fmt|
    ensures match Read(fmt, i, it, args, cfg)
            case Flag(_, _, next) => i < next <= |fmt| && forall k | i <= k < next :: IsFlag(fmt[k])
            case Lower(a) => IsLower(fmt[i]) && a == AttrOf(fmt[i], cfg)
            case Upper(a) => IsUpper(fmt[i]) && a == AttrOf(fmt[i], cfg)
            case Print(_, _, _) => !IsFlag(fmt[i]) && !IsLower(fmt[i]) && !IsUpper(fmt[i])
  {
    hide ReadItem, WithWidth, NextWord, Number;
    NumberReadsDigits(fmt, i, 0);
  }

  lemma {:induction false} NumberReadsDigits(fmt: seq<CHAR16>, i: nat, value: u64)
    requires i <= |fmt|
    ensures forall k | i <= k < Number(fmt, i, value).1 :: IsDigit(fmt[k])
    decreases |fmt| - i
  {
    if i < |fmt| && IsDigit(fmt[i]) {
      NumberReadsDigits(fmt, i + 1, (value * 10 + (fmt[i] - 0x30)) % 0x1_0000_0000_0000_0000);
    }
  }

  lemma ClosingHere(fmt: seq<CHAR16>, i: nat, cfg: Config)
    requires i < |fmt|
    ensures GoesOn(fmt[i], cfg) <==> IsFlag(fmt[i]) || IsLower(fmt[i]) || (IsUpper(fmt[i]) && AttrOf(fmt[i], cfg) == 0)
    ensures IsFlag(fmt[i]) || IsUpper(fmt[i]) ==> !IsLower(fmt[i])
    ensures IsUpper(fmt[i]) ==> !IsFlag(fmt[i])
    ensures ClosingIndex(fmt, i, cfg) == if GoesOn(fmt[i], cfg) then ClosingIndex(fmt, i + 1, cfg) else i
  {
  }

  lemma {:induction false} ClosingSkips(fmt: seq<CHAR16>, i: nat, next: nat, cfg: Config)
    requires i <= next <= |fmt| && forall k | i <= k < next :: IsFlag(fmt[k])
    ensures ClosingIndex(fmt, next, cfg) == ClosingIndex(fmt, i, cfg)
    decreases next - i
  {
    hide ClosingIndex, IsFlag, IsLower, IsUpper;
    if i < next {
      ClosingHere(fmt, i, cfg);
      ClosingSkips(fmt, i + 1, next, cfg);
    }
  }

  lemma {:induction false} FlagsSetNothing(fmt: seq<CHAR16>, i: nat, next: nat, j: nat, cfg: Config)
    requires i <= next <= j <= |fmt| && forall k | i <= k < next :: IsFlag(fmt[k]) || IsUpper(fmt[k])
    ensures FieldAttrs(fmt[i..j], cfg) == FieldAttrs(fmt[next..j], cfg)
    decreases next - i
  {
    hide IsFlag, IsLower, IsUpper, AttrOf;
    if i < next {
      ClosingHere(fmt, i, cfg);
      assert fmt[i..j][1..] == fmt[i + 1..j];
      FlagsSetNothing(fmt, i + 1, next, j, cfg);
    }
  }

  lemma NoFieldAttrs(attr: u64, restore: u64, cfg: Config)
    ensures FieldAttrs([], cfg) == []
    ensures AttrAfterItem(attr, restore, []) == if restore != 0 then restore else attr
  {
  }

  /** An attribute for the field becomes the attribute in force, and the one before it the
      attribute to restore. */
  lemma OneMoreAttr(fmt: seq<CHAR16>, i: nat, j: nat, attr: u64, restore: u64, cfg: Config)
    requires i < j <= |fmt| && IsLower(fmt[i])
    ensures AttrAfterItem(attr, restore, FieldAttrs(fmt[i..j], cfg))
            == AttrAfterItem(AttrOf(fmt[i], cfg), attr, FieldAttrs(fmt[i + 1..j], cfg))
  {
    hide IsLower, AttrOf;
    assert fmt[i..j][1..] == fmt[i + 1..j];
  }

  /** Whether and where a directive closes does not depend on its arguments, on the item read so
      far or on the attributes in force. */
  lemma ArgumentsDoNotCloseDirectives(
      fmt: seq<CHAR16>, i: nat, it: Item, it': Item, args: seq<Arg>, args': seq<Arg>,
      attr: u64, attr': u64, restore: u64, restore': u64, cfg: Config)
    requires i <= |fmt|
    ensures var d := Directive(fmt, i, it, args, attr, restore, cfg);
            var d' := Directive(fmt, i, it', args', attr', restore', cfg);
            d.Closed? == d'.Closed? && (d.Closed? ==> d.next == d'.next)
  {
    hide Directive, ClosingIndex, AttrAfter;
    DirectiveAttr(fmt, i, it, args, attr, restore, cfg);
    DirectiveAttr(fmt, i, it', args', attr', restore', cfg);
  }

  /** When a directive that prints an item gives back the attribute before it: without an
      attribute for its field always, otherwise exactly if the attribute in force before the
      last of them, or that last one in case the former is 0, is the attribute itself. So one
      attribute for the field is given back to every attribute but 0. */
  lemma RestoredExactly(fmt: seq<CHAR16>, i: nat, it: Item, args: seq<Arg>, attr: u64, cfg: Config)
    requires i <= |fmt|
    requires ClosingIndex(fmt, i, cfg) < |fmt| && !IsUpper(fmt[ClosingIndex(fmt, i, cfg)])
    ensures var d := Directive(fmt, i, it, args, attr, 0, cfg);
            var lowers := FieldAttrs(fmt[i..ClosingIndex(fmt, i, cfg)], cfg);
            var n := |lowers|;
            d.Closed? && (d.attr == attr <==>
                          || n == 0
                          || (var back := if n == 1 then attr else lowers[n - 2];
                              if back != 0 then back == attr else lowers[n - 1] == attr))
  {
    hide Directive, ClosingIndex, FieldAttrs, IsUpper;
    DirectiveAttr(fmt, i, it, args, attr, 0, cfg);
  }

  // ----- Whole formats -----

  /** The last directive from i on does not close. */
  predicate EndsInDirective(fmt: seq<CHAR16>, i: nat, cfg: Config)
    requires i <= |fmt|
    decreases |fmt| - i
  {
    if i == |fmt| then false
    else if fmt[i] != PERCENT then EndsInDirective(fmt, i + 1, cfg)
    else
      var j := ClosingIndex(fmt, i + 1, cfg);
      j == |fmt| || EndsInDirective(fmt, j + 1, cfg)
  }

  /** The attribute at the end of a format, directive by directive. */
  function FinalAttr(fmt: seq<CHAR16>, i: nat, attr: u64, cfg: Config): u64
    requires i <= |fmt|
    decreases |fmt| - i
  {
    if i == |fmt| then attr
    else if fmt[i] != PERCENT then FinalAttr(fmt, i + 1, attr, cfg)
    else
      var j := ClosingIndex(fmt, i + 1, cfg);
      if j == |fmt| then attr else FinalAttr(fmt, j + 1, AttrAfter(fmt, i + 1, j, attr, 0, cfg), cfg)
  }

  /** Whether a format is overrun, and the attribute at its end, are fixed by its characters:
      arguments do not matter, and for the overrun the attribute does not either. */
  lemma {:induction false} FormatEnds(fmt: seq<CHAR16>, i: nat, args: seq<Arg>, attr: u64, cfg: Config)
    requires i <= |fmt|
    ensures Format(fmt, i, args, attr, cfg).Overrun? <==> EndsInDirective(fmt, i, cfg)
    ensures !EndsInDirective(fmt, i, cfg) ==> Format(fmt, i, args, attr, cfg).attr == FinalAttr(fmt, i, attr, cfg)
    decreases |fmt| - i
  {
    hide Directive, ClosingIndex, AttrAfter;
    if i < |fmt| {
      if fmt[i] != PERCENT {
        FormatEnds(fmt, i + 1, args, attr, cfg);
      } else {
        DirectiveAttr(fmt, i + 1, FRESH_ITEM, args, attr, 0, cfg);
        var d := Directive(fmt, i + 1, FRESH_ITEM, args, attr, 0, cfg);
        if d.Closed? {
          FormatEnds(fmt, d.next, d.args, d.attr, cfg);
        }
      }
    }
  }

  /** Every directive from i on closes, and one that prints an item sets at most one attribute
      for its field. */
  predicate FieldLocal(fmt: seq<CHAR16>, i: nat, cfg: Config)
    requires i <= |fmt|
    decreases |fmt| - i
  {
    if i == |fmt| then true
    else if fmt[i] != PERCENT then FieldLocal(fmt, i + 1, cfg)
    else
      var j := ClosingIndex(fmt, i + 1, cfg);
      && j < |fmt|
      && (IsUpper(fmt[j]) || |FieldAttrs(fmt[i + 1..j], cfg)| <= 1)
      && FieldLocal(fmt, j + 1, cfg)
  }

  /** The attribute of the last directive from i on that sets one for good; attr if none does. */
  function LastUpper(fmt: seq<CHAR16>, i: nat, attr: u64, cfg: Config): u64
    requires i <= |fmt|
    decreases |fmt| - i
  {
    if i == |fmt| then attr
    else if fmt[i] != PERCENT then LastUpper(fmt, i + 1, attr, cfg)
    else
      var j := ClosingIndex(fmt, i + 1, cfg);
      if j == |fmt| then attr
      else LastUpper(fmt, j + 1, if IsUpper(fmt[j]) then AttrOf(fmt[j], cfg) else attr, cfg)
  }

  predicate AnyNonZero(attrs: seq<u64>) {
    exists k :: 0 <= k < |attrs| && attrs[k] != 0
  }

  /** Some directive from i on that prints an item sets an attribute other than 0 for its
      field. */
  predicate SetsForField(fmt: seq<CHAR16>, i: nat, cfg: Config)
    requires i <= |fmt|
    decreases |fmt| - i
  {
    if i == |fmt| then false
    else if fmt[i] != PERCENT then SetsForField(fmt, i + 1, cfg)
    else
      var j := ClosingIndex(fmt, i + 1, cfg);
      && j < |fmt|
      && (|| (!IsUpper(fmt[j]) && AnyNonZero(FieldAttrs(fmt[i + 1..j], cfg)))
          || SetsForField(fmt, j + 1, cfg))
  }

  /** Over a whole format: attributes set for single fields leave no trace at its end, and those
      set for good persist, exactly if the attribute is not 0, or some attribute is set for good,
      or all attributes set for single fields are 0. */
  lemma {:induction false} FieldAttributesAreRestored(fmt: seq<CHAR16>, i: nat, args: seq<Arg>, attr: u64, cfg: Config)
    requires i <= |fmt| && FieldLocal(fmt, i, cfg)
    ensures Format(fmt, i, args, attr, cfg).Done?
    ensures Format(fmt, i, args, attr, cfg).attr == LastUpper(fmt, i, attr, cfg)
            <==> attr != 0 || LastUpper(fmt, i, 0, cfg) != 0 || !SetsForField(fmt, i, cfg)
    decreases |fmt| - i
  {
    hide Directive, ClosingIndex, FieldAttrs, IsUpper;
    LastUpperOrAttr(fmt, i, attr, cfg);
    if i < |fmt| {
      if fmt[i] != PERCENT {
        FieldAttributesAreRestored(fmt, i + 1, args, attr, cfg);
      } else {
        DirectiveAttr(fmt, i + 1, FRESH_ITEM, args, attr, 0, cfg);
        var d := Directive(fmt, i + 1, FRESH_ITEM, args, attr, 0, cfg);
        UpperIsNotZero(fmt[ClosingIndex(fmt, i + 1, cfg)], cfg);
        LastUpperOrAttr(fmt, d.next, attr, cfg);
        LastUpperOrAttr(fmt, d.next, d.attr, cfg);
        FieldAttributesAreRestored(fmt, d.next, d.args, d.attr, cfg);
      }
    }
  }

  lemma {:induction false} LastUpperOrAttr(fmt: seq<CHAR16>, i: nat, attr: u64, cfg: Config)
    requires i <= |fmt|
    ensures LastUpper(fmt, i, attr, cfg) == if LastUpper(fmt, i, 0, cfg) != 0 then LastUpper(fmt, i, 0, cfg) else attr
    decreases |fmt| - i
  {
    hide ClosingIndex, IsUpper;
    if i < |fmt| {
      if fmt[i] != PERCENT {
        LastUpperOrAttr(fmt, i + 1, attr, cfg);
      } else {
        var j := ClosingIndex(fmt, i + 1, cfg);
        if j < |fmt| {
          UpperIsNotZero(fmt[j], cfg);
          LastUpperOrAttr(fmt, j + 1, attr, cfg);
          LastUpperOrAttr(fmt, j + 1, AttrOf(fmt[j], cfg), cfg);
        }
      }
    }
  }

  lemma UpperIsNotZero(c: CHAR16, cfg: Config)
    ensures IsUpper(c) && !GoesOn(c, cfg) ==> AttrOf(c, cfg) != 0
  {
  }

  /** Two attributes for one field: after the format `%hex` the first one, the highlight, stays,
      whatever the attribute was before. */
  lemma TwoFieldAttributesStick(args: seq<Arg>, attr: u64, cfg: Config)
    ensures var f := Format(Ascii("%hex"), 0, args, attr, cfg);
            f.Done? && f.attr == if cfg.highlight != 0 then cfg.highlight else cfg.error
  {
    hide Format, ClosingIndex, FieldAttrs;
    var fmt := Ascii("%hex");
    assert fmt[0] == PERCENT && Letter(fmt[1]) == 'h' && Letter(fmt[2]) == 'e' && Letter(fmt[3]) == 'x';
    FormatEnds(fmt, 0, args, attr, cfg);
    ClosingHere(fmt, 1, cfg);
    ClosingHere(fmt, 2, cfg);
    ClosingHere(fmt, 3, cfg);
    OneMoreAttr(fmt, 1, 3, attr, 0, cfg);
    OneMoreAttr(fmt, 2, 3, cfg.highlight, attr, cfg);
    NoFieldAttrs(cfg.error, cfg.highlight, cfg);
    assert fmt[3..3] == [];
  }

  /** The attribute 0, black on black, is taken for no attribute: after `%hx` the highlight stays
      on, while every other attribute returns. */
  lemma OneFieldAttributeSticksAtZero(args: seq<Arg>, attr: u64, cfg: Config)
    ensures var f := Format(Ascii("%hx"), 0, args, attr, cfg);
            f.Done? && f.attr == if attr != 0 then attr else cfg.highlight
  {
    hide Format, ClosingIndex, FieldAttrs;
    var fmt := Ascii("%hx");
    assert fmt[0] == PERCENT && Letter(fmt[1]) == 'h' && Letter(fmt[2]) == 'x';
    FormatEnds(fmt, 0, args, attr, cfg);
    ClosingHere(fmt, 1, cfg);
    ClosingHere(fmt, 2, cfg);
    OneMoreAttr(fmt, 1, 2, attr, 0, cfg);
    NoFieldAttrs(cfg.highlight, attr, cfg);
    assert fmt[2..2] == [];
  }
}
