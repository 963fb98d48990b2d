/** What the directives of a format mean, in the shape that their documentation gives them:
    flags, a width, a field width and a letter. The character-by-character parser of FormatSpec is
    proved to print this for every directive of that shape, anywhere in a format. */
module FormatGrammar {
  import opened Bits
  import opened Numerals
  import opened FormatSpec

  // ----- The shape -----

  /** A width: absent, written out, or provided as an argument. */
  datatype Size = NoSize | Literal(digits: seq<nat>) | Star

  predicate IsSize(size: Size) {
    size.Literal? ==> size.digits != [] && size.digits[0] != 0 && forall i | 0 <= i < |size.digits| :: size.digits[i] < 10
  }

  function SizeChars(size: Size): seq<CHAR16>
    requires IsSize(size)
  {
    match size
    case NoSize => []
    case Literal(ds) => seq(|ds|, i requires 0 <= i < |ds| => 0x30 + ds[i])
    case Star => [0x2a]
  }

  /** What stands between the percent sign and the letter. */
  datatype Head = Head(flags: seq<CHAR16>, width: Size, field: Size)

  /** Commas, minus signs, zeros, and the letters l, e, h and n. */
  predicate IsHead(h: Head) {
    && (forall i | 0 <= i < |h.flags| :: h.flags[i] in {0x2c, 0x2d, 0x30, 0x6c, 0x65, 0x68, 0x6e})
    && IsSize(h.width) && IsSize(h.field)
  }

  function FieldChars(field: Size): seq<CHAR16>
    requires IsSize(field)
  {
    if field.NoSize? then [] else [0x2e] + SizeChars(field)
  }

  function HeadChars(h: Head): seq<CHAR16>
    requires IsHead(h)
  {
    h.flags + SizeChars(h.width) + FieldChars(h.field)
  }

  /** At i stands a directive with this head; its letter is at k. */
  predicate Spelled(fmt: seq<CHAR16>, i: nat, h: Head, k: nat) {
    && IsHead(h) && k == i + 1 + |HeadChars(h)| && k < |fmt|
    && fmt[i] == 0x25 && fmt[i + 1..k] == HeadChars(h)
  }

  /** Where a width comes from. */
  predicate Supplies(size: Size, w: u64, args: seq<Arg>, rest: seq<Arg>) {
    match size
    case NoSize => args == rest
    case Literal(ds) => args == rest && w == Value(ds, 10) % 0x1_0000_0000_0000_0000
    case Star => args == [Word(w)] + rest
  }

  // ----- The meaning -----

  /** A text in its columns: cut at the field width, padded in front to the width, and filled up
      with blanks to the field width, behind if it is justified on the left. */
  function Laid(text: seq<CHAR16>, hasField: bool, field: u64, width: nat, pad: CHAR16, left: bool): seq<CHAR16> {
    var whole := CString(text);
    var t := if hasField && |whole| > field then whole[..field] else whole;
    var body := Repeated(pad, if width > |t| then width - |t| else 0) + t;
    var blanks := Repeated(0x20, if hasField && field > |body| then field - |body| else 0);
    if left then body + blanks else blanks + body
  }

  /** The attribute changes in front of an item. */
  function Changes(attrs: seq<u64>, cfg: Config): seq<Tok> {
    if attrs == [] then [] else AttrTok(cfg, attrs[0]) + Changes(attrs[1..], cfg)
  }

  /** The attribute in force after those for the field, and the one to go back to, 0 for none. */
  function InForce(attr: u64, attrs: seq<u64>): u64 {
    if attrs == [] then attr else attrs[|attrs| - 1]
  }

  function GoBack(attr: u64, attrs: seq<u64>): u64 {
    if attrs == [] then 0 else if |attrs| == 1 then attr else attrs[|attrs| - 2]
  }

  /** Everything that a directive with an item tells the device. */
  function Shown(h: Head, columns: seq<CHAR16>, attr: u64, cfg: Config): seq<Tok> {
    var attrs := FieldAttrs(h.flags, cfg);
    var back := GoBack(attr, attrs);
    Changes(attrs, cfg) + Chars(columns) + if back != 0 then AttrTok(cfg, back) else []
  }

  function AttrBehind(h: Head, attr: u64, cfg: Config): u64 {
    var attrs := FieldAttrs(h.flags, cfg);
    if GoBack(attr, attrs) != 0 then GoBack(attr, attrs) else InForce(attr, attrs)
  }

  /** The columns of a text under a head with these widths. */
  function Columned(h: Head, w: u64, f: u64, text: seq<CHAR16>): seq<CHAR16> {
    Laid(text, !h.field.NoSize? && f != 0xFFFF_FFFF_FFFF_FFFF, f, if h.width.NoSize? then 0 else w,
         if 0x30 in h.flags then 0x30 else 0x20, 0x2d in h.flags)
  }

  // ----- The parser reads a head -----

  function WithFlags(it: Item, flags: seq<CHAR16>): Item {
    it.(comma := it.comma || 0x2c in flags, long := it.long || 0x6c in flags,
        padBefore := it.padBefore && 0x2d !in flags, pad := if 0x30 in flags then 0x30 else it.pad)
  }

  lemma BeforeTwice(a: seq<Tok>, b: seq<Tok>, d: Directed)
    ensures Before(a, Before(b, d)) == Before(a + b, d)
    ensures Before([], d) == d
  {
    if d.Closed? {
      assert a + b + d.toks == a + (b + d.toks);
      assert [] + d.toks == d.toks;
    }
  }

  /** One flag. */
  lemma FlagRead(fmt: seq<CHAR16>, i: nat, it: Item, args: seq<Arg>, cfg: Config)
    requires i < |fmt| && fmt[i] in {0x2c, 0x2d, 0x30, 0x6c, 0x65, 0x68, 0x6e}
    ensures Read(fmt, i, it, args, cfg)
            == if IsLower(fmt[i]) then Lower(AttrOf(fmt[i], cfg)) else Flag(WithFlags(it, [fmt[i]]), args, i + 1)
    ensures IsLower(fmt[i]) ==> WithFlags(it, [fmt[i]]) == it
  {
    hide ReadItem, Number, NextWord;
  }

  lemma FlagsInTurn(it: Item, c: CHAR16, flags: seq<CHAR16>)
    ensures WithFlags(WithFlags(it, [c]), flags) == WithFlags(it, [c] + flags)
  {
    assert forall x: CHAR16 :: x in [c] + flags <==> x == c || x in flags;
  }

  lemma {:induction false} FlagsRead(fmt: seq<CHAR16>, i: nat, n: nat, it: Item, args: seq<Arg>, attr: u64, restore: u64,
                                     cfg: Config)
    requires i <= n <= |fmt| && forall k | i <= k < n :: fmt[k] in {0x2c, 0x2d, 0x30, 0x6c, 0x65, 0x68, 0x6e}
    ensures var attrs := FieldAttrs(fmt[i..n], cfg);
            Directive(fmt, i, it, args, attr, restore, cfg)
            == Before(Changes(attrs, cfg),
                      Directive(fmt, n, WithFlags(it, fmt[i..n]), args, InForce(attr, attrs),
                                if attrs == [] then restore else GoBack(attr, attrs), cfg))
    decreases n - i
  {
    hide Read, AttrTok, Chars, Columns, IsLower, AttrOf, Before, WithFlags, Directive;
    if i == n {
      NoFlags(it, attr, restore, cfg);
      assert fmt[i..n] == [];
      BeforeTwice([], [], Directive(fmt, n, it, args, attr, restore, cfg));
    } else {
      FlagRead(fmt, i, it, args, cfg);
      assert fmt[i..n] == [fmt[i]] + fmt[i + 1..n];
      FlagsInTurn(it, fmt[i], fmt[i + 1..n]);
      OneStep(fmt, i, it, args, attr, restore, cfg);
      FlagAttrs(fmt[i], fmt[i + 1..n], attr, restore, cfg);
      if IsLower(fmt[i]) {
        FlagsRead(fmt, i + 1, n, it, args, AttrOf(fmt[i], cfg), attr, cfg);
        var attrs := FieldAttrs(fmt[i + 1..n], cfg);
        BeforeTwice(AttrTok(cfg, AttrOf(fmt[i], cfg)), Changes(attrs, cfg),
                    Directive(fmt, n, WithFlags(it, fmt[i..n]), args, InForce(AttrOf(fmt[i], cfg), attrs),
                              if attrs == [] then attr else GoBack(AttrOf(fmt[i], cfg), attrs), cfg));
      } else {
        FlagsRead(fmt, i + 1, n, WithFlags(it, [fmt[i]]), args, attr, restore, cfg);
      }
    }
  }

  lemma NoFlags(it: Item, attr: u64, restore: u64, cfg: Config)
    ensures FieldAttrs([], cfg) == [] && Changes([], cfg) == [] && WithFlags(it, []) == it && InForce(attr, []) == attr
  {
  }

  /** One character of a directive that does not end it. */
  lemma OneStep(fmt: seq<CHAR16>, i: nat, it: Item, args: seq<Arg>, attr: u64, restore: u64, cfg: Config)
    requires i < |fmt|
    ensures match Read(fmt, i, it, args, cfg)
            case Flag(it', args', next) =>
              Directive(fmt, i, it, args, attr, restore, cfg) == Directive(fmt, next, it', args', attr, restore, cfg)
            case Lower(a) =>
              Directive(fmt, i, it, args, attr, restore, cfg)
              == Before(AttrTok(cfg, a), Directive(fmt, i + 1, it, args, a, attr, cfg))
            case Upper(a) =>
              a != 0 ==> Directive(fmt, i, it, args, attr, restore, cfg) == Closed(i + 1, AttrTok(cfg, a), args, a)
            case Print(it', text, args') =>
              Directive(fmt, i, it, args, attr, restore, cfg)
              == Restored(cfg, i + 1, Chars(Columns(it', text)), args', attr, restore)
  {
    hide Read, AttrTok, Chars, Columns, Before;
  }

  /** The attributes of a flag and those after it. */
  lemma FlagAttrs(c: CHAR16, flags: seq<CHAR16>, attr: u64, restore: u64, cfg: Config)
    ensures var rest := FieldAttrs(flags, cfg);
            var attrs := FieldAttrs([c] + flags, cfg);
            if IsLower(c) then
              var a := AttrOf(c, cfg);
              && attrs != [] && Changes(attrs, cfg) == AttrTok(cfg, a) + Changes(rest, cfg)
              && InForce(attr, attrs) == InForce(a, rest)
              && GoBack(attr, attrs) == if rest == [] then attr else GoBack(a, rest)
            else attrs == rest
  {
    hide IsLower, AttrOf, AttrTok;
    assert ([c] + flags)[1..] == flags;
    if IsLower(c) {
      assert ([AttrOf(c, cfg)] + FieldAttrs(flags, cfg))[1..] == FieldAttrs(flags, cfg);
    }
  }

  // ----- The parser reads a width -----

  lemma {:induction false} DigitsStandThere(fmt: seq<CHAR16>, i: nat, ds: seq<nat>)
    requires i + |ds| < |fmt| && forall k | 0 <= k < |ds| :: ds[k] < 10 && fmt[i + k] == 0x30 + ds[k]
    requires !IsDigit(fmt[i + |ds|])
    ensures DigitRun(fmt, i) == ds
    decreases |ds|
  {
    if ds != [] {
      assert fmt[i + 0] == 0x30 + ds[0];
      assert forall k | 0 <= k < |ds[1..]| :: ds[1..][k] == ds[k + 1] && fmt[i + 1 + k] == fmt[i + (k + 1)];
      DigitsStandThere(fmt, i + 1, ds[1..]);
    }
  }

  lemma DigitRead(fmt: seq<CHAR16>, i: nat, it: Item, args: seq<Arg>, cfg: Config)
    requires i < |fmt| && 0x31 <= fmt[i] <= 0x39
    ensures Read(fmt, i, it, args, cfg) == Flag(WithWidth(it, Number(fmt, i, 0).0), args, Number(fmt, i, 0).1)
  {
    hide ReadItem, Number, NextWord, WithWidth;
  }

  lemma StarRead(fmt: seq<CHAR16>, i: nat, it: Item, w: u64, rest: seq<Arg>, cfg: Config)
    requires i < |fmt| && fmt[i] == 0x2a
    ensures Read(fmt, i, it, [Word(w)] + rest, cfg) == Flag(WithWidth(it, w), rest, i + 1)
  {
    hide ReadItem, Number, WithWidth;
  }

  lemma DotRead(fmt: seq<CHAR16>, i: nat, it: Item, args: seq<Arg>, cfg: Config)
    requires i < |fmt| && fmt[i] == 0x2e
    ensures Read(fmt, i, it, args, cfg) == Flag(it.(toField := true), args, i + 1)
  {
    hide ReadItem, Number, WithWidth, NextWord;
  }

  lemma LiteralRead(fmt: seq<CHAR16>, i: nat, n: nat, ds: seq<nat>, it: Item, args: seq<Arg>, cfg: Config)
    requires IsSize(Literal(ds)) && n == i + |ds| && n < |fmt| && fmt[i..n] == SizeChars(Literal(ds))
    requires !IsDigit(fmt[n])
    ensures Read(fmt, i, it, args, cfg)
            == Flag(WithWidth(it, Value(ds, 10) % 0x1_0000_0000_0000_0000), args, n)
  {
    hide Read, Number, Value, WithWidth;
    forall k | 0 <= k < |ds|
      ensures fmt[i + k] == 0x30 + ds[k]
    {
      assert fmt[i + k] == fmt[i..n][k];
    }
    assert fmt[i + 0] == 0x30 + ds[0];
    DigitsStandThere(fmt, i, ds);
    DigitRead(fmt, i, it, args, cfg);
    NoDigits();
    NumberIsTheDigitRun(fmt, i, [], 0);
    assert [] + ds == ds;
  }

  /** A width, up to its end n. */
  lemma SizeRead(fmt: seq<CHAR16>, i: nat, n: nat, size: Size, w: u64, it: Item, args: seq<Arg>, rest: seq<Arg>,
                 attr: u64, restore: u64, cfg: Config)
    requires IsSize(size) && n == i + |SizeChars(size)| && n < |fmt| && fmt[i..n] == SizeChars(size)
    requires !IsDigit(fmt[n]) && Supplies(size, w, args, rest)
    ensures Directive(fmt, i, it, args, attr, restore, cfg)
            == Directive(fmt, n, if size.NoSize? then it else WithWidth(it, w), rest, attr, restore, cfg)
  {
    hide Directive, Read, Number, Value, WithWidth, IsDigit;
    OneStep(fmt, i, it, args, attr, restore, cfg);
    match size {
      case NoSize =>
      case Literal(ds) =>
        LiteralRead(fmt, i, n, ds, it, args, cfg);
      case Star =>
        assert fmt[i] == fmt[i..n][0];
        StarRead(fmt, i, it, w, rest, cfg);
    }
  }

  lemma NoDigits()
    ensures 0 == Value([], 10) % 0x1_0000_0000_0000_0000
  {
  }

  // ----- The parser reads a directive -----

  /** The item that a head with these widths describes. */
  function ItemOf(h: Head, w: u64, f: u64): Item {
    var it := WithFlags(FRESH_ITEM, h.flags);
    it.(width := if h.width.NoSize? then 0 else w, fieldWidth := if h.field.NoSize? then NONE else f,
        toField := !h.field.NoSize?)
  }

  lemma ItemInSteps(h: Head, w: u64, f: u64)
    ensures var it := WithFlags(FRESH_ITEM, h.flags);
            var it1 := if h.width.NoSize? then it else WithWidth(it, w);
            ItemOf(h, w, f) == if h.field.NoSize? then it1 else WithWidth(it1.(toField := true), f)
  {
  }

  lemma HeadRead(fmt: seq<CHAR16>, i: nat, h: Head, k: nat, w: u64, f: u64, args: seq<Arg>, mid: seq<Arg>, rest: seq<Arg>,
                 attr: u64, cfg: Config)
    requires Spelled(fmt, i, h, k) && !IsDigit(fmt[k])
    requires Supplies(h.width, w, args, mid) && Supplies(h.field, f, mid, rest)
    ensures var attrs := FieldAttrs(h.flags, cfg);
            Directive(fmt, i + 1, FRESH_ITEM, args, attr, 0, cfg)
            == Before(Changes(attrs, cfg),
                      Directive(fmt, k, ItemOf(h, w, f), rest, InForce(attr, attrs), GoBack(attr, attrs), cfg))
  {
    hide Directive, Read, SizeChars, Supplies, Changes, FieldAttrs, InForce, GoBack, WithFlags, ItemOf, Before, IsDigit;
    var a := i + 1 + |h.flags|;
    var b := a + |SizeChars(h.width)|;
    var attrs := FieldAttrs(h.flags, cfg);
    var force, back := InForce(attr, attrs), GoBack(attr, attrs);
    HeadParts(fmt, i, h, k);
    NothingToGoBack(attr);
    FlagsRead(fmt, i + 1, a, FRESH_ITEM, args, attr, 0, cfg);
    var it := WithFlags(FRESH_ITEM, h.flags);
    SizeRead(fmt, a, b, h.width, w, it, args, mid, force, back, cfg);
    var it1 := if h.width.NoSize? then it else WithWidth(it, w);
    ItemInSteps(h, w, f);
    if h.field.NoSize? {
      NoSupply(f, mid, rest);
    } else {
      OneStep(fmt, b, it1, mid, force, back, cfg);
      DotRead(fmt, b, it1, mid, cfg);
      SizeRead(fmt, b + 1, k, h.field, f, it1.(toField := true), mid, rest, force, back, cfg);
    }
  }

  lemma NothingToGoBack(attr: u64)
    ensures GoBack(attr, []) == 0
  {
  }

  lemma NoSupply(f: u64, mid: seq<Arg>, rest: seq<Arg>)
    ensures Supplies(NoSize, f, mid, rest) ==> mid == rest
  {
  }

  /** Where the parts of a head stand. */
  lemma HeadParts(fmt: seq<CHAR16>, i: nat, h: Head, k: nat)
    requires Spelled(fmt, i, h, k)
    ensures var a := i + 1 + |h.flags|;
            var b := a + |SizeChars(h.width)|;
            && b <= k < |fmt| && fmt[i + 1..a] == h.flags && fmt[a..b] == SizeChars(h.width)
            && (forall j | i + 1 <= j < a :: fmt[j] in {0x2c, 0x2d, 0x30, 0x6c, 0x65, 0x68, 0x6e})
            && (if h.field.NoSize? then b == k
                else b < k && fmt[b] == 0x2e && !IsDigit(fmt[b]) && k == b + 1 + |SizeChars(h.field)|
                     && fmt[b + 1..k] == SizeChars(h.field))
  {
    hide SizeChars;
    var a := i + 1 + |h.flags|;
    var b := a + |SizeChars(h.width)|;
    var whole := HeadChars(h);
    assert forall j | i + 1 <= j < k :: fmt[j] == whole[j - (i + 1)];
    assert fmt[i + 1..a] == h.flags;
    forall j | i + 1 <= j < a
      ensures fmt[j] in {0x2c, 0x2d, 0x30, 0x6c, 0x65, 0x68, 0x6e}
    {
      assert fmt[j] == h.flags[j - (i + 1)];
    }
  }

  // ----- Columns -----

  /** The columns of an item are the laid-out text. */
  lemma ColumnsAreLaid(it: Item, text: seq<CHAR16>)
    requires |text| <= NONE
    ensures Columns(it, text) == Laid(text, it.fieldWidth != NONE, it.fieldWidth, it.width, it.pad, !it.padBefore)
  {
    hide CString;
    var whole := CString(text);
    var t := Cut(it, text);
    var hasField := it.fieldWidth != NONE;
    assert t == if hasField && |whole| > it.fieldWidth then whole[..it.fieldWidth] else whole;
    var n := if it.width > |t| then it.width - |t| else 0;
    var pads := Repeated(it.pad, n);
    var field := if hasField then it.fieldWidth else |t|;
    var m := if field > n + |t| then field - (n + |t|) else 0;
    var blanks := Repeated(BLANK, m);
    assert Columns(it, text)
           == (if it.padBefore then blanks else []) + pads + t + (if it.padBefore then [] else blanks);
    Joined(blanks, pads, t);
  }

  lemma Joined(a: seq<CHAR16>, b: seq<CHAR16>, c: seq<CHAR16>)
    ensures a + b + c + [] == a + (b + c) && [] + b + c + a == b + c + a
  {
  }

  // ----- Directives anywhere in a format -----

  /** A directive with this head whose letter gives an item to print. */
  lemma ItemDirective(fmt: seq<CHAR16>, i: nat, h: Head, k: nat, w: u64, f: u64, args: seq<Arg>, mid: seq<Arg>,
                      rest: seq<Arg>, attr: u64, cfg: Config)
    requires Spelled(fmt, i, h, k) && !IsDigit(fmt[k])
    requires Supplies(h.width, w, args, mid) && Supplies(h.field, f, mid, rest)
    ensures match Read(fmt, k, ItemOf(h, w, f), rest, cfg)
            case Print(it, text, after) =>
              Format(fmt, i, args, attr, cfg)
              == After(Shown(h, Columns(it, text), attr, cfg), Format(fmt, k + 1, after, AttrBehind(h, attr, cfg), cfg))
            case Upper(a) =>
              a != 0 ==> Format(fmt, i, args, attr, cfg)
                         == After(Changes(FieldAttrs(h.flags, cfg), cfg) + AttrTok(cfg, a),
                                  Format(fmt, k + 1, rest, a, cfg))
            case _ => true
  {
    hide Directive, Read, SizeChars, Supplies, Changes, FieldAttrs, InForce, GoBack, ItemOf, Columns, Chars, IsDigit,
      IsHead, HeadChars, AttrTok, Format;
    var it := ItemOf(h, w, f);
    var attrs := FieldAttrs(h.flags, cfg);
    HeadRead(fmt, i, h, k, w, f, args, mid, rest, attr, cfg);
    OneStep(fmt, k, it, rest, InForce(attr, attrs), GoBack(attr, attrs), cfg);
    FormatOfDirective(fmt, i, args, attr, cfg);
    match Read(fmt, k, it, rest, cfg) {
      case Print(it', text, _) =>
        var c, back := Chars(Columns(it', text)), AttrTok(cfg, GoBack(attr, attrs));
        assert Changes(attrs, cfg) + (c + back) == Changes(attrs, cfg) + c + back;
        assert Changes(attrs, cfg) + c + [] == Changes(attrs, cfg) + c;
      case _ =>
    }
  }

  lemma FormatOfDirective(fmt: seq<CHAR16>, i: nat, args: seq<Arg>, attr: u64, cfg: Config)
    requires i < |fmt| && fmt[i] == 0x25
    ensures var d := Directive(fmt, i + 1, FRESH_ITEM, args, attr, 0, cfg);
            d.Closed? ==> Format(fmt, i, args, attr, cfg) == After(d.toks, Format(fmt, d.next, d.args, d.attr, cfg))
  {
    hide Directive;
  }

  /** What an item letter prints, for an item with the flags of a head. */
  lemma LetterRead(fmt: seq<CHAR16>, k: nat, it: Item, args: seq<Arg>, cfg: Config)
    requires k < |fmt| && !IsFlag(fmt[k]) && !IsLower(fmt[k]) && !IsUpper(fmt[k])
    ensures Read(fmt, k, it, args, cfg) == ReadItem(Letter(fmt[k]), it, args, cfg)
  {
    hide ReadItem, Number, NextWord, WithWidth;
  }

  lemma ItemFields(h: Head, w: u64, f: u64)
    ensures var it := ItemOf(h, w, f);
            && it.comma == (0x2c in h.flags) && it.long == (0x6c in h.flags) && it.padBefore == (0x2d !in h.flags)
            && it.pad == (if 0x30 in h.flags then 0x30 else 0x20)
            && it.width == (if h.width.NoSize? then 0 else w)
            && it.fieldWidth == (if h.field.NoSize? then NONE else f)
  {
  }

  /** The columns of an item with the widths of a head, or with a width and padding of its own. */
  lemma ItemColumns(h: Head, w: u64, f: u64, text: seq<CHAR16>, width: u64)
    requires |text| <= NONE
    ensures Columns(ItemOf(h, w, f), text) == Columned(h, w, f, text)
    ensures Columns(ItemOf(h, w, f).(width := width, pad := 0x30), text)
            == Laid(text, !h.field.NoSize? && f != NONE, f, width, 0x30, 0x2d in h.flags)
  {
    hide Columns, Laid, ItemOf;
    ItemFields(h, w, f);
    ColumnsAreLaid(ItemOf(h, w, f), text);
    ColumnsAreLaid(ItemOf(h, w, f).(width := width, pad := 0x30), text);
    NoFieldLaid(text, f, if h.width.NoSize? then 0 else w, if 0x30 in h.flags then 0x30 else 0x20, 0x2d in h.flags);
    NoFieldLaid(text, f, width, 0x30, 0x2d in h.flags);
  }

  /** Without a field width its value does not matter. */
  lemma NoFieldLaid(text: seq<CHAR16>, f: u64, width: nat, pad: CHAR16, left: bool)
    ensures Laid(text, false, f, width, pad, left) == Laid(text, false, NONE, width, pad, left)
  {
    hide CString;
  }

  /** A directive whose letter gives an item to print. */
  lemma LetterDirective(fmt: seq<CHAR16>, i: nat, h: Head, k: nat, w: u64, f: u64, args: seq<Arg>, mid: seq<Arg>,
                        rest: seq<Arg>, attr: u64, cfg: Config)
    requires Spelled(fmt, i, h, k) && !IsFlag(fmt[k]) && !IsLower(fmt[k]) && !IsUpper(fmt[k])
    requires Supplies(h.width, w, args, mid) && Supplies(h.field, f, mid, rest)
    ensures var p := ReadItem(Letter(fmt[k]), ItemOf(h, w, f), rest, cfg);
            Format(fmt, i, args, attr, cfg)
            == After(Shown(h, Columns(p.it, p.text), attr, cfg),
                     Format(fmt, k + 1, p.args, AttrBehind(h, attr, cfg), cfg))
  {
    hide Format, HeadChars, IsHead, Supplies, Shown, Columns, AttrBehind, ItemOf, ReadItem;
    ItemDirective(fmt, i, h, k, w, f, args, mid, rest, attr, cfg);
    LetterRead(fmt, k, ItemOf(h, w, f), rest, cfg);
  }

  /** A number, time, status code or the like: the letters d, f, g, r, t, u and x take one argument
      and print what the converter of the letter makes of it under the flags `,` and `l`. */
  lemma NumberDirective(fmt: seq<CHAR16>, i: nat, h: Head, k: nat, w: u64, f: u64, args: seq<Arg>, mid: seq<Arg>,
                        arg: u64, rest: seq<Arg>, attr: u64, cfg: Config)
    requires Spelled(fmt, i, h, k) && fmt[k] < 0x80 && fmt[k] as char in {'d', 'f', 'g', 'r', 't', 'u', 'x'}
    requires Supplies(h.width, w, args, mid) && Supplies(h.field, f, mid, [Word(arg)] + rest)
    ensures var text := cfg.convert(fmt[k] as char, 0x2c in h.flags, 0x6c in h.flags, arg);
            |text| <= NONE ==>
              Format(fmt, i, args, attr, cfg)
              == After(Shown(h, Columned(h, w, f, text), attr, cfg),
                       Format(fmt, k + 1, rest, AttrBehind(h, attr, cfg), cfg))
  {
    hide Format, HeadChars, IsHead, Supplies, Shown, Columns, Columned, Laid, AttrBehind, ItemOf, CString;
    ItemFields(h, w, f);
    LetterDirective(fmt, i, h, k, w, f, args, mid, [Word(arg)] + rest, attr, cfg);
    var text := cfg.convert(fmt[k] as char, 0x2c in h.flags, 0x6c in h.flags, arg);
    if |text| <= NONE {
      ItemColumns(h, w, f, text, 0);
    }
  }

  /** A string: the letters a and s print their argument up to its NUL, and "(null)" for a null
      pointer. */
  lemma StringDirective(fmt: seq<CHAR16>, i: nat, h: Head, k: nat, w: u64, f: u64, args: seq<Arg>, mid: seq<Arg>,
                        text: Option, rest: seq<Arg>, attr: u64, cfg: Config)
    requires Spelled(fmt, i, h, k) && fmt[k] in {0x61, 0x73}
    requires Supplies(h.width, w, args, mid) && Supplies(h.field, f, mid, [Str(text)] + rest)
    ensures var shown := if text.Some? then text.text else [0x28, 0x6e, 0x75, 0x6c, 0x6c, 0x29];
            |shown| <= NONE ==>
              Format(fmt, i, args, attr, cfg)
              == After(Shown(h, Columned(h, w, f, shown), attr, cfg),
                       Format(fmt, k + 1, rest, AttrBehind(h, attr, cfg), cfg))
  {
    hide Format, HeadChars, IsHead, Supplies, Shown, Columns, Columned, Laid, AttrBehind, ItemOf, CString;
    ItemFields(h, w, f);
    LetterDirective(fmt, i, h, k, w, f, args, mid, [Str(text)] + rest, attr, cfg);
    var shown := if text.Some? then text.text else [0x28, 0x6e, 0x75, 0x6c, 0x6c, 0x29];
    assert Ascii("(null)") == [0x28, 0x6e, 0x75, 0x6c, 0x6c, 0x29];
    if |shown| <= NONE {
      ItemColumns(h, w, f, shown, 0);
    }
  }

  /** A character: the letter c prints the low 16 bits of its argument. */
  lemma CharDirective(fmt: seq<CHAR16>, i: nat, h: Head, k: nat, w: u64, f: u64, args: seq<Arg>, mid: seq<Arg>,
                      arg: u64, rest: seq<Arg>, attr: u64, cfg: Config)
    requires Spelled(fmt, i, h, k) && fmt[k] == 0x63
    requires Supplies(h.width, w, args, mid) && Supplies(h.field, f, mid, [Word(arg)] + rest)
    ensures Format(fmt, i, args, attr, cfg)
            == After(Shown(h, Columned(h, w, f, [arg % 0x1_0000]), attr, cfg),
                     Format(fmt, k + 1, rest, AttrBehind(h, attr, cfg), cfg))
  {
    hide Format, HeadChars, IsHead, Supplies, Shown, Columns, Columned, Laid, AttrBehind, ItemOf, CString;
    ItemFields(h, w, f);
    LetterDirective(fmt, i, h, k, w, f, args, mid, [Word(arg)] + rest, attr, cfg);
    ItemColumns(h, w, f, [arg % 0x1_0000], 0);
  }

  /** A device path: the letter D prints the first 99 characters of its text. */
  lemma PathDirective(fmt: seq<CHAR16>, i: nat, h: Head, k: nat, w: u64, f: u64, args: seq<Arg>, mid: seq<Arg>,
                      arg: u64, rest: seq<Arg>, attr: u64, cfg: Config)
    requires Spelled(fmt, i, h, k) && fmt[k] == 0x44
    requires Supplies(h.width, w, args, mid) && Supplies(h.field, f, mid, [Word(arg)] + rest)
    ensures var whole := CString(cfg.convert('D', 0x2c in h.flags, 0x6c in h.flags, arg));
            Format(fmt, i, args, attr, cfg)
            == After(Shown(h, Columned(h, w, f, whole[..if |whole| < 99 then |whole| else 99]), attr, cfg),
                     Format(fmt, k + 1, rest, AttrBehind(h, attr, cfg), cfg))
  {
    hide Format, HeadChars, IsHead, Supplies, Shown, Columns, Columned, Laid, AttrBehind, ItemOf, CString;
    ItemFields(h, w, f);
    LetterDirective(fmt, i, h, k, w, f, args, mid, [Word(arg)] + rest, attr, cfg);
    var whole := CString(cfg.convert('D', 0x2c in h.flags, 0x6c in h.flags, arg));
    assert whole[..|whole|] == whole;
    ItemColumns(h, w, f, whole[..if |whole| < 99 then |whole| else 99], 0);
  }

  /** A pointer: the letter p prints "0x" and the hexadecimal number, without padding to a width. */
  lemma PointerDirective(fmt: seq<CHAR16>, i: nat, h: Head, k: nat, w: u64, f: u64, args: seq<Arg>, mid: seq<Arg>,
                         arg: u64, rest: seq<Arg>, attr: u64, cfg: Config)
    requires Spelled(fmt, i, h, k) && fmt[k] == 0x70
    requires Supplies(h.width, w, args, mid) && Supplies(h.field, f, mid, [Word(arg)] + rest)
    ensures var text := [0x30, 0x78] + cfg.convert('x', 0x2c in h.flags, 0x6c in h.flags, arg);
            |text| <= NONE ==>
              Format(fmt, i, args, attr, cfg)
              == After(Shown(h, Laid(text, !h.field.NoSize? && f != NONE, f, 0, 0x30, 0x2d in h.flags), attr, cfg),
                       Format(fmt, k + 1, rest, AttrBehind(h, attr, cfg), cfg))
  {
    hide Format, HeadChars, IsHead, Supplies, Shown, Columns, Columned, Laid, AttrBehind, ItemOf, CString;
    ItemFields(h, w, f);
    LetterDirective(fmt, i, h, k, w, f, args, mid, [Word(arg)] + rest, attr, cfg);
    var text := [0x30, 0x78] + cfg.convert('x', 0x2c in h.flags, 0x6c in h.flags, arg);
    assert Ascii("0x") == [0x30, 0x78];
    if |text| <= NONE {
      ItemColumns(h, w, f, text, 0);
    }
  }

  /** A fixed-width number: the letter X prints at least 8 hexadecimal digits, 16 under the flag l,
      with zeros in front, whatever width is asked for. */
  lemma FixedHexDirective(fmt: seq<CHAR16>, i: nat, h: Head, k: nat, w: u64, f: u64, args: seq<Arg>, mid: seq<Arg>,
                          arg: u64, rest: seq<Arg>, attr: u64, cfg: Config)
    requires Spelled(fmt, i, h, k) && fmt[k] == 0x58
    requires Supplies(h.width, w, args, mid) && Supplies(h.field, f, mid, [Word(arg)] + rest)
    ensures var text := cfg.convert('x', 0x2c in h.flags, 0x6c in h.flags, arg);
            var width := if 0x6c in h.flags then 16 else 8;
            |text| <= NONE ==>
              Format(fmt, i, args, attr, cfg)
              == After(Shown(h, Laid(text, !h.field.NoSize? && f != NONE, f, width, 0x30, 0x2d in h.flags), attr, cfg),
                       Format(fmt, k + 1, rest, AttrBehind(h, attr, cfg), cfg))
  {
    hide Format, HeadChars, IsHead, Supplies, Shown, Columns, Columned, Laid, AttrBehind, ItemOf, CString;
    ItemFields(h, w, f);
    LetterDirective(fmt, i, h, k, w, f, args, mid, [Word(arg)] + rest, attr, cfg);
    var text := cfg.convert('x', 0x2c in h.flags, 0x6c in h.flags, arg);
    if |text| <= NONE {
      ItemColumns(h, w, f, text, if 0x6c in h.flags then 16 else 8);
    }
  }

  /** A percent sign prints itself, any letter without a meaning a question mark; neither takes an
      argument. */
  lemma OtherDirective(fmt: seq<CHAR16>, i: nat, h: Head, k: nat, w: u64, f: u64, args: seq<Arg>, mid: seq<Arg>,
                       rest: seq<Arg>, attr: u64, cfg: Config)
    requires Spelled(fmt, i, h, k) && !IsFlag(fmt[k]) && !IsLower(fmt[k]) && !IsUpper(fmt[k])
    requires fmt[k] !in {0x61, 0x63, 0x44, 0x64, 0x66, 0x67, 0x70, 0x72, 0x73, 0x74, 0x75, 0x58, 0x78}
    requires Supplies(h.width, w, args, mid) && Supplies(h.field, f, mid, rest)
    ensures Format(fmt, i, args, attr, cfg)
            == After(Shown(h, Columned(h, w, f, [if fmt[k] == 0x25 then 0x25 else 0x3f]), attr, cfg),
                     Format(fmt, k + 1, rest, AttrBehind(h, attr, cfg), cfg))
  {
    hide Format, HeadChars, IsHead, Supplies, Shown, Columns, Columned, Laid, AttrBehind, ItemOf, CString;
    ItemFields(h, w, f);
    LetterDirective(fmt, i, h, k, w, f, args, mid, rest, attr, cfg);
    ItemColumns(h, w, f, [if fmt[k] == 0x25 then 0x25 else 0x3f], 0);
  }

  /** An attribute for good: it is set after those for the field and stays; 0 sets nothing. */
  lemma AttributeDirective(fmt: seq<CHAR16>, i: nat, h: Head, k: nat, w: u64, f: u64, args: seq<Arg>, mid: seq<Arg>,
                           rest: seq<Arg>, attr: u64, cfg: Config)
    requires Spelled(fmt, i, h, k) && fmt[k] in {0x45, 0x48, 0x4e}
    requires Supplies(h.width, w, args, mid) && Supplies(h.field, f, mid, rest)
    ensures var a := if fmt[k] == 0x45 then cfg.error else if fmt[k] == 0x48 then cfg.highlight else cfg.norm;
            a != 0 ==>
              Format(fmt, i, args, attr, cfg)
              == After(Changes(FieldAttrs(h.flags, cfg), cfg) + AttrTok(cfg, a), Format(fmt, k + 1, rest, a, cfg))
  {
    hide Format, HeadChars, IsHead, Supplies, Changes, FieldAttrs, ItemOf, AttrTok, ReadItem, Number, NextWord, WithWidth;
    ItemDirective(fmt, i, h, k, w, f, args, mid, rest, attr, cfg);
  }

  // ----- Formats of the boot stub -----

  /** A directive without widths prints its text as it is. */
  lemma Unpadded(flags: seq<CHAR16>, w: u64, f: u64, text: seq<CHAR16>)
    ensures Columned(Head(flags, NoSize, NoSize), w, f, text) == CString(text)
  {
    hide CString;
    var t := CString(text);
    assert Repeated(if 0x30 in flags then 0x30 else BLANK, 0) == [] && Repeated(BLANK, 0) == [];
    assert [] + t == t && t + [] == t;
  }

  /** The attributes that single flags stand for. */
  lemma FlagAttributes(flags: seq<CHAR16>, cfg: Config)
    requires |flags| == 1
    ensures flags[0] == 0x65 ==> FieldAttrs(flags, cfg) == [cfg.error]
    ensures flags[0] == 0x68 ==> FieldAttrs(flags, cfg) == [cfg.highlight]
    ensures flags[0] == 0x6e ==> FieldAttrs(flags, cfg) == [cfg.norm]
    ensures flags[0] in {0x2c, 0x2d, 0x30, 0x6c} ==> FieldAttrs(flags, cfg) == []
  {
    assert flags[1..] == [];
  }

  /** `%s` prints its argument up to the NUL, and "(null)" for a null pointer. */
  lemma PercentS(text: Option, rest: seq<Arg>, attr: u64, cfg: Config)
    requires text.Some? ==> |text.text| <= NONE
    ensures Format(Ascii("%s"), 0, [Str(text)] + rest, attr, cfg)
            == Done(Chars(if text.Some? then CString(text.text) else [0x28, 0x6e, 0x75, 0x6c, 0x6c, 0x29]), attr)
  {
    hide Format, CString, Chars, Columned, Laid;
    var fmt, h := Ascii("%s"), Head([], NoSize, NoSize);
    assert HeadChars(h) == [] && fmt[1..1] == [];
    assert Spelled(fmt, 0, h, 1);
    var args := [Str(text)] + rest;
    StringDirective(fmt, 0, h, 1, 0, 0, args, args, text, rest, attr, cfg);
    var none: seq<CHAR16> := [0x28, 0x6e, 0x75, 0x6c, 0x6c, 0x29];
    Unpadded([], 0, 0, if text.Some? then text.text else none);
    CStringEnds(none, 6);
    assert none[..6] == none;
    FormatEnd(fmt, rest, attr, cfg);
    ShownPlainly([], if text.Some? then CString(text.text) else none, attr, cfg);
  }

  lemma FormatEnd(fmt: seq<CHAR16>, args: seq<Arg>, attr: u64, cfg: Config)
    ensures Format(fmt, |fmt|, args, attr, cfg) == Done([], attr)
  {
  }

  /** Without an attribute for its field a directive shows its columns and nothing else. */
  lemma ShownPlainly(flags: seq<CHAR16>, columns: seq<CHAR16>, attr: u64, cfg: Config)
    requires FieldAttrs(flags, cfg) == []
    ensures var h := Head(flags, NoSize, NoSize);
            Shown(h, columns, attr, cfg) == Chars(columns) && AttrBehind(h, attr, cfg) == attr
  {
    assert [] + Chars(columns) + [] == Chars(columns);
  }

  /** `%lllx` and a newline: the hexadecimal number of a 64-bit argument on a line. */
  lemma PercentLongX(w: u64, rest: seq<Arg>, attr: u64, cfg: Config)
    requires |cfg.convert('x', false, true, w)| <= NONE
    ensures Format(Ascii("%lllx\n"), 0, [Word(w)] + rest, attr, cfg)
            == Done(Chars(CString(cfg.convert('x', false, true, w)) + [0xa]), attr)
  {
    hide Format, CString, Chars, Columned, Laid;
    var fmt, flags := Ascii("%lllx\n"), [0x6c, 0x6c, 0x6c];
    var h := Head(flags, NoSize, NoSize);
    assert HeadChars(h) == flags && fmt[1..4] == flags;
    assert Spelled(fmt, 0, h, 4);
    var args := [Word(w)] + rest;
    NumberDirective(fmt, 0, h, 4, 0, 0, args, args, w, rest, attr, cfg);
    Unpadded(flags, 0, 0, cfg.convert('x', false, true, w));
    NoFieldAttributes(flags, cfg);
    var t := CString(cfg.convert('x', false, true, w));
    ShownPlainly(flags, t, attr, cfg);
    FormatEnd(fmt, rest, attr, cfg);
    LastChar(fmt, 5, rest, attr, cfg);
    assert Chars(t) + [Ch(0xa)] == Chars(t + [0xa]) by { CharsOfOneMore(t, 0xa); }
  }

  lemma NoFieldAttributes(flags: seq<CHAR16>, cfg: Config)
    requires flags == [0x6c, 0x6c, 0x6c]
    ensures FieldAttrs(flags, cfg) == []
  {
    FlagAttrs(0x6c, [], 0, 0, cfg);
    FlagAttrs(0x6c, [0x6c], 0, 0, cfg);
    FlagAttrs(0x6c, [0x6c, 0x6c], 0, 0, cfg);
    assert [0x6c] + [] == [0x6c] && [0x6c] + [0x6c] == [0x6c, 0x6c] && [0x6c] + [0x6c, 0x6c] == flags;
  }

  lemma LastChar(fmt: seq<CHAR16>, i: nat, args: seq<Arg>, attr: u64, cfg: Config)
    requires i + 1 == |fmt| && fmt[i] != 0x25
    ensures Format(fmt, i, args, attr, cfg) == Done([Ch(fmt[i])], attr)
  {
    assert [Ch(fmt[i])] + [] == [Ch(fmt[i])];
  }

  lemma CharsOfOneMore(s: seq<CHAR16>, c: CHAR16)
    ensures Chars(s) + [Ch(c)] == Chars(s + [c])
  {
  }

  /** `%hx`: what the device is told, attribute changes included. */
  lemma PercentHX(w: u64, rest: seq<Arg>, attr: u64, cfg: Config)
    requires |cfg.convert('x', false, false, w)| <= NONE && cfg.canSet
    ensures Format(Ascii("%hx"), 0, [Word(w)] + rest, attr, cfg)
            == Done([Attribute(cfg.highlight)] + Chars(CString(cfg.convert('x', false, false, w)))
                    + (if attr != 0 then [Attribute(attr)] else []),
                    if attr != 0 then attr else cfg.highlight)
  {
    hide Format, CString, Chars, Columned, Laid;
    var fmt, flags := Ascii("%hx"), [0x68];
    var h := Head(flags, NoSize, NoSize);
    assert HeadChars(h) == flags && fmt[1..2] == flags;
    assert Spelled(fmt, 0, h, 2);
    var args := [Word(w)] + rest;
    NumberDirective(fmt, 0, h, 2, 0, 0, args, args, w, rest, attr, cfg);
    Unpadded(flags, 0, 0, cfg.convert('x', false, false, w));
    FlagAttributes(flags, cfg);
    FormatEnd(fmt, rest, AttrBehind(h, attr, cfg), cfg);
    var attrs := FieldAttrs(flags, cfg);
    assert attrs[1..] == [] && Changes(attrs, cfg) == [Attribute(cfg.highlight)] + [];
    var shown := Shown(h, CString(cfg.convert('x', false, false, w)), attr, cfg);
    assert shown + [] == shown;
  }

  /** An attribute for good that is 0 does not end a directive: `%Hx` prints a number. */
  lemma PercentZeroH(w: u64, rest: seq<Arg>, attr: u64, cfg: Config)
    requires cfg.highlight == 0 && |cfg.convert('x', false, false, w)| <= NONE
    ensures Format(Ascii("%Hx"), 0, [Word(w)] + rest, attr, cfg)
            == Done(Chars(CString(cfg.convert('x', false, false, w))), attr)
  {
    hide Format, CString, Chars, Columns, Laid;
    var fmt, args := Ascii("%Hx"), [Word(w)] + rest;
    var text := cfg.convert('x', false, false, w);
    assert Read(fmt, 1, FRESH_ITEM, args, cfg) == Upper(0);
    assert Read(fmt, 2, FRESH_ITEM, args, cfg) == Print(FRESH_ITEM, text, rest);
    ColumnsAreLaid(FRESH_ITEM, text);
    NoFieldLaid(text, 0, 0, 0x20, false);
    Unpadded([], 0, 0, text);
    LastDirective(fmt, args, attr, cfg);
  }
}
