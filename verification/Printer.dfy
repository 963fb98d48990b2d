/** The buffered formatter as it is written: a format parser, field padding, carriage returns
    before newlines, and a buffer of 200 characters that is handed to the output when it is
    full. It is proved to print what FormatSpec says. */
module Printer {
  import opened Bits
  import opened FormatSpec

  const PRINT_STRING_LEN: nat := 200

  /** What the device is told: a string to print, or an attribute. */
  datatype Event = Output(text: seq<CHAR16>) | SetAttr(attr: u64)

  // ----- The stream of events -----

  /** The characters and attribute changes that the device has seen. */
  function Stream(events: seq<Event>): seq<Tok>
    decreases |events|
  {
    if events == [] then []
    else
      var last := events[|events| - 1];
      Stream(events[..|events| - 1])
      + match last
        case Output(text) => Chars(text)
        case SetAttr(a) => [Attribute(a)]
  }

  function CharCount(toks: seq<Tok>): nat
    decreases |toks|
  {
    if toks == [] then 0
    else CharCount(toks[..|toks| - 1]) + if toks[|toks| - 1].Ch? then 1 else 0
  }

  /** The last element of a stream is a carriage return. */
  predicate EndsInCR(toks: seq<Tok>) {
    toks != [] && toks[|toks| - 1] == Ch(CR)
  }

  /** The counter of characters is 0 after e. */
  predicate CountIsZero(e: seq<Tok>) {
    CharCount(e) % 0x1_0000_0000_0000_0000 == 0
  }

  /** When a newline after the output e may get a carriage return, and when it may go without
      one. Only where e is a place at which the buffer was emptied can both be: the character
      before the buffer, on which the choice depends there, is not part of the output. */
  predicate MayAdd(e: seq<Tok>, emptied: set<nat>) {
    CountIsZero(e) || |e| in emptied || !EndsInCR(e)
  }

  predicate MayOmit(e: seq<Tok>, emptied: set<nat>) {
    !CountIsZero(e) && (|e| in emptied || EndsInCR(e))
  }

  /** e is a with carriage returns put in front of those newlines that need one, for a buffer
      that was emptied at the given places of e. */
  ghost predicate Expands(a: seq<Tok>, e: seq<Tok>, emptied: set<nat>)
    decreases |a|
  {
    if a == [] then e == []
    else
      var n, m := |a|, |e|;
      && m > 0 && e[m - 1] == a[n - 1]
      && if a[n - 1] == Ch(LF) then
           || (MayOmit(e[..m - 1], emptied) && Expands(a[..n - 1], e[..m - 1], emptied))
           || (m > 1 && e[m - 2] == Ch(CR) && MayAdd(e[..m - 2], emptied) && Expands(a[..n - 1], e[..m - 2], emptied))
         else
           Expands(a[..n - 1], e[..m - 1], emptied)
  }

  lemma ExpandSame(a: seq<Tok>, e: seq<Tok>, t: Tok, emptied: set<nat>)
    requires Expands(a, e, emptied) && (t == Ch(LF) ==> MayOmit(e, emptied))
    ensures Expands(a + [t], e + [t], emptied)
  {
    assert (a + [t])[..|a|] == a && (e + [t])[..|e|] == e;
  }

  lemma ExpandNewline(a: seq<Tok>, e: seq<Tok>, emptied: set<nat>)
    requires Expands(a, e, emptied) && MayAdd(e, emptied)
    ensures Expands(a + [Ch(LF)], e + [Ch(CR), Ch(LF)], emptied)
  {
    var e' := e + [Ch(CR), Ch(LF)];
    assert (a + [Ch(LF)])[..|a|] == a && e'[..|e'| - 2] == e;
  }

  /** The expansion before its last element. */
  lemma Peeled(a: seq<Tok>, e: seq<Tok>, emptied: set<nat>) returns (d: seq<Tok>)
    requires a != [] && Expands(a, e, emptied)
    ensures Expands(a[..|a| - 1], d, emptied)
    ensures var t := a[|a| - 1];
            || (e == d + [t] && (t == Ch(LF) ==> MayOmit(d, emptied)))
            || (t == Ch(LF) && e == d + [Ch(CR), t] && MayAdd(d, emptied))
  {
    hide MayAdd, MayOmit;
    var n, m := |a|, |e|;
    if Expands(a[..n - 1], e[..m - 1], emptied) && (a[n - 1] == Ch(LF) ==> MayOmit(e[..m - 1], emptied)) {
      d := e[..m - 1];
      assert e == d + [a[n - 1]];
    } else {
      d := e[..m - 2];
      assert e == d + [Ch(CR), a[n - 1]];
    }
  }

  lemma {:induction false} ExpandsMore(a: seq<Tok>, e: seq<Tok>, emptied: set<nat>, emptied': set<nat>)
    requires Expands(a, e, emptied) && emptied <= emptied'
    ensures Expands(a, e, emptied')
    decreases |a|
  {
    hide CountIsZero, EndsInCR, Expands;
    if a == [] {
      assert Expands([], [], emptied') && e == [] by { NothingExpands(e, emptied, emptied'); }
    } else {
      var t := a[|a| - 1];
      var d := Peeled(a, e, emptied);
      ExpandsMore(a[..|a| - 1], d, emptied, emptied');
      assert a == a[..|a| - 1] + [t];
      if e == d + [t] && (t == Ch(LF) ==> MayOmit(d, emptied)) {
        ExpandSame(a[..|a| - 1], d, t, emptied');
      } else {
        ExpandNewline(a[..|a| - 1], d, emptied');
      }
    }
  }

  lemma NothingExpands(e: seq<Tok>, emptied: set<nat>, emptied': set<nat>)
    ensures Expands([], e, emptied) ==> e == []
    ensures Expands([], [], emptied')
  {
  }

  /** No place inside e is in the set. */
  predicate NotInside(emptied: set<nat>, e: seq<Tok>) {
    forall k | k in emptied :: k == 0 || k >= |e|
  }

  /** Where the buffer is not emptied in the middle, it is settled which newlines get a carriage
      return. */
  lemma {:induction false} OneBufferOneExpansion(
      a: seq<Tok>, e: seq<Tok>, e': seq<Tok>, emptied: set<nat>, emptied': set<nat>)
    requires Expands(a, e, emptied) && Expands(a, e', emptied')
    requires NotInside(emptied, e) && NotInside(emptied', e')
    ensures e == e'
    decreases |a|
  {
    hide Expands, EndsInCR;
    if a == [] {
      NothingExpands(e, emptied, {});
      NothingExpands(e', emptied', {});
    } else {
      var d := Peeled(a, e, emptied);
      var d' := Peeled(a, e', emptied');
      OneBufferOneExpansion(a[..|a| - 1], d, d', emptied, emptied');
      assert CharCount([]) == 0;
    }
  }

  /** A stream with a carriage return in front of every newline. */
  function WithCRs(toks: seq<Tok>): seq<Tok>
    decreases |toks|
  {
    if toks == [] then []
    else
      var last := toks[|toks| - 1];
      WithCRs(toks[..|toks| - 1]) + if last == Ch(0xa) then [Ch(0xd), Ch(0xa)] else [last]
  }

  /** And it is settled like this: a text without carriage returns of its own gets one in front of
      every newline. */
  lemma {:induction false} EveryNewlineGetsOne(a: seq<Tok>, e: seq<Tok>, emptied: set<nat>)
    requires Expands(a, e, emptied) && NotInside(emptied, e) && Ch(0xd) !in a
    ensures e == WithCRs(a)
    ensures !EndsInCR(e)
    decreases |a|
  {
    hide Expands;
    if a == [] {
      NothingExpands(e, emptied, {});
    } else {
      var t := a[|a| - 1];
      var d := Peeled(a, e, emptied);
      EveryNewlineGetsOne(a[..|a| - 1], d, emptied);
      assert CharCount([]) == 0;
    }
  }

  /** A stream without its carriage returns. */
  function WithoutCR(toks: seq<Tok>): seq<Tok>
    decreases |toks|
  {
    if toks == [] then []
    else WithoutCR(toks[..|toks| - 1]) + if toks[|toks| - 1] == Ch(CR) then [] else [toks[|toks| - 1]]
  }

  lemma WithoutCROfOneMore(toks: seq<Tok>, t: Tok)
    ensures WithoutCR(toks + [t]) == WithoutCR(toks) + if t == Ch(CR) then [] else [t]
  {
    assert (toks + [t])[..|toks|] == toks;
  }

  /** Up to carriage returns an expansion is the stream itself, and a stream without newlines
      has no other expansion. */
  lemma {:induction false} ExpansionAddsOnlyCR(a: seq<Tok>, e: seq<Tok>, emptied: set<nat>)
    requires Expands(a, e, emptied)
    ensures WithoutCR(e) == WithoutCR(a)
    ensures Ch(LF) !in a ==> e == a
    decreases |a|
  {
    hide Expands, MayAdd, MayOmit, WithoutCR;
    if a == [] {
      NothingExpands(e, emptied, emptied);
    } else {
      var t := a[|a| - 1];
      var d := Peeled(a, e, emptied);
      ExpansionAddsOnlyCR(a[..|a| - 1], d, emptied);
      assert a == a[..|a| - 1] + [t] && d + [Ch(CR), t] == d + [Ch(CR)] + [t];
      WithoutCROfOneMore(a[..|a| - 1], t);
      WithoutCROfOneMore(d, t);
      WithoutCROfOneMore(d, Ch(CR));
      WithoutCROfOneMore(d + [Ch(CR)], t);
    }
  }

  /** What every string handed to the device is like: it fits the buffer, holds no NUL, and
      every newline in it, except as its first character, follows a carriage return. */
  predicate GoodText(text: seq<CHAR16>) {
    && |text| < 200
    && 0 !in text
    && forall k | 0 < k < |text| && text[k] == LF :: text[k - 1] == CR
  }

  // ----- What holds between two calls -----

  /** The places in the stream between two events, where the buffer was emptied. */
  ghost function Emptied(events: seq<Event>): set<nat> {
    set j | 0 <= j <= |events| :: |Stream(events[..j])|
  }

  /** What the device was told, followed by the text that waits in the buffer. */
  function EmittedBy(events: seq<Event>, waiting: seq<CHAR16>): seq<Tok> {
    Stream(events) + Chars(waiting)
  }

  /** The strings told and the waiting text are good, `len` counts all characters in 64 bits, and
      everything is an expansion of what was asked for. */
  ghost predicate Good(events: seq<Event>, waiting: seq<CHAR16>, len: u64, asked: seq<Tok>) {
    && GoodText(waiting)
    && (forall i | 0 <= i < |events| && events[i].Output? :: GoodText(events[i].text))
    && len == CharCount(EmittedBy(events, waiting)) % 0x1_0000_0000_0000_0000
    && Expands(asked, EmittedBy(events, waiting), Emptied(events))
  }

  /** A string as long as the buffer allows. */
  predicate FillsBuffer(event: Event) {
    event.Output? && |event.text| == 199
  }

  /** The buffer is only handed over when it is full or the attribute changes: every string that
      does not fill it is followed by a change. */
  predicate FullOrChange(events: seq<Event>) {
    forall i | 0 <= i < |events| && events[i].Output? ::
      FillsBuffer(events[i]) || (i + 1 < |events| && events[i + 1].SetAttr?)
  }

  lemma FullMore(events: seq<Event>, event: Event, attr: u64)
    requires FullOrChange(events)
    ensures FillsBuffer(event) ==> FullOrChange(events + [event])
    ensures FullOrChange(events + [event] + [SetAttr(attr)])
  {
  }

  function OneMoreChar(len: u64): u64 {
    (len + 1) % 0x1_0000_0000_0000_0000
  }

  lemma StreamAppend(events: seq<Event>, event: Event)
    ensures Stream(events + [event])
            == Stream(events) + match event case Output(text) => Chars(text) case SetAttr(a) => [Attribute(a)]
  {
    assert (events + [event])[..|events|] == events;
  }

  lemma EmptiedMore(events: seq<Event>, event: Event)
    ensures Emptied(events) <= Emptied(events + [event])
    ensures |Stream(events)| in Emptied(events)
  {
    var more := events + [event];
    assert events[..|events|] == events;
    forall k | k in Emptied(events)
      ensures k in Emptied(more)
    {
      var j :| 0 <= j <= |events| && k == |Stream(events[..j])|;
      assert more[..j] == events[..j];
    }
  }

  lemma FlushGood(events: seq<Event>, waiting: seq<CHAR16>, len: u64, asked: seq<Tok>)
    requires Good(events, waiting, len, asked)
    ensures NUL !in waiting
    ensures EmittedBy(events + [Output(waiting)], []) == EmittedBy(events, waiting)
    ensures Good(events + [Output(waiting)], [], len, asked)
    ensures Emptied(events) <= Emptied(events + [Output(waiting)])
  {
    hide Stream, Expands, Emptied, CharCount, Chars;
    StreamAppend(events, Output(waiting));
    EmptiedMore(events, Output(waiting));
    NoChars(Stream(events) + Chars(waiting));
    ExpandsMore(asked, EmittedBy(events, waiting), Emptied(events), Emptied(events + [Output(waiting)]));
    assert EmittedBy(events + [Output(waiting)], []) == EmittedBy(events, waiting);
  }

  lemma AttrGood(events: seq<Event>, len: u64, asked: seq<Tok>, a: u64)
    requires Good(events, [], len, asked)
    ensures Good(events + [SetAttr(a)], [], len, asked + [Attribute(a)])
  {
    hide Stream, Expands, Emptied, CharCount;
    var e := EmittedBy(events, []);
    StreamAppend(events, SetAttr(a));
    assert EmittedBy(events + [SetAttr(a)], []) == e + [Attribute(a)];
    EmptiedMore(events, SetAttr(a));
    ExpandsMore(asked, e, Emptied(events), Emptied(events + [SetAttr(a)]));
    ExpandSame(asked, e, Attribute(a), Emptied(events + [SetAttr(a)]));
    CountAppend(e, Attribute(a));
  }

  /** A character is added as it is; a newline only where it may go without a carriage return. */
  lemma CharGood(events: seq<Event>, waiting: seq<CHAR16>, len: u64, asked: seq<Tok>, c: CHAR16)
    requires Good(events, waiting, len, asked) && |waiting| + 1 < PRINT_STRING_LEN && c != NUL
    requires c == LF ==> len > 0 && (waiting != [] ==> waiting[|waiting| - 1] == CR)
    ensures EmittedBy(events, waiting + [c]) == EmittedBy(events, waiting) + [Ch(c)]
    ensures Good(events, waiting + [c], OneMoreChar(len), asked + [Ch(c)])
  {
    hide Stream, Chars, CharCount, Expands, GoodText, MayOmit, Emptied;
    var e := EmittedBy(events, waiting);
    if c == LF {
      WaitingEnds(events, waiting, len);
    }
    CharPlaced(events, waiting, len, asked, c);
    ExpandSame(asked, e, Ch(c), Emptied(events));
  }

  /** What a further character does to the text and the counter. */
  lemma CharPlaced(events: seq<Event>, waiting: seq<CHAR16>, len: u64, asked: seq<Tok>, c: CHAR16)
    requires Good(events, waiting, len, asked) && |waiting| + 1 < PRINT_STRING_LEN && c != NUL
    requires c == LF && waiting != [] ==> waiting[|waiting| - 1] == CR
    ensures var e := EmittedBy(events, waiting + [c]);
            && e == EmittedBy(events, waiting) + [Ch(c)]
            && GoodText(waiting + [c])
            && OneMoreChar(len) == CharCount(e) % 0x1_0000_0000_0000_0000
  {
    hide Stream, Chars, CharCount, Expands, GoodText, Emptied;
    var e := EmittedBy(events, waiting);
    CharsMore(Stream(events), waiting, c);
    TextMore(waiting, c);
    CountAppend(e, Ch(c));
    CountWraps(CharCount(e), len);
  }

  /** Where the last character in front of the next one is: in the buffer, or, when that is
      empty, out of sight. */
  lemma WaitingEnds(events: seq<Event>, waiting: seq<CHAR16>, len: u64)
    requires len == CharCount(EmittedBy(events, waiting)) % 0x1_0000_0000_0000_0000
    ensures var e := EmittedBy(events, waiting);
            && (CountIsZero(e) <==> len == 0)
            && (waiting == [] ==> |e| in Emptied(events))
            && (waiting != [] ==> (EndsInCR(e) <==> waiting[|waiting| - 1] == CR))
  {
    hide Stream, CharCount, Emptied;
    EmptiedMore(events, SetAttr(0));
    if waiting == [] {
      NoChars(Stream(events));
    }
  }

  lemma TextMore(waiting: seq<CHAR16>, c: CHAR16)
    requires GoodText(waiting) && |waiting| + 1 < PRINT_STRING_LEN && c != NUL
    requires c == LF && waiting != [] ==> waiting[|waiting| - 1] == CR
    ensures GoodText(waiting + [c])
  {
  }

  lemma CountWraps(n: nat, len: u64)
    requires len == n % 0x1_0000_0000_0000_0000
    ensures OneMoreChar(len) == (n + 1) % 0x1_0000_0000_0000_0000
  {
  }

  /** A newline after a carriage return that nobody asked for. */
  lemma NewlineGood(events: seq<Event>, waiting: seq<CHAR16>, len: u64, asked: seq<Tok>, e: seq<Tok>, emptied: set<nat>)
    requires Good(events, waiting, len, asked + [Ch(CR)]) && |waiting| + 1 < PRINT_STRING_LEN
    requires waiting != [] ==> waiting[|waiting| - 1] == CR
    requires Expands(asked, e, emptied) && MayAdd(e, emptied) && emptied <= Emptied(events)
    requires EmittedBy(events, waiting) == e + [Ch(CR)]
    ensures EmittedBy(events, waiting + [LF]) == e + [Ch(CR), Ch(LF)]
    ensures Good(events, waiting + [LF], OneMoreChar(len), asked + [Ch(LF)])
  {
    hide Stream, Chars, CharCount, Expands, GoodText, EmittedBy, Emptied, CountIsZero, EndsInCR;
    CharPlaced(events, waiting, len, asked + [Ch(CR)], LF);
    assert e + [Ch(CR)] + [Ch(LF)] == e + [Ch(CR), Ch(LF)];
    ExpandsMore(asked, e, emptied, Emptied(events));
    ExpandNewline(asked, e, Emptied(events));
  }

  lemma CountAppend(toks: seq<Tok>, t: Tok)
    ensures CharCount(toks + [t]) == CharCount(toks) + if t.Ch? then 1 else 0
  {
    assert (toks + [t])[..|toks|] == toks;
  }

  class PrintState {
    const fmt: seq<CHAR16>
    var index: nat
    var args: seq<Arg>

    const buffer: array<CHAR16>
    var pos: nat
    var len: u64

    var attr: u64
    var restoreAttr: u64
    const cfg: Config

    /** What the device was told so far. */
    var events: seq<Event>
    /** What it was asked to print, before carriage returns are added. */
    ghost var asked: seq<Tok>

    ghost function Emitted(): seq<Tok>
      requires pos <= buffer.Length
      reads this, buffer
    {
      EmittedBy(events, buffer[..pos])
    }

    ghost predicate Consistent()
      reads this, buffer
    {
      buffer.Length == PRINT_STRING_LEN && pos < PRINT_STRING_LEN && Good(events, buffer[..pos], len, asked)
    }

    /** Between two calls there is room for a character and the NUL. */
    ghost predicate Valid()
      reads this, buffer
    {
      Consistent() && pos < PRINT_STRING_LEN - 1 && (cfg.canSet ==> FullOrChange(events))
    }

    /** Only the output changed. */
    twostate predicate OnlyPrints()
      reads this
    {
      index == old(index) && args == old(args) && attr == old(attr) && restoreAttr == old(restoreAttr)
    }

    method PFLUSH()
      requires Consistent()
      modifies this, buffer
      ensures Consistent() && OnlyPrints()
      ensures events == old(events) + [Output(old(buffer[..pos]))]
      ensures pos == 0 && Emitted() == old(Emitted()) && asked == old(asked) && len == old(len)
      ensures Emptied(old(events)) <= Emptied(events)
    {
      hide Good, EmittedBy, CString, Emptied;
      ghost var waiting := buffer[..pos];
      FlushGood(events, waiting, len, asked);
      buffer[pos] := NUL;
      assert buffer[..][..pos] == waiting;
      CStringEnds(buffer[..], pos);
      events := events + [Output(CString(buffer[..]))];
      pos := 0;
      assert buffer[..0] == [];
    }

    method PSETATTR(a: u64)
      requires Valid()
      modifies this, buffer
      ensures Valid()
      ensures index == old(index) && args == old(args)
      ensures attr == a && restoreAttr == old(attr)
      ensures asked == old(asked) + AttrTok(cfg, a)
    {
      hide Good, EmittedBy, FullOrChange;
      if cfg.canSet {
        FullMore(events, Output(buffer[..pos]), a);
      }
      PFLUSH();
      restoreAttr := attr;
      assert buffer[..0] == [];
      if cfg.canSet {
        AttrGood(events, len, asked, a);
        events := events + [SetAttr(a)];
        asked := asked + [Attribute(a)];
      }
      attr := a;
    }

    /** The second half of PPUTC: the character goes into the buffer, which is handed over when it
        is full. */
    method Place(c: CHAR16, ghost wanted: seq<Tok>)
      requires Valid() && Good(events, buffer[..pos] + [c], OneMoreChar(len), wanted)
      modifies this, buffer
      ensures Valid() && OnlyPrints()
      ensures asked == wanted && Emitted() == EmittedBy(old(events), old(buffer[..pos]) + [c])
      ensures pos > 0 ==> buffer[pos - 1] == c
      ensures Emptied(old(events)) <= Emptied(events)
    {
      hide Good, EmittedBy, Emptied, OneMoreChar, FullOrChange;
      ghost var waiting := buffer[..pos];
      buffer[pos] := c;
      pos := pos + 1;
      len := OneMoreChar(len);
      asked := wanted;
      assert buffer[..pos] == waiting + [c];
      if pos >= PRINT_STRING_LEN - 1 {
        if cfg.canSet {
          FullMore(events, Output(buffer[..pos]), 0);
        }
        PFLUSH();
      }
    }

    /** A newline is given a carriage return unless the character before it is one. Right after
        a flush that character lies in front of the buffer, where anything may be. */
    method PPUTC(c: CHAR16)
      requires Valid() && c != NUL
      modifies this, buffer
      ensures Valid() && OnlyPrints()
      ensures asked == old(asked) + [Ch(c)]
      ensures var add := old(len) == 0 || (old(pos) > 0 && old(buffer[pos - 1]) != CR);
              var omit := old(len) > 0 && old(pos) > 0 && old(buffer[pos - 1]) == CR;
              && (c != LF || omit ==> Emitted() == old(Emitted()) + [Ch(c)])
              && (c == LF && add ==> Emitted() == old(Emitted()) + [Ch(CR), Ch(c)])
              && Emitted() in {old(Emitted()) + [Ch(c)], old(Emitted()) + [Ch(CR), Ch(c)]}
      ensures pos > 0 ==> buffer[pos - 1] == c
      ensures Emptied(old(events)) <= Emptied(events)
      decreases if c == LF then 1 else 0
    {
      hide Good, EmittedBy, Emptied, Expands, MayAdd, OneMoreChar, CharCount, Stream, FullOrChange;
      ghost var wanted, e, emptied := asked, Emitted(), Emptied(events);
      GoodExpands(events, buffer[..pos], len, asked);
      var inFrontOfBuffer: CHAR16 := *;
      var lastChar := if len > 0 then (if pos > 0 then buffer[pos - 1] else inFrontOfBuffer) else NUL;
      if c == LF && lastChar != CR {
        PPUTC(CR);
        NewlineGood(events, buffer[..pos], len, wanted, e, emptied);
      } else {
        CharGood(events, buffer[..pos], len, asked, c);
      }
      Place(c, wanted + [Ch(c)]);
    }

    /** The padding loops of PITEM: `for (i = from; i < to; i += 1)` a character. */
    method PutRepeated(c: CHAR16, from: u64, to: u64)
      requires Valid() && c != NUL
      modifies this, buffer
      ensures Valid() && OnlyPrints()
      ensures asked == old(asked) + Chars(Repeated(c, if to > from then to - from else 0))
    {
      hide Good, EmittedBy, Chars, Emitted;
      ghost var start := asked;
      NoChars(start);
      assert Repeated(c, 0) == [];
      var i: nat := from;
      while i < to
        invariant from <= i && (i <= to || i == from)
        invariant Valid() && OnlyPrints()
        invariant asked == start + Chars(Repeated(c, i - from))
      {
        PPUTC(c);
        CharsMore(start, Repeated(c, i - from), c);
        assert Repeated(c, i - from) + [c] == Repeated(c, i + 1 - from);
        i := i + 1;
      }
    }

    /** The length at which an item's text is cut: its NUL, or its field width. */
    method ItemLength(it: Item, text: seq<CHAR16>) returns (length: u64)
      ensures length == |Cut(it, text)|
    {
      hide CString;
      var index: nat := 0;
      CutChar(it, text, 0);
      while index < it.fieldWidth
        invariant index <= |Cut(it, text)| <= it.fieldWidth
        decreases it.fieldWidth - index
      {
        CutChar(it, text, index);
        var c := CharAt(text, index);
        index := index + 1;
        if c == NUL {
          index := index - 1;
          break;
        }
      }
      length := index;
    }

    /** The loop of PITEM that adds the item itself. */
    method PutText(it: Item, text: seq<CHAR16>, length: u64)
      requires Valid() && length == |Cut(it, text)|
      modifies this, buffer
      ensures Valid() && OnlyPrints()
      ensures asked == old(asked) + Chars(Cut(it, text))
    {
      hide Good, EmittedBy, Cut, Chars, Emitted;
      ghost var start, t := asked, Cut(it, text);
      NoChars(start);
      var i: nat := 0;
      while i < length
        invariant 0 <= i <= length
        invariant Valid() && OnlyPrints()
        invariant asked == start + Chars(t[..i])
      {
        CutChar(it, text, i);
        PPUTC(CharAt(text, i));
        CharsMore(start, t[..i], t[i]);
        assert t[..i] + [t[i]] == t[..i + 1];
        i := i + 1;
      }
      assert t[..length] == t;
    }

    /** Prints one item in its columns. */
    method PITEM(it: Item, text: seq<CHAR16>)
      requires Valid() && it.pad != NUL
      modifies this, buffer
      ensures Valid() && OnlyPrints()
      ensures asked == old(asked) + Chars(Columns(it, text))
    {
      hide Good, EmittedBy, Cut, Columns, Chars, Emitted, Repeated;
      var length := ItemLength(it, text);
      var fieldWidth := it.fieldWidth;
      var width := it.width;
      if fieldWidth == NONE {
        fieldWidth := length;
      }
      if length > width {
        width := length;
      }
      ColumnsInParts(asked, it, text);
      if it.padBefore {
        PutRepeated(BLANK, width, fieldWidth);
      }
      PutRepeated(it.pad, length, width);
      PutText(it, text, length);
      if !it.padBefore {
        PutRepeated(BLANK, width, fieldWidth);
      }
    }

    // ----- The format -----

    constructor (fmt: seq<CHAR16>, args: seq<Arg>, attr: u64, cfg: Config)
      ensures this.fmt == fmt && this.args == args && this.attr == attr && this.cfg == cfg
      ensures buffer.Length == PRINT_STRING_LEN && fresh(buffer) && events == []
    {
      this.fmt, this.args, this.attr, this.cfg := fmt, args, attr, cfg;
      buffer := new CHAR16[PRINT_STRING_LEN];
      events := [];
      asked := [];
      index, pos, len, restoreAttr := 0, 0, 0, 0;
    }

    method VaWord() returns (w: u64)
      modifies this`args
      ensures (w, args) == NextWord(old(args))
    {
      w := NextWord(args).0;
      args := NextWord(args).1;
    }

    method VaText() returns (t: seq<CHAR16>)
      modifies this`args
      ensures (t, args) == NextText(old(args))
    {
      t := NextText(args).0;
      args := NextText(args).1;
    }

    /** The do loop that reads a number. */
    method ReadNumber() returns (value: u64)
      requires index < |fmt| && IsDigit(fmt[index])
      modifies this`index
      ensures (value, index) == Number(fmt, old(index), 0)
      ensures index > old(index)
    {
      value := 0;
      var c := fmt[index];
      index := index + 1;
      value := (value * 10 + (c - 0x30)) % 0x1_0000_0000_0000_0000;
      c := CharAt(fmt, index);
      index := index + 1;
      while IsDigit(c)
        invariant old(index) < index - 1 <= |fmt| && c == CharAt(fmt, index - 1)
        invariant Number(fmt, index - 1, value) == Number(fmt, old(index), 0)
        decreases |fmt| + 1 - index
      {
        value := (value * 10 + (c - 0x30)) % 0x1_0000_0000_0000_0000;
        c := CharAt(fmt, index);
        index := index + 1;
      }
      index := index - 1;
    }

    /** The arms of the switch that convert the next argument to text. */
    method Convert(letter: char, it: Item) returns (text: Option)
      modifies this`args
      ensures var (w, rest) := NextWord(old(args));
              args == rest && text == Some(cfg.convert(letter, it.comma, it.long, w))
    {
      hide NextWord;
      var w := VaWord();
      text := Some(cfg.convert(letter, it.comma, it.long, w));
    }

    /** The arms of the switch that complete the directive. */
    method ReadItem(letter: char, before: Item) returns (it: Item, text: Option)
      modifies this`args
      ensures text.Some? && FormatSpec.ReadItem(letter, before, old(args), cfg) == FormatSpec.Print(it, text.text, args)
    {
      hide NextWord, NextText, CString, Ascii;
      it, text := before, None;
      var w: u64;
      var t: seq<CHAR16>;
      match letter {
        case '%' => text := Some([PERCENT]);
        case 'a' => t := VaText(); text := Some(t);
        case 'c' => w := VaWord(); text := Some([w % 0x1_0000]);
        case 'D' =>
          w := VaWord();
          t := CString(cfg.convert('D', it.comma, it.long, w));
          text := Some(if |t| > 99 then t[..99] else t);
        case 'd' => text := Convert('d', it);
        case 'f' => text := Convert('f', it);
        case 'g' => text := Convert('g', it);
        case 'p' =>
          it := it.(width := 0, pad := 0x30);
          text := Convert('x', it);
          text := Some(Ascii("0x") + text.text);
        case 'r' => text := Convert('r', it);
        case 's' => t := VaText(); text := Some(t);
        case 't' => text := Convert('t', it);
        case 'u' => text := Convert('u', it);
        case 'X' =>
          it := it.(width := if it.long then 16 else 8, pad := 0x30);
          text := Convert('x', it);
        case 'x' => text := Convert('x', it);
        case _ => text := Some([0x3f]);
      }
    }

    /** One round of the inner loop up to its switch: the item as far as it is known, the text
        to print, if the directive is complete, and the attribute to set for good. */
    method ReadSign(before: Item) returns (it: Item, text: Option, upper: u64)
      requires Valid() && index < |fmt|
      modifies this, buffer
      ensures Valid()
      ensures Does(Read(fmt, old(index), before, old(args), cfg), before, it, text, upper)
    {
      hide Good, EmittedBy, AttrTok, Number, WithWidth, NextWord, FormatSpec.ReadItem;
      it, text, upper := before, None, 0;
      var c := fmt[index];
      var w: u64;
      if IsDigit(c) && c != 0x30 {
        w := ReadNumber();
        it := WithWidth(it, w);
        return;
      }
      index := index + 1;
      match Letter(c) {
        case ',' => it := it.(comma := true);
        case '-' => it := it.(padBefore := false);
        case '*' => w := VaWord(); it := WithWidth(it, w);
        case '.' => it := it.(toField := true);
        case '0' => it := it.(pad := 0x30);
        case 'E' => upper := cfg.error;
        case 'e' => PSETATTR(cfg.error);
        case 'H' => upper := cfg.highlight;
        case 'h' => PSETATTR(cfg.highlight);
        case 'l' => it := it.(long := true);
        case 'N' => upper := cfg.norm;
        case 'n' => PSETATTR(cfg.norm);
        case letter => it, text := ReadItem(letter, it);
      }
    }

    /** What a round of the inner loop did, for each thing that a character can say. */
    twostate predicate Does(sign: Sign, before: Item, it: Item, text: Option, upper: u64)
      reads this
    {
      match sign
      case Flag(i, a, next) =>
        && it == i && text == None && upper == 0 && args == a && index == next
        && attr == old(attr) && restoreAttr == old(restoreAttr) && asked == old(asked)
      case Lower(a) =>
        && it == before && text == None && upper == 0 && args == old(args) && index == old(index) + 1
        && attr == a && restoreAttr == old(attr) && asked == old(asked) + AttrTok(cfg, a)
      case Upper(a) =>
        && it == before && text == None && upper == a && args == old(args) && index == old(index) + 1
        && attr == old(attr) && restoreAttr == old(restoreAttr) && asked == old(asked)
      case Print(i, t, a) =>
        && it == i && text == Some(t) && upper == 0 && args == a && index == old(index) + 1
        && attr == old(attr) && restoreAttr == old(restoreAttr) && asked == old(asked)
    }

    /** The inner loop: one directive, after its percent sign. */
    method PrintDirective() returns (closed: bool)
      requires Valid() && index <= |fmt|
      modifies this, buffer
      ensures Valid() && index <= |fmt|
      ensures var d := Directive(fmt, old(index), FRESH_ITEM, old(args), old(attr), 0, cfg);
              && (closed <==> d.Closed?)
              && (closed ==> index == d.next && args == d.args && attr == d.attr && asked == old(asked) + d.toks)
    {
      hide Good, EmittedBy, Emitted, Read, Columns, Chars, AttrTok, Directive, Before, Restored, FullOrChange;
      ghost var d := Directive(fmt, index, FRESH_ITEM, args, attr, 0, cfg);
      ghost var soFar: seq<Tok> := [];
      var it := FRESH_ITEM;
      restoreAttr := 0;
      closed := false;
      NothingBefore(d);
      while index < |fmt|
        invariant Valid() && index <= |fmt| && it.pad != NUL && !closed
        invariant asked == old(asked) + soFar
        invariant d == Before(soFar, Directive(fmt, index, it, args, attr, restoreAttr, cfg))
        decreases |fmt| - index
      {
        PadIsKept(fmt, index, it, args, cfg);
        DirectiveRound(d, soFar, fmt, index, it, args, attr, restoreAttr, cfg);
        ghost var sign := Read(fmt, index, it, args, cfg);
        var text, upper;
        it, text, upper := ReadSign(it);
        if text.Some? {
          PITEM(it, text.text);
          soFar := soFar + Chars(Columns(it, text.text));
          closed := true;
          break;
        }
        if upper != 0 {
          PSETATTR(upper);
          restoreAttr := 0;
          soFar := soFar + AttrTok(cfg, upper);
          closed := true;
          break;
        }
        if sign.Lower? {
          soFar := soFar + AttrTok(cfg, sign.attr);
        }
      }
      DirectiveEnds(d, soFar, fmt, index, it, args, attr, restoreAttr, cfg, closed);
      if restoreAttr != 0 {
        PSETATTR(restoreAttr);
      }
    }

    /** `_Print`. A format whose last directive does not close makes the source read past the
        terminator; the model stops there and says so. */
    method Print() returns (length: u64, overrun: bool)
      requires buffer.Length == PRINT_STRING_LEN && events == [] && NUL !in fmt
      modifies this, buffer
      ensures overrun <==> EndsInDirective(fmt, 0, cfg)
      ensures var f := Format(fmt, 0, old(args), old(attr), cfg);
              && (overrun <==> f.Overrun?)
              && (!overrun ==>
                   && attr == f.attr
                   && Expands(f.toks, Stream(events), Emptied(events))
                   && length == CharCount(Stream(events)) % 0x1_0000_0000_0000_0000
                   && (forall i | 0 <= i < |events| && events[i].Output? :: GoodText(events[i].text))
                   && events != [] && events[|events| - 1].Output?
                   && (cfg.canSet ==> FullOrChange(events[..|events| - 1])))
    {
      hide Good, EmittedBy, Emitted, Directive, Expands, Emptied, EndsInDirective, FullOrChange;
      ghost var f := Format(fmt, 0, args, attr, cfg);
      FormatEnds(fmt, 0, args, attr, cfg);
      len, pos, index := 0, 0, 0;
      asked := [];
      Beginning();
      assert buffer[..0] == [];
      while index < |fmt|
        invariant Valid() && index <= |fmt|
        invariant f == After(asked, Format(fmt, index, args, attr, cfg))
        decreases |fmt| - index
      {
        ghost var before := asked;
        ghost var rest := Format(fmt, index, args, attr, cfg);
        var c := fmt[index];
        index := index + 1;
        if c != PERCENT {
          PPUTC(c);
          AfterTwice(before, [Ch(c)], Format(fmt, index, args, attr, cfg));
        } else {
          ghost var d := Directive(fmt, index, FRESH_ITEM, args, attr, 0, cfg);
          var closed := PrintDirective();
          if !closed {
            return len, true;
          }
          AfterTwice(before, d.toks, Format(fmt, index, args, attr, cfg));
        }
      }
      assert asked + [] == asked;
      ghost var before := events;
      PFLUSH();
      assert events[..|events| - 1] == before;
      assert buffer[..0] == [];
      Finished(events, len, asked);
      return len, false;
    }
  }

  lemma PadIsKept(fmt: seq<CHAR16>, i: nat, it: Item, args: seq<Arg>, cfg: Config)
    requires i < |fmt| && it.pad != NUL
    ensures var sign := Read(fmt, i, it, args, cfg);
            (sign.Flag? || sign.Print?) ==> sign.it.pad != NUL
  {
    hide FormatSpec.ReadItem, Number, NextWord, IsDigit;
    ItemPadIsKept(Letter(fmt[i]), it, args, cfg);
  }

  lemma ItemPadIsKept(letter: char, it: Item, args: seq<Arg>, cfg: Config)
    requires it.pad != NUL
    ensures FormatSpec.ReadItem(letter, it, args, cfg).it.pad != NUL
  {
    hide CString, Ascii, NextWord, NextText;
  }

  lemma NothingBefore(d: Directed)
    ensures Before([], d) == d
  {
    if d.Closed? {
      assert [] + d.toks == d.toks;
    }
  }

  /** One character of a directive, seen after the output soFar. */
  lemma DirectiveRound(d: Directed, soFar: seq<Tok>, fmt: seq<CHAR16>, i: nat, it: Item, args: seq<Arg>,
                       attr: u64, restore: u64, cfg: Config)
    requires i < |fmt| && d == Before(soFar, Directive(fmt, i, it, args, attr, restore, cfg))
    ensures match Read(fmt, i, it, args, cfg)
            case Flag(it', args', next) => d == Before(soFar, Directive(fmt, next, it', args', attr, restore, cfg))
            case Lower(a) => d == Before(soFar + AttrTok(cfg, a), Directive(fmt, i + 1, it, args, a, attr, cfg))
            case Upper(a) =>
              if a != 0 then d == Restored(cfg, i + 1, soFar + AttrTok(cfg, a), args, a, 0)
              else d == Before(soFar, Directive(fmt, i + 1, it, args, attr, restore, cfg))
            case Print(it', text, args') =>
              d == Restored(cfg, i + 1, soFar + Chars(Columns(it', text)), args', attr, restore)
  {
    hide Read, Chars, Columns, AttrTok;
    match Read(fmt, i, it, args, cfg) {
      case Flag(_, _, _) =>
      case Lower(a) =>
        var rest := Directive(fmt, i + 1, it, args, a, attr, cfg);
        if rest.Closed? {
          assert soFar + AttrTok(cfg, a) + rest.toks == soFar + (AttrTok(cfg, a) + rest.toks);
        }
      case Upper(_) =>
      case Print(it', text, args') =>
        var toks := Chars(Columns(it', text));
        assert soFar + toks + AttrTok(cfg, restore) == soFar + (toks + AttrTok(cfg, restore));
    }
  }

  lemma DirectiveEnds(d: Directed, soFar: seq<Tok>, fmt: seq<CHAR16>, i: nat, it: Item, args: seq<Arg>,
                      attr: u64, restore: u64, cfg: Config, closed: bool)
    requires i <= |fmt|
    requires if closed then d == Restored(cfg, i, soFar, args, attr, restore)
             else i == |fmt| && d == Before(soFar, Directive(fmt, i, it, args, attr, restore, cfg))
    ensures if closed then
              d.Closed? && d.next == i && d.args == args
              && (if restore != 0 then d.toks == soFar + AttrTok(cfg, restore) && d.attr == restore
                  else d.toks == soFar && d.attr == attr)
            else d.Unclosed?
  {
  }

  lemma AfterTwice(s: seq<Tok>, t: seq<Tok>, f: Formatted)
    ensures After(s + t, f) == After(s, After(t, f))
  {
    if f.Done? {
      assert s + t + f.toks == s + (t + f.toks);
    }
  }

  lemma Beginning()
    ensures Good([], [], 0, []) && FullOrChange([])
  {
  }

  lemma Finished(events: seq<Event>, len: u64, asked: seq<Tok>)
    requires Good(events, [], len, asked)
    ensures len == CharCount(Stream(events)) % 0x1_0000_0000_0000_0000
    ensures Expands(asked, Stream(events), Emptied(events))
    ensures forall i | 0 <= i < |events| && events[i].Output? :: GoodText(events[i].text)
  {
    hide Stream, CharCount, Expands, Emptied;
    NoChars(Stream(events));
  }

  /** What a newline after the waiting text needs is what the last character says. */
  lemma GoodExpands(events: seq<Event>, waiting: seq<CHAR16>, len: u64, asked: seq<Tok>)
    requires Good(events, waiting, len, asked)
    ensures var e := EmittedBy(events, waiting);
            && Expands(asked, e, Emptied(events))
            && (len == 0 || waiting == [] || waiting[|waiting| - 1] != CR ==> MayAdd(e, Emptied(events)))
  {
    hide Stream, CharCount, Expands, EmittedBy, CountIsZero, EndsInCR, Emptied;
    WaitingEnds(events, waiting, len);
  }

  // ----- Items -----

  /** PGETC: a string is read with its terminator. */
  function CharAt(text: seq<CHAR16>, i: nat): CHAR16 {
    if i < |text| then text[i] else NUL
  }

  lemma CutChar(it: Item, text: seq<CHAR16>, i: nat)
    requires i <= |Cut(it, text)|
    ensures |Cut(it, text)| <= it.fieldWidth
    ensures i < |Cut(it, text)| ==> CharAt(text, i) == Cut(it, text)[i] != NUL
    ensures i == |Cut(it, text)| && i < it.fieldWidth ==> CharAt(text, i) == NUL
  {
  }

  lemma ColumnsInParts(start: seq<Tok>, it: Item, text: seq<CHAR16>)
    ensures var t := Cut(it, text);
            var field := if it.fieldWidth == NONE then |t| else it.fieldWidth;
            var width := if |t| > it.width then |t| else it.width;
            var blanks := Chars(Repeated(BLANK, if field > width then field - width else 0));
            var pads := Chars(Repeated(it.pad, if width > |t| then width - |t| else 0));
            start + Chars(Columns(it, text))
            == if it.padBefore then start + blanks + pads + Chars(t) else start + pads + Chars(t) + blanks
  {
    hide Cut, Repeated, Chars;
    var t := Cut(it, text);
    var field := if it.fieldWidth == NONE then |t| else it.fieldWidth;
    var width := if |t| > it.width then |t| else it.width;
    var blanks := Repeated(BLANK, if field > width then field - width else 0);
    var pads := Repeated(it.pad, width - |t|);
    var left, right := if it.padBefore then blanks else [], if it.padBefore then [] else blanks;
    assert Columns(it, text) == left + pads + t + right;
    CharsJoin(start, left, pads);
    CharsJoin(start, left + pads, t);
    CharsJoin(start, left + pads + t, right);
    NoChars(start);
    NoChars(start + Chars(left + pads + t));
    assert start + Chars(left + pads + t) + Chars([]) == start + Chars(left + pads + t);
    assert [] + pads == pads && [] + pads + t == pads + t && left + pads + t + [] == left + pads + t;
  }

  lemma NoChars(start: seq<Tok>)
    ensures start + Chars([]) == start
  {
  }

  lemma CharsMore(start: seq<Tok>, s: seq<CHAR16>, c: CHAR16)
    ensures start + Chars(s) + [Ch(c)] == start + Chars(s + [c])
  {
    assert Chars(s + [c]) == Chars(s) + [Ch(c)];
  }

  lemma CharsJoin(start: seq<Tok>, s: seq<CHAR16>, t: seq<CHAR16>)
    ensures start + Chars(s) + Chars(t) == start + Chars(s + t)
  {
    assert Chars(s + t) == Chars(s) + Chars(t);
  }
}
