/** The kernel's bitmap of physical frames, one bit a frame, and the set that it stands for. */
module FrameMap {
  import opened Bits
  import Scan = MemoryMapScan

  /** The frames whose bit is set. */
  function FramesOf(m: seq<u8>): set<nat> {
    set f: nat | f < 8 * |m| && Bit(m[f / 8], f % 8)
  }

  // ----- One byte -----

  lemma SetBitInByte(b: u8, k: nat)
    requires k < 8
    ensures Or(b, Pow2(k)) < 0x100
    ensures forall j: nat :: Bit(Or(b, Pow2(k)), j) <==> j == k || Bit(b, j)
  {
    assert Pow2(8) == 0x100;
    BitOfComplement(8, k, 0);
    OrBelow(b, Pow2(k), 8);
    forall j: nat
      ensures Bit(Or(b, Pow2(k)), j) <==> j == k || Bit(b, j)
    {
      BitOr(b, Pow2(k), j);
      BitOfPow2(k, j);
    }
  }

  lemma ClearBitInByte(b: u8, k: nat)
    requires k < 8
    ensures And(b, AllBut(k)) < 0x100
    ensures forall j: nat :: Bit(And(b, AllBut(k)), j) <==> j != k && Bit(b, j)
  {
    AndAtMost(b, AllBut(k));
    forall j: nat
      ensures Bit(And(b, AllBut(k)), j) <==> j != k && Bit(b, j)
    {
      ClearBitAt(b, k, j);
    }
  }

  /** `~(uint8_t)(1 << k)`, as far as it meets a byte. */
  function AllBut(k: nat): nat
    requires k < 8
  {
    assert Pow2(8) == 0x100;
    BitOfComplement(8, k, 0);
    0xff - Pow2(k)
  }

  lemma ClearBitAt(b: u8, k: nat, j: nat)
    requires k < 8
    ensures Bit(And(b, AllBut(k)), j) <==> j != k && Bit(b, j)
  {
    assert Pow2(8) == 0x100;
    BitOfComplement(8, k, j);
    assert AllBut(k) == Pow2(8) - 1 - Pow2(k);
    BitAnd(b, AllBut(k), j);
    BitsOfByte(b, j);
  }

  lemma BitsOfByte(b: u8, j: nat)
    ensures Bit(b, j) ==> j < 8
  {
    if j >= 8 {
      ShrIsDivision(b, 8);
      ShrSum(b, 8, j - 8);
      assert Pow2(8) == 0x100;
      BitOfZero(j - 8);
    }
  }

  lemma {:induction false} ShrSum(x: nat, a: nat, b: nat)
    ensures Shr(x, a + b) == Shr(Shr(x, a), b)
  {
    if a > 0 {
      ShrSum(x / 2, a - 1, b);
    }
  }

  /** Setting a clear bit adds its power of two... */
  lemma {:induction false} OrAddsBit(x: nat, k: nat)
    requires !Bit(x, k)
    ensures Or(x, Pow2(k)) == x + Pow2(k)
  {
    if k > 0 {
      OrAddsBit(x / 2, k - 1);
    }
  }

  /** ... and clearing a set one takes it away. */
  lemma AndDropsBit(b: u8, k: nat)
    requires k < 8 && Bit(b, k)
    ensures And(b, AllBut(k)) + Pow2(k) == b
  {
    hide Bit, And, Or, AllBut;
    var y := And(b, AllBut(k));
    ClearBitAt(b, k, k);
    OrAddsBit(y, k);
    forall j: nat
      ensures Bit(Or(y, Pow2(k)), j) <==> Bit(b, j)
    {
      BitOr(y, Pow2(k), j);
      BitOfPow2(k, j);
      ClearBitAt(b, k, j);
    }
    SameBits(Or(y, Pow2(k)), b);
  }

  lemma TestBitInByte(b: nat, k: nat)
    ensures And(Shr(b, k), 1) != 0 <==> Bit(b, k)
  {
    PresentBit(Shr(b, k));
  }

  // ----- The operations on values -----

  function Set(m: seq<u8>, f: nat): seq<u8>
    requires f < 8 * |m|
  {
    SetBitInByte(m[f / 8], f % 8);
    m[f / 8 := Or(m[f / 8], Pow2(f % 8))]
  }

  function Cleared(m: seq<u8>, f: nat): seq<u8>
    requires f < 8 * |m|
  {
    ClearBitInByte(m[f / 8], f % 8);
    m[f / 8 := And(m[f / 8], AllBut(f % 8))]
  }

  lemma SetAddsTheFrame(m: seq<u8>, f: nat)
    requires f < 8 * |m|
    ensures FramesOf(Set(m, f)) == FramesOf(m) + {f}
  {
    hide Bit, Or, Pow2;
    SetBitInByte(m[f / 8], f % 8);
    forall g: nat | g < 8 * |m|
      ensures g in FramesOf(Set(m, f)) <==> g == f || g in FramesOf(m)
    {
      if g / 8 == f / 8 {
        assert g % 8 == f % 8 <==> g == f;
      }
    }
  }

  lemma ClearedDropsTheFrame(m: seq<u8>, f: nat)
    requires f < 8 * |m|
    ensures FramesOf(Cleared(m, f)) == FramesOf(m) - {f}
  {
    hide Bit, And, Pow2, AllBut;
    ClearBitInByte(m[f / 8], f % 8);
    forall g: nat | g < 8 * |m|
      ensures g in FramesOf(Cleared(m, f)) <==> g != f && g in FramesOf(m)
    {
      var b := And(m[f / 8], AllBut(f % 8));
      assert Bit(b, g % 8) <==> g % 8 != f % 8 && Bit(m[f / 8], g % 8);
      if g / 8 == f / 8 {
        assert g % 8 == f % 8 <==> g == f;
      }
    }
  }

  /** The map is determined by the set it stands for. */
  lemma SameFrames(m: seq<u8>, m': seq<u8>)
    requires |m| == |m'| && FramesOf(m) == FramesOf(m')
    ensures m == m'
  {
    forall i | 0 <= i < |m|
      ensures m[i] == m'[i]
    {
      forall j: nat
        ensures Bit(m[i], j) <==> Bit(m'[i], j)
      {
        BitsOfByte(m[i], j);
        BitsOfByte(m'[i], j);
        if j < 8 {
          assert (8 * i + j) / 8 == i && (8 * i + j) % 8 == j;
          assert 8 * i + j in FramesOf(m) <==> 8 * i + j in FramesOf(m');
        }
      }
      SameBits(m[i], m'[i]);
    }
  }

  datatype Call = Alloc(address: u64) | Free(frame: u64) {
    function Frame(): nat {
      match this
      case Alloc(address) => address / 0x1000
      case Free(frame) => frame
    }
  }

  /** The map after one call, and what the call returns. */
  function Done(m: seq<u8>, call: Call): (r: (seq<u8>, int))
    requires call.Frame() < 8 * |m|
    ensures |r.0| == |m|
  {
    var f := call.Frame();
    var used := Bit(m[f / 8], f % 8);
    match call
    case Alloc(_) => if used then (m, -1) else (Set(m, f), 0)
    case Free(_) => if used then (Cleared(m, f), 0) else (m, -1)
  }

  // ----- The operations in place -----

  class FrameManager {
    const frameMap: array<u8>

    constructor (frameMap: array<u8>)
      ensures this.frameMap == frameMap
    {
      this.frameMap := frameMap;
    }

    /** Takes the byte address of a frame. The caller must keep to the map: the source does not
        check the index. */
    method AllocFrame(address: u64) returns (r: int)
      requires address / 0x1000 / 8 < frameMap.Length
      modifies frameMap
      ensures (frameMap[..], r) == Done(old(frameMap[..]), Alloc(address))
      ensures var f := address / 0x1000;
              && r == (if f in FramesOf(old(frameMap[..])) then -1 else 0)
              && FramesOf(frameMap[..]) == FramesOf(old(frameMap[..])) + {f}
              && (r == -1 ==> frameMap[..] == old(frameMap[..]))
      ensures var i, bit := address / 0x1000 / 8, address / 0x1000 % 8;
              r == 0 ==>
                && frameMap[i] == old(frameMap[i]) + Pow2(bit)
                && forall j | 0 <= j < frameMap.Length && j != i :: frameMap[j] == old(frameMap[j])
    {
      var f := address / 0x1000;
      var offset, bit := f / 8, f % 8;
      TestBitInByte(frameMap[offset], bit);
      if And(Shr(frameMap[offset], bit), 1) != 0 {
        assert f in FramesOf(frameMap[..]);
        return -1;
      }
      SetBitInByte(frameMap[offset], bit);
      SetAddsTheFrame(frameMap[..], f);
      OrAddsBit(frameMap[offset], bit);
      frameMap[offset] := Or(frameMap[offset], Pow2(bit));
      assert frameMap[..] == Set(old(frameMap[..]), f);
      return 0;
    }

    /** Takes a frame number. */
    method FreeFrame(f: u64) returns (r: int)
      requires f / 8 < frameMap.Length
      modifies frameMap
      ensures (frameMap[..], r) == Done(old(frameMap[..]), Free(f))
      ensures && r == (if f in FramesOf(old(frameMap[..])) then 0 else -1)
              && FramesOf(frameMap[..]) == FramesOf(old(frameMap[..])) - {f}
              && (r == -1 ==> frameMap[..] == old(frameMap[..]))
      ensures r == 0 ==>
                && frameMap[f / 8] + Pow2(f % 8) == old(frameMap[f / 8])
                && forall j | 0 <= j < frameMap.Length && j != f / 8 :: frameMap[j] == old(frameMap[j])
    {
      var offset, bit := f / 8, f % 8;
      TestBitInByte(frameMap[offset], bit);
      PresentBit(Shr(frameMap[offset], bit));
      if And(Shr(frameMap[offset], bit), 1) != 1 {
        assert f !in FramesOf(frameMap[..]);
        return -1;
      }
      ClearBitInByte(frameMap[offset], bit);
      ClearedDropsTheFrame(frameMap[..], f);
      AndDropsBit(frameMap[offset], bit);
      frameMap[offset] := And(frameMap[offset], AllBut(bit));
      assert frameMap[..] == Cleared(old(frameMap[..]), f);
      return 0;
    }
  }

  // ----- Sequences of calls -----

  predicate InRange(m: seq<u8>, calls: seq<Call>) {
    forall i | 0 <= i < |calls| :: calls[i].Frame() < 8 * |m|
  }

  /** The map after a sequence of calls, and what the calls return. */
  function RunCalls(m: seq<u8>, calls: seq<Call>): (r: (seq<u8>, seq<int>))
    requires InRange(m, calls)
    ensures |r.0| == |m| && |r.1| == |calls|
    decreases |calls|
  {
    if calls == [] then (m, [])
    else
      var (m1, r) := Done(m, calls[0]);
      assert forall i | 0 <= i < |calls[1..]| :: calls[1..][i] == calls[i + 1];
      var (m2, rs) := RunCalls(m1, calls[1..]);
      (m2, [r] + rs)
  }

  /** The same calls on a set of frame numbers. */
  function RunOnSet(s: set<nat>, calls: seq<Call>): (set<nat>, seq<int>)
    decreases |calls|
  {
    if calls == [] then (s, [])
    else
      var f := calls[0].Frame();
      var ok := calls[0].Alloc? == (f !in s);
      var s1 := if calls[0].Alloc? then s + {f} else s - {f};
      var (s2, rs) := RunOnSet(s1, calls[1..]);
      (s2, [if ok then 0 else -1] + rs)
  }

  lemma DoneOnSet(m: seq<u8>, call: Call)
    requires call.Frame() < 8 * |m|
    ensures var (m', r) := Done(m, call);
            var f := call.Frame();
            && FramesOf(m') == (if call.Alloc? then FramesOf(m) + {f} else FramesOf(m) - {f})
            && r == (if call.Alloc? == (f !in FramesOf(m)) then 0 else -1)
  {
    hide Bit;
    var f := call.Frame();
    assert f in FramesOf(m) <==> Bit(m[f / 8], f % 8);
    SetAddsTheFrame(m, f);
    ClearedDropsTheFrame(m, f);
  }

  /** Over every sequence of calls the bitmap behaves as the set of its frames, return codes
      included. */
  lemma {:induction false} BitmapIsASet(m: seq<u8>, calls: seq<Call>)
    requires InRange(m, calls)
    ensures var (m', rs) := RunCalls(m, calls);
            RunOnSet(FramesOf(m), calls) == (FramesOf(m'), rs)
    decreases |calls|
  {
    hide FramesOf, Done;
    if calls != [] {
      DoneOnSet(m, calls[0]);
      assert forall i | 0 <= i < |calls[1..]| :: calls[1..][i] == calls[i + 1];
      BitmapIsASet(Done(m, calls[0]).0, calls[1..]);
    }
  }

  /** Successful allocations minus successful frees. */
  function Balance(calls: seq<Call>, rs: seq<int>): int
    requires |calls| == |rs|
    decreases |calls|
  {
    if calls == [] then 0
    else (if rs[0] != 0 then 0 else if calls[0].Alloc? then 1 else -1) + Balance(calls[1..], rs[1..])
  }

  /** The number of set bits moves with the balance of the successful calls. */
  lemma {:induction false} FramesAreConserved(m: seq<u8>, calls: seq<Call>)
    requires InRange(m, calls)
    ensures var (m', rs) := RunCalls(m, calls);
            |FramesOf(m')| == |FramesOf(m)| + Balance(calls, rs)
    decreases |calls|
  {
    hide FramesOf, Done;
    if calls != [] {
      DoneOnSet(m, calls[0]);
      assert forall i | 0 <= i < |calls[1..]| :: calls[1..][i] == calls[i + 1];
      var (m1, r) := Done(m, calls[0]);
      FramesAreConserved(m1, calls[1..]);
      var rs := RunCalls(m, calls).1;
      assert rs[0] == r && rs[1..] == RunCalls(m1, calls[1..]).1;
      var f := calls[0].Frame();
      if f in FramesOf(m) {
        assert FramesOf(m) == (FramesOf(m) - {f}) + {f};
      }
      if calls[0].Alloc? {
        assert |FramesOf(m1)| == |FramesOf(m)| + if r == 0 then 1 else 0;
      } else {
        assert |FramesOf(m1)| == |FramesOf(m)| - if r == 0 then 1 else 0;
      }
    }
  }

  /** FreeFrame takes back an allocation bit for bit, when it is given the frame number. */
  lemma FreeUndoesAlloc(m: seq<u8>, address: u64)
    requires address / 0x1000 < 8 * |m| && address / 0x1000 !in FramesOf(m)
    ensures RunCalls(m, [Alloc(address), Free(address / 0x1000)]) == (m, [0, 0])
  {
    var calls := [Alloc(address), Free(address / 0x1000)];
    BitmapIsASet(m, calls);
    SetOfTwo(FramesOf(m), calls[0], calls[1]);
    SameFrames(RunCalls(m, calls).0, m);
  }

  lemma SetOfTwo(s: set<nat>, a: Call, b: Call)
    requires a.Alloc? && b.Free? && a.Frame() !in s
    ensures RunOnSet(s, [a, b]) == ((s + {a.Frame()}) - {b.Frame()}, [0, if b.Frame() in s + {a.Frame()} then 0 else -1])
  {
    var s1 := s + {a.Frame()};
    assert [a, b][0] == a && [a, b][1..] == [b] && [b][0] == b && [b][1..] == [];
    var r := if b.Frame() in s1 then 0 else -1;
    assert RunOnSet(s1, [b]) == (s1 - {b.Frame()}, [r] + []);
    assert [0] + ([r] + []) == [0, r];
  }

  /** AllocFrame takes an address but FreeFrame a frame number: handing the address to both
      restores the map for the frame at address 0 only. */
  lemma FreeByAddress(m: seq<u8>, address: u64)
    requires address < 8 * |m| && address / 0x1000 !in FramesOf(m)
    ensures address / 0x1000 < 8 * |m|
    ensures RunCalls(m, [Alloc(address), Free(address)]).0 == m <==> address == 0
  {
    hide FramesOf, RunCalls, RunOnSet;
    var calls := [Alloc(address), Free(address)];
    BitmapIsASet(m, calls);
    SetOfTwo(FramesOf(m), calls[0], calls[1]);
    if address == 0 {
      SameFrames(RunCalls(m, calls).0, m);
    } else {
      assert address / 0x1000 in FramesOf(RunCalls(m, calls).0);
    }
  }

  // ----- What the frame map covers -----

  /** The byte that holds the bit of an address lies in a map sized from MaxAddress as `efi_main`
      does it. */
  predicate InsideMap(maxAddress: u64, address: nat) {
    address / 0x1000 / 8 < maxAddress / 0x1000 / 8
  }

  lemma MapCovers(maxAddress: u64, address: nat)
    ensures InsideMap(maxAddress, address) <==> address / 0x8000 < maxAddress / 0x8000
  {
    DivByParts(address, 0x1000, 8);
    DivByParts(maxAddress, 0x1000, 8);
  }

  /** An address that some descriptor of the memory map describes. */
  ghost predicate Described(ds: seq<Scan.Descriptor>, address: nat) {
    exists i :: 0 <= i < |ds| && ds[i].start <= address < Scan.End(ds[i])
  }

  /** The frame map covers the described memory exactly when the scan finds the highest end and
      that end is a multiple of eight frames: a remainder of up to seven frames has no byte. */
  lemma MapCoversMemory(ds: seq<Scan.Descriptor>, k: nat)
    requires Scan.Separate(ds) && Scan.Highest(ds, |ds|, k)
    ensures (forall a: nat | Described(ds, a) :: InsideMap(Scan.Scanned(ds), a))
            <==> Scan.Joints(ds, k, ds[k].start) % 2 == 0 && Scan.End(ds[k]) % 0x8000 == 0
  {
    hide Scan.Scanned, Scan.Joints, Scan.End, InsideMap;
    var max, end := Scan.Scanned(ds), Scan.End(ds[k]);
    Scan.ScanOfAnyMap(ds, k);
    Scan.BoundedEnd(ds[k]);
    assert Described(ds, end - 1);
    MapCovers(max, end - 1);
    LastByte(end, max);
    if max == end && end % 0x8000 == 0 {
      forall a: nat | Described(ds, a)
        ensures InsideMap(max, a)
      {
        MapCovers(max, a);
      }
    }
  }

  lemma LastByte(end: u64, max: u64)
    requires end >= 1
    ensures max == end ==> ((end - 1) / 0x8000 < max / 0x8000 <==> end % 0x8000 == 0)
    ensures max < end ==> !((end - 1) / 0x8000 < max / 0x8000)
    ensures max == end && end % 0x8000 == 0 ==> forall a: nat | a < end :: a / 0x8000 < max / 0x8000
  {
  }
}
