/** The loops of `ACE_crc32.cpp` and `ACE_crc_ccitt.cpp`, which are the same at two widths, and what
    they compute with a table that is right. */
module TableCrc {
  import opened CrcDivision
  import opened Sequences

  type Word = bv32

  // Shift, exclusive or and parity are named so that proofs can treat them as symbols.
  function Xor(a: Word, b: Word): Word { a ^ b }
  function Half(x: Word): Word { x >> 1 }
  function And(a: Word, b: Word): Word { a & b }
  predicate Odd(x: Word) { x & 1 == 1 }

  /** Register width, generator (bits reversed), all ones, the highest bit, and the lookup table. */
  datatype Code = Code(width: nat, poly: Word, ones: Word, top: Word, entry: Word -> Word)

  /** The two widths of the source, a generator with its highest bit, and a table that does
      what eight division steps do. */
  ghost predicate Valid(k: Code)
  {
    && ((k.width == 32 && k.ones == 0xFFFFFFFF && k.top == 0x80000000) ||
       (k.width == 16 && k.ones == 0xFFFF && k.top == 0x8000))
    && And(k.poly, k.top) != 0 && Fits(k, k.poly)
    && forall x: Word :: x <= 0xFF ==> k.entry(x) == Shift8(k.poly, x)
  }

  /** A register value. */
  predicate Fits(k: Code, x: Word) { And(x, k.ones) == x }

  /** One step of the division: shift right and, if a one fell out, subtract the generator. */
  function Bit(p: Word, x: Word): Word
  {
    if Odd(x) then Xor(Half(x), p) else Half(x)
  }

  function Absorb(p: Word, c: Word, bit: bool): Word
  {
    Bit(p, if bit then Xor(c, 1) else c)
  }

  function Absorber(p: Word): (Word, bool) -> Word { (c, bit) => Absorb(p, c, bit) }

  /** The check value of message `m` after a message with check value `crc`, by bit-serial
      division; the register is complemented at both ends. */
  function Check(k: Code, m: seq<Octet>, crc: Word): Word
  {
    Xor(Divide(Absorber(k.poly), Xor(crc, k.ones), Bits(m)), k.ones)
  }

  /** The source's `COMPUTE`. */
  function Compute(k: Code, c: Word, ch: Octet): Word
  {
    Xor(k.entry(Xor(c, ch as Word) & 0xFF), c >> 8)
  }

  /** One step through the table divides eight bits in. */
  method Step(k: Code, crc: Word, ch: Octet) returns (r: Word)
    requires Valid(k)
    ensures r == Divide(Absorber(k.poly), crc, ByteBits(ch))
  {
    ComputeDivides(k, crc, ch);
    return Compute(k, crc, ch);
  }

  method OfString(k: Code, s: seq<Octet>) returns (r: Word)
    requires Valid(k) && 0 in s
    ensures r == Check(k, UpTo(s, 0), 0)
  {
    hide Divide; hide Bits;
    var crc := k.ones;
    var p := 0;
    PlusZero(k.ones);
    NothingRead(k.poly, crc);
    while s[p] != 0
      invariant 0 <= p < |s| && forall i :: 0 <= i < p ==> s[i] != 0
      invariant crc == Divide(Absorber(k.poly), k.ones, Bits(s[..p]))
      decreases |s| - p
    {
      Extend(k.poly, k.ones, s[..p], s[p]);
      assert s[..p + 1] == s[..p] + [s[p]];
      crc := Step(k, crc, s[p]);
      p := p + 1;
    }
    UpToIs(s, 0, p);
    return Xor(crc, k.ones);
  }

  method OfBuffer(k: Code, buffer: seq<Octet>, crc0: Word) returns (r: Word)
    requires Valid(k)
    ensures r == Check(k, buffer, crc0)
  {
    hide Divide; hide Bits;
    var crc := Xor(crc0, k.ones);
    var p := 0;
    NothingRead(k.poly, crc);
    while p != |buffer|
      invariant 0 <= p <= |buffer|
      invariant crc == Divide(Absorber(k.poly), Xor(crc0, k.ones), Bits(buffer[..p]))
    {
      Extend(k.poly, Xor(crc0, k.ones), buffer[..p], buffer[p]);
      assert buffer[..p + 1] == buffer[..p] + [buffer[p]];
      crc := Step(k, crc, buffer[p]);
      p := p + 1;
    }
    assert buffer[..p] == buffer;
    return Xor(crc, k.ones);
  }

  method OfIovec(k: Code, iov: seq<seq<Octet>>, crc0: Word) returns (r: Word)
    requires Valid(k)
    ensures r == Check(k, Flatten(iov), crc0)
  {
    hide Divide; hide Bits; hide Flatten;
    var crc := Xor(crc0, k.ones);
    NothingRead(k.poly, crc);
    for i := 0 to |iov|
      invariant crc == Divide(Absorber(k.poly), Xor(crc0, k.ones), Bits(Flatten(iov[..i])))
    {
      ghost var start := crc;
      NothingRead(k.poly, start);
      var p := 0;
      while p != |iov[i]|
        invariant 0 <= p <= |iov[i]|
        invariant crc == Divide(Absorber(k.poly), start, Bits(iov[i][..p]))
      {
        Extend(k.poly, start, iov[i][..p], iov[i][p]);
        assert iov[i][..p + 1] == iov[i][..p] + [iov[i][p]];
        crc := Step(k, crc, iov[i][p]);
        p := p + 1;
      }
      assert iov[i][..p] == iov[i] && iov[..i + 1] == iov[..i] + [iov[i]];
      DivideMessages(Absorber(k.poly), Xor(crc0, k.ones), Flatten(iov[..i]), iov[i]);
      FlattenConcat(iov[..i], [iov[i]]);
      FlattenFirst(iov[i], []);
    }
    assert iov[..|iov|] == iov;
    return Xor(crc, k.ones);
  }

  lemma NothingRead(p: Word, c: Word)
    ensures Divide(Absorber(p), c, Bits([])) == c && Flatten<Octet>([]) == []
  {
  }

  lemma Extend(p: Word, c: Word, m: seq<Octet>, b: Octet)
    ensures Divide(Absorber(p), c, Bits(m + [b])) == Divide(Absorber(p), Divide(Absorber(p), c, Bits(m)), ByteBits(b))
  {
    DivideMessages(Absorber(p), c, m, [b]);
    DivideOneByte(Absorber(p), Divide(Absorber(p), c, Bits(m)), b);
  }

  /** Check values chain: the check value of `b` started from that of `a` is that of both
      written one after the other. */
  lemma CheckChains(k: Code, a: seq<Octet>, b: seq<Octet>, crc: Word)
    ensures Check(k, b, Check(k, a, crc)) == Check(k, a + b, crc)
  {
    DivideMessages(Absorber(k.poly), Xor(crc, k.ones), a, b);
    Twice(Divide(Absorber(k.poly), Xor(crc, k.ones), Bits(a)), k.ones);
  }

  /** Every error burst of up to the width of the register is seen, at any bit position of a message
      of any length, from any starting value. */
  lemma BurstIsSeen(k: Code, m: seq<Octet>, n: seq<Octet>, at: nat, crc: Word)
    requires Valid(k) && Fits(k, crc) && WithinBurst(m, n, at, k.width) && m != n
    ensures Check(k, m, crc) != Check(k, n, crc)
  {
    hide Valid;
    var near := (x: Word, y: Word, j: nat) => Near(k, x, y, j);
    var ok := (x: Word) => Fits(k, x);
    AbsorbSeparates(k, near, ok);
    FitsComplement(k, crc);
    var start := Xor(crc, k.ones);
    assert ok(start);
    BurstSeparates(Absorber(k.poly), near, ok, k.width, start, m, n, at);
    Twice(Divide(Absorber(k.poly), start, Bits(m)), k.ones);
    Twice(Divide(Absorber(k.poly), start, Bits(n)), k.ones);
  }

  lemma FitsInWord(k: Code, x: Word)
    requires Valid(k) && x <= k.ones
    ensures Fits(k, x)
  {
  }

  lemma FitsComplement(k: Code, x: Word)
    requires Fits(k, x)
    ensures Fits(k, Xor(x, k.ones))
  {
  }

  // ----- check bytes behind the message -----

  function Down(x: Word): Word { x >> 8 }

  /** The low `n` bytes of a check value, lowest first. */
  function CheckBytes(n: nat, v: Word): seq<Octet>
  {
    if n == 0 then [] else [(v & 0xFF) as Octet] + CheckBytes(n - 1, Down(v))
  }

  /** What is left of a register when `n` bytes of it have moved out. */
  function Rest(n: nat, w: Word): Word { if n == 0 then w else Rest(n - 1, Down(w)) }

  predicate AllOnes(n: nat, f: Word) { n == 0 || (f & 0xFF == 0xFF && AllOnes(n - 1, Down(f))) }

  /** The register after `n` bytes of ones. */
  function Tail(p: Word, n: nat, o: Word): Word { if n == 0 then o else Tail(p, n - 1, Shift8(p, Xor(o, 0xFF))) }

  lemma TailOnce(p: Word, n: nat, o: Word, next: Word)
    requires n > 0 && Shift8(p, Xor(o, 0xFF)) == next
    ensures Tail(p, n, o) == Tail(p, n - 1, next)
  {
    hide Shift8; hide Xor;
  }

  /** The check value of every message that is followed by its own check value. */
  function Residue(k: Code): Word { Xor(Tail(k.poly, k.width / 8, 0), k.ones) }

  /** A message followed by its check value, lowest byte first, has a check value that does not depend on the
      message or the start value: the register is complemented at the end. */
  lemma AppendedIsConstant(k: Code, m: seq<Octet>, crc: Word)
    requires Valid(k) && Fits(k, crc)
    ensures Check(k, m + CheckBytes(k.width / 8, Check(k, m, crc)), crc) == Residue(k)
  {
    hide Bits; hide Divide; hide CheckBytes; hide Shift8; hide Tail;
    var start, n := Xor(crc, k.ones), k.width / 8;
    var w := Divide(Absorber(k.poly), start, Bits(m));
    FitsComplement(k, crc);
    StaysInRegister(k, start, Bits(m));
    NothingLeft(k, w);
    DivideMessages(Absorber(k.poly), start, m, CheckBytes(n, Xor(w, k.ones)));
    PlusZero(w);
    CheckBytesDivide(k.poly, 0, w, k.ones, n);
    PlusZero(Tail(k.poly, n, 0));
  }

  lemma {:induction false} StaysInRegister(k: Code, c: Word, bits: seq<bool>)
    requires Valid(k) && Fits(k, c)
    ensures Fits(k, Divide(Absorber(k.poly), c, bits))
    decreases |bits|
  {
    hide Valid; hide Fits; hide Absorb;
    if bits != [] {
      AbsorbFits(k, c, bits[0]);
      StaysInRegister(k, Absorb(k.poly, c, bits[0]), bits[1..]);
    }
  }

  lemma NothingLeft(k: Code, w: Word)
    requires Valid(k) && Fits(k, w)
    ensures Rest(k.width / 8, w) == 0 && AllOnes(k.width / 8, k.ones)
  {
    hide Shift8;
    if k.width == 32 { Rest32(w); } else { Rest16(w); }
  }

  lemma Rest32(w: Word)
    ensures Rest(4, w) == 0 && AllOnes(4, 0xFFFFFFFF)
  {
    FourBytes(w);
    RestOnce(4, w);
    RestOnce(3, Down(w));
    RestOnce(2, Down(Down(w)));
    RestOnce(1, Down(Down(Down(w))));
    OnesOnce(1, 0xFF);
    OnesOnce(2, 0xFFFF);
    OnesOnce(3, 0xFFFFFF);
    OnesOnce(4, 0xFFFFFFFF);
    hide Rest; hide AllOnes;
  }

  lemma Rest16(w: Word)
    requires w & 0xFFFF == w
    ensures Rest(2, w) == 0 && AllOnes(2, 0xFFFF)
  {
    TwoBytes(w);
    RestOnce(2, w);
    RestOnce(1, Down(w));
    OnesOnce(1, 0xFF);
    OnesOnce(2, 0xFFFF);
    hide Rest; hide AllOnes;
  }

  lemma FourBytes(w: Word) ensures Down(Down(Down(Down(w)))) == 0 {}

  lemma TwoBytes(w: Word)
    requires w & 0xFFFF == w
    ensures Down(Down(w)) == 0
  {
  }

  lemma RestOnce(n: nat, w: Word)
    requires n > 0
    ensures Rest(n, w) == Rest(n - 1, Down(w)) && Rest(0, Down(w)) == Down(w)
  {
  }

  lemma OnesOnce(n: nat, f: Word)
    requires n > 0 && f & 0xFF == 0xFF
    ensures AllOnes(n, f) == AllOnes(n - 1, Down(f)) && AllOnes(0, Down(f))
  {
  }

  lemma {:induction false} CheckBytesDivide(p: Word, o: Word, w: Word, f: Word, n: nat)
    requires AllOnes(n, f)
    ensures Divide(Absorber(p), Xor(o, w), Bits(CheckBytes(n, Xor(w, f)))) == Xor(Tail(p, n, o), Rest(n, w))
    decreases n
  {
    if n > 0 {
      var b, rest := (Xor(w, f) & 0xFF) as Octet, CheckBytes(n - 1, Down(Xor(w, f)));
      DownXor(w, f);
      LowByte(Xor(w, f));
      LowComplement(w, f);
      CheckByteDivides(p, o, w, b);
      hide Shift8; hide Divide; hide Xor; hide Down;
      FirstBits(b, rest);
      DivideConcat(Absorber(p), Xor(o, w), ByteBits(b), Bits(rest));
      CheckBytesDivide(p, Shift8(p, Xor(o, 0xFF)), Down(w), Down(f), n - 1);
    }
  }

  lemma FirstBits(b: Octet, rest: seq<Octet>)
    ensures Bits([b] + rest) == ByteBits(b) + Bits(rest)
  {
    hide ByteBits;
    assert ([b] + rest)[1..] == rest;
  }

  lemma DownXor(w: Word, f: Word) ensures Down(Xor(w, f)) == Xor(Down(w), Down(f)) {}

  lemma LowByte(x: Word) ensures ((x & 0xFF) as Octet) as Word == x & 0xFF {}

  lemma LowComplement(w: Word, f: Word)
    requires f & 0xFF == 0xFF
    ensures Xor(w & 0xFF, Xor(w, f) & 0xFF) == 0xFF
  {
  }

  lemma ShiftOfParts(p: Word, x: Word, lo: Word, hi: Word)
    requires x == Xor(lo, hi)
    ensures Shift8(p, x) == Xor(Shift8(p, lo), Shift8(p, hi))
  {
    hide Shift8; hide Xor;
    Shift8Xor(p, lo, hi);
  }

  /** A table step is eight division steps, whatever the register. */
  lemma TableStep(p: Word, x: Word, e: Word)
    requires e == Shift8(p, x & 0xFF)
    ensures Shift8(p, x) == Xor(e, x >> 8)
  {
    SplitWord(x);
    HighShift(p, x);
    hide Shift8; hide Xor;
    ShiftOfParts(p, x, x & 0xFF, x & 0xFFFFFF00);
  }

  lemma HighShift(p: Word, x: Word)
    ensures Shift8(p, x & 0xFFFFFF00) == x >> 8
  {
    HighOnly(x);
    ShiftOfHighPart(p, x & 0xFFFFFF00);
    hide Shift8;
  }

  /** A byte that is the complement of the register's lowest. */
  lemma CheckByteDivides(p: Word, o: Word, w: Word, b: Octet)
    requires Xor(w & 0xFF, b as Word) == 0xFF
    ensures Divide(Absorber(p), Xor(o, w), ByteBits(b)) == Xor(Shift8(p, Xor(o, 0xFF)), Down(w))
  {
    hide Shift8; hide Divide; hide Xor;
    var v, hi := b as Word, w & 0xFFFFFF00;
    DivideByte(p, Xor(o, w), b);
    Complemented(o, w, v);
    HighOnly(w);
    ShiftOfHighPart(p, hi);
    Shift8Xor(p, Xor(o, 0xFF), hi);
  }

  lemma HighOnly(w: Word)
    ensures (w & 0xFFFFFF00) & 0xFF == 0 && (w & 0xFFFFFF00) >> 8 == w >> 8
  {
  }

  lemma Complemented(o: Word, w: Word, v: Word)
    requires Xor(w & 0xFF, v) == 0xFF
    ensures Xor(Xor(o, w), v) == Xor(Xor(o, 0xFF), w & 0xFFFFFF00)
  {
    hide Xor;
    var lo, hi := w & 0xFF, w & 0xFFFFFF00;
    SplitWord(w);
    Assoc(o, lo, hi);
    Commute(Xor(o, lo), v, hi);
    Assoc(o, lo, v);
  }

  // ----- algebra -----

  lemma Twice(a: Word, b: Word) ensures Xor(Xor(a, b), b) == a {}
  lemma Swap(a: Word, b: Word) ensures Xor(a, b) == Xor(b, a) {}
  lemma Assoc(a: Word, b: Word, p: Word) ensures Xor(a, Xor(b, p)) == Xor(Xor(a, b), p) {}
  lemma Zero(a: Word, b: Word)
    requires Xor(a, b) == 0
    ensures a == b
  {
  }

  lemma Self(a: Word) ensures Xor(a, a) == 0 {}
  lemma PlusZero(d: Word) ensures Xor(d, 0) == d == Xor(0, d) {}

  lemma Commute(a: Word, b: Word, p: Word)
    ensures Xor(Xor(a, p), b) == Xor(Xor(a, b), p)
  {
    Assoc(a, p, b);
    Assoc(a, b, p);
    Swap(p, b);
  }

  lemma Cancel(a: Word, b: Word, p: Word)
    ensures Xor(Xor(a, p), Xor(b, p)) == Xor(a, b)
  {
    Assoc(Xor(a, p), b, p);
    Commute(a, b, p);
    Twice(Xor(a, b), p);
  }

  lemma Parts(x: Word, y: Word)
    ensures Half(Xor(x, y)) == Xor(Half(x), Half(y))
    ensures Odd(Xor(x, y)) == (Odd(x) != Odd(y))
  {
  }

  lemma BitXor(p: Word, x: Word, y: Word)
    ensures Bit(p, Xor(x, y)) == Xor(Bit(p, x), Bit(p, y))
  {
    hide Xor; hide Half; hide Odd;
    Parts(x, y);
    if Odd(x) {
      if Odd(y) { Cancel(Half(x), Half(y), p); } else { Commute(Half(x), Half(y), p); }
    } else if Odd(y) {
      Assoc(Half(x), Half(y), p);
    }
  }

  // ----- one table step is eight division steps -----

  function Shift4(p: Word, x: Word): Word { Bit(p, Bit(p, Bit(p, Bit(p, x)))) }

  function Shift8(p: Word, x: Word): Word { Shift4(p, Shift4(p, x)) }

  lemma Shift4Xor(p: Word, x: Word, y: Word)
    ensures Shift4(p, Xor(x, y)) == Xor(Shift4(p, x), Shift4(p, y))
  {
    hide Bit; hide Xor;
    BitXor(p, x, y);
    var x1, y1 := Bit(p, x), Bit(p, y);
    BitXor(p, x1, y1);
    var x2, y2 := Bit(p, x1), Bit(p, y1);
    BitXor(p, x2, y2);
    BitXor(p, Bit(p, x2), Bit(p, y2));
  }

  lemma Shift8Xor(p: Word, x: Word, y: Word)
    ensures Shift8(p, Xor(x, y)) == Xor(Shift8(p, x), Shift8(p, y))
  {
    hide Shift4; hide Xor;
    Shift4Xor(p, x, y);
    Shift4Xor(p, Shift4(p, x), Shift4(p, y));
  }

  lemma LowBit(p: Word, r: Word) returns (z: Word)
    ensures r == if Odd(r) then Xor(z, 1) else z
    ensures Bit(p, z) == Half(r)
  {
    z := r & 0xFFFFFFFE;
  }

  /** Message bits may be added to the register all at once or one by one: those not yet
      at the low end only move. */
  lemma Feed(p: Word, d: Word, r: Word)
    ensures Bit(p, Xor(d, r)) == Xor(Absorb(p, d, Odd(r)), Half(r))
  {
    hide Bit; hide Xor; hide Odd; hide Half;
    var z := LowBit(p, r);
    Assoc(d, z, 1);
    Commute(d, z, 1);
    BitXor(p, if Odd(r) then Xor(d, 1) else d, z);
  }

  /** `t` lists the four low bits of `r0`, and `r4` is the rest of it. */
  ghost predicate Nibble(t: seq<bool>, r0: Word, r4: Word)
  {
    && |t| == 4 && r4 == Half(Half(Half(Half(r0))))
    && t[0] == Odd(r0) && t[1] == Odd(Half(r0)) && t[2] == Odd(Half(Half(r0))) && t[3] == Odd(Half(Half(Half(r0))))
  }

  lemma ByteHalves(b: Octet) returns (mid: Word)
    ensures Nibble(ByteBits(b)[..4], b as Word, mid) && Nibble(ByteBits(b)[4..], mid, 0)
  {
    var v := b as Word;
    mid := Half(Half(Half(Half(v))));
    LowNibble(b, v);
    HighNibble(b, v);
  }

  lemma LowNibble(b: Octet, v: Word)
    requires v == b as Word
    ensures (b & 1 != 0) == Odd(v) && (b & 2 != 0) == Odd(Half(v))
    ensures (b & 4 != 0) == Odd(Half(Half(v))) && (b & 8 != 0) == Odd(Half(Half(Half(v))))
  {
  }

  lemma HighNibble(b: Octet, v: Word)
    requires v == b as Word
    ensures var u := Half(Half(Half(Half(v))));
            && (b & 16 != 0) == Odd(u) && (b & 32 != 0) == Odd(Half(u))
            && (b & 64 != 0) == Odd(Half(Half(u))) && (b & 128 != 0) == Odd(Half(Half(Half(u))))
            && Half(Half(Half(Half(u)))) == 0
  {
  }

  function Absorb4(p: Word, c: Word, t: seq<bool>): Word
    requires |t| == 4
  {
    Absorb(p, Absorb(p, Absorb(p, Absorb(p, c, t[0]), t[1]), t[2]), t[3])
  }

  lemma FeedFour(p: Word, d: Word, r0: Word, r4: Word, t: seq<bool>)
    requires Nibble(t, r0, r4)
    ensures Shift4(p, Xor(d, r0)) == Xor(Absorb4(p, d, t), r4)
  {
    hide Bit; hide Xor; hide Odd; hide Half; hide Absorb;
    var r1 := Half(r0); var r2 := Half(r1); var r3 := Half(r2);
    var d1 := Absorb(p, d, t[0]); var d2 := Absorb(p, d1, t[1]); var d3 := Absorb(p, d2, t[2]);
    Feed(p, d, r0); Feed(p, d1, r1); Feed(p, d2, r2); Feed(p, d3, r3);
  }

  lemma DivideByte(p: Word, c: Word, b: Octet)
    ensures Divide(Absorber(p), c, ByteBits(b)) == Shift8(p, Xor(c, b as Word))
  {
    hide Shift4; hide Absorb; hide Xor; hide Nibble; hide Divide;
    var t := ByteBits(b);
    var mid := ByteHalves(b);
    var d := Absorb4(p, c, t[..4]);
    FeedFour(p, c, b as Word, mid, t[..4]);
    FeedFour(p, d, mid, 0, t[4..]);
    PlusZero(Absorb4(p, d, t[4..]));
    DivideFour(Absorber(p), c, t[..4]);
    DivideFour(Absorber(p), d, t[4..]);
    assert t == t[..4] + t[4..];
    DivideConcat(Absorber(p), c, t[..4], t[4..]);
  }

  lemma ShiftOfHighPart(p: Word, x: Word)
    requires x & 0xFF == 0
    ensures Shift8(p, x) == x >> 8
  {
  }

  lemma SplitLowByte(c: Word, b: Word) returns (lo: Word, hi: Word)
    requires b <= 0xFF
    ensures lo == Xor(c, b) & 0xFF && Xor(c, b) == Xor(lo, hi) && hi & 0xFF == 0 && hi >> 8 == c >> 8
  {
    var y := Xor(c, b);
    lo, hi := y & 0xFF, y & 0xFFFFFF00;
    SplitWord(y);
    HighPart(c, b);
  }

  lemma SplitWord(y: Word) ensures y == Xor(y & 0xFF, y & 0xFFFFFF00) {}

  lemma HighPart(c: Word, b: Word)
    requires b <= 0xFF
    ensures (Xor(c, b) & 0xFFFFFF00) >> 8 == c >> 8
  {
  }

  lemma ComputeDivides(k: Code, c: Word, b: Octet)
    requires Valid(k)
    ensures Compute(k, c, b) == Divide(Absorber(k.poly), c, ByteBits(b))
  {
    hide Shift8; hide Divide;
    DivideByte(k.poly, c, b);
    var lo, hi := SplitLowByte(c, b as Word);
    Shift8Xor(k.poly, lo, hi);
    ShiftOfHighPart(k.poly, hi);
    assert k.entry(lo) == Shift8(k.poly, lo);
  }

  // ----- tables of sixteen rows of sixteen -----

  function Unit(bit: Word, value: Word): Word { if bit != 0 then value else 0 }

  /** The sum of the values that belong to the bits of a nibble. */
  function Sum4(u0: Word, u1: Word, u2: Word, u3: Word, n: Word): Word
  {
    Xor(Xor(Unit(n & 1, u0), Unit(n & 2, u1)), Xor(Unit(n & 4, u2), Unit(n & 8, u3)))
  }

  /** `row` lists these sums for all nibbles. */
  ghost predicate Nibbles(row: seq<Word>, u0: Word, u1: Word, u2: Word, u3: Word)
  {
    Holds(row, n => Sum4(u0, u1, u2, u3, n))
  }

  lemma NibbleAt(row: seq<Word>, u0: Word, u1: Word, u2: Word, u3: Word, n: Word)
    requires Nibbles(row, u0, u1, u2, u3) && n < 16
    ensures |row| == 16 && row[n as nat] == Sum4(u0, u1, u2, u3, n)
  {
    InRow(row, m => Sum4(u0, u1, u2, u3, m), n);
  }

  /** `row` is `first` with `base` added. */
  ghost predicate RowMatches(row: seq<Word>, base: Word, first: seq<Word>)
  {
    && |row| == |first| == 16
    && row[0] == Xor(base, first[0]) && row[1] == Xor(base, first[1]) && row[2] == Xor(base, first[2]) &&
       row[3] == Xor(base, first[3])
    && row[4] == Xor(base, first[4]) && row[5] == Xor(base, first[5]) && row[6] == Xor(base, first[6]) &&
       row[7] == Xor(base, first[7])
    && row[8] == Xor(base, first[8]) && row[9] == Xor(base, first[9]) && row[10] == Xor(base, first[10]) &&
       row[11] == Xor(base, first[11])
    && row[12] == Xor(base, first[12]) && row[13] == Xor(base, first[13]) && row[14] == Xor(base, first[14]) &&
       row[15] == Xor(base, first[15])
  }

  /** `row` holds the values of `f` at 0 to 15. */
  ghost predicate Holds(row: seq<Word>, f: Word -> Word)
  {
    && |row| == 16
    && row[0] == f(0) && row[1] == f(1) && row[2] == f(2) && row[3] == f(3)
    && row[4] == f(4) && row[5] == f(5) && row[6] == f(6) && row[7] == f(7)
    && row[8] == f(8) && row[9] == f(9) && row[10] == f(10) && row[11] == f(11)
    && row[12] == f(12) && row[13] == f(13) && row[14] == f(14) && row[15] == f(15)
  }

  lemma BySixteen(p: (nat, Word) -> bool, n: Word)
    requires n < 16
    requires p(0, 0) && p(1, 1) && p(2, 2) && p(3, 3) && p(4, 4) && p(5, 5) && p(6, 6) && p(7, 7)
    requires p(8, 8) && p(9, 9) && p(10, 10) && p(11, 11) && p(12, 12) && p(13, 13) && p(14, 14) && p(15, 15)
    ensures p(n as nat, n)
  {
    if n < 8 {
      if n == 0 {} else if n == 1 {} else if n == 2 {} else if n == 3 {}
      else if n == 4 {} else if n == 5 {} else if n == 6 {} else { assert n == 7; }
    } else {
      if n == 8 {} else if n == 9 {} else if n == 10 {} else if n == 11 {}
      else if n == 12 {} else if n == 13 {} else if n == 14 {} else { assert n == 15; }
    }
  }

  lemma InRow(row: seq<Word>, f: Word -> Word, n: Word)
    requires Holds(row, f) && n < 16
    ensures row[n as nat] == f(n)
  {
    BySixteen((j: nat, l: Word) => j < |row| && row[j] == f(l), n);
  }

  lemma InMatchingRow(row: seq<Word>, base: Word, first: seq<Word>, n: Word)
    requires RowMatches(row, base, first) && n < 16
    ensures |row| == |first| == 16 && row[n as nat] == Xor(base, first[n as nat])
  {
    BySixteen((j: nat, l: Word) => j < |row| && j < |first| && row[j] == Xor(base, first[j]), n);
  }

  lemma MatchesItself(row: seq<Word>)
    requires |row| == 16 && row[0] == 0
    ensures RowMatches(row, row[0], row)
  {
    forall v: Word ensures Xor(0, v) == v { PlusZero(v); }
    hide Xor;
  }

  ghost predicate Linear(s: Word -> Word)
  {
    s(0) == 0 && forall x: Word, y: Word :: s(Xor(x, y)) == Xor(s(x), s(y))
  }

  lemma ShiftIsLinear(p: Word)
    ensures Linear(x => Shift8(p, x))
  {
    assert Shift8(p, 0) == 0;
    hide Shift8;
    forall x: Word, y: Word ensures Shift8(p, Xor(x, y)) == Xor(Shift8(p, x), Shift8(p, y)) { Shift8Xor(p, x, y); }
  }

  lemma SumOfFour(s: Word -> Word, a: Word, b: Word, c: Word, d: Word)
    requires Linear(s)
    ensures s(Xor(Xor(a, b), Xor(c, d))) == Xor(Xor(s(a), s(b)), Xor(s(c), s(d)))
  {
    hide Xor;
  }

  lemma OneUnit(s: Word -> Word, bit: Word, at: Word, u: Word)
    requires Linear(s) && at == if bit != 0 then u else 0
    ensures s(at) == Unit(bit, s(u))
  {
  }

  /** A linear map on a nibble is the sum over its bits. */
  lemma LowNibbleSum(s: Word -> Word, n: Word)
    requires n < 16 && Linear(s)
    ensures s(n) == Sum4(s(0x01), s(0x02), s(0x04), s(0x08), n)
  {
    hide Linear; hide Xor; hide Unit;
    LowBits(n);
    SumOfFour(s, n & 1, n & 2, n & 4, n & 8);
    OneUnit(s, n & 1, n & 1, 0x01); OneUnit(s, n & 2, n & 2, 0x02);
    OneUnit(s, n & 4, n & 4, 0x04); OneUnit(s, n & 8, n & 8, 0x08);
  }

  lemma LowBits(n: Word)
    requires n < 16
    ensures n == Xor(Xor(n & 1, n & 2), Xor(n & 4, n & 8))
    ensures (n & 1 == 0 || n & 1 == 1) && (n & 2 == 0 || n & 2 == 2) && (n & 4 == 0 || n & 4 == 4) &&
            (n & 8 == 0 || n & 8 == 8)
  {
  }

  lemma HighNibbleSum(s: Word -> Word, n: Word)
    requires n < 16 && Linear(s)
    ensures s(n << 4) == Sum4(s(0x10), s(0x20), s(0x40), s(0x80), n)
  {
    hide Linear; hide Xor; hide Unit;
    HighBits(n);
    SumOfFour(s, (n & 1) << 4, (n & 2) << 4, (n & 4) << 4, (n & 8) << 4);
    OneUnit(s, n & 1, (n & 1) << 4, 0x10); OneUnit(s, n & 2, (n & 2) << 4, 0x20);
    OneUnit(s, n & 4, (n & 4) << 4, 0x40); OneUnit(s, n & 8, (n & 8) << 4, 0x80);
  }

  lemma HighBits(n: Word)
    requires n < 16
    ensures n << 4 == Xor(Xor((n & 1) << 4, (n & 2) << 4), Xor((n & 4) << 4, (n & 8) << 4))
    ensures (n & 1) << 4 == (if n & 1 != 0 then 0x10 else 0) && (n & 2) << 4 == (if n & 2 != 0 then 0x20 else 0)
    ensures (n & 4) << 4 == (if n & 4 != 0 then 0x40 else 0) && (n & 8) << 4 == (if n & 8 != 0 then 0x80 else 0)
  {
  }

  /** The sum of what belongs to the two nibbles of a byte belongs to the byte. */
  lemma NibblesAdd(p: Word, hi: Word, lo: Word)
    requires hi < 16 && lo < 16
    ensures Xor(Sum4(Shift8(p, 0x10), Shift8(p, 0x20), Shift8(p, 0x40), Shift8(p, 0x80), hi),
                Sum4(Shift8(p, 0x01), Shift8(p, 0x02), Shift8(p, 0x04), Shift8(p, 0x08), lo)) ==
                  Shift8(p, Xor(hi << 4, lo))
  {
    hide Shift8; hide Sum4; hide Xor;
    ShiftIsLinear(p);
    LowNibbleSum(x => Shift8(p, x), lo);
    HighNibbleSum(x => Shift8(p, x), hi);
    Shift8Xor(p, hi << 4, lo);
  }

  lemma SplitByte(x: Word)
    requires x <= 0xFF
    ensures (x >> 4) & 0xF < 16 && x & 0xF < 16 && Xor(((x >> 4) & 0xF) << 4, x & 0xF) == x
  {
  }

  // ----- bursts -----

  /** The bits of the register from position n upward. */
  function High(ones: Word, n: nat): Word
  {
    if n == 0 then ones else Up(High(ones, n - 1), ones)
  }

  function Up(h: Word, ones: Word): Word { (h << 1) & ones }

  lemma {:induction false} HighNested(ones: Word, n: nat)
    requires ones == 0xFFFFFFFF || ones == 0xFFFF
    ensures And(High(ones, n), High(ones, n + 1)) == High(ones, n + 1)
  {
    if n == 0 {
      UpOnce(ones);
    } else {
      hide And; hide Up;
      HighNested(ones, n - 1);
      UpNested(High(ones, n - 1), High(ones, n), ones);
    }
  }

  lemma UpOnce(ones: Word)
    ensures And(ones, Up(ones, ones)) == Up(ones, ones)
  {
  }

  lemma UpNested(a: Word, b: Word, ones: Word)
    requires And(a, b) == b
    ensures And(Up(a, ones), Up(b, ones)) == Up(b, ones)
  {
  }

  predicate Near(k: Code, x: Word, y: Word, n: nat) { And(Xor(x, y), High(k.ones, n)) == 0 }

  lemma HighHasTop(k: Code, n: nat)
    requires Valid(k) && n < k.width
    ensures And(High(k.ones, n), k.top) != 0
  {
    if k.width == 32 { HighHasTop32(n); } else { HighHasTop16(n); }
  }

  lemma {:induction false} HighHasTop32(n: nat)
    requires n < 32
    ensures And(High(0xFFFFFFFF, n), 0x80000000) != 0
    decreases 32 - n
  {
    if n == 31 {
      assert High(0xFFFFFFFF, 8) == 0xFFFFFF00;
      assert High(0xFFFFFFFF, 16) == 0xFFFF0000;
      assert High(0xFFFFFFFF, 24) == 0xFF000000;
      assert High(0xFFFFFFFF, 31) == 0x80000000;
    } else {
      HighHasTop32(n + 1);
      HighNested(0xFFFFFFFF, n);
      TopInherited(High(0xFFFFFFFF, n), High(0xFFFFFFFF, n + 1), 0x80000000);
    }
  }

  lemma {:induction false} HighHasTop16(n: nat)
    requires n < 16
    ensures And(High(0xFFFF, n), 0x8000) != 0
    decreases 16 - n
  {
    if n == 15 {
      assert High(0xFFFF, 15) == 0x8000;
    } else {
      HighHasTop16(n + 1);
      HighNested(0xFFFF, n);
      TopInherited(High(0xFFFF, n), High(0xFFFF, n + 1), 0x8000);
    }
  }

  lemma TopInherited(a: Word, b: Word, top: Word)
    requires And(a, b) == b && And(b, top) != 0
    ensures And(a, top) != 0
  {
  }

  /** Half of a register value has no highest bit. */
  lemma HalfHasNoTop(k: Code, y: Word)
    requires Valid(k) && Fits(k, y)
    ensures And(Half(y), k.top) == 0 && Fits(k, Half(y))
  {
    if k.width == 32 { HalfHasNoTop32(y); } else { HalfHasNoTop16(y); }
  }

  lemma HalfHasNoTop32(y: Word) ensures And(Half(y), 0x80000000) == 0 && And(Half(y), 0xFFFFFFFF) == Half(y) {}

  lemma HalfHasNoTop16(y: Word)
    requires And(y, 0xFFFF) == y
    ensures And(Half(y), 0x8000) == 0 && And(Half(y), 0xFFFF) == Half(y)
  {
  }

  /** The generator's highest bit shows when it is subtracted. */
  lemma TopShows(z: Word, p: Word, h: Word, top: Word)
    requires And(z, top) == 0 && And(p, top) != 0 && And(h, top) != 0
    requires top == 0x80000000 || top == 0x8000
    ensures And(Xor(z, p), h) != 0
  {
  }

  lemma BackOneBit(k: Code, y: Word, h: Word)
    requires Valid(k) && Fits(k, y) && And(h, k.top) != 0 && And(Bit(k.poly, y), h) == 0
    ensures And(y, Up(h, k.ones)) == 0 && And(Xor(y, 1), Up(h, k.ones)) == 0
  {
    hide Xor; hide And; hide Half; hide Odd; hide Up; hide Fits; hide Shift8;
    HalfHasNoTop(k, y);
    hide Valid;
    if Odd(y) {
      TopShows(Half(y), k.poly, h, k.top);
    } else {
      BackEven(y, h, k.ones);
    }
  }

  lemma BackEven(y: Word, h: Word, ones: Word)
    requires !Odd(y) && And(Half(y), h) == 0
    ensures And(y, Up(h, ones)) == 0 && And(Xor(y, 1), Up(h, ones)) == 0
  {
  }

  lemma AbsorbDifference(p: Word, x: Word, y: Word, a: bool, b: bool)
    ensures Xor(Absorb(p, x, a), Absorb(p, y, b)) == Absorb(p, Xor(x, y), a != b)
  {
    hide Bit; hide Xor;
    BitXor(p, if a then Xor(x, 1) else x, if b then Xor(y, 1) else y);
    Cancel(x, y, 1);
    Assoc(x, y, 1);
    Commute(x, y, 1);
  }

  lemma FitsXor(k: Code, x: Word, y: Word)
    requires Fits(k, x) && Fits(k, y)
    ensures Fits(k, Xor(x, y))
  {
  }

  lemma AbsorbFits(k: Code, x: Word, a: bool)
    requires Valid(k) && Fits(k, x)
    ensures Fits(k, Absorb(k.poly, x, a)) && Fits(k, 1)
  {
    OneFits(k);
    var y := if a then Xor(x, 1) else x;
    FitsXor(k, x, 1);
    HalfHasNoTop(k, y);
    FitsXor(k, Half(y), k.poly);
  }

  lemma OneFits(k: Code)
    requires Valid(k)
    ensures Fits(k, 1)
  {
  }

  lemma StepBack(k: Code, x: Word, y: Word, a: bool, b: bool, n: nat)
    requires Valid(k) && Fits(k, x) && Fits(k, y)
    requires n < k.width && Near(k, Absorb(k.poly, x, a), Absorb(k.poly, y, b), n)
    ensures Near(k, x, y, n + 1)
  {
    hide Bit; hide Xor; hide And; hide Valid;
    AbsorbDifference(k.poly, x, y, a, b);
    HighHasTop(k, n);
    FitsXor(k, x, y);
    OneFits(k);
    var d := Xor(x, y);
    FitsXor(k, d, 1);
    var e := if a != b then Xor(d, 1) else d;
    BackOneBit(k, e, High(k.ones, n));
    Twice(d, 1);
  }

  lemma FarApart(k: Code, x: Word, a: bool, b: bool, n: nat)
    requires Valid(k) && n < k.width && a != b
    ensures !Near(k, Absorb(k.poly, x, a), Absorb(k.poly, x, b), n)
  {
    AbsorbDifference(k.poly, x, x, a, b);
    Self(x);
    HighHasTop(k, n);
    TopShows(0, k.poly, High(k.ones, n), k.top);
  }

  lemma SameOnlyIfEqual(k: Code, x: Word, y: Word, a: bool)
    requires Valid(k) && Fits(k, x) && Fits(k, y) && Absorb(k.poly, x, a) == Absorb(k.poly, y, a)
    ensures x == y
  {
    AbsorbDifference(k.poly, x, y, a, a);
    Self(Absorb(k.poly, x, a));
    FitsXor(k, x, y);
    BitInjective(k, Xor(x, y));
    Zero(x, y);
  }

  lemma BitInjective(k: Code, d: Word)
    requires Valid(k) && Fits(k, d) && Bit(k.poly, d) == 0
    ensures d == 0
  {
    HalfHasNoTop(k, d);
    if Odd(d) { TopShows(Half(d), k.poly, k.top, k.top); } else { EvenHalf(d); }
  }

  lemma EvenHalf(d: Word)
    requires !Odd(d) && Half(d) == 0
    ensures d == 0
  {
  }

  lemma NearZero(k: Code, x: Word, y: Word)
    requires Fits(k, x) && Fits(k, y)
    ensures Near(k, x, y, 0) <==> x == y
  {
    FitsXor(k, x, y);
    Self(x);
    if Near(k, x, y, 0) { Zero(x, y); }
  }

  lemma AbsorbSeparates(k: Code, near: (Word, Word, nat) -> bool, ok: Word -> bool)
    requires Valid(k)
    requires forall x: Word, y: Word, n: nat :: near(x, y, n) == Near(k, x, y, n)
    requires forall x: Word :: ok(x) == Fits(k, x)
    ensures Separates(Absorber(k.poly), near, ok, k.width)
  {
    hide Near; hide Fits; hide Valid; hide Absorb;
    var absorb := Absorber(k.poly);
    forall x: Word, a: bool | ok(x) ensures ok(absorb(x, a)) { AbsorbFits(k, x, a); }
    forall x: Word, y: Word | ok(x) && ok(y) ensures near(x, y, 0) <==> x == y { NearZero(k, x, y); }
    forall x: Word, y: Word, a: bool, b: bool, n: nat | ok(x) && ok(y) && n < k.width &&
      near(absorb(x, a), absorb(y, b), n)
      ensures near(x, y, n + 1)
    { StepBack(k, x, y, a, b, n); }
    forall x: Word, a: bool, b: bool, n: nat | ok(x) && n < k.width && a != b
      ensures !near(absorb(x, a), absorb(x, b), n)
    { FarApart(k, x, a, b, n); }
    forall x: Word, y: Word, a: bool | ok(x) && ok(y) && absorb(x, a) == absorb(y, a)
      ensures x == y
    { SameOnlyIfEqual(k, x, y, a); }
  }
}
