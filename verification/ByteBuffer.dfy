/** `ByteBuffer.h`: a byte vector with a read and a write position.  Numbers are stored least
    significant byte first, texts end with a NUL, and packed GUIDs leave out zero bytes. */
module ByteBuffers {
  import opened Arithmetic
  import opened LittleEndian

  datatype Result<T> = Ok(value: T) | Exception

  /** The buffer as a value. */
  datatype Buffer = Buffer(storage: seq<Byte>, rpos: nat, wpos: nat)

  /** Bytes go to the write position, over what is there; a gap before it is filled with zeros. */
  function Overwritten(storage: seq<Byte>, at: nat, src: seq<Byte>): seq<Byte>
  {
    if src == [] then storage else Front(storage, at) + src + Back(storage, at + |src|)
  }

  /** The first `at` bytes, filled up with zeros, and the bytes from `at` on. */
  function Front(storage: seq<Byte>, at: nat): (r: seq<Byte>)
    ensures |r| == at
  {
    if at <= |storage| then storage[..at] else storage + Zeros(at - |storage|)
  }

  function Back(storage: seq<Byte>, at: nat): seq<Byte>
  {
    if at <= |storage| then storage[at..] else []
  }

  lemma OverwrittenMeans(storage: seq<Byte>, at: nat, src: seq<Byte>)
    ensures Overwritten(storage, at, []) == storage
    ensures src != [] ==>
              var r := Overwritten(storage, at, src);
              && |r| == (if |storage| < at + |src| then at + |src| else |storage|)
              && r[at..at + |src|] == src
              && (forall i :: 0 <= i < |storage| && (i < at || at + |src| <= i) ==> r[i] == storage[i])
              && (forall i :: |storage| <= i < at ==> r[i] == 0)
  {
    if src != [] {
      var r := Overwritten(storage, at, src);
      assert r[at..at + |src|] == src;
    }
  }

  function Appended(b: Buffer, src: seq<Byte>): Buffer
  {
    b.(storage := Overwritten(b.storage, b.wpos, src), wpos := b.wpos + |src|)
  }

  // ----- packed GUIDs -----

  /** One bit for each byte that is not zero, and those bytes. */
  function Mask(guid: nat): nat
  {
    if guid == 0 then 0 else (if guid % 256 != 0 then 1 else 0) + 2 * Mask(guid / 256)
  }

  function NonZero(guid: nat): seq<Byte>
  {
    if guid == 0 then [] else (if guid % 256 != 0 then [(guid % 256) as Byte] else []) + NonZero(guid / 256)
  }

  function Pow2(n: nat): (p: nat)
    ensures p > 0
  {
    if n == 0 then 1 else 2 * Pow2(n - 1)
  }

  lemma {:induction false} MaskBound(guid: nat, n: nat)
    requires guid < Pow256(n)
    ensures Mask(guid) < Pow2(n) && |NonZero(guid)| <= n
  {
    if guid != 0 { MaskBound(guid / 256, n - 1); }
  }

  const GUIDS: nat := 0x1_0000_0000_0000_0000

  lemma GuidFits(guid: nat)
    requires guid < GUIDS
    ensures guid < Pow256(8) && Mask(guid) < 256
  {
    assert Pow256(8) == 0x1_0000_0000_0000_0000 by {
      assert Pow256(1) == 256 && Pow256(2) == 0x1_0000 && Pow256(3) == 0x100_0000 && Pow256(4) == 0x1_0000_0000;
      assert Pow256(5) == 0x100_0000_0000 && Pow256(6) == 0x1_0000_0000_0000 && Pow256(7) == 0x100_0000_0000_0000;
    }
    MaskBound(guid, 8);
    assert Pow2(8) == 256 by { assert Pow2(4) == 16; }
  }

  function PackedGuid(guid: nat): seq<Byte>
    requires guid < GUIDS
  {
    GuidFits(guid);
    [Mask(guid) as Byte] + NonZero(guid)
  }

  /** The bytes named by a mask, read from `pos` on. */
  function Unpack(storage: seq<Byte>, pos: nat, mask: nat): (Result<nat>, nat)
    decreases mask
  {
    if mask == 0 then (Ok(0), pos)
    else if mask % 2 == 0 then Shifted(0, Unpack(storage, pos, mask / 2))
    else if pos >= |storage| then (Exception, pos)
    else Shifted(storage[pos] as nat, Unpack(storage, pos + 1, mask / 2))
  }

  function Shifted(low: nat, r: (Result<nat>, nat)): (Result<nat>, nat)
  {
    (if r.0.Ok? then Ok(low + 256 * r.0.value) else Exception, r.1)
  }

  // ----- fields -----

  type Width = w: nat | w > 0 witness 1

  datatype Field =
    | Unsigned(width: Width, value: nat)
    | Signed(width: Width, number: int)
    | Text(text: seq<Byte>)
    | Packed(guid: nat)

  datatype Kind = AnUnsigned(width: Width) | ASigned(width: Width) | AText | AGuid

  function KindOf(f: Field): Kind
  {
    match f
    case Unsigned(width, _) => AnUnsigned(width)
    case Signed(width, _) => ASigned(width)
    case Text(_) => AText
    case Packed(_) => AGuid
  }

  /** The number is one of the type's. */
  predicate InRange(f: Field)
  {
    match f
    case Unsigned(width, value) => value < Pow256(width)
    case Signed(width, number) => 0 - Half(width) <= number < Half(width)
    case Text(_) => true
    case Packed(guid) => guid < GUIDS
  }

  function Half(width: Width): (h: nat)
    ensures 2 * h == Pow256(width) && h > 0
  {
    128 * Pow256(width - 1)
  }

  /** Two's complement. */
  function Unsign(width: Width, number: int): (r: nat)
    requires InRange(Signed(width, number))
    ensures r < Pow256(width)
  {
    if number < 0 then number + Pow256(width) else number
  }

  function Encode(f: Field): seq<Byte>
    requires InRange(f)
  {
    match f
    case Unsigned(width, value) => FitsIff(value, width); FixedWidth(value, width)
    case Signed(width, number) => FitsIff(Unsign(width, number), width); FixedWidth(Unsign(width, number), width)
    case Text(text) => text + [0]
    case Packed(guid) => PackedGuid(guid)
  }

  function NumberAt(storage: seq<Byte>, pos: nat, width: nat): Result<nat>
  {
    if pos + width > |storage| then Exception else Ok(Value(storage[pos..pos + width]))
  }

  function Resign(width: Width, n: nat): int
  {
    if n < Half(width) then n else n - Pow256(width)
  }

  function TextAt(storage: seq<Byte>, pos: nat): (seq<Byte>, nat)
    decreases |storage| - pos
  {
    if pos >= |storage| then ([], pos)
    else if storage[pos] == 0 then ([], pos + 1)
    else
      var (rest, end) := TextAt(storage, pos + 1);
      ([storage[pos]] + rest, end)
  }

  function GuidAt(storage: seq<Byte>, pos: nat): (Result<nat>, nat)
  {
    if pos >= |storage| then (Exception, pos) else Unpack(storage, pos + 1, storage[pos] as nat)
  }

  function Read(kind: Kind, storage: seq<Byte>, pos: nat): (Result<Field>, nat)
  {
    match kind
    case AnUnsigned(width) =>
      (match NumberAt(storage, pos, width)
       case Ok(n) => (Ok(Unsigned(width, n)), pos + width)
       case Exception => (Exception, pos))
    case ASigned(width) =>
      (match NumberAt(storage, pos, width)
       case Ok(n) => (Ok(Signed(width, Resign(width, n))), pos + width)
       case Exception => (Exception, pos))
    case AText => var (text, end) := TextAt(storage, pos); (Ok(Text(text)), end)
    case AGuid =>
      var (guid, end) := GuidAt(storage, pos);
      (match guid case Ok(n) => (Ok(Packed(n)), end) case Exception => (Exception, end))
  }

  function ReadAll(kinds: seq<Kind>, storage: seq<Byte>, pos: nat): (Result<seq<Field>>, nat)
  {
    if kinds == [] then (Ok([]), pos)
    else
      match Read(kinds[0], storage, pos)
      case (Exception, end) => (Exception, end)
      case (Ok(f), end) =>
        var (fs, last) := ReadAll(kinds[1..], storage, end);
        (if fs.Ok? then Ok([f] + fs.value) else Exception, last)
  }

  predicate AllInRange(fs: seq<Field>) { forall i :: 0 <= i < |fs| ==> InRange(fs[i]) }

  function EncodeAll(fs: seq<Field>): seq<Byte>
    requires AllInRange(fs)
  {
    if fs == [] then [] else Encode(fs[0]) + EncodeAll(fs[1..])
  }

  function Kinds(fs: seq<Field>): seq<Kind>
  {
    if fs == [] then [] else [KindOf(fs[0])] + Kinds(fs[1..])
  }

  predicate NulFree(f: Field) { f.Text? ==> forall i :: 0 <= i < |f.text| ==> f.text[i] != 0 }

  // ----- round trips -----

  lemma {:induction false} UnpackGivesBack(guid: nat, before: seq<Byte>, rest: seq<Byte>)
    ensures Unpack(before + NonZero(guid) + rest, |before|, Mask(guid)) == (Ok(guid), |before| + |NonZero(guid)|)
    decreases guid
  {
    if guid != 0 {
      var s := before + NonZero(guid) + rest;
      if guid % 256 != 0 {
        var low := (guid % 256) as Byte;
        assert s == (before + [low]) + NonZero(guid / 256) + rest;
        assert s[|before|] == low;
        UnpackGivesBack(guid / 256, before + [low], rest);
      } else {
        assert s == before + NonZero(guid / 256) + rest;
        UnpackGivesBack(guid / 256, before, rest);
        assert Mask(guid) > 0 by { MaskPositive(guid); }
      }
    }
  }

  lemma {:induction false} MaskPositive(guid: nat)
    requires guid > 0
    ensures Mask(guid) > 0
  {
    if guid / 256 > 0 { MaskPositive(guid / 256); }
  }

  /** A packed GUID takes one byte and one for each of its bytes that is not zero. */
  lemma PackedGuidLength(guid: nat)
    requires guid < GUIDS
    ensures |Encode(Packed(guid))| == 1 + |NonZeroOf(Minimal(guid))|
  {
    GuidFits(guid);
    NonZeroLength(guid);
  }

  lemma {:induction false} NonZeroLength(guid: nat)
    ensures |NonZero(guid)| == |NonZeroOf(Minimal(guid))|
  {
    if guid != 0 {
      NonZeroLength(guid / 256);
      assert Minimal(guid)[1..] == Minimal(guid / 256);
    }
  }

  function NonZeroOf(s: seq<Byte>): seq<Byte>
  {
    if s == [] then [] else (if s[0] != 0 then [s[0]] else []) + NonZeroOf(s[1..])
  }

  /** Reading a text gives the part before its first NUL. */
  lemma {:induction false} TextGivesBack(text: seq<Byte>, before: seq<Byte>, rest: seq<Byte>)
    ensures var r := TextAt(before + (text + [0]) + rest, |before|);
            if NulFree(Text(text)) then r == (text, |before| + |text| + 1) else |r.0| < |text|
    decreases |text|
  {
    var s := before + (text + [0]) + rest;
    assert s[|before|] == if text == [] then 0 else text[0];
    if text != [] && text[0] != 0 {
      assert s == (before + [text[0]]) + (text[1..] + [0]) + rest;
      TextGivesBack(text[1..], before + [text[0]], rest);
      assert text == [text[0]] + text[1..];
      assert NulFree(Text(text)) <==> NulFree(Text(text[1..]));
    }
  }

  lemma NumberGivesBack(width: nat, value: nat, before: seq<Byte>, rest: seq<Byte>)
    requires NumBytes(value) <= width
    ensures NumberAt(before + FixedWidth(value, width) + rest, |before|, width) == Ok(value)
  {
    var s := before + FixedWidth(value, width) + rest;
    assert s[|before|..|before| + width] == FixedWidth(value, width);
    ValueOfFixedWidth(value, width);
  }

  lemma FieldGivesBack(f: Field, before: seq<Byte>, rest: seq<Byte>)
    requires InRange(f)
    ensures var s := before + Encode(f) + rest;
            if NulFree(f) then Read(KindOf(f), s, |before|) == (Ok(f), |before| + |Encode(f)|)
            else Read(KindOf(f), s, |before|).0.Ok? && Read(KindOf(f), s, |before|).0.value != f
  {
    hide NumberAt; hide TextAt; hide GuidAt; hide PackedGuid; hide FixedWidth; hide NumBytes; hide Pow256;
    match f
    case Unsigned(width, value) =>
      FitsIff(value, width);
      NumberGivesBack(width, value, before, rest);
    case Signed(width, number) =>
      FitsIff(Unsign(width, number), width);
      NumberGivesBack(width, Unsign(width, number), before, rest);
    case Text(text) =>
      TextGivesBack(text, before, rest);
    case Packed(guid) =>
      GuidGivesBack(guid, before, rest);
  }

  lemma GuidGivesBack(guid: nat, before: seq<Byte>, rest: seq<Byte>)
    requires guid < GUIDS
    ensures GuidAt(before + PackedGuid(guid) + rest, |before|) == (Ok(guid), |before| + |PackedGuid(guid)|)
  {
    hide Unpack; hide NonZero; hide Mask;
    GuidFits(guid);
    var s := before + PackedGuid(guid) + rest;
    assert s[|before|] == Mask(guid) as Byte;
    assert s == (before + [Mask(guid) as Byte]) + NonZero(guid) + rest;
    UnpackGivesBack(guid, before + [Mask(guid) as Byte], rest);
  }

  predicate AllNulFree(fs: seq<Field>) { forall i :: 0 <= i < |fs| ==> NulFree(fs[i]) }

  /** Between other bytes, the written fields are read back as they were, with the read position
      behind them. */
  predicate GivesBack(fs: seq<Field>, before: seq<Byte>, rest: seq<Byte>)
    requires AllInRange(fs)
  {
    ReadAll(Kinds(fs), before + EncodeAll(fs) + rest, |before|) == (Ok(fs), |before| + |EncodeAll(fs)|)
  }

  /** That is so, wherever they stand, just when no text among them holds a NUL. */
  lemma {:induction false} RoundTripIff(fs: seq<Field>, before: seq<Byte>, rest: seq<Byte>)
    requires AllInRange(fs)
    ensures GivesBack(fs, before, rest) <==> AllNulFree(fs)
    decreases fs
  {
    if fs != [] {
      hide GivesBack; hide NulFree; hide Encode;
      OneMore(fs, before, rest);
      RoundTripIff(fs[1..], before + Encode(fs[0]), rest);
      FreeTail(fs);
    }
  }

  /** Written fields are read back just when the first one is and the others are behind it. */
  lemma OneMore(fs: seq<Field>, before: seq<Byte>, rest: seq<Byte>)
    requires AllInRange(fs) && fs != []
    ensures GivesBack(fs, before, rest) <==> NulFree(fs[0]) && GivesBack(fs[1..], before + Encode(fs[0]), rest)
  {
    hide Encode; hide Read; hide ReadAll; hide Kinds; hide NulFree; hide InRange;
    var f, tail := fs[0], fs[1..];
    Regroup(before, Encode(f), EncodeAll(tail), rest);
    FieldGivesBack(f, before, EncodeAll(tail) + rest);
    ReadFirst(fs, before + EncodeAll(fs) + rest, |before|);
    forall g: Field, gs: seq<Field> ensures [g] + gs == fs <==> g == f && gs == tail {
      SameHead(g, gs, fs);
    }
  }

  lemma SameHead<T>(g: T, gs: seq<T>, fs: seq<T>)
    requires fs != []
    ensures [g] + gs == fs <==> g == fs[0] && gs == fs[1..]
  {
    assert ([g] + gs)[0] == g && ([g] + gs)[1..] == gs;
    assert fs == [fs[0]] + fs[1..];
  }

  lemma Regroup<T>(a: seq<T>, b: seq<T>, c: seq<T>, d: seq<T>)
    ensures a + (b + c) + d == a + b + (c + d) == (a + b) + c + d
    ensures a + (b + c) == (a + b) + c && a + [] == a
  {
  }

  lemma FreeTail(fs: seq<Field>)
    requires fs != []
    ensures AllNulFree(fs) <==> NulFree(fs[0]) && AllNulFree(fs[1..])
  {
    assert fs == [fs[0]] + fs[1..];
  }

  /** The first read decides whether the others start where they should. */
  lemma ReadFirst(fs: seq<Field>, s: seq<Byte>, pos: nat)
    requires fs != [] && Read(KindOf(fs[0]), s, pos).0.Ok?
    ensures var (f, end) := (Read(KindOf(fs[0]), s, pos).0.value, Read(KindOf(fs[0]), s, pos).1);
            var r, q := ReadAll(Kinds(fs), s, pos), ReadAll(Kinds(fs[1..]), s, end);
            r == (if q.0.Ok? then Ok([f] + q.0.value) else Exception, q.1)
  {
    assert Kinds(fs)[0] == KindOf(fs[0]) && Kinds(fs)[1..] == Kinds(fs[1..]);
  }

  /** A number or GUID that is cut short is refused; the bytes of the GUID that are there have been consumed then, and
      those of the number have not. */
  lemma CutFieldIsRefused(f: Field, before: seq<Byte>, n: nat)
    requires InRange(f) && !f.Text? && n < |Encode(f)|
    ensures Read(KindOf(f), before + Encode(f)[..n], |before|) == (Exception, |before| + if f.Packed? then n else 0)
  {
    hide FixedWidth; hide PackedGuid; hide GuidAt; hide Pow256; hide NumBytes;
    if f.Packed? { CutPacked(f.guid, before, n); }
  }

  lemma CutPacked(guid: nat, before: seq<Byte>, n: nat)
    requires guid < GUIDS && n < |PackedGuid(guid)|
    ensures GuidAt(before + PackedGuid(guid)[..n], |before|) == (Exception, |before| + n)
  {
    hide Unpack; hide NonZero; hide Mask;
    if n > 0 {
      GuidFits(guid);
      var s := before + PackedGuid(guid)[..n];
      assert s[|before|] == Mask(guid) as Byte;
      var head := before + [Mask(guid) as Byte];
      assert s == head + NonZero(guid)[..n - 1];
      CutGuid(guid, head, n - 1);
    }
  }

  lemma {:induction false} CutGuid(guid: nat, before: seq<Byte>, n: nat)
    requires n < |NonZero(guid)|
    ensures Unpack(before + NonZero(guid)[..n], |before|, Mask(guid)) == (Exception, |before| + n)
    decreases guid
  {
    if guid % 256 != 0 {
      if n > 0 {
        var low := (guid % 256) as Byte;
        assert before + NonZero(guid)[..n] == (before + [low]) + NonZero(guid / 256)[..n - 1];
        CutGuid(guid / 256, before + [low], n - 1);
      }
    } else {
      assert NonZero(guid) == NonZero(guid / 256);
      CutGuid(guid / 256, before, n);
      MaskPositive(guid);
    }
  }

  /** A text that is cut short, so that its NUL is missing, is read as far as it goes. */
  lemma CutTextIsRead(text: seq<Byte>, before: seq<Byte>, n: nat)
    requires NulFree(Text(text)) && n < |Encode(Text(text))|
    ensures Read(AText, before + Encode(Text(text))[..n], |before|) == (Ok(Text(text[..n])), |before| + n)
  {
    assert Encode(Text(text))[..n] == text[..n];
    EndlessText(before, text[..n]);
    hide TextAt;
  }

  lemma {:induction false} EndlessText(before: seq<Byte>, text: seq<Byte>)
    requires forall i :: 0 <= i < |text| ==> text[i] != 0
    ensures TextAt(before + text, |before|) == (text, |before| + |text|)
    decreases |text|
  {
    if text != [] {
      assert before + text == (before + [text[0]]) + text[1..];
      EndlessText(before + [text[0]], text[1..]);
      assert text == [text[0]] + text[1..];
    }
  }

  // ----- writing -----

  function WriteAll(b: Buffer, fs: seq<Field>): Buffer
    requires AllInRange(fs)
    decreases fs
  {
    if fs == [] then b else WriteAll(Appended(b, Encode(fs[0])), fs[1..])
  }

  lemma AppendAtEnd(b: Buffer, src: seq<Byte>)
    requires b.wpos == |b.storage|
    ensures Appended(b, src) == Buffer(b.storage + src, b.rpos, b.wpos + |src|)
  {
  }

  lemma BackOfJoin(a: seq<Byte>, storage: seq<Byte>, at: nat, n: nat)
    requires |a| == at
    ensures Front(a + Back(storage, at), at) == a
    ensures Back(a + Back(storage, at), at + n) == Back(storage, at + n)
  {
  }

  lemma OverwrittenTwice(storage: seq<Byte>, at: nat, x: seq<Byte>, y: seq<Byte>)
    requires x != [] && y != []
    ensures Overwritten(Overwritten(storage, at, x), at + |x|, y) == Overwritten(storage, at, x + y)
  {
    hide Overwritten; hide Front; hide Back;
    var f, back := Front(storage, at), Back(storage, at + |x| + |y|);
    OverwrittenIs(storage, at, x);
    OverwrittenIs(f + x + Back(storage, at + |x|), at + |x|, y);
    BackOfJoin(f + x, storage, at + |x|, |y|);
    OverwrittenIs(storage, at, x + y);
    Regroup(f, x, y, back);
  }

  lemma OverwrittenIs(storage: seq<Byte>, at: nat, src: seq<Byte>)
    requires src != []
    ensures Overwritten(storage, at, src) == Front(storage, at) + src + Back(storage, at + |src|)
  {
  }

  lemma AppendTwice(b: Buffer, x: seq<Byte>, y: seq<Byte>)
    ensures Appended(Appended(b, x), y) == Appended(b, x + y)
  {
    NothingOverwritten(b.storage, b.wpos);
    if x == [] {
      hide Overwritten;
      assert x + y == y;
    } else if y == [] {
      NothingOverwritten(Overwritten(b.storage, b.wpos, x), b.wpos + |x|);
      hide Overwritten;
      assert x + y == x;
    } else {
      OverwrittenTwice(b.storage, b.wpos, x, y);
      hide Overwritten;
    }
  }

  lemma NothingOverwritten(storage: seq<Byte>, at: nat)
    ensures Overwritten(storage, at, []) == storage
  {
  }

  lemma {:induction false} WrittenIsEncoded(b: Buffer, fs: seq<Field>)
    requires AllInRange(fs) && b.wpos == |b.storage|
    ensures WriteAll(b, fs) == Buffer(b.storage + EncodeAll(fs), b.rpos, b.wpos + |EncodeAll(fs)|)
    decreases fs
  {
    if fs == [] {
      Regroup(b.storage, [], [], []);
    } else {
      hide Encode; hide InRange; hide EncodeAll; hide Overwritten; hide WriteAll; hide Appended;
      var e, tail := Encode(fs[0]), fs[1..];
      AppendAtEnd(b, e);
      WriteStep(b, fs);
      WrittenIsEncoded(Buffer(b.storage + e, b.rpos, b.wpos + |e|), tail);
      Regroup(b.storage, e, EncodeAll(tail), []);
    }
  }

  lemma WriteStep(b: Buffer, fs: seq<Field>)
    requires AllInRange(fs) && fs != []
    ensures WriteAll(b, fs) == WriteAll(Appended(b, Encode(fs[0])), fs[1..])
    ensures EncodeAll(fs) == Encode(fs[0]) + EncodeAll(fs[1..])
  {
  }

  /** Fields appended to an empty buffer and read again in order: the same fields, and nothing is
      left, just when no text among them holds a NUL. */
  lemma WriteThenReadIff(fs: seq<Field>)
    requires AllInRange(fs)
    ensures var b := WriteAll(Buffer([], 0, 0), fs);
            ReadAll(Kinds(fs), b.storage, b.rpos) == (Ok(fs), |b.storage|) <==> AllNulFree(fs)
  {
    WrittenIsEncoded(Buffer([], 0, 0), fs);
    RoundTripIff(fs, [], []);
    assert [] + EncodeAll(fs) + [] == [] + EncodeAll(fs);
  }

  // ----- the object -----

  class ByteBuffer {
    var storage: seq<Byte>
    var rpos: nat
    var wpos: nat

    ghost function State(): Buffer reads this { Buffer(storage, rpos, wpos) }

    constructor ()
      ensures State() == Buffer([], 0, 0)
    {
      storage, rpos, wpos := [], 0, 0;
    }

    method Append(src: seq<Byte>)
      modifies this`storage, this`wpos
      ensures State() == Appended(old(State()), src)
    {
      if |src| == 0 {
        return;
      }
      if |storage| < wpos + |src| {
        storage := storage + Zeros(wpos + |src| - |storage|);
      }
      storage := storage[..wpos] + src + storage[wpos + |src|..];
      wpos := wpos + |src|;
    }

    method AppendUnsigned(width: Width, value: nat)
      requires InRange(Unsigned(width, value))
      modifies this`storage, this`wpos
      ensures State() == Appended(old(State()), Encode(Unsigned(width, value)))
    {
      FitsIff(value, width);
      Append(FixedWidth(value, width));
    }

    method AppendSigned(width: Width, number: int)
      requires InRange(Signed(width, number))
      modifies this`storage, this`wpos
      ensures State() == Appended(old(State()), Encode(Signed(width, number)))
    {
      FitsIff(Unsign(width, number), width);
      Append(FixedWidth(Unsign(width, number), width));
    }

    method AppendText(text: seq<Byte>)
      modifies this`storage, this`wpos
      ensures State() == Appended(old(State()), Encode(Text(text)))
    {
      AppendTwice(State(), text, [0]);
      Append(text);
      Append([0]);
    }

    method AppendPackGUID(guid0: nat)
      requires guid0 < GUIDS
      modifies this`storage, this`wpos
      ensures State() == Appended(old(State()), Encode(Packed(guid0)))
    {
      hide Mask; hide NonZero; hide Pow2; hide Pow256; hide Appended; hide GUIDS; hide Encode; hide InRange;
      var packGUID := new Byte[9];
      var guid: nat, size: nat, i: nat := guid0, 1, 0;
      var mask: nat := 0;
      GuidFits(guid0);
      PackEnds(guid0, 0, []);
      while guid != 0
        invariant i <= 8 && 1 <= size <= i + 1 && guid < Pow256(8 - i) && mask + Pow2(i) * Mask(guid) == Mask(guid0)
        invariant packGUID[1..size] + NonZero(guid) == NonZero(guid0) && State() == old(State())
        decreases guid
      {
        PackStep(mask, i, guid, packGUID[1..size]);
        if guid % 256 != 0 {
          mask := mask + Pow2(i);
          packGUID[size] := (guid % 256) as Byte;
          assert packGUID[1..size + 1] == packGUID[1..size] + [(guid % 256) as Byte];
          size := size + 1;
        }
        guid := guid / 256;
        i := i + 1;
      }
      PackEnds(guid, i, packGUID[1..size]);
      packGUID[0] := mask as Byte;
      assert packGUID[..size] == [mask as Byte] + packGUID[1..size];
      PackedIs(guid0);
      Append(packGUID[..size]);
    }

    method Put(pos: nat, src: seq<Byte>) returns (r: Result<()>)
      modifies this`storage
      ensures r.Ok? <==> pos + |src| <= |old(storage)|
      ensures |storage| == |old(storage)|
      ensures r.Ok? ==> storage[pos..pos + |src|] == src && storage[..pos] == old(storage)[..pos]
                        && storage[pos + |src|..] == old(storage)[pos + |src|..]
      ensures r.Exception? ==> storage == old(storage)
    {
      if pos + |src| > |storage| {
        return Exception;
      }
      storage := storage[..pos] + src + storage[pos + |src|..];
      return Ok(());
    }

    method ReadUnsigned(width: Width) returns (r: Result<nat>)
      modifies this`rpos
      ensures r == NumberAt(storage, old(rpos), width)
      ensures rpos == old(rpos) + if r.Ok? then width else 0
    {
      if rpos + width > |storage| {
        return Exception;
      }
      r := Ok(Value(storage[rpos..rpos + width]));
      rpos := rpos + width;
    }

    method ReadSigned(width: Width) returns (r: Result<int>)
      modifies this`rpos
      ensures var n := NumberAt(storage, old(rpos), width);
              r == if n.Ok? then Ok(Resign(width, n.value)) else Exception
      ensures rpos == old(rpos) + if r.Ok? then width else 0
    {
      var n := ReadUnsigned(width);
      match n {
        case Ok(value) => return Ok(Resign(width, value));
        case Exception => return Exception;
      }
    }

    method ReadText() returns (value: seq<Byte>)
      modifies this`rpos
      ensures (value, rpos) == TextAt(storage, old(rpos))
    {
      value := [];
      assert [] + TextAt(storage, rpos).0 == TextAt(storage, rpos).0;
      while rpos < |storage|
        invariant TextAt(storage, old(rpos)) == (value + TextAt(storage, rpos).0, TextAt(storage, rpos).1)
        decreases |storage| - rpos
      {
        var c := storage[rpos];
        assert c != 0 ==> value + ([c] + TextAt(storage, rpos + 1).0) == (value + [c]) + TextAt(storage, rpos + 1).0;
        rpos := rpos + 1;
        if c == 0 {
          assert value + [] == value;
          return;
        }
        value := value + [c];
      }
      assert value + [] == value;
    }

    /** When the bytes run out in the middle, those before have been consumed. */
    method ReadPackGUID() returns (r: Result<nat>)
      modifies this`rpos
      ensures (r, rpos) == GuidAt(storage, old(rpos))
    {
      var guidmark := ReadUnsigned(1);
      if guidmark.Exception? {
        return Exception;
      }
      OneByte(storage, rpos - 1);
      r := ReadBits(guidmark.value);
    }

    /** The bytes for the bits of `mask`, lowest bit first. */
    method ReadBits(mask: nat) returns (r: Result<nat>)
      requires mask < 256
      modifies this`rpos
      ensures (r, rpos) == Unpack(storage, old(rpos), mask)
    {
      hide Unpack; hide Above; hide Pow2; hide Pow256; hide Down;
      var guid: nat := 0;
      ghost var start := rpos;
      WholeMask(mask, Unpack(storage, start, mask));
      for i := 0 to 8
        invariant Down(mask, i) < Pow2(8 - i)
        invariant Unpack(storage, start, mask) == Above(guid, i, Unpack(storage, rpos, Down(mask, i)))
      {
        UnpackBit(storage, rpos, Down(mask, i), guid, i);
        HalfOf(mask, i);
        if Down(mask, i) % 2 == 1 {
          if rpos >= |storage| {
            return Exception;
          }
          guid := guid + Pow256(i) * storage[rpos] as nat;
          rpos := rpos + 1;
        }
      }
      UnpackBit(storage, rpos, Down(mask, 8), guid, 8);
      return Ok(guid);
    }

    method ReadSkip(skip: nat) returns (r: Result<()>)
      modifies this`rpos
      ensures r.Ok? <==> old(rpos) + skip <= |storage|
      ensures rpos == old(rpos) + if r.Ok? then skip else 0
    {
      if rpos + skip > |storage| {
        return Exception;
      }
      rpos := rpos + skip;
      return Ok(());
    }
  }

  /** One byte of a GUID being packed. */
  lemma PackStep(mask: nat, i: nat, guid: nat, done: seq<Byte>)
    requires i <= 8 && 0 < guid < Pow256(8 - i)
    ensures i < 8 && guid / 256 < Pow256(8 - (i + 1))
    ensures mask + Pow2(i) * Mask(guid) == (mask + if guid % 256 != 0 then Pow2(i) else 0) +
            Pow2(i + 1) * Mask(guid / 256)
    ensures done + NonZero(guid) == (if guid % 256 != 0 then done + [(guid % 256) as Byte] else done) +
            NonZero(guid / 256)
  {
    var p, m := Pow2(i), Mask(guid / 256);
    MulAssoc(p, 2, m);
    assert p * (1 + 2 * m) == p + p * (2 * m);
  }

  lemma PackEnds(guid: nat, i: nat, done: seq<Byte>)
    ensures 0 + Pow2(0) * Mask(guid) == Mask(guid) && [] + NonZero(guid) == NonZero(guid)
    ensures guid == 0 ==> Pow2(i) * Mask(guid) == 0 && done + NonZero(guid) == done
  {
  }

  lemma PackedIs(guid: nat)
    requires guid < GUIDS
    ensures Mask(guid) < 256 && Encode(Packed(guid)) == [Mask(guid) as Byte] + NonZero(guid)
  {
    GuidFits(guid);
  }

  /** A value read from byte `i` on, above the bytes read before. */
  function Above(low: nat, i: nat, r: (Result<nat>, nat)): (Result<nat>, nat)
  {
    (if r.0.Ok? then Ok(low + Pow256(i) * r.0.value) else Exception, r.1)
  }

  lemma OneByte(storage: seq<Byte>, pos: nat)
    requires pos < |storage|
    ensures Value(storage[pos..pos + 1]) == storage[pos] as nat
  {
    assert storage[pos..pos + 1] == [storage[pos]];
    assert Value([storage[pos]]) == storage[pos] as nat + 256 * Value([]);
  }

  /** The mask from bit `i` on. */
  function Down(mask: nat, i: nat): nat { Over(mask, Pow2(i)) }

  lemma WholeMask(mask: nat, r: (Result<nat>, nat))
    ensures Down(mask, 0) == mask && Pow2(8) == 256 && Pow2(0) == 1 && Above(0, 0, r) == r
  {
    assert Pow2(4) == 16;
  }

  lemma HalfOf(m: nat, i: nat)
    requires i < 8 && Down(m, i) < Pow2(8 - i)
    ensures Down(m, i) / 2 == Down(m, i + 1) < Pow2(8 - (i + 1))
  {
    HalfOfQuotient(m, Pow2(i));
  }

  lemma HalfOfQuotient(m: nat, p: nat)
    requires p > 0
    ensures Over(m, p) / 2 == Over(m, 2 * p)
  {
    var q, rest := OverIs(m, p);
    var h, odd := q / 2, q % 2;
    Parts(p, h, odd, rest);
    DivIs(m, 2 * p, h, p * odd + rest);
  }

  lemma OverIs(m: nat, p: nat) returns (q: nat, rest: nat)
    requires p > 0
    ensures q == Over(m, p) && m == p * q + rest && rest < p
  {
    q, rest := m / p, m % p;
  }

  lemma Parts(p: nat, h: nat, odd: nat, rest: nat)
    requires odd < 2 && rest < p
    ensures p * (2 * h + odd) + rest == h * (2 * p) + (p * odd + rest) && p * odd + rest < 2 * p
  {
    MulAssoc(p, 2, h);
    MulSwap(h, 2, p);
    if odd == 0 { assert p * odd == 0; } else { assert p * odd == p; }
  }

  lemma DivIs(m: nat, d: nat, q: nat, r: nat)
    requires d > 0 && m == q * d + r && r < d
    ensures Over(m, d) == q
  {
    var k := m / d;
    assert m == d * k + m % d;
    Distribute(d, k, q);
    if k > q { AtLeast(d, k - q); } else if q > k { AtLeast(d, q - k); Distribute(d, q, k); }
  }

  /** One bit of the mask: whether a byte is read, and where it goes. */
  lemma UnpackBit(storage: seq<Byte>, pos: nat, left: nat, guid: nat, i: nat)
    ensures left == 0 ==> Above(guid, i, Unpack(storage, pos, left)) == (Ok(guid), pos)
    ensures left % 2 == 0 ==>
            Above(guid, i, Unpack(storage, pos, left)) == Above(guid, i + 1, Unpack(storage, pos, left / 2))
    ensures left % 2 == 1 && pos >= |storage| ==> Above(guid, i, Unpack(storage, pos, left)) == (Exception, pos)
    ensures left % 2 == 1 && pos < |storage| ==>
              Above(guid, i, Unpack(storage, pos, left)) ==
              Above(guid + Pow256(i) * storage[pos] as nat, i + 1, Unpack(storage, pos + 1, left / 2))
  {
    if left % 2 == 0 {
      ShiftAbove(guid, i, 0, Unpack(storage, pos, left / 2));
    } else if pos < |storage| {
      ShiftAbove(guid, i, storage[pos] as nat, Unpack(storage, pos + 1, left / 2));
    }
  }

  lemma ShiftAbove(guid: nat, i: nat, low: nat, r: (Result<nat>, nat))
    ensures Above(guid, i, Shifted(low, r)) == Above(guid + Pow256(i) * low, i + 1, r)
  {
    if r.0.Ok? {
      var p, v := Pow256(i), r.0.value;
      MulSwap(p, 256, v);
      MulAssoc(256, p, v);
      assert p * (low + 256 * v) == p * low + p * (256 * v);
    }
  }
}
