/** `BigNumber.cpp`: a natural number with byte-array views that are kept once made. */
module BigNumbers {
  import opened LittleEndian
  import opened Wrappers

  /** The bytes that `AsByteArray` makes.  `BN_bn2bin` writes the big-endian digits at the start
      of a zeroed array and the whole array is then reversed, so padding ends up at
      the low end of the little-endian form. */
  function Encoding(v: nat, minSize: nat, reverse: bool): (r: seq<Byte>)
    ensures |r| == Length(v, minSize)
  {
    var pad := Zeros(Length(v, minSize) - NumBytes(v));
    if reverse then pad + Minimal(v) else Reversed(Minimal(v)) + pad
  }

  function Length(v: nat, minSize: nat): nat
  {
    if minSize >= NumBytes(v) then minSize else NumBytes(v)
  }

  function Padding(v: nat, minSize: nat): nat { Length(v, minSize) - NumBytes(v) }

  function PowN(b: nat, e: nat): nat { if e == 0 then 1 else b * PowN(b, e - 1) }

  /** A number and the arrays made from it so far, by length. */
  datatype Num = Num(bn: nat, arrays: map<nat, seq<Byte>>)

  /** What `AsByteArray` returns and leaves behind. */
  function View(n: Num, minSize: nat, reverse: bool): (r: (seq<Byte>, Num))
  {
    var length := Length(n.bn, minSize);
    if length in n.arrays then (n.arrays[length], n)
    else (Encoding(n.bn, minSize, reverse), n.(arrays := n.arrays[length := Encoding(n.bn, minSize, reverse)]))
  }

  class BigNumber {
    var bn: nat
    var arraysMap: map<nat, seq<Byte>>

    function State(): Num reads this { Num(bn, arraysMap) }

    constructor (val: nat)
      ensures State() == Num(val, map[])
    {
      bn, arraysMap := val, map[];
    }

    method SetDword(val: nat)
      requires val < 0x1_0000_0000
      modifies this`bn
      ensures bn == val
    {
      bn := val;
    }

    /** Unlike the other setters this one starts from the number's old value. */
    method SetQword(val: nat)
      requires val < 0x1_0000_0000_0000_0000
      modifies this`bn
      ensures bn == old(bn) * 0x1_0000_0000 + val
    {
      bn := bn + val / 0x1_0000_0000;
      bn := bn * 0x1_0000_0000;
      bn := bn + val % 0x1_0000_0000;
    }

    /** The bytes are a little-endian number; the arrays made before stay. */
    method SetBinary(bytes: seq<Byte>)
      requires |bytes| <= 1000
      modifies this`bn
      ensures bn == Value(bytes)
    {
      var t := new Byte[1000];
      var len := |bytes|;
      for i := 0 to len
        invariant forall j :: 0 <= j < i ==> t[j] == bytes[len - 1 - j]
      {
        t[i] := bytes[len - 1 - i];
      }
      assert t[..len] == Reversed(bytes);
      BigEndianOfReversed(bytes);
      bn := BigEndianValue(t[..len]);
    }

    method Assign(other: BigNumber)
      modifies this`bn
      ensures bn == other.bn
    {
      bn := other.bn;
    }

    method ModExp(e: BigNumber, m: BigNumber) returns (ret: BigNumber)
      requires m.bn > 0
      ensures fresh(ret) && ret.State() == Num(PowN(bn, e.bn) % m.bn, map[])
    {
      ret := new BigNumber(PowN(bn, e.bn) % m.bn);
    }

    method AsByteArray(minSize: nat, reverse: bool) returns (r: seq<Byte>)
      modifies this`arraysMap
      ensures (r, State()) == View(old(State()), minSize, reverse)
    {
      hide Minimal; hide Reversed;
      var numBytes := NumBytes(bn);
      var length := if minSize >= numBytes then minSize else numBytes;
      if length in arraysMap {
        return arraysMap[length];
      }
      var a := new Byte[length];
      if length > numBytes {
        forall i | 0 <= i < length { a[i] := 0; }
      }
      var digits := Reversed(Minimal(bn));
      forall i | 0 <= i < numBytes { a[i] := digits[i]; }
      assert a[..] == digits + Zeros(length - numBytes);
      r := a[..];
      if reverse {
        r := Reversed(a[..]);
        assert r == Zeros(length - numBytes) + Minimal(bn);
      }
      arraysMap := arraysMap[length := r];
    }
  }

  // ----- what an encoding means -----

  /** Reading an encoding back gives the number shifted up by its padding. */
  lemma EncodingShifts(v: nat, minSize: nat)
    ensures Value(Encoding(v, minSize, true)) == Pow256(Padding(v, minSize)) * v
  {
    var pad := Zeros(Padding(v, minSize));
    ValueConcat(pad, Minimal(v));
    ValueOfZeros(Padding(v, minSize));
    ValueOfMinimal(v);
  }

  /** So the round trip is the identity just when nothing is padded or the number is zero. */
  lemma RoundTripIff(v: nat, minSize: nat)
    ensures Value(Encoding(v, minSize, true)) == v <==> v == 0 || minSize <= NumBytes(v)
  {
    EncodingShifts(v, minSize);
    var p := Padding(v, minSize);
    if p == 0 {
      assert Pow256(0) == 1;
    } else if v != 0 {
      Pow256Monotone(1, p);
      assert Pow256(1) == 256;
      Grows(Pow256(p), v);
    }
  }

  lemma Grows(p: nat, v: nat)
    requires p > 1 && v > 0
    ensures p * v > v
  {
    assert p * v == v + (p - 1) * v;
  }

  /** `AsByteArray(n)` is the number padded at the high end just for zero and for numbers that fill it. */
  lemma FixedWidthIff(v: nat, n: nat)
    requires NumBytes(v) <= n
    ensures Encoding(v, n, true) == FixedWidth(v, n) <==> v == 0 || NumBytes(v) == n
  {
    RoundTripIff(v, n);
    ValueOfFixedWidth(v, n);
    if v == 0 || NumBytes(v) == n {
      ValueInjective(Encoding(v, n, true), FixedWidth(v, n));
    }
  }

  /** Two numbers have the same array of a length just when their shifted values agree, so
      the array alone does not tell which number it came from. */
  lemma SameArrayIff(v: nat, w: nat, n: nat)
    requires NumBytes(v) <= n && NumBytes(w) <= n
    ensures Encoding(v, n, true) == Encoding(w, n, true) <==> Pow256(n - NumBytes(v)) * v == Pow256(n - NumBytes(w)) * w
  {
    EncodingShifts(v, n);
    EncodingShifts(w, n);
    if Value(Encoding(v, n, true)) == Value(Encoding(w, n, true)) {
      ValueInjective(Encoding(v, n, true), Encoding(w, n, true));
    }
  }

  /** The other byte order is the array reversed. */
  lemma OtherOrder(v: nat, minSize: nat)
    ensures Encoding(v, minSize, false) == Reversed(Encoding(v, minSize, true))
  {
    var pad, digits := Zeros(Padding(v, minSize)), Minimal(v);
    hide Reversed; hide Minimal;
    assert |Reversed(pad + digits)| == |pad + digits|;
    forall i | 0 <= i < |pad + digits| ensures Reversed(pad + digits)[i] == (Reversed(digits) + pad)[i] {
      assert Reversed(pad + digits)[i] == (pad + digits)[|pad + digits| - 1 - i];
    }
  }

  /** An array in one order is the array of another number in the other order just when both numbers are zero,
      or both fill it and their bytes are each other's reverse. */
  lemma OrdersClashIff(v: nat, w: nat, n: nat)
    requires NumBytes(v) <= n && NumBytes(w) <= n
    ensures Encoding(v, n, true) == Encoding(w, n, false)
       <==> v == w == 0 || (NumBytes(v) == NumBytes(w) == n && Minimal(v) == Reversed(Minimal(w)))
  {
    var l, r := Encoding(v, n, true), Encoding(w, n, false);
    hide Reversed;
    if v != 0 { assert l[n - 1] == Minimal(v)[|Minimal(v)| - 1]; }
    if w != 0 { assert r[0] == Minimal(w)[|Minimal(w)| - 1]; }
    if v == w == 0 {
      assert l == r;
    } else if NumBytes(v) == NumBytes(w) == n {
      assert l == Minimal(v) && r == Reversed(Minimal(w));
    }
  }

  // ----- what the kept arrays mean -----

  /** The kept arrays are found by their length alone, whichever order is asked for. */
  datatype Use = Get(minSize: nat, reverse: bool) | Set(value: nat)

  function Apply(n: Num, u: Use): Num
  {
    match u
    case Get(minSize, reverse) => View(n, minSize, reverse).1
    case Set(value) => n.(bn := value)
  }

  function ApplyAll(n: Num, us: seq<Use>): Num
    decreases us
  {
    if us == [] then n else ApplyAll(Apply(n, us[0]), us[1..])
  }

  /** Every kept array is the encoding of the current number in that order. */
  ghost predicate CurrentIn(n: Num, reverse: bool)
  {
    forall length :: length in n.arrays ==>
      length >= NumBytes(n.bn) && n.arrays[length] == Encoding(n.bn, length, reverse)
  }

  ghost predicate Current(n: Num) { CurrentIn(n, true) }

  lemma GetIsFresh(n: Num, minSize: nat, reverse: bool)
    requires CurrentIn(n, reverse)
    ensures View(n, minSize, reverse).0 == Encoding(n.bn, minSize, reverse)
    ensures CurrentIn(View(n, minSize, reverse).1, reverse)
  {
    SameEncoding(n.bn, minSize, reverse);
  }

  /** As long as a number keeps its value and is asked for in one order, every array handed out is a fresh encoding. */
  lemma {:induction false} UnchangedNumberIsCurrent(n: Num, us: seq<Use>, minSize: nat, reverse: bool)
    requires CurrentIn(n, reverse)
    requires forall i :: 0 <= i < |us| ==> if us[i].Get? then us[i].reverse == reverse else us[i].value == n.bn
    ensures var m := ApplyAll(n, us);
            && m.bn == n.bn && CurrentIn(m, reverse)
            && View(m, minSize, reverse).0 == Encoding(n.bn, minSize, reverse)
    decreases us
  {
    GetIsFresh(n, minSize, reverse);
    if us != [] {
      if us[0].Get? { GetIsFresh(n, us[0].minSize, reverse); }
      UnchangedNumberIsCurrent(Apply(n, us[0]), us[1..], minSize, reverse);
    }
  }

  /** The value that the number had when an array of `length` bytes was first asked for, and the order. */
  function FirstAsked(v: nat, us: seq<Use>, length: nat): Option<(nat, bool)>
    decreases us
  {
    if us == [] then None
    else
      match us[0]
      case Get(minSize, reverse) =>
        if Length(v, minSize) == length then Some((v, reverse)) else FirstAsked(v, us[1..], length)
      case Set(w) => FirstAsked(w, us[1..], length)
  }

  /** In every run the array of a length is the encoding of the value the number had then, in the order
      asked for then. */
  lemma {:induction false} KeptArray(n: Num, us: seq<Use>, length: nat)
    ensures var m := ApplyAll(n, us);
            if length in n.arrays then length in m.arrays && m.arrays[length] == n.arrays[length]
            else match FirstAsked(n.bn, us, length)
                 case None => length !in m.arrays
                 case Some((v, order)) =>
                   length in m.arrays && NumBytes(v) <= length && m.arrays[length] == Encoding(v, length, order)
    decreases us
  {
    if us != [] {
      hide Encoding;
      KeptArray(Apply(n, us[0]), us[1..], length);
      if us[0].Get? { SameEncoding(n.bn, us[0].minSize, us[0].reverse); }
    }
  }

  lemma SameEncoding(v: nat, minSize: nat, reverse: bool)
    ensures Encoding(v, Length(v, minSize), reverse) == Encoding(v, minSize, reverse)
    ensures NumBytes(v) <= Length(v, minSize)
  {
  }

  /** Two numbers have one array, each in its order. */
  predicate Alike(v: nat, order: bool, w: nat, reverse: bool, n: nat)
    requires NumBytes(v) <= n && NumBytes(w) <= n
  {
    if order == reverse then Pow256(n - NumBytes(v)) * v == Pow256(n - NumBytes(w)) * w
    else v == w == 0 || (NumBytes(v) == NumBytes(w) == n && Minimal(v) == Reversed(Minimal(w)))
  }

  lemma AlikeIff(v: nat, order: bool, w: nat, reverse: bool, n: nat)
    requires NumBytes(v) <= n && NumBytes(w) <= n
    ensures Encoding(v, n, order) == Encoding(w, n, reverse) <==> Alike(v, order, w, reverse, n)
  {
    hide Encoding; hide Pow256; hide Minimal; hide Reversed; hide Value;
    if order == reverse {
      SameArrayIff(v, w, n);
      OtherOrder(v, n);
      OtherOrder(w, n);
      ReversedTwice(Encoding(v, n, true));
      ReversedTwice(Encoding(w, n, true));
    } else if order {
      OrdersClashIff(v, w, n);
    } else {
      OrdersClashIff(w, v, n);
      ReversedTwice(Minimal(v));
      ReversedTwice(Minimal(w));
    }
  }

  /** What is handed out at the end of any run of a new number is right just when an array of that length was not
      asked for before; or it was in the same order, and the value then and the value now, each shifted by
      its padding, agree; or in the other order, and both values are zero or fill the array with
      each other's bytes reversed. */
  lemma StaleIff(first: nat, us: seq<Use>, minSize: nat, reverse: bool)
    ensures var m := ApplyAll(Num(first, map[]), us);
            var length := Length(m.bn, minSize); var asked := FirstAsked(first, us, length);
            && (asked.Some? ==> NumBytes(asked.value.0) <= length)
            && (View(m, minSize, reverse).0 == Encoding(m.bn, minSize, reverse)
                <==> (asked.Some? ==> Alike(asked.value.0, asked.value.1, m.bn, reverse, length)))
  {
    hide Encoding; hide Alike;
    var m := ApplyAll(Num(first, map[]), us);
    var length := Length(m.bn, minSize);
    KeptArray(Num(first, map[]), us, length);
    SameEncoding(m.bn, minSize, reverse);
    var asked := FirstAsked(first, us, length);
    if asked.Some? { AlikeIff(asked.value.0, asked.value.1, m.bn, reverse, length); }
  }

  /** So a number that never changes can still be handed out wrongly: 1 in two bytes, in both orders. */
  lemma SecondOrderIsStale()
    ensures View(ApplyAll(Num(1, map[]), [Get(2, true)]), 2, false).0 == [0, 1]
    ensures Encoding(1, 2, false) == [1, 0]
  {
    assert Minimal(1) == [1];
    assert Zeros(1) == [0];
    var n := Num(1, map[]);
    assert ApplyAll(n, [Get(2, true)]) == ApplyAll(View(n, 2, true).1, []);
  }
}
