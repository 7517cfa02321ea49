/** Numbers as byte strings, least significant byte first. */
module LittleEndian {

  newtype Byte = x: int | 0 <= x < 256

  function Value(bs: seq<Byte>): nat
  {
    if bs == [] then 0 else bs[0] as nat + 256 * Value(bs[1..])
  }

  /** The shortest string with value `v`; zero has the empty one. */
  function Minimal(v: nat): (r: seq<Byte>)
    ensures r != [] ==> r[|r| - 1] != 0
  {
    if v == 0 then [] else [(v % 256) as Byte] + Minimal(v / 256)
  }

  function NumBytes(v: nat): nat { |Minimal(v)| }

  function Zeros(n: nat): seq<Byte> { seq(n, i => 0 as Byte) }

  function Pow256(n: nat): (p: nat)
    ensures p > 0
  {
    if n == 0 then 1 else 256 * Pow256(n - 1)
  }

  function Reversed(s: seq<Byte>): (r: seq<Byte>)
    ensures |r| == |s| && forall i :: 0 <= i < |s| ==> r[i] == s[|s| - 1 - i]
  {
    if s == [] then [] else Reversed(s[1..]) + [s[0]]
  }

  /** The value of a string read most significant byte first. */
  function BigEndianValue(bs: seq<Byte>): nat
  {
    if bs == [] then 0 else 256 * BigEndianValue(bs[..|bs| - 1]) + bs[|bs| - 1] as nat
  }

  lemma {:induction false} BigEndianOfReversed(s: seq<Byte>)
    ensures BigEndianValue(Reversed(s)) == Value(s)
  {
    if s != [] {
      var r := Reversed(s);
      assert r[..|r| - 1] == Reversed(s[1..]);
      BigEndianOfReversed(s[1..]);
    }
  }

  lemma ReversedTwice(s: seq<Byte>)
    ensures Reversed(Reversed(s)) == s
  {
    hide Reversed;
    assert |Reversed(Reversed(s))| == |s|;
    forall i | 0 <= i < |s| ensures Reversed(Reversed(s))[i] == s[i] {
      assert Reversed(Reversed(s))[i] == Reversed(s)[|s| - 1 - i];
    }
  }

  lemma {:induction false} ValueOfMinimal(v: nat)
    ensures Value(Minimal(v)) == v
  {
    if v != 0 {
      ValueOfMinimal(v / 256);
      assert Minimal(v)[1..] == Minimal(v / 256);
    }
  }

  lemma {:induction false} MinimalOfValue(bs: seq<Byte>)
    requires bs != [] ==> bs[|bs| - 1] != 0
    ensures Minimal(Value(bs)) == bs
  {
    if bs != [] {
      MinimalOfValue(bs[1..]);
      if |bs| > 1 {
        assert bs[1..] != [];
        assert Value(bs[1..]) != 0;
      }
      assert Value(bs) % 256 == bs[0] as nat && Value(bs) / 256 == Value(bs[1..]);
      assert bs == [bs[0]] + bs[1..];
    }
  }

  lemma {:induction false} ValueConcat(a: seq<Byte>, b: seq<Byte>)
    ensures Value(a + b) == Value(a) + Pow256(|a|) * Value(b)
  {
    if a == [] {
      assert a + b == b;
    } else {
      assert (a + b)[1..] == a[1..] + b;
      ValueConcat(a[1..], b);
      ShiftUp(a[0] as nat, Value(a[1..]), Pow256(|a[1..]|), Value(b));
    }
  }

  lemma ShiftUp(x: nat, y: nat, p: nat, w: nat)
    ensures x + 256 * (y + p * w) == (x + 256 * y) + (256 * p) * w
  {
  }

  lemma {:induction false} ValueOfZeros(n: nat)
    ensures Value(Zeros(n)) == 0
  {
    if n != 0 {
      assert Zeros(n)[1..] == Zeros(n - 1);
      ValueOfZeros(n - 1);
    }
  }

  lemma {:induction false} ValueBound(bs: seq<Byte>)
    ensures Value(bs) < Pow256(|bs|)
  {
    if bs != [] { ValueBound(bs[1..]); }
  }

  lemma {:induction false} ValueInjective(a: seq<Byte>, b: seq<Byte>)
    requires |a| == |b| && Value(a) == Value(b)
    ensures a == b
  {
    if a != [] {
      assert Value(a) % 256 == a[0] as nat && Value(b) % 256 == b[0] as nat;
      ValueInjective(a[1..], b[1..]);
      assert a == [a[0]] + a[1..] && b == [b[0]] + b[1..];
    }
  }

  /** `n` bytes are enough for `v` just when v < 256^n. */
  lemma {:induction false} FitsIff(v: nat, n: nat)
    ensures NumBytes(v) <= n <==> v < Pow256(n)
  {
    if v != 0 && n != 0 {
      FitsIff(v / 256, n - 1);
    }
  }

  /** The shortest form of a string's number is the string just when it does not end in a zero; otherwise
      it is shorter. */
  lemma ShortIff(s: seq<Byte>)
    ensures |Minimal(Value(s))| <= |s|
    ensures |Minimal(Value(s))| == |s| <==> s == [] || s[|s| - 1] != 0
    ensures |Minimal(Value(s))| == |s| ==> Minimal(Value(s)) == s
  {
    ValueBound(s);
    FitsIff(Value(s), |s|);
    if s == [] || s[|s| - 1] != 0 {
      MinimalOfValue(s);
    } else {
      hide Value; hide Minimal;
      var front := s[..|s| - 1];
      assert s == front + [0];
      ValueConcat(front, [0]);
      assert Value([0 as Byte]) == 0;
      ValueBound(front);
      FitsIff(Value(s), |front|);
    }
  }

  lemma {:induction false} Pow256Monotone(m: nat, n: nat)
    requires m <= n
    ensures Pow256(m) <= Pow256(n)
  {
    if m < n { Pow256Monotone(m, n - 1); }
  }

  /** The fixed-width form, padded at the high end. */
  function FixedWidth(v: nat, n: nat): (r: seq<Byte>)
    requires NumBytes(v) <= n
    ensures |r| == n
  {
    Minimal(v) + Zeros(n - NumBytes(v))
  }

  lemma ValueOfFixedWidth(v: nat, n: nat)
    requires NumBytes(v) <= n
    ensures Value(FixedWidth(v, n)) == v
  {
    hide Value; hide Pow256; hide Minimal; hide Zeros;
    ValueConcat(Minimal(v), Zeros(n - NumBytes(v)));
    ValueOfZeros(n - NumBytes(v));
    ValueOfMinimal(v);
  }
}
