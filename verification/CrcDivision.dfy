/** What the two CRCs share: messages as bit strings and registers that absorb one bit at a
    time.  The register type and its one-bit step are parameters; the two table-driven codes
    supply their own and prove the properties asked for here. */
module CrcDivision {

  /** A byte as the bits that a CRC divides. */
  type Octet = bv8

  /** The bits of a byte in the order a reflected CRC takes them, low bit first. */
  function ByteBits(b: Octet): (r: seq<bool>)
    ensures |r| == 8
  {
    [b & 1 != 0, b & 2 != 0, b & 4 != 0, b & 8 != 0, b & 16 != 0, b & 32 != 0, b & 64 != 0, b & 128 != 0]
  }

  function Bits(m: seq<Octet>): (r: seq<bool>)
    ensures |r| == 8 * |m|
  {
    if m == [] then [] else ByteBits(m[0]) + Bits(m[1..])
  }

  /** The register after a bit string has been absorbed. */
  function Divide<R>(absorb: (R, bool) -> R, c: R, bits: seq<bool>): R
    decreases |bits|
  {
    if bits == [] then c else Divide(absorb, absorb(c, bits[0]), bits[1..])
  }

  lemma {:induction false} DivideConcat<R>(absorb: (R, bool) -> R, c: R, a: seq<bool>, b: seq<bool>)
    ensures Divide(absorb, c, a + b) == Divide(absorb, Divide(absorb, c, a), b)
    decreases |a|
  {
    if a == [] {
      assert a + b == b;
    } else {
      assert (a + b)[1..] == a[1..] + b;
      DivideConcat(absorb, absorb(c, a[0]), a[1..], b);
    }
  }

  lemma {:induction false} BitsConcat(a: seq<Octet>, b: seq<Octet>)
    ensures Bits(a + b) == Bits(a) + Bits(b)
  {
    if a == [] {
      assert a + b == b;
    } else {
      assert (a + b)[1..] == a[1..] + b;
      BitsConcat(a[1..], b);
    }
  }

  lemma DivideMessages<R>(absorb: (R, bool) -> R, c: R, a: seq<Octet>, b: seq<Octet>)
    ensures Divide(absorb, c, Bits(a + b)) == Divide(absorb, Divide(absorb, c, Bits(a)), Bits(b))
  {
    BitsConcat(a, b);
    DivideConcat(absorb, c, Bits(a), Bits(b));
  }

  lemma DivideOneByte<R>(absorb: (R, bool) -> R, c: R, b: Octet)
    ensures Divide(absorb, c, Bits([b])) == Divide(absorb, c, ByteBits(b))
  {
    assert Bits([b]) == ByteBits(b) + Bits([]) == ByteBits(b);
  }

  lemma DivideFour<R>(absorb: (R, bool) -> R, c: R, t: seq<bool>)
    requires |t| == 4
    ensures Divide(absorb, c, t) == absorb(absorb(absorb(absorb(c, t[0]), t[1]), t[2]), t[3])
  {
    assert t == [t[0]] + ([t[1]] + ([t[2]] + ([t[3]] + [])));
    DivideConcat(absorb, c, [t[0]], [t[1]] + ([t[2]] + ([t[3]] + [])));
    DivideConcat(absorb, absorb(c, t[0]), [t[1]], [t[2]] + ([t[3]] + []));
    DivideConcat(absorb, absorb(absorb(c, t[0]), t[1]), [t[2]], [t[3]] + []);
    assert [t[3]] + [] == [t[3]];
  }

  // ----- burst errors -----

  /** What a register of `width` bits has to satisfy; `ok` holds of its values.  `near(x, y, n)` says that x and y agree
      above their low n bits: absorbing a bit loses at most one of those places,
      and different bits absorbed by equal registers put them as far apart as can be. */
  ghost predicate Separates<R(!new)>(absorb: (R, bool) -> R, near: (R, R, nat) -> bool, ok: R -> bool, width: nat)
  {
    && (forall x: R, a: bool :: ok(x) ==> ok(absorb(x, a)))
    && (forall x: R, y: R :: ok(x) && ok(y) ==> (near(x, y, 0) <==> x == y))
    && (forall x: R, y: R, a: bool, b: bool, n: nat ::
          ok(x) && ok(y) && n < width && near(absorb(x, a), absorb(y, b), n) ==> near(x, y, n + 1))
    && (forall x: R, a: bool, b: bool, n: nat :: ok(x) && n < width && a != b ==> !near(absorb(x, a), absorb(x, b), n))
    && (forall x: R, y: R, a: bool :: ok(x) && ok(y) && absorb(x, a) == absorb(y, a) ==> x == y)
  }

  lemma {:induction false} Backwards<R(!new)>(absorb: (R, bool) -> R, near: (R, R, nat) -> bool, ok: R -> bool,
                                              width: nat, x: R, y: R, a: seq<bool>, b: seq<bool>)
    requires Separates(absorb, near, ok, width) && |a| == |b| <= width && ok(x) && ok(y)
    requires Divide(absorb, x, a) == Divide(absorb, y, b)
    ensures near(x, y, |a|)
    decreases |a|
  {
    if a != [] {
      var n: nat, s, t := |a[1..]|, a[0], b[0];
      Backwards(absorb, near, ok, width, absorb(x, s), absorb(y, t), a[1..], b[1..]);
      assert near(absorb(x, s), absorb(y, t), n);
      assert near(x, y, n + 1);
    }
  }

  lemma {:induction false} WindowsDiffer<R(!new)>(absorb: (R, bool) -> R, near: (R, R, nat) -> bool, ok: R -> bool,
                                                  width: nat,
      c: R, a: seq<bool>, b: seq<bool>)
    requires Separates(absorb, near, ok, width) && |a| == |b| <= width && a != b && ok(c)
    ensures Divide(absorb, c, a) != Divide(absorb, c, b)
    decreases |a|
  {
    if a[0] == b[0] {
      assert a == [a[0]] + a[1..] && b == [b[0]] + b[1..];
      WindowsDiffer(absorb, near, ok, width, absorb(c, a[0]), a[1..], b[1..]);
    } else if Divide(absorb, c, a) == Divide(absorb, c, b) {
      Backwards(absorb, near, ok, width, absorb(c, a[0]), absorb(c, b[0]), a[1..], b[1..]);
    }
  }

  lemma {:induction false} DifferenceStays<R(!new)>(absorb: (R, bool) -> R, near: (R, R, nat) -> bool, ok: R -> bool,
                                                    width: nat, x: R, y: R, post: seq<bool>)
    requires Separates(absorb, near, ok, width) && x != y && ok(x) && ok(y)
    ensures Divide(absorb, x, post) != Divide(absorb, y, post)
    decreases |post|
  {
    if post != [] {
      var a := post[0];
      assert absorb(x, a) == absorb(y, a) ==> x == y;
      DifferenceStays(absorb, near, ok, width, absorb(x, a), absorb(y, a), post[1..]);
    }
  }

  lemma {:induction false} StaysOk<R(!new)>(absorb: (R, bool) -> R, near: (R, R, nat) -> bool, ok: R -> bool,
                                            width: nat,
      c: R, bits: seq<bool>)
    requires Separates(absorb, near, ok, width) && ok(c)
    ensures ok(Divide(absorb, c, bits))
    decreases |bits|
  {
    if bits != [] {
      var b := bits[0];
      assert ok(absorb(c, b));
      StaysOk(absorb, near, ok, width, absorb(c, b), bits[1..]);
    }
  }

  /** The bits of `m` and `n` agree outside `width` consecutive positions. */
  ghost predicate WithinBurst(m: seq<Octet>, n: seq<Octet>, at: nat, width: nat)
  {
    |m| == |n| && forall k :: 0 <= k < 8 * |m| && !(at <= k < at + width) ==> Bits(m)[k] == Bits(n)[k]
  }

  lemma DivideThree<R>(absorb: (R, bool) -> R, c: R, pre: seq<bool>, a: seq<bool>, post: seq<bool>)
    ensures Divide(absorb, c, pre + a + post) == Divide(absorb, Divide(absorb, Divide(absorb, c, pre), a), post)
  {
    DivideConcat(absorb, c, pre + a, post);
    DivideConcat(absorb, c, pre, a);
  }

  lemma WindowSeparates<R(!new)>(absorb: (R, bool) -> R, near: (R, R, nat) -> bool, ok: R -> bool, width: nat,
      c: R, pre: seq<bool>, a: seq<bool>, b: seq<bool>, post: seq<bool>)
    requires Separates(absorb, near, ok, width) && |a| == |b| <= width && a != b && ok(c)
    ensures Divide(absorb, c, pre + a + post) != Divide(absorb, c, pre + b + post)
  {
    var d := Divide(absorb, c, pre);
    DivideThree(absorb, c, pre, a, post);
    DivideThree(absorb, c, pre, b, post);
    StaysOk(absorb, near, ok, width, c, pre);
    StaysOk(absorb, near, ok, width, d, a);
    StaysOk(absorb, near, ok, width, d, b);
    WindowsDiffer(absorb, near, ok, width, d, a, b);
    DifferenceStays(absorb, near, ok, width, Divide(absorb, d, a), Divide(absorb, d, b), post);
  }

  /** Two different messages that agree outside a window as long as the register leave
      different registers. */
  lemma BurstSeparates<R(!new)>(absorb: (R, bool) -> R, near: (R, R, nat) -> bool, ok: R -> bool, width: nat,
      c: R, m: seq<Octet>, n: seq<Octet>, at: nat)
    requires Separates(absorb, near, ok, width) && WithinBurst(m, n, at, width) && m != n && ok(c)
    ensures Divide(absorb, c, Bits(m)) != Divide(absorb, c, Bits(n))
  {
    var p, q := Bits(m), Bits(n);
    if p == q { BitsInjective(m, n); }
    var i := if at < |p| then at else |p|;
    var j := if at + width < |p| then at + width else |p|;
    Agree(p, q, i, j);
    WindowSeparates(absorb, near, ok, width, c, p[..i], p[i..j], q[i..j], p[j..]);
  }

  lemma Agree(p: seq<bool>, q: seq<bool>, i: nat, j: nat)
    requires |p| == |q| && i <= j <= |p| && p != q
    requires forall k :: 0 <= k < |p| && !(i <= k < j) ==> p[k] == q[k]
    ensures p == p[..i] + p[i..j] + p[j..] && q == p[..i] + q[i..j] + p[j..] && p[i..j] != q[i..j]
  {
    SplitTwice(p, i, j);
    SplitTwice(q, i, j);
    assert p[..i] == q[..i];
    assert p[j..] == q[j..];
  }

  lemma SplitTwice(p: seq<bool>, i: nat, j: nat)
    requires i <= j <= |p|
    ensures p == p[..i] + p[i..j] + p[j..]
  {
  }

  lemma {:induction false} BitsInjective(m: seq<Octet>, n: seq<Octet>)
    requires |m| == |n| && Bits(m) == Bits(n)
    ensures m == n
  {
    if m != [] {
      assert ByteBits(m[0]) == Bits(m)[..8] == Bits(n)[..8] == ByteBits(n[0]);
      assert Bits(m[1..]) == Bits(m)[8..] == Bits(n)[8..] == Bits(n[1..]);
      SameByte(m[0], n[0]);
      BitsInjective(m[1..], n[1..]);
      assert m == [m[0]] + m[1..] && n == [n[0]] + n[1..];
    }
  }

  lemma SameByte(b: Octet, d: Octet)
    requires ByteBits(b) == ByteBits(d)
    ensures b == d
  {
    var s, t := ByteBits(b), ByteBits(d);
    assert s[0] == t[0] && s[1] == t[1] && s[2] == t[2] && s[3] == t[3];
    assert s[4] == t[4] && s[5] == t[5] && s[6] == t[6] && s[7] == t[7];
  }
}
