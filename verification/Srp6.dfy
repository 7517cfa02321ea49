/** The SRP-6 arithmetic of `AuthServer.cpp`: RFC 5054 sections 2.5.3 and 2.6 with k = 3, and the
    key interleaving of RFC 2945 section 3.1.  SHA-1 is any function to 20-byte digests. */
module Srp6 {
  import opened Arithmetic
  import opened LittleEndian
  import opened BigNumbers

  type Digest = d: seq<Byte> | |d| == 20 witness seq(20, i => 0 as Byte)
  type Hash = seq<Byte> -> Digest

  function ModExp(b: nat, e: nat, n: nat): (r: nat)
    requires n > 0
    ensures r < n
  {
    PowN(b, e) % n
  }

  /** What the server sends for its secret `b` and the verifier `v`. */
  function ServerPublic(g: nat, n: nat, v: nat, b: nat): nat
    requires n > 0
  {
    (v * 3 + ModExp(g, b, n)) % n
  }

  function ServerSecret(n: nat, A: nat, v: nat, u: nat, b: nat): nat
    requires n > 0
  {
    ModExp(A * ModExp(v, u, n), b, n)
  }

  /** RFC 5054 section 2.6, with k = 3: (B - kv)^(a + ux) mod N. */
  function ClientSecret(n: nat, B: nat, v: nat, a: nat, u: nat, x: nat): nat
    requires n > 0
  {
    ModExp((B - 3 * v) % n, a + u * x, n)
  }

  /** Both sides arrive at the same number, for every generator, modulus, password and choice of
      secrets. */
  lemma Agreement(g: nat, n: nat, x: nat, a: nat, b: nat, u: nat)
    requires n > 0
    ensures var v := ModExp(g, x, n);
            ServerSecret(n, ModExp(g, a, n), v, u, b) == ClientSecret(n, ServerPublic(g, n, v, b), v, a, u, x)
  {
    var v, A := ModExp(g, x, n), ModExp(g, a, n);
    var e := a + u * x;
    ServerSide(g, n, x, a, u, b);
    ClientBase(g, n, v, b);
    PowOfMod(PowN(g, b), e, n);
    PowMul(g, b, e);
    Commute(b, e);
  }

  lemma Commute(b: nat, e: nat) ensures b * e == e * b {}

  /** The server's number is g^((a + ux)b) mod N. */
  lemma ServerSide(g: nat, n: nat, x: nat, a: nat, u: nat, b: nat)
    requires n > 0
    ensures ServerSecret(n, ModExp(g, a, n), ModExp(g, x, n), u, b) == PowN(g, (a + u * x) * b) % n
  {
    var v, A := ModExp(g, x, n), ModExp(g, a, n);
    PowOfMod(PowN(g, x), u, n);
    PowMul(g, x, u);
    Commute(x, u);
    MulMod(PowN(g, a), PowN(g, u * x), n);
    PowAdd(g, a, u * x);
    var base := A * ModExp(v, u, n);
    assert base % n == PowN(g, a + u * x) % n;
    PowOfMod(base, b, n);
    PowOfMod(PowN(g, a + u * x), b, n);
    PowMul(g, a + u * x, b);
  }

  /** Taking the verifier out of B again leaves g^b. */
  lemma ClientBase(g: nat, n: nat, v: nat, b: nat)
    requires n > 0
    ensures (ServerPublic(g, n, v, b) - 3 * v) % n == ModExp(g, b, n)
  {
    var y := ModExp(g, b, n);
    ModIsResidue(v * 3 + y, n);
    var q := (v * 3 + y) / n;
    assert ServerPublic(g, n, v, b) - 3 * v == y - n * q;
    ResidueIs(y - n * q, n, -q, y);
  }

  // ----- powers and residues -----

  lemma ModIsResidue(x: int, n: nat)
    requires n > 0
    ensures x == n * (x / n) + x % n
  {
  }

  lemma ResidueIs(x: int, n: nat, q: int, r: nat)
    requires n > 0 && r < n && x == n * q + r
    ensures x % n == r
  {
    ModIsResidue(x, n);
    var k := x / n - q;
    Distribute(n, x / n, q);
    if k >= 1 { Scale(n, 1, k); } else if k <= -1 { Scale(n, k, -1); }
  }

  lemma SameResidue(x: int, y: int, n: nat, k: int)
    requires n > 0 && x == y + n * k
    ensures x % n == y % n
  {
    ModIsResidue(y, n);
    Distribute(n, y / n, -k);
    ResidueIs(x, n, y / n + k, y % n);
  }

  lemma MulMod(x: nat, y: nat, n: nat)
    requires n > 0
    ensures ((x % n) * (y % n)) % n == (x * y) % n
  {
    var p, q := x / n, y / n;
    var r, s := x % n, y % n;
    ModIsResidue(x, n);
    ModIsResidue(y, n);
    Expand(n, p, r, q, s);
    SameResidue(x * y, r * s, n, n * p * q + p * s + r * q);
  }

  lemma Expand(n: int, p: int, r: int, q: int, s: int)
    ensures (n * p + r) * (n * q + s) == r * s + n * (n * p * q + p * s + r * q)
  {
    var t := n * q + s;
    assert (n * p + r) * t == n * p * t + r * t;
    assert r * t == n * (r * q) + r * s;
    assert n * p * t == n * (p * t);
    assert p * t == n * p * q + p * s;
    Distribute3(n, n * p * q, p * s, r * q);
  }

  lemma Distribute3(n: int, a: int, b: int, c: int) ensures n * (a + b + c) == n * (a + b) + n * c {}

  lemma {:induction false} PowAdd(b: nat, m: nat, k: nat)
    ensures PowN(b, m + k) == PowN(b, m) * PowN(b, k)
  {
    if m != 0 {
      PowAdd(b, m - 1, k);
      MulAssoc(b, PowN(b, m - 1), PowN(b, k));
    }
  }

  /** Powers are powers. */
  lemma PowersMean(b: nat, m: nat, k: nat)
    ensures PowN(b, 0) == 1 && PowN(b, 1) == b && PowN(b, m + k) == PowN(b, m) * PowN(b, k)
  {
    assert PowN(b, 1) == b * PowN(b, 0);
    PowAdd(b, m, k);
  }

  lemma {:induction false} PowMul(b: nat, m: nat, k: nat)
    ensures PowN(PowN(b, m), k) == PowN(b, m * k)
  {
    if k != 0 {
      PowMul(b, m, k - 1);
      PowAdd(b, m, m * (k - 1));
      assert m * k == m + m * (k - 1);
    } else {
      assert m * k == 0;
    }
  }

  lemma {:induction false} PowOfMod(b: nat, e: nat, n: nat)
    requires n > 0
    ensures PowN(b % n, e) % n == PowN(b, e) % n
  {
    if e != 0 {
      PowOfMod(b, e - 1, n);
      var p, q := PowN(b % n, e - 1), PowN(b, e - 1);
      MulMod(b % n, p, n);
      MulMod(b, q, n);
      ModTwice(b, n);
    }
  }

  lemma ModTwice(b: nat, n: nat)
    requires n > 0
    ensures b % n % n == b % n
  {
  }

  // ----- the session key -----

  function Evens(t: seq<Byte>): (r: seq<Byte>)
    ensures |r| == (|t| + 1) / 2
  {
    seq((|t| + 1) / 2, i requires 0 <= i < (|t| + 1) / 2 => t[2 * i])
  }

  function Odds(t: seq<Byte>): (r: seq<Byte>)
    ensures |r| == |t| / 2
  {
    seq(|t| / 2, i requires 0 <= i < |t| / 2 => t[2 * i + 1])
  }

  /** RFC 2945 section 3.1: the digests of the even-numbered and of the odd-numbered bytes, interleaved. */
  function Interleave(H: Hash, t: seq<Byte>): (r: seq<Byte>)
    ensures |r| == 40
  {
    var e, o := H(Evens(t)), H(Odds(t));
    seq(40, i requires 0 <= i < 40 => if i % 2 == 0 then e[i / 2] else o[i / 2])
  }

  /** Byte for byte: even places from the digest of the even-numbered bytes, odd ones from the other. */
  lemma InterleaveMeans(H: Hash, t: seq<Byte>, even: seq<Byte>, odd: seq<Byte>, i: nat)
    requires |even| == (|t| + 1) / 2 && forall j :: 0 <= j < |even| ==> even[j] == t[2 * j]
    requires |odd| == |t| / 2 && forall j :: 0 <= j < |odd| ==> odd[j] == t[2 * j + 1]
    requires i < 20
    ensures Interleave(H, t)[2 * i] == H(even)[i] && Interleave(H, t)[2 * i + 1] == H(odd)[i]
  {
    assert even == Evens(t) && odd == Odds(t);
  }

  /** The string T of RFC 2945 section 3.1: the number without zero bytes at its most significant end and,
      if that leaves an odd number of bytes, without the most significant one.  The RFC writes
      numbers most significant byte first; this is T in the server's order, least significant
      byte first, and `Reversed(T(S))` is T as the RFC writes it. */
  function T(S: nat): seq<Byte>
  {
    var m := Minimal(S);
    m[..|m| - |m| % 2]
  }

  /** The same as the RFC puts it, for a string most significant byte first: leading zero bytes are removed, and one
      more byte if that leaves an odd number. */
  function RfcT(b: seq<Byte>): seq<Byte>
  {
    if b != [] && b[0] == 0 then RfcT(b[1..]) else b[|b| % 2..]
  }

  lemma {:induction false} TIsRfcT(b: seq<Byte>)
    ensures RfcT(b) == Reversed(T(BigEndianValue(b)))
  {
    if b != [] && b[0] == 0 {
      LeadingZero(b);
      TIsRfcT(b[1..]);
    } else {
      NoLeadingZero(b);
    }
  }

  lemma NoLeadingZero(b: seq<Byte>)
    requires b != [] ==> b[0] != 0
    ensures b[|b| % 2..] == Reversed(T(BigEndianValue(b)))
  {
    hide Value; hide Minimal; hide BigEndianValue; hide Reversed;
    var m := Reversed(b);
    assert |m| == |b| && (m != [] ==> m[|m| - 1] == b[0]);
    ReversedTwice(b);
    BigEndianOfReversed(m);
    MinimalOfValue(m);
    var t := T(Value(m));
    assert t == m[..|m| - |m| % 2];
    if |m| % 2 == 1 {
      ReversedLast(t, m[|m| - 1]);
      assert t + [m[|m| - 1]] == m;
    } else {
      assert t == m && b[0..] == b;
    }
  }

  lemma ReversedLast(front: seq<Byte>, x: Byte)
    ensures Reversed(front + [x])[1..] == Reversed(front)
  {
    hide Reversed;
    var s := front + [x];
    assert |Reversed(s)| == |front| + 1 && |Reversed(front)| == |front|;
    forall i | 0 <= i < |front| ensures Reversed(s)[1..][i] == Reversed(front)[i] {
      assert Reversed(s)[i + 1] == s[|front| - 1 - i];
    }
  }

  lemma LeadingZero(b: seq<Byte>)
    requires b != [] && b[0] == 0
    ensures BigEndianValue(b) == BigEndianValue(b[1..])
  {
    assert Value([0 as Byte]) == 0;
    hide Value; hide BigEndianValue; hide Reversed; hide Pow256;
    var m := Reversed(b[1..]);
    ReversedTwice(b);
    ReversedTwice(b[1..]);
    BigEndianOfReversed(m);
    BigEndianOfReversed(Reversed(b));
    assert Reversed(b) == m + [0];
    ValueConcat(m, [0]);
    assert Pow256(|m|) * 0 == 0;
  }

  lemma SplitsApart(s: seq<Byte>, t: seq<Byte>)
    requires Evens(s) == Evens(t) && Odds(s) == Odds(t)
    ensures s == t
  {
    assert |s| == |Evens(s)| + |Odds(s)| && |t| == |Evens(t)| + |Odds(t)|;
    forall i | 0 <= i < |s| ensures s[i] == t[i] {
      if i % 2 == 0 {
        assert Evens(s)[i / 2] == s[i] && Evens(t)[i / 2] == t[i];
      } else {
        assert Odds(s)[i / 2] == s[i] && Odds(t)[i / 2] == t[i];
      }
    }
  }

  /** Interleaving keeps both digests apart. */
  lemma InterleaveGivesDigests(H: Hash, s: seq<Byte>, t: seq<Byte>)
    ensures Interleave(H, s) == Interleave(H, t) <==> H(Evens(s)) == H(Evens(t)) && H(Odds(s)) == H(Odds(t))
  {
    hide Evens; hide Odds;
    if Interleave(H, s) == Interleave(H, t) {
      forall i | 0 <= i < 20
        ensures H(Evens(s))[i] == H(Evens(t))[i] && H(Odds(s))[i] == H(Odds(t))[i]
      {
        assert Interleave(H, s)[2 * i] == Interleave(H, t)[2 * i];
        assert Interleave(H, s)[2 * i + 1] == Interleave(H, t)[2 * i + 1];
      }
    }
  }

  /** A hash function that tells two strings apart. */
  lemma Distinguish(x: seq<Byte>, y: seq<Byte>)
    requires x != y
    ensures exists H: Hash :: H(x) != H(y)
  {
    var d0: Digest := seq(20, i => 0 as Byte);
    var d1: Digest := seq(20, i => 1 as Byte);
    var H: Hash := z => if z == x then d0 else d1;
    assert H(x)[0] != H(y)[0];
  }

  /** The keys derived from two strings agree under every hash function just when the
      strings are equal. */
  lemma KeysAgreeIff(s: seq<Byte>, t: seq<Byte>)
    ensures (forall H: Hash :: Interleave(H, s) == Interleave(H, t)) <==> s == t
  {
    if s != t {
      if Evens(s) == Evens(t) && Odds(s) == Odds(t) { SplitsApart(s, t); }
      if Evens(s) != Evens(t) { Distinguish(Evens(s), Evens(t)); } else { Distinguish(Odds(s), Odds(t)); }
      hide Interleave; hide Evens; hide Odds;
      var H: Hash :| H(Evens(s)) != H(Evens(t)) || H(Odds(s)) != H(Odds(t));
      InterleaveGivesDigests(H, s, t);
    }
  }

  lemma SharedIsTIff(S: nat)
    requires NumBytes(S) <= 32
    ensures Encoding(S, 32, true) == T(S) <==> NumBytes(S) == 32
    ensures Encoding(S, 32, true) == Reversed(T(S)) <==> NumBytes(S) == 32 && Reversed(Minimal(S)) == Minimal(S)
  {
    if NumBytes(S) == 32 {
      assert Zeros(0) + Minimal(S) == Minimal(S) && Minimal(S)[..32] == Minimal(S);
    }
  }

  /** The server hashes its shared number as `AsByteArray(32)` lays it out.  That gives the key of RFC 2945,
      with T split least significant byte first, under every hash function just when the number
      needs all 32 bytes; with T split as the RFC writes it, most significant byte first, the
      bytes must also read the same from both ends. */
  lemma ServerKeyIsRfcKeyIff(S: nat)
    requires NumBytes(S) <= 32
    ensures (forall H: Hash :: Interleave(H, Encoding(S, 32, true)) == Interleave(H, T(S))) <==> NumBytes(S) == 32
    ensures (forall H: Hash :: Interleave(H, Encoding(S, 32, true)) == Interleave(H, Reversed(T(S))))
       <==> NumBytes(S) == 32 && Reversed(Minimal(S)) == Minimal(S)
  {
    hide Interleave; hide T; hide Encoding;
    KeysAgreeIff(Encoding(S, 32, true), T(S));
    KeysAgreeIff(Encoding(S, 32, true), Reversed(T(S)));
    SharedIsTIff(S);
  }

  /** Password, salt and secrets give both ends one key under every hash function just when the shared
      number needs all 32 bytes. */
  lemma SameSessionKeyIff(g: nat, n: nat, x: nat, a: nat, b: nat, u: nat)
    requires n > 0 && NumBytes(n) <= 32
    ensures var v := ModExp(g, x, n);
            var S := ServerSecret(n, ModExp(g, a, n), v, u, b);
            var c := ClientSecret(n, ServerPublic(g, n, v, b), v, a, u, x);
            && NumBytes(S) <= 32
            && ((forall H: Hash :: Interleave(H, Encoding(S, 32, true)) == Interleave(H, T(c))) <==> NumBytes(S) == 32)
  {
    Agreement(g, n, x, a, b, u);
    hide Interleave; hide T; hide Encoding; hide PowN; hide NumBytes; hide Pow256;
    var S := ServerSecret(n, ModExp(g, a, n), ModExp(g, x, n), u, b);
    FitsIff(n, 32);
    FitsIff(S, 32);
    ServerKeyIsRfcKeyIff(S);
  }
}
