/** One connection of `AuthServer.cpp`: the buffered bytes, the SRP-6 fields and the replies, with
    the dispatch loop and its handlers.  `Session` is the state as a value, `ChallengeStep`,
    `ProofStep` and `RealmStep` say what the handlers do to it, and class `AuthServer` does it. */
module AuthSession {
  import opened LittleEndian
  import opened BigNumbers
  import opened Sequences
  import opened Srp6
  import opened Wrappers

  type Positive = n: nat | n > 0 witness 1

  /** The group of the source; everything below is stated for any other as well. */
  const N_VALUE: Positive := 0x894B645E89E1535BBDAD5B8B290650530801B18EBFBF5E8FAB3C82872A3E9BB7
  const G_VALUE: nat := 7

  /** A database row: the stored password hash, the verifier and salt if both hex strings have the
      right length, and whether the realm-list query finds the account. */
  datatype Account = Account(passHash: nat, stored: Option<(nat, nat)>, found: bool)

  /** The modulus has 32 bytes and the generator one. */
  lemma SourceGroup()
    ensures NumBytes(N_VALUE) == 32 && NumBytes(G_VALUE) == 1
  {
    Pow256Values();
    FitsIff(N_VALUE, 32);
    FitsIff(N_VALUE, 31);
    FitsIff(G_VALUE, 1);
    FitsIff(G_VALUE, 0);
  }

  lemma Pow256Values()
    ensures Pow256(0) == 1 && Pow256(1) == 256
    ensures Pow256(31) == 0x1_00000000_00000000_00000000_00000000_00000000_00000000_00000000_000000
    ensures Pow256(32) == 256 * Pow256(31)
  {
    assert Pow256(8) == 0x1_00000000_00000000;
    assert Pow256(16) == 0x1_00000000_00000000_00000000_00000000;
    assert Pow256(24) == 0x1_00000000_00000000_00000000_00000000_00000000_00000000;
  }

  datatype Random = Random(s: nat, b: nat, unk3: nat)

  /** The hash function, the group, and everything from outside for the n-th handler call:
      database, random numbers and the memory behind the array that `memcmp` is given. */
  datatype Env = Env(H: Hash, N: Positive, g: nat, account: nat -> Account, random: nat -> Random,
                     beyond: nat -> Digest)

  /** The replies, with the fields that vary; `Wire` gives their bytes. */
  datatype Reply =
    | ChallengeReply(pub: seq<Byte>, salt: seq<Byte>, noise: nat)
    | ProofAccepted(M2: Digest)
    | ProofRejected
    | RealmList

  /** One comparison of proofs: where the packet starts in the consumed bytes, the number of the handler
      call, the client's public number and 20 bytes, and the other strings that the
      server's proof was made from. */
  datatype Check = Check(
    at: nat, call: nat, A: nat, theirs: seq<Byte>, login: seq<Byte>, s: seq<Byte>, B: seq<Byte>, K: seq<Byte>)
  {
    function Input(env: Env): seq<Byte> { ServerInput(env, login, s, A, B, K) }
  }

  /** `consumed`, `calls` and `checks` are history: the bytes taken from the buffer so far, the number of
      handler calls, and the comparisons made. */
  datatype Session = Session(
    inbuf: seq<Byte>, consumed: seq<Byte>, calls: nat, authed: bool, closed: bool,
    login: seq<Byte>, build: nat, s: Num, v: nat, b: nat, B: Num, K: Num, sent: seq<Reply>, checks: seq<Check>)
  {
    predicate Valid() { Sized(s) && Sized(B) && Sized(K) }

    function Take(k: nat): Session
      requires k <= |inbuf|
    {
      this.(inbuf := inbuf[k..], consumed := consumed + inbuf[..k])
    }

    function Send(r: Reply): Session { this.(sent := sent + [r]) }
  }

  predicate Sized(n: Num) { forall length :: length in n.arrays ==> |n.arrays[length]| == length }

  const Start := Session([], [], 0, false, false, [], 0, Num(0, map[]), 0, 0, Num(0, map[]), Num(0, map[]), [], [])

  lemma ViewSized(n: Num, minSize: nat)
    requires Sized(n)
    ensures |View(n, minSize, true).0| == Length(n.bn, minSize) && Sized(View(n, minSize, true).1)
  {
  }

  // ----- logon challenge -----

  /** The 20 bytes of the stored hash, leading zeros restored. */
  function PasswordDigest(I: nat): seq<Byte>
  {
    if NumBytes(I) <= 20 then Reversed(Minimal(I) + Zeros(20 - NumBytes(I))) else Zeros(20)
  }

  /** Whatever zeros a digest begins with, the bytes hashed for the private key are the digest whose number the
      account holds; a number that needs more than 20 bytes gives zeros. */
  lemma PasswordDigestIs(d: Digest, I: nat)
    ensures PasswordDigest(BigEndianValue(d)) == d
    ensures NumBytes(I) > 20 ==> PasswordDigest(I) == Zeros(20)
  {
    var I, m := BigEndianValue(d), Reversed(d);
    ReversedTwice(d);
    BigEndianOfReversed(m);
    ValueBound(m);
    FitsIff(I, 20);
    ValueOfFixedWidth(I, 20);
    ValueInjective(FixedWidth(I, 20), m);
  }

  function PrivateKey(H: Hash, salt: seq<Byte>, I: nat): nat
  {
    Value(H(salt + PasswordDigest(I)))
  }

  /** Salt and verifier, from the database or made anew. */
  function Verifier(st: Session, env: Env): (r: Session)
    requires st.Valid()
    ensures r.Valid() && r == st.(s := r.s, v := r.v)
  {
    var row := env.account(st.calls);
    if row.stored.Some? then
      st.(s := st.s.(bn := row.stored.value.1), v := row.stored.value.0)
    else
      var (salt, s) := View(st.s.(bn := env.random(st.calls).s), 0, true);
      ViewSized(st.s.(bn := env.random(st.calls).s), 0);
      st.(s := s, v := ModExp(env.g, PrivateKey(env.H, salt, row.passHash), env.N))
  }

  function First(s: seq<Byte>, k: nat): seq<Byte> { if |s| < k then s else s[..k] }

  /** The bytes of a reply: B, g, N, salt and noise for a challenge; the server's proof with the
      account flags, or the error code; the realm list, which is four zero bytes behind a
      header with its size. */
  function Wire(env: Env, r: Reply): seq<Byte>
  {
    match r
    case ChallengeReply(pub, salt, noise) =>
      [0, 0, 0] + First(pub, 32) + [1] + First(Encoding(env.g, 0, true), 1) + [32] +
        First(Encoding(env.N, 32, true), 32)
      + salt + First(Encoding(noise, 16, true), 16) + [0]
    case ProofAccepted(M2) => [1, 0] + M2 + [0, 0, 0x80, 0] + [0, 0, 0, 0] + [0, 0]
    case ProofRejected => [1, 4, 3, 0]
    case RealmList => [0x10, 4, 0] + [0, 0, 0, 0]
  }

  /** What a client takes from the fixed places of a greeting: B, g, N, salt and noise. */
  datatype Greeting = Greeting(pub: seq<Byte>, g: nat, N: nat, salt: seq<Byte>, noise: seq<Byte>)

  function ReadGreeting(p: seq<Byte>): Option<Greeting>
  {
    if |p| == 119 && p[..3] == [0, 0, 0] && p[35] == 1 && p[37] == 32 && p[118] == 0 then
      Some(Greeting(p[3..35], Value(p[36..37]), Value(p[38..70]), p[70..102], p[102..118]))
    else None
  }

  /** With a group whose generator has one byte and whose modulus has 32, the client finds every
      field just when the salt's number needs all of its 32 bytes. */
  lemma GreetingIsReadIff(env: Env, pub: seq<Byte>, salt: seq<Byte>, noise: nat)
    requires NumBytes(env.g) == 1 && NumBytes(env.N) == 32 && |pub| == 32 && NumBytes(noise) <= 16
    ensures ReadGreeting(Wire(env, ChallengeReply(pub, salt, noise)))
            == Some(Greeting(pub, env.g, env.N, salt, Encoding(noise, 16, true)))
       <==> |salt| == 32
  {
    var g, n, r := Encoding(env.g, 0, true), Encoding(env.N, 32, true), Encoding(noise, 16, true);
    RoundTripIff(env.g, 0);
    RoundTripIff(env.N, 32);
    hide Encoding; hide NumBytes; hide Value;
    var p := Wire(env, ChallengeReply(pub, salt, noise));
    assert |g| == 1 && |n| == 32 && |r| == 16;
    assert p == [0, 0, 0] + pub + [1] + g + [32] + n + salt + r + [0];
    assert |p| == 87 + |salt|;
    if |salt| == 32 {
      assert p[35] == 1 && p[37] == 32 && p[118] == 0 && p[..3] == [0, 0, 0];
      assert p[36..37] == g && p[38..70] == n && p[70..102] == salt && p[102..118] == r && p[3..35] == pub;
    }
  }

  /** Fresh secret, public number and greeting. */
  function Greet(st: Session, env: Env): (r: Session)
    requires st.Valid()
    ensures r.Valid() && r.inbuf == st.inbuf
  {
    var b := env.random(st.calls).b;
    var (pub, B) := View(st.B.(bn := ServerPublic(env.g, env.N, st.v, b)), 32, true);
    var (salt, s) := View(st.s, 0, true);
    ViewSized(st.B.(bn := ServerPublic(env.g, env.N, st.v, b)), 32);
    ViewSized(st.s, 0);
    st.(b := b, B := B, s := s).Send(ChallengeReply(pub, salt, env.random(st.calls).unk3))
  }

  function ChallengeStep(st: Session, env: Env): (r: (Session, bool))
    requires st.Valid()
    ensures r.0.Valid()
  {
    if |st.inbuf| < 35 then (st, false)
    else
      var remaining := Value(st.inbuf[2..4]);
      var st1 := st.Take(4);
      if remaining < 31 || |st1.inbuf| < remaining then (st1, false)
      else
        var buf := st.inbuf[..4 + remaining] + [0];
        var st2 := st1.Take(remaining).(login := UpTo(buf[34..], 0), build := Value(buf[11..13]));
        (Greet(Verifier(st2, env), env), true)
  }

  // ----- logon proof -----

  function Xor(x: Byte, y: Byte): Byte { ((x as bv8) ^ (y as bv8)) as Byte }

  function XorDigests(d: Digest, e: Digest): (r: Digest)
  {
    seq(20, i requires 0 <= i < 20 => Xor(d[i], e[i]))
  }

  /** The bit with a weight of 1, 2, 4 and so on. */
  predicate Bit(x: Byte, weight: bv8) { (x as bv8) & weight != 0 }

  predicate Weight(w: bv8) { w == 1 || w == 2 || w == 4 || w == 8 || w == 16 || w == 32 || w == 64 || w == 128 }

  lemma XorBits(x: Byte, y: Byte, weight: bv8)
    requires Weight(weight)
    ensures Bit(Xor(x, y), weight) <==> Bit(x, weight) != Bit(y, weight)
  {
    ThereAndBack((x as bv8) ^ (y as bv8));
    XorBitsOf(x as bv8, y as bv8, weight);
  }

  lemma ThereAndBack(z: bv8) ensures (z as Byte) as bv8 == z {}

  lemma XorBitsOf(x: bv8, y: bv8, weight: bv8)
    requires Weight(weight)
    ensures (x ^ y) & weight != 0 <==> (x & weight != 0) != (y & weight != 0)
  {
  }

  /** H(N) xor H(g). */
  function GroupDigest(env: Env): Digest { XorDigests(env.H(Minimal(env.N)), env.H(Minimal(env.g))) }

  /** A bit of it is set just when it is set in one of the two digests. */
  lemma GroupBits(env: Env, i: nat, w: bv8)
    requires i < 20 && Weight(w)
    ensures Bit(GroupDigest(env)[i], w) <==> Bit(env.H(Minimal(env.N))[i], w) != Bit(env.H(Minimal(env.g))[i], w)
  {
    XorBits(env.H(Minimal(env.N))[i], env.H(Minimal(env.g))[i], w);
    hide Bit; hide Xor; hide Minimal;
  }

  /** What the proof is the digest of: H(N) xor H(g), H(I), s, A, B and K.  The server takes the group's digest and the
      client's number in their shortest forms. */
  function ServerInput(env: Env, login: seq<Byte>, s: seq<Byte>, A: nat, B: seq<Byte>, K: seq<Byte>): seq<Byte>
  {
    Minimal(Value(GroupDigest(env))) + env.H(login) + s + Minimal(A) + B + K
  }

  /** The comparison reads 20 bytes from an array that is as long as the number needs. */
  function Compared(M: nat, beyond: Digest): (r: seq<Byte>)
    ensures |r| == 20
  {
    (Minimal(M) + beyond)[..20]
  }

  /** u = H(A, B), the shared number and from it the session key. */
  function SetKey(st: Session, env: Env, A: nat): (r: Session)
    requires st.Valid()
    ensures r.Valid() && r == st.(B := r.B, K := r.K) && r.B == View(st.B, 0, true).1
  {
    var (bBytes, B) := View(st.B, 0, true);
    ViewSized(st.B, 0);
    var u := Value(env.H(Minimal(A) + bBytes));
    var S := ServerSecret(env.N, A, st.v, u, st.b);
    st.(B := B, K := st.K.(bn := Value(Interleave(env.H, Shared(S)))))
  }

  /** The comparison that is to be made, and the session with its arrays made. */
  function Prove(st: Session, env: Env, A: nat, M1: seq<Byte>, at: nat): (r: (Check, Session))
    requires st.Valid()
    ensures r.1.Valid() && r.1 == st.(s := r.1.s, B := r.1.B, K := r.1.K)
  {
    var (sBytes, s) := View(st.s, 0, true);
    var (bBytes, B) := View(st.B, 0, true);
    var (kBytes, K) := View(st.K, 0, true);
    ViewSized(st.s, 0);
    ViewSized(st.B, 0);
    ViewSized(st.K, 0);
    (Check(at, st.calls, A, M1, st.login, sBytes, bBytes, kBytes), st.(s := s, B := B, K := K))
  }

  /** The shared number as the 32 bytes that are interleaved. */
  function Shared(S: nat): (r: seq<Byte>)
    ensures |r| == 32
  {
    Encoding(S, 32, true)[..32]
  }

  /** Compare the client's proof with the server's and answer. */
  function Judge(st: Session, env: Env, A: nat, M1: seq<Byte>, at: nat): (r: Session)
    requires st.Valid()
    ensures r.Valid() && r.inbuf == st.inbuf
  {
    var (check, st') := Prove(st, env, A, M1, at);
    var M := Value(env.H(check.Input(env)));
    var st1 := st'.(checks := st.checks + [check]);
    if Compared(M, env.beyond(st.calls)) == M1 then
      st1.Send(ProofAccepted(env.H(Minimal(A) + Minimal(M) + check.K))).(authed := true)
    else
      st1.Send(ProofRejected)
  }

  function ProofStep(st: Session, env: Env): (r: (Session, bool))
    requires st.Valid()
    ensures r.0.Valid()
  {
    if |st.inbuf| < 75 then (st, false)
    else
      var A := Value(st.inbuf[1..33]);
      if A == 0 then (st.Take(75), false)
      else (Judge(SetKey(st.Take(75), env, A), env, A, st.inbuf[33..53], |st.consumed|), true)
  }

  // ----- realm list and dispatch -----

  function RealmStep(st: Session, env: Env): (r: (Session, bool))
    requires st.Valid()
    ensures r.0.Valid()
  {
    if |st.inbuf| < 5 then (st, false)
    else if !env.account(st.calls).found then (st.Take(5).(closed := true), false)
    else (st.Take(5).Send(RealmList), true)
  }

  /** One turn of the dispatch loop: look up the command byte and call its handler. */
  function Dispatch(st: Session, env: Env): (r: (Session, bool))
    requires st.Valid()
    ensures r.0.Valid()
    ensures r.1 ==> |r.0.inbuf| < |st.inbuf|
  {
    if st.inbuf == [] then (st, false)
    else
      var cmd := st.inbuf[0];
      var (st', ok) :=
        if cmd == 0 then ChallengeStep(st, env)
        else if cmd == 1 then ProofStep(st, env)
        else if cmd == 0x10 && st.authed then RealmStep(st, env)
        else (st, false);
      (st'.(calls := st.calls + 1), ok)
  }

  function OnRead(st: Session, env: Env): (r: Session)
    requires st.Valid()
    ensures r.Valid()
    decreases |st.inbuf|
  {
    var (st', more) := Dispatch(st, env);
    if more then OnRead(st', env) else st'
  }

  /** A chunk arrives from the peer and is read; nothing arrives after the connection was closed. */
  function Receive(st: Session, env: Env, chunk: seq<Byte>): (r: Session)
    requires st.Valid()
    ensures r.Valid()
  {
    if st.closed then st else OnRead(st.(inbuf := st.inbuf + chunk), env)
  }

  function Run(st: Session, env: Env, chunks: seq<seq<Byte>>): (r: Session)
    requires st.Valid()
    ensures r.Valid()
    decreases chunks
  {
    if chunks == [] then st else Run(Receive(st, env, chunks[0]), env, chunks[1..])
  }

  // ----- the object -----

  class AuthServer {
    const env: Env
    var inbuf: seq<Byte>
    var authed: bool
    var login: seq<Byte>
    var build: nat
    var s: Num
    var v: nat
    var b: nat
    var B: Num
    var K: Num
    var sent: seq<Reply>
    var closed: bool
    ghost var consumed: seq<Byte>
    ghost var checks: seq<Check>
    var calls: nat

    ghost function State(): Session
      reads this
    {
      Session(inbuf, consumed, calls, authed, closed, login, build, s, v, b, B, K, sent, checks)
    }

    constructor (env: Env)
      ensures State() == Start && this.env == env
    {
      this.env := env;
      inbuf, authed, login, build := [], false, [], 0;
      s, v, b, B, K := Num(0, map[]), 0, 0, Num(0, map[]), Num(0, map[]);
      sent, closed, consumed, calls, checks := [], false, [], 0, [];
    }

    method Recv(len: nat) returns (buf: seq<Byte>)
      requires len <= |inbuf|
      modifies this`inbuf, this`consumed
      ensures buf == old(inbuf)[..len] && State() == old(State()).Take(len)
    {
      buf := inbuf[..len];
      consumed := consumed + buf;
      inbuf := inbuf[len..];
    }

    method DigestBytes(I: nat) returns (r: seq<Byte>)
      ensures r == PasswordDigest(I)
    {
      var mDigest := new Byte[20](i => 0);
      var n := NumBytes(I);
      if n <= 20 {
        var bytes := Minimal(I);
        forall i | 0 <= i < n { mDigest[i] := bytes[i]; }
        assert mDigest[..] == bytes + Zeros(20 - n);
      } else {
        assert Reversed(mDigest[..]) == Zeros(20);
      }
      return Reversed(mDigest[..]);
    }

    method SetVSFields(I: nat)
      requires State().Valid() && env.account(calls).stored.None? && env.account(calls).passHash == I
      modifies this`s, this`v
      ensures State() == Verifier(old(State()), env)
    {
      s := s.(bn := env.random(calls).s);
      var (salt, s') := View(s, 0, true);
      s := s';
      var mDigest := DigestBytes(I);
      var x := Value(env.H(salt + mDigest));
      v := ModExp(env.g, x, env.N);
    }

    method LoadVerifier()
      requires State().Valid()
      modifies this`s, this`v
      ensures State() == Verifier(old(State()), env)
    {
      var row := env.account(calls);
      if row.stored.None? {
        SetVSFields(row.passHash);
      } else {
        s := s.(bn := row.stored.value.1);
        v := row.stored.value.0;
      }
    }

    method GreetClient()
      requires State().Valid()
      modifies this`b, this`B, this`s, this`sent
      ensures State() == Greet(old(State()), env)
    {
      hide Encoding; hide Minimal; hide ModExp; hide NumBytes;
      b := env.random(calls).b;
      B := B.(bn := (v * 3 + ModExp(env.g, b, env.N)) % env.N);
      var (pub, B') := View(B, 32, true);
      var (salt, s') := View(s, 0, true);
      B, s := B', s';
      sent := sent + [ChallengeReply(pub, salt, env.random(calls).unk3)];
    }

    method HandleLogonChallenge() returns (ok: bool)
      requires State().Valid()
      modifies this
      ensures (State(), ok) == ChallengeStep(old(State()), env)
    {
      hide Verifier; hide Greet; hide Value; hide UpTo; hide Sized;
      if |inbuf| < 35 {
        return false;
      }
      ghost var input := inbuf;
      var header := Recv(4);
      var remaining := Value(header[2..4]);
      assert header[2..4] == input[2..4];
      if remaining < 31 || |inbuf| < remaining {
        return false;
      }
      var body := Recv(remaining);
      var buf := header + body + [0];
      assert buf == input[..4 + remaining] + [0];
      login := UpTo(buf[34..], 0);
      build := Value(buf[11..13]);
      LoadVerifier();
      GreetClient();
      return true;
    }

    method Interleaved(t: seq<Byte>) returns (r: seq<Byte>)
      requires |t| == 32
      ensures r == Interleave(env.H, t)
    {
      var t1 := new Byte[16];
      var vK := new Byte[40];
      for i := 0 to 16
        invariant forall j :: 0 <= j < i ==> t1[j] == t[j * 2]
      {
        t1[i] := t[i * 2];
      }
      assert t1[..] == Evens(t);
      var digest := env.H(t1[..]);
      for i := 0 to 20
        invariant forall j :: 0 <= j < i ==> vK[j * 2] == digest[j]
      {
        vK[i * 2] := digest[i];
      }
      ghost var even := digest;
      for i := 0 to 16
        invariant forall j :: 0 <= j < i ==> t1[j] == t[j * 2 + 1]
        invariant forall j :: 0 <= j < 20 ==> vK[j * 2] == even[j]
      {
        t1[i] := t[i * 2 + 1];
      }
      assert t1[..] == Odds(t);
      digest := env.H(t1[..]);
      for i := 0 to 20
        invariant forall j :: 0 <= j < i ==> vK[j * 2 + 1] == digest[j]
        invariant forall j :: 0 <= j < 20 ==> vK[j * 2] == even[j]
      {
        vK[i * 2 + 1] := digest[i];
      }
      forall k | 0 <= k < 40 ensures vK[k] == Interleave(env.H, t)[k] {
        assert k == (k / 2) * 2 || k == (k / 2) * 2 + 1;
      }
      return vK[..];
    }

    method XorOf(d: Digest, e: Digest) returns (r: Digest)
      ensures r == XorDigests(d, e)
    {
      var hash := new Byte[20](i requires 0 <= i < 20 => d[i]);
      for i := 0 to 20
        invariant forall j :: 0 <= j < i ==> hash[j] == Xor(d[j], e[j])
        invariant forall j :: i <= j < 20 ==> hash[j] == d[j]
      {
        hash[i] := Xor(hash[i], e[i]);
      }
      r := hash[..];
    }

    method ComputeKey(A: nat)
      requires State().Valid()
      modifies this`B, this`K
      ensures State() == SetKey(old(State()), env, A)
    {
      var (bBytes, B') := View(B, 0, true);
      B := B';
      var u := Value(env.H(Minimal(A) + bBytes));
      var S := ServerSecret(env.N, A, v, u, b);
      var vK := Interleaved(Shared(S));
      K := K.(bn := Value(vK));
    }

    method ProofNumber(A: nat, M1: seq<Byte>, ghost at: nat) returns (M: nat, kBytes: seq<Byte>, ghost check: Check)
      requires State().Valid()
      modifies this`s, this`B, this`K
      ensures (check, State()) == Prove(old(State()), env, A, M1, at)
      ensures M == Value(env.H(check.Input(env))) && kBytes == check.K
    {
      hide Encoding; hide Minimal; hide Value; hide NumBytes; hide XorDigests;
      var hash := XorOf(env.H(Minimal(env.N)), env.H(Minimal(env.g)));
      var (sBytes, s') := View(s, 0, true);
      var (bBytes, B') := View(B, 0, true);
      var (kBytes', K') := View(K, 0, true);
      s, B, K, kBytes := s', B', K', kBytes';
      check := Check(at, calls, A, M1, login, sBytes, bBytes, kBytes);
      M := Value(env.H(Minimal(Value(hash)) + env.H(login) + sBytes + Minimal(A) + bBytes + kBytes));
    }

    method Answer(A: nat, M1: seq<Byte>, ghost at: nat)
      requires State().Valid()
      modifies this`s, this`B, this`K, this`sent, this`authed, this`checks
      ensures State() == Judge(old(State()), env, A, M1, at)
    {
      hide Prove; hide Compared; hide Value; hide Minimal;
      var M, kBytes;
      ghost var check;
      M, kBytes, check := ProofNumber(A, M1, at);
      checks := checks + [check];
      if Compared(M, env.beyond(calls)) == M1 {
        sent := sent + [ProofAccepted(env.H(Minimal(A) + Minimal(M) + kBytes))];
        authed := true;
      } else {
        sent := sent + [ProofRejected];
      }
    }

    method HandleLogonProof() returns (ok: bool)
      requires State().Valid()
      modifies this
      ensures (State(), ok) == ProofStep(old(State()), env)
    {
      if |inbuf| < 75 {
        return false;
      }
      ghost var input, at := inbuf, |consumed|;
      var lp := Recv(75);
      assert lp[1..33] == input[1..33] && lp[33..53] == input[33..53];
      var A := Value(lp[1..33]);
      if A == 0 {
        return false;
      }
      ComputeKey(A);
      Answer(A, lp[33..53], at);
      return true;
    }

    method HandleRealmList() returns (ok: bool)
      requires State().Valid()
      modifies this
      ensures (State(), ok) == RealmStep(old(State()), env)
    {
      if |inbuf| < 5 {
        return false;
      }
      var _ := Recv(5);
      if !env.account(calls).found {
        closed := true;
        return false;
      }
      sent := sent + [RealmList];
      return true;
    }

    method HandleOne() returns (more: bool)
      requires State().Valid()
      modifies this
      ensures (State(), more) == Dispatch(old(State()), env)
    {
      if inbuf == [] {
        return false;
      }
      var cmd := inbuf[0];
      if cmd == 0 {
        more := HandleLogonChallenge();
      } else if cmd == 1 {
        more := HandleLogonProof();
      } else if cmd == 0x10 && authed {
        more := HandleRealmList();
      } else {
        more := false;
      }
      calls := calls + 1;
    }

    /** The loop ends because a handler that returns true has taken bytes from the buffer. */
    method Read()
      requires State().Valid()
      modifies this
      ensures State() == OnRead(old(State()), env)
    {
      var more := true;
      while more
        invariant State().Valid()
        invariant OnRead(old(State()), env) == if more then OnRead(State(), env) else State()
        decreases more, |inbuf|
      {
        more := HandleOne();
      }
    }
  }
}
