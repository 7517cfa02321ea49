/** A client that knows the password: exactly when the server of `AuthServer.cpp` accepts a proof of it after the
    first challenge of a connection. */
module ClientLogin {
  import opened LittleEndian
  import opened BigNumbers
  import opened Srp6
  import opened AuthSession
  import opened LoginRuns
  import opened KeptArrays
  import opened Sequences
  import opened Wrappers

  type Bytes32 = s: seq<Byte> | |s| == 32 witness seq(32, i => 0 as Byte)

  /** The client of RFC 5054 and RFC 2945 section 3, with every string least significant byte first, as the server
      writes them: it hashes public numbers as the 32 bytes in which they are sent, the group's in their
      shortest forms, and derives the key from T split in that order, where RFC 2945 has the other one.
      `password` is the digest of name and password, `A` the client's public number, `B` what it was sent,
      `S` the shared number and `a` its secret. */
  datatype Client = Client(
    env: Env, login: seq<Byte>, password: Digest, salt: seq<Byte>, A: Bytes32, B: Bytes32, S: nat, a: nat)
  {
    function U(): nat { Value(env.H(A + B)) }

    function Key(): seq<Byte> { Interleave(env.H, T(S)) }

    function Input(): seq<Byte> { GroupDigest(env) + env.H(login) + salt + A + B + Key() }

    function X(): nat { Value(env.H(salt + password)) }

    function M1(): Digest { env.H(Input()) }

    function M2(): Digest { env.H(A + M1() + Key()) }

    function Packet(rest: seq<Byte>): seq<Byte> { [1] + A + M1() + rest }

    /** The numbers are those of the protocol. */
    ghost predicate Computes()
    {
      && Value(A) == ModExp(env.g, a, env.N)
      && S == ClientSecret(env.N, Value(B), ModExp(env.g, X(), env.N), a, U(), X())
    }
  }

  // ----- what the server computes from the client's number -----

  /** The state in which a proof of `c` is awaited: the client has been sent B as `AsByteArray(32)` lays it out, and the
      arrays of B and salt are those of the current numbers.  The modulus has at most 32 bytes. */
  ghost predicate Awaits(st: Session, c: Client)
  {
    && NumBytes(c.env.N) <= 32 && st.Valid() && Current(st.B) && Current(st.s) && Kept(st, c.env.N)
    && c.B == Encoding(st.B.bn, 32, true) && st.B.bn == ServerPublic(c.env.g, c.env.N, st.v, st.b)
    && st.v == ModExp(c.env.g, c.X(), c.env.N) && st.login == c.login && Minimal(st.s.bn) == c.salt
  }

  function ServerU(st: Session, c: Client): nat { Value(c.env.H(Minimal(Value(c.A)) + Minimal(st.B.bn))) }

  /** The session key as the server computes it. */
  function ServerKey(st: Session, c: Client): (r: seq<Byte>)
    ensures |r| == 40
  {
    Interleave(c.env.H, Shared(ServerSecret(c.env.N, Value(c.A), st.v, ServerU(st, c), st.b)))
  }

  /** The session key as the server hashes it, which may be one kept from an earlier proof. */
  function UsedKey(st: Session, c: Client): seq<Byte> { Handed(st.K, Value(ServerKey(st, c)), 0) }

  function InputAtServer(st: Session, c: Client): seq<Byte>
  {
    ServerInput(c.env, c.login, c.salt, Value(c.A), Minimal(st.B.bn), UsedKey(st, c))
  }

  lemma CurrentKey(st: Session, env: Env, A: nat)
    requires st.Valid() && Current(st.B)
    ensures var r := SetKey(st, env, A);
            && r == st.(B := r.B, K := r.K) && Current(r.B) && r.B.bn == st.B.bn && r.K.arrays == st.K.arrays
            && r.K.bn == Value(Interleave(env.H,
                 Shared(ServerSecret(env.N, A, st.v, Value(env.H(Minimal(A) + Minimal(st.B.bn))), st.b))))
  {
    GetMinimal(st.B);
  }

  lemma CurrentProof(st: Session, env: Env, A: nat, M1: seq<Byte>, at: nat)
    requires st.Valid() && Current(st.B) && Current(st.s)
    ensures var (k, r) := Prove(st, env, A, M1, at);
            && k == Check(at, st.calls, A, M1, st.login, Minimal(st.s.bn), Minimal(st.B.bn), View(st.K, 0, true).0)
            && Current(r.B) && Current(r.s) && r.B.bn == st.B.bn && r.s.bn == st.s.bn
  {
    GetMinimal(st.B);
    GetMinimal(st.s);
  }

  /** The string that the server's proof is the digest of. */
  lemma ServerChecks(st: Session, c: Client, env: Env, at: nat)
    requires Awaits(st, c) && env == c.env.(beyond := env.beyond)
    ensures var k := Prove(SetKey(st, env, Value(c.A)), env, Value(c.A), c.M1(), at).0;
            && k.Input(env) == InputAtServer(st, c) && k.call == st.calls && k.theirs == c.M1() && k.K == UsedKey(st, c)
  {
    hide Prove; hide SetKey; hide Value; hide Minimal; hide Interleave; hide Shared; hide ServerSecret; hide Encoding;
    hide ServerPublic; hide ModExp; hide XorDigests; hide Client.Input; hide View; hide Kept;
    CurrentKey(st, env, Value(c.A));
    CurrentProof(SetKey(st, env, Value(c.A)), env, Value(c.A), c.M1(), at);
  }

  // ----- when the two hash the same strings -----

  /** What u is the digest of. */
  lemma UInputsAgreeIff(A: Bytes32, B: nat)
    requires NumBytes(B) <= 32
    ensures Minimal(Value(A)) + Minimal(B) == A + Encoding(B, 32, true) <==> A[31] != 0 && NumBytes(B) == 32
  {
    ShortIff(A);
    var b := Encoding(B, 32, true);
    if NumBytes(B) == 32 { assert b == Minimal(B); }
    if Minimal(Value(A)) + Minimal(B) == A + b { assert |Minimal(Value(A))| + |Minimal(B)| == 64; }
  }

  /** What the proof is the digest of: the strings agree just when nothing is short and the keys agree.  `K` is the
      session key as the server hashes it. */
  lemma InputsAgreeIff(
    env: Env, login: seq<Byte>, salt: seq<Byte>, A: Bytes32, B: nat, K: seq<Byte>, key: seq<Byte>)
    requires NumBytes(B) <= 32 && |K| <= |key| == 40
    ensures ServerInput(env, login, salt, Value(A), Minimal(B), K)
            == GroupDigest(env) + env.H(login) + salt + A + Encoding(B, 32, true) + key
       <==> GroupDigest(env)[19] != 0 && A[31] != 0 && NumBytes(B) == 32 && K == key
  {
    var group := GroupDigest(env);
    ShortIff(group);
    ShortIff(A);
    var b := Encoding(B, 32, true);
    if NumBytes(B) == 32 { assert b == Minimal(B); }
    hide Minimal; hide Value; hide Encoding; hide GroupDigest;
    SameParts(Minimal(Value(group)), group, env.H(login), salt, Minimal(Value(A)), A, Minimal(B), b, K, key);
  }

  /** Strings made of parts, none of them longer in the first. */
  lemma SameParts<X>(g: seq<X>, g': seq<X>, h: seq<X>, s: seq<X>,
                     a: seq<X>, a': seq<X>, b: seq<X>, b': seq<X>, k: seq<X>, k': seq<X>)
    requires |g| <= |g'| && |a| <= |a'| && |b| <= |b'| && |k| <= |k'|
    requires (|g| == |g'| ==> g == g') && (|a| == |a'| ==> a == a') && (|b| == |b'| ==> b == b')
    ensures g + h + s + a + b + k == g' + h + s + a' + b' + k' <==> g == g' && a == a' && b == b' && k == k'
  {
    var l, r := g + h + s + a + b, g' + h + s + a' + b';
    if l + k == r + k' {
      assert |l + k| == |g| + |h| + |s| + |a| + |b| + |k|;
      assert |r + k'| == |g'| + |h| + |s| + |a'| + |b'| + |k'|;
      SameEnd(l, k, r, k');
    }
  }

  lemma SameEnd<T>(a: seq<T>, b: seq<T>, c: seq<T>, d: seq<T>)
    requires a + b == c + d && |b| == |d|
    ensures b == d
  {
    assert (a + b)[|a|..] == b && (c + d)[|c|..] == d;
  }

  // ----- when the server accepts -----

  /** Public numbers and group digest have their full lengths. */
  predicate FullNumbers(st: Session, c: Client)
  {
    GroupDigest(c.env)[19] != 0 && c.A[31] != 0 && NumBytes(st.B.bn) == 32
  }

  /** The hash function does not tell the halves of the server's and of the client's shared string apart. */
  ghost predicate KeyCollision(c: Client)
  {
    var s, t := Shared(c.S), T(c.S);
    s != t && c.env.H(Evens(s)) == c.env.H(Evens(t)) && c.env.H(Odds(s)) == c.env.H(Odds(t))
  }

  /** The server hashes the client's session key: its own does not end in a zero byte, every comparison that has
      been made with 40 bytes of key on this connection was made with the client's key, and if there was
      none, the shared number has 32 bytes or a collision makes up for it. */
  ghost predicate KeyFits(st: Session, c: Client)
  {
    && Interleave(c.env.H, Shared(c.S))[39] != 0
    && (forall i :: 0 <= i < |st.checks| && |st.checks[i].K| == 40 ==> st.checks[i].K == c.Key())
    && ((forall i :: 0 <= i < |st.checks| ==> |st.checks[i].K| != 40) ==> NumBytes(c.S) == 32 || KeyCollision(c))
  }

  /** The hash function does not tell the two inputs of the proof apart. */
  ghost predicate ProofCollision(st: Session, c: Client)
  {
    InputAtServer(st, c) != c.Input() && c.env.H(InputAtServer(st, c)) == c.M1()
  }

  /** A client is accepted whatever lies behind the server's proof in memory: its proof does not end in a
      zero byte, and nothing is short and the session key is not stale, or a hash collision makes up for that. */
  ghost predicate Acceptable(st: Session, c: Client)
  {
    c.M1()[19] != 0 && (ProofCollision(st, c) || (FullNumbers(st, c) && KeyFits(st, c)))
  }

  /** The shared string is T just when the shared number has 32 bytes. */
  lemma SharedIsT(S: nat, n: nat)
    requires S < n && NumBytes(n) <= 32
    ensures Shared(S) == T(S) <==> NumBytes(S) == 32
  {
    ResidueFits(S, n);
    SharedIsTIff(S);
    assert Encoding(S, 32, true)[..32] == Encoding(S, 32, true);
  }

  /** With full public numbers both ends have one u and one shared number. */
  lemma SameShared(st: Session, c: Client)
    requires Awaits(st, c) && c.Computes() && c.A[31] != 0 && NumBytes(st.B.bn) == 32
    ensures c.S < c.env.N && ServerU(st, c) == c.U()
    ensures ServerKey(st, c) == Interleave(c.env.H, Shared(c.S))
  {
    hide PowN; hide ModExp; hide ServerPublic; hide ServerSecret; hide Current; hide Kept; hide Interleave; hide Shared;
    FullB(st.B.bn);
    UInputsAgreeIff(c.A, st.B.bn);
    hide Minimal; hide Encoding; hide Value;
    Agreement(c.env.g, c.env.N, c.X(), c.a, st.b, c.U());
  }

  lemma FullB(B: nat)
    requires NumBytes(B) == 32
    ensures Encoding(B, 32, true) == Minimal(B) && Value(Encoding(B, 32, true)) == B
  {
    ValueOfMinimal(B);
    assert Zeros(0) + Minimal(B) == Minimal(B);
  }

  /** What the server hashes for the session key: its 40 bytes if they do not end in a zero and none were kept. */
  lemma UsedKeyIs(st: Session, c: Client)
    requires st.Valid()
    ensures var k := ServerKey(st, c);
            && |UsedKey(st, c)| <= 40 && (|UsedKey(st, c)| == 40 <==> k[39] != 0)
            && (k[39] != 0 ==> UsedKey(st, c) == if 40 in st.K.arrays then st.K.arrays[40] else k)
  {
    var k := ServerKey(st, c);
    ShortIff(k);
    hide ServerKey; hide Value; hide Minimal;
    ViewStores(st.K.(bn := Value(k)), 0);
    assert Encoding(Value(k), 0, true) == Minimal(Value(k));
  }

  /** The kept key of 40 bytes is that of the comparisons made with 40 bytes of key. */
  lemma KeptKey(st: Session, N: nat)
    requires st.Valid() && Kept(st, N)
    ensures 40 in st.K.arrays <==> exists i :: 0 <= i < |st.checks| && |st.checks[i].K| == 40
    ensures forall i :: 0 <= i < |st.checks| && |st.checks[i].K| == 40 ==>
              40 in st.K.arrays && st.checks[i].K == st.K.arrays[40]
  {
    forall i | 0 <= i < |st.checks| && |st.checks[i].K| == 40
      ensures 40 in st.K.arrays && st.checks[i].K == st.K.arrays[40]
    {
      assert CheckKept(st, st.checks[i]);
    }
  }

  /** A session key that the server has just made is the client's. */
  lemma FreshKeyIff(st: Session, c: Client)
    requires Awaits(st, c) && c.Computes() && c.A[31] != 0 && NumBytes(st.B.bn) == 32
    ensures ServerKey(st, c) == Interleave(c.env.H, Shared(c.S))
    ensures ServerKey(st, c) == c.Key() <==> NumBytes(c.S) == 32 || KeyCollision(c)
  {
    SameShared(st, c);
    SharedIsT(c.S, c.env.N);
    InterleaveGivesDigests(c.env.H, Shared(c.S), T(c.S));
    hide Shared; hide T; hide Evens; hide Odds; hide Interleave; hide ServerKey; hide Awaits; hide Client.Computes;
  }

  /** The server uses the client's key just when the key fits. */
  lemma KeyFitsIff(st: Session, c: Client)
    requires Awaits(st, c) && c.Computes() && c.A[31] != 0 && NumBytes(st.B.bn) == 32
    ensures UsedKey(st, c) == c.Key() <==> KeyFits(st, c)
  {
    FreshKeyIff(st, c);
    KeptKey(st, c.env.N);
    UsedKeyIs(st, c);
    hide Shared; hide Interleave; hide ServerKey; hide UsedKey; hide Awaits; hide Client.Computes; hide KeyCollision;
    hide NumBytes; hide Client.Key;
    if 40 in st.K.arrays {
      var i :| 0 <= i < |st.checks| && |st.checks[i].K| == 40;
      assert st.checks[i].K == st.K.arrays[40];
    }
  }

  /** The inputs of the proof agree just when nothing is short and the session key fits. */
  lemma ProofInputsAgreeIff(st: Session, c: Client)
    requires Awaits(st, c) && c.Computes()
    ensures InputAtServer(st, c) == c.Input() <==> FullNumbers(st, c) && KeyFits(st, c)
  {
    UsedKeyIs(st, c);
    hide PowN; hide ModExp; hide ServerPublic; hide ServerSecret; hide ClientSecret; hide Current;
    hide Minimal; hide Encoding;
    hide Value; hide ServerInput; hide KeyFits; hide Interleave; hide Client.Computes; hide UsedKey;
    hide ServerKey; hide Kept;
    assert NumBytes(st.B.bn) <= 32;
    InputsAgreeIff(c.env, c.login, c.salt, c.A, st.B.bn, UsedKey(st, c), c.Key());
    if c.A[31] != 0 && NumBytes(st.B.bn) == 32 { KeyFitsIff(st, c); }
  }

  /** What `memcmp` is given equals a digest whatever lies behind it just when it was made from the digest and
      that does not end in a zero byte; otherwise `m` in memory makes them differ. */
  lemma ComparedIff(d: Digest, e: Digest) returns (m: Digest)
    ensures Compared(Value(d), m) == e ==> forall n: Digest :: Compared(Value(d), n) == e
    ensures Compared(Value(d), m) == e <==> d == e && e[19] != 0
  {
    m := seq(20, i => 0 as Byte);
    if d[19] == 0 {
      var ones: Digest := seq(20, i => 1 as Byte);
      ShortComparisonVaries(d, m, ones);
      if Compared(Value(d), m) == e { m := ones; }
    } else {
      MinimalOfValue(d);
    }
  }

  lemma ShortComparisonVaries(d: Digest, zeros: Digest, ones: Digest)
    requires d[19] == 0 && forall i :: 0 <= i < 20 ==> zeros[i] == 0 && ones[i] == 1
    ensures Compared(Value(d), zeros) != Compared(Value(d), ones)
  {
    ShortIff(d);
    assert (Minimal(Value(d)) + zeros)[..20][19] == 0;
    assert (Minimal(Value(d)) + ones)[..20][19] == 1;
  }

  /** The comparison comes out equal when `m` lies behind the server's proof in memory. */
  predicate Accepts(st: Session, c: Client, m: Digest)
  {
    Compared(Value(c.env.H(InputAtServer(st, c))), m) == c.M1()
  }

  /** A client that knows the password is accepted, whatever lies in memory, just when it is acceptable. */
  lemma AcceptedIff(st: Session, c: Client)
    requires Awaits(st, c) && c.Computes()
    ensures (forall m: Digest :: Accepts(st, c, m)) <==> Acceptable(st, c)
  {
    hide Compared; hide Value; hide FullNumbers; hide KeyFits; hide InputAtServer; hide Client.Input; hide Awaits;
    hide Client.Computes;
    ProofInputsAgreeIff(st, c);
    var m := ComparedIff(c.env.H(InputAtServer(st, c)), c.M1());
    assert Accepts(st, c, m) ==> Acceptable(st, c);
  }

  // ----- one proof -----

  /** A connection on which the next message may arrive. */
  predicate Idle(st: Session) { st.Valid() && st.inbuf == [] && !st.closed }

  predicate ProofPacket(p: seq<Byte>) { |p| == 75 && p[0] == 1 }

  /** What a whole proof does. */
  function AfterProof(st: Session, env: Env, p: seq<Byte>): (r: Session)
    requires Idle(st) && ProofPacket(p)
    ensures r.Valid()
  {
    var st1, A := st.(consumed := st.consumed + p), Value(p[1..33]);
    var r := if A == 0 then st1 else Judge(SetKey(st1, env, A), env, A, p[33..53], |st.consumed|);
    r.(calls := st.calls + 1)
  }

  lemma ProofReceived(st: Session, env: Env, p: seq<Byte>)
    requires Idle(st) && ProofPacket(p)
    ensures Receive(st, env, p) == AfterProof(st, env, p) && Idle(AfterProof(st, env, p))
  {
    hide Value; hide Receive; hide OnRead;
    var st0, A := st.(inbuf := p), Value(p[1..33]);
    assert p[..75] == p && p[75..] == [];
    assert st0.Take(75) == st.(consumed := st.consumed + p);
    if A == 0 {
      hide SetKey; hide Judge;
      StopsThere(st, env, p, AfterProof(st, env, p));
    } else {
      JudgeKeepsIdle(SetKey(st0.Take(75), env, A), env, A, p[33..53], |st.consumed|);
      hide SetKey; hide Judge;
      ReadOne(st, env, p, AfterProof(st, env, p));
    }
  }

  lemma JudgeKeepsIdle(st: Session, env: Env, A: nat, M1: seq<Byte>, at: nat)
    requires st.Valid()
    ensures var r := Judge(st, env, A, M1, at); r.inbuf == st.inbuf && r.closed == st.closed && r.calls == st.calls
  {
    hide Compared; hide Value; hide Minimal; hide ServerInput; hide View;
  }

  lemma StopsThere(st: Session, env: Env, p: seq<Byte>, r: Session)
    requires st.Valid() && st.inbuf == [] && !st.closed && Dispatch(st.(inbuf := p), env) == (r, false)
    ensures Receive(st, env, p) == r
  {
    hide Dispatch;
    assert st.inbuf + p == p;
  }

  /** The server with given bytes behind every array. */
  function Memory(env: Env, m: Digest): Env { env.(beyond := n => m) }

  /** What becomes of the client's proof. */
  lemma ProofIsJudged(st: Session, c: Client, env: Env, rest: seq<Byte>) returns (r: Session)
    requires Awaits(st, c) && env == c.env.(beyond := env.beyond) && Idle(st) && |rest| == 22
    ensures r == Receive(st, env, c.Packet(rest)) && Idle(r) && r.calls == st.calls + 1
    ensures Value(c.A) == 0 ==> r.authed == st.authed && r.sent == st.sent && r.K.arrays == st.K.arrays
    ensures Value(c.A) != 0 ==>
              var ok := Accepts(st, c, env.beyond(st.calls));
              && r.authed == (st.authed || ok)
              && r.sent == st.sent + [if ok then AcceptedReply(st, c) else ProofRejected]
              && r.K.arrays == st.K.arrays[|UsedKey(st, c)| := UsedKey(st, c)]
  {
    hide Receive; hide Value; hide Judge; hide Accepts; hide SetKey; hide Client.M1; hide Awaits; hide AcceptedReply;
    hide UsedKey;
    hide Client.Packet;
    var p := c.Packet(rest);
    PacketParts(p, c, rest);
    ProofReceived(st, env, p);
    r := AfterProof(st, env, p);
    if Value(c.A) != 0 {
      var st1 := st.(consumed := st.consumed + p);
      SameNumbers(st, st1, c);
      StillAwaits(st, st1, c);
      JudgedAs(st1, c, env, |st.consumed|);
    }
  }

  function AcceptedReply(st: Session, c: Client): Reply
  {
    ProofAccepted(c.env.H(
      Minimal(Value(c.A)) + Minimal(Value(c.env.H(InputAtServer(st, c)))) + UsedKey(st, c)))
  }

  /** These depend on the numbers and the kept keys only. */
  lemma SameNumbers(st: Session, w: Session, c: Client)
    requires w.B.bn == st.B.bn && w.v == st.v && w.b == st.b && w.K.arrays == st.K.arrays
    ensures AcceptedReply(w, c) == AcceptedReply(st, c) && UsedKey(w, c) == UsedKey(st, c)
    ensures forall m: Digest :: Accepts(w, c, m) == Accepts(st, c, m)
  {
    hide Interleave; hide ServerSecret; hide Shared; hide Minimal; hide Value; hide Compared; hide Client.M1;
    hide Encoding;
  }

  /** Nor does it matter what has been consumed and how often a handler was called. */
  lemma StillAwaits(st: Session, w: Session, c: Client)
    requires Awaits(st, c) && w == st.(consumed := w.consumed, calls := w.calls, inbuf := w.inbuf)
    ensures Awaits(w, c)
  {
    hide ModExp; hide ServerPublic; hide Encoding; hide Minimal; hide Current;
    forall j | 0 <= j < |w.sent| ensures GreetingKept(w, c.env.N, w.sent[j]) {
      assert GreetingKept(st, c.env.N, st.sent[j]);
    }
    forall i | 0 <= i < |w.checks| ensures CheckKept(w, w.checks[i]) { assert CheckKept(st, st.checks[i]); }
  }

  lemma PacketParts(p: seq<Byte>, c: Client, rest: seq<Byte>)
    requires |rest| == 22 && p == c.Packet(rest)
    ensures ProofPacket(p) && p[1..33] == c.A && p[33..53] == c.M1()
  {
  }

  lemma JudgedAs(st: Session, c: Client, env: Env, at: nat)
    requires Awaits(st, c) && env == c.env.(beyond := env.beyond)
    ensures var r := Judge(SetKey(st, env, Value(c.A)), env, Value(c.A), c.M1(), at);
            var ok := Accepts(st, c, env.beyond(st.calls));
            && r.authed == (st.authed || ok) && r.sent == st.sent + [if ok then AcceptedReply(st, c) else ProofRejected]
            && r.K.arrays == st.K.arrays[|UsedKey(st, c)| := UsedKey(st, c)]
  {
    hide Prove; hide SetKey; hide Compared; hide Value; hide Minimal; hide InputAtServer; hide UsedKey;
    hide ServerInput; hide Client.M1; hide Current; hide ServerPublic; hide Encoding; hide Kept; hide Interleave;
    hide View; hide Shared; hide ServerSecret;
    ServerChecks(st, c, env, at);
    KeyLogs(st, env, Value(c.A));
    JudgeLogs(SetKey(st, env, Value(c.A)), env, Value(c.A), c.M1(), at);
  }

  // ----- proofs before it -----

  /** One whole proof, in pieces. */
  predicate ProofIn(pieces: seq<seq<Byte>>)
  {
    ProofPacket(Flatten(pieces)) && CutOf(pieces, Flatten(pieces))
  }

  predicate Proofs(earlier: seq<seq<seq<Byte>>>) { forall i :: 0 <= i < |earlier| ==> ProofIn(earlier[i]) }

  lemma FirstOfProofs(earlier: seq<seq<seq<Byte>>>)
    requires earlier != [] && Proofs(earlier)
    ensures ProofIn(earlier[0]) && Proofs(earlier[1..]) && Flatten(earlier) == earlier[0] + Flatten(earlier[1..])
  {
  }

  /** Any proof of anybody leaves the connection waiting for the next one. */
  lemma ProofKeepsAwaits(st: Session, c: Client, env: Env, p: seq<Byte>)
    requires Awaits(st, c) && env == c.env.(beyond := env.beyond) && Idle(st) && ProofPacket(p)
    ensures Awaits(AfterProof(st, env, p), c) && Idle(AfterProof(st, env, p))
  {
    ProofReceived(st, env, p);
    ProofKeepsNumbers(st, env, p);
    RunKeeps(st, env, [p]);
    RunOne(st, env, p);
    hide AfterProof; hide ModExp; hide ServerPublic; hide Encoding; hide Minimal; hide Current; hide Kept; hide Run;
    hide Receive;
  }

  lemma RunOne(st: Session, env: Env, p: seq<Byte>)
    requires st.Valid()
    ensures Run(st, env, [p]) == Receive(st, env, p)
  {
    hide Receive;
    assert [p][1..] == [];
    assert Run(Receive(st, env, p), env, []) == Receive(st, env, p);
  }

  lemma ProofKeepsNumbers(st: Session, env: Env, p: seq<Byte>)
    requires Idle(st) && ProofPacket(p) && Current(st.B) && Current(st.s)
    ensures var r := AfterProof(st, env, p);
            && Current(r.B) && Current(r.s) && r.B.bn == st.B.bn && r.s.bn == st.s.bn
            && r.v == st.v && r.b == st.b && r.login == st.login
  {
    hide Value; hide Compared; hide Minimal; hide ServerInput; hide View; hide Current; hide SetKey; hide Prove;
    var st1, A := st.(consumed := st.consumed + p), Value(p[1..33]);
    if A != 0 {
      CurrentKey(st1, env, A);
      CurrentProof(SetKey(st1, env, A), env, A, p[33..53], |st.consumed|);
    }
  }

  lemma {:induction false} EarlierProofs(st: Session, c: Client, env: Env, earlier: seq<seq<seq<Byte>>>)
    requires Awaits(st, c) && env == c.env.(beyond := env.beyond) && Idle(st) && Proofs(earlier)
    ensures var r := Run(st, env, Flatten(earlier)); Awaits(r, c) && Idle(r)
    decreases earlier
  {
    hide Awaits; hide Receive; hide AfterProof; hide Proofs; hide ProofIn; hide ProofPacket;
    if earlier != [] {
      FirstOfProofs(earlier);
      hide Run; hide Flatten;
      var st1 := OneProof(st, env, earlier[0]);
      StillAwaits(st, st1, c);
      ProofKeepsAwaits(st1, c, env, Flatten(earlier[0]));
      RunConcat(st, env, earlier[0], Flatten(earlier[1..]));
      EarlierProofs(Run(st, env, earlier[0]), c, env, earlier[1..]);
    }
  }

  /** A proof in pieces is handled as a whole, after some calls that find too little. */
  lemma OneProof(st: Session, env: Env, pieces: seq<seq<Byte>>) returns (st1: Session)
    requires Idle(st) && ProofIn(pieces)
    ensures st1 == st.(calls := st.calls + Tries(0, pieces)) && Idle(st1)
    ensures ProofPacket(Flatten(pieces)) && Run(st, env, pieces) == AfterProof(st1, env, Flatten(pieces))
  {
    hide Receive; hide Run; hide AfterProof; hide Tries; hide Flatten;
    st1 := st.(calls := st.calls + Tries(0, pieces));
    CutIsWhole(st, env, pieces, Flatten(pieces));
    ProofReceived(st1, env, Flatten(pieces));
  }

  /** The same session, but for what was answered to proofs. */
  ghost predicate SameButAnswers(st: Session, w: Session)
  {
    w == st.(sent := w.sent, authed := w.authed)
  }

  lemma MemoryOnlyAnswers(st: Session, w: Session, env: Env, m: Digest, p: seq<Byte>)
    requires Idle(st) && SameButAnswers(st, w) && ProofPacket(p)
    ensures SameButAnswers(AfterProof(st, env, p), AfterProof(w, Memory(env, m), p))
  {
    hide Value; hide Compared; hide Minimal; hide View; hide SetKey; hide ServerInput; hide Prove;
    var A, env' := Value(p[1..33]), Memory(env, m);
    var st1, w1 := st.(consumed := st.consumed + p), w.(consumed := w.consumed + p);
    KeyOnlyNumbers(st1, w1, env, env', A);
    ProveOnlyNumbers(SetKey(st1, env, A), SetKey(w1, env', A), env, env', A, p[33..53], |st.consumed|);
  }

  lemma KeyOnlyNumbers(st: Session, w: Session, env: Env, env': Env, A: nat)
    requires st.Valid() && SameButAnswers(st, w) && env' == env.(beyond := env'.beyond)
    ensures SameButAnswers(SetKey(st, env, A), SetKey(w, env', A))
  {
    hide Value; hide Minimal; hide View; hide Interleave; hide Shared; hide ServerSecret;
  }

  lemma ProveOnlyNumbers(st: Session, w: Session, env: Env, env': Env, A: nat, M1: seq<Byte>, at: nat)
    requires st.Valid() && SameButAnswers(st, w) && env' == env.(beyond := env'.beyond)
    ensures var (k, r) := Prove(st, env, A, M1, at); var (k', r') := Prove(w, env', A, M1, at);
            k == k' && SameButAnswers(r, r') && k.Input(env) == k'.Input(env')
  {
    hide Value; hide Minimal; hide View; hide XorDigests;
  }

  lemma {:induction false} EarlierOnlyAnswer(
    st: Session, w: Session, env: Env, m: Digest, earlier: seq<seq<seq<Byte>>>)
    requires Idle(st) && SameButAnswers(st, w) && Proofs(earlier)
    ensures SameButAnswers(Run(st, env, Flatten(earlier)), Run(w, Memory(env, m), Flatten(earlier)))
    decreases earlier
  {
    hide Receive; hide Memory; hide Proofs; hide ProofIn; hide ProofPacket;
    if earlier != [] {
      FirstOfProofs(earlier);
      hide Run; hide Flatten;
      ProofOnlyAnswers(st, w, env, m, earlier[0]);
      RunConcat(st, env, earlier[0], Flatten(earlier[1..]));
      RunConcat(w, Memory(env, m), earlier[0], Flatten(earlier[1..]));
      EarlierOnlyAnswer(Run(st, env, earlier[0]), Run(w, Memory(env, m), earlier[0]), env, m, earlier[1..]);
    }
  }

  lemma ProofOnlyAnswers(st: Session, w: Session, env: Env, m: Digest, pieces: seq<seq<Byte>>)
    requires Idle(st) && SameButAnswers(st, w) && ProofIn(pieces)
    ensures Idle(Run(st, env, pieces))
    ensures SameButAnswers(Run(st, env, pieces), Run(w, Memory(env, m), pieces))
  {
    hide AfterProof; hide Run; hide Memory; hide ProofIn; hide ProofPacket; hide Tries;
    var st1 := OneProof(st, env, pieces);
    var w1 := OneProof(w, Memory(env, m), pieces);
    MemoryOnlyAnswers(st1, w1, env, m, Flatten(pieces));
    ProofReceived(st1, env, Flatten(pieces));
  }

  // ----- the whole login -----

  /** The client knows the password and uses what the first challenge of a connection, which arrived in these pieces,
      was answered with; a verifier from the database, if there is one, fits its salt. */
  ghost predicate Answers(c: Client, challenge: seq<seq<Byte>>)
  {
    && WholeChallenge(Flatten(challenge)) && CutOf(challenge, Flatten(challenge)) && NumBytes(c.env.N) <= 32
    && var st := Run(Start, c.env, challenge); var row := c.env.account(Tries(0, challenge));
       && c.login == st.login && c.salt == Minimal(st.s.bn) && c.B == Encoding(st.B.bn, 32, true)
       && row.passHash == BigEndianValue(c.password)
       && (row.stored.Some? ==> st.v == ModExp(c.env.g, c.X(), c.env.N))
  }

  lemma Greeted(c: Client, challenge: seq<seq<Byte>>) returns (st: Session)
    requires Answers(c, challenge)
    ensures st == Run(Start, c.env, challenge) && Awaits(st, c) && Idle(st) && st.checks == []
    ensures st.sent == [ChallengeReply(c.B, c.salt, c.env.random(Tries(0, challenge)).unk3)]
    ensures st.calls == Tries(0, challenge) + 1
  {
    hide Receive; hide ModExp; hide Minimal; hide Encoding; hide ServerPublic; hide PrivateKey; hide Value;
    hide Current;
    hide Run; hide Kept; hide Tries; hide CutOf;
    var k := Tries(0, challenge);
    AfterChallenge(c.env, k, Flatten(challenge));
    KnowsPassword(c);
    CutIsWhole(Start, c.env, challenge, Flatten(challenge));
    StartKept(c.env.N);
    RunKeeps(Start, c.env, challenge);
    st := Run(Start, c.env, challenge);
  }

  /** The server's private key for the account is the client's. */
  lemma KnowsPassword(c: Client)
    ensures PrivateKey(c.env.H, c.salt, BigEndianValue(c.password)) == c.X()
  {
    PasswordDigestIs(c.password, 0);
  }

  lemma StartKept(N: nat)
    ensures Kept(Start, N)
  {
  }

  /** A challenge is answered alike whatever lies in memory. */
  lemma MemoryIsNotRead(env: Env, m: Digest, challenge: seq<seq<Byte>>)
    requires WholeChallenge(Flatten(challenge)) && CutOf(challenge, Flatten(challenge))
    ensures Run(Start, Memory(env, m), challenge) == Run(Start, env, challenge)
  {
    hide Receive; hide View; hide Value; hide ModExp; hide ServerPublic; hide Run; hide CutOf; hide Tries; hide Flatten;
    var st := Fresh(Tries(0, challenge));
    CutIsWhole(Start, env, challenge, Flatten(challenge));
    CutIsWhole(Start, Memory(env, m), challenge, Flatten(challenge));
    ChallengeIsRead(st, env, Flatten(challenge));
    ChallengeIsRead(st, Memory(env, m), Flatten(challenge));
  }

  /** Everything before the client's proof: the challenge, and any proofs. */
  function Before(challenge: seq<seq<Byte>>, earlier: seq<seq<seq<Byte>>>): seq<seq<Byte>>
  {
    challenge + Flatten(earlier)
  }

  /** The client's proof, in pieces. */
  predicate Sends(c: Client, rest: seq<Byte>, proof: seq<seq<Byte>>)
  {
    |rest| == 22 && Flatten(proof) == c.Packet(rest) && CutOf(proof, c.Packet(rest))
  }

  /** The proof is answered with an acceptance. */
  predicate GetsIn(c: Client, before: seq<seq<Byte>>, proof: seq<seq<Byte>>, m: Digest)
  {
    var st := Run(Start, Memory(c.env, m), before);
    var r := Run(st, Memory(c.env, m), proof);
    |r.sent| == |st.sent| + 1 && r.sent[|st.sent|].ProofAccepted?
  }

  lemma StateBefore(c: Client, env: Env, challenge: seq<seq<Byte>>, earlier: seq<seq<seq<Byte>>>) returns (st: Session)
    requires Answers(c, challenge) && Proofs(earlier)
    requires env == c.env || exists m :: env == Memory(c.env, m)
    ensures st == Run(Start, env, Before(challenge, earlier)) && Awaits(st, c) && Idle(st)
  {
    hide Awaits; hide Answers; hide Run; hide Proofs;
    var st0 := Greeted(c, challenge);
    ChallengeCut(c, challenge);
    if env != c.env {
      var m :| env == Memory(c.env, m);
      MemoryIsNotRead(c.env, m, challenge);
    }
    RunConcat(Start, env, challenge, Flatten(earlier));
    EarlierProofs(st0, c, env, earlier);
    st := Run(Start, env, Before(challenge, earlier));
  }

  lemma ChallengeCut(c: Client, challenge: seq<seq<Byte>>)
    requires Answers(c, challenge)
    ensures WholeChallenge(Flatten(challenge)) && CutOf(challenge, Flatten(challenge))
  {
  }

  lemma GetsInIff(
    c: Client, challenge: seq<seq<Byte>>, earlier: seq<seq<seq<Byte>>>, proof: seq<seq<Byte>>, rest: seq<Byte>,
      m: Digest)
    requires Answers(c, challenge) && Sends(c, rest, proof) && Proofs(earlier)
    ensures GetsIn(c, Before(challenge, earlier), proof, m)
       <==> Value(c.A) != 0 && Accepts(Run(Start, c.env, Before(challenge, earlier)), c, m)
  {
    hide Receive; hide Awaits; hide Run; hide Answers; hide Client.Packet; hide Value; hide Accepts;
    hide Proofs; hide CutOf;
    var env := Memory(c.env, m);
    var st := StateBefore(c, c.env, challenge, earlier);
    var w := StateBefore(c, env, challenge, earlier);
    MemoryBefore(c, challenge, earlier, m);
    var w1 := w.(calls := w.calls + Tries(0, proof));
    SameNumbers(st, w1, c);
    StillAwaits(w, w1, c);
    CutIsWhole(w, env, proof, c.Packet(rest));
    var r := ProofIsJudged(w1, c, env, rest);
  }

  lemma MemoryBefore(c: Client, challenge: seq<seq<Byte>>, earlier: seq<seq<seq<Byte>>>, m: Digest)
    requires Answers(c, challenge) && Proofs(earlier)
    ensures var before := Before(challenge, earlier);
            SameButAnswers(Run(Start, c.env, before), Run(Start, Memory(c.env, m), before))
  {
    hide Awaits; hide Answers; hide Run; hide Proofs; hide Memory;
    var st0 := Greeted(c, challenge);
    ChallengeCut(c, challenge);
    MemoryIsNotRead(c.env, m, challenge);
    RunConcat(Start, c.env, challenge, Flatten(earlier));
    RunConcat(Start, Memory(c.env, m), challenge, Flatten(earlier));
    EarlierOnlyAnswer(st0, st0, c.env, m, earlier);
  }

  /** After the first challenge of a connection and any proofs of anybody, in whatever pieces: the proof of a client
      that knows the password is accepted, whatever lies in the server's memory, just when its public number is
      not zero and it is acceptable: so if nothing on the way is short and no other session key was used. */
  lemma LoginIff(c: Client, challenge: seq<seq<Byte>>, earlier: seq<seq<seq<Byte>>>, proof: seq<seq<Byte>>,
                 rest: seq<Byte>)
    requires Answers(c, challenge) && c.Computes() && Sends(c, rest, proof)
    requires Proofs(earlier)
    ensures (forall m: Digest :: GetsIn(c, Before(challenge, earlier), proof, m))
       <==> Value(c.A) != 0 && Acceptable(Run(Start, c.env, Before(challenge, earlier)), c)
  {
    hide Run; hide Awaits; hide Answers; hide Acceptable; hide Client.Computes; hide Client.M1; hide Value;
    hide Accepts; hide GetsIn; hide Proofs; hide Sends; hide Before;
    var before := Before(challenge, earlier);
    var st := StateBefore(c, c.env, challenge, earlier);
    AcceptedIff(st, c);
    forall m: Digest ensures GetsIn(c, before, proof, m) <==> Value(c.A) != 0 && Accepts(st, c, m) {
      GetsInIff(c, challenge, earlier, proof, rest, m);
    }
    if forall m: Digest :: GetsIn(c, before, proof, m) { assert GetsIn(c, before, proof, c.M1()); }
  }

  /** Nothing that either side turns into bytes comes out short. */
  predicate FullWidth(st: Session, c: Client)
  {
    FullNumbers(st, c) && NumBytes(c.S) == 32 && c.Key()[39] != 0 && c.M1()[19] != 0
  }

  /** Then the first proof succeeds and the whole login goes through, in whatever pieces: greeting, acceptance with the
      proof that the client expects from the server, and the realm list when it asks. */
  lemma HonestLogin(c: Client, challenge: seq<seq<Byte>>, proof: seq<seq<Byte>>, rest: seq<Byte>, ask: seq<seq<Byte>>)
    requires Answers(c, challenge) && c.Computes() && FullWidth(Run(Start, c.env, challenge), c) &&
             Sends(c, rest, proof)
    requires |Flatten(ask)| == 5 && Flatten(ask)[0] == 0x10 && CutOf(ask, Flatten(ask))
    requires c.env.account(Tries(0, challenge) + 1 + Tries(0, proof) + 1 + Tries(0, ask)).found
    ensures Run(Start, c.env, challenge + proof + ask).sent ==
            [ChallengeReply(c.B, c.salt, c.env.random(Tries(0, challenge)).unk3), ProofAccepted(c.M2()), RealmList]
  {
    hide Receive; hide Awaits; hide Run; hide Client.Computes; hide Client.Packet; hide Value; hide Answers; hide Tries;
    hide Accepts; hide FullWidth; hide Client.M2; hide AcceptedReply; hide CutOf; hide Flatten;
    var st := Greeted(c, challenge);
    var st1 := st.(calls := st.calls + Tries(0, proof));
    FullIsAccepted(st, c, c.env.beyond(st1.calls));
    SameNumbers(st, st1, c);
    StillAwaits(st, st1, c);
    CutIsWhole(st, c.env, proof, c.Packet(rest));
    var r := ProofIsJudged(st1, c, c.env, rest);
    CutIsWhole(r, c.env, ask, Flatten(ask));
    RealmDispatch(r.(calls := r.calls + Tries(0, ask)), c.env, Flatten(ask));
    RunConcat(Start, c.env, challenge, proof);
    RunConcat(Start, c.env, challenge + proof, ask);
  }

  lemma FullIsAccepted(st: Session, c: Client, m: Digest)
    requires Awaits(st, c) && c.Computes() && FullWidth(st, c) && st.checks == []
    ensures Value(c.A) != 0 && Accepts(st, c, m)
    ensures AcceptedReply(st, c) == ProofAccepted(c.M2())
  {
    SharedIsTIff(c.S);
    assert Encoding(c.S, 32, true)[..32] == Encoding(c.S, 32, true);
    AcceptedIff(st, c);
    ProofInputsAgreeIff(st, c);
    KeyFitsIff(st, c);
    hide Awaits; hide Client.Computes; hide Compared; hide InputAtServer; hide UsedKey; hide Client.Input;
    hide Interleave;
    hide GroupDigest; hide ProofCollision;
    MinimalOfValue(c.A);
    MinimalOfValue(c.M1());
  }

  lemma RealmDispatch(st: Session, env: Env, ask: seq<Byte>)
    requires st.Valid() && st.inbuf == [] && st.authed && !st.closed && |ask| == 5 && ask[0] == 0x10
    requires env.account(st.calls).found
    ensures Receive(st, env, ask).sent == st.sent + [RealmList]
  {
    var st1 := st.(inbuf := ask);
    assert st1.Take(5).inbuf == [];
    ReadOne(st, env, ask, Dispatch(st1, env).0);
  }
}
