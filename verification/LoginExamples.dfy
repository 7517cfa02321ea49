/** Clients that know the password: one that is turned away, one that gets in, and the same one turned away
    after somebody else's proof. */
module LoginExamples {
  import opened LittleEndian
  import opened BigNumbers
  import opened Srp6
  import opened AuthSession
  import opened LoginRuns
  import opened KeptArrays
  import opened Sequences
  import opened ClientLogin
  import opened Wrappers

  // ----- a short public number -----

  /** A hash function that tells only lengths apart. */
  function LengthHash(): (h: Hash)
    ensures forall z :: h(z) == Repeat((|z| % 256) as Byte)
  {
    z => Repeat((|z| % 256) as Byte)
  }

  function Repeat(x: Byte): (d: Digest)
    ensures forall i :: 0 <= i < 20 ==> d[i] == x
  {
    seq(20, i => x)
  }

  /** Under that hash function a client's first proof is turned away, whatever lies in memory, if its own public
      number or that of the server is short. */
  lemma ShortIsRejected(c: Client, challenge: seq<seq<Byte>>, proof: seq<seq<Byte>>, rest: seq<Byte>)
    requires Answers(c, challenge) && Sends(c, rest, proof) && c.env.H == LengthHash() && |c.salt| <= 32
    requires Value(c.A) != 0 && (c.A[31] == 0 || NumBytes(Run(Start, c.env, challenge).B.bn) < 32)
    ensures Run(Start, c.env, challenge + proof).sent ==
            [ChallengeReply(c.B, c.salt, c.env.random(Tries(0, challenge)).unk3), ProofRejected]
  {
    hide Receive; hide Awaits; hide Run; hide Answers; hide Client.Packet; hide Value; hide Accepts; hide NumBytes;
    hide Client.Input; hide InputAtServer; hide Client.M1; hide Tries; hide CutOf; hide UsedKey; hide AcceptedReply;
    hide LengthHash;
    var st := Greeted(c, challenge);
    var st1 := st.(calls := st.calls + Tries(0, proof));
    StillAwaits(st, st1, c);
    LengthsDiffer(st1, c);
    DigestsDiffer(st1, c, c.env.beyond(st1.calls));
    CutIsWhole(st, c.env, proof, c.Packet(rest));
    var r := ProofIsJudged(st1, c, c.env, rest);
    RunConcat(Start, c.env, challenge, proof);
  }

  /** The server's string is shorter than the client's. */
  lemma LengthsDiffer(st: Session, c: Client)
    requires Awaits(st, c) && (c.A[31] == 0 || NumBytes(st.B.bn) < 32)
    ensures 20 <= |InputAtServer(st, c)| < |c.Input()| == 144 + |c.salt|
  {
    ShortIff(GroupDigest(c.env));
    ShortIff(c.A);
    UsedKeyIs(st, c);
    assert |Encoding(st.B.bn, 32, true)| == 32;
    hide Minimal; hide Value; hide GroupDigest; hide Encoding; hide Interleave; hide Current; hide ServerPublic;
    hide ModExp; hide UsedKey; hide Kept;
  }

  lemma DigestsDiffer(st: Session, c: Client, m: Digest)
    requires c.env.H == LengthHash() && |c.salt| <= 32 && 20 <= |InputAtServer(st, c)| < |c.Input()| == 144 + |c.salt|
    ensures !Accepts(st, c, m)
  {
    hide InputAtServer; hide Client.Input; hide Value; hide Minimal;
    var d := c.env.H(InputAtServer(st, c));
    assert d[19] as nat == |InputAtServer(st, c)|;
    assert c.M1()[19] as nat == |c.Input()|;
    MinimalOfValue(d);
  }

  /** A message in one piece. */
  lemma Whole(p: seq<Byte>)
    requires p != []
    ensures CutOf([p], p) && Flatten([p]) == p && Tries(0, [p]) == 0
  {
    FlattenFirst(p, []);
  }

  /** The client with secret 1, in the source's group: its public number is 7, and the server turns it away
      whatever it draws, unless the database has a verifier for the account. */
  lemma SevenIsRejected(password: Digest, account: nat -> Account, random: nat -> Random, beyond: nat -> Digest,
                        challenge: seq<Byte>, rest: seq<Byte>)
    returns (c: Client)
    requires WholeChallenge(challenge) && |rest| == 22 && NumBytes(random(0).s) <= 32
    requires account(0).stored.None? && account(0).passHash == BigEndianValue(password)
    ensures c.env == Env(LengthHash(), N_VALUE, G_VALUE, account, random, beyond)
    ensures c.password == password && Answers(c, [challenge]) && c.Computes() && c.A[31] == 0
    ensures Run(Start, c.env, [challenge, c.Packet(rest)]).sent ==
            [ChallengeReply(c.B, c.salt, random(0).unk3), ProofRejected]
  {
    hide Receive; hide Run; hide Client.Packet; hide Current; hide PrivateKey; hide Consistent;
    hide LengthHash; hide Encoding; hide ClientSecret; hide Minimal; hide Value; hide ModExp; hide CutOf; hide Tries;
    var env := Env(LengthHash(), N_VALUE, G_VALUE, account, random, beyond);
    var st := Receive(Start, env, challenge);
    AfterChallenge(env, 0, challenge);
    RunOne(Start, env, challenge);
    Whole(challenge);
    SourceGroup();
    ResidueFits(st.B.bn, env.N);
    var A: Bytes32 := [7] + Zeros(31);
    var B: Bytes32 := Encoding(st.B.bn, 32, true);
    c := Client(env, st.login, password, Minimal(st.s.bn), A, B, 0, 1);
    c := c.(S := ClientSecret(env.N, Value(B), ModExp(env.g, c.X(), env.N), 1, c.U(), c.X()));
    SevenIsPublic(A);
    PacketIsThere(c, rest);
    Whole(c.Packet(rest));
    assert [challenge] + [c.Packet(rest)] == [challenge, c.Packet(rest)];
    ShortIsRejected(c, [challenge], [c.Packet(rest)], rest);
  }

  lemma PacketIsThere(c: Client, rest: seq<Byte>)
    ensures c.Packet(rest) != []
  {
  }

  lemma SevenIsPublic(A: Bytes32)
    requires A == [7] + Zeros(31)
    ensures Value(A) == 7 == ModExp(G_VALUE, 1, N_VALUE)
  {
    ValueConcat([7], Zeros(31));
    ValueOfZeros(31);
    assert PowN(7, 1) == 7 * PowN(7, 0);
  }

  // ----- nothing short -----

  const TOP: nat := 0x80000000_00000000_00000000_00000000_00000000_00000000_00000000_00000000

  /** Passwords hash to zero, the digests of the group's numbers differ in every byte, and so do those of two
      kinds of shared string; proofs hash to the first byte of the session key. */
  function KeyHash(): (h: Hash)
    ensures forall z :: h(z) == KeyDigest(z)
  {
    KeyDigest
  }

  function KeyDigest(z: seq<Byte>): Digest
  {
    Repeat(if |z| == 20 then 0 else if z == Minimal(TOP + 100) then 2 else if z == Zeros(16) then 3
           else if |z| == 144 then z[104] else 1)
  }

  lemma ValueOfOne(x: Byte)
    ensures Value([x]) == x as nat
  {
    assert Value([x][1..]) == 0;
  }

  lemma EndsValue(low: Byte)
    ensures Value([low] + Zeros(30) + [128]) == low as nat + Pow256(31) * 128
  {
    hide Value; hide Pow256;
    ValueConcat([low] + Zeros(30), [128]);
    ValueConcat([low], Zeros(30));
    ValueOfZeros(30);
    ValueOfOne(low);
    ValueOfOne(128);
    assert Pow256(|[low]|) * 0 == 0;
  }

  /** Two numbers of 32 bytes. */
  lemma TopBytes(low: Byte)
    requires low < 2
    ensures Minimal(TOP + low as nat) == [low] + Zeros(30) + [128]
  {
    EndsValue(low);
    TopPower();
    hide Value; hide Minimal; hide Pow256;
    MinimalOfValue([low] + Zeros(30) + [128]);
  }

  lemma TopPower()
    ensures Pow256(31) * 128 == TOP
  {
    Pow256Values();
  }

  lemma TopNumbers()
    ensures NumBytes(TOP) == NumBytes(TOP + 1) == NumBytes(TOP + 3) == NumBytes(TOP + 100) == 32
    ensures Minimal(TOP) != Minimal(TOP + 100)
  {
    Pow256Values();
    Has32(TOP);
    Has32(TOP + 1);
    Has32(TOP + 3);
    Has32(TOP + 100);
    ValueOfMinimal(TOP);
    ValueOfMinimal(TOP + 100);
  }

  lemma Has32(n: nat)
    requires Pow256(31) <= n < Pow256(32)
    ensures NumBytes(n) == 32
  {
    FitsIff(n, 31);
    FitsIff(n, 32);
  }

  lemma InterleavedEnds(H: Hash, t: seq<Byte>)
    ensures Interleave(H, t)[0] == H(Evens(t))[0] && Interleave(H, t)[39] == H(Odds(t))[19]
  {
    hide Evens; hide Odds;
  }

  lemma TopHalves(low: Byte, t: seq<Byte>)
    requires low < 2 && t == [low] + Zeros(30) + [128]
    ensures |Evens(t)| == |Odds(t)| == 16 && (Evens(t) == Zeros(16) <==> low == 0) && Odds(t) != Zeros(16)
  {
    assert Evens(t)[0] == low && Odds(t)[15] == 128 && Zeros(16)[0] == Zeros(16)[15] == 0;
    if low == 0 { assert Evens(t) == Zeros(16); }
  }

  /** The keys that two shared numbers give. */
  lemma TopKeys(low: Byte)
    requires low < 2
    ensures |Minimal(TOP + low as nat)| == 32
    ensures var k := Interleave(KeyHash(), Minimal(TOP + low as nat)); k[0] == (if low == 0 then 3 else 1) && k[39] == 1
  {
    TopBytes(low);
    TopNumbers();
    hide Minimal; hide Evens; hide Odds; hide Interleave; hide Zeros;
    var t := Minimal(TOP + low as nat);
    TopHalves(low, t);
    InterleavedEnds(KeyHash(), t);
  }

  /** A client for which nothing comes out short, with a password of private key 0 and both secrets 1. */
  lemma TopClient(challenge: seq<Byte>) returns (c: Client, st: Session)
    requires WholeChallenge(challenge)
    ensures c.env == Env(KeyHash(), TOP + 100, TOP, i => Account(0, None, true), i => Random(0, 1, 0), i => Repeat(0))
    ensures Answers(c, [challenge]) && c.Computes() && c.A == Minimal(TOP) && c.S == TOP && c.salt == []
    ensures st == Run(Start, c.env, [challenge]) && st.B.bn == TOP + 3 && st.v == st.b == 1
  {
    hide Receive; hide Run; hide Client.Packet; hide Current; hide Minimal; hide Value;
    hide PowN; hide Client.Computes; hide Repeat; hide KeyHash; hide CutOf; hide Tries;
    var env := Env(KeyHash(), TOP + 100, TOP, i => Account(0, None, true), i => Random(0, 1, 0), i => Repeat(0));
    st := Receive(Start, env, challenge);
    AfterChallenge(env, 0, challenge);
    RunOne(Start, env, challenge);
    Whole(challenge);
    TopNumbers();
    TopPowers(env, st);
    FullB(TOP);
    FullB(TOP + 3);
    c := Client(env, st.login, Repeat(0), [], Minimal(TOP), Minimal(TOP + 3), TOP, 1);
    TopPassword(c);
    TopComputes(c);
  }

  /** Its login goes through. */
  lemma TopGetsIn(challenge: seq<Byte>, rest: seq<Byte>, ask: seq<Byte>) returns (c: Client)
    requires WholeChallenge(challenge) && |rest| == 22 && |ask| == 5 && ask[0] == 0x10
    ensures Answers(c, [challenge]) && c.Computes() && FullWidth(Run(Start, c.env, [challenge]), c)
    ensures Run(Start, c.env, [challenge, c.Packet(rest), ask]).sent ==
            [ChallengeReply(c.B, c.salt, 0), ProofAccepted(c.M2()), RealmList]
  {
    hide Run; hide Client.Packet; hide Minimal; hide FullWidth; hide Client.M2; hide Answers; hide CutOf; hide Tries;
    hide Client.Computes; hide KeyHash;
    var st;
    c, st := TopClient(challenge);
    TopNumbers();
    TopIsFull(st, c);
    PacketIsThere(c, rest);
    Whole(challenge);
    Whole(c.Packet(rest));
    Whole(ask);
    assert [challenge] + [c.Packet(rest)] + [ask] == [challenge, c.Packet(rest), ask];
    HonestLogin(c, [challenge], [c.Packet(rest)], rest, [ask]);
  }

  lemma FirstPowers(b: nat)
    ensures PowN(b, 0) == 1 && PowN(b, 1) == b
  {
    assert PowN(b, 1) == b * PowN(b, 0);
  }

  lemma {:induction false} PowersOfOne(e: nat)
    ensures PowN(1, e) == 1
  {
    if e > 0 { PowersOfOne(e - 1); }
  }

  /** The server's numbers after the challenge. */
  lemma TopPowers(env: Env, st: Session)
    requires env.H == KeyHash() && env.g == TOP && env.N == TOP + 100
    requires Consistent(st, env, 0) && st.s.bn == 0 && st.b == 1 && st.B.bn == ServerPublic(env.g, env.N, st.v, st.b)
    ensures PrivateKey(env.H, [], 0) == 0 && Minimal(0) == [] && st.B.bn == TOP + 3 && st.v == 1
  {
    assert |[] + PasswordDigest(0)| == 20;
    ValueOfZeros(20);
    assert Repeat(0) == Zeros(20);
    FirstPowers(TOP);
  }

  lemma TopPassword(c: Client)
    requires c.env.H == KeyHash() && c.password == Repeat(0) && c.salt == []
    ensures BigEndianValue(c.password) == 0 && c.X() == 0
  {
    assert |[] + c.password| == 20;
    RepeatedZero();
    hide KeyHash; hide Value; hide BigEndianValue; hide Repeat;
  }

  lemma RepeatedZero()
    ensures Value(Repeat(0)) == BigEndianValue(Repeat(0)) == 0
  {
    hide Value; hide BigEndianValue; hide Reversed;
    var zeros := Zeros(20);
    assert Repeat(0) == zeros;
    ValueOfZeros(20);
    BigEndianOfReversed(zeros);
    assert Reversed(zeros) == zeros;
  }

  lemma TopComputes(c: Client)
    requires c.env.g == TOP && c.env.N == TOP + 100 && Value(c.A) == TOP && Value(c.B) == TOP + 3
    requires c.S == TOP && c.X() == 0 && c.a == 1
    ensures c.Computes()
  {
    hide Value; hide PowN;
    FirstPowers(TOP);
    assert c.a + c.U() * c.X() == 1;
  }

  /** The digests of the group's numbers, and the proof's own. */
  lemma TopDigests(c: Client)
    requires c.env.H == KeyHash() && c.env.g == TOP && c.env.N == TOP + 100 && c.S == TOP && c.salt == []
    ensures GroupDigest(c.env)[19] != 0 && c.Key()[0] == 3 && c.Key()[39] == 1 && c.M1() == Repeat(3)
  {
    hide KeyHash; hide KeyDigest; hide Client.Key; hide Client.M1; hide GroupDigest; hide Repeat;
    TopGroup(c.env);
    TopProof(c);
    TopKeyIs(c);
  }

  lemma TopKeyIs(c: Client)
    requires c.env.H == KeyHash() && c.S == TOP
    ensures c.Key()[0] == 3 && c.Key()[39] == 1
  {
    hide KeyHash; hide KeyDigest; hide Minimal; hide Interleave; hide T;
    TopKeys(0);
    AllOfT(TOP);
  }

  lemma AllOfT(n: nat)
    requires |Minimal(n)| == 32
    ensures T(n) == Minimal(n)
  {
    hide Minimal;
    assert Minimal(n)[..32] == Minimal(n);
  }

  lemma TopGroup(env: Env)
    requires env.H == KeyHash() && env.g == TOP && env.N == TOP + 100
    ensures GroupDigest(env)[19] == 3
  {
    TopNumbers();
    hide Minimal;
    assert Xor(2, 1) == 3;
  }

  lemma TopProof(c: Client)
    requires c.env.H == KeyHash() && c.salt == []
    ensures c.M1() == Repeat(c.Key()[0])
  {
    TopNumbers();
    hide Minimal; hide Interleave; hide GroupDigest; hide T;
    var z := c.Input();
    assert |z| == 144 && z[104] == c.Key()[0];
    hide Client.Input;
    assert z != Minimal(TOP + 100) && z != Zeros(16);
  }

  lemma TopIsFull(st: Session, c: Client)
    requires c.env.H == KeyHash() && c.env.g == TOP && c.env.N == TOP + 100
    requires c.A == Minimal(TOP) && c.S == TOP && st.B.bn == TOP + 3 && c.salt == []
    ensures FullWidth(st, c)
  {
    TopNumbers();
    TopDigests(c);
    hide Minimal; hide GroupDigest; hide Client.M1; hide Client.Key;
  }

  // ----- a session key that is kept -----

  /** The same client is turned away when a proof made with another public number came before its own: the server
      compares it with one made from the kept session key. */
  lemma KeptKeyIsRejected(challenge: seq<Byte>, rest: seq<Byte>) returns (c: Client, other: Client)
    requires WholeChallenge(challenge) && |rest| == 22
    ensures Answers(c, [challenge]) && c.Computes() && FullWidth(Run(Start, c.env, [challenge]), c)
    ensures other == c.(A := other.A) && other.A != c.A
    ensures Run(Start, c.env, [challenge, other.Packet(rest), c.Packet(rest)]).sent ==
            [ChallengeReply(c.B, c.salt, 0), ProofRejected, ProofRejected]
  {
    hide Run; hide Client.Packet; hide Minimal; hide FullWidth; hide Answers; hide Awaits; hide Receive; hide Accepts;
    hide Client.Computes; hide KeyHash; hide UsedKey; hide Value; hide CutOf; hide Tries; hide AfterProof;
    var st;
    c, st := TopClient(challenge);
    var _ := Greeted(c, [challenge]);
    Whole(challenge);
    TopNumbers();
    TopIsFull(st, c);
    other := c.(A := Minimal(TOP + 1));
    OtherNumber(c, other);
    AwaitsAny(st, c, other);
    OtherKey(st, other);
    NotAccepted(st, other, c.env.beyond(st.calls));
    var r := ProofIsJudged(st, other, c.env, rest);
    AfterOther(st, c, other, rest, r);
    SameKey(r, c);
    NotAccepted(r, c, c.env.beyond(r.calls));
    var r2 := ProofIsJudged(r, c, c.env, rest);
    RunOne(Start, c.env, challenge);
    RunConcat(Start, c.env, [challenge], [other.Packet(rest), c.Packet(rest)]);
    RunTwo(st, c.env, other.Packet(rest), c.Packet(rest));
    assert [challenge] + [other.Packet(rest), c.Packet(rest)] == [challenge, other.Packet(rest), c.Packet(rest)];
  }

  lemma OtherNumber(c: Client, other: Client)
    requires c.A == Minimal(TOP) && other.A == Minimal(TOP + 1)
    ensures Value(c.A) == TOP && Value(other.A) == TOP + 1 && c.A[31] != 0 && other.A[31] != 0
  {
    ValueOfMinimal(TOP);
    ValueOfMinimal(TOP + 1);
    TopBytes(0);
    TopBytes(1);
  }

  lemma AwaitsAny(st: Session, c: Client, other: Client)
    requires Awaits(st, c) && other == c.(A := other.A)
    ensures Awaits(st, other)
  {
    hide Kept; hide Current; hide ModExp; hide ServerPublic; hide Encoding; hide Minimal;
  }

  lemma ServerKeyIs(st: Session, c: Client, low: Byte)
    requires c.env.N == TOP + 100 && low < 2 && Value(c.A) == TOP + low as nat && st.v == st.b == 1
    ensures ServerKey(st, c) == Interleave(c.env.H, Minimal(TOP + low as nat))
  {
    hide Minimal; hide Value; hide ServerSecret; hide Interleave; hide ServerU; hide Shared; hide NumBytes;
    TopNumbers();
    SharedIsAll(TOP + low as nat);
    ServerPowers(TOP + low as nat, ServerU(st, c));
  }

  lemma SharedIsAll(n: nat)
    requires NumBytes(n) == 32
    ensures Shared(n) == Minimal(n)
  {
    assert Zeros(0) + Minimal(n) == Minimal(n) && Minimal(n)[..32] == Minimal(n);
  }

  lemma ServerPowers(n: nat, u: nat)
    requires n < TOP + 100
    ensures ServerSecret(TOP + 100, n, 1, u, 1) == n
  {
    PowersOfOne(u);
    FirstPowers(n);
    hide PowN;
    assert n * 1 == n;
  }

  /** The key that is made for the other client is kept. */
  lemma OtherKey(st: Session, other: Client)
    requires Awaits(st, other) && st.checks == [] && other.env.H == KeyHash() && other.env.N == TOP + 100
    requires Value(other.A) == TOP + 1 && st.v == st.b == 1
    ensures |UsedKey(st, other)| == 40 && UsedKey(st, other)[0] == 1
  {
    ServerKeyIs(st, other, 1);
    TopKeys(1);
    UsedKeyIs(st, other);
    hide ServerKey; hide UsedKey; hide Interleave; hide Value; hide Minimal; hide Current; hide Encoding;
  }

  /** It is used for the client's own proof. */
  lemma SameKey(st: Session, c: Client)
    requires st.Valid() && c.env.H == KeyHash() && c.env.N == TOP + 100 && Value(c.A) == TOP && st.v == st.b == 1
    requires 40 in st.K.arrays
    ensures UsedKey(st, c) == st.K.arrays[40]
  {
    ServerKeyIs(st, c, 0);
    TopKeys(0);
    UsedKeyIs(st, c);
    hide ServerKey; hide UsedKey; hide Interleave; hide Value; hide Minimal;
  }

  lemma AfterOther(st: Session, c: Client, other: Client, rest: seq<Byte>, r: Session)
    requires Awaits(st, c) && Idle(st) && other == c.(A := other.A) && |rest| == 22
    requires r == Receive(st, c.env, other.Packet(rest))
    ensures Awaits(r, c) && r.B.bn == st.B.bn && r.v == st.v && r.b == st.b
  {
    hide Receive; hide AfterProof; hide Current; hide Client.Packet; hide Kept; hide ModExp; hide ServerPublic;
    hide Encoding; hide Minimal;
    var p := other.Packet(rest);
    PacketParts(p, other, rest);
    ProofReceived(st, c.env, p);
    ProofKeepsNumbers(st, c.env, p);
    ProofKeepsAwaits(st, c, c.env, p);
  }

  /** With a session key that begins differently the server arrives at another proof. */
  lemma NotAccepted(st: Session, c: Client, m: Digest)
    requires c.env.H == KeyHash() && c.env.g == TOP && c.env.N == TOP + 100 && c.S == TOP && c.salt == []
    requires c.A[31] != 0 && st.B.bn == TOP + 3 && |UsedKey(st, c)| == 40 && UsedKey(st, c)[0] == 1
    ensures !Accepts(st, c, m)
  {
    TopDigests(c);
    TopNumbers();
    ShortIff(GroupDigest(c.env));
    ShortIff(c.A);
    hide UsedKey; hide Value; hide Client.M1; hide GroupDigest;
    var z := InputAtServer(st, c);
    assert |z| == 144 && z[104] == 1 by { hide Minimal; }
    assert z != Minimal(TOP + 100) && z != Zeros(16);
    hide InputAtServer; hide Minimal;
    MinimalOfValue(Repeat(1));
    assert c.env.H(z) == Repeat(1) && Repeat(1)[0] != Repeat(3)[0];
  }
}
