/** The bytes of the messages as a client sees them: what it sends is understood, and what the server sends is
    read back. */
module Messages {
  import opened LittleEndian
  import opened BigNumbers
  import opened AuthSession
  import opened LoginRuns
  import opened ClientLogin
  import opened Sequences
  import opened Srp6

  /** A logon challenge, field by field: command, error, size of the rest, game, version, build, platform, system,
      country, time zone, address, and the account's name behind its length. */
  datatype Challenge = Challenge(
    error: Byte, game: seq<Byte>, version: seq<Byte>, build: nat, platform: seq<Byte>, os: seq<Byte>,
    country: seq<Byte>, zone: seq<Byte>, ip: seq<Byte>, name: seq<Byte>)
  {
    predicate Valid()
    {
      && |game| == |platform| == |os| == |country| == |zone| == |ip| == 4 && |version| == 3 && NumBytes(build) <= 2
      && 0 < |name| < 256 && 0 !in name
    }

    function Head(): seq<Byte>
      requires Valid()
    {
      game + version + FixedWidth(build, 2) + platform + os + country + zone + ip + [|name| as Byte]
    }

    function Bytes(): seq<Byte>
      requires Valid() && NumBytes(30 + |name|) <= 2
    {
      [0, error] + FixedWidth(30 + |name|, 2) + Head() + name
    }
  }

  /** Any sizes that occur fit into their field. */
  lemma SizeFits(n: nat)
    requires n < 0x1_0000
    ensures NumBytes(n) <= 2
  {
    assert Pow256(2) == 0x1_0000;
    FitsIff(n, 2);
  }

  /** The server takes such a packet as a whole challenge, with the name and the build that are in it. */
  lemma ChallengeIsUnderstood(st: Session, env: Env, c: Challenge)
    requires Idle(st) && c.Valid()
    ensures NumBytes(30 + |c.name|) <= 2 && WholeChallenge(c.Bytes())
    ensures var r := Receive(st, env, c.Bytes());
            r.login == c.name && r.build == c.build && r.consumed == st.consumed + c.Bytes()
  {
    SizeFits(30 + |c.name|);
    ChallengeFields(c);
    hide Value; hide NumBytes; hide UpTo;
    ChallengeIsRead(st, env, c.Bytes());
    GreetKeepsName(Parsed(st, c.Bytes()), env);
  }

  lemma GreetKeepsName(st: Session, env: Env)
    requires st.Valid()
    ensures var r := Greet(Verifier(st, env), env);
            r.login == st.login && r.build == st.build && r.consumed == st.consumed
  {
    hide View; hide ModExp; hide ServerPublic; hide PrivateKey;
  }

  lemma ChallengeFields(c: Challenge)
    requires c.Valid() && NumBytes(30 + |c.name|) <= 2
    ensures var p := c.Bytes();
            && WholeChallenge(p) && UpTo((p + [0])[34..], 0) == c.name && Value((p + [0])[11..13]) == c.build
  {
    var p, size := c.Bytes(), FixedWidth(30 + |c.name|, 2);
    ValueOfFixedWidth(30 + |c.name|, 2);
    ValueOfFixedWidth(c.build, 2);
    hide FixedWidth; hide Value; hide UpTo; hide NumBytes;
    assert |c.Head()| == 30;
    assert p[2..4] == size && |p| == 34 + |c.name|;
    assert (p + [0])[11..13] == FixedWidth(c.build, 2);
    assert (p + [0])[34..] == c.name + [0];
    UpToIs(c.name + [0], 0, |c.name|);
    assert (c.name + [0])[..|c.name|] == c.name;
  }

  /** Of 35 bytes or more that begin like a challenge a whole one is taken and answered just when its size is at least
      that of one without a name and all of it is there; otherwise its first four bytes are taken. */
  lemma ChallengeTakenIff(st: Session, env: Env)
    requires st.Valid() && |st.inbuf| >= 35 && st.inbuf[0] == 0
    ensures var (r, ok) := Dispatch(st, env); var size := Value(st.inbuf[2..4]);
            var k := if ok then 4 + size else 4;
            && (ok <==> 31 <= size <= |st.inbuf| - 4)
            && r.consumed == st.consumed + st.inbuf[..k] && r.inbuf == st.inbuf[k..]
            && |r.sent| == |st.sent| + if ok then 1 else 0
  {
    hide View; hide ModExp; hide ServerPublic; hide PrivateKey; hide Value; hide UpTo;
    var size := Value(st.inbuf[2..4]);
    if size <= |st.inbuf| - 4 {
      assert st.inbuf[..4] + st.inbuf[4..][..size] == st.inbuf[..4 + size];
      assert st.inbuf[4..][size..] == st.inbuf[4 + size..];
    }
  }

  /** Nothing is done about the other commands: reconnecting, unknown ones, and a realm request before a proof. */
  lemma OtherCommandsStay(st: Session, env: Env)
    requires st.Valid() && st.inbuf != [] && st.inbuf[0] !in [0, 1] && (st.inbuf[0] == 0x10 ==> !st.authed)
    ensures Dispatch(st, env) == (st.(calls := st.calls + 1), false)
  {
  }

  // ----- what comes back -----

  /** An answer to a proof or to a realm request, as a client takes it apart. */
  datatype Answer =
    | Accepted(M2: seq<Byte>, accountFlags: nat, surveyId: nat, unknownFlags: nat)
    | Refused(code: Byte)
    | Realms(list: seq<Byte>)
    | NoAnswer

  function ReadAnswer(p: seq<Byte>): Answer
  {
    if |p| == 32 && p[0] == 1 && p[1] == 0 then
      Accepted(p[2..22], Value(p[22..26]), Value(p[26..30]), Value(p[30..32]))
    else if |p| == 4 && p[0] == 1 && p[1] != 0 then Refused(p[1])
    else if |p| >= 3 && p[0] == 0x10 && Value(p[1..3]) == |p| - 3 then Realms(p[3..])
    else NoAnswer
  }

  /** The client finds the server's proof with the flag of a paid account, "unknown account" for a wrong proof, and
      a realm list of four zero bytes. */
  lemma AnswersAreRead(env: Env, M2: Digest)
    ensures ReadAnswer(Wire(env, ProofAccepted(M2))) == Accepted(M2, 0x80_0000, 0, 0)
    ensures ReadAnswer(Wire(env, ProofRejected)) == Refused(4)
    ensures ReadAnswer(Wire(env, RealmList)) == Realms([0, 0, 0, 0])
  {
    var p := Wire(env, ProofAccepted(M2));
    assert p[2..22] == M2 && p[22..26] == [0, 0, 0x80, 0] && p[26..30] == [0, 0, 0, 0] && p[30..32] == [0, 0];
    SmallValues();
    assert Wire(env, RealmList)[1..3] == [4, 0] && Wire(env, RealmList)[3..] == [0, 0, 0, 0];
  }

  lemma SmallValues()
    ensures Value([0, 0, 0x80, 0]) == 0x80_0000 && Value([0, 0, 0, 0]) == 0 && Value([0, 0]) == 0 && Value([4, 0]) == 4
  {
    var a: seq<Byte>, b: seq<Byte>, c: seq<Byte> := [0, 0, 0x80, 0], [0, 0, 0, 0], [4, 0];
    assert a[1..] == [0, 0x80, 0] && a[1..][1..] == [0x80, 0] && a[1..][1..][1..] == [0];
    assert b == Zeros(4) && [0 as Byte, 0] == Zeros(2) && c[1..] == [0];
    ValueOfZeros(4);
    ValueOfZeros(2);
    assert Value([0 as Byte]) == 0;
  }

  /** A realm request of an authenticated session is answered with the list if the account is still there, and
      otherwise closes the connection without an answer; of any other session it is not even taken. */
  lemma RealmRequestIff(st: Session, env: Env, ask: seq<Byte>)
    requires Idle(st) && |ask| == 5 && ask[0] == 0x10
    ensures var r, found := Receive(st, env, ask), env.account(st.calls).found;
            && r.sent == st.sent + (if st.authed && found then [RealmList] else [])
            && (r.closed <==> st.authed && !found)
            && r.inbuf == (if st.authed then [] else ask)
  {
    var st1 := st.(inbuf := ask);
    assert st.inbuf + ask == ask;
    if st.authed {
      assert st1.Take(5).inbuf == [];
      if env.account(st.calls).found {
        ReadOne(st, env, ask, Dispatch(st1, env).0);
      }
    }
  }

  // ----- messages that arrive together -----

  /** A message that its handler takes as a whole and asks to go on after. */
  predicate Handled(st: Session, env: Env, m: seq<Byte>)
  {
    || WholeChallenge(m)
    || (ProofPacket(m) && Value(m[1..33]) != 0)
    || (|m| == 5 && m[0] == 0x10 && st.authed && env.account(st.calls).found)
  }

  /** What arrives behind such a message in one piece is read as if it had come after it. */
  lemma TogetherIsInTurn(st: Session, env: Env, m: seq<Byte>, more: seq<Byte>)
    requires Idle(st) && Handled(st, env, m)
    ensures Receive(st, env, m + more) == Receive(Receive(st, env, m), env, more)
  {
    var r := OneByOne(st, env, m, more);
    hide Dispatch; hide Handled; hide Receive; hide WholeChallenge; hide ProofPacket; hide Value;
    ReadOne(st, env, m, r);
    ReadsOn(st, env, m + more, r, more);
  }

  lemma ReadsOn(st: Session, env: Env, p: seq<Byte>, r: Session, more: seq<Byte>)
    requires Idle(st) && Idle(r) && Dispatch(st.(inbuf := p), env) == (r.(inbuf := more), true)
    ensures Receive(st, env, p) == Receive(r, env, more)
  {
    hide Dispatch;
    assert st.inbuf + p == p && r.inbuf + more == more;
    assert OnRead(st.(inbuf := p), env) == OnRead(r.(inbuf := more), env);
  }

  /** The handler does not look behind its message. */
  lemma OneByOne(st: Session, env: Env, m: seq<Byte>, more: seq<Byte>) returns (r: Session)
    requires Idle(st) && Handled(st, env, m)
    ensures Dispatch(st.(inbuf := m), env) == (r, true) && Idle(r)
    ensures Dispatch(st.(inbuf := m + more), env) == (r.(inbuf := more), true)
  {
    r := Dispatch(st.(inbuf := m), env).0;
    CommandByte(st, env, m, more);
    hide Dispatch; hide ChallengeStep; hide ProofStep; hide RealmStep; hide Value;
    if WholeChallenge(m) {
      ChallengeAlone(st, env, m, more);
    } else if ProofPacket(m) && Value(m[1..33]) != 0 {
      ProofAlone(st, env, m, more);
    } else {
      RealmAlone(st, env, m, more);
    }
  }

  lemma CommandByte(st: Session, env: Env, m: seq<Byte>, more: seq<Byte>)
    requires Idle(st) && Handled(st, env, m)
    ensures m != [] && (m + more)[0] == m[0]
    ensures m[0] == if WholeChallenge(m) then 0 else if ProofPacket(m) && Value(m[1..33]) != 0 then 1 else 0x10
    ensures DispatchedBy(st, env, m) && DispatchedBy(st, env, m + more)
  {
    hide ChallengeStep; hide ProofStep; hide RealmStep;
  }

  /** The command byte selects the handler. */
  ghost predicate DispatchedBy(st: Session, env: Env, p: seq<Byte>)
    requires st.Valid() && p != []
  {
    var st0 := st.(inbuf := p);
    && (p[0] == 0 ==> Dispatch(st0, env) == OneCall(ChallengeStep(st0, env), st.calls))
    && (p[0] == 1 ==> Dispatch(st0, env) == OneCall(ProofStep(st0, env), st.calls))
    && (p[0] == 0x10 && st.authed ==> Dispatch(st0, env) == OneCall(RealmStep(st0, env), st.calls))
  }

  function OneCall(r: (Session, bool), calls: nat): (Session, bool) { (r.0.(calls := calls + 1), r.1) }

  lemma ChallengeAlone(st: Session, env: Env, m: seq<Byte>, more: seq<Byte>)
    requires Idle(st) && WholeChallenge(m)
    ensures var r := ChallengeStep(st.(inbuf := m), env);
            && r.1 && Idle(r.0) && ChallengeStep(st.(inbuf := m + more), env) == (r.0.(inbuf := more), true)
  {
    ChallengeParses(st, env, m);
    TakesMessage(st, m, more);
    GreetsWhateverFollows(Parsed(st, m), env, more);
    hide Greet; hide Verifier; hide UpTo; hide Value; hide Session.Take;
  }

  lemma TakesMessage(st: Session, m: seq<Byte>, more: seq<Byte>)
    requires |m| >= 35
    ensures var p := m + more;
            && p[2..4] == m[2..4] && p[..4 + (|m| - 4)] == m && |p| >= |m|
            && st.(inbuf := p).Take(4).Take(|m| - 4) == st.(inbuf := more, consumed := st.consumed + m)
            && |st.(inbuf := p).Take(4).inbuf| >= |m| - 4
  {
    var p := m + more;
    assert p[4..][|m| - 4..] == more;
    assert st.consumed + p[..4] + p[4..][..|m| - 4] == st.consumed + m;
  }

  lemma GreetsWhateverFollows(st: Session, env: Env, more: seq<Byte>)
    requires Idle(st)
    ensures var r := Greet(Verifier(st, env), env);
            Idle(r) && Greet(Verifier(st.(inbuf := more), env), env) == r.(inbuf := more)
  {
    hide View; hide ModExp; hide ServerPublic; hide PrivateKey;
  }

  lemma ProofAlone(st: Session, env: Env, m: seq<Byte>, more: seq<Byte>)
    requires Idle(st) && ProofPacket(m) && Value(m[1..33]) != 0
    ensures var r := ProofStep(st.(inbuf := m), env);
            && r.1 && Idle(r.0) && ProofStep(st.(inbuf := m + more), env) == (r.0.(inbuf := more), true)
  {
    hide Value; hide SetKey; hide Judge;
    var p, A := m + more, Value(m[1..33]);
    assert p[1..33] == m[1..33] && p[33..53] == m[33..53] && p[..75] == m == m[..75];
    assert p[75..] == more && m[75..] == [];
    JudgesWhateverFollows(st.(consumed := st.consumed + m), env, A, m[33..53], |st.consumed|, more);
  }

  lemma JudgesWhateverFollows(st: Session, env: Env, A: nat, M1: seq<Byte>, at: nat, more: seq<Byte>)
    requires Idle(st)
    ensures var r := Judge(SetKey(st, env, A), env, A, M1, at);
            Idle(r) && Judge(SetKey(st.(inbuf := more), env, A), env, A, M1, at) == r.(inbuf := more)
  {
    hide Value; hide Minimal; hide View; hide Interleave; hide Shared; hide ServerSecret; hide ServerInput;
    hide Compared;
  }

  lemma RealmAlone(st: Session, env: Env, m: seq<Byte>, more: seq<Byte>)
    requires Idle(st) && |m| == 5 && m[0] == 0x10 && st.authed && env.account(st.calls).found
    ensures var r := RealmStep(st.(inbuf := m), env);
            && r.1 && Idle(r.0) && RealmStep(st.(inbuf := m + more), env) == (r.0.(inbuf := more), true)
  {
    assert (m + more)[..5] == m == m[..5] && (m + more)[5..] == more && m[5..] == [];
  }
}
