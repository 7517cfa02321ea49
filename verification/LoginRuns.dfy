/** What holds over whole connections of `AuthSession`: nothing received is lost, the realm list is only given
    after a proof was accepted, only a matching proof authenticates, and what becomes of messages in pieces. */
module LoginRuns {
  import opened Arithmetic
  import opened LittleEndian
  import opened BigNumbers
  import opened Srp6
  import opened AuthSession
  import opened Sequences
  import opened Wrappers

  // ----- the byte stream -----

  lemma TakeConserves(st: Session, k: nat)
    requires k <= |st.inbuf|
    ensures st.Take(k).consumed + st.Take(k).inbuf == st.consumed + st.inbuf
  {
    assert st.inbuf == st.inbuf[..k] + st.inbuf[k..];
  }

  lemma DispatchConserves(st: Session, env: Env)
    requires st.Valid()
    ensures var st' := Dispatch(st, env).0; st'.consumed + st'.inbuf == st.consumed + st.inbuf
  {
    if st.inbuf != [] {
      if st.inbuf[0] == 0 {
        ChallengeConserves(st, env);
      } else if st.inbuf[0] == 1 {
        if |st.inbuf| >= 75 { TakeConserves(st, 75); }
      } else if st.inbuf[0] == 0x10 && |st.inbuf| >= 5 {
        TakeConserves(st, 5);
      }
    }
  }

  lemma ChallengeConserves(st: Session, env: Env)
    requires st.Valid()
    ensures var st' := ChallengeStep(st, env).0; st'.consumed + st'.inbuf == st.consumed + st.inbuf
  {
    if |st.inbuf| >= 35 {
      var remaining := Value(st.inbuf[2..4]);
      TakeConserves(st, 4);
      if 31 <= remaining <= |st.Take(4).inbuf| {
        TakeConserves(st.Take(4), remaining);
      }
    }
  }

  lemma {:induction false} OnReadConserves(st: Session, env: Env)
    requires st.Valid()
    ensures OnRead(st, env).consumed + OnRead(st, env).inbuf == st.consumed + st.inbuf
    decreases |st.inbuf|
  {
    DispatchConserves(st, env);
    if Dispatch(st, env).1 { OnReadConserves(Dispatch(st, env).0, env); }
  }

  /** However the stream is cut into chunks, what was consumed followed by what is buffered is what
      arrived; only after the connection was closed do chunks go unread. */
  lemma {:induction false} StreamIsConserved(st: Session, env: Env, chunks: seq<seq<Byte>>) returns (k: nat)
    requires st.Valid()
    ensures k <= |chunks| && (k < |chunks| ==> Run(st, env, chunks).closed)
    ensures Run(st, env, chunks).consumed + Run(st, env, chunks).inbuf == st.consumed + st.inbuf + Flatten(chunks[..k])
    decreases chunks
  {
    hide Dispatch;
    if st.closed || chunks == [] {
      k := 0;
      ClosedStays(st, env, chunks);
    } else {
      var st1 := st.(inbuf := st.inbuf + chunks[0]);
      OnReadConserves(st1, env);
      var j := StreamIsConserved(OnRead(st1, env), env, chunks[1..]);
      k := j + 1;
      assert chunks[..k][1..] == chunks[1..][..j];
      assert st.consumed + (st.inbuf + chunks[0]) + Flatten(chunks[1..][..j]) ==
        st.consumed + st.inbuf + Flatten(chunks[..k]);
    }
  }

  lemma {:induction false} ClosedStays(st: Session, env: Env, chunks: seq<seq<Byte>>)
    requires st.Valid() && (st.closed || chunks == [])
    ensures Run(st, env, chunks) == st
    decreases chunks
  {
    if chunks != [] { ClosedStays(st, env, chunks[1..]); }
  }

  // ----- who is given the realm list -----

  /** The log of replies decides whether the session is authenticated, and no realm list in it
      precedes the first accepted proof. */
  ghost predicate LogOk(st: Session)
  {
    && (st.authed <==> exists i :: 0 <= i < |st.sent| && st.sent[i].ProofAccepted?)
    && forall j :: 0 <= j < |st.sent| && st.sent[j].RealmList? ==> exists i :: 0 <= i < j && st.sent[i].ProofAccepted?
  }

  /** A handler adds at most one reply; a realm list only if authenticated, and becoming
      authenticated only with an accepted proof. */
  ghost predicate Adds(st: Session, st': Session, r: Reply)
  {
    st'.sent == st.sent + [r] && (r.RealmList? ==> st.authed) && st'.authed == (st.authed || r.ProofAccepted?)
  }

  ghost predicate Quiet(st: Session, st': Session) { st'.sent == st.sent && st'.authed == st.authed }

  lemma ChallengeAdds(st: Session, env: Env)
    requires st.Valid()
    ensures var st' := ChallengeStep(st, env).0; Quiet(st, st') || exists r :: Adds(st, st', r)
  {
    if ChallengeStep(st, env).1 {
      var st' := ChallengeStep(st, env).0;
      assert Adds(st, st', st'.sent[|st.sent|]);
    }
  }

  lemma JudgeAdds(st: Session, env: Env, A: nat, M1: seq<Byte>, at: nat)
    requires st.Valid()
    ensures exists r :: Adds(st, Judge(st, env, A, M1, at), r)
  {
    var st' := Judge(st, env, A, M1, at);
    assert Adds(st, st', st'.sent[|st.sent|]);
  }

  lemma DispatchAdds(st: Session, env: Env)
    requires st.Valid()
    ensures var st' := Dispatch(st, env).0; Quiet(st, st') || exists r :: Adds(st, st', r)
  {
    hide ChallengeStep;
    hide Judge;
    hide SetKey;
    if st.inbuf != [] {
      if st.inbuf[0] == 0 {
        ChallengeAdds(st, env);
        if !Quiet(st, ChallengeStep(st, env).0) {
          var r :| Adds(st, ChallengeStep(st, env).0, r);
          assert Adds(st, Dispatch(st, env).0, r);
        }
      } else if st.inbuf[0] == 1 && |st.inbuf| >= 75 {
        var A, M1, st1 := Value(st.inbuf[1..33]), st.inbuf[33..53], st.Take(75);
        if A != 0 {
          JudgeAdds(SetKey(st1, env, A), env, A, M1, |st.consumed|);
          var r :| Adds(SetKey(st1, env, A), Judge(SetKey(st1, env, A), env, A, M1, |st.consumed|), r);
          assert Adds(st, Dispatch(st, env).0, r);
        }
      } else if Dispatch(st, env).1 {
        assert Adds(st, Dispatch(st, env).0, RealmList);
      }
    }
  }

  lemma DispatchKeepsLog(st: Session, env: Env)
    requires st.Valid() && LogOk(st)
    ensures LogOk(Dispatch(st, env).0)
  {
    hide Dispatch;
    DispatchAdds(st, env);
    var st' := Dispatch(st, env).0;
    if !Quiet(st, st') {
      var r :| Adds(st, st', r);
      LogGrows(st, st', r);
    }
  }

  lemma LogGrows(st: Session, st': Session, r: Reply)
    requires LogOk(st) && Adds(st, st', r)
    ensures LogOk(st')
  {
    var n := |st.sent|;
    if st.authed {
      var i :| 0 <= i < n && st.sent[i].ProofAccepted?;
      assert st'.sent[i].ProofAccepted?;
    } else if r.ProofAccepted? {
      assert st'.sent[n].ProofAccepted?;
    }
    forall j | 0 <= j <= n && st'.sent[j].RealmList?
      ensures exists i :: 0 <= i < j && st'.sent[i].ProofAccepted?
    {
      if j < n {
        var i :| 0 <= i < j && st.sent[i].ProofAccepted?;
        assert st'.sent[i].ProofAccepted?;
      }
    }
  }

  lemma {:induction false} OnReadKeepsLog(st: Session, env: Env)
    requires st.Valid() && LogOk(st)
    ensures LogOk(OnRead(st, env))
    decreases |st.inbuf|
  {
    DispatchKeepsLog(st, env);
    if Dispatch(st, env).1 { OnReadKeepsLog(Dispatch(st, env).0, env); }
  }

  /** On every connection, whatever arrives in whatever chunks: a realm list is only ever sent after
      an accepted proof, and the session counts as authenticated just when one was accepted. */
  lemma {:induction false} RealmListNeedsProof(st: Session, env: Env, chunks: seq<seq<Byte>>)
    requires st.Valid() && LogOk(st)
    ensures LogOk(Run(st, env, chunks))
    decreases chunks
  {
    if chunks != [] {
      if !st.closed { OnReadKeepsLog(st.(inbuf := st.inbuf + chunks[0]), env); }
      RealmListNeedsProof(Receive(st, env, chunks[0]), env, chunks[1..]);
    }
  }

  // ----- what authenticates a session -----

  /** The client's 20 bytes are those at the server's own proof number. */
  ghost predicate Matches(env: Env, k: Check)
  {
    Compared(Value(env.H(k.Input(env))), env.beyond(k.call)) == k.theirs
  }

  /** Client number and proof are those of a whole packet among the consumed bytes. */
  ghost predicate Received(consumed: seq<Byte>, k: Check)
  {
    && k.at + 75 <= |consumed| && consumed[k.at] == 1
    && k.A == Value(consumed[k.at + 1..k.at + 33]) && k.A != 0 && k.theirs == consumed[k.at + 33..k.at + 53]
  }

  ghost predicate ChecksOk(st: Session, env: Env)
  {
    && (st.authed <==> exists i :: 0 <= i < |st.checks| && Matches(env, st.checks[i]))
    && forall i :: 0 <= i < |st.checks| ==> Received(st.consumed, st.checks[i])
  }

  /** A step compares nothing and leaves the flag, or compares what it has just received. */
  ghost predicate ComparesOnly(st: Session, st': Session, env: Env)
  {
    && st.consumed <= st'.consumed
    && if st'.checks == st.checks then st'.authed == st.authed
       else
         && |st'.checks| == |st.checks| + 1 && st'.checks[..|st.checks|] == st.checks
         && var k := st'.checks[|st.checks|];
            Received(st'.consumed, k) && st'.authed == (st.authed || Matches(env, k))
  }

  lemma JudgeCompares(st: Session, env: Env, A: nat, M1: seq<Byte>, at: nat)
    requires st.Valid()
    ensures var r, k := Judge(st, env, A, M1, at), Prove(st, env, A, M1, at).0;
            && r.checks == st.checks + [k] && r.consumed == st.consumed && r.authed == (st.authed || Matches(env, k))
            && k.at == at && k.A == A && k.theirs == M1
  {
    hide View; hide Value; hide Compared; hide ServerInput;
  }

  lemma ProofCompares(st: Session, env: Env)
    requires st.Valid() && st.inbuf != [] && st.inbuf[0] == 1
    ensures ComparesOnly(st, ProofStep(st, env).0, env)
  {
    hide Value; hide SetKey; hide Judge; hide Prove; hide Matches;
    if |st.inbuf| >= 75 && Value(st.inbuf[1..33]) != 0 {
      var A, M1, at, st1 := Value(st.inbuf[1..33]), st.inbuf[33..53], |st.consumed|, st.Take(75);
      PacketAt(st.consumed, st.inbuf[..75], st.inbuf);
      JudgeCompares(SetKey(st1, env, A), env, A, M1, at);
    }
  }

  lemma PacketAt(consumed: seq<Byte>, packet: seq<Byte>, inbuf: seq<Byte>)
    requires |inbuf| >= 75 && packet == inbuf[..75]
    ensures var c, at := consumed + packet, |consumed|;
            && c[at] == inbuf[0] && c[at + 1..at + 33] == inbuf[1..33] && c[at + 33..at + 53] == inbuf[33..53]
  {
  }

  lemma ChallengeCompares(st: Session, env: Env)
    requires st.Valid()
    ensures ComparesOnly(st, ChallengeStep(st, env).0, env)
  {
    hide Value;
  }

  lemma DispatchCompares(st: Session, env: Env)
    requires st.Valid()
    ensures ComparesOnly(st, Dispatch(st, env).0, env)
  {
    hide ChallengeStep; hide ProofStep; hide Matches; hide Received;
    if st.inbuf != [] {
      ChallengeCompares(st, env);
      if st.inbuf[0] == 1 { ProofCompares(st, env); }
    }
  }

  lemma ChecksGrow(st: Session, st': Session, env: Env)
    requires ChecksOk(st, env) && ComparesOnly(st, st', env)
    ensures ChecksOk(st', env)
  {
    hide Matches;
    var n := |st.checks|;
    forall i | 0 <= i < |st'.checks| ensures Received(st'.consumed, st'.checks[i]) {
      if i < n {
        assert st'.checks[i] == st'.checks[..n][i] == st.checks[i];
        StillReceived(st.consumed, st'.consumed, st.checks[i]);
      }
    }
    if st.authed {
      var i :| 0 <= i < n && Matches(env, st.checks[i]);
      assert st'.checks[i] == st'.checks[..n][i];
    }
    if i :| 0 <= i < |st'.checks| && Matches(env, st'.checks[i]) {
      if i < n { assert st'.checks[..n][i] == st.checks[i]; }
    }
  }

  lemma StillReceived(consumed: seq<Byte>, more: seq<Byte>, k: Check)
    requires consumed <= more && Received(consumed, k)
    ensures Received(more, k)
  {
    assert more[k.at + 1..k.at + 33] == consumed[k.at + 1..k.at + 33];
    assert more[k.at + 33..k.at + 53] == consumed[k.at + 33..k.at + 53];
  }

  lemma {:induction false} OnReadKeepsChecks(st: Session, env: Env)
    requires st.Valid() && ChecksOk(st, env)
    ensures ChecksOk(OnRead(st, env), env)
    decreases |st.inbuf|
  {
    hide Dispatch; hide ChecksOk;
    var st1 := Dispatch(st, env).0;
    DispatchCompares(st, env);
    ChecksGrow(st, st1, env);
    if Dispatch(st, env).1 { OnReadKeepsChecks(st1, env); }
  }

  /** On every connection, whatever arrives: the session is authenticated just when one of the comparisons
      made so far came out equal, and each was made with the public number, not zero, and the 20
      bytes of a whole proof packet among the consumed bytes. */
  lemma {:induction false} AuthenticatedIff(st: Session, env: Env, chunks: seq<seq<Byte>>)
    requires st.Valid() && ChecksOk(st, env)
    ensures ChecksOk(Run(st, env, chunks), env)
    decreases chunks
  {
    hide OnRead; hide Matches; hide Received;
    if chunks != [] {
      if !st.closed { OnReadKeepsChecks(st.(inbuf := st.inbuf + chunks[0]), env); }
      AuthenticatedIff(Receive(st, env, chunks[0]), env, chunks[1..]);
    }
  }

  /** A whole proof at the front of the buffer authenticates a session just when its public number is not
      zero and its 20 bytes match; nothing else at the front does. */
  lemma AuthenticatesIff(st: Session, env: Env)
    requires st.Valid() && !st.authed
    ensures Dispatch(st, env).0.authed <==>
            && |st.inbuf| >= 75 && st.inbuf[0] == 1
            && var A := Value(st.inbuf[1..33]);
               A != 0 && Matches(env, Prove(SetKey(st.Take(75), env, A), env, A, st.inbuf[33..53], |st.consumed|).0)
  {
    hide Compared; hide SetKey; hide Value; hide ServerInput;
    if st.inbuf != [] && st.inbuf[0] == 0 { ChallengeCompares(st, env); }
  }

  // ----- what the comparison with M1 compares -----

  /** The array made from a proof number holds the digest, whatever lies behind it in memory, just
      when the digest's last byte is not zero; otherwise `memcmp` runs past it. */
  lemma ComparisonIsExactIff(d: Digest)
    ensures (forall beyond: Digest :: Compared(Value(d), beyond) == d) <==> d[19] != 0
  {
    if d[19] != 0 {
      MinimalOfValue(d);
    } else {
      var ones: Digest := seq(20, i => 1 as Byte);
      ShortIff(d);
      var m := Minimal(Value(d));
      assert (m + ones)[..20][19] == 1;
      assert Compared(Value(d), ones) != d;
    }
  }

  // ----- a challenge that fills the buffer -----

  predicate WholeChallenge(c: seq<Byte>)
  {
    |c| >= 35 && c[0] == 0 && Value(c[2..4]) == |c| - 4
  }

  lemma GetMinimal(n: Num)
    requires Current(n)
    ensures View(n, 0, true).0 == Minimal(n.bn) && Current(View(n, 0, true).1)
  {
    GetIsFresh(n, 0, true);
    assert Encoding(n.bn, 0, true) == Minimal(n.bn);
  }

  /** Salt and verifier match the account's password hash. */
  predicate Consistent(st: Session, env: Env, I: nat)
  {
    st.v == ModExp(env.g, PrivateKey(env.H, Minimal(st.s.bn), I), env.N)
  }

  lemma FreshVerifier(st: Session, env: Env)
    requires st.Valid() && st.s.arrays == map[]
    ensures var r := Verifier(st, env);
            && r == st.(s := r.s, v := r.v) && Current(r.s)
            && (env.account(st.calls).stored.None? ==>
                  Consistent(r, env, env.account(st.calls).passHash) && r.s.bn == env.random(st.calls).s)
  {
    GetMinimal(st.s.(bn := env.random(st.calls).s));
  }

  lemma FreshGreeting(st: Session, env: Env)
    requires st.Valid() && st.B.arrays == map[] && Current(st.s)
    ensures var r := Greet(st, env);
            && r == st.(b := r.b, s := r.s, B := r.B, sent := r.sent)
            && Current(r.s) && Current(r.B) && r.s.bn == st.s.bn && r.b == env.random(st.calls).b
            && r.B.bn == ServerPublic(env.g, env.N, st.v, r.b)
            && r.sent == st.sent +
               [ChallengeReply(Encoding(r.B.bn, 32, true), Minimal(r.s.bn), env.random(st.calls).unk3)]
  {
    var b := env.random(st.calls).b;
    GetIsFresh(st.B.(bn := ServerPublic(env.g, env.N, st.v, b)), 32, true);
    GetMinimal(st.s);
  }

  /** A chunk that one handler call uses up. */
  lemma ReadOne(st: Session, env: Env, p: seq<Byte>, r: Session)
    requires st.Valid() && st.inbuf == [] && !st.closed && Dispatch(st.(inbuf := p), env) == (r, true) && r.inbuf == []
    ensures Receive(st, env, p) == r
  {
    hide ChallengeStep; hide ProofStep; hide RealmStep;
    assert st.inbuf + p == p;
    assert OnRead(st.(inbuf := p), env) == OnRead(r, env) == r;
  }

  /** The session when a whole challenge has been taken, before the database is asked. */
  function Parsed(st: Session, c: seq<Byte>): Session
    requires WholeChallenge(c)
  {
    st.(inbuf := [], consumed := st.consumed + c, login := UpTo((c + [0])[34..], 0), build := Value((c + [0])[11..13]))
  }

  /** What a whole challenge does. */
  lemma ChallengeIsRead(st: Session, env: Env, c: seq<Byte>)
    requires st.Valid() && st.inbuf == [] && !st.closed && WholeChallenge(c)
    ensures Receive(st, env, c) == Greet(Verifier(Parsed(st, c), env), env).(calls := st.calls + 1)
  {
    var st0 := st.(inbuf := c);
    ChallengeParses(st, env, c);
    hide ChallengeStep; hide Greet; hide Verifier; hide Parsed; hide Receive;
    ReadOne(st, env, c, Greet(Verifier(Parsed(st, c), env), env).(calls := st.calls + 1));
  }

  lemma ChallengeParses(st: Session, env: Env, c: seq<Byte>)
    requires st.Valid() && st.inbuf == [] && WholeChallenge(c)
    ensures ChallengeStep(st.(inbuf := c), env) == (Greet(Verifier(Parsed(st, c), env), env), true)
    ensures Greet(Verifier(Parsed(st, c), env), env).inbuf == []
  {
    hide Greet; hide Verifier; hide UpTo;
    var st1 := st.(inbuf := c).Take(4);
    var st2 := st1.Take(|c| - 4);
    assert c == c[..4] + c[4..];
    assert st2.inbuf == [] && st2.consumed == st.consumed + c;
    assert c[..4 + (|c| - 4)] == c;
  }

  lemma NoArrays(n: Num)
    requires n.arrays == map[]
    ensures Current(n)
  {
  }

  /** A new connection after `k` calls that found no whole message. */
  function Fresh(k: nat): Session { Start.(calls := k) }

  /** The state after the first challenge of a connection. */
  lemma AfterChallenge(env: Env, k: nat, c: seq<Byte>)
    requires WholeChallenge(c)
    ensures var st := Receive(Fresh(k), env, c);
            && st.calls == k + 1 && st.Valid() && st.inbuf == [] && !st.closed && !st.authed
            && st.checks == [] && st.K.arrays == map[] && Current(st.s) && Current(st.B)
            && st.b == env.random(k).b && st.B.bn == ServerPublic(env.g, env.N, st.v, st.b)
            && st.sent == [ChallengeReply(Encoding(st.B.bn, 32, true), Minimal(st.s.bn), env.random(k).unk3)]
            && (env.account(k).stored.None? ==>
                  Consistent(st, env, env.account(k).passHash) && st.s.bn == env.random(k).s)
  {
    hide Verifier; hide Greet; hide Minimal; hide Encoding; hide View; hide Receive; hide PrivateKey; hide ServerPublic;
    hide ModExp; hide Current; hide UpTo; hide Value;
    var st1 := Parsed(Fresh(k), c);
    NoArrays(Start.s);
    FreshVerifier(st1, env);
    FreshGreeting(Verifier(st1, env), env);
    ChallengeIsRead(Fresh(k), env, c);
  }

  // ----- messages that arrive in pieces -----

  /** How many bytes a handler asks for before it takes any. */
  function Header(cmd: Byte): nat { if cmd == 0 then 35 else if cmd == 1 then 75 else 5 }

  /** Every piece but the last leaves fewer than `need` bytes in the buffer. */
  predicate Early(got: nat, pieces: seq<seq<Byte>>, need: nat)
    decreases pieces
  {
    |pieces| <= 1 || (got + |pieces[0]| < need && Early(got + |pieces[0]|, pieces[1..], need))
  }

  /** The message in pieces, all but the last of them too early to be looked at. */
  predicate CutOf(pieces: seq<seq<Byte>>, message: seq<Byte>)
  {
    pieces != [] && message != [] && Flatten(pieces) == message && Early(0, pieces, Header(message[0]))
  }

  /** The handler calls that find too few bytes. */
  function Tries(got: nat, pieces: seq<seq<Byte>>): nat
    decreases pieces
  {
    if |pieces| <= 1 then 0
    else (if got + |pieces[0]| > 0 then 1 else 0) + Tries(got + |pieces[0]|, pieces[1..])
  }

  lemma TooShort(st: Session, env: Env)
    requires st.Valid() && (st.inbuf != [] ==> |st.inbuf| < Header(st.inbuf[0]))
    ensures Dispatch(st, env) == (st.(calls := st.calls + if st.inbuf != [] then 1 else 0), false)
  {
  }

  /** A piece that is too early stays in the buffer. */
  lemma PieceWaits(st: Session, env: Env, piece: seq<Byte>)
    requires st.Valid() && !st.closed
    requires var b := st.inbuf + piece; b != [] ==> |b| < Header(b[0])
    ensures var b := st.inbuf + piece;
            Receive(st, env, piece) == st.(inbuf := b, calls := st.calls + if b != [] then 1 else 0)
  {
    TooShort(st.(inbuf := st.inbuf + piece), env);
    hide Dispatch;
  }

  lemma {:induction false} PiecesAreOne(st: Session, env: Env, pieces: seq<seq<Byte>>, message: seq<Byte>)
    requires st.Valid() && !st.closed && pieces != [] && message != [] && st.inbuf + Flatten(pieces) == message
    requires Early(|st.inbuf|, pieces, Header(message[0]))
    ensures Run(st, env, pieces) ==
            Receive(st.(inbuf := [], calls := st.calls + Tries(|st.inbuf|, pieces)), env, message)
    decreases pieces
  {
    hide Dispatch; hide OnRead;
    if |pieces| == 1 {
      LastPiece(st, env, pieces, message);
    } else {
      var b := st.inbuf + pieces[0];
      assert b + Flatten(pieces[1..]) == message;
      PieceWaits(st, env, pieces[0]);
      hide Flatten; hide Receive;
      PiecesAreOne(Receive(st, env, pieces[0]), env, pieces[1..], message);
    }
  }

  lemma LastPiece(st: Session, env: Env, pieces: seq<seq<Byte>>, message: seq<Byte>)
    requires st.Valid() && !st.closed && |pieces| == 1 && st.inbuf + Flatten(pieces) == message
    ensures Run(st, env, pieces) == Receive(st.(inbuf := []), env, message)
  {
    hide OnRead;
    var p := pieces[0];
    assert pieces[1..] == [] && Flatten(pieces) == p + [];
    assert st.inbuf + p == message && [] + message == message;
    assert Run(Receive(st, env, p), env, []) == Receive(st, env, p);
  }

  /** A message that is cut as above is handled as if it had come in one piece after the calls that found too
      little: a challenge may be cut within its first 34 bytes, a proof and a realm request anywhere. */
  lemma CutIsWhole(st: Session, env: Env, pieces: seq<seq<Byte>>, message: seq<Byte>)
    requires st.Valid() && !st.closed && st.inbuf == [] && CutOf(pieces, message)
    ensures Run(st, env, pieces) == Receive(st.(calls := st.calls + Tries(0, pieces)), env, message)
  {
    hide Receive; hide Run; hide Early; hide Flatten; hide Tries;
    assert st.inbuf + Flatten(pieces) == message;
    PiecesAreOne(st, env, pieces, message);
  }

  /** Of a challenge that is looked at too soon the first four bytes are taken, and there is no greeting. */
  lemma CutTooLate(st: Session, env: Env, piece: seq<Byte>, c: seq<Byte>)
    requires st.Valid() && !st.closed && st.inbuf == [] && WholeChallenge(c)
    requires 35 <= |piece| < |c| && piece == c[..|piece|]
    ensures Receive(st, env, piece) ==
            st.(inbuf := c[4..|piece|], consumed := st.consumed + c[..4], calls := st.calls + 1)
  {
    assert st.inbuf + piece == piece;
    assert piece[2..4] == c[2..4] && piece[..4] == c[..4] && piece[4..] == c[4..|piece|];
    hide Value;
  }

  lemma {:induction false} RunConcat(st: Session, env: Env, a: seq<seq<Byte>>, b: seq<seq<Byte>>)
    requires st.Valid()
    ensures Run(st, env, a + b) == Run(Run(st, env, a), env, b)
    decreases a
  {
    hide Receive;
    if a == [] {
      assert a + b == b;
    } else {
      assert (a + b)[1..] == a[1..] + b;
      RunConcat(Receive(st, env, a[0]), env, a[1..], b);
    }
  }

  lemma RunTwo(st: Session, env: Env, a: seq<Byte>, b: seq<Byte>)
    requires st.Valid()
    ensures Run(st, env, [a, b]) == Receive(Receive(st, env, a), env, b)
  {
    hide Receive;
    var st1 := Receive(st, env, a);
    assert [a, b][1..] == [b] && [b][1..] == [];
    assert Run(st1, env, [b]) == Run(Receive(st1, env, b), env, []);
  }
}
