/** What the kept arrays of B, s and K do to a connection: `Session` keeps them when the numbers change, so
    everything that is sent or hashed with one length comes from the first number of that length. */
module KeptArrays {
  import opened Arithmetic
  import opened LittleEndian
  import opened BigNumbers
  import opened Srp6
  import opened AuthSession
  import opened LoginRuns
  import opened Sequences
  import opened Wrappers

  // ----- one array of each length -----

  ghost predicate Stored(n: Num, bytes: seq<Byte>) { |bytes| in n.arrays && n.arrays[|bytes|] == bytes }

  /** An array that is kept stays. */
  ghost predicate Grows(n: Num, n': Num)
  {
    forall length :: length in n.arrays ==> length in n'.arrays && n'.arrays[length] == n.arrays[length]
  }

  ghost predicate ArraysGrow(st: Session, st': Session)
  {
    Grows(st.s, st'.s) && Grows(st.B, st'.B) && Grows(st.K, st'.K)
  }

  /** A greeting has its public number and its salt from the kept arrays. */
  ghost predicate GreetingKept(st: Session, N: nat, r: Reply)
  {
    r.ChallengeReply? ==>
      Stored(st.B, r.pub) && Stored(st.s, r.salt) && (NumBytes(N) <= 32 ==> |r.pub| == 32)
  }

  /** So has a comparison its salt, public number and session key. */
  ghost predicate CheckKept(st: Session, k: Check)
  {
    Stored(st.s, k.s) && Stored(st.B, k.B) && Stored(st.K, k.K)
  }

  /** The arrays of the session key are those of the comparisons made. */
  ghost predicate KeysLogged(st: Session)
  {
    forall length :: length in st.K.arrays ==>
      exists i :: 0 <= i < |st.checks| && st.checks[i].K == st.K.arrays[length]
  }

  ghost predicate Kept(st: Session, N: nat)
  {
    && (forall j :: 0 <= j < |st.sent| ==> GreetingKept(st, N, st.sent[j]))
    && (forall i :: 0 <= i < |st.checks| ==> CheckKept(st, st.checks[i]))
    && KeysLogged(st)
  }

  /** What a step adds to the two logs. */
  ghost predicate Logs(st: Session, st': Session, N: nat)
  {
    && ArraysGrow(st, st')
    && (st'.sent == st.sent || exists r :: st'.sent == st.sent + [r] && GreetingKept(st', N, r))
    && if st'.checks == st.checks then st'.K.arrays == st.K.arrays
       else exists k :: st'.checks == st.checks + [k] && CheckKept(st', k) && st'.K.arrays == st.K.arrays[|k.K| := k.K]
  }

  lemma StillStored(n: Num, n': Num, bytes: seq<Byte>)
    requires Stored(n, bytes) && Grows(n, n')
    ensures Stored(n', bytes)
  {
  }

  lemma LogsKeep(st: Session, st': Session, N: nat)
    requires Kept(st, N) && Logs(st, st', N)
    ensures Kept(st', N)
  {
    forall j | 0 <= j < |st'.sent| ensures GreetingKept(st', N, st'.sent[j]) {
      if j < |st.sent| { assert st'.sent[j] == st.sent[j] && GreetingKept(st, N, st.sent[j]); }
    }
    forall i | 0 <= i < |st'.checks| ensures CheckKept(st', st'.checks[i]) {
      if i < |st.checks| { assert st'.checks[i] == st.checks[i] && CheckKept(st, st.checks[i]); }
    }
    KeysStayLogged(st, st', N);
  }

  lemma KeysStayLogged(st: Session, st': Session, N: nat)
    requires KeysLogged(st) && Logs(st, st', N)
    ensures KeysLogged(st')
  {
    if st'.checks != st.checks {
      var n := |st.checks|;
      var k :| st'.checks == st.checks + [k] && st'.K.arrays == st.K.arrays[|k.K| := k.K];
      forall length | length in st'.K.arrays
        ensures exists i :: 0 <= i < |st'.checks| && st'.checks[i].K == st'.K.arrays[length]
      {
        if length == |k.K| {
          assert st'.checks[n].K == st'.K.arrays[length];
        } else {
          var i :| 0 <= i < n && st.checks[i].K == st.K.arrays[length];
          assert st'.checks[i].K == st'.K.arrays[length];
        }
      }
    }
  }

  /** A view is stored and changes nothing else. */
  lemma ViewStores(n: Num, minSize: nat)
    requires Sized(n)
    ensures var (bytes, n') := View(n, minSize, true);
            && n' == n.(arrays := n.arrays[|bytes| := bytes]) && Stored(n', bytes) && Grows(n, n')
            && |bytes| == Length(n.bn, minSize)
  {
    hide Encoding; hide Minimal; hide NumBytes;
    var length := Length(n.bn, minSize);
    if length in n.arrays { assert n.arrays == n.arrays[length := n.arrays[length]]; }
  }

  // ----- what every step logs -----

  lemma VerifierLogs(st: Session, env: Env)
    requires st.Valid()
    ensures var r := Verifier(st, env); r == st.(s := r.s, v := r.v) && Grows(st.s, r.s)
  {
    hide Encoding; hide NumBytes;
    ViewStores(st.s.(bn := env.random(st.calls).s), 0);
  }

  lemma GreetLogs(st: Session, env: Env)
    requires st.Valid()
    ensures var r := Greet(st, env);
            && r.checks == st.checks && r.K == st.K && Grows(st.s, r.s) && Grows(st.B, r.B)
            && |r.sent| == |st.sent| + 1 && r.sent == st.sent + [r.sent[|st.sent|]]
            && GreetingKept(r, env.N, r.sent[|st.sent|])
  {
    var B := ServerPublic(env.g, env.N, st.v, env.random(st.calls).b);
    assert B < env.N;
    if NumBytes(env.N) <= 32 { ResidueFits(B, env.N); }
    hide Encoding; hide NumBytes; hide ModExp; hide ServerPublic; hide Stored; hide Grows;
    ViewStores(st.B.(bn := B), 32);
    ViewStores(st.s, 0);
    SameArraysGrow(st.B, st.B.(bn := B), Greet(st, env).B);
  }

  lemma SameArraysGrow(n: Num, m: Num, n': Num)
    requires m.arrays == n.arrays && Grows(m, n')
    ensures Grows(n, n')
  {
  }

  /** A residue needs no more bytes than the modulus. */
  lemma ResidueFits(x: nat, n: nat)
    requires x < n && NumBytes(n) <= 32
    ensures NumBytes(x) <= 32
  {
    FitsIff(n, 32);
    FitsIff(x, 32);
  }

  lemma KeyLogs(st: Session, env: Env, A: nat)
    requires st.Valid()
    ensures var r := SetKey(st, env, A);
            r == st.(B := r.B, K := r.K) && Grows(st.B, r.B) && r.K.arrays == st.K.arrays
  {
    hide Encoding; hide Minimal; hide NumBytes; hide Value; hide ServerSecret; hide Shared; hide Interleave;
    ViewStores(st.B, 0);
  }

  lemma JudgeLogs(st: Session, env: Env, A: nat, M1: seq<Byte>, at: nat)
    requires st.Valid()
    ensures var r, k := Judge(st, env, A, M1, at), Prove(st, env, A, M1, at).0;
            && ArraysGrow(st, r) && r.checks == st.checks + [k] && CheckKept(r, k)
            && r.K.arrays == st.K.arrays[|k.K| := k.K]
            && |r.sent| == |st.sent| + 1 && r.sent == st.sent + [r.sent[|st.sent|]]
            && !r.sent[|st.sent|].ChallengeReply?
  {
    hide View; hide Value; hide Compared; hide ServerInput; hide Minimal; hide Stored; hide Grows;
    ViewStores(st.s, 0);
    ViewStores(st.B, 0);
    ViewStores(st.K, 0);
  }

  lemma ChallengeLogs(st: Session, env: Env)
    requires st.Valid()
    ensures Logs(st, ChallengeStep(st, env).0, env.N)
  {
    hide Greet; hide Value; hide UpTo; hide Verifier; hide GreetingKept;
    if ChallengeStep(st, env).1 {
      var remaining := Value(st.inbuf[2..4]);
      var buf := st.inbuf[..4 + remaining] + [0];
      var st1 := st.Take(4).Take(remaining).(login := UpTo(buf[34..], 0), build := Value(buf[11..13]));
      VerifierLogs(st1, env);
      GreetLogs(Verifier(st1, env), env);
    }
  }

  lemma ProofLogs(st: Session, env: Env)
    requires st.Valid()
    ensures Logs(st, ProofStep(st, env).0, env.N)
  {
    hide Value; hide SetKey; hide Judge; hide Prove; hide CheckKept; hide GreetingKept;
    if |st.inbuf| >= 75 && Value(st.inbuf[1..33]) != 0 {
      var A, M1, st1 := Value(st.inbuf[1..33]), st.inbuf[33..53], st.Take(75);
      var st2 := SetKey(st1, env, A);
      KeyLogs(st1, env, A);
      JudgeLogs(st2, env, A, M1, |st.consumed|);
      NoGreeting(Judge(st2, env, A, M1, |st.consumed|), env.N, Judge(st2, env, A, M1, |st.consumed|).sent[|st.sent|]);
    }
  }

  lemma NoGreeting(st: Session, N: nat, r: Reply)
    requires !r.ChallengeReply?
    ensures GreetingKept(st, N, r)
  {
  }

  lemma DispatchKeeps(st: Session, env: Env)
    requires st.Valid() && Kept(st, env.N)
    ensures Kept(Dispatch(st, env).0, env.N)
  {
    DispatchLogs(st, env);
    hide Logs; hide Dispatch; hide Kept;
    LogsKeep(st, Dispatch(st, env).0, env.N);
  }

  lemma DispatchLogs(st: Session, env: Env)
    requires st.Valid()
    ensures Logs(st, Dispatch(st, env).0, env.N)
  {
    hide ChallengeStep; hide ProofStep; hide CheckKept;
    if st.inbuf != [] {
      if st.inbuf[0] == 0 {
        ChallengeLogs(st, env);
        OtherCalls(st, ChallengeStep(st, env).0, env.N, Dispatch(st, env).0);
      } else if st.inbuf[0] == 1 {
        ProofLogs(st, env);
        OtherCalls(st, ProofStep(st, env).0, env.N, Dispatch(st, env).0);
      } else if Dispatch(st, env).1 {
        NoGreeting(Dispatch(st, env).0, env.N, RealmList);
      }
    }
  }

  lemma OtherCalls(st: Session, st': Session, N: nat, st'': Session)
    requires Logs(st, st', N) && st'' == st'.(calls := st''.calls)
    ensures Logs(st, st'', N)
  {
    if st'.sent != st.sent {
      var r :| st'.sent == st.sent + [r] && GreetingKept(st', N, r);
      assert GreetingKept(st'', N, r);
    }
    if st'.checks != st.checks {
      var k :| st'.checks == st.checks + [k] && CheckKept(st', k) && st'.K.arrays == st.K.arrays[|k.K| := k.K];
      assert CheckKept(st'', k);
    }
  }

  lemma {:induction false} OnReadKeeps(st: Session, env: Env)
    requires st.Valid() && Kept(st, env.N)
    ensures Kept(OnRead(st, env), env.N)
    decreases |st.inbuf|
  {
    hide Dispatch; hide Kept;
    DispatchKeeps(st, env);
    if Dispatch(st, env).1 { OnReadKeeps(Dispatch(st, env).0, env); }
  }

  /** Whatever arrives. */
  lemma {:induction false} RunKeeps(st: Session, env: Env, chunks: seq<seq<Byte>>)
    requires st.Valid() && Kept(st, env.N)
    ensures Kept(Run(st, env, chunks), env.N)
    decreases chunks
  {
    hide OnRead; hide Kept;
    if chunks != [] {
      if !st.closed {
        BufferedKeeps(st, env.N, chunks[0]);
        OnReadKeeps(st.(inbuf := st.inbuf + chunks[0]), env);
      }
      RunKeeps(Receive(st, env, chunks[0]), env, chunks[1..]);
    }
  }

  lemma BufferedKeeps(st: Session, N: nat, chunk: seq<Byte>)
    requires Kept(st, N)
    ensures Kept(st.(inbuf := st.inbuf + chunk), N)
  {
    var st' := st.(inbuf := st.inbuf + chunk);
    forall j | 0 <= j < |st'.sent| ensures GreetingKept(st', N, st'.sent[j]) {
      assert GreetingKept(st, N, st.sent[j]);
    }
    forall i | 0 <= i < |st'.checks| ensures CheckKept(st', st'.checks[i]) { assert CheckKept(st, st.checks[i]); }
  }

  /** Whatever arrives on a connection, all its greetings carry one public number, the first, and those with salts
      of one length carry one salt. */
  lemma OneGreeting(env: Env, chunks: seq<seq<Byte>>, i: nat, j: nat)
    requires var sent := Run(Start, env, chunks).sent;
             i < |sent| && j < |sent| && sent[i].ChallengeReply? && sent[j].ChallengeReply?
    ensures var sent := Run(Start, env, chunks).sent;
            && (|sent[i].pub| == |sent[j].pub| ==> sent[i].pub == sent[j].pub)
            && (NumBytes(env.N) <= 32 ==> sent[i].pub == sent[j].pub)
            && (|sent[i].salt| == |sent[j].salt| ==> sent[i].salt == sent[j].salt)
  {
    RunKeeps(Start, env, chunks);
    hide Run;
    var st := Run(Start, env, chunks);
    assert GreetingKept(st, env.N, st.sent[i]) && GreetingKept(st, env.N, st.sent[j]);
  }

  /** Nor do the comparisons ever see a second session key, salt or public number of one length: after a proof made with
      one key every later proof on the connection is judged with that key. */
  lemma OneKey(env: Env, chunks: seq<seq<Byte>>, i: nat, j: nat)
    requires var checks := Run(Start, env, chunks).checks; i < |checks| && j < |checks|
    ensures var checks := Run(Start, env, chunks).checks;
            && (|checks[i].K| == |checks[j].K| ==> checks[i].K == checks[j].K)
            && (|checks[i].s| == |checks[j].s| ==> checks[i].s == checks[j].s)
            && (|checks[i].B| == |checks[j].B| ==> checks[i].B == checks[j].B)
  {
    RunKeeps(Start, env, chunks);
    hide Run;
    var st := Run(Start, env, chunks);
    assert CheckKept(st, st.checks[i]) && CheckKept(st, st.checks[j]);
  }

  // ----- two challenges -----

  /** What a view hands out: the array that is there, or a new one. */
  function Handed(n: Num, bn: nat, minSize: nat): seq<Byte> { View(n.(bn := bn), minSize, true).0 }

  lemma SaltOfVerifier(st: Session, env: Env)
    requires st.Valid()
    ensures var r := Verifier(st, env); var row := env.account(st.calls);
            && r == st.(s := r.s, v := r.v)
            && r.s.bn == (if row.stored.Some? then row.stored.value.1 else env.random(st.calls).s)
            && (row.stored.Some? ==> r.v == row.stored.value.0)
            && var salt := Handed(st.s, r.s.bn, 0);
               View(r.s, 0, true) == (salt, r.s.(arrays := st.s.arrays[|salt| := salt]))
  {
    hide Encoding; hide NumBytes; hide ModExp; hide PrivateKey;
    ViewStores(st.s.(bn := env.random(st.calls).s), 0);
    ViewStores(st.s.(bn := Verifier(st, env).s.bn), 0);
  }

  lemma GreetingOf(st: Session, env: Env)
    requires st.Valid()
    ensures var r := Greet(st, env); var n := |st.sent|;
            && r.v == st.v && r.closed == st.closed && r.s.bn == st.s.bn
            && r.B.bn == ServerPublic(env.g, env.N, st.v, env.random(st.calls).b)
            && |r.sent| == n + 1 && r.sent[..n] == st.sent && r.sent[n].ChallengeReply?
            && r.sent[n].pub == Handed(st.B, r.B.bn, 32) && r.sent[n].salt == View(st.s, 0, true).0
            && r.B.arrays == st.B.arrays[|r.sent[n].pub| := r.sent[n].pub] && r.s == View(st.s, 0, true).1
  {
    hide Encoding; hide NumBytes; hide ModExp; hide ServerPublic;
    ViewStores(st.B.(bn := ServerPublic(env.g, env.N, st.v, env.random(st.calls).b)), 32);
    ViewStores(st.s, 0);
  }

  /** A whole challenge on a connection that waits for one. */
  lemma GreetingAfter(st: Session, env: Env, c: seq<Byte>)
    requires st.Valid() && st.inbuf == [] && !st.closed && WholeChallenge(c)
    ensures var r := Receive(st, env, c); var n := |st.sent|; var row := env.account(st.calls);
            && r.Valid() && r.inbuf == [] && !r.closed && r.calls == st.calls + 1
            && r.B.bn == ServerPublic(env.g, env.N, r.v, env.random(st.calls).b)
            && |r.sent| == n + 1 && r.sent[..n] == st.sent && r.sent[n].ChallengeReply?
            && r.sent[n].pub == Handed(st.B, r.B.bn, 32) && r.sent[n].salt == Handed(st.s, r.s.bn, 0)
            && r.B.arrays == st.B.arrays[|r.sent[n].pub| := r.sent[n].pub]
            && r.s.arrays == st.s.arrays[|r.sent[n].salt| := r.sent[n].salt]
            && (row.stored.Some? ==> r.v == row.stored.value.0 && r.s.bn == row.stored.value.1)
  {
    hide Verifier; hide Greet; hide Encoding; hide Receive; hide ServerPublic; hide NumBytes; hide UpTo; hide Value;
    hide Handed; hide View; hide Stored;
    var st0 := Parsed(st, c);
    SaltOfVerifier(st0, env);
    ChallengeIsRead(st, env, c);
    GreetingOf(Verifier(st0, env), env);
  }

  /** So the greeting of a second challenge has the public number of the first, and its salt if the two have one
      length.  It is right just when the two public numbers, each shifted by its padding, agree, and
      the salts are equal or of different lengths. */
  lemma SecondGreetingIff(env: Env, c1: seq<Byte>, c2: seq<Byte>)
    requires WholeChallenge(c1) && WholeChallenge(c2) && NumBytes(env.N) <= 32
    ensures var st1 := Receive(Start, env, c1); var st2 := Run(Start, env, [c1, c2]);
            var B1, B2, s1, s2 := st1.B.bn, st2.B.bn, st1.s.bn, st2.s.bn;
            && NumBytes(B1) <= 32 && NumBytes(B2) <= 32
            && B1 == ServerPublic(env.g, env.N, st1.v, env.random(0).b)
            && B2 == ServerPublic(env.g, env.N, st2.v, env.random(1).b)
            && |st2.sent| == 2 && st2.sent[1].ChallengeReply? && st2.sent[1].pub == Encoding(B1, 32, true)
            && st2.sent[1].salt == (if NumBytes(s1) == NumBytes(s2) then Minimal(s1) else Minimal(s2))
            && (st2.sent[1].pub == Encoding(B2, 32, true) && st2.sent[1].salt == Minimal(s2)
                <==> Pow256(32 - NumBytes(B1)) * B1 == Pow256(32 - NumBytes(B2)) * B2
                     && (NumBytes(s1) == NumBytes(s2) ==> s1 == s2))
  {
    hide Receive; hide ServerPublic; hide Encoding; hide NumBytes; hide Pow256; hide Run; hide WholeChallenge;
    hide Minimal;
    var st1 := Receive(Start, env, c1);
    GreetingAfter(Start, env, c1);
    GreetingAfter(st1, env, c2);
    RunTwo(Start, env, c1, c2);
    var st2 := Receive(st1, env, c2);
    PublicOfTwo(env, st1.v, env.random(0).b, st2.v, env.random(1).b, st1.B.arrays);
    SaltsOfTwo(st1.s.bn, st2.s.bn, st1.s.arrays);
    SameArrayIff(st1.B.bn, st2.B.bn, 32);
  }

  lemma PublicOfTwo(env: Env, v1: nat, b1: nat, v2: nat, b2: nat, arrays: map<nat, seq<Byte>>)
    requires NumBytes(env.N) <= 32
    requires var B1 := ServerPublic(env.g, env.N, v1, b1);
             arrays == map[|Handed(Start.B, B1, 32)| := Handed(Start.B, B1, 32)]
    ensures var B1, B2 := ServerPublic(env.g, env.N, v1, b1), ServerPublic(env.g, env.N, v2, b2);
            && NumBytes(B1) <= 32 && NumBytes(B2) <= 32
            && Handed(Num(B1, arrays), B2, 32) == Encoding(B1, 32, true)
  {
    hide Encoding; hide ModExp; hide NumBytes;
    var B1, B2 := ServerPublic(env.g, env.N, v1, b1), ServerPublic(env.g, env.N, v2, b2);
    ResidueFits(B1, env.N);
    ResidueFits(B2, env.N);
  }

  lemma SaltsOfTwo(s1: nat, s2: nat, arrays: map<nat, seq<Byte>>)
    requires arrays == map[|Handed(Start.s, s1, 0)| := Handed(Start.s, s1, 0)]
    ensures Handed(Num(s1, arrays), s2, 0) == if NumBytes(s1) == NumBytes(s2) then Minimal(s1) else Minimal(s2)
    ensures Minimal(s1) == Minimal(s2) <==> s1 == s2
  {
    assert Encoding(s1, 0, true) == Minimal(s1) && Encoding(s2, 0, true) == Minimal(s2);
    hide Encoding; hide Minimal;
    ValueOfMinimal(s1);
    ValueOfMinimal(s2);
  }

  /** Two accounts with verifiers v and w and salts s and t, and a server that draws `b` both times. */
  function TwoAccounts(b: nat, v: nat, w: nat, s: nat, t: nat): Env
  {
    var d: Digest := seq(20, i => 0 as Byte);
    Env(z => d, N_VALUE, G_VALUE, i => Account(0, Some(if i == 0 then (v, s) else (w, t)), true),
        i => Random(0, b, 0), i => d)
  }

  /** In the source's group, whatever secret the server draws, and even if it draws it twice: there are two
      accounts for which the second greeting has a wrong number. */
  lemma SecondGreetingIsWrong(b: nat, c1: seq<Byte>, c2: seq<Byte>) returns (v: nat)
    requires WholeChallenge(c1) && WholeChallenge(c2)
    ensures var env := TwoAccounts(b, v, v + 1, 0, 0); var st := Run(Start, env, [c1, c2]);
            |st.sent| == 2 && st.sent[1].ChallengeReply? && st.sent[1].pub != Encoding(st.B.bn, 32, true)
  {
    hide Receive; hide Run; hide ModExp; hide Encoding; hide WholeChallenge; hide NumBytes; hide Pow256; hide Minimal;
    var n: nat := N_VALUE;
    var y := ModExp(G_VALUE, b, n);
    var c: nat := (y - 2 * n) % 3;
    v := (2 * n - y + c) / 3;
    var env := TwoAccounts(b, v, v + 1, 0, 0);
    SourceGroup();
    SecondGreetingIff(env, c1, c2);
    TwoRows(env, c1, c2);
    TwoNumbers(n, y, c, v);
    ShiftedDiffer(c);
  }

  /** And for two accounts with one verifier the second greeting has a wrong salt as soon as their salts differ and have
      one length. */
  lemma SecondSaltIsWrong(b: nat, v: nat, s: nat, t: nat, c1: seq<Byte>, c2: seq<Byte>)
    requires WholeChallenge(c1) && WholeChallenge(c2) && s != t && NumBytes(s) == NumBytes(t)
    ensures var env := TwoAccounts(b, v, v, s, t); var st := Run(Start, env, [c1, c2]);
            && |st.sent| == 2 && st.sent[1].ChallengeReply? && st.sent[1].pub == Encoding(st.B.bn, 32, true)
            && st.s.bn == t && st.sent[1].salt == Minimal(s) != Minimal(t)
  {
    hide Receive; hide Run; hide ModExp; hide Encoding; hide WholeChallenge; hide NumBytes; hide Pow256; hide Minimal;
    var env := TwoAccounts(b, v, v, s, t);
    SourceGroup();
    SecondGreetingIff(env, c1, c2);
    TwoRows(env, c1, c2);
    ValueOfMinimal(s);
    ValueOfMinimal(t);
  }

  /** Verifier and salt come from the rows. */
  lemma TwoRows(env: Env, c1: seq<Byte>, c2: seq<Byte>)
    requires WholeChallenge(c1) && WholeChallenge(c2)
    requires env.account(0).stored.Some? && env.account(1).stored.Some?
    ensures var st := Receive(Start, env, c1); (st.v, st.s.bn) == env.account(0).stored.value
    ensures var st := Run(Start, env, [c1, c2]); (st.v, st.s.bn) == env.account(1).stored.value
  {
    hide Receive; hide ServerPublic; hide Encoding; hide NumBytes; hide Run; hide WholeChallenge; hide Handed;
    GreetingAfter(Start, env, c1);
    GreetingAfter(Receive(Start, env, c1), env, c2);
    RunTwo(Start, env, c1, c2);
  }

  /** Verifiers chosen so that the public numbers are c and c + 3. */
  lemma TwoNumbers(n: nat, y: nat, c: nat, v: nat)
    requires n > 6 && y < n && c == (y - 2 * n) % 3 && v == (2 * n - y + c) / 3
    ensures c < 3 && (v * 3 + y) % n == c && ((v + 1) * 3 + y) % n == c + 3
  {
    assert v * 3 + y == n * 2 + c;
    ResidueIs(v * 3 + y, n, 2, c);
    ResidueIs((v + 1) * 3 + y, n, 2, c + 3);
  }

  lemma ShiftedDiffer(c: nat)
    requires c < 3
    ensures NumBytes(c) <= 1 && NumBytes(c + 3) == 1
    ensures Pow256(32 - NumBytes(c)) * c != Pow256(32 - NumBytes(c + 3)) * (c + 3)
  {
    Pow256Values();
    FitsIff(c, 0);
    FitsIff(c, 1);
    FitsIff(c + 3, 0);
    FitsIff(c + 3, 1);
    if c == 0 {
      assert Pow256(32) * 0 == 0;
    } else {
      StrictlyScale(Pow256(31), c, c + 3);
    }
  }
}
