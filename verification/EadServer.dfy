/** The session of the ead server: parse_message, the handlers of the message
    types, and set_state. What the password file, the SRP library, decryption
    and the command give is part of each packet of the model. */
module EadServer {

  const PING: int := 0
  const SET_USERNAME: int := 2
  const GET_PRIME: int := 4
  const SEND_A: int := 6
  const SEND_AUTH: int := 8
  const SEND_CMD: int := 10

  // the header fields read by parse_message, and the answers of the libraries
  datatype Packet = Packet(kind: int, instance: nat, captured: nat, msgLen: nat, answers: Answers)

  datatype Answers = Answers(
    passwordFound: bool, opens: bool,   // prepare_password, t_serveropenraw
    keyFound: bool, verified: bool,      // t_servergetkey, t_serververify
    plain: int, cmdKind: int,            // ead_decrypt_message, the type of the command
    started: bool, finished: bool)       // the command was started, and ended in time

  // Sessions of the SRP library are numbered; 0 is none. b and key belong to a
  // session, and verified holds the sessions whose client was verified.
  datatype Server = Server(id: nat, state: int, ts: nat, sessions: nat, b: nat, key: nat, verified: set<nat>)

  // what came of a packet: the type of the reply, and the session for which a command was started
  datatype Outcome = Outcome(reply: Reply, ran: Reply)

  datatype Reply = Nothing | Sent(value: int)

  // sizeof(struct ead_packet), and of the parts each type needs
  const PACKET: nat := 62
  const MAXPARAMLEN: nat := 256

  function MinLength(kind: int): nat {
    if kind == SET_USERNAME then PACKET + 32
    else if kind == SEND_A then PACKET + 1
    else if kind == SEND_AUTH then PACKET + 20
    else if kind == SEND_CMD then PACKET + 3 + 25
    else PACKET
  }

  // a length as an int of 32 bits
  function AsInt(x: int): int {
    var u := x % 0x1_0000_0000;
    if u < 0x8000_0000 then u else u - 0x1_0000_0000
  }

  predicate Handled(s: Server, p: Packet) {
    && (p.kind >= GET_PRIME ==> s.state == p.kind)
    && (p.kind != PING ==> p.instance == s.id)
    && p.kind in {PING, SET_USERNAME, GET_PRIME, SEND_A, SEND_AUTH, SEND_CMD}
    && p.captured >= MinLength(p.kind)
  }

  function SetState(s: Server, next: int, a: Answers): Server {
    if next == s.state then s
    else if next < s.state then
      if next < GET_PRIME && s.state >= GET_PRIME then s.(ts := 0, state := next) else s.(state := next)
    else if s.state == SET_USERNAME then
      if !a.passwordFound then s
      else if !a.opens then s.(ts := 0)
      else s.(sessions := s.sessions + 1, ts := s.sessions + 1, state := next)
    else if s.state == GET_PRIME then s.(b := s.ts, state := next)
    else if s.state == SEND_A then
      if !a.keyFound then s else s.(key := s.ts, state := next)
    else s.(state := next)
  }

  // a command is started
  predicate Runs(a: Answers) {
    a.plain - 3 > 0 && (a.cmdKind == 0 || a.cmdKind == 1) && a.started
  }

  function Handle(s: Server, p: Packet): (Server, Outcome) {
    var a := p.answers;
    if !Handled(s, p) then (s, Outcome(Nothing, Nothing))
    else if p.kind == PING then (s, Outcome(Sent(PING + 1), Nothing))
    else if p.kind == SET_USERNAME then
      (SetState(SetState(s, SET_USERNAME, a), GET_PRIME, a), Outcome(Sent(SET_USERNAME + 1), Nothing))
    else if p.kind == GET_PRIME then (SetState(s, SEND_A, a), Outcome(Sent(GET_PRIME + 1), Nothing))
    else if p.kind == SEND_A then
      if AsInt(p.msgLen - 1) > MAXPARAMLEN + 1 then (s, Outcome(Nothing, Nothing))
      else (SetState(s, SEND_AUTH, a), Outcome(Sent(SEND_A + 1), Nothing))
    else if p.kind == SEND_AUTH then
      if a.verified then
        (SetState(s.(verified := s.verified + {s.ts}), SEND_CMD, a), Outcome(Sent(SEND_AUTH + 1), Nothing))
      else (SetState(s, SET_USERNAME, a), Outcome(Nothing, Nothing))
    else if !Runs(a) then (s, Outcome(Nothing, Nothing))
    else (s, Outcome(if a.cmdKind == 1 || a.finished then Sent(SEND_CMD + 1) else Nothing, Sent(s.ts)))
  }

  // The library is never used without what it needs, and the state says how
  // far the session has come.
  ghost predicate Sound(s: Server) {
    && s.state in {SET_USERNAME, GET_PRIME, SEND_A, SEND_AUTH, SEND_CMD}
    && (s.state >= GET_PRIME <==> s.ts != 0) && s.ts <= s.sessions
    && (s.state >= SEND_A ==> s.b == s.ts)
    && (s.state >= SEND_AUTH ==> s.key == s.ts)
    && (s.state >= SEND_CMD ==> s.ts in s.verified)
    && forall v | v in s.verified :: 0 < v <= s.sessions
  }

  // Every packet keeps this. A command runs only for a verified session whose key is in use.
  lemma HandleKeeps(s: Server, p: Packet)
    requires Sound(s)
    ensures var (s', o) := Handle(s, p);
      && Sound(s')
      && (o.ran.Sent? ==> o.ran.value == s.ts != 0 && s.ts in s.verified && s.key == s.ts && s.b == s.ts && p.kind == SEND_CMD)
      && (o.reply.Sent? ==> Handled(s, p) && o.reply.value == p.kind + 1)
  {
  }

  class Session {
    const id: nat
    var state: int
    var ts: nat
    var sessions: nat
    var b: nat
    var key: nat
    ghost var verified: set<nat>

    ghost function Value(): Server
      reads this
    {
      Server(id, state, ts, sessions, b, key, verified)
    }

    constructor (id: nat)
      ensures Sound(Value()) && Value() == Server(id, SET_USERNAME, 0, 0, 0, 0, {})
    {
      this.id := id;
      state, ts, sessions, b, key, verified := SET_USERNAME, 0, 0, 0, 0, {};
    }

    method DoSetState(next: int, a: Answers)
      modifies this
      ensures Value() == SetState(old(Value()), next, a)
    {
      if state == next {
        return;
      }
      if next < state {
        if next < GET_PRIME && state >= GET_PRIME {
          ts := 0;
        }
        state := next;
        return;
      }
      if state == SET_USERNAME {
        if !a.passwordFound {
          return;
        }
        if !a.opens {
          ts := 0;
          return;
        }
        sessions := sessions + 1;
        ts := sessions;
      } else if state == GET_PRIME {
        b := ts;
      } else if state == SEND_A {
        if !a.keyFound {
          return;
        }
        key := ts;
      }
      state := next;
    }

    method ParseMessage(p: Packet) returns (o: Outcome)
      requires Sound(Value())
      modifies this
      ensures (Value(), o) == Handle(old(Value()), p) && Sound(Value())
    {
      HandleKeeps(Value(), p);
      hide Sound, SetState, AsInt;
      o := Outcome(Nothing, Nothing);
      var next := state;
      if p.kind >= GET_PRIME && state != p.kind {
        return;
      }
      if p.kind != PING && p.instance != id {
        return;
      }
      if p.kind !in {PING, SET_USERNAME, GET_PRIME, SEND_A, SEND_AUTH, SEND_CMD} || p.captured < MinLength(p.kind) {
        return;
      }
      var ok := true;
      if p.kind == SET_USERNAME {
        DoSetState(SET_USERNAME, p.answers);
        next := GET_PRIME;
      } else if p.kind == GET_PRIME {
        next := SEND_A;
      } else if p.kind == SEND_A {
        ok := AsInt(p.msgLen - 1) <= MAXPARAMLEN + 1;
        next := if ok then SEND_AUTH else next;
      } else if p.kind == SEND_AUTH {
        ok := p.answers.verified;
        next := if ok then SEND_CMD else SET_USERNAME;
        if ok {
          verified := verified + {ts};
        }
      } else if p.kind == SEND_CMD {
        ok := Runs(p.answers) && (p.answers.cmdKind == 1 || p.answers.finished);
        if Runs(p.answers) {
          o := o.(ran := Sent(ts));
        }
      }
      if ok {
        o := o.(reply := Sent(p.kind + 1));
      }
      StateSame(Value(), p.answers);
      DoSetState(next, p.answers);
    }
  }

  lemma StateSame(s: Server, a: Answers)
    ensures SetState(s, s.state, a) == s
  {
  }

  // ----- runs -----

  ghost function After(s: Server, packets: seq<Packet>): Server {
    if packets == [] then s
    else Handle(After(s, packets[..|packets| - 1]), packets[|packets| - 1]).0
  }

  // the packet at i was handled and had this type
  ghost predicate Was(s: Server, packets: seq<Packet>, i: nat, kind: int) {
    i < |packets| && packets[i].kind == kind && Handled(After(s, packets[..i]), packets[i])
  }

  // no user name was accepted after i
  ghost predicate SameUser(s: Server, packets: seq<Packet>, i: nat) {
    forall m | i < m < |packets| :: !Was(s, packets, m, SET_USERNAME)
  }

  // the positions of the packets of the current session
  datatype Steps = Steps(user: nat, prime: nat, a: nat, auth: nat)

  ghost predicate Reached(s: Server, packets: seq<Packet>, state: int, k: Steps) {
    && (state >= GET_PRIME ==> Was(s, packets, k.user, SET_USERNAME) && packets[k.user].answers.passwordFound)
    && (state >= GET_PRIME ==> SameUser(s, packets, k.user))
    && (state >= SEND_A ==> k.user < k.prime && Was(s, packets, k.prime, GET_PRIME))
    && (state >= SEND_AUTH ==> k.prime < k.a && Was(s, packets, k.a, SEND_A) && packets[k.a].answers.keyFound)
    && (state >= SEND_CMD ==> k.a < k.auth && Was(s, packets, k.auth, SEND_AUTH) && packets[k.auth].answers.verified)
  }

  lemma {:induction false} RunReached(s: Server, packets: seq<Packet>) returns (k: Steps)
    requires Sound(s) && s.state == SET_USERNAME
    ensures Sound(After(s, packets)) && Reached(s, packets, After(s, packets).state, k)
    decreases |packets|
  {
    hide Sound, Handled;
    if packets == [] {
      k := Steps(0, 0, 0, 0);
    } else {
      var n := |packets| - 1;
      var before, p := packets[..n], packets[n];
      k := RunReached(s, before);
      var s1, s2 := After(s, before), After(s, packets);
      HandleKeeps(s1, p);
      StateSteps(s1, p);
      JustWas(s, packets);
      if Handled(s1, p) && p.kind == SET_USERNAME {
        k := k.(user := n);
      } else {
        ReachedKept(s, packets, s1.state, k);
        if s2.state == s1.state + 2 {
          k := if s1.state == GET_PRIME then k.(prime := n) else if s1.state == SEND_A then k.(a := n) else k.(auth := n);
        }
      }
    }
  }

  lemma JustWas(s: Server, packets: seq<Packet>)
    requires packets != []
    ensures var n := |packets| - 1;
      Was(s, packets, n, packets[n].kind) == Handled(After(s, packets[..n]), packets[n]) && SameUser(s, packets, n)
  {
  }

  // another packet, not a user name, changes nothing about those before it
  lemma ReachedKept(s: Server, packets: seq<Packet>, state: int, k: Steps)
    requires packets != [] && Reached(s, packets[..|packets| - 1], state, k)
    requires var n := |packets| - 1;
      !(Handled(After(s, packets[..n]), packets[n]) && packets[n].kind == SET_USERNAME)
    ensures Reached(s, packets, state, k)
  {
    hide After, Handled;
    var n := |packets| - 1;
    var before := packets[..n];
    forall i, kind | 0 <= i < n
      ensures Was(s, before, i, kind) == Was(s, packets, i, kind)
    {
      assert before[..i] == packets[..i];
    }
  }

  // how one packet can change the state
  lemma StateSteps(s: Server, p: Packet)
    requires Sound(s)
    ensures var s' := Handle(s, p).0;
      if Handled(s, p) && p.kind == SET_USERNAME then
        s'.state == SET_USERNAME || (s'.state == GET_PRIME && p.answers.passwordFound)
      else
        || s'.state == s.state || s'.state == SET_USERNAME
        || (Handled(s, p) && p.kind == s.state && s'.state == s.state + 2
          && (s.state == GET_PRIME || (s.state == SEND_A && p.answers.keyFound) || (s.state == SEND_AUTH && p.answers.verified)))
  {
  }

  // In every run a command is started only after a user name, a prime, a
  // public key and a verified proof were exchanged in this order, with no
  // other user name since.
  lemma CommandsAreAuthenticated(s: Server, packets: seq<Packet>, p: Packet) returns (k: Steps)
    requires Sound(s) && s.state == SET_USERNAME
    requires Handle(After(s, packets), p).1.ran.Sent?
    ensures k.user < k.prime < k.a < k.auth < |packets|
    ensures Was(s, packets, k.user, SET_USERNAME) && SameUser(s, packets, k.user)
    ensures Was(s, packets, k.prime, GET_PRIME) && Was(s, packets, k.a, SEND_A)
    ensures Was(s, packets, k.auth, SEND_AUTH) && packets[k.auth].answers.verified
  {
    k := RunReached(s, packets);
    HandleKeeps(After(s, packets), p);
  }

  // ----- what each packet does -----

  // A packet for another instance, out of its turn, of no known type or too
  // short is passed over.
  lemma Refused(s: Server, p: Packet)
    requires
      || (p.kind != 0 && p.instance != s.id)
      || (p.kind >= 4 && p.kind != s.state)
      || p.kind !in {0, 2, 4, 6, 8, 10}
      || p.captured < 62
      || (p.kind == 2 && p.captured < 94) || (p.kind == 6 && p.captured < 63)
      || (p.kind == 8 && p.captured < 82) || (p.kind == 10 && p.captured < 90)
    ensures Handle(s, p) == (s, Outcome(Nothing, Nothing))
  {
  }

  // a packet for this server that is long enough
  predicate Proper(s: Server, p: Packet, kind: int, length: nat) {
    p.kind == kind && p.instance == s.id && p.captured >= length
  }

  // From any state, a user with a password that gives the right answers in turn
  // is answered each time, and gets the command started, in a session of its own.
  lemma HonestSession(s: Server, user: Packet, prime: Packet, a: Packet, auth: Packet, cmd: Packet)
    requires Sound(s)
    requires Proper(s, user, 2, 94) && user.answers.passwordFound && user.answers.opens
    requires Proper(s, prime, 4, 62)
    requires Proper(s, a, 6, 63) && 1 <= a.msgLen <= 258 && a.answers.keyFound
    requires Proper(s, auth, 8, 82) && auth.answers.verified
    requires Proper(s, cmd, 10, 90) && cmd.answers.plain > 3 && cmd.answers.cmdKind in {0, 1} && cmd.answers.started
    ensures var (s1, o1) := Handle(s, user);
      var (s2, o2) := Handle(s1, prime);
      var (s3, o3) := Handle(s2, a);
      var (s4, o4) := Handle(s3, auth);
      var (s5, o5) := Handle(s4, cmd);
      && o1.reply == Sent(3) && o2.reply == Sent(5) && o3.reply == Sent(7) && o4.reply == Sent(9)
      && o5.ran == Sent(s.sessions + 1) && s5 == s4
      && (o5.reply == Sent(11) <==> cmd.answers.cmdKind == 1 || cmd.answers.finished)
  {
    assert a.msgLen - 1 >= 0 && (a.msgLen - 1) % 0x1_0000_0000 == a.msgLen - 1;
  }

  // What keeps a session from going on: without password, library session or
  // key the state stays behind, and a wrong proof ends the session.
  lemma FailedSession(s: Server, p: Packet)
    requires Sound(s)
    ensures Proper(s, p, 2, 94) && !(p.answers.passwordFound && p.answers.opens) ==> Handle(s, p).0.state == 2 && Handle(s, p).0.ts == 0
    ensures s.state == 6 && Proper(s, p, 6, 63) && !p.answers.keyFound ==> Handle(s, p).0 == s
    ensures s.state == 6 && Proper(s, p, 6, 63) && 258 < p.msgLen <= 0x8000_0000 ==> Handle(s, p) == (s, Outcome(Nothing, Nothing))
    ensures s.state == 8 && Proper(s, p, 8, 82) && !p.answers.verified ==>
      Handle(s, p).0.state == 2 && Handle(s, p).0.ts == 0 && Handle(s, p).1 == Outcome(Nothing, Nothing)
    ensures s.state == 10 && Proper(s, p, 10, 90) && (p.answers.plain <= 3 || p.answers.cmdKind !in {0, 1} || !p.answers.started) ==>
      Handle(s, p) == (s, Outcome(Nothing, Nothing))
  {
    assert p.msgLen > 258 && p.msgLen <= 0x8000_0000 ==> (p.msgLen - 1) % 0x1_0000_0000 == p.msgLen - 1;
  }

  // a ping is answered in every state, whoever it names
  lemma PingAnswered(s: Server, p: Packet)
    requires p.kind == 0 && p.captured >= 62
    ensures Handle(s, p) == (s, Outcome(Sent(1), Nothing))
  {
  }
}
