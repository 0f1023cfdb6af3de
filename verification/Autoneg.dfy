/** Auto-negotiation of a fibre link: the state machine of section 37.3.1.5 of
    IEEE 802.3z as Autoneg8023z steps it, once for every poll of the receiver. */
module Autoneg {

  type U32 = x: int | 0 <= x < 0x1_0000_0000

  const LINK_TIMER: int := 12000

  datatype State =
    | Unknown | AnEnable | RestartInit | Restart | DisableLinkOk
    | AbilityDetectInit | AbilityDetect | AckDetectInit | AckDetect
    | CompleteAckInit | CompleteAck | IdleDetectInit | IdleDetect | LinkOk
    | NextPageWaitInit | NextPageWait | Other

  datatype Status = Ok | Done | TimerEnabled | Failed

  // an advertisement register
  datatype Ability = Ability(fd: bool, hd: bool, ps1: bool, ps2: bool, rf1: bool, rf2: bool, np: bool)

  // a 16-bit config word
  type Word = w: int | 0 <= w < 0x1_0000

  // the bits of a config word; D0 to D4 and D9 to D11 must be zero
  predicate IsPs2(w: Word) { w % 2 == 1 }
  predicate IsRf1(w: Word) { w / 0x10 % 2 == 1 }
  predicate IsRf2(w: Word) { w / 0x20 % 2 == 1 }
  predicate IsAck(w: Word) { w / 0x40 % 2 == 1 }
  predicate IsNp(w: Word) { w / 0x80 % 2 == 1 }
  predicate IsFd(w: Word) { w / 0x2000 % 2 == 1 }
  predicate IsHd(w: Word) { w / 0x4000 % 2 == 1 }
  predicate IsPs1(w: Word) { w / 0x8000 % 2 == 1 }
  predicate IsD11(w: Word) { w / 8 % 2 == 1 }
  predicate Invalid(w: Word) { w / 2 % 8 != 0 || w / 0x100 % 0x20 != 0 }

  function Bit(weight: nat, on: bool): (r: nat)
    ensures r == if on then weight else 0
  {
    if on then weight else 0
  }

  function ConfigWord(a: Ability): Word {
    Bit(0x8000, a.ps1) + Bit(0x4000, a.hd) + Bit(0x2000, a.fd)
    + Bit(0x80, a.np) + Bit(0x20, a.rf2) + Bit(0x10, a.rf1) + Bit(1, a.ps2)
  }

  function AbilityOf(w: Word): Ability {
    Ability(IsFd(w), IsHd(w), IsPs1(w), IsPs2(w), IsRf1(w), IsRf2(w), IsNp(w))
  }

  function WithAck(w: Word): Word {
    if IsAck(w) then w else w + 0x40
  }

  function WithoutAck(w: Word): Word {
    if IsAck(w) then w - 0x40 else w
  }

  // what a partner takes from the word is what was advertised
  lemma AdvertisedIsUnderstood(a: Ability)
    ensures var w := ConfigWord(a);
      && AbilityOf(w) == a && !Invalid(w) && !IsAck(w)
      && AbilityOf(WithAck(w)) == a && !Invalid(WithAck(w)) && IsAck(WithAck(w))
  {
    hide AbilityOf, Invalid, IsAck, ConfigWord;
    var w := ConfigWord(a);
    assert w == AllBits(a, 0) && w + 0x40 == AllBits(a, 1) by { SumOfBits(a); }
    BitsRead(a, 0, w);
    BitsRead(a, 1, w + 0x40);
  }

  lemma SumOfBits(a: Ability)
    ensures ConfigWord(a) == AllBits(a, 0) && AllBits(a, 1) == AllBits(a, 0) + 0x40
  {
  }

  function AllBits(a: Ability, ack: nat): nat {
    0x8000 * Bit(1, a.ps1) + 0x4000 * Bit(1, a.hd) + 0x2000 * Bit(1, a.fd)
    + 0x80 * Bit(1, a.np) + 0x40 * ack + 0x20 * Bit(1, a.rf2) + 0x10 * Bit(1, a.rf1) + Bit(1, a.ps2)
  }

  lemma BitsRead(a: Ability, ack: nat, w: Word)
    requires ack <= 1 && w == AllBits(a, ack)
    ensures AbilityOf(w) == a && !Invalid(w) && IsAck(w) == (ack == 1)
  {
    hide IsPs1, IsHd, IsFd, IsNp, IsAck, IsRf2, IsRf1, IsPs2, Invalid;
    BitTests(w, Bit(1, a.ps1), Bit(1, a.hd), Bit(1, a.fd), Bit(1, a.np), ack, Bit(1, a.rf2), Bit(1, a.rf1), Bit(1, a.ps2));
  }

  lemma BitTests(w: Word, p: nat, h: nat, f: nat, n: nat, ack: nat, r2: nat, r1: nat, s: nat)
    requires p <= 1 && h <= 1 && f <= 1 && n <= 1 && ack <= 1 && r2 <= 1 && r1 <= 1 && s <= 1
    requires w == 0x8000 * p + 0x4000 * h + 0x2000 * f + 0x80 * n + 0x40 * ack + 0x20 * r2 + 0x10 * r1 + s
    ensures IsPs1(w) == (p == 1) && IsHd(w) == (h == 1) && IsFd(w) == (f == 1) && IsNp(w) == (n == 1) && IsAck(w) == (ack == 1)
    ensures IsRf2(w) == (r2 == 1) && IsRf1(w) == (r1 == 1) && IsPs2(w) == (s == 1) && !Invalid(w)
  {
    hide IsPs1, IsHd, IsFd, IsNp, IsAck, IsRf2, IsRf1, IsPs2, Invalid;
    Digits(p, h, f, n, ack, r2, r1, s);
    TestHigh(w);
    TestLow(w);
  }

  lemma TestHigh(w: Word)
    ensures IsPs1(w) == (w / 0x8000 % 2 == 1) && IsHd(w) == (w / 0x4000 % 2 == 1) && IsFd(w) == (w / 0x2000 % 2 == 1)
    ensures IsNp(w) == (w / 0x80 % 2 == 1) && IsAck(w) == (w / 0x40 % 2 == 1)
  {
  }

  lemma TestLow(w: Word)
    ensures IsRf2(w) == (w / 0x20 % 2 == 1) && IsRf1(w) == (w / 0x10 % 2 == 1) && IsPs2(w) == (w % 2 == 1)
    ensures Invalid(w) == (w / 2 % 8 != 0 || w / 0x100 % 0x20 != 0)
  {
  }

  lemma Digits(p: nat, h: nat, f: nat, n: nat, ack: nat, r2: nat, r1: nat, s: nat)
    requires p <= 1 && h <= 1 && f <= 1 && n <= 1 && ack <= 1 && r2 <= 1 && r1 <= 1 && s <= 1
    ensures var w := 0x8000 * p + 0x4000 * h + 0x2000 * f + 0x80 * n + 0x40 * ack + 0x20 * r2 + 0x10 * r1 + s;
      && w / 0x8000 % 2 == p && w / 0x4000 % 2 == h && w / 0x2000 % 2 == f && w / 0x100 % 0x20 == 0
      && w / 0x80 % 2 == n && w / 0x40 % 2 == ack && w / 0x20 % 2 == r2 && w / 0x10 % 2 == r1
      && w / 2 % 8 == 0 && w % 2 == s
  {
    var top := 4 * p + 2 * h + f;
    var w := 0x2000 * top + 0x80 * n + 0x40 * ack + 0x20 * r2 + 0x10 * r1 + s;
    HighDigits(p, h, f, w);
    assert w / 0x100 == 0x20 * top;
    assert w / 0x80 == 2 * (0x20 * top) + n;
    assert w / 0x40 == 2 * (0x40 * top + n) + ack;
    assert w / 0x20 == 2 * (0x80 * top + 2 * n + ack) + r2;
    assert w / 0x10 == 2 * (0x100 * top + 4 * n + 2 * ack + r2) + r1;
    assert w / 2 == 8 * (0x200 * top + 8 * n + 4 * ack + 2 * r2 + r1);
  }

  lemma HighDigits(p: nat, h: nat, f: nat, w: nat)
    requires p <= 1 && h <= 1 && f <= 1 && 0x2000 * (4 * p + 2 * h + f) <= w < 0x2000 * (4 * p + 2 * h + f) + 0x2000
    ensures w / 0x8000 % 2 == p && w / 0x4000 % 2 == h && w / 0x2000 % 2 == f
  {
    assert w / 0x8000 == p;
    assert w / 0x4000 == 2 * p + h;
    assert w / 0x2000 == 4 * p + 2 * h + f;
  }

  // the ability, idle and acknowledge match, and the word of the last poll
  datatype Matcher = Matcher(count: U32, config: Word, ability: bool, idle: bool, ack: bool, rx: Word)

  // the management registers
  datatype Registers = Registers(enable: bool, restart: bool, complete: bool, linkOk: bool, adv: Ability, lp: Ability,
    toggleTx: bool, toggleRx: bool, npRx: bool, pageRx: bool, npLoaded: bool)

  // the word to send, the transmit register of the device, and whether it is sent
  datatype Port = Port(tx: Word, txReg: Word, sending: bool)

  datatype Info = Info(state: State, linkTime: U32, now: U32, m: Matcher, r: Registers, port: Port)

  // what the receiver reports at a poll
  datatype Rx = Idle | Config(word: Word)

  // unsigned subtraction
  function Since(now: U32, start: U32): U32 {
    (now - start) % 0x1_0000_0000
  }

  function Elapsed(s: Info): U32 {
    Since(s.now, s.linkTime)
  }

  // an unsigned counter
  function Inc(n: U32): U32 {
    (n + 1) % 0x1_0000_0000
  }

  // the match flags and counters after a poll
  function Sample(s: Info, rx: Rx): Info {
    var s := if s.state == Unknown
      then s.(m := s.m.(rx := 0, config := 0, count := 0, ability := false, idle := false, ack := false), now := 0, linkTime := 0)
      else s;
    match rx
    case Idle => s.(m := s.m.(idle := true, config := 0, count := 0, ability := false, ack := false, rx := 0))
    case Config(w) =>
      var n := Inc(s.m.count);
      if w != s.m.config then
        s.(m := s.m.(config := w, ability := false, count := 0, ack := IsAck(w), idle := false, rx := w))
      else
        s.(m := s.m.(count := n, ability := s.m.ability || n > 1, ack := IsAck(w), idle := false, rx := w))
  }

  // the transitions of the state machine
  function Next(s: Info): (Info, Status) {
    match s.state
    case Unknown => (Enable(if s.r.enable || s.r.restart then s.(now := 0, state := AnEnable) else s), Ok)
    case AnEnable => (Enable(s), Ok)
    case RestartInit => RestartInitNext(s)
    case Restart => RestartWait(s)
    case DisableLinkOk => (s, Done)
    case AbilityDetectInit => (Advertise(s), Ok)
    case AbilityDetect => (if s.m.ability && s.m.rx != 0 then s.(state := AckDetectInit) else s, Ok)
    case AckDetectInit => (AckDetectInitNext(s), Ok)
    case AckDetect => (AckWait(s), Ok)
    case CompleteAckInit => CompleteAckInitNext(s)
    case CompleteAck => CompleteAckNext(s)
    case IdleDetectInit => (s.(linkTime := s.now, port := s.port.(sending := false), state := IdleDetect), TimerEnabled)
    case IdleDetect => (IdleDetectNext(s), Ok)
    case LinkOk => (s.(r := s.r.(complete := true, linkOk := true)), Done)
    case NextPageWaitInit => (s, Ok)
    case NextPageWait => (s, Ok)
    case Other => (s, Failed)
  }

  function RestartInitNext(s: Info): (Info, Status) {
    RestartWait(s.(linkTime := s.now, r := s.r.(npLoaded := false), port := s.port.(tx := 0, txReg := 0, sending := true), state := Restart))
  }

  function Advertise(s: Info): Info {
    var w := ConfigWord(s.r.adv);
    s.(r := s.r.(toggleTx := false), port := s.port.(tx := w, txReg := w, sending := true), state := AbilityDetect)
  }

  function AckDetectInitNext(s: Info): Info {
    var w := WithAck(s.port.tx);
    AckWait(s.(port := s.port.(tx := w, txReg := w, sending := true), state := AckDetect))
  }

  function CompleteAckInitNext(s: Info): (Info, Status) {
    if Invalid(s.m.rx) then (s, Failed)
    else
      (s.(r := s.r.(lp := AbilityOf(s.m.rx), toggleTx := !s.r.toggleTx, toggleRx := IsD11(s.m.rx), npRx := IsNp(s.m.rx), pageRx := true), linkTime := s.now, state := CompleteAck), TimerEnabled)
  }

  function CompleteAckNext(s: Info): (Info, Status) {
    if s.m.ability && s.m.rx == 0 then (s.(state := AnEnable), Ok)
    else if Elapsed(s) <= LINK_TIMER then (s, Ok)
    else if !s.r.adv.np || !s.r.lp.np || (!IsNp(s.port.tx) && !s.r.npRx) then (s.(state := IdleDetectInit), Ok)
    else (s, Failed)
  }

  function IdleDetectNext(s: Info): Info {
    if s.m.ability && s.m.rx == 0 then s.(state := AnEnable)
    else if Elapsed(s) > LINK_TIMER then s.(state := LinkOk)
    else s
  }

  function Enable(s: Info): Info {
    var s := s.(r := s.r.(complete := false, pageRx := false));
    if s.r.enable then
      s.(linkTime := 0, m := s.m.(config := 0, count := 0, ability := false, idle := false, ack := false), state := RestartInit)
    else
      s.(state := DisableLinkOk)
  }

  function RestartWait(s: Info): (Info, Status) {
    if Elapsed(s) > LINK_TIMER then (s.(state := AbilityDetectInit), Ok) else (s, TimerEnabled)
  }

  function AckWait(s: Info): Info {
    if s.m.ack then s.(state := if WithoutAck(s.m.rx) == WithoutAck(s.m.config) then CompleteAckInit else AnEnable)
    else if s.m.ability && s.m.rx == 0 then s.(state := AnEnable)
    else s
  }

  // one call of Autoneg8023z at a time given by the caller
  function Step(s: Info, p: Poll): (Info, Status) {
    Next(Sample(s.(now := p.now), p.rx))
  }

  datatype Poll = Poll(now: U32, rx: Rx)

  class AutonegInfo {
    var state: State
    var linkTime: U32
    var now: U32
    var m: Matcher
    var r: Registers
    var port: Port

    ghost function Value(): Info
      reads this
    {
      Info(state, linkTime, now, m, r, port)
    }

    // AutonegInit
    constructor ()
      ensures state == Unknown && r.enable && !r.restart && !r.complete && !r.linkOk
      ensures r.adv == Ability(true, false, true, true, false, false, false)
    {
      state, linkTime, now := Unknown, 0, 0;
      m := Matcher(0, 0, false, false, false, 0);
      port := Port(0, 0, false);
      var none := Ability(false, false, false, false, false, false, false);
      r := Registers(true, false, false, false, none.(fd := true, ps1 := true, ps2 := true), none,
        false, false, false, false, false);
    }

    method AnTxConfig()
      modifies this`port
      ensures port == old(port).(txReg := old(port.tx), sending := true)
    {
      port := port.(txReg := port.tx, sending := true);
    }

    method AnTxIdle()
      modifies this`port
      ensures port == old(port).(sending := false)
    {
      port := port.(sending := false);
    }

    method Autoneg8023z(poll: Rx) returns (ret: Status)
      modifies this
      ensures (Value(), ret) == Next(Sample(old(Value()), poll))
    {
      hide Sample, Enable, RestartWait, RestartInitNext, Advertise, AckDetectInitNext, AckWait;
      hide CompleteAckInitNext, CompleteAckNext, IdleDetectNext;
      Match(poll);
      ret := Ok;
      match state {
        case Unknown =>
          if r.enable || r.restart {
            now := 0;
            state := AnEnable;
          }
          DoEnable();
        case AnEnable => DoEnable();
        case RestartInit => ret := DoRestartInit();
        case Restart => ret := DoRestart();
        case DisableLinkOk => ret := Done;
        case AbilityDetectInit => DoAdvertise();
        case AbilityDetect =>
          if m.ability && m.rx != 0 {
            state := AckDetectInit;
          }
        case AckDetectInit => DoAckDetectInit();
        case AckDetect => DoAckDetect();
        case CompleteAckInit => ret := DoCompleteAckInit();
        case CompleteAck => ret := DoCompleteAck();
        case IdleDetectInit =>
          linkTime := now;
          AnTxIdle();
          state := IdleDetect;
          ret := TimerEnabled;
        case IdleDetect => DoIdleDetect();
        case LinkOk =>
          r := r.(complete := true, linkOk := true);
          ret := Done;
        case NextPageWaitInit =>
        case NextPageWait =>
        case Other => ret := Failed;
      }
    }

    // the flags and counters at the beginning of Autoneg8023z
    method Match(poll: Rx)
      modifies this`now, this`linkTime, this`m
      ensures Value() == Sample(old(Value()), poll)
    {
      hide IsAck, IsNp, IsD11, Invalid, Inc, WithoutAck, WithAck, Since, AbilityOf, ConfigWord;
      if state == Unknown {
        m := m.(rx := 0);
        now := 0;
        linkTime := 0;
        m := m.(config := 0, count := 0, ability := false, idle := false, ack := false);
      }
      var w: Word := 0;
      match poll {
        case Config(word) =>
          w := word;
          if w != m.config {
            m := m.(config := w, ability := false, count := 0);
          } else {
            m := m.(count := Inc(m.count));
            if m.count > 1 {
              m := m.(ability := true, config := w);
            }
          }
          m := m.(ack := IsAck(w), idle := false);
        case Idle =>
          m := m.(idle := true, config := 0, count := 0, ability := false, ack := false);
      }
      m := m.(rx := w);
    }

    method DoEnable()
      modifies this`r, this`linkTime, this`m, this`state
      ensures Value() == Enable(old(Value()))
    {
      r := r.(complete := false, pageRx := false);
      if r.enable {
        linkTime := 0;
        m := m.(config := 0, count := 0, ability := false, idle := false, ack := false);
        state := RestartInit;
      } else {
        state := DisableLinkOk;
      }
    }

    method DoRestartInit() returns (ret: Status)
      modifies this`linkTime, this`r, this`port, this`state
      ensures (Value(), ret) == RestartInitNext(old(Value()))
    {
      hide Since, RestartWait;
      linkTime := now;
      r := r.(npLoaded := false);
      port := port.(tx := 0);
      AnTxConfig();
      state := Restart;
      ret := DoRestart();
    }

    method DoAdvertise()
      modifies this`r, this`port, this`state
      ensures Value() == Advertise(old(Value()))
    {
      hide ConfigWord;
      r := r.(toggleTx := false);
      port := port.(tx := ConfigWord(r.adv));
      AnTxConfig();
      state := AbilityDetect;
    }

    method DoAckDetectInit()
      modifies this`port, this`state
      ensures Value() == AckDetectInitNext(old(Value()))
    {
      hide WithAck, AckWait;
      port := port.(tx := WithAck(port.tx));
      AnTxConfig();
      state := AckDetect;
      DoAckDetect();
    }

    method DoIdleDetect()
      modifies this`state
      ensures Value() == IdleDetectNext(old(Value()))
    {
      hide Since;
      if m.ability && m.rx == 0 {
        state := AnEnable;
        return;
      }
      if Since(now, linkTime) > LINK_TIMER {
        state := LinkOk;
      }
    }

    method DoRestart() returns (ret: Status)
      modifies this`state
      ensures (Value(), ret) == RestartWait(old(Value()))
    {
      hide Since;
      if Since(now, linkTime) > LINK_TIMER {
        state := AbilityDetectInit;
        ret := Ok;
      } else {
        ret := TimerEnabled;
      }
    }

    method DoCompleteAckInit() returns (ret: Status)
      modifies this`r, this`linkTime, this`state
      ensures (Value(), ret) == CompleteAckInitNext(old(Value()))
    {
      hide IsNp, IsD11, Invalid, AbilityOf;
      if Invalid(m.rx) {
        return Failed;
      }
      r := r.(lp := AbilityOf(m.rx));
      linkTime := now;
      r := r.(toggleTx := !r.toggleTx, toggleRx := IsD11(m.rx), npRx := IsNp(m.rx), pageRx := true);
      state := CompleteAck;
      return TimerEnabled;
    }

    method DoCompleteAck() returns (ret: Status)
      modifies this`state
      ensures (Value(), ret) == CompleteAckNext(old(Value()))
    {
      hide IsNp, Since;
      if m.ability && m.rx == 0 {
        state := AnEnable;
        return Ok;
      }
      if Since(now, linkTime) > LINK_TIMER {
        if !r.adv.np || !r.lp.np {
          state := IdleDetectInit;
        } else if !IsNp(port.tx) && !r.npRx {
          state := IdleDetectInit;
        } else {
          return Failed;
        }
      }
      return Ok;
    }

    method DoAckDetect()
      modifies this`state
      ensures Value() == AckWait(old(Value()))
    {
      hide IsAck, IsNp, IsD11, Invalid, Inc, WithoutAck, WithAck, Since, AbilityOf, ConfigWord;
      if m.ack {
        if WithoutAck(m.rx) == WithoutAck(m.config) {
          state := CompleteAckInit;
        } else {
          state := AnEnable;
        }
      } else if m.ability && m.rx == 0 {
        state := AnEnable;
      }
    }
  }

  // The word of a poll always equals the stored one when configs are received,
  // so the comparison in the ack detect state cannot fail.
  lemma AckAlwaysConsistent(s: Info, p: Poll)
    requires s.state == AckDetectInit || s.state == AckDetect
    ensures var s' := Sample(s.(now := p.now), p.rx);
      (s'.m.ack ==> s'.m.rx == s'.m.config && Step(s, p).0.state == CompleteAckInit)
    ensures Step(s, p).0.state == AnEnable ==> p.rx == Config(0)
  {
    hide IsAck, IsNp, IsD11, Invalid, Inc, WithoutAck, WithAck, Since, AbilityOf, ConfigWord;
  }

  // ----- safety over runs -----

  // the machine after a sequence of polls
  ghost function After(s: Info, polls: seq<Poll>): Info {
    if polls == [] then s
    else Step(After(s, polls[..|polls| - 1]), polls[|polls| - 1]).0
  }

  ghost predicate TimeAdvances(polls: seq<Poll>) {
    forall i, j | 0 <= i <= j < |polls| :: polls[i].now <= polls[j].now
  }

  // the time in effect at a poll: the first one sets the clock to 0
  ghost function TimeAt(polls: seq<Poll>, i: nat): U32
    requires i < |polls|
  {
    if i == 0 then 0 else polls[i].now
  }

  // three polls in a row up to j returned one nonzero word
  ghost predicate ThreeEqual(polls: seq<Poll>, j: nat) {
    && 2 <= j < |polls|
    && polls[j].rx.Config? && polls[j].rx.word != 0
    && polls[j - 1].rx == polls[j].rx && polls[j - 2].rx == polls[j].rx
  }

  predicate Matched(st: State) {
    st in {AckDetectInit, AckDetect, CompleteAckInit, CompleteAck, IdleDetectInit, IdleDetect, LinkOk}
  }

  predicate Negotiating(st: State) {
    Matched(st) || st in {AnEnable, RestartInit, Restart, AbilityDetectInit, AbilityDetect}
  }

  // e is the latest poll in which AN_ENABLE was passed
  ghost predicate Latest(init: Info, polls: seq<Poll>, e: nat) {
    && e < |polls|
    && After(init, polls[..e + 1]).state == RestartInit
    && forall k | e + 1 < k <= |polls| :: After(init, polls[..k]).state != RestartInit
  }

  // s is explained by the polls since e; at poll j the ability matched
  ghost predicate Explained(polls: seq<Poll>, s: Info, e: nat, j: nat) {
    && e < |polls| && s.now == TimeAt(polls, |polls| - 1) && TimeAt(polls, e) <= s.now
    && Negotiating(s.state) && s.r.enable
    && (s.state == RestartInit ==> e == |polls| - 1)
    && Counted(polls, s.m, e)
    && Timely(s, TimeAt(polls, e))
    && (Matched(s.state) ==> e < j - 2 && ThreeEqual(polls, j))
  }

  // what the match counter says about the last polls, all after e
  ghost predicate Counted(polls: seq<Poll>, m: Matcher, e: nat) {
    m.config != 0 ==>
      var n := |polls|;
      && e < n - 1 && polls[n - 1].rx == Config(m.config)
      && (m.count >= 1 || m.ability ==> e < n - 2 && polls[n - 2].rx == Config(m.config))
      && (m.count >= 2 || m.ability ==> e < n - 3 && polls[n - 3].rx == Config(m.config))
  }

  lemma StepCounted(polls: seq<Poll>, s: Info, p: Poll, e: nat)
    requires Counted(polls, s.m, e) && e < |polls| && s.state != Unknown
    ensures var s' := Step(s, p).0;
      Counted(polls + [p], if s'.state == RestartInit then s'.m.(config := 0) else s'.m, e)
    ensures var s' := Step(s, p).0;
      && (s'.state == RestartInit ==> s.state == AnEnable && s'.m.config == 0)
      && (s.state == AbilityDetect && s'.state == AckDetectInit ==>
        s'.m.ability && s'.m.config != 0 && p.rx == Config(s'.m.config))
      && (s'.state == AckDetectInit ==> s.state == AbilityDetect || s'.state == s.state)
      && (Matched(s'.state) ==> Matched(s.state) || s'.state == AckDetectInit)
  {
    hide Sample, Next, Counted, Matched;
    var s1 := Sample(s.(now := p.now), p.rx);
    SampleCounted(polls, s.(now := p.now), p, e);
    NextMatched(s1);
    NotCounted(polls + [p], s1.m.(config := 0), e);
    NotCounted(polls + [p], Next(s1).0.m.(config := 0), e);
  }

  lemma NotCounted(polls: seq<Poll>, m: Matcher, e: nat)
    requires m.config == 0
    ensures Counted(polls, m, e)
  {
  }

  lemma SampleCounted(polls: seq<Poll>, s: Info, p: Poll, e: nat)
    requires Counted(polls, s.m, e) && e < |polls| && s.state != Unknown
    ensures var s' := Sample(s, p.rx);
      && Counted(polls + [p], s'.m, e) && s'.state == s.state
      && s'.m.rx == s'.m.config && (s'.m.rx != 0 ==> p.rx == Config(s'.m.rx))
  {
    hide IsAck, Inc;
    var n := |polls| + 1;
    assert forall i | 0 <= i < n - 1 :: (polls + [p])[i] == polls[i];
    IncIs(s.m.count);
  }

  // where the transitions go, and when the match is reset
  lemma NextMatched(s: Info)
    requires s.state != Unknown
    ensures var s' := Next(s).0;
      && (s'.m == s.m || (s'.state == RestartInit && s'.m.config == 0))
      && (s'.state == RestartInit ==> s.state == AnEnable && s'.m.config == 0)
      && (s.state == AbilityDetect && s'.state == AckDetectInit ==> s.m.ability && s.m.rx != 0 && s'.m == s.m)
      && (s'.state == AckDetectInit ==> s.state == AbilityDetect || s'.state == s.state)
      && (Matched(s'.state) ==> Matched(s.state) || s'.state == AckDetectInit)
  {
    hide IsNp, IsD11, Invalid, WithoutAck, WithAck, Since, AbilityOf, ConfigWord;
  }

  lemma IncIs(n: U32)
    ensures Inc(n) == if n == 0xffff_ffff then 0 else n + 1
  {
  }

  // how much later than time t the states can be
  ghost predicate Timely(s: Info, t: U32) {
    match s.state
    case Restart => t <= s.linkTime <= s.now
    case AbilityDetectInit => t + LINK_TIMER < s.now
    case AbilityDetect => t + LINK_TIMER < s.now
    case AckDetectInit => t + LINK_TIMER < s.now
    case AckDetect => t + LINK_TIMER < s.now
    case CompleteAckInit => t + LINK_TIMER < s.now
    case CompleteAck => t + LINK_TIMER < s.linkTime <= s.now
    case IdleDetectInit => t + 2 * LINK_TIMER < s.now
    case IdleDetect => t + 2 * LINK_TIMER < s.linkTime <= s.now
    case LinkOk => t + 3 * LINK_TIMER < s.now
    case _ => t <= s.now
  }

  // In every run: what led to the state since the latest AN_ENABLE.
  lemma {:induction false} RunExplained(init: Info, polls: seq<Poll>) returns (e: nat, j: nat)
    requires init.state == Unknown && init.r.enable && polls != [] && TimeAdvances(polls)
    ensures Latest(init, polls, e) && Explained(polls, After(init, polls), e, j)
    decreases |polls|
  {
    hide Explained, Step, Latest, Negotiating;
    var n := |polls|;
    if n == 1 {
      e, j := 0, 0;
      assert polls == [polls[0]];
      FirstPoll(init, polls[0]);
    } else {
      var before, p := polls[..n - 1], polls[n - 1];
      var s := After(init, before);
      assert polls == before + [p];
      e, j := RunExplained(init, before);
      var e0 := e;
      TimeNow(before, s, e, j);
      e, j := ExplainedStep(before, s, p, e, j);
      StillLatest(init, polls, e0);
    }
  }

  lemma TimeNow(polls: seq<Poll>, s: Info, e: nat, j: nat)
    requires Explained(polls, s, e, j)
    ensures polls != [] && s.now == TimeAt(polls, |polls| - 1)
  {
  }

  lemma ExplainedStep(polls: seq<Poll>, s: Info, p: Poll, e: nat, j: nat) returns (e': nat, j': nat)
    requires Explained(polls, s, e, j) && s.now <= p.now
    ensures Explained(polls + [p], Step(s, p).0, e', j')
    ensures e' == if Step(s, p).0.state == RestartInit then |polls| else e
  {
    var s' := Step(s, p).0;
    hide Step, Counted, Timely, ThreeEqual, Negotiating, Matched;
    NotUnknown(s.state);
    StepTimely(s, p, TimeAt(polls, e));
    StepCounted(polls, s, p, e);
    e', j' := e, j;
    if s'.state == RestartInit {
      e' := |polls|;
      Restarted(polls + [p], s');
    } else if s.state == AbilityDetect && s'.state == AckDetectInit {
      j' := |polls|;
      JustMatched(polls + [p], s', e);
    } else if Matched(s.state) {
      StillThreeEqual(polls, p, j);
    } else {
      NotYetMatched(s.state, s'.state);
    }
  }

  lemma NotUnknown(st: State)
    requires Negotiating(st)
    ensures st != Unknown
  {
  }

  lemma StillThreeEqual(polls: seq<Poll>, p: Poll, j: nat)
    requires ThreeEqual(polls, j)
    ensures ThreeEqual(polls + [p], j)
  {
  }

  lemma NotYetMatched(st: State, st': State)
    requires !Matched(st) && (Matched(st') ==> st' == AckDetectInit) && (st' == AckDetectInit ==> st == st')
    ensures !Matched(st')
  {
  }

  lemma JustMatched(polls: seq<Poll>, s: Info, e: nat)
    requires polls != [] && Counted(polls, s.m, e) && s.m.config != 0 && s.m.ability
    ensures e < |polls| - 3 && ThreeEqual(polls, |polls| - 1)
  {
  }

  lemma FirstPoll(init: Info, p: Poll)
    requires init.state == Unknown && init.r.enable
    ensures Latest(init, [p], 0) && Explained([p], After(init, [p]), 0, 0)
  {
    hide Step, Counted;
    assert [p][..0] == [] && [p][..0 + 1] == [p];
    assert After(init, []) == init;
    assert After(init, [p]) == Step(init, p).0;
    FirstStep(init, p);
    NotCounted([p], Step(init, p).0.m, 0);
  }

  lemma FirstStep(init: Info, p: Poll)
    requires init.state == Unknown && init.r.enable
    ensures var s := Step(init, p).0;
      s.state == RestartInit && s.now == 0 && s.m.config == 0 && s.r.enable
  {
    hide IsAck, Inc;
  }

  // what holds after AN_ENABLE was passed in the last poll
  lemma Restarted(polls: seq<Poll>, s: Info)
    requires polls != [] && s.state == RestartInit && s.m.config == 0 && s.now == TimeAt(polls, |polls| - 1)
    ensures Counted(polls, s.m, |polls| - 1) && Timely(s, TimeAt(polls, |polls| - 1)) && !Matched(s.state) && Negotiating(s.state)
  {
  }

  lemma StillLatest(init: Info, polls: seq<Poll>, e: nat)
    requires polls != [] && Latest(init, polls[..|polls| - 1], e)
    ensures Latest(init, polls, if After(init, polls).state == RestartInit then |polls| - 1 else e)
  {
    hide After;
    var n := |polls|;
    var before := polls[..n - 1];
    assert polls[..n] == polls;
    assert before[..e + 1] == polls[..e + 1];
    forall k | e + 1 < k < n
      ensures After(init, polls[..k]).state != RestartInit
    {
      assert before[..k] == polls[..k];
    }
  }

  lemma ElapsedIs(s: Info)
    requires s.linkTime <= s.now
    ensures Elapsed(s) == s.now - s.linkTime
  {
  }

  lemma SampleKeeps(s: Info, rx: Rx)
    requires s.state != Unknown
    ensures var s' := Sample(s, rx);
      s'.state == s.state && s'.now == s.now && s'.linkTime == s.linkTime && s'.r == s.r && s'.port == s.port
      && s'.m.rx == if rx.Config? then rx.word else 0
  {
  }

  lemma StepTimely(s: Info, p: Poll, t: U32)
    requires Negotiating(s.state) && Timely(s, t) && s.now <= p.now && t <= s.now && s.r.enable
    ensures var s' := Step(s, p).0;
      Negotiating(s'.state) && s'.now == p.now && s'.r.enable
      && (s'.state != RestartInit ==> Timely(s', t))
  {
    hide IsAck, IsNp, IsD11, Invalid, Inc, WithoutAck, WithAck, Since, AbilityOf, ConfigWord;
    hide Sample;
    var s1 := Sample(s.(now := p.now), p.rx);
    SampleKeeps(s.(now := p.now), p.rx);
    if s.state in {Restart, CompleteAck, IdleDetect} {
      ElapsedIs(s1);
    }
    ElapsedIs(s1.(linkTime := s1.now));
  }

  // LINK_OK is entered only more than three link timer intervals after the
  // latest AN_ENABLE, and after three equal nonzero words in a row since then.
  lemma LinkOkIsSafe(init: Info, polls: seq<Poll>) returns (e: nat, j: nat)
    requires init.state == Unknown && init.r.enable && TimeAdvances(polls)
    requires After(init, polls).state == LinkOk
    ensures Latest(init, polls, e) && After(init, polls).now > TimeAt(polls, e) + 36000
    ensures e < j - 2 && ThreeEqual(polls, j)
  {
    hide Step;
    e, j := RunExplained(init, polls);
  }

  // ----- a partner that keeps sending one acknowledged word -----

  // a word a partner may send: acknowledged, no reserved bit set
  predicate Acceptable(w: Word) {
    IsAck(w) && !Invalid(w)
  }

  // how many polls until LINK_OK at the latest, if time advances between polls
  function Remaining(s: Info, w: Word): nat {
    match s.state
    case Unknown => 36012
    case AnEnable => 36012
    case RestartInit => 36011
    case Restart => 24009 + Wait(s)
    case AbilityDetectInit => 24009
    case AbilityDetect => 24005 + Unmatched(s.m, w)
    case AckDetectInit => 24005
    case AckDetect => 24005
    case CompleteAckInit => 24004
    case CompleteAck => 12002 + Wait(s)
    case IdleDetectInit => 12002
    case IdleDetect => Wait(s)
    case _ => 0
  }

  // polls until the link timer has run out
  function Wait(s: Info): (n: nat)
    ensures 1 <= n <= LINK_TIMER + 1
  {
    1 + Left(s)
  }

  // time until the link timer has run out
  function Left(s: Info): (n: nat)
    ensures n <= LINK_TIMER
  {
    var d := s.now - s.linkTime;
    if d < 0 then LINK_TIMER else if d < LINK_TIMER then LINK_TIMER - d else 0
  }

  // polls until the ability matches
  function Unmatched(m: Matcher, w: Word): (n: nat)
    ensures 1 <= n <= 3
  {
    if m.config != w then 3
    else if m.ability then 1
    else if m.count == 0 then 2
    else if m.count == 0xffff_ffff then 3
    else 1
  }

  // The time until LINK_OK at the latest, if polls are at most gap apart.
  function Budget(s: Info, w: Word, gap: nat): nat {
    match s.state
    case Unknown => 36000 + 12 * gap
    case AnEnable => 36000 + 12 * gap
    case RestartInit => 36000 + 11 * gap
    case Restart => 24000 + 10 * gap + Left(s)
    case AbilityDetectInit => 24000 + 9 * gap
    case AbilityDetect => 24000 + 5 * gap + (match Unmatched(s.m, w) case 1 => gap case 2 => 2 * gap case _ => 3 * gap)
    case AckDetectInit => 24000 + 5 * gap
    case AckDetect => 24000 + 5 * gap
    case CompleteAckInit => 24000 + 4 * gap
    case CompleteAck => 12000 + 3 * gap + Left(s)
    case IdleDetectInit => 12000 + 2 * gap
    case IdleDetect => gap + Left(s)
    case _ => 0
  }

  // the machine runs, without next pages on both sides, and has the right partner ability
  ghost predicate Live(s: Info, w: Word) {
    && (s.state == Unknown || Negotiating(s.state))
    && s.r.enable && (!s.r.adv.np || !IsNp(w))
    && (s.state in {CompleteAck, IdleDetectInit, IdleDetect, LinkOk} ==> s.r.lp == AbilityOf(w))
    && (s.state != Unknown ==> s.linkTime <= s.now)
  }

  lemma SampleSteady(s: Info, w: Word)
    requires IsAck(w)
    ensures var s' := Sample(s, Config(w));
      && s'.state == s.state && s'.r == s.r && s'.m.rx == w && s'.m.config == w && s'.m.ack
      && (if s.state == Unknown then s'.now == 0 && s'.linkTime == 0 else s'.now == s.now && s'.linkTime == s.linkTime)
      && (s.state != Unknown ==> s'.m.ability || Unmatched(s'.m, w) < Unmatched(s.m, w))
  {
    hide Inc, IsAck;
    IncIs(s.m.count);
  }

  // The transitions against such a partner, at time t.
  ghost predicate SteadyStep(s: Info, s': Info, t: U32, w: Word) {
    && s'.now == t && s'.r.enable == s.r.enable && s'.r.adv == s.r.adv
    && match s.state
       case Unknown => s'.state == RestartInit && s'.linkTime == 0
       case AnEnable => s'.state == RestartInit && s'.linkTime == 0
       case RestartInit => s'.state == Restart && s'.linkTime == t
       case Restart => Waited(s, s', t, AbilityDetectInit)
       case AbilityDetectInit => s'.state == AbilityDetect && s'.linkTime == s.linkTime
       case AbilityDetect =>
         && s'.linkTime == s.linkTime
         && (s'.state == AckDetectInit || (s'.state == AbilityDetect && Unmatched(s'.m, w) < Unmatched(s.m, w)))
       case AckDetectInit => s'.state == CompleteAckInit && s'.linkTime == s.linkTime
       case AckDetect => s'.state == CompleteAckInit && s'.linkTime == s.linkTime
       case CompleteAckInit => s'.state == CompleteAck && s'.linkTime == t && s'.r.lp == AbilityOf(w)
       case CompleteAck => Waited(s, s', t, IdleDetectInit) && s'.r.lp == s.r.lp
       case IdleDetectInit => s'.state == IdleDetect && s'.linkTime == t && s'.r.lp == s.r.lp
       case IdleDetect => Waited(s, s', t, LinkOk) && s'.r.lp == s.r.lp
       case LinkOk => s'.state == LinkOk && s'.linkTime == s.linkTime && s'.r.lp == s.r.lp
       case _ => false
  }

  // the link timer is waited for
  ghost predicate Waited(s: Info, s': Info, t: U32, next: State) {
    s'.linkTime == s.linkTime && s'.state == if t - s.linkTime > LINK_TIMER then next else s.state
  }

  lemma SteadyStepHolds(s: Info, p: Poll, w: Word)
    requires Acceptable(w) && Live(s, w) && p.rx == Config(w)
    requires s.state == Unknown || s.now < p.now
    ensures SteadyStep(s, Step(s, p).0, if s.state == Unknown then 0 else p.now, w)
    ensures s.state == LinkOk ==> Step(s, p).1 == Done && Step(s, p).0.r.complete && Step(s, p).0.r.linkOk
  {
    hide IsNp, IsD11, IsAck, Invalid, Inc, WithoutAck, WithAck, Since, AbilityOf, ConfigWord;
    assert w != 0 by { AckNotZero(w); }
    assert AbilityOf(w).np == IsNp(w) by { AbilityNextPage(w); }
    hide Sample, Unmatched;
    var s1 := Sample(s.(now := p.now), p.rx);
    SampleSteady(s.(now := p.now), w);
    if s.state in {Restart, CompleteAck, IdleDetect} {
      ElapsedIs(s1);
    }
    ElapsedIs(s1.(linkTime := s1.now));
  }

  lemma StepLive(s: Info, p: Poll, w: Word)
    requires Acceptable(w) && Live(s, w) && p.rx == Config(w)
    requires s.state == Unknown || s.now < p.now
    ensures var s' := Step(s, p).0;
      Live(s', w) && s'.state != Unknown && s'.now == (if s.state == Unknown then 0 else p.now)
  {
    hide Step, AbilityOf, IsNp, Unmatched, Acceptable;
    SteadyStepHolds(s, p, w);
  }

  lemma StepRank(s: Info, p: Poll, w: Word)
    requires Acceptable(w) && Live(s, w) && p.rx == Config(w)
    requires s.state == Unknown || s.now < p.now
    ensures var s' := Step(s, p).0;
      if s.state == LinkOk then s'.state == LinkOk else Remaining(s', w) < Remaining(s, w)
    ensures s.state == LinkOk ==> Step(s, p).1 == Done && Step(s, p).0.r.complete && Step(s, p).0.r.linkOk
  {
    hide Step, AbilityOf, IsNp, Unmatched, Acceptable;
    SteadyStepHolds(s, p, w);
  }

  lemma StepProgress(s: Info, p: Poll, w: Word)
    requires Acceptable(w) && Live(s, w) && p.rx == Config(w)
    requires s.state == Unknown || s.now < p.now
    ensures var s' := Step(s, p).0;
      && Live(s', w) && s'.state != Unknown && s'.now == (if s.state == Unknown then 0 else p.now)
      && (if s.state == LinkOk then s'.state == LinkOk else Remaining(s', w) < Remaining(s, w))
    ensures s.state == LinkOk ==> Step(s, p).1 == Done && Step(s, p).0.r.complete && Step(s, p).0.r.linkOk
  {
    hide Step, Live, Remaining;
    StepLive(s, p, w);
    StepRank(s, p, w);
  }

  lemma AbilityNextPage(w: Word)
    ensures AbilityOf(w).np == IsNp(w)
  {
  }

  lemma AckNotZero(w: Word)
    requires IsAck(w)
    ensures w != 0
  {
  }

  lemma StepBudget(s: Info, p: Poll, w: Word, gap: nat)
    requires Acceptable(w) && Live(s, w) && p.rx == Config(w) && s.state != LinkOk
    requires s.state == Unknown || s.now < p.now <= s.now + gap
    ensures var s' := Step(s, p).0;
      s'.now + Budget(s', w, gap) <= (if s.state == Unknown then 0 else s.now) + Budget(s, w, gap)
  {
    hide Step, AbilityOf, IsNp, Unmatched, Acceptable;
    SteadyStepHolds(s, p, w);
  }

  // polls that all return w, at increasing times
  ghost predicate Steady(polls: seq<Poll>, w: Word) {
    && (forall i | 0 <= i < |polls| :: polls[i].rx == Config(w))
    && forall i, j | 0 <= i < j < |polls| :: polls[i].now < polls[j].now
  }

  lemma {:induction false} SteadyProgress(init: Info, polls: seq<Poll>, w: Word)
    requires Acceptable(w) && Live(init, w) && Steady(polls, w)
    requires polls == [] || init.state == Unknown || init.now < polls[0].now
    ensures var s := After(init, polls);
      && Live(s, w)
      && (polls != [] ==> s.state != Unknown && s.now == if |polls| == 1 && init.state == Unknown then 0 else polls[|polls| - 1].now)
      && (s.state == LinkOk || Remaining(s, w) + |polls| <= Remaining(init, w))
    decreases |polls|
  {
    hide Step, Live, Remaining;
    if polls != [] {
      var before := polls[..|polls| - 1];
      SteadyProgress(init, before, w);
      StepProgress(After(init, before), polls[|polls| - 1], w);
    }
  }

  // A partner that keeps sending one acceptable word brings the machine from
  // its start to LINK_OK, with the abilities of that word, in 36012 polls.
  lemma SteadyPartnerLinks(init: Info, polls: seq<Poll>, w: Word)
    requires Acceptable(w) && init.state == Unknown && init.r.enable && (!init.r.adv.np || !IsNp(w)) && Steady(polls, w)
    requires |polls| >= 36012
    ensures var s := After(init, polls); s.state == LinkOk && s.r.lp == AbilityOf(w)
  {
    hide Step;
    SteadyProgress(init, polls, w);
  }

  // If polls are at most gap apart, LINK_OK is entered no later than 36000 us
  // and twelve gaps after the start.
  lemma {:induction false} SteadyPartnerLinksInTime(init: Info, polls: seq<Poll>, w: Word, gap: nat)
    requires Acceptable(w) && init.state == Unknown && init.r.enable && (!init.r.adv.np || !IsNp(w)) && Steady(polls, w)
    requires forall i, j | 0 < i < |polls| && j == i - 1 :: polls[i].now <= TimeAt(polls, j) + gap
    requires polls != [] && After(init, polls[..|polls| - 1]).state != LinkOk
    ensures var s := After(init, polls); s.now + Budget(s, w, gap) <= 36000 + 12 * gap
    decreases |polls|
  {
    hide Step, Budget, Acceptable;
    var n := |polls|;
    var before := polls[..n - 1];
    var s := After(init, before);
    SteadyProgress(init, before, w);
    if n == 1 {
      assert s == init;
      StepBudget(init, polls[0], w, gap);
      assert Budget(init, w, gap) == 36000 + 12 * gap by { StartBudget(init, w, gap); }
    } else {
      NotYetLinked(init, before, w);
      assert forall j | 0 <= j < n - 1 :: TimeAt(before, j) == TimeAt(polls, j);
      SteadyPartnerLinksInTime(init, before, w, gap);
      assert s.now == TimeAt(polls, n - 2);
      StepBudget(s, polls[n - 1], w, gap);
    }
  }

  // LINK_OK stays
  lemma NotYetLinked(init: Info, polls: seq<Poll>, w: Word)
    requires Acceptable(w) && Live(init, w) && Steady(polls, w) && polls != []
    requires init.state == Unknown || init.now < polls[0].now
    requires After(init, polls).state != LinkOk
    ensures After(init, polls[..|polls| - 1]).state != LinkOk
  {
    hide Step, Live, Remaining, Acceptable;
    var earlier := polls[..|polls| - 1];
    SteadyProgress(init, earlier, w);
    StepProgress(After(init, earlier), polls[|polls| - 1], w);
  }

  lemma StartBudget(s: Info, w: Word, gap: nat)
    requires s.state == Unknown
    ensures Budget(s, w, gap) == 36000 + 12 * gap
  {
  }
}
