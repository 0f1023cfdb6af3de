/** What the states of a run of auto-negotiation mean to both stations: what is
    sent in them, what was learnt, when it starts again, and what is reported. */
module AutonegRuns {
  import opened Autoneg

  // the word on the line, or none if idle is sent
  datatype Line = Nothing | Sent(word: Word)

  function LineOf(p: Port): Line {
    if p.sending then Sent(p.txReg) else Nothing
  }

  // What is sent in a state of a run: 0 while the partner is to notice the
  // restart, then what was advertised, then that with the acknowledge bit.
  ghost predicate Sends(s: Info, adv: Ability) {
    match s.state
    case Restart => LineOf(s.port) == Sent(0)
    case AbilityDetectInit => LineOf(s.port) == Sent(0)
    case AbilityDetect => LineOf(s.port) == Sent(ConfigWord(adv))
    case AckDetectInit => LineOf(s.port) == Sent(ConfigWord(adv))
    case AckDetect => Acknowledges(s, adv)
    case CompleteAckInit => Acknowledges(s, adv)
    case CompleteAck => Acknowledges(s, adv)
    case IdleDetectInit => Acknowledges(s, adv)
    case IdleDetect => LineOf(s.port) == Nothing
    case LinkOk => LineOf(s.port) == Nothing
    case _ => true
  }

  ghost predicate Acknowledges(s: Info, adv: Ability) {
    s.port.sending && (s.port.txReg as int) == ConfigWord(adv) as int + 0x40
  }

  // the word to send is the one on the line
  ghost predicate Prepared(s: Info) {
    s.state in {AbilityDetect, AckDetectInit} ==> s.port.tx == s.port.txReg
  }

  lemma AckAdds(adv: Ability)
    ensures (WithAck(ConfigWord(adv)) as int) == ConfigWord(adv) as int + 0x40
  {
    hide ConfigWord;
    AdvertisedIsUnderstood(adv);
  }

  lemma StepSends(s: Info, p: Poll, adv: Ability)
    requires s.state == Unknown || Negotiating(s.state)
    requires s.r.enable && s.r.adv == adv && Sends(s, adv) && Prepared(s)
    ensures var s' := Step(s, p).0;
      Negotiating(s'.state) && s'.r.enable && s'.r.adv == adv && Sends(s', adv) && Prepared(s')
  {
    hide Sample, Next, Sends, Negotiating;
    var s1 := Sample(s.(now := p.now), p.rx);
    SampleSame(s.(now := p.now), p.rx);
    SendsSame(s, s1, adv);
    NextSends(s1, adv);
  }

  lemma SendsSame(s: Info, s': Info, adv: Ability)
    requires Sends(s, adv) && s'.state == s.state && s'.port == s.port
    ensures Sends(s', adv)
  {
    hide ConfigWord;
  }

  lemma NextSends(s: Info, adv: Ability)
    requires s.state == Unknown || Negotiating(s.state)
    requires s.r.enable && s.r.adv == adv && Sends(s, adv) && Prepared(s)
    ensures var s' := Next(s).0;
      Negotiating(s'.state) && s'.r.enable && s'.r.adv == adv && Sends(s', adv) && Prepared(s')
  {
    hide IsAck, IsNp, IsD11, Invalid, WithoutAck, WithAck, Since, AbilityOf, ConfigWord;
    AckAdds(adv);
  }

  lemma SampleSame(s: Info, rx: Rx)
    ensures var s' := Sample(s, rx); s'.state == s.state && s'.r == s.r && s'.port == s.port
    ensures Sample(s, rx).m.rx == WordOf(rx)
  {
  }

  // In every run with auto-negotiation enabled the states say what is sent.
  lemma {:induction false} RunSends(init: Info, polls: seq<Poll>)
    requires init.state == Unknown && init.r.enable
    ensures Sends(After(init, polls), init.r.adv) && Prepared(After(init, polls))
    ensures var s := After(init, polls); (s.state == Unknown || Negotiating(s.state)) && s.r.enable && s.r.adv == init.r.adv
  {
    hide Step;
    if polls != [] {
      var before := polls[..|polls| - 1];
      RunSends(init, before);
      StepSends(After(init, before), polls[|polls| - 1], init.r.adv);
    }
  }

  // the flags for further pages: no page was loaded since the restart, and the
  // toggle bits are those of the first page
  ghost predicate FirstPage(s: Info) {
    && (s.state !in {Unknown, AnEnable, RestartInit} ==> !s.r.npLoaded)
    && (s.state in {AbilityDetect, AckDetectInit, AckDetect, CompleteAckInit} ==> !s.r.toggleTx)
    && (Complete(s.state) ==> s.r.toggleTx && !s.r.toggleRx)
  }

  lemma {:induction false} RunFirstPage(init: Info, polls: seq<Poll>)
    requires init.state == Unknown && init.r.enable
    ensures FirstPage(After(init, polls))
  {
    hide Step;
    if polls != [] {
      var before := polls[..|polls| - 1];
      RunFirstPage(init, before);
      RunSends(init, before);
      StepFirstPage(After(init, before), polls[|polls| - 1]);
    }
  }

  lemma StepFirstPage(s: Info, p: Poll)
    requires (s.state == Unknown || Negotiating(s.state)) && s.r.enable && FirstPage(s)
    ensures FirstPage(Step(s, p).0)
  {
    ToggleIsInvalid(WordOf(p.rx));
    hide IsAck, IsNp, IsD11, Invalid, Inc, WithoutAck, WithAck, Since, AbilityOf, ConfigWord;
    SampleSame(s.(now := p.now), p.rx);
    hide Sample;
  }

  // the toggle bit of a page is one of the reserved bits here
  lemma ToggleIsInvalid(w: Word)
    ensures IsD11(w) ==> Invalid(w)
  {
  }

  // ----- what was learnt of the partner -----

  // the word of a poll; 0 if idle was received
  function WordOf(rx: Rx): Word {
    if rx.Config? then rx.word else 0
  }

  predicate Complete(st: State) {
    st in {CompleteAck, IdleDetectInit, IdleDetect, LinkOk}
  }

  ghost predicate LearntAt(s: Info, polls: seq<Poll>, k: nat) {
    k < |polls| && !Invalid(WordOf(polls[k].rx)) && s.r.lp == AbilityOf(WordOf(polls[k].rx))
    && s.r.npRx == IsNp(WordOf(polls[k].rx)) && s.r.pageRx
  }

  lemma StepLearns(s: Info, p: Poll)
    requires Negotiating(s.state) && s.r.enable
    ensures var s' := Step(s, p).0;
      Complete(s'.state) ==>
        if Complete(s.state) then s'.r.lp == s.r.lp && s'.r.npRx == s.r.npRx && s'.r.pageRx == s.r.pageRx
        else s.state == CompleteAckInit && LearntAt(s', [p], 0)
  {
    hide IsAck, IsNp, IsD11, Invalid, Inc, WithoutAck, WithAck, Since, AbilityOf, ConfigWord;
    SampleSame(s.(now := p.now), p.rx);
    hide Sample;
  }

  // From COMPLETE_ACK on, the partner's abilities are those of a word it sent,
  // and that word had no reserved bit.
  lemma {:induction false} RunLearns(init: Info, polls: seq<Poll>) returns (k: nat)
    requires init.state == Unknown && init.r.enable && Complete(After(init, polls).state)
    ensures LearntAt(After(init, polls), polls, k)
  {
    hide Step, Invalid, AbilityOf, IsNp;
    var n := |polls|;
    var before := polls[..n - 1];
    var s := After(init, before);
    RunSends(init, before);
    if n == 1 {
      k := 0;
      assert before == [];
      FirstStep(init, polls[0]);
    } else {
      StillUnknown(init, before);
      StepLearns(s, polls[n - 1]);
      if Complete(s.state) {
        k := RunLearns(init, before);
        assert before[k] == polls[k];
      } else {
        k := n - 1;
      }
    }
  }

  // the first poll leaves the start
  lemma {:induction false} StillUnknown(init: Info, polls: seq<Poll>)
    requires init.state == Unknown && init.r.enable && polls != []
    ensures Negotiating(After(init, polls).state)
  {
    hide Step;
    var before := polls[..|polls| - 1];
    RunSends(init, before);
    StepSends(After(init, before), polls[|polls| - 1], init.r.adv);
  }

  // ----- the partner starts again -----

  // no counter runs ahead of the match
  ghost predicate CounterSound(m: Matcher) {
    m.count > 1 ==> m.ability
  }

  lemma {:induction false} RunCounter(init: Info, polls: seq<Poll>)
    requires init.state == Unknown && init.r.enable && polls != []
    ensures CounterSound(After(init, polls).m)
  {
    var before, p := polls[..|polls| - 1], polls[|polls| - 1];
    var s := After(init, before);
    if before == [] {
      FirstStep(init, p);
    } else {
      RunCounter(init, before);
      StillUnknown(init, before);
    }
    StepCounter(s, p);
  }

  lemma StepCounter(s: Info, p: Poll)
    requires s.state == Unknown || CounterSound(s.m)
    ensures CounterSound(Step(s, p).0.m)
  {
    hide IsAck, IsNp, IsD11, Invalid, WithoutAck, WithAck, Since, AbilityOf, ConfigWord;
  }

  predicate Listening(st: State) {
    st in {AckDetect, CompleteAck, IdleDetect}
  }

  // zeros received so far, as far as they matter
  ghost predicate Zeros(m: Matcher, n: nat) {
    m.config == 0 && (n >= 2 ==> m.count >= 1 || m.ability)
  }

  lemma StepZero(s: Info, p: Poll, n: nat)
    requires Negotiating(s.state) && s.r.enable && CounterSound(s.m) && p.rx == Config(0) && (n >= 1 ==> Zeros(s.m, n))
    ensures var s' := Step(s, p).0;
      && (s'.state != RestartInit ==> Zeros(s'.m, n + 1))
      && (s.state == RestartInit ==> s'.state == Restart || s'.state == AbilityDetectInit)
      && (n >= 2 && Listening(s.state) ==> s'.state == AnEnable)
  {
    hide Sample, Next, Zeros;
    SampleZero(s.(now := p.now), n);
    NextZero(Sample(s.(now := p.now), p.rx), n + 1);
  }

  lemma SampleZero(s: Info, n: nat)
    requires Negotiating(s.state) && CounterSound(s.m) && (n >= 1 ==> Zeros(s.m, n))
    ensures var s' := Sample(s, Config(0));
      && s'.state == s.state && s'.r == s.r && s'.m.rx == 0 && !s'.m.ack && Zeros(s'.m, n + 1) && (n >= 2 ==> s'.m.ability)
  {
    assert !IsAck(0);
    hide IsAck;
  }

  lemma NextZero(s: Info, n: nat)
    requires Negotiating(s.state) && s.r.enable && s.m.rx == 0 && !s.m.ack && Zeros(s.m, n) && (n >= 3 ==> s.m.ability)
    ensures var s' := Next(s).0;
      && (s'.state != RestartInit ==> Zeros(s'.m, n))
      && (s.state == RestartInit ==> s'.state == Restart || s'.state == AbilityDetectInit)
      && (n >= 3 && Listening(s.state) ==> s'.state == AnEnable)
  {
    hide IsNp, IsD11, Invalid, WithoutAck, WithAck, Since, AbilityOf, ConfigWord;
  }

  // Three polls in a row that return 0 make a machine that waits for an
  // acknowledgement, for the end of the partner's words, or for idle start again.
  lemma ZerosRestart(init: Info, polls: seq<Poll>)
    requires init.state == Unknown && init.r.enable && |polls| >= 4
    requires forall i | |polls| - 3 <= i < |polls| :: polls[i].rx == Config(0)
    requires Listening(After(init, polls[..|polls| - 1]).state)
    ensures After(init, polls).state == AnEnable
  {
    hide Step, Zeros, CounterSound;
    var n := |polls|;
    var a, b, c := polls[..n - 3], polls[..n - 2], polls[..n - 1];
    assert b[..n - 3] == a && c[..n - 2] == b;
    RunCounter(init, a);
    RunCounter(init, b);
    RunCounter(init, c);
    RunSends(init, a);
    RunSends(init, b);
    RunSends(init, c);
    StillUnknown(init, a);
    StillUnknown(init, b);
    StillUnknown(init, c);
    StepZero(After(init, a), polls[n - 3], 0);
    if After(init, b).state == RestartInit {
      StepZero(After(init, b), polls[n - 2], 0);
    } else {
      StepZero(After(init, b), polls[n - 2], 1);
      StepZero(After(init, c), polls[n - 1], 2);
    }
  }

  // ----- what is reported -----

  // Completion is reported in LINK_OK only, by the poll after it is entered.
  lemma StepReports(s: Info, p: Poll)
    requires Negotiating(s.state) && s.r.enable && (s.r.complete ==> s.state == LinkOk || s.state == AnEnable)
    ensures var (s', status) := Step(s, p);
      && (s'.r.complete ==> s'.state == LinkOk)
      && (status == Done <==> s.state == LinkOk)
      && (status == TimerEnabled <==> s'.state == Restart || s.state == IdleDetectInit || (s.state == CompleteAckInit && s'.state == CompleteAck))
      && (s.state == LinkOk ==> s'.state == LinkOk && s'.r.complete && s'.r.linkOk)
      && (status == Failed ==> s'.state == s.state && (s.state == CompleteAckInit || s.state == CompleteAck))
      && (s.state == CompleteAckInit ==> (status == Failed <==> Invalid(WordOf(p.rx))))
  {
    hide IsAck, IsNp, IsD11, Invalid, Inc, WithoutAck, WithAck, Since, AbilityOf, ConfigWord;
    SampleSame(s.(now := p.now), p.rx);
    hide Sample;
  }

  lemma {:induction false} RunReports(init: Info, polls: seq<Poll>)
    requires init.state == Unknown && init.r.enable && polls != []
    ensures After(init, polls).r.complete ==> After(init, polls).state == LinkOk
  {
    hide Step;
    var before, p := polls[..|polls| - 1], polls[|polls| - 1];
    if before == [] {
      FirstReports(init, p);
    } else {
      RunReports(init, before);
      RunSends(init, before);
      StillUnknown(init, before);
      StepReports(After(init, before), p);
    }
  }

  lemma FirstReports(s: Info, p: Poll)
    requires s.state == Unknown && s.r.enable
    ensures !Step(s, p).0.r.complete
  {
    hide IsAck, Inc;
  }

  // without auto-negotiation the first poll ends it, and every later one says so
  lemma Disabled(s: Info, p: Poll)
    requires !s.r.enable && s.state in {Unknown, AnEnable, DisableLinkOk}
    ensures Step(s, p).0.state == DisableLinkOk && LineOf(Step(s, p).0.port) == LineOf(s.port)
    ensures s.state == DisableLinkOk ==> Step(s, p).1 == Done
  {
    hide IsAck, Inc;
  }

  // the bits of a config word as the registers number them
  lemma WordBits()
    ensures var none := Ability(false, false, false, false, false, false, false);
      && ConfigWord(none) == 0 && ConfigWord(none.(fd := true)) == 0x2000 && ConfigWord(none.(hd := true)) == 0x4000
      && ConfigWord(none.(ps1 := true)) == 0x8000 && ConfigWord(none.(ps2 := true)) == 1 && ConfigWord(none.(np := true)) == 0x80
      && ConfigWord(none.(rf1 := true)) == 0x10 && ConfigWord(none.(rf2 := true)) == 0x20
  {
  }
}
