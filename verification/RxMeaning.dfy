/** What the receive path does to each packet and each descriptor. */
module RxMeaning {
  import opened Queue
  import opened RxFlow

  // a packet the chip reported as faulty, or that is too long even with a tag
  predicate Faulty(cfg: Config, p: Packet) {
    !p.success || p.size > if cfg.keepVlanTag then cfg.mtu + 4 else cfg.mtu
  }

  // a packet that is too long for one without tag, and has none
  predicate Untagged(cfg: Config, p: Packet) {
    !Faulty(cfg, p) && p.size > cfg.mtu && !p.tagged
  }

  predicate Good(cfg: Config, p: Packet) {
    !Faulty(cfg, p) && !Untagged(cfg, p)
  }

  lemma FateMeans(cfg: Config, p: Packet)
    ensures FateOf(cfg, p) == if Faulty(cfg, p) then Reused else if Untagged(cfg, p) then Dropped else Passed
  {
  }

  predicate Has(cfg: Config, p: Packet, fate: Fate) {
    match fate
    case Reused => Faulty(cfg, p)
    case Dropped => Untagged(cfg, p)
    case Passed => Good(cfg, p)
  }

  // the buffers of the packets with this fate, from the head of the queue on
  function BuffersOf(cfg: Config, s: seq<Entry>, skb: map<Entry, nat>, packets: Entry -> Packet, fate: Fate): seq<nat>
    requires forall d | d in s :: d in skb
  {
    if s == [] then []
    else
      assert Last(s) in s && forall d | d in Init(s) :: d in s;
      (if Has(cfg, packets(Last(s)), fate) then [skb[Last(s)]] else []) + BuffersOf(cfg, Init(s), skb, packets, fate)
  }

  lemma {:induction false} BuffersSame(cfg: Config, s: seq<Entry>, skb: map<Entry, nat>, skb': map<Entry, nat>, packets: Entry -> Packet, fate: Fate)
    requires forall d | d in s :: d in skb && d in skb' && skb[d] == skb'[d]
    ensures BuffersOf(cfg, s, skb, packets, fate) == BuffersOf(cfg, s, skb', packets, fate)
  {
    if s != [] {
      assert Last(s) in s && forall d | d in Init(s) :: d in s;
      BuffersSame(cfg, Init(s), skb, skb', packets, fate);
    }
  }

  // ----- received packets -----

  // The good packets are passed up, the untagged ones freed, and all but the
  // good ones counted as errors.
  ghost predicate Accounted(cfg: Config, st: Flow, st': Flow, packets: Entry -> Packet)
    requires Known(st)
  {
    var good := BuffersOf(cfg, st.received, st.skb, packets, Passed);
    && st'.passed == st.passed + good
    && st'.freed == st.freed + BuffersOf(cfg, st.received, st.skb, packets, Dropped)
    && st'.errors == st.errors + |st.received| - |good|
  }

  lemma {:induction false} IndicateAccounts(cfg: Config, st: Flow, packets: Entry -> Packet)
    requires Known(st) && Unique(st)
    ensures Accounted(cfg, st, Indicate(cfg, st, packets), packets)
    decreases |st.received|
  {
    if st.received != [] {
      var p := packets(Last(st.received));
      var st1 := IndicateOne(cfg, st, p);
      IndicateOneKnown(cfg, st, p);
      IndicateOneKeeps(cfg, st, p);
      SameUnique(st, st1);
      IndicateAccounts(cfg, st1, packets);
      OneAccounts(cfg, st, packets);
      AccountsAdd(cfg, st, st1, Indicate(cfg, st1, packets), packets);
    }
  }

  // what one packet adds
  ghost predicate OneAccounted(cfg: Config, st: Flow, st1: Flow, p: Packet)
    requires st.received != [] && Last(st.received) in st.skb
  {
    var b := st.skb[Last(st.received)];
    && st1.received == Init(st.received)
    && st1.passed == st.passed + (if Good(cfg, p) then [b] else [])
    && st1.freed == st.freed + (if Untagged(cfg, p) then [b] else [])
    && st1.errors == st.errors + (if Good(cfg, p) then 0 else 1)
    && forall e | e in st.skb && e != Last(st.received) :: e in st1.skb && st1.skb[e] == st.skb[e]
  }

  lemma OneAccounts(cfg: Config, st: Flow, packets: Entry -> Packet)
    requires Known(st) && st.received != []
    ensures Last(st.received) in st.skb
    ensures OneAccounted(cfg, st, IndicateOne(cfg, st, packets(Last(st.received))), packets(Last(st.received)))
  {
    assert Last(st.received) in st.received;
    FateMeans(cfg, packets(Last(st.received)));
    hide FateOf, Faulty, Untagged, Known;
  }

  lemma AccountsAdd(cfg: Config, st: Flow, st1: Flow, st': Flow, packets: Entry -> Packet)
    requires Known(st) && Unique(st) && st.received != [] && Last(st.received) in st.skb && Known(st1)
    requires OneAccounted(cfg, st, st1, packets(Last(st.received))) && Accounted(cfg, st1, st', packets)
    ensures Accounted(cfg, st, st', packets)
  {
    hide Unique, Known, Faulty, Untagged, Good, BuffersOf;
    BuffersLeft(cfg, st, st1, packets, Passed);
    BuffersLeft(cfg, st, st1, packets, Dropped);
  }

  lemma BuffersLeft(cfg: Config, st: Flow, st1: Flow, packets: Entry -> Packet, fate: Fate)
    requires Known(st) && Unique(st) && st.received != [] && Last(st.received) in st.skb && Known(st1)
    requires OneAccounted(cfg, st, st1, packets(Last(st.received)))
    ensures BuffersOf(cfg, st.received, st.skb, packets, fate) ==
      (if Has(cfg, packets(Last(st.received)), fate) then [st.skb[Last(st.received)]] else []) + BuffersOf(cfg, st1.received, st1.skb, packets, fate)
  {
    LastIsAlone(st);
    var s := Init(st.received);
    assert forall d | d in s :: d in st.received && d in st1.received;
    hide Unique, Known, Has, Good, Untagged, BuffersOf;
    BuffersMore(cfg, st.received, st.skb, packets, fate);
    BuffersSame(cfg, s, st.skb, st1.skb, packets, fate);
  }

  lemma BuffersMore(cfg: Config, s: seq<Entry>, skb: map<Entry, nat>, packets: Entry -> Packet, fate: Fate)
    requires s != [] && forall d | d in s :: d in skb
    ensures Last(s) in skb && forall d | d in Init(s) :: d in skb
    ensures BuffersOf(cfg, s, skb, packets, fate) ==
      (if Has(cfg, packets(Last(s)), fate) then [skb[Last(s)]] else []) + BuffersOf(cfg, Init(s), skb, packets, fate)
  {
    assert Last(s) in s && forall d | d in Init(s) :: d in s;
  }

  // With a tasklet every descriptor waits for the tasklet, in the order of
  // arrival, and keeps its buffer only if the packet was faulty.
  ghost predicate AllWait(cfg: Config, st: Flow, st': Flow, packets: Entry -> Packet) {
    && st'.oob == st.received + st.oob && st'.free == st.free && st'.calls == st.calls
    && (forall d | d in st.skb :: d in st'.skb)
    && (forall d | d in st.skb && d !in st.received :: st'.skb[d] == st.skb[d])
    && forall d | d in st.received :: d in st.skb && st'.skb[d] == if Faulty(cfg, packets(d)) then st.skb[d] else 0
  }

  lemma {:induction false} TaskletQueues(cfg: Config, st: Flow, packets: Entry -> Packet)
    requires Known(st) && Unique(st) && cfg.tasklet
    ensures AllWait(cfg, st, Indicate(cfg, st, packets), packets)
    decreases |st.received|
  {
    hide AllWait, Faulty;
    if st.received != [] {
      var p := packets(Last(st.received));
      var st1 := IndicateOne(cfg, st, p);
      IndicateOneKnown(cfg, st, p);
      IndicateOneKeeps(cfg, st, p);
      SameUnique(st, st1);
      LastIsAlone(st);
      hide IndicateOne, Known, Unique;
      TaskletQueues(cfg, st1, packets);
      OneWaits(cfg, st, Indicate(cfg, st1, packets), packets);
    } else {
      NoneWaits(cfg, st, packets);
    }
  }

  lemma NoneWaits(cfg: Config, st: Flow, packets: Entry -> Packet)
    requires st.received == []
    ensures AllWait(cfg, st, st, packets)
  {
    assert [] + st.oob == st.oob;
  }

  lemma OneWaits(cfg: Config, st: Flow, st': Flow, packets: Entry -> Packet)
    requires st.received != [] && Last(st.received) in st.skb && Last(st.received) !in Init(st.received) && cfg.tasklet
    requires AllWait(cfg, IndicateOne(cfg, st, packets(Last(st.received))), st', packets)
    ensures AllWait(cfg, st, st', packets)
  {
    var d := Last(st.received);
    FateMeans(cfg, packets(d));
    hide FateOf, Faulty, Untagged;
    assert st.received == Init(st.received) + [d];
    assert Init(st.received) + ([d] + st.oob) == st.received + st.oob;
  }

  // Without one, a descriptor keeps the buffer of a faulty packet, and gets a
  // new buffer or waits without one otherwise.
  ghost predicate Settled(cfg: Config, st: Flow, st': Flow, d: Entry, p: Packet)
    requires d in st.skb && d in st'.skb
  {
    if Faulty(cfg, p) then d in st'.free && st'.skb[d] == st.skb[d]
    else if st'.skb[d] == 0 then d in st'.oob
    else d in st'.free && st.calls < st'.skb[d] <= st'.calls && cfg.mem(st'.skb[d])
  }

  // what was free, waiting or elsewhere stays so
  ghost predicate Further(st: Flow, st': Flow) {
    && st.calls <= st'.calls && (forall d | d in st.skb :: d in st'.skb)
    && (forall d | d in st.free :: d in st'.free) && (forall d | d in st.oob :: d in st'.oob)
    && (forall d | d in st.skb && d !in st.received :: st'.skb[d] == st.skb[d])
  }

  ghost predicate AllSettled(cfg: Config, st: Flow, st': Flow, packets: Entry -> Packet) {
    Further(st, st') && forall d | d in st.received :: d in st.skb && d in st'.skb && Settled(cfg, st, st', d, packets(d))
  }

  lemma {:induction false} PollingQueues(cfg: Config, st: Flow, packets: Entry -> Packet)
    requires Known(st) && Unique(st) && !cfg.tasklet
    ensures AllSettled(cfg, st, Indicate(cfg, st, packets), packets)
    decreases |st.received|
  {
    hide AllSettled, Faulty;
    if st.received != [] {
      var p := packets(Last(st.received));
      var st1 := IndicateOne(cfg, st, p);
      IndicateOneKnown(cfg, st, p);
      IndicateOneKeeps(cfg, st, p);
      SameUnique(st, st1);
      LastIsAlone(st);
      hide IndicateOne, Known, Unique;
      PollingQueues(cfg, st1, packets);
      OneSettles(cfg, st, Indicate(cfg, st1, packets), packets);
    } else {
      NoneSettles(cfg, st, packets);
    }
  }

  lemma NoneSettles(cfg: Config, st: Flow, packets: Entry -> Packet)
    requires st.received == []
    ensures AllSettled(cfg, st, st, packets)
  {
  }

  lemma OneSettles(cfg: Config, st: Flow, st': Flow, packets: Entry -> Packet)
    requires st.received != [] && Last(st.received) in st.skb && Last(st.received) !in Init(st.received) && !cfg.tasklet
    requires AllSettled(cfg, IndicateOne(cfg, st, packets(Last(st.received))), st', packets)
    ensures AllSettled(cfg, st, st', packets)
  {
    var d, st1 := Last(st.received), IndicateOne(cfg, st, packets(Last(st.received)));
    OneMoves(cfg, st, packets(d));
    hide IndicateOne, Settled;
    assert st.received == Init(st.received) + [d];
    FirstSettled(cfg, st, st1, st', d, packets(d));
    forall e | e in Init(st.received)
      ensures e in st.skb && e in st'.skb && Settled(cfg, st, st', e, packets(e))
    {
      LaterSettled(cfg, st, st1, st', e, packets(e));
    }
  }

  lemma FirstSettled(cfg: Config, st: Flow, st1: Flow, st': Flow, d: Entry, p: Packet)
    requires d in st.skb && d in st1.skb && Settled(cfg, st, st1, d, p) && Further(st1, st') && d !in st1.received
    ensures d in st'.skb && Settled(cfg, st, st', d, p)
  {
    hide Faulty;
  }

  lemma LaterSettled(cfg: Config, st: Flow, st1: Flow, st': Flow, e: Entry, p: Packet)
    requires e in st1.skb && e in st'.skb && Settled(cfg, st1, st', e, p)
    requires e in st.skb && st1.skb[e] == st.skb[e] && st.calls <= st1.calls
    ensures Settled(cfg, st, st', e, p)
  {
    hide Faulty;
  }

  lemma OneMoves(cfg: Config, st: Flow, p: Packet)
    requires st.received != [] && Last(st.received) in st.skb && !cfg.tasklet
    ensures var st1, d := IndicateOne(cfg, st, p), Last(st.received);
      && st1.received == Init(st.received) && st.calls <= st1.calls && st1.skb.Keys == st.skb.Keys
      && (forall e | e in st.free :: e in st1.free) && (forall e | e in st.oob :: e in st1.oob)
      && (forall e | e in st.skb && e != d :: st1.skb[e] == st.skb[e])
      && Settled(cfg, st, st1, d, p)
  {
    FateMeans(cfg, p);
    hide FateOf, Faulty, Untagged;
  }

  // ----- waiting descriptors -----

  // The descriptors at the head of the waiting queue become free in order.
  // Those that needed one got a new buffer each, no more than max if there is a
  // limit, and it ends early only for the limit or for want of memory.
  ghost predicate Refilled(cfg: Config, st: Flow, r: Replenished, max: int, n: int) {
    var k, got := |r.st.oob|, r.st.calls - st.calls - (if r.short then 1 else 0);
    && k <= |st.oob| && r.st.oob == st.oob[..k] && r.st.free == st.oob[k..] + st.free
    && (r.queued <==> k < |st.oob|)
    && 0 <= got <= |st.oob| - k && (max > 0 ==> n + got <= max)
    && (k > 0 ==> r.short || (max > 0 && n + got == max))
    && (r.short ==> k > 0 && !cfg.mem(r.st.calls))
    && (forall c: nat | st.calls < c <= st.calls + got :: cfg.mem(c))
  }

  lemma {:induction false} ReplenishMeans(cfg: Config, st: Flow, max: int, n: int)
    requires Known(st) && (max > 0 ==> 0 <= n < max)
    ensures Refilled(cfg, st, Replenish(cfg, st, max, n), max, n)
    decreases |st.oob|
  {
    hide Refilled;
    if st.oob == [] {
      NoneRefilled(cfg, st, max, n);
    } else {
      var d := Last(st.oob);
      assert d in st.oob && forall e | e in Init(st.oob) :: e in st.oob;
      var st0 := st.(oob := Init(st.oob), free := [d] + st.free);
      var b := Allocated(cfg, st);
      if st.skb[d] != 0 {
        ReplenishMeans(cfg, st0, max, n);
        MoreRefilled(cfg, st, st0, Replenish(cfg, st0, max, n), max, n, n);
      } else if b != 0 {
        var st1 := st0.(skb := st.skb[d := b], calls := st.calls + 1);
        if max > 0 && n + 1 >= max {
          NoneRefilled(cfg, st1, max, n + 1);
          LastRefilled(cfg, st, st1, max, n);
        } else {
          var n1 := if max > 0 then n + 1 else n;
          ReplenishMeans(cfg, st1, max, n1);
          MoreRefilled(cfg, st, st1, Replenish(cfg, st1, max, n1), max, n, n1);
        }
      } else {
        ShortOfMemory(cfg, st, max, n);
      }
    }
  }

  lemma NoneRefilled(cfg: Config, st: Flow, max: int, n: int)
    requires max > 0 ==> n <= max
    requires st.oob == [] || (max > 0 && n == max)
    ensures Refilled(cfg, st, Replenished(st, false, false), max, n)
  {
    assert st.oob[..|st.oob|] == st.oob && st.oob[|st.oob|..] + st.free == st.free;
  }

  lemma LastRefilled(cfg: Config, st: Flow, st1: Flow, max: int, n: int)
    requires st.oob != [] && st1.oob == Init(st.oob) && st1.free == [Last(st.oob)] + st.free
    requires st1.calls == st.calls + 1 && cfg.mem(st1.calls) && max > 0 && n + 1 == max
    ensures Refilled(cfg, st, Replenished(st1, false, true), max, n)
  {
    MovedOver(st.oob, st.free, |st.oob| - 1);
    assert Init(st.oob)[..|st.oob| - 1] == Init(st.oob) && Init(st.oob)[|st.oob| - 1..] + st1.free == st1.free;
  }

  lemma ShortOfMemory(cfg: Config, st: Flow, max: int, n: int)
    requires st.oob != [] && !cfg.mem(st.calls + 1) && (max > 0 ==> n <= max)
    ensures Refilled(cfg, st, Replenished(st.(calls := st.calls + 1), true, false), max, n)
  {
    assert st.oob[..|st.oob|] == st.oob && st.oob[|st.oob|..] + st.free == st.free;
  }

  lemma MoreRefilled(cfg: Config, st: Flow, st1: Flow, r: Replenished, max: int, n: int, n1: int)
    requires st.oob != [] && st1.oob == Init(st.oob) && st1.free == [Last(st.oob)] + st.free
    requires st1.calls == st.calls || (st1.calls == st.calls + 1 && cfg.mem(st1.calls))
    requires max > 0 ==> n1 - n == st1.calls - st.calls
    requires Refilled(cfg, st1, r, max, n1)
    ensures Refilled(cfg, st, r.(queued := true), max, n)
  {
    MovedOver(st.oob, st.free, |r.st.oob|);
  }

  lemma MovedOver(oob: seq<Entry>, free: seq<Entry>, k: nat)
    requires oob != [] && k < |oob|
    ensures Init(oob)[..k] == oob[..k] && Init(oob)[k..] + ([Last(oob)] + free) == oob[k..] + free
  {
    assert oob[k..] == Init(oob)[k..] + [Last(oob)];
  }

  // ----- the start and the end -----

  // the i-th descriptor from the head of the free queue
  function FromHead(s: seq<Entry>, i: nat): Entry
    requires 0 < i <= |s|
  {
    s[|s| - i]
  }

  // one of the first k from the head
  ghost predicate AtHead(s: seq<Entry>, k: nat, d: Entry)
    requires k <= |s|
  {
    exists i | 0 < i <= k :: FromHead(s, i) == d
  }

  ghost predicate OthersKept(st: Flow, st': Flow, k: nat)
    requires k <= |st.free|
  {
    && (forall d | d in st.oob :: d in st'.oob)
    && (forall d | d in st.free && !AtHead(st.free, k, d) :: d in st'.free)
    && (forall d | d in st.skb && !AtHead(st.free, k, d) :: d in st'.skb && st'.skb[d] == st.skb[d])
  }

  // it got the buffer of the i-th call, or waits if that call got none
  ghost predicate GivenAt(cfg: Config, st: Flow, st': Flow, i: nat)
    requires 0 < i <= |st.free|
  {
    var d := FromHead(st.free, i);
    d in st'.skb && if cfg.mem(st.calls + i) then st'.skb[d] == st.calls + i && d in st'.free else st'.skb[d] == 0 && d in st'.oob
  }

  // Every descriptor at the start gets the buffer of the call made for it, or
  // waits if that call got none.
  ghost predicate Started(cfg: Config, st: Flow, st': Flow, k: nat)
    requires k <= |st.free|
  {
    st'.calls == st.calls + k && OthersKept(st, st', k) && forall i | 0 < i <= k :: GivenAt(cfg, st, st', i)
  }

  lemma {:induction false} StartMeans(cfg: Config, st: Flow, k: nat)
    requires Known(st) && Unique(st) && k <= |st.free|
    requires forall i | 0 < i <= k :: FromHead(st.free, i) in st.skb && st.skb[FromHead(st.free, i)] == 0
    ensures Started(cfg, st, InitMany(cfg, st, k), k)
    decreases k
  {
    hide Started;
    if k == 0 {
      NoneStarted(cfg, st);
    } else {
      InitOneKnown(cfg, st);
      LastIsAlone(st);
      InitOnePlaces(cfg, st);
      SameUnique(st, InitOne(cfg, st));
      HeadsMove(cfg, st, k);
      hide Known, Unique, InitOne, FromHead;
      StartMeans(cfg, InitOne(cfg, st), k - 1);
      OneStarted(cfg, st, InitMany(cfg, InitOne(cfg, st), k - 1), k);
    }
  }

  lemma NoneStarted(cfg: Config, st: Flow)
    ensures Started(cfg, st, st, 0)
  {
  }

  lemma HeadsMove(cfg: Config, st: Flow, k: nat)
    requires 0 < k <= |st.free| && Last(st.free) !in Init(st.free)
    requires forall i | 0 < i <= k :: FromHead(st.free, i) in st.skb && st.skb[FromHead(st.free, i)] == 0
    ensures Last(st.free) in st.skb && st.skb[Last(st.free)] == 0
    ensures var st1 := InitOne(cfg, st);
      && k - 1 <= |st1.free|
      && forall i | 0 < i <= k - 1 :: FromHead(st1.free, i) == FromHead(st.free, i + 1) && FromHead(st1.free, i) in st1.skb && st1.skb[FromHead(st1.free, i)] == 0
  {
    assert FromHead(st.free, 1) == Last(st.free);
    var st1 := InitOne(cfg, st);
    assert st1.free == Init(st.free) || st1.free == [Last(st.free)] + Init(st.free);
    forall i | 0 < i <= k - 1
      ensures i <= |st1.free| && FromHead(st1.free, i) == FromHead(st.free, i + 1)
      ensures FromHead(st1.free, i) in st1.skb && st1.skb[FromHead(st1.free, i)] == 0
    {
      HeadBefore(st.free, i + 1);
      assert FromHead(Init(st.free), i) == FromHead(st.free, i + 1);
    }
  }

  lemma OneStarted(cfg: Config, st: Flow, st': Flow, k: nat)
    requires 0 < k <= |st.free| && Last(st.free) !in Init(st.free) && Last(st.free) in st.skb && st.skb[Last(st.free)] == 0
    requires var st1 := InitOne(cfg, st);
      k - 1 <= |st1.free| && Started(cfg, st1, st', k - 1) && forall i | 0 < i <= k - 1 :: FromHead(st1.free, i) == FromHead(st.free, i + 1)
    ensures Started(cfg, st, st', k)
  {
    var d, st1 := Last(st.free), InitOne(cfg, st);
    OneGiven(cfg, st);
    hide InitOne, OthersKept, AtHead, GivenAt;
    assert FromHead(st.free, 1) == d;
    FirstNotAgain(st, st1, k);
    FirstKept(st1, st', k - 1, d);
    GivenFirst(cfg, st, st1, st');
    OthersStill(st, st1, st', k);
    forall i | 0 < i <= k
      ensures GivenAt(cfg, st, st', i)
    {
      if i > 1 {
        GivenLater(cfg, st, st1, st', i);
      }
    }
  }

  lemma GivenFirst(cfg: Config, st: Flow, st1: Flow, st': Flow)
    requires st.free != [] && Last(st.free) in st1.skb && Last(st.free) in st'.skb && st'.skb[Last(st.free)] == st1.skb[Last(st.free)]
    requires var d := Last(st.free);
      && st1.skb[d] == (if cfg.mem(st.calls + 1) then st.calls + 1 else 0)
      && (if cfg.mem(st.calls + 1) then d in st'.free else d in st'.oob)
    ensures GivenAt(cfg, st, st', 1)
  {
  }

  lemma GivenLater(cfg: Config, st: Flow, st1: Flow, st': Flow, i: nat)
    requires 1 < i <= |st.free| && i - 1 <= |st1.free| && FromHead(st1.free, i - 1) == FromHead(st.free, i)
    requires st1.calls == st.calls + 1 && GivenAt(cfg, st1, st', i - 1)
    ensures GivenAt(cfg, st, st', i)
  {
  }

  lemma FirstNotAgain(st: Flow, st1: Flow, k: nat)
    requires 0 < k <= |st.free| && Last(st.free) !in Init(st.free) && k - 1 <= |st1.free|
    requires forall i | 0 < i <= k - 1 :: FromHead(st1.free, i) == FromHead(st.free, i + 1)
    ensures !AtHead(st1.free, k - 1, Last(st.free))
  {
    forall i | 0 < i <= k - 1
      ensures FromHead(st1.free, i) != Last(st.free)
    {
      HeadBefore(st.free, i + 1);
    }
  }

  lemma FirstKept(st1: Flow, st': Flow, k: nat, d: Entry)
    requires k <= |st1.free| && OthersKept(st1, st', k) && !AtHead(st1.free, k, d) && d in st1.skb
    ensures d in st'.skb && st'.skb[d] == st1.skb[d] && (d in st1.free ==> d in st'.free) && (d in st1.oob ==> d in st'.oob)
  {
  }

  lemma OthersStill(st: Flow, st1: Flow, st': Flow, k: nat)
    requires 0 < k <= |st.free| && k - 1 <= |st1.free| && OthersKept(st1, st', k - 1)
    requires forall i | 0 < i <= k - 1 :: FromHead(st1.free, i) == FromHead(st.free, i + 1)
    requires (forall e | e in st.oob :: e in st1.oob) && (forall e | e in Init(st.free) :: e in st1.free)
    requires forall e | e in st.skb && e != Last(st.free) :: e in st1.skb && st1.skb[e] == st.skb[e]
    ensures OthersKept(st, st', k)
  {
    forall e | !AtHead(st.free, k, e)
      ensures !AtHead(st1.free, k - 1, e) && e != Last(st.free)
    {
      assert FromHead(st.free, 1) != e;
    }
    hide AtHead;
    assert st.free == Init(st.free) + [Last(st.free)];
  }

  lemma HeadBefore(s: seq<Entry>, i: nat)
    requires 1 < i <= |s| && Last(s) !in Init(s)
    ensures FromHead(s, i) != Last(s)
  {
    assert FromHead(s, i) in Init(s);
  }

  lemma OneGiven(cfg: Config, st: Flow)
    requires st.free != [] && Last(st.free) in st.skb && st.skb[Last(st.free)] == 0
    ensures var d, st1 := Last(st.free), InitOne(cfg, st);
      && st1.calls == st.calls + 1 && (forall e | e in st.oob :: e in st1.oob) && (forall e | e in Init(st.free) :: e in st1.free)
      && st1.skb == st.skb[d := if cfg.mem(st.calls + 1) then st.calls + 1 else 0]
      && (if cfg.mem(st.calls + 1) then d in st1.free else d in st1.oob)
  {
  }

  // every buffer of a waiting descriptor is freed at the end, and no other
  ghost predicate AllFreed(st: Flow, freed: seq<nat>) {
    && st.freed <= freed
    && (forall d | d in st.oob && d in st.skb && st.skb[d] != 0 :: st.skb[d] in freed)
    && forall b | b in freed :: b in st.freed || exists d | d in st.oob && d in st.skb :: st.skb[d] == b
  }

  lemma {:induction false} EndFrees(st: Flow)
    requires Known(st) && Unique(st)
    ensures AllFreed(st, FreeAll(st).freed)
    decreases |st.oob|
  {
    hide AllFreed;
    if st.oob != [] {
      FreeOneKnown(st);
      LastIsAlone(st);
      MovedToFree(st, FreeOne(st));
      SameUnique(st, FreeOne(st));
      EndFrees(FreeOne(st));
      OneFreed(st, FreeAll(st).freed);
    } else {
      NoneFreed(st);
    }
  }

  lemma NoneFreed(st: Flow)
    requires st.oob == []
    ensures AllFreed(st, st.freed)
  {
  }

  lemma OneFreed(st: Flow, freed: seq<nat>)
    requires st.oob != [] && Last(st.oob) in st.skb && Last(st.oob) !in Init(st.oob) && AllFreed(FreeOne(st), freed)
    ensures AllFreed(st, freed)
  {
    var d, st1 := Last(st.oob), FreeOne(st);
    assert st.oob == Init(st.oob) + [d];
    assert freed == st1.freed + freed[|st1.freed|..];
    assert st.freed <= st1.freed && d in st.oob;
    forall b | b in freed
      ensures b in st.freed || exists e | e in st.oob && e in st.skb :: st.skb[e] == b
    {
      if b !in st1.freed {
        var e :| e in st1.oob && e in st1.skb && st1.skb[e] == b;
        assert e in st.oob && st.skb[e] == b;
      } else if b !in st.freed {
        assert b == st.skb[d];
      }
    }
  }
}
