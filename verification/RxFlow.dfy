/** The receive path of the Broadcom driver: packet descriptors moving between
    the free, received and out-of-buffer queues, and the buffers they carry. */
module RxFlow {
  import opened Queue

  // How the driver is built and set up: with a tasklet or with polling, the
  // largest packet, and whether VLAN tags are kept. mem tells which of the
  // calls to dev_alloc_skb get a buffer; call number n gets buffer number n.
  datatype Config = Config(tasklet: bool, mtu: int, keepVlanTag: bool, mem: nat -> bool)

  // what the chip reported of a packet
  datatype Packet = Packet(success: bool, size: int, tagged: bool)

  datatype Fate = Reused | Dropped | Passed

  function FateOf(cfg: Config, p: Packet): Fate {
    if !p.success || p.size > cfg.mtu + (if cfg.keepVlanTag then 4 else 0) then Reused
    else if p.size > cfg.mtu && !p.tagged then Dropped
    else Passed
  }

  // The queues from tail to head, the descriptors the chip has, the buffer of
  // each descriptor (0 is none), the calls for memory so far, the buffers
  // passed up and those freed, and the error counter.
  datatype Flow = Flow(free: seq<Entry>, received: seq<Entry>, oob: seq<Entry>, chip: seq<Entry>,
    skb: map<Entry, nat>, calls: nat, passed: seq<nat>, freed: seq<nat>, errors: nat)

  function Init(s: seq<Entry>): seq<Entry>
    requires s != []
  {
    s[..|s| - 1]
  }

  function Last(s: seq<Entry>): Entry
    requires s != []
  {
    s[|s| - 1]
  }

  // dev_alloc_skb: the buffer, or 0
  function Allocated(cfg: Config, st: Flow): nat {
    if cfg.mem(st.calls + 1) then st.calls + 1 else 0
  }

  // ----- what the functions compute -----

  // The received packet at the head of its queue is dealt with.
  function IndicateOne(cfg: Config, st: Flow, p: Packet): Flow
    requires st.received != [] && Last(st.received) in st.skb
  {
    var d := Last(st.received);
    var st := st.(received := Init(st.received));
    match FateOf(cfg, p)
    case Reused =>
      var st := st.(errors := st.errors + 1);
      if cfg.tasklet then st.(oob := [d] + st.oob) else st.(free := [d] + st.free)
    case Dropped => Refill(cfg, st.(freed := st.freed + [st.skb[d]], errors := st.errors + 1), d)
    case Passed => Refill(cfg, st.(passed := st.passed + [st.skb[d]]), d)
  }

  // a descriptor that gave its buffer away gets a new one, or waits for one
  function Refill(cfg: Config, st: Flow, d: Entry): Flow {
    if cfg.tasklet then st.(skb := st.skb[d := 0], oob := [d] + st.oob)
    else
      var b := Allocated(cfg, st);
      var st := st.(skb := st.skb[d := b], calls := st.calls + 1);
      if b == 0 then st.(oob := [d] + st.oob) else st.(free := [d] + st.free)
  }

  ghost predicate Known(st: Flow) {
    forall d | d in st.free || d in st.received || d in st.oob || d in st.chip :: d in st.skb
  }

  lemma IndicateOneKnown(cfg: Config, st: Flow, p: Packet)
    requires Known(st) && st.received != []
    ensures Last(st.received) in st.received && Known(IndicateOne(cfg, st, p))
    ensures IndicateOne(cfg, st, p).received == Init(st.received)
  {
  }

  ghost function Indicate(cfg: Config, st: Flow, packets: Entry -> Packet): Flow
    requires Known(st)
    decreases |st.received|
  {
    if st.received == [] then st
    else
      var p := packets(Last(st.received));
      IndicateOneKnown(cfg, st, p);
      Indicate(cfg, IndicateOne(cfg, st, p), packets)
  }

  // replenish_rx_buffers: the new state, whether memory ran out, and whether
  // a descriptor became free; n buffers were got before
  datatype Replenished = Replenished(st: Flow, short: bool, queued: bool)

  ghost function Replenish(cfg: Config, st: Flow, max: int, n: int): Replenished
    requires Known(st)
    decreases |st.oob|
  {
    if st.oob == [] then Replenished(st, false, false)
    else
      var d := Last(st.oob);
      assert d in st.oob;
      var st' := st.(oob := Init(st.oob));
      if st.skb[d] != 0 then Replenish(cfg, st'.(free := [d] + st.free), max, n).(queued := true)
      else
        var b := Allocated(cfg, st);
        if b == 0 then Replenished(st.(calls := st.calls + 1), true, false)
        else
          var st' := st'.(skb := st.skb[d := b], calls := st.calls + 1, free := [d] + st.free);
          if max > 0 && n + 1 >= max then Replenished(st', false, true)
          else Replenish(cfg, st', max, if max > 0 then n + 1 else n).(queued := true)
  }

  // MM_InitializeUmPackets: k more descriptors get a buffer
  function InitOne(cfg: Config, st: Flow): Flow
    requires st.free != [] && Last(st.free) in st.skb
  {
    var d := Last(st.free);
    var st' := st.(free := Init(st.free));
    if st.skb[d] != 0 then st'.(free := [d] + st'.free)
    else
      var b := Allocated(cfg, st);
      var st' := st'.(skb := st.skb[d := b], calls := st.calls + 1);
      if b == 0 then st'.(oob := [d] + st.oob) else st'.(free := [d] + st'.free)
  }

  // ----- what they keep -----

  // where all descriptors are
  function Everywhere(st: Flow): multiset<Entry> {
    multiset(st.free) + multiset(st.received) + multiset(st.oob) + multiset(st.chip)
  }

  function Total(st: Flow): nat {
    |st.free| + |st.received| + |st.oob| + |st.chip|
  }

  lemma EverywhereTotal(st: Flow)
    ensures |Everywhere(st)| == Total(st)
  {
  }

  lemma SplitLast(s: seq<Entry>)
    requires s != []
    ensures multiset(s) == multiset(Init(s)) + multiset{Last(s)}
  {
    assert s == Init(s) + [Last(s)];
  }

  // Every buffer number is in one place: with one descriptor, passed up, or freed.
  ghost predicate Owned(st: Flow) {
    && (forall d | d in st.skb && st.skb[d] != 0 :: st.skb[d] <= st.calls && st.skb[d] !in st.passed && st.skb[d] !in st.freed)
    && (forall d, e | d in st.skb && e in st.skb && d != e && st.skb[d] != 0 :: st.skb[d] != st.skb[e])
    && (forall b | b in st.passed || b in st.freed :: b <= st.calls)
    && (forall b | b in st.passed :: b !in st.freed)
    && NoDuplicates(st.passed) && NoDuplicates(st.freed)
  }

  ghost predicate NoDuplicates(s: seq<nat>) {
    forall i, j | 0 <= i < j < |s| :: s[i] != s[j]
  }

  // Descriptors that can receive have a buffer; without a tasklet the others have none.
  ghost predicate Buffered(cfg: Config, st: Flow)
    requires Known(st)
  {
    && (forall d | d in st.free || d in st.received || d in st.chip :: st.skb[d] != 0)
    && (!cfg.tasklet ==> forall d | d in st.oob :: st.skb[d] == 0)
  }

  // no descriptor is in two places
  ghost predicate Unique(st: Flow) {
    forall d :: Everywhere(st)[d] <= 1
  }

  lemma IndicateOneKeeps(cfg: Config, st: Flow, p: Packet)
    requires Known(st) && st.received != []
    ensures Last(st.received) in st.skb
    ensures Everywhere(IndicateOne(cfg, st, p)) == Everywhere(st) && IndicateOne(cfg, st, p).chip == st.chip
  {
    hide Everywhere;
    assert Last(st.received) in st.received;
    Moved(st, IndicateOne(cfg, st, p));
  }

  // the last received descriptor went to one of the other queues
  lemma Moved(st: Flow, st': Flow)
    requires st.received != [] && st'.received == Init(st.received) && st'.chip == st.chip
    requires var d := Last(st.received);
      || (st'.free == [d] + st.free && st'.oob == st.oob)
      || (st'.free == st.free && st'.oob == [d] + st.oob)
    ensures Everywhere(st') == Everywhere(st)
  {
    SplitLast(st.received);
    var d := Last(st.received);
    if st'.free == [d] + st.free && st'.oob == st.oob {
      assert multiset(st'.free) == multiset{d} + multiset(st.free);
    } else {
      assert multiset(st'.oob) == multiset{d} + multiset(st.oob);
    }
  }

  // the popped descriptor is nowhere else
  lemma LastIsAlone(st: Flow)
    requires Unique(st)
    ensures st.received != [] ==> var d := Last(st.received);
      d !in st.free && d !in Init(st.received) && d !in st.oob && d !in st.chip
    ensures st.oob != [] ==> var d := Last(st.oob);
      d !in st.free && d !in st.received && d !in Init(st.oob) && d !in st.chip
    ensures st.free != [] ==> var d := Last(st.free);
      d !in Init(st.free) && d !in st.received && d !in st.oob && d !in st.chip
  {
    if st.received != [] {
      SplitLast(st.received);
      assert Everywhere(st)[Last(st.received)] <= 1;
    }
    if st.oob != [] {
      SplitLast(st.oob);
      assert Everywhere(st)[Last(st.oob)] <= 1;
    }
    if st.free != [] {
      SplitLast(st.free);
      assert Everywhere(st)[Last(st.free)] <= 1;
    }
  }

  lemma RefillOwned(cfg: Config, st: Flow, d: Entry)
    requires Owned(st.(skb := st.skb[d := 0]))
    ensures Owned(Refill(cfg, st, d))
  {
    hide Owned;
    var st0 := st.(skb := st.skb[d := 0]);
    if cfg.tasklet {
      SameOwners(st0, Refill(cfg, st, d));
    } else {
      var b := Allocated(cfg, st);
      Asked(st0, d, b);
      assert st0.skb[d := b] == st.skb[d := b];
      SameOwners(st0.(skb := st0.skb[d := b], calls := st.calls + 1), Refill(cfg, st, d));
    }
  }

  lemma GivenAway(st: Flow, d: Entry)
    requires d in st.skb && st.skb[d] != 0 && Owned(st)
    ensures Owned(st.(skb := st.skb[d := 0], passed := st.passed + [st.skb[d]]))
    ensures Owned(st.(skb := st.skb[d := 0], freed := st.freed + [st.skb[d]]))
  {
  }

  // counters and queues do not matter to the owners of buffers
  lemma SameOwners(st: Flow, st': Flow)
    requires Owned(st) && st'.skb == st.skb && st'.calls == st.calls && st'.passed == st.passed && st'.freed == st.freed
    ensures Owned(st')
  {
  }

  lemma IndicateOneOwned(cfg: Config, st: Flow, p: Packet)
    requires Known(st) && st.received != [] && Last(st.received) in st.skb && st.skb[Last(st.received)] != 0
    requires Owned(st)
    ensures Owned(IndicateOne(cfg, st, p))
  {
    hide Owned, Refill;
    var d := Last(st.received);
    var st1 := st.(received := Init(st.received));
    SameOwners(st, st1);
    GivenAway(st1, d);
    match FateOf(cfg, p) {
      case Reused => SameOwners(st, IndicateOne(cfg, st, p));
      case Dropped =>
        var st2 := st1.(freed := st.freed + [st.skb[d]], errors := st.errors + 1);
        SameOwners(st1.(skb := st.skb[d := 0], freed := st.freed + [st.skb[d]]), st2.(skb := st.skb[d := 0]));
        RefillOwned(cfg, st2, d);
      case Passed => RefillOwned(cfg, st1.(passed := st.passed + [st.skb[d]]), d);
    }
  }

  // where the last received descriptor goes, and with what
  ghost predicate Placed(cfg: Config, st: Flow, st': Flow)
    requires st.received != []
  {
    var d := Last(st.received);
    && d in st'.skb && (forall e | e in st.skb && e != d :: e in st'.skb && st'.skb[e] == st.skb[e])
    && st'.received == Init(st.received) && st'.chip == st.chip
    && ((st'.free == [d] + st.free && st'.oob == st.oob && st'.skb[d] != 0)
      || (st'.free == st.free && st'.oob == [d] + st.oob && (cfg.tasklet || st'.skb[d] == 0)))
  }

  lemma IndicateOnePlaced(cfg: Config, st: Flow, p: Packet)
    requires st.received != [] && Last(st.received) in st.skb && st.skb[Last(st.received)] != 0
    ensures Placed(cfg, st, IndicateOne(cfg, st, p))
  {
    hide FateOf;
  }

  lemma PlacedBuffered(cfg: Config, st: Flow, st': Flow)
    requires st.received != [] && Placed(cfg, st, st') && Known(st) && Known(st') && Unique(st) && Buffered(cfg, st)
    ensures Buffered(cfg, st')
    ensures forall e | e in Init(st.received) :: e in st'.skb && st'.skb[e] == st.skb[e]
  {
    LastIsAlone(st);
    hide Unique;
    assert forall e | e in Init(st.received) :: e in st.received;
  }

  lemma IndicateOneBuffered(cfg: Config, st: Flow, p: Packet)
    requires Known(st) && st.received != [] && Last(st.received) in st.skb && Unique(st) && Buffered(cfg, st)
    ensures Known(IndicateOne(cfg, st, p)) && Buffered(cfg, IndicateOne(cfg, st, p))
    ensures forall e | e in Init(st.received) :: e in IndicateOne(cfg, st, p).skb && IndicateOne(cfg, st, p).skb[e] == st.skb[e]
  {
    IndicateOneKnown(cfg, st, p);
    LastHasBuffer(cfg, st);
    hide IndicateOne, Placed, Known, Unique, Buffered;
    IndicateOnePlaced(cfg, st, p);
    PlacedBuffered(cfg, st, IndicateOne(cfg, st, p));
  }

  // the buffers to be passed up, in the order the packets arrived
  ghost function PassedBuffers(cfg: Config, received: seq<Entry>, skb: map<Entry, nat>, packets: Entry -> Packet): seq<nat>
    requires forall d | d in received :: d in skb
  {
    if received == [] then []
    else
      var d := Last(received);
      assert d in received;
      (if FateOf(cfg, packets(d)).Passed? then [skb[d]] else []) + PassedBuffers(cfg, Init(received), skb, packets)
  }

  lemma {:induction false} PassedBuffersSame(cfg: Config, received: seq<Entry>, skb: map<Entry, nat>, skb': map<Entry, nat>, packets: Entry -> Packet)
    requires forall d | d in received :: d in skb && d in skb' && skb[d] == skb'[d]
    ensures PassedBuffers(cfg, received, skb, packets) == PassedBuffers(cfg, received, skb', packets)
  {
    if received != [] {
      assert Last(received) in received;
      PassedBuffersSame(cfg, Init(received), skb, skb', packets);
    }
  }

  // All received packets are dealt with: every descriptor stays in exactly one
  // place, buffers keep one owner each, and the good packets are passed up in
  // the order they arrived.
  lemma {:induction false} IndicateKeeps(cfg: Config, st: Flow, packets: Entry -> Packet)
    requires Known(st) && Unique(st) && Owned(st) && Buffered(cfg, st)
    ensures var st' := Indicate(cfg, st, packets);
      && Known(st') && st'.received == [] && st'.chip == st.chip && Everywhere(st') == Everywhere(st)
      && Owned(st') && Buffered(cfg, st')
      && st'.passed == st.passed + PassedBuffers(cfg, st.received, st.skb, packets)
    decreases |st.received|
  {
    hide Unique, Owned, Buffered, Everywhere, IndicateOne, PassedBuffers, Known;
    if st.received == [] {
      NonePassed(cfg, st, packets);
    } else {
      OneIndicated(cfg, st, packets);
      IndicateKeeps(cfg, IndicateOne(cfg, st, packets(Last(st.received))), packets);
    }
  }

  lemma NonePassed(cfg: Config, st: Flow, packets: Entry -> Packet)
    requires Known(st) && st.received == []
    ensures PassedBuffers(cfg, st.received, st.skb, packets) == []
  {
  }

  // one packet of the loop
  lemma OneIndicated(cfg: Config, st: Flow, packets: Entry -> Packet)
    requires Known(st) && Unique(st) && Owned(st) && Buffered(cfg, st) && st.received != []
    ensures Last(st.received) in st.skb
    ensures var st' := IndicateOne(cfg, st, packets(Last(st.received)));
      && Known(st') && Unique(st') && Owned(st') && Buffered(cfg, st')
      && st'.received == Init(st.received) && st'.chip == st.chip && Everywhere(st') == Everywhere(st)
      && st'.passed + PassedBuffers(cfg, st'.received, st'.skb, packets)
        == st.passed + PassedBuffers(cfg, st.received, st.skb, packets)
  {
    hide Unique, Owned, Buffered, Everywhere, IndicateOne, FateOf;
    var p := packets(Last(st.received));
    var st1 := IndicateOne(cfg, st, p);
    IndicateOneKnown(cfg, st, p);
    IndicateOneKeeps(cfg, st, p);
    IndicateOneBuffered(cfg, st, p);
    LastHasBuffer(cfg, st);
    IndicateOneOwned(cfg, st, p);
    SameUnique(st, st1);
    IndicateOnePassed(cfg, st, p);
    assert forall d | d in st1.received :: d in st.received;
    PassedBuffersSame(cfg, st1.received, st.skb, st1.skb, packets);
  }

  lemma LastHasBuffer(cfg: Config, st: Flow)
    requires Known(st) && Buffered(cfg, st)
    ensures st.received != [] ==> Last(st.received) in st.skb && st.skb[Last(st.received)] != 0
    ensures st.received != [] ==> Last(st.received) in st.received
  {
  }

  lemma SameUnique(st: Flow, st': Flow)
    requires Unique(st) && Everywhere(st') == Everywhere(st)
    ensures Unique(st')
  {
  }

  lemma IndicateOnePassed(cfg: Config, st: Flow, p: Packet)
    requires st.received != [] && Last(st.received) in st.skb
    ensures var d := Last(st.received);
      IndicateOne(cfg, st, p).passed == st.passed + if FateOf(cfg, p).Passed? then [st.skb[d]] else []
  {
  }

  // ----- getting buffers -----

  // the descriptor at the head of the out-of-buffer queue became free, with a buffer
  lemma BecameFree(cfg: Config, st: Flow, st': Flow)
    requires Known(st) && Unique(st) && Buffered(cfg, st) && st.oob != []
    requires var d := Last(st.oob);
      && st'.oob == Init(st.oob) && st'.free == [d] + st.free && st'.received == st.received && st'.chip == st.chip
      && d in st'.skb && st'.skb[d] != 0 && st'.skb.Keys == st.skb.Keys
      && forall e | e in st.skb && e != d :: st'.skb[e] == st.skb[e]
    ensures Known(st') && Unique(st') && Buffered(cfg, st') && Everywhere(st') == Everywhere(st)
  {
    var d := Last(st.oob);
    LastIsAlone(st);
    MovedToFree(st, st');
    assert d in st.oob && forall e | e in Init(st.oob) :: e in st.oob;
    SameUnique(st, st');
  }

  lemma MovedToFree(st: Flow, st': Flow)
    requires st.oob != [] && st'.oob == Init(st.oob) && st'.free == [Last(st.oob)] + st.free
    requires st'.received == st.received && st'.chip == st.chip
    ensures Everywhere(st') == Everywhere(st)
  {
    SplitLast(st.oob);
    assert multiset(st'.free) == multiset{Last(st.oob)} + multiset(st.free);
  }

  // memory was asked for, and given to d if there was any
  lemma Asked(st: Flow, d: Entry, b: nat)
    requires Owned(st) && d in st.skb && st.skb[d] == 0 && (b == 0 || b == st.calls + 1)
    ensures Owned(st.(skb := st.skb[d := b], calls := st.calls + 1))
  {
  }

  lemma AskedInVain(cfg: Config, st: Flow)
    requires Known(st) && Unique(st) && Buffered(cfg, st) && Owned(st)
    ensures var st' := st.(calls := st.calls + 1);
      Known(st') && Unique(st') && Buffered(cfg, st') && Owned(st') && Everywhere(st') == Everywhere(st)
  {
    var st' := st.(calls := st.calls + 1);
    assert Everywhere(st') == Everywhere(st);
    SameUnique(st, st');
  }

  // Descriptors leave the out-of-buffer queue from its head; memory is short
  // exactly if the last call for it failed, and its descriptor stays in place.
  lemma {:induction false} ReplenishKeeps(cfg: Config, st: Flow, max: int, n: int)
    requires Known(st) && Unique(st) && Owned(st) && Buffered(cfg, st)
    ensures var r := Replenish(cfg, st, max, n);
      && Known(r.st) && r.st.received == st.received && r.st.chip == st.chip && Everywhere(r.st) == Everywhere(st)
      && Owned(r.st) && Buffered(cfg, r.st)
      && r.st.oob <= st.oob
      && (r.short ==> r.st.oob != [] && r.st.calls > 0 && !cfg.mem(r.st.calls))
      && (!r.short && max <= 0 ==> r.st.oob == [])
    decreases |st.oob|
  {
    hide Unique, Owned, Everywhere, Buffered;
    if st.oob != [] {
      var d := Last(st.oob);
      assert d in st.oob;
      var b := Allocated(cfg, st);
      if st.skb[d] != 0 {
        var st1 := st.(oob := Init(st.oob), free := [d] + st.free);
        BecameFree(cfg, st, st1);
        SameOwners(st, st1);
        ReplenishKeeps(cfg, st1, max, n);
      } else if b == 0 {
        AskedInVain(cfg, st);
      } else {
        var st1 := st.(oob := Init(st.oob), skb := st.skb[d := b], calls := st.calls + 1, free := [d] + st.free);
        BecameFree(cfg, st, st1);
        Asked(st, d, b);
        SameOwners(st.(skb := st.skb[d := b], calls := st.calls + 1), st1);
        if !(max > 0 && n + 1 >= max) {
          ReplenishKeeps(cfg, st1, max, if max > 0 then n + 1 else n);
        }
      }
    }
  }

  // ----- the start and the end -----

  // MM_InitializeUmPackets for the next k descriptors of the free queue
  ghost function InitMany(cfg: Config, st: Flow, k: nat): Flow
    requires Known(st) && k <= |st.free|
    decreases k
  {
    if k == 0 then st
    else
      InitOneKnown(cfg, st);
      InitMany(cfg, InitOne(cfg, st), k - 1)
  }

  lemma InitOneKnown(cfg: Config, st: Flow)
    requires Known(st) && st.free != []
    ensures Last(st.free) in st.skb && Known(InitOne(cfg, st)) && |InitOne(cfg, st).free| >= |st.free| - 1
  {
    assert Last(st.free) in st.free;
  }

  lemma InitOneKeeps(cfg: Config, st: Flow)
    requires Known(st) && st.free != [] && Last(st.free) in st.skb && Unique(st) && Owned(st)
    ensures var st' := InitOne(cfg, st);
      && st'.received == st.received && st'.chip == st.chip && Everywhere(st') == Everywhere(st) && Unique(st') && Owned(st')
  {
    hide Owned, Everywhere;
    var d := Last(st.free);
    var st' := InitOne(cfg, st);
    InitOnePlaces(cfg, st);
    SameUnique(st, st');
    if st.skb[d] != 0 {
      SameOwners(st, st');
    } else {
      Asked(st, d, Allocated(cfg, st));
      SameOwners(st.(skb := st.skb[d := Allocated(cfg, st)], calls := st.calls + 1), st');
    }
  }

  // all but the next k of the free descriptors have a buffer
  ghost predicate InitDone(st: Flow, k: nat)
    requires Known(st)
  {
    && k <= |st.free|
    && (forall i | 0 <= i < |st.free| - k :: st.free[i] in st.skb && st.skb[st.free[i]] != 0)
    && (forall d | d in st.received || d in st.chip :: st.skb[d] != 0)
    && (forall d | d in st.oob :: st.skb[d] == 0)
  }

  lemma InitOneDone(cfg: Config, st: Flow, k: nat)
    requires Known(st) && Unique(st) && 0 < k && InitDone(st, k) && Last(st.free) in st.skb
    ensures Known(InitOne(cfg, st)) && InitDone(InitOne(cfg, st), k - 1)
  {
    InitOneKnown(cfg, st);
    LastIsAlone(st);
    InitOneFree(cfg, st, k);
    hide Unique;
  }

  lemma InitOneFree(cfg: Config, st: Flow, k: nat)
    requires 0 < k <= |st.free| && Last(st.free) in st.skb && Last(st.free) !in Init(st.free)
    requires forall i | 0 <= i < |st.free| - k :: st.free[i] in st.skb && st.skb[st.free[i]] != 0
    ensures var st' := InitOne(cfg, st);
      forall i | 0 <= i < |st'.free| - (k - 1) :: st'.free[i] in st'.skb && st'.skb[st'.free[i]] != 0
  {
    var st' := InitOne(cfg, st);
    var m := |st'.free| - |st.free| + 1;
    forall i | 0 <= i < |st'.free| - (k - 1)
      ensures st'.free[i] in st'.skb && st'.skb[st'.free[i]] != 0
    {
      if i >= m {
        assert st'.free[i] == Init(st.free)[i - m] == st.free[i - m];
        assert st.free[i - m] in Init(st.free);
      }
    }
  }

  // After the start every descriptor has a buffer or waits for one.
  lemma {:induction false} InitManyKeeps(cfg: Config, st: Flow, k: nat)
    requires Known(st) && Unique(st) && Owned(st) && InitDone(st, k)
    ensures var st' := InitMany(cfg, st, k);
      && Known(st') && Everywhere(st') == Everywhere(st) && st'.received == st.received && st'.chip == st.chip
      && Owned(st') && Buffered(cfg, st') && forall d | d in st'.oob :: st'.skb[d] == 0
    decreases k
  {
    hide Unique, Owned, Everywhere, InitOne;
    if k == 0 {
      assert forall d | d in st.free :: exists i :: 0 <= i < |st.free| && st.free[i] == d;
    } else {
      InitOneKnown(cfg, st);
      InitOneKeeps(cfg, st);
      InitOneDone(cfg, st, k);
      InitManyKeeps(cfg, InitOne(cfg, st), k - 1);
    }
  }

  // bcm5700_free_remaining_rx_bufs
  function FreeOne(st: Flow): Flow
    requires st.oob != [] && Last(st.oob) in st.skb
  {
    var d := Last(st.oob);
    var st' := st.(oob := Init(st.oob), free := [d] + st.free);
    if st.skb[d] != 0 then st'.(skb := st.skb[d := 0], freed := st.freed + [st.skb[d]]) else st'
  }

  ghost function FreeAll(st: Flow): Flow
    requires Known(st)
    decreases |st.oob|
  {
    if st.oob == [] then st
    else
      FreeOneKnown(st);
      FreeAll(FreeOne(st))
  }

  lemma FreeOneKnown(st: Flow)
    requires Known(st) && st.oob != []
    ensures Last(st.oob) in st.skb && Known(FreeOne(st)) && FreeOne(st).oob == Init(st.oob)
  {
    assert Last(st.oob) in st.oob;
  }

  // every waiting descriptor is free and without a buffer afterwards
  lemma {:induction false} FreeAllKeeps(st: Flow)
    requires Known(st) && Owned(st)
    ensures var st' := FreeAll(st);
      && Known(st') && st'.oob == [] && Everywhere(st') == Everywhere(st) && Owned(st')
      && st'.received == st.received && st'.chip == st.chip
      && |st'.free| == |st.free| + |st.oob| && st'.free[|st.oob|..] == st.free
      && (forall d | d in st.skb :: d in st'.skb && (st'.skb[d] == st.skb[d] || st'.skb[d] == 0))
      && (forall d | d in st.oob :: d in st'.skb && st'.skb[d] == 0)
    decreases |st.oob|
  {
    hide Owned, Everywhere;
    if st.oob != [] {
      FreeOneKnown(st);
      var d, st1 := Last(st.oob), FreeOne(st);
      FreeOneOwned(st);
      FreeAllKeeps(st1);
      MovedToFree(st, st1);
      assert forall e | e in st.oob :: e == d || e in Init(st.oob);
      var free' := FreeAll(st1).free;
      assert free'[|st.oob| - 1..][1..] == free'[|st.oob|..];
    }
  }

  lemma FreeOneOwned(st: Flow)
    requires st.oob != [] && Last(st.oob) in st.skb && Owned(st)
    ensures Owned(FreeOne(st))
  {
    hide Owned;
    var d := Last(st.oob);
    if st.skb[d] != 0 {
      GivenAway(st, d);
      SameOwners(st.(skb := st.skb[d := 0], freed := st.freed + [st.skb[d]]), FreeOne(st));
    } else {
      SameOwners(st, FreeOne(st));
    }
  }

  // ----- the driver -----

  class Driver {
    const cfg: Config
    // no fewer entries than this fit a queue
    const slots: nat
    const free: Ring
    const received: Ring
    const oob: Ring
    // the descriptors the chip has
    var chip: seq<Entry>
    var skb: map<Entry, nat>
    var calls: nat
    var passed: seq<nat>
    var freed: seq<nat>
    var errors: nat

    ghost predicate Valid()
      reads this, free, free.data, received, received.data, oob, oob.data
    {
      Rings() && Fits(Value(), slots)
    }

    ghost predicate Rings()
      reads this, free, free.data, received, received.data, oob, oob.data
    {
      && free.Valid() && received.Valid() && oob.Valid()
      && free != received && free != oob && received != oob
      && free.data != received.data && free.data != oob.data && received.data != oob.data
      && free.Capacity() >= slots && received.Capacity() >= slots && oob.Capacity() >= slots
    }

    ghost function Value(): Flow
      reads this, free, free.data, received, received.data, oob, oob.data
      requires Rings()
    {
      Flow(free.Contents(), received.Contents(), oob.Contents(), chip, skb, calls, passed, freed, errors)
    }

    // all queues empty, no descriptors yet
    constructor (cfg: Config, slots: nat)
      ensures Valid() && this.cfg == cfg && this.slots == slots
      ensures Value() == Flow([], [], [], [], map[], 0, [], [], 0)
      ensures fresh(free) && fresh(received) && fresh(oob) && fresh(free.data) && fresh(received.data) && fresh(oob.data)
    {
      this.cfg, this.slots := cfg, slots;
      free := new Ring(slots);
      received := new Ring(slots);
      oob := new Ring(slots);
      chip, skb, calls, passed, freed, errors := [], map[], 0, [], [], 0;
    }

    // a new descriptor, without a buffer, is put into the free queue
    method AddDescriptor(d: Entry)
      requires Valid() && d != 0 && d !in Everywhere(Value()) && Total(Value()) < slots
      modifies this`skb, free, free.data
      ensures Valid() && Value() == Added(old(Value()), d)
    {
      hide Slice, Length, Fits, Everywhere;
      AddedFits(Value(), d, slots);
      skb := skb[d := 0];
      var ok := free.PushTail(d);
      assert ok;
    }

    // dev_alloc_skb
    method Alloc() returns (b: nat)
      modifies this`calls
      ensures calls == old(calls) + 1 && b == if cfg.mem(calls) then calls else 0
    {
      calls := calls + 1;
      b := if cfg.mem(calls) then calls else 0;
    }

    // the chip reports a packet: its descriptor is put into the received queue
    method PacketArrived(i: nat)
      requires Valid() && i < |chip|
      modifies this`chip, received, received.data
      ensures Valid() && Value() == Arrived(old(Value()), i)
    {
      hide Slice, Length, Fits;
      ArrivedFits(Value(), i, slots);
      var ok := received.PushTail(chip[i]);
      assert ok;
      chip := chip[..i] + chip[i + 1..];
    }

    // MM_IndicateRxPackets; no push finds its queue full
    method IndicateRxPackets(packets: Entry -> Packet)
      requires Valid()
      modifies this`skb, this`calls, this`passed, this`freed, this`errors
      modifies free, free.data, received, received.data, oob, oob.data
      ensures Valid() && Value() == Indicate(cfg, old(Value()), packets)
    {
      hide Slice, Length, Everywhere, Known, IndicateOne, Indicate, Total;
      while true
        invariant Valid() && chip == old(chip)
        invariant Indicate(cfg, Value(), packets) == Indicate(cfg, old(Value()), packets)
        decreases |received.Contents()|
      {
        ghost var st := Value();
        var d := received.PopHead();
        if d == 0 {
          NothingReceived(cfg, st, packets);
          break;
        }
        IndicateStep(cfg, st, packets, slots);
        IndicateOnePacket(d, packets(d), st);
      }
    }

    // the packet of the popped descriptor d
    method IndicateOnePacket(d: Entry, p: Packet, ghost st: Flow)
      requires Rings() && st.received != [] && d == Last(st.received) && d in st.skb && Total(st) <= slots
      requires Value() == st.(received := Init(st.received))
      modifies this`skb, this`calls, this`passed, this`freed, this`errors
      modifies free, free.data, oob, oob.data
      ensures Rings() && Value() == IndicateOne(cfg, st, p)
    {
      hide Slice, Length, Everywhere, Known, Refill;
      if !p.success || p.size > cfg.mtu + (if cfg.keepVlanTag then 4 else 0) {
        if cfg.tasklet {
          var ok := oob.PushTail(d);
        } else {
          var ok := free.PushTail(d);
        }
        errors := errors + 1;
      } else {
        if p.size > cfg.mtu && !p.tagged {
          freed := freed + [skb[d]];
          errors := errors + 1;
        } else {
          passed := passed + [skb[d]];
        }
        RefillDescriptor(d);
      }
    }

    // what follows drop_rx
    method RefillDescriptor(d: Entry)
      requires Rings() && Total(Value()) < slots
      modifies this`skb, this`calls, free, free.data, oob, oob.data
      ensures Rings() && Value() == Refill(cfg, old(Value()), d)
    {
      hide Slice, Length, Everywhere, Known;
      if cfg.tasklet {
        skb := skb[d := 0];
        var ok := oob.PushTail(d);
        return;
      }
      var b := Alloc();
      skb := skb[d := b];
      if b == 0 {
        var ok := oob.PushTail(d);
      } else {
        var ok := free.PushTail(d);
      }
    }

    // replenish_rx_buffers; queued tells that the chip is to be given descriptors
    method ReplenishRxBuffers(max: int) returns (short: bool, queued: bool)
      requires Valid()
      modifies this`skb, this`calls, free, free.data, oob, oob.data
      ensures Valid() && Replenished(Value(), short, queued) == Replenish(cfg, old(Value()), max, 0)
    {
      hide Slice, Length, Everywhere, Known, Replenish, Fits, Total;
      short, queued := false, false;
      var n := 0;
      ReplenishStart(cfg, Value(), max, slots);
      while true
        invariant Valid() && Known(Value()) && Known(old(Value())) && !short
        invariant Queued(Replenish(cfg, Value(), max, n), queued) == Replenish(cfg, old(Value()), max, 0)
        decreases |oob.Contents()|
      {
        ghost var st := Value();
        var d := oob.PopHead();
        if d == 0 {
          NothingWaits(cfg, st, max, n, slots);
          break;
        }
        ReplenishStep(cfg, st, max, n, slots);
        var got;
        short, got := WaitingDescriptor(d, st);
        if short {
          break;
        }
        queued := true;
        if got && max > 0 {
          n := n + 1;
          if n >= max {
            break;
          }
        }
      }
    }

    // the descriptor d popped from the out-of-buffer queue
    method WaitingDescriptor(d: Entry, ghost st: Flow) returns (short: bool, got: bool)
      requires Rings() && st.oob != [] && d == Last(st.oob) && d in st.skb && |st.free| < slots && |st.oob| <= slots
      requires Value() == st.(oob := Init(st.oob))
      modifies this`skb, this`calls, free, free.data, oob, oob.data
      ensures Rings()
      ensures var b := Allocated(cfg, st);
        var st0 := st.(oob := Init(st.oob), free := [d] + st.free);
        if st.skb[d] != 0 then !short && !got && Value() == st0
        else if b == 0 then short && !got && Value() == st.(calls := st.calls + 1)
        else !short && got && Value() == st0.(skb := st.skb[d := b], calls := st.calls + 1)
    {
      hide Slice, Length;
      short, got := false, false;
      if skb[d] != 0 {
        var ok := free.PushTail(d);
        assert ok;
        return;
      }
      var b := Alloc();
      if b == 0 {
        var ok := oob.PushHead(d);
        assert ok && Init(st.oob) + [d] == st.oob;
        short := true;
      } else {
        skb := skb[d := b];
        var ok := free.PushTail(d);
        assert ok;
        got := true;
      }
    }

    // MM_InitializeUmPackets for the descriptors in the free queue
    method InitializeUmPackets(count: nat)
      requires Valid() && count == |free.Contents()|
      modifies this`skb, this`calls, free, free.data, oob, oob.data
      ensures Valid() && Value() == InitMany(cfg, old(Value()), count)
    {
      hide Slice, Length, Everywhere, Known, Fits, InitMany, InitOne;
      var i := 0;
      FitsKnown(Value(), slots);
      while i < count
        invariant i <= count && Valid() && Known(Value()) && Known(old(Value())) && count - i <= |free.Contents()|
        invariant InitMany(cfg, Value(), count - i) == InitMany(cfg, old(Value()), count)
      {
        ghost var st := Value();
        InitStep(cfg, st, count - i, slots);
        var d := free.PopHead();
        InitDescriptor(d, st);
        i := i + 1;
      }
      InitEnd(cfg, Value());
    }

    method InitDescriptor(d: Entry, ghost st: Flow)
      requires Rings() && st.free != [] && d == Last(st.free) && d in st.skb && |st.free| <= slots && |st.oob| < slots
      requires Value() == st.(free := Init(st.free))
      modifies this`skb, this`calls, free, free.data, oob, oob.data
      ensures Rings() && Value() == InitOne(cfg, st)
    {
      hide Slice, Length;
      if skb[d] == 0 {
        var b := Alloc();
        skb := skb[d := b];
        if b == 0 {
          var ok := oob.PushTail(d);
          assert ok;
          return;
        }
      }
      var ok := free.PushTail(d);
      assert ok;
    }

    // bcm5700_free_remaining_rx_bufs
    method FreeRemainingRxBufs()
      requires Valid()
      modifies this`skb, this`freed, free, free.data, oob, oob.data
      ensures Valid() && Value() == FreeAll(old(Value()))
    {
      hide Slice, Length, Everywhere, Known, Fits, FreeAll, FreeOne;
      var count := oob.GetEntryCnt();
      ghost var st0 := Value();
      FitsKnown(st0, slots);
      var i := 0;
      while i < count
        invariant i <= count && Valid() && Known(Value()) && Known(st0) && |oob.Contents()| == count - i
        invariant FreeAll(Value()) == FreeAll(st0)
      {
        ghost var st := Value();
        FreeStep(st, slots);
        var d := oob.PopHead();
        if d != 0 {
          FreeDescriptor(d, st);
        }
        i := i + 1;
      }
      FreeEnd(Value());
    }

    method FreeDescriptor(d: Entry, ghost st: Flow)
      requires Rings() && st.oob != [] && d == Last(st.oob) && d in st.skb && |st.free| < slots
      requires Value() == st.(oob := Init(st.oob))
      modifies this`skb, this`freed, free, free.data
      ensures Rings() && Value() == FreeOne(st)
    {
      hide Slice, Length;
      if skb[d] != 0 {
        freed := freed + [skb[d]];
        skb := skb[d := 0];
      }
      var ok := free.PushTail(d);
      assert ok;
    }

    // the chip takes the descriptor at the head of the free queue
    method QueueRxPacket()
      requires Valid() && free.Contents() != []
      modifies this`chip, free
      ensures Valid() && Value() == Given(old(Value()))
    {
      hide Slice, Length, Fits;
      ghost var st := Value();
      GivenFits(st, slots);
      var d := free.PopHead();
      chip := chip + [d];
    }

    // a run of driver and chip
    method Perform(actions: seq<Action>)
      requires Valid() && Sound(cfg, Value())
      modifies this`chip, this`skb, this`calls, this`passed, this`freed, this`errors
      modifies free, free.data, received, received.data, oob, oob.data
      ensures Valid() && Value() == Run(cfg, old(Value()), actions)
      ensures Sound(cfg, Value()) && Everywhere(Value()) == Everywhere(old(Value()))
    {
      hide Slice, Length, Everywhere, Fits, Sound, Act, Run;
      ghost var st0 := Value();
      RunKeeps(cfg, st0, actions);
      assert actions[0..] == actions;
      var k := 0;
      while k < |actions|
        invariant k <= |actions| && Valid() && Sound(cfg, Value())
        invariant Run(cfg, Value(), actions[k..]) == Run(cfg, st0, actions)
      {
        RunStep(cfg, Value(), actions, k);
        PerformOne(actions[k]);
        k := k + 1;
      }
      RunEnd(cfg, Value(), actions[k..]);
    }

    method PerformOne(a: Action)
      requires Valid() && Sound(cfg, Value())
      modifies this`chip, this`skb, this`calls, this`passed, this`freed, this`errors
      modifies free, free.data, received, received.data, oob, oob.data
      ensures Valid() && Value() == Act(cfg, old(Value()), a)
    {
      hide Slice, Length, Everywhere, Fits, Indicate, Replenish, Unique, Owned, Buffered;
      match a {
        case GiveToChip =>
          var none := free.Empty();
          if !none {
            QueueRxPacket();
          }
        case Arrive(i) =>
          if i < |chip| {
            PacketArrived(i);
          }
        case IndicateRx(packets) => IndicateRxPackets(packets);
        case ReplenishRx(max) =>
          var _, _ := ReplenishRxBuffers(max);
      }
    }
  }

  // From the start, with any descriptors, no run loses one, leaves one that
  // can receive without buffer, or gives a buffer two owners.
  method Drive(cfg: Config, descriptors: seq<Entry>, actions: seq<Action>) returns (driver: Driver)
    requires NoDuplicates(descriptors) && 0 !in descriptors
    ensures driver.Valid() && driver.cfg == cfg
    ensures Sound(cfg, driver.Value()) && Everywhere(driver.Value()) == multiset(descriptors)
  {
    hide Slice, Length, Everywhere, Fits, Sound, Run, Created, InitMany, Known, Total, NoDuplicates;
    driver := new Driver(cfg, |descriptors|);
    CreatedNone(descriptors[..0]);
    var k := 0;
    while k < |descriptors|
      invariant k <= |descriptors| && driver.Valid() && fresh(driver)
      invariant fresh(driver.free) && fresh(driver.received) && fresh(driver.oob)
      invariant fresh(driver.free.data) && fresh(driver.received.data) && fresh(driver.oob.data)
      invariant driver.cfg == cfg && driver.slots == |descriptors| && driver.Value() == Created(descriptors[..k])
    {
      CreatedMore(descriptors, k);
      driver.AddDescriptor(descriptors[k]);
      k := k + 1;
    }
    assert descriptors[..k] == descriptors;
    StartKeeps(cfg, descriptors);
    var count := driver.free.GetEntryCnt();
    driver.InitializeUmPackets(count);
    driver.Perform(actions);
  }

  // a free descriptor is given to the chip; a packet arrives in one
  function Given(st: Flow): Flow
    requires st.free != []
  {
    st.(free := Init(st.free), chip := st.chip + [Last(st.free)])
  }

  function Arrived(st: Flow, i: nat): Flow
    requires i < |st.chip|
  {
    st.(chip := st.chip[..i] + st.chip[i + 1..], received := [st.chip[i]] + st.received)
  }

  // a new descriptor
  function Added(st: Flow, d: Entry): Flow {
    st.(skb := st.skb[d := 0], free := [d] + st.free)
  }

  lemma AddedFits(st: Flow, d: Entry, slots: nat)
    requires Fits(st, slots) && Total(st) < slots && d != 0
    ensures Fits(Added(st, d), slots) && |st.free| < slots
  {
    assert multiset([d] + st.free) == multiset{d} + multiset(st.free);
  }

  lemma ArrivedFits(st: Flow, i: nat, slots: nat)
    requires Fits(st, slots) && i < |st.chip|
    ensures Fits(Arrived(st, i), slots) && |st.received| < slots
  {
    ArrivedKeeps(st, i);
  }

  lemma GivenFits(st: Flow, slots: nat)
    requires Fits(st, slots) && st.free != []
    ensures Fits(Given(st), slots)
  {
    GivenKeeps(st);
  }

  lemma GivenKeeps(st: Flow)
    requires st.free != []
    ensures Everywhere(Given(st)) == Everywhere(st) && Total(Given(st)) == Total(st)
    ensures Known(st) ==> Known(Given(st))
  {
    SplitLast(st.free);
    assert Last(st.free) in st.free;
    assert multiset(st.chip + [Last(st.free)]) == multiset(st.chip) + multiset{Last(st.free)};
  }

  lemma ArrivedKeeps(st: Flow, i: nat)
    requires i < |st.chip|
    ensures Everywhere(Arrived(st, i)) == Everywhere(st) && Total(Arrived(st, i)) == Total(st)
    ensures Known(st) ==> Known(Arrived(st, i))
  {
    var d, a, b := st.chip[i], st.chip[..i], st.chip[i + 1..];
    assert st.chip == a + [d] + b;
    assert multiset(a + [d] + b) == multiset(a + b) + multiset{d};
    assert multiset([d] + st.received) == multiset{d} + multiset(st.received);
    assert d in st.chip && forall e | e in a + b :: e in st.chip;
  }

  lemma InitStep(cfg: Config, st: Flow, k: nat, slots: nat)
    requires Fits(st, slots) && 0 < k <= |st.free|
    ensures Known(st) && Last(st.free) in st.skb && |st.free| <= slots && |st.oob| < slots
    ensures var st' := InitOne(cfg, st);
      && Fits(st', slots) && Known(st') && k - 1 <= |st'.free| && InitMany(cfg, st, k) == InitMany(cfg, st', k - 1)
  {
    InitOneKnown(cfg, st);
    InitOnePlaces(cfg, st);
    EverywhereTotal(st);
    EverywhereTotal(InitOne(cfg, st));
  }

  lemma InitEnd(cfg: Config, st: Flow)
    requires Known(st)
    ensures InitMany(cfg, st, 0) == st
  {
  }

  lemma InitOnePlaces(cfg: Config, st: Flow)
    requires st.free != [] && Last(st.free) in st.skb
    ensures Everywhere(InitOne(cfg, st)) == Everywhere(st)
  {
    var d := Last(st.free);
    SplitLast(st.free);
    assert multiset([d] + Init(st.free)) == multiset{d} + multiset(Init(st.free));
    assert multiset([d] + st.oob) == multiset{d} + multiset(st.oob);
  }

  lemma FitsKnown(st: Flow, slots: nat)
    requires Fits(st, slots)
    ensures Known(st)
  {
  }

  lemma FreeStep(st: Flow, slots: nat)
    requires Fits(st, slots) && st.oob != []
    ensures Known(st) && Last(st.oob) in st.skb && Last(st.oob) != 0 && |st.free| < slots
    ensures Fits(FreeOne(st), slots) && Known(FreeOne(st)) && FreeAll(st) == FreeAll(FreeOne(st))
  {
    FreeOneKnown(st);
    NotZero(st);
    MovedToFree(st, FreeOne(st));
    EverywhereTotal(st);
    EverywhereTotal(FreeOne(st));
  }

  lemma FreeEnd(st: Flow)
    requires Known(st) && st.oob == []
    ensures FreeAll(st) == st
  {
  }

  function Queued(r: Replenished, queued: bool): Replenished {
    r.(queued := r.queued || queued)
  }

  lemma ReplenishStart(cfg: Config, st: Flow, max: int, slots: nat)
    requires Fits(st, slots)
    ensures Known(st) && Queued(Replenish(cfg, st, max, 0), false) == Replenish(cfg, st, max, 0)
  {
  }

  lemma NothingWaits(cfg: Config, st: Flow, max: int, n: int, slots: nat)
    requires Fits(st, slots) && (st.oob == [] || Last(st.oob) == 0)
    ensures st.oob == [] && Replenish(cfg, st, max, n) == Replenished(st, false, false)
  {
    NotZero(st);
  }

  // one round of the loop
  lemma ReplenishStep(cfg: Config, st: Flow, max: int, n: int, slots: nat)
    requires Fits(st, slots) && st.oob != []
    ensures var d := Last(st.oob);
      var st0 := st.(oob := Init(st.oob), free := [d] + st.free);
      && d in st.skb && Fits(st0, slots) && Known(st) && Known(st0) && |st.free| < slots && |st.oob| <= slots
      && (st.skb[d] != 0 ==> Replenish(cfg, st, max, n) == Queued(Replenish(cfg, st0, max, n), true))
      && (st.skb[d] == 0 ==>
        var b := Allocated(cfg, st);
        if b == 0 then
          Fits(st.(calls := st.calls + 1), slots) && Known(st.(calls := st.calls + 1)) && Replenish(cfg, st, max, n) == Replenished(st.(calls := st.calls + 1), true, false)
        else
          var st' := st0.(skb := st.skb[d := b], calls := st.calls + 1);
          && Fits(st', slots) && Known(st')
          && Replenish(cfg, st, max, n) ==
            if max > 0 && n + 1 >= max then Replenished(st', false, true)
            else Queued(Replenish(cfg, st', max, if max > 0 then n + 1 else n), true))
  {
    var d := Last(st.oob);
    assert d in st.oob && forall e | e in Init(st.oob) :: e in st.oob;
    var st0 := st.(oob := Init(st.oob), free := [d] + st.free);
    MovedToFree(st, st0);
  }

  // a descriptor is never the null pointer
  lemma NotZero(st: Flow)
    requires 0 !in Everywhere(st)
    ensures st.received != [] ==> Last(st.received) != 0
    ensures st.free != [] ==> Last(st.free) != 0
    ensures st.oob != [] ==> Last(st.oob) != 0
  {
    assert st.received != [] ==> Last(st.received) in Everywhere(st);
    assert st.free != [] ==> Last(st.free) in Everywhere(st);
    assert st.oob != [] ==> Last(st.oob) in Everywhere(st);
  }

  // what a good state is for the queues
  ghost predicate Fits(st: Flow, slots: nat) {
    Known(st) && 0 !in Everywhere(st) && Total(st) <= slots
  }

  lemma NothingReceived(cfg: Config, st: Flow, packets: Entry -> Packet)
    requires Known(st) && 0 !in Everywhere(st) && (st.received == [] || Last(st.received) == 0)
    ensures st.received == [] && Indicate(cfg, st, packets) == st
  {
    NotZero(st);
  }

  lemma IndicateStep(cfg: Config, st: Flow, packets: Entry -> Packet, slots: nat)
    requires Fits(st, slots) && st.received != []
    ensures Last(st.received) in st.skb
    ensures var st' := IndicateOne(cfg, st, packets(Last(st.received)));
      && Fits(st', slots) && Indicate(cfg, st, packets) == Indicate(cfg, st', packets)
      && st'.chip == st.chip && st'.received == Init(st.received)
  {
    var p := packets(Last(st.received));
    IndicateOneKnown(cfg, st, p);
    IndicateOneKeeps(cfg, st, p);
    EverywhereTotal(st);
    EverywhereTotal(IndicateOne(cfg, st, p));
  }

  // ----- every run of driver and chip -----

  datatype Action = GiveToChip | Arrive(i: nat) | IndicateRx(packets: Entry -> Packet) | ReplenishRx(max: int)

  ghost function Act(cfg: Config, st: Flow, a: Action): Flow
    requires Known(st)
  {
    match a
    case GiveToChip => if st.free == [] then st else Given(st)
    case Arrive(i) => if i < |st.chip| then Arrived(st, i) else st
    case IndicateRx(packets) => Indicate(cfg, st, packets)
    case ReplenishRx(max) => Replenish(cfg, st, max, 0).st
  }

  // what every action keeps
  ghost predicate Sound(cfg: Config, st: Flow) {
    Known(st) && Unique(st) && Owned(st) && Buffered(cfg, st)
  }

  lemma ActKeeps(cfg: Config, st: Flow, a: Action)
    requires Sound(cfg, st)
    ensures Sound(cfg, Act(cfg, st, a)) && Everywhere(Act(cfg, st, a)) == Everywhere(st)
  {
    hide Everywhere, Unique, Owned;
    match a {
      case GiveToChip =>
        if st.free != [] {
          GivenKeeps(st);
          assert Last(st.free) in st.free && forall d | d in Init(st.free) :: d in st.free;
          SameOwners(st, Given(st));
          SameUnique(st, Given(st));
        }
      case Arrive(i) =>
        if i < |st.chip| {
          ArrivedKeeps(st, i);
          assert st.chip[i] in st.chip && forall d | d in st.chip[..i] + st.chip[i + 1..] :: d in st.chip;
          SameOwners(st, Arrived(st, i));
          SameUnique(st, Arrived(st, i));
        }
      case IndicateRx(packets) =>
        IndicateKeeps(cfg, st, packets);
        SameUnique(st, Indicate(cfg, st, packets));
      case ReplenishRx(max) =>
        ReplenishKeeps(cfg, st, max, 0);
        SameUnique(st, Replenish(cfg, st, max, 0).st);
    }
  }

  ghost function Run(cfg: Config, st: Flow, actions: seq<Action>): Flow
    requires Sound(cfg, st)
    decreases |actions|
  {
    if actions == [] then st
    else
      ActKeeps(cfg, st, actions[0]);
      Run(cfg, Act(cfg, st, actions[0]), actions[1..])
  }

  // In every run each descriptor stays in exactly one place, those that can
  // receive have a buffer, and no buffer has two owners.
  lemma {:induction false} RunKeeps(cfg: Config, st: Flow, actions: seq<Action>)
    requires Sound(cfg, st)
    ensures Sound(cfg, Run(cfg, st, actions)) && Everywhere(Run(cfg, st, actions)) == Everywhere(st)
    decreases |actions|
  {
    hide Unique, Owned, Buffered, Everywhere, Act;
    if actions != [] {
      ActKeeps(cfg, st, actions[0]);
      RunKeeps(cfg, Act(cfg, st, actions[0]), actions[1..]);
    }
  }

  // descriptors put into the free queue one by one
  ghost function Created(ds: seq<Entry>): Flow {
    if ds == [] then Flow([], [], [], [], map[], 0, [], [], 0)
    else Added(Created(ds[..|ds| - 1]), ds[|ds| - 1])
  }

  lemma CreatedNone(ds: seq<Entry>)
    requires ds == []
    ensures Created(ds) == Flow([], [], [], [], map[], 0, [], [], 0)
  {
  }

  lemma {:induction false} CreatedIs(ds: seq<Entry>)
    ensures var st := Created(ds);
      && st == Flow(st.free, [], [], [], st.skb, 0, [], [], 0) && |st.free| == |ds|
      && Everywhere(st) == multiset(ds) && Known(st) && forall d | d in st.skb :: st.skb[d] == 0
  {
    if ds != [] {
      CreatedIs(ds[..|ds| - 1]);
      assert ds == ds[..|ds| - 1] + [ds[|ds| - 1]];
      var st := Created(ds[..|ds| - 1]);
      assert multiset([ds[|ds| - 1]] + st.free) == multiset{ds[|ds| - 1]} + multiset(st.free);
    }
  }

  lemma CreatedMore(ds: seq<Entry>, k: nat)
    requires NoDuplicates(ds) && k < |ds|
    ensures ds[k] !in Everywhere(Created(ds[..k])) && Total(Created(ds[..k])) == k
    ensures Created(ds[..k + 1]) == Added(Created(ds[..k]), ds[k])
  {
    hide Created;
    CreatedIs(ds[..k]);
    CreatedStep(ds, k);
    assert forall i | 0 <= i < k :: ds[..k][i] == ds[i];
    assert ds[k] !in ds[..k];
  }

  lemma CreatedStep(ds: seq<Entry>, k: nat)
    requires k < |ds|
    ensures Created(ds[..k + 1]) == Added(Created(ds[..k]), ds[k])
  {
    assert ds[..k + 1][..k] == ds[..k];
  }

  // the start makes a good state
  lemma StartKeeps(cfg: Config, ds: seq<Entry>)
    requires NoDuplicates(ds)
    ensures var st := Created(ds);
      Known(st) && Sound(cfg, InitMany(cfg, st, |st.free|)) && Everywhere(InitMany(cfg, st, |st.free|)) == multiset(ds)
  {
    hide Created, InitMany, Everywhere;
    CreatedIs(ds);
    var st := Created(ds);
    assert Unique(st) by {
      DistinctOnce(ds);
    }
    assert Owned(st) && InitDone(st, |st.free|);
    hide Owned, InitDone;
    InitManyKeeps(cfg, st, |st.free|);
    SameUnique(st, InitMany(cfg, st, |st.free|));
  }

  lemma {:induction false} DistinctOnce(ds: seq<Entry>)
    requires NoDuplicates(ds)
    ensures forall d :: multiset(ds)[d] <= 1
  {
    if ds != [] {
      var before, d := ds[..|ds| - 1], ds[|ds| - 1];
      DistinctOnce(before);
      assert ds == before + [d];
      assert d !in before;
    }
  }

  lemma RunStep(cfg: Config, st: Flow, actions: seq<Action>, k: nat)
    requires Sound(cfg, st) && k < |actions|
    ensures Known(st) && Sound(cfg, Act(cfg, st, actions[k]))
    ensures Run(cfg, st, actions[k..]) == Run(cfg, Act(cfg, st, actions[k]), actions[k + 1..])
  {
    hide Act, Everywhere, Unique, Owned, Buffered;
    ActKeeps(cfg, st, actions[k]);
    assert actions[k..][1..] == actions[k + 1..];
  }

  lemma RunEnd(cfg: Config, st: Flow, actions: seq<Action>)
    requires Sound(cfg, st) && actions == []
    ensures Run(cfg, st, actions) == st
  {
  }
}
