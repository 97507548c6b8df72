/**
 * The causality monitor behind the ShiViz-compatible output: every logging
 * actor or thread owns one slot of a vector timestamp, each rendered event
 * increments the slot of its emitter, and the timestamp is printed as a
 * JSON object from slot names to counters.
 */
module Causality {
  import opened Base

  /** `logger_id`: the actor id (0 when the event does not come from an actor) and the thread id. */
  datatype LoggerId = LoggerId(aid: nat, tid: nat)

  /**
   * `operator<` of `logger_id`: thread ids only matter when neither side is
   * an actor. Non-actor ids come before every actor, actors are ordered by
   * id, and two ids with the same key are never ordered.
   */
  function Less(x: LoggerId, y: LoggerId): (r: bool)
    ensures KeyOf(x) == KeyOf(y) ==> !r
    ensures x.aid == 0 && y.aid != 0 ==> r
    ensures x.aid != 0 && y.aid == 0 ==> !r
    ensures x.aid != 0 && y.aid != 0 ==> (r <==> x.aid < y.aid)
    ensures x.aid == 0 && y.aid == 0 ==> (r <==> x.tid < y.tid)
  {
    if x.aid == 0 && y.aid == 0 then x.tid < y.tid else x.aid < y.aid
  }

  /** Two ids are the same map key when neither is less than the other. */
  predicate SameKey(x: LoggerId, y: LoggerId) {
    !Less(x, y) && !Less(y, x)
  }

  /** What identifies a slot: the actor, or the thread of a non-actor. */
  datatype Key = ActorKey(aid: nat) | ThreadKey(tid: nat)

  function KeyOf(l: LoggerId): (k: Key)
    ensures k.ActorKey? <==> l.aid != 0
    ensures k.ActorKey? ==> k.aid == l.aid
    ensures k.ThreadKey? ==> k.tid == l.tid
  {
    if l.aid == 0 then ThreadKey(l.tid) else ActorKey(l.aid)
  }

  /**
   * The ordering identifies exactly the ids with the same key: an actor's
   * events share one slot whatever thread runs them, and non-actor events
   * share one slot per thread.
   */
  lemma SameKeyIffKeyOf(x: LoggerId, y: LoggerId)
    ensures SameKey(x, y) <==> KeyOf(x) == KeyOf(y)
  {
  }

  /** The ordering is a strict weak ordering, as `std::map` requires. */
  lemma LessIsStrictWeakOrder(x: LoggerId, y: LoggerId, z: LoggerId)
    ensures !Less(x, x)
    ensures Less(x, y) && Less(y, z) ==> Less(x, z)
    ensures SameKey(x, y) && SameKey(y, z) ==> SameKey(x, z)
  {
  }

  function ActorName(aid: nat): string {
    "actor" + Decimal(aid)
  }

  function ThreadName(n: nat): string {
    "thread" + Decimal(n)
  }

  /** `s` is the name of one of the first `tc` threads. */
  ghost predicate ThreadNamed(s: string, tc: nat) {
    exists n: nat :: 1 <= n <= tc && s == ThreadName(n)
  }

  /**
   * The monitor: the slot of every key seen so far, one name and one
   * counter per slot, and the number of threads named so far.
   */
  datatype Monitor = Monitor(slots: map<Key, nat>, names: seq<string>, stamps: seq<nat>, threadCount: nat)

  const Empty: Monitor := Monitor(map[], [], [], 0)

  /** One slot per key, one name and one counter per slot. */
  ghost predicate Shaped(m: Monitor) {
    && |m.names| == |m.stamps| == |m.slots|
    && (forall k :: k in m.slots ==> m.slots[k] < |m.stamps|)
    && (forall k1, k2 :: k1 in m.slots && k2 in m.slots && m.slots[k1] == m.slots[k2] ==> k1 == k2)
  }

  /** Every slot exists because an event was accepted for it. */
  ghost predicate Counted(m: Monitor) {
    forall i :: 0 <= i < |m.stamps| ==> m.stamps[i] >= 1
  }

  /** Actor slots carry the actor's name, thread slots a thread name. */
  ghost predicate Named(m: Monitor)
    requires Shaped(m)
  {
    && (forall k :: k in m.slots && k.ActorKey? ==> m.names[m.slots[k]] == ActorName(k.aid))
    && (forall k :: k in m.slots && k.ThreadKey? ==> ThreadNamed(m.names[m.slots[k]], m.threadCount))
  }

  /** An actor name belongs to that actor's slot; thread numbers never exceed the count. */
  ghost predicate Owned(m: Monitor) {
    && (forall i, a: nat :: 0 <= i < |m.names| && m.names[i] == ActorName(a) ==>
          ActorKey(a) in m.slots && m.slots[ActorKey(a)] == i)
    && (forall i, n: nat :: 0 <= i < |m.names| && m.names[i] == ThreadName(n) ==> 1 <= n <= m.threadCount)
  }

  ghost predicate Distinct(names: seq<string>) {
    forall i, j :: 0 <= i < j < |names| ==> names[i] != names[j]
  }

  /** What the monitor keeps true between calls. */
  ghost predicate Valid(m: Monitor) {
    Shaped(m) && Counted(m) && Named(m) && Owned(m) && Distinct(m.names)
  }

  lemma EmptyValid()
    ensures Valid(Empty)
  {
  }

  lemma ActorNameInjective(a: nat, b: nat)
    requires ActorName(a) == ActorName(b)
    ensures a == b
  {
    assert ActorName(a)[5..] == Decimal(a);
    assert ActorName(b)[5..] == Decimal(b);
    DecimalInjective(a, b);
  }

  lemma ThreadNameInjective(a: nat, b: nat)
    requires ThreadName(a) == ThreadName(b)
    ensures a == b
  {
    assert ThreadName(a)[6..] == Decimal(a);
    assert ThreadName(b)[6..] == Decimal(b);
    DecimalInjective(a, b);
  }

  lemma ActorThreadDiffer(a: nat, n: nat)
    ensures ActorName(a) != ThreadName(n)
  {
    assert ActorName(a)[0] == 'a';
    assert ThreadName(n)[0] == 't';
  }

  /**
   * `accept`: the slot of the emitter's key is created on first sight
   * (named "actor<aid>" or "thread<n>" for the n-th thread) and its
   * counter incremented. The vector timestamp `accept` returns is the
   * result's `stamps`.
   */
  function Accept(m: Monitor, lid: LoggerId): (r: Monitor)
    requires Valid(m)
    ensures Valid(r)
    ensures KeyOf(lid) in r.slots
    ensures r.slots.Keys == m.slots.Keys + {KeyOf(lid)}
    ensures forall k :: k in m.slots ==> r.slots[k] == m.slots[k]
    ensures KeyOf(lid) !in m.slots ==> r.slots[KeyOf(lid)] == |m.stamps|
    ensures |r.stamps| == |m.stamps| + (if KeyOf(lid) in m.slots then 0 else 1)
    ensures r.stamps[r.slots[KeyOf(lid)]]
         == (if KeyOf(lid) in m.slots then m.stamps[m.slots[KeyOf(lid)]] else 0) + 1
    ensures forall i :: 0 <= i < |m.stamps| && i != r.slots[KeyOf(lid)] ==> r.stamps[i] == m.stamps[i]
    ensures m.names <= r.names
    ensures lid.aid != 0 ==> r.names[r.slots[KeyOf(lid)]] == ActorName(lid.aid)
    ensures r.threadCount == m.threadCount + (if lid.aid == 0 && KeyOf(lid) !in m.slots then 1 else 0)
    ensures lid.aid == 0 && KeyOf(lid) !in m.slots ==> r.names[|m.names|] == ThreadName(r.threadCount)
  {
    var k := KeyOf(lid);
    if k in m.slots then
      Bump(m, m.slots[k])
    else
      var tc := if lid.aid == 0 then m.threadCount + 1 else m.threadCount;
      var name := if lid.aid == 0 then ThreadName(tc) else ActorName(lid.aid);
      NewSlot(m, k, name, tc)
  }

  /** The monitor after a slot for the new key `k` has been added. */
  function AddSlot(m: Monitor, k: Key, name: string, tc: nat): Monitor {
    Monitor(m.slots[k := |m.stamps|], m.names + [name], m.stamps + [1], tc)
  }

  /** A new slot: the key gets the next index, counter 1 and its name; nothing else moves. */
  function NewSlot(m: Monitor, k: Key, name: string, tc: nat): (r: Monitor)
    requires Valid(m) && Fresh(m, k, name, tc)
    ensures Valid(r)
    ensures r.slots.Keys == m.slots.Keys + {k}
    ensures r.slots[k] == |m.stamps| && (forall k' :: k' in m.slots ==> r.slots[k'] == m.slots[k'])
    ensures r.names == m.names + [name] && r.threadCount == tc
    ensures r.stamps == m.stamps + [1]
  {
    NewSlotValid(m, k, name, tc);
    AddSlot(m, k, name, tc)
  }

  /** What a new slot's key, name and thread count must satisfy. */
  predicate Fresh(m: Monitor, k: Key, name: string, tc: nat) {
    && k !in m.slots
    && (k.ActorKey? ==> k.aid != 0 && name == ActorName(k.aid) && tc == m.threadCount)
    && (k.ThreadKey? ==> tc == m.threadCount + 1 && name == ThreadName(tc))
  }

  /** Adding a slot for a new key keeps the monitor valid. */
  lemma NewSlotValid(m: Monitor, k: Key, name: string, tc: nat)
    requires Valid(m) && Fresh(m, k, name, tc)
    ensures Valid(AddSlot(m, k, name, tc))
  {
    var r := AddSlot(m, k, name, tc);
    assert Shaped(r) && Counted(r);
    assert Named(r) by {
      NewSlotNamed(m, k, name, tc);
    }
    assert Owned(r) by {
      NewSlotOwned(m, k, name, tc);
    }
    assert Distinct(r.names) by {
      NewSlotDistinct(m, k, name, tc);
    }
  }

  lemma NewSlotNamed(m: Monitor, k: Key, name: string, tc: nat)
    requires Valid(m) && Fresh(m, k, name, tc)
    ensures Shaped(AddSlot(m, k, name, tc)) && Named(AddSlot(m, k, name, tc))
  {
    var r := AddSlot(m, k, name, tc);
    NewSlotShaped(m, k, name, tc);
    forall k' | k' in r.slots && k'.ThreadKey?
      ensures ThreadNamed(r.names[r.slots[k']], r.threadCount)
    {
      NewSlotThreadNamed(m, k, name, tc, k');
    }
  }

  lemma NewSlotShaped(m: Monitor, k: Key, name: string, tc: nat)
    requires Valid(m) && k !in m.slots
    ensures Shaped(AddSlot(m, k, name, tc))
  {
  }

  /** A thread slot of the grown monitor still carries a thread name within the new count. */
  lemma NewSlotThreadNamed(m: Monitor, k: Key, name: string, tc: nat, k': Key)
    requires Valid(m) && Fresh(m, k, name, tc)
    requires k' in m.slots || k' == k
    requires k'.ThreadKey?
    ensures var r := AddSlot(m, k, name, tc); r.slots[k'] < |r.names| && ThreadNamed(r.names[r.slots[k']], tc)
  {
    var r := AddSlot(m, k, name, tc);
    if k' == k {
      assert r.names[r.slots[k']] == ThreadName(tc);
    } else {
      var n: nat :| 1 <= n <= m.threadCount && m.names[m.slots[k']] == ThreadName(n);
      assert r.names[r.slots[k']] == ThreadName(n);
    }
  }

  lemma NewSlotOwned(m: Monitor, k: Key, name: string, tc: nat)
    requires Valid(m) && Fresh(m, k, name, tc)
    ensures Owned(AddSlot(m, k, name, tc))
  {
    var r := AddSlot(m, k, name, tc);
    var last := |m.names|;
    forall i, a: nat | 0 <= i < |r.names| && r.names[i] == ActorName(a)
      ensures ActorKey(a) in r.slots && r.slots[ActorKey(a)] == i
    {
      if i == last {
        if k.ActorKey? {
          ActorNameInjective(a, k.aid);
        } else {
          ActorThreadDiffer(a, tc);
        }
      } else {
        assert m.names[i] == ActorName(a);
      }
    }
    forall i, n: nat | 0 <= i < |r.names| && r.names[i] == ThreadName(n)
      ensures 1 <= n <= r.threadCount
    {
      if i == last {
        if k.ActorKey? {
          ActorThreadDiffer(k.aid, n);
        } else {
          ThreadNameInjective(n, tc);
        }
      } else {
        assert m.names[i] == ThreadName(n);
      }
    }
  }

  lemma NewSlotDistinct(m: Monitor, k: Key, name: string, tc: nat)
    requires Valid(m) && Fresh(m, k, name, tc)
    ensures Distinct(AddSlot(m, k, name, tc).names)
  {
    assert forall i :: 0 <= i < |m.names| ==> m.names[i] != name;
  }

  /** Increments the counter of the existing slot `v`. */
  function Bump(m: Monitor, v: nat): (r: Monitor)
    requires Valid(m) && v < |m.stamps|
    ensures Valid(r)
    ensures r.slots == m.slots && r.names == m.names && r.threadCount == m.threadCount
    ensures |r.stamps| == |m.stamps| && r.stamps[v] == m.stamps[v] + 1
    ensures forall i :: 0 <= i < |m.stamps| && i != v ==> r.stamps[i] == m.stamps[i]
  {
    var r := m.(stamps := m.stamps[v := m.stamps[v] + 1]);
    assert Shaped(r) && Counted(r);
    assert Named(r) by {
      assert Named(m);
    }
    r
  }

  /** `vid`: the slot of an id that was accepted before. */
  function Vid(m: Monitor, lid: LoggerId): (v: nat)
    requires Valid(m) && KeyOf(lid) in m.slots
    ensures v < |m.stamps| && v < |m.names|
    ensures forall other :: KeyOf(other) in m.slots ==> (m.slots[KeyOf(other)] == v <==> SameKey(lid, other))
  {
    SlotsIdentifyKeys(m, lid);
    m.slots[KeyOf(lid)]
  }

  lemma SlotsIdentifyKeys(m: Monitor, lid: LoggerId)
    requires Valid(m) && KeyOf(lid) in m.slots
    ensures forall other :: KeyOf(other) in m.slots ==> (m.slots[KeyOf(other)] == m.slots[KeyOf(lid)] <==> SameKey(lid, other))
  {
    forall other | KeyOf(other) in m.slots
      ensures m.slots[KeyOf(other)] == m.slots[KeyOf(lid)] <==> SameKey(lid, other)
    {
      SameKeyIffKeyOf(lid, other);
    }
  }

  /** `name`: the name of a slot; `name_.at` throws for a slot that does not exist. */
  function Name(m: Monitor, vid: nat): (r: Option<string>)
    ensures r.Some? <==> vid < |m.names|
    ensures r.Some? ==> r.value == m.names[vid]
  {
    if vid < |m.names| then Some(m.names[vid]) else None
  }

  /** Right after `accept`, the id's slot is named after the actor, or after a thread. */
  lemma AcceptedName(m: Monitor, lid: LoggerId)
    requires Valid(m)
    ensures Name(Accept(m, lid), Vid(Accept(m, lid), lid)).Some?
    ensures lid.aid != 0 ==> Name(Accept(m, lid), Vid(Accept(m, lid), lid)) == Some(ActorName(lid.aid))
    ensures lid.aid == 0 ==> ThreadNamed(Name(Accept(m, lid), Vid(Accept(m, lid), lid)).value, Accept(m, lid).threadCount)
  {
  }

  /** The counters after a run of accepts. */
  function AcceptAll(m: Monitor, lids: seq<LoggerId>): (r: Monitor)
    requires Valid(m)
    ensures Valid(r)
    decreases |lids|
  {
    if lids == [] then m else AcceptAll(Accept(m, lids[0]), lids[1..])
  }

  /** An accepted run only appends names: earlier slots keep theirs. */
  lemma {:induction false} AcceptAllNames(m: Monitor, lids: seq<LoggerId>)
    requires Valid(m)
    ensures m.names <= AcceptAll(m, lids).names
    decreases |lids|
  {
    if lids != [] {
      AcceptAllNames(Accept(m, lids[0]), lids[1..]);
    }
  }

  /**
   * The thread ids of the non-actor events in `lids` whose key is not in
   * `seen`, in the order of their first event.
   */
  function NewThreads(seen: set<Key>, lids: seq<LoggerId>): seq<nat>
    decreases |lids|
  {
    if lids == [] then []
    else
      var k := KeyOf(lids[0]);
      var rest := NewThreads(seen + {k}, lids[1..]);
      if k.ThreadKey? && k !in seen then [k.tid] + rest else rest
  }

  /** Over a run of accepts, the thread count grows by the number of threads new to the monitor. */
  lemma {:induction false} AcceptAllThreadCount(m: Monitor, lids: seq<LoggerId>)
    requires Valid(m)
    ensures AcceptAll(m, lids).threadCount == m.threadCount + |NewThreads(m.slots.Keys, lids)|
    decreases |lids|
  {
    if lids != [] {
      var m1 := Accept(m, lids[0]);
      assert m1.slots.Keys == m.slots.Keys + {KeyOf(lids[0])};
      AcceptAllThreadCount(m1, lids[1..]);
    }
  }

  /**
   * Threads are numbered in the order they first log: over a run of
   * accepts, the i-th thread new to the monitor is named after the count
   * before the run plus i + 1 (passed in as `n`).
   */
  lemma {:induction false} AcceptAllThreadName(m: Monitor, lids: seq<LoggerId>, i: nat, n: nat)
    requires Valid(m) && i < |NewThreads(m.slots.Keys, lids)|
    requires n == m.threadCount + i + 1
    ensures var r, t := AcceptAll(m, lids), ThreadKey(NewThreads(m.slots.Keys, lids)[i]);
            t in r.slots && r.names[r.slots[t]] == ThreadName(n)
    decreases |lids|, 1
  {
    if lids[0].aid != 0 || KeyOf(lids[0]) in m.slots {
      OtherEventThreadName(m, lids, i, n);
    } else if i == 0 {
      FirstThreadName(m, lids, i, n);
    } else {
      LaterThreadName(m, lids, i, n);
    }
  }

  /** The first event of a new thread names its slot after the incremented count. */
  lemma FirstThreadName(m: Monitor, lids: seq<LoggerId>, i: nat, n: nat)
    requires Valid(m) && lids != [] && lids[0].aid == 0 && KeyOf(lids[0]) !in m.slots
    requires i == 0 && n == m.threadCount + 1
    requires i < |NewThreads(m.slots.Keys, lids)|
    ensures var r, t := AcceptAll(m, lids), ThreadKey(NewThreads(m.slots.Keys, lids)[i]);
            t in r.slots && r.names[r.slots[t]] == ThreadName(n)
  {
    var k := KeyOf(lids[0]);
    var m1 := Accept(m, lids[0]);
    var r := AcceptAll(m1, lids[1..]);
    assert AcceptAll(m, lids) == r;
    NewThreadsFirst(m.slots.Keys, m1.slots.Keys, lids);
    assert ThreadKey(NewThreads(m.slots.Keys, lids)[i]) == k;
    AcceptAllSlots(m1, lids[1..]);
    AcceptAllNames(m1, lids[1..]);
    assert r.names[r.slots[k]] == m1.names[|m.names|];
    assert m1.threadCount == n;
    assert m1.names[|m.names|] == ThreadName(n);
  }

  /** The later new threads of a run that starts with a new thread are numbered one further on. */
  lemma {:induction false} LaterThreadName(m: Monitor, lids: seq<LoggerId>, i: nat, n: nat)
    requires Valid(m) && lids != [] && lids[0].aid == 0 && KeyOf(lids[0]) !in m.slots
    requires 0 < i < |NewThreads(m.slots.Keys, lids)|
    requires n == m.threadCount + i + 1
    ensures var r, t := AcceptAll(m, lids), ThreadKey(NewThreads(m.slots.Keys, lids)[i]);
            t in r.slots && r.names[r.slots[t]] == ThreadName(n)
    decreases |lids|, 0
  {
    var m1 := Accept(m, lids[0]);
    assert AcceptAll(m, lids) == AcceptAll(m1, lids[1..]);
    NewThreadsLater(m.slots.Keys, m1.slots.Keys, lids, i);
    assert m1.threadCount == m.threadCount + 1;
    AcceptAllThreadName(m1, lids[1..], i - 1, n);
  }

  /** An event of an actor or of a known thread shifts no thread number. */
  lemma {:induction false} OtherEventThreadName(m: Monitor, lids: seq<LoggerId>, i: nat, n: nat)
    requires Valid(m) && lids != [] && (lids[0].aid != 0 || KeyOf(lids[0]) in m.slots)
    requires i < |NewThreads(m.slots.Keys, lids)|
    requires n == m.threadCount + i + 1
    ensures var r, t := AcceptAll(m, lids), ThreadKey(NewThreads(m.slots.Keys, lids)[i]);
            t in r.slots && r.names[r.slots[t]] == ThreadName(n)
    decreases |lids|, 0
  {
    var m1 := Accept(m, lids[0]);
    assert AcceptAll(m, lids) == AcceptAll(m1, lids[1..]);
    NewThreadsSkip(m.slots.Keys, m1.slots.Keys, lids);
    assert m1.threadCount == m.threadCount;
    AcceptAllThreadName(m1, lids[1..], i, n);
  }

  /** A run whose first event comes from a thread new to `seen` lists that thread first. */
  lemma NewThreadsFirst(seen: set<Key>, seen': set<Key>, lids: seq<LoggerId>)
    requires lids != [] && lids[0].aid == 0 && KeyOf(lids[0]) !in seen
    requires seen' == seen + {KeyOf(lids[0])}
    ensures NewThreads(seen, lids) == [lids[0].tid] + NewThreads(seen', lids[1..])
  {
  }

  /** After a new thread's first event, the later new threads are those of the rest of the run. */
  lemma NewThreadsLater(seen: set<Key>, seen': set<Key>, lids: seq<LoggerId>, i: nat)
    requires lids != [] && lids[0].aid == 0 && KeyOf(lids[0]) !in seen
    requires seen' == seen + {KeyOf(lids[0])}
    requires 0 < i < |NewThreads(seen, lids)|
    ensures i - 1 < |NewThreads(seen', lids[1..])|
    ensures NewThreads(seen, lids)[i] == NewThreads(seen', lids[1..])[i - 1]
  {
    NewThreadsFirst(seen, seen', lids);
  }

  /** Any other first event adds no thread. */
  lemma NewThreadsSkip(seen: set<Key>, seen': set<Key>, lids: seq<LoggerId>)
    requires lids != [] && (lids[0].aid != 0 || KeyOf(lids[0]) in seen)
    requires seen' == seen + {KeyOf(lids[0])}
    ensures NewThreads(seen, lids) == NewThreads(seen', lids[1..])
  {
  }

  /** From a fresh monitor, the n-th thread to log outside any actor is named "thread<n>". */
  lemma ThreadsNumberedInOrder(lids: seq<LoggerId>, i: nat)
    requires i < |NewThreads({}, lids)|
    ensures var r, t := AcceptAll(Empty, lids), ThreadKey(NewThreads({}, lids)[i]);
            t in r.slots && r.names[r.slots[t]] == ThreadName(i + 1)
  {
    AcceptAllThreadName(Empty, lids, i, i + 1);
  }

  function Sum(s: seq<nat>): nat {
    if s == [] then 0 else Sum(s[..|s| - 1]) + s[|s| - 1]
  }

  lemma {:induction false} SumIncrement(s: seq<nat>, v: nat)
    requires v < |s|
    ensures Sum(s[v := s[v] + 1]) == Sum(s) + 1
    decreases |s|
  {
    var t := s[v := s[v] + 1];
    var n := |s| - 1;
    assert t[..n] == if v == n then s[..n] else s[..n][v := s[v] + 1];
    if v < n {
      SumIncrement(s[..n], v);
    }
  }

  lemma SumAppend(s: seq<nat>, x: nat)
    ensures Sum(s + [x]) == Sum(s) + x
  {
    assert (s + [x])[..|s|] == s;
  }

  /** Each accept adds exactly one event to the total of the vector timestamp. */
  lemma AcceptSum(m: Monitor, lid: LoggerId)
    requires Valid(m)
    ensures Sum(Accept(m, lid).stamps) == Sum(m.stamps) + 1
  {
    var k := KeyOf(lid);
    var r := Accept(m, lid);
    if k in m.slots {
      SumBumped(m.stamps, r.stamps, m.slots[k]);
    } else {
      SumExtended(m.stamps, r.stamps);
    }
  }

  /** A timestamp that differs from `s` only by one more event in slot `v`. */
  lemma SumBumped(s: seq<nat>, t: seq<nat>, v: nat)
    requires v < |s| == |t| && t[v] == s[v] + 1
    requires forall i :: 0 <= i < |s| && i != v ==> t[i] == s[i]
    ensures Sum(t) == Sum(s) + 1
  {
    assert t == s[v := s[v] + 1];
    SumIncrement(s, v);
  }

  /** A timestamp that extends `s` by a new slot with one event. */
  lemma SumExtended(s: seq<nat>, t: seq<nat>)
    requires |t| == |s| + 1 && t[|s|] == 1
    requires forall i :: 0 <= i < |s| ==> t[i] == s[i]
    ensures Sum(t) == Sum(s) + 1
  {
    assert t == s + [1];
    SumAppend(s, 1);
  }

  /** The number of ids in `lids` that share the key `k`. */
  function Count(lids: seq<LoggerId>, k: Key): nat {
    if lids == [] then 0 else (if KeyOf(lids[0]) == k then 1 else 0) + Count(lids[1..], k)
  }

  /** The total of the counters is the number of accepted events. */
  lemma {:induction false} AcceptAllSum(m: Monitor, lids: seq<LoggerId>)
    requires Valid(m)
    ensures Sum(AcceptAll(m, lids).stamps) == Sum(m.stamps) + |lids|
    decreases |lids|
  {
    if lids != [] {
      AcceptSum(m, lids[0]);
      AcceptAllSum(Accept(m, lids[0]), lids[1..]);
    }
  }

  /** Slots, once handed out, never move, and only the keys of accepted ids gain one. */
  lemma {:induction false} AcceptAllSlots(m: Monitor, lids: seq<LoggerId>)
    requires Valid(m)
    ensures forall k :: k in m.slots ==> k in AcceptAll(m, lids).slots && AcceptAll(m, lids).slots[k] == m.slots[k]
    ensures forall k :: k in AcceptAll(m, lids).slots <==> k in m.slots || Count(lids, k) > 0
    decreases |lids|
  {
    if lids != [] {
      AcceptAllSlots(Accept(m, lids[0]), lids[1..]);
    }
  }

  /** The counter of a key's slot, 0 for a key that has none yet. */
  function CounterOf(m: Monitor, k: Key): nat
    requires Valid(m)
  {
    if k in m.slots then m.stamps[m.slots[k]] else 0
  }

  /** A key's counter grows by the number of its accepted events. */
  lemma {:induction false} AcceptAllCounter(m: Monitor, lids: seq<LoggerId>, k: Key)
    requires Valid(m)
    ensures CounterOf(AcceptAll(m, lids), k) == CounterOf(m, k) + Count(lids, k)
    decreases |lids|
  {
    if lids != [] {
      AcceptCounter(m, lids[0], k);
      AcceptAllCounter(Accept(m, lids[0]), lids[1..], k);
    }
  }

  lemma AcceptCounter(m: Monitor, lid: LoggerId, k: Key)
    requires Valid(m)
    ensures CounterOf(Accept(m, lid), k) == CounterOf(m, k) + (if KeyOf(lid) == k then 1 else 0)
  {
    var r := Accept(m, lid);
    var own := KeyOf(lid);
    if k != own && k in m.slots {
      var i := m.slots[k];
      assert r.slots[k] == i && i < |m.stamps|;
      assert i != r.slots[own];
      assert r.stamps[i] == m.stamps[i];
    } else if k != own {
      assert k !in r.slots;
    }
  }

  /** `b` is at least `a` in every slot of `a`: the happened-before order of vector clocks. */
  predicate Dominates(b: seq<nat>, a: seq<nat>) {
    |a| <= |b| && forall i :: 0 <= i < |a| ==> a[i] <= b[i]
  }

  /** Every accepted event gets a timestamp strictly after the previous one. */
  lemma AcceptAdvances(m: Monitor, lid: LoggerId)
    requires Valid(m)
    ensures Dominates(Accept(m, lid).stamps, m.stamps)
    ensures Accept(m, lid).stamps != m.stamps
  {
    var r := Accept(m, lid);
    var v := r.slots[KeyOf(lid)];
    if KeyOf(lid) in m.slots {
      assert r.stamps[v] != m.stamps[v];
    }
  }

  /** The `"name":count` member of the JSON object. */
  function Member(name: string, x: nat): string {
    "\"" + name + "\"" + ":" + Decimal(x)
  }

  /** The members for the non-zero counters of `vstamp`, in slot order. */
  function Members(names: seq<string>, vstamp: seq<nat>): (r: seq<string>)
    requires |vstamp| <= |names|
    ensures |r| <= |vstamp|
  {
    if vstamp == [] then []
    else
      var n := |vstamp| - 1;
      Members(names, vstamp[..n]) + (if vstamp[n] > 0 then [Member(names[n], vstamp[n])] else [])
  }

  function JoinComma(xs: seq<string>): string {
    if xs == [] then ""
    else if |xs| == 1 then xs[0]
    else JoinComma(xs[..|xs| - 1]) + "," + xs[|xs| - 1]
  }

  /**
   * `json_vector_timestamp`: the members of the non-zero counters, separated
   * by commas, in braces. The source looks each name up by slot, so the
   * names must cover the timestamp.
   */
  method JsonVectorTimestamp(names: seq<string>, vstamp: seq<nat>) returns (s: string)
    requires |vstamp| <= |names|
    ensures s == "{" + JoinComma(Members(names, vstamp)) + "}"
  {
    s := "{";
    var needComma := false;
    var i := 0;
    while i < |vstamp|
      invariant 0 <= i <= |vstamp|
      invariant s == "{" + JoinComma(Members(names, vstamp[..i]))
      invariant needComma <==> Members(names, vstamp[..i]) != []
    {
      var x := vstamp[i];
      JsonStep(names, vstamp, i, needComma);
      if x > 0 {
        if needComma {
          s := s + ",";
        } else {
          needComma := true;
        }
        s := s + Member(names[i], x);
      }
      i := i + 1;
    }
    assert vstamp[..i] == vstamp;
    s := s + "}";
  }

  /** One iteration of the writer's loop extends the output by the slot's member, if any. */
  lemma JsonStep(names: seq<string>, vstamp: seq<nat>, i: nat, needComma: bool)
    requires i < |vstamp| <= |names|
    requires needComma <==> Members(names, vstamp[..i]) != []
    ensures vstamp[i] == 0 ==> Members(names, vstamp[..i + 1]) == Members(names, vstamp[..i])
    ensures vstamp[i] > 0 ==>
      && Members(names, vstamp[..i + 1]) != []
      && "{" + JoinComma(Members(names, vstamp[..i + 1]))
         == "{" + JoinComma(Members(names, vstamp[..i])) + (if needComma then "," else "") + Member(names[i], vstamp[i])
  {
    MembersStep(names, vstamp, i);
    if vstamp[i] > 0 {
      CommaStep(Members(names, vstamp[..i]), Member(names[i], vstamp[i]), needComma);
    }
  }

  lemma CommaStep(xs: seq<string>, m: string, needComma: bool)
    requires needComma <==> xs != []
    ensures "{" + JoinComma(xs + [m]) == "{" + JoinComma(xs) + (if needComma then "," else "") + m
  {
    JoinCommaSnoc(xs, m);
    if needComma {
      assert "{" + JoinComma(xs) + "," + m == "{" + (JoinComma(xs) + "," + m);
    } else {
      assert JoinComma(xs) == "";
    }
  }

  lemma MembersStep(names: seq<string>, vstamp: seq<nat>, i: nat)
    requires i < |vstamp| <= |names|
    ensures Members(names, vstamp[..i + 1])
         == Members(names, vstamp[..i]) + (if vstamp[i] > 0 then [Member(names[i], vstamp[i])] else [])
  {
    var t := vstamp[..i + 1];
    assert t[..|t| - 1] == vstamp[..i];
    assert t[|t| - 1] == vstamp[i];
  }

  lemma JoinCommaSnoc(xs: seq<string>, x: string)
    ensures JoinComma(xs + [x]) == if xs == [] then x else JoinComma(xs) + "," + x
  {
    assert (xs + [x])[..|xs|] == xs;
  }

  function Positives(vstamp: seq<nat>): nat {
    if vstamp == [] then 0 else Positives(vstamp[..|vstamp| - 1]) + (if vstamp[|vstamp| - 1] > 0 then 1 else 0)
  }

  /** One member per non-zero counter, and each names its slot. */
  lemma {:induction false} MembersCount(names: seq<string>, vstamp: seq<nat>)
    requires |vstamp| <= |names|
    ensures |Members(names, vstamp)| == Positives(vstamp)
    decreases |vstamp|
  {
    if vstamp != [] {
      MembersCount(names, vstamp[..|vstamp| - 1]);
    }
  }

  /** A timestamp from a valid monitor has no zero counter, so every slot is printed. */
  lemma MembersOfValid(m: Monitor, k: nat)
    requires Valid(m) && k <= |m.stamps|
    ensures Members(m.names, m.stamps[..k]) == seq(k, i requires 0 <= i < k => Member(m.names[i], m.stamps[i]))
  {
    MembersOfPositive(m.names, m.stamps, k);
  }

  /** With no zero counter, every one of the first `k` slots is printed, in order. */
  lemma {:induction false} MembersOfPositive(names: seq<string>, stamps: seq<nat>, k: nat)
    requires |stamps| <= |names| && k <= |stamps|
    requires forall i :: 0 <= i < |stamps| ==> stamps[i] >= 1
    ensures Members(names, stamps[..k]) == seq(k, i requires 0 <= i < k => Member(names[i], stamps[i]))
    decreases k
  {
    if k > 0 {
      MembersOfPositive(names, stamps, k - 1);
      assert stamps[..k][..k - 1] == stamps[..k - 1];
    }
  }
}
