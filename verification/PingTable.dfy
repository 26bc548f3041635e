/** The table of outstanding echo requests in ping: 128 slots searched from the front, reused without
    being cleared. It is proved to behave as a map from request numbers to send times. */
module PingTable {
  import opened MachineInts

  const SLOTS := 128

  type int16 = x: int | -0x8000 <= x < 0x8000
  type Time = int

  datatype Slot = Slot(seqNo: int16, flag: int, begin: Time)

  /** Conversion to a 16-bit signed integer. */
  function ToShort(n: int): int16 {
    (n + 0x8000) % 0x1_0000 - 0x8000
  }

  /** The first slot from i on that is free (for -1) or holds a sequence number. */
  function Find(t: seq<Slot>, want: int, i: nat): (r: Option<nat>)
    requires i <= |t|
    ensures r.Some? ==> i <= r.value < |t| && Matches(t[r.value], want)
    ensures forall k | i <= k < if r.Some? then r.value else |t| :: !Matches(t[k], want)
    decreases |t| - i
  {
    if i == |t| then None else if Matches(t[i], want) then Some(i) else Find(t, want, i + 1)
  }

  predicate Matches(s: Slot, want: int) {
    if want == -1 then s.flag == 0 else want >= 0 && s.seqNo == want
  }

  /** The table and the number of requests sent so far. */
  datatype State = State(slots: seq<Slot>, sent: nat)

  datatype Event = Send(time: Time) | Reply(wire: uint16)

  function Step(s: State, e: Event): State {
    match e
    case Send(time) =>
      var free := Find(s.slots, -1, 0);
      State(if free.Some? then s.slots[free.value := Slot(ToShort(s.sent), 1, time)] else s.slots, s.sent + 1)
    case Reply(wire) =>
      var found := Find(s.slots, wire, 0);
      if found.Some? then s.(slots := s.slots[found.value := s.slots[found.value].(flag := 0)]) else s
  }

  function Run(events: seq<Event>): State {
    if events == [] then State(seq(SLOTS, i => Slot(0, 0, 0)), 0)
    else Step(Run(events[..|events| - 1]), events[|events| - 1])
  }

  // ----- the ideal table -----

  /** A map from request numbers to send times that holds at most as many as there are slots; a reply
      is recognized when its number is not negative as a 16-bit integer. */
  function IdealStep(m: map<nat, Time>, sent: nat, e: Event): map<nat, Time> {
    match e
    case Send(time) => if |m| < SLOTS then m[sent := time] else m
    case Reply(wire) => if wire < 0x8000 then m - {wire} else m
  }

  function Ideal(events: seq<Event>): map<nat, Time> {
    if events == [] then map[]
    else IdealStep(Ideal(events[..|events| - 1]), Sends(events[..|events| - 1]), events[|events| - 1])
  }

  function Sends(events: seq<Event>): nat {
    if events == [] then 0 else Sends(events[..|events| - 1]) + if events[|events| - 1].Send? then 1 else 0
  }

  // ----- the invariant -----

  /** The request a stored sequence number stands for, among the first 65536. */
  function Number(s: Slot): nat {
    s.seqNo % 0x1_0000
  }

  predicate Outstanding(s: Slot) {
    s.flag != 0
  }

  predicate Unused(s: Slot) {
    s.seqNo == 0 && s.flag == 0
  }

  /** A stored number was sent before and is stored once, except for the zeros of unused slots, which
      come after the slot of request 0 while that is outstanding. */
  ghost predicate TableInv(s: State) {
    && |s.slots| == SLOTS
    && (forall i | 0 <= i < SLOTS :: Unused(s.slots[i]) || Number(s.slots[i]) < s.sent)
    && (forall i, j | 0 <= i < j < SLOTS :: s.slots[i].seqNo == s.slots[j].seqNo ==> s.slots[j].seqNo == 0)
    && (forall i | 0 < i < SLOTS :: s.slots[i].seqNo == 0 ==> s.slots[i].flag == 0)
  }

  /** The outstanding requests in the first n slots. */
  function Held(t: seq<Slot>, n: nat): map<nat, Time>
    requires n <= |t|
  {
    if n == 0 then map[]
    else if Outstanding(t[n - 1]) then Held(t, n - 1)[Number(t[n - 1]) := t[n - 1].begin]
    else Held(t, n - 1)
  }

  /** Outstanding slots have different numbers. */
  ghost predicate Distinct(t: seq<Slot>) {
    forall i, j | 0 <= i < j < |t| && Outstanding(t[i]) && Outstanding(t[j]) :: Number(t[i]) != Number(t[j])
  }

  lemma InvIsDistinct(s: State)
    requires TableInv(s)
    ensures Distinct(s.slots)
  {
    forall i, j | 0 <= i < j < SLOTS && Outstanding(s.slots[i]) && Outstanding(s.slots[j])
      ensures Number(s.slots[i]) != Number(s.slots[j])
    {
      assert s.slots[j].seqNo != 0;
      SameNumber(s.slots[i], s.slots[j]);
    }
  }

  lemma SameNumber(a: Slot, b: Slot)
    ensures Number(a) == Number(b) <==> a.seqNo == b.seqNo
  {
  }

  lemma {:induction false} HeldExactly(t: seq<Slot>, n: nat, k: nat)
    requires n <= |t| && Distinct(t)
    ensures k in Held(t, n) <==> exists i :: 0 <= i < n && Outstanding(t[i]) && Number(t[i]) == k
    ensures forall i | 0 <= i < n && Outstanding(t[i]) && Number(t[i]) == k :: Held(t, n)[k] == t[i].begin
  {
    if n > 0 {
      HeldExactly(t, n - 1, k);
    }
  }

  lemma {:induction false} HeldSize(t: seq<Slot>, n: nat)
    requires n <= |t| && Distinct(t)
    ensures |Held(t, n)| <= n
    ensures |Held(t, n)| == n <==> forall i | 0 <= i < n :: Outstanding(t[i])
  {
    if n > 0 {
      HeldSize(t, n - 1);
      HeldExactly(t, n - 1, Number(t[n - 1]));
    }
  }

  predicate Stands(s: Slot, k: nat) {
    Outstanding(s) && Number(s) == k
  }

  /** Overwriting a slot takes its old request out of the map and puts the new one in. */
  lemma Replaced(t: seq<Slot>, i: nat, s: Slot, k: nat)
    requires i < |t| && Distinct(t) && Distinct(t[i := s])
    ensures var m, m' := Held(t, |t|), Held(t[i := s], |t|);
            && (k in m' <==> Stands(s, k) || (k in m && !Stands(t[i], k)))
            && (k in m' ==> m'[k] == if Stands(s, k) then s.begin else m[k])
  {
    var t' := t[i := s];
    HeldExactly(t, |t|, k);
    HeldExactly(t', |t|, k);
    if j :| 0 <= j < |t| && Stands(t[j], k) {
      assert j != i ==> t'[j] == t[j];
    }
    if j :| 0 <= j < |t| && Stands(t'[j], k) {
      assert j != i ==> t'[j] == t[j];
    }
    assert t'[i] == s;
  }

  // ----- one event -----

  lemma SendKeeps(s: State, time: Time)
    requires TableInv(s) && s.sent < 0x1_0000
    ensures TableInv(Step(s, Send(time)))
    ensures Held(Step(s, Send(time)).slots, SLOTS) == IdealStep(Held(s.slots, SLOTS), s.sent, Send(time))
  {
    var t := Step(s, Send(time));
    var free := Find(s.slots, -1, 0);
    InvIsDistinct(s);
    HeldSize(s.slots, SLOTS);
    if free.Some? {
      NewNumber(s.sent);
      InvIsDistinct(t);
      SentMap(s.slots, free.value, Slot(ToShort(s.sent), 1, time));
    }
  }

  lemma SentMap(t: seq<Slot>, i: nat, s: Slot)
    requires i < |t| && Distinct(t) && Distinct(t[i := s]) && !Outstanding(t[i]) && Outstanding(s)
    ensures Held(t[i := s], |t|) == Held(t, |t|)[Number(s) := s.begin]
  {
    var m, m' := Held(t, |t|)[Number(s) := s.begin], Held(t[i := s], |t|);
    forall k: nat ensures k in m' <==> k in m
      ensures k in m' ==> m'[k] == m[k]
    {
      Replaced(t, i, s, k);
    }
  }

  lemma ClearedMap(t: seq<Slot>, i: nat)
    requires i < |t| && Distinct(t) && Outstanding(t[i])
    ensures Held(t[i := t[i].(flag := 0)], |t|) == Held(t, |t|) - {Number(t[i])}
  {
    var s := t[i].(flag := 0);
    var m, m' := Held(t, |t|) - {Number(t[i])}, Held(t[i := s], |t|);
    forall k: nat ensures k in m' <==> k in m
      ensures k in m' ==> m'[k] == m[k]
    {
      Replaced(t, i, s, k);
      HeldExactly(t, |t|, k);
    }
  }

  lemma NewNumber(n: nat)
    requires n < 0x1_0000
    ensures ToShort(n) % 0x1_0000 == n && (ToShort(n) == 0 <==> n == 0)
  {
  }

  /** A number on the wire finds the slot of the outstanding request it stands for, if there is one and
      the number is not negative as a 16-bit integer; a negative one finds nothing. */
  lemma FindsOwnSlot(s: State, wire: uint16, i: nat)
    requires TableInv(s) && i < SLOTS && Stands(s.slots[i], wire)
    ensures Find(s.slots, wire, 0) == if wire < 0x8000 then Some(i) else None
  {
    if wire < 0x8000 {
      var found := Find(s.slots, wire, 0);
      assert s.slots[i].seqNo == wire;
      assert found.Some? && found.value <= i;
    }
  }

  lemma ReplyKeeps(s: State, wire: uint16)
    requires TableInv(s)
    ensures TableInv(Step(s, Reply(wire)))
    ensures Held(Step(s, Reply(wire)).slots, SLOTS) == IdealStep(Held(s.slots, SLOTS), s.sent, Reply(wire))
  {
    InvIsDistinct(s);
    HeldExactly(s.slots, SLOTS, wire);
    var found := Find(s.slots, wire, 0);
    if wire in Held(s.slots, SLOTS) {
      var i :| 0 <= i < SLOTS && Stands(s.slots[i], wire);
      FindsOwnSlot(s, wire, i);
      if wire < 0x8000 {
        ClearedMap(s.slots, i);
      }
    } else if found.Some? {
      assert Number(s.slots[found.value]) == wire;
      assert s.slots[found.value].(flag := 0) == s.slots[found.value];
      assert s.slots[found.value := s.slots[found.value]] == s.slots;
    }
  }

  // ----- every run -----

  lemma {:induction false} InitialTable()
    ensures TableInv(Run([])) && Held(Run([]).slots, SLOTS) == map[]
  {
    NothingHeld(Run([]).slots, SLOTS);
  }

  lemma {:induction false} NothingHeld(t: seq<Slot>, n: nat)
    requires n <= |t| && forall i | 0 <= i < n :: !Outstanding(t[i])
    ensures Held(t, n) == map[]
  {
    if n > 0 {
      NothingHeld(t, n - 1);
    }
  }

  /** Over every interleaving of up to 65536 requests and any replies, late, repeated or never sent, the
      table holds exactly the ideal map. */
  lemma {:induction false} RefinesMap(events: seq<Event>)
    requires Sends(events) <= 0x1_0000
    ensures TableInv(Run(events)) && Run(events).sent == Sends(events)
    ensures Held(Run(events).slots, SLOTS) == Ideal(events)
  {
    if events == [] {
      InitialTable();
    } else {
      hide TableInv, Held, Step, IdealStep;
      var before, e := events[..|events| - 1], events[|events| - 1];
      RefinesMap(before);
      match e
      case Send(time) =>
        SendKeeps(Run(before), time);
        assert Step(Run(before), e).sent == Run(before).sent + 1 by { SentCounts(Run(before), e); }
      case Reply(wire) =>
        ReplyKeeps(Run(before), wire);
        SentCounts(Run(before), e);
    }
  }

  lemma SentCounts(s: State, e: Event)
    ensures Step(s, e).sent == s.sent + if e.Send? then 1 else 0
  {
  }

  /** The send time a reply is compared with. */
  function ReplyTime(s: State, wire: uint16): Option<Time> {
    var found := Find(s.slots, wire, 0);
    if found.Some? then Some(s.slots[found.value].begin) else None
  }

  /** In every such run a reply to a recorded, unanswered request is compared with that request's own send
      time, in spite of reused slots, numbers left in freed slots and the initial zeros; this holds
      exactly for the first 32768 requests, and replies to the others are ignored. */
  lemma RepliesFindTheirRequest(events: seq<Event>, k: nat)
    requires Sends(events) <= 0x1_0000
    ensures k in Ideal(events) ==>
              && k < 0x1_0000
              && ReplyTime(Run(events), k) == if k < 0x8000 then Some(Ideal(events)[k]) else None
  {
    var s := Run(events);
    RefinesMap(events);
    if k in Ideal(events) {
      InvIsDistinct(s);
      HeldExactly(s.slots, SLOTS, k);
      var i :| 0 <= i < SLOTS && Stands(s.slots[i], k);
      FindsOwnSlot(s, k, i);
    }
  }

  /** A request is recorded exactly when fewer than 128 are outstanding. */
  lemma FullExactly(events: seq<Event>)
    requires Sends(events) <= 0x1_0000
    ensures |Ideal(events)| <= SLOTS
    ensures Find(Run(events).slots, -1, 0) == None <==> |Ideal(events)| == SLOTS
  {
    var s := Run(events);
    RefinesMap(events);
    InvIsDistinct(s);
    HeldSize(s.slots, SLOTS);
    if Find(s.slots, -1, 0) == None {
      assert forall i | 0 <= i < SLOTS :: !Matches(s.slots[i], -1) ==> Outstanding(s.slots[i]);
    }
  }

  // ----- replies to answered requests -----

  datatype Record = Record(number: nat, time: Time)

  predicate Done(r: Option<Record>, m: map<nat, Time>) {
    r.Some? ==> r.value.number !in m
  }

  /** The first slot from i on whose last request is not outstanding. */
  function FirstDone(last: seq<Option<Record>>, m: map<nat, Time>, i: nat): (r: Option<nat>)
    requires i <= |last|
    ensures r.Some? ==> i <= r.value < |last| && Done(last[r.value], m)
    ensures forall k | i <= k < if r.Some? then r.value else |last| :: !Done(last[k], m)
    decreases |last| - i
  {
    if i == |last| then None else if Done(last[i], m) then Some(i) else FirstDone(last, m, i + 1)
  }

  /** The request last recorded in each slot: each request goes into the first slot whose last request is not
      outstanding any more, and a reply takes nothing out. */
  function Last(events: seq<Event>): (last: seq<Option<Record>>)
    ensures |last| == SLOTS
  {
    if events == [] then seq(SLOTS, i => None)
    else
      var before, e := events[..|events| - 1], events[|events| - 1];
      match e
      case Send(time) =>
        var free := FirstDone(Last(before), Ideal(before), 0);
        if free.Some? then Last(before)[free.value := Some(Record(Sends(before), time))] else Last(before)
      case Reply(_) => Last(before)
  }

  /** What a slot holds of the last request recorded in it. */
  predicate Keeps(s: Slot, i: nat, r: Option<Record>, sent: nat, m: map<nat, Time>) {
    match r
    case None => s == Slot(0, 0, 0)
    case Some(q) =>
      && q.number < sent && s.seqNo == ToShort(q.number) && s.begin == q.time
      && (s.flag != 0 <==> q.number in m) && (q.number == 0 ==> i == 0)
  }

  ghost predicate KeepsAll(s: State, last: seq<Option<Record>>, m: map<nat, Time>) {
    && |s.slots| == |last| == SLOTS && s.sent <= 0x1_0000
    && forall i | 0 <= i < SLOTS :: Keeps(s.slots[i], i, last[i], s.sent, m)
  }

  lemma SameFree(s: State, last: seq<Option<Record>>, m: map<nat, Time>)
    requires KeepsAll(s, last, m)
    ensures Find(s.slots, -1, 0) == FirstDone(last, m, 0)
    ensures s.sent == 0 ==> FirstDone(last, m, 0) == Some(0)
  {
    var a, b := Find(s.slots, -1, 0), FirstDone(last, m, 0);
    forall i | 0 <= i < SLOTS ensures Matches(s.slots[i], -1) <==> Done(last[i], m) {
      assert Keeps(s.slots[i], i, last[i], s.sent, m);
    }
    if s.sent == 0 {
      assert Keeps(s.slots[0], 0, last[0], s.sent, m);
    }
  }

  lemma SendIsKept(s: State, last: seq<Option<Record>>, m: map<nat, Time>, time: Time)
    requires KeepsAll(s, last, m) && s.sent < 0x1_0000 && s.sent !in m
    requires |m| < SLOTS <==> Find(s.slots, -1, 0).Some?
    ensures var free := FirstDone(last, m, 0);
            KeepsAll(Step(s, Send(time)), if free.Some? then last[free.value := Some(Record(s.sent, time))] else last,
                     IdealStep(m, s.sent, Send(time)))
  {
    hide Find, FirstDone, ToShort;
    SameFree(s, last, m);
    var free := FirstDone(last, m, 0);
    var last' := if free.Some? then last[free.value := Some(Record(s.sent, time))] else last;
    var t, m' := Step(s, Send(time)), IdealStep(m, s.sent, Send(time));
    forall i | 0 <= i < SLOTS ensures Keeps(t.slots[i], i, last'[i], t.sent, m') {
      assert Keeps(s.slots[i], i, last[i], s.sent, m);
    }
  }

  lemma ReplyIsKept(s: State, last: seq<Option<Record>>, m: map<nat, Time>, wire: uint16)
    requires KeepsAll(s, last, m) && TableInv(s)
    ensures KeepsAll(Step(s, Reply(wire)), last, IdealStep(m, s.sent, Reply(wire)))
  {
    var t, m' := Step(s, Reply(wire)), IdealStep(m, s.sent, Reply(wire));
    var found := Find(s.slots, wire, 0);
    forall i | 0 <= i < SLOTS ensures Keeps(t.slots[i], i, last[i], t.sent, m') {
      assert Keeps(s.slots[i], i, last[i], s.sent, m);
      ReplyAt(s, last, m, wire, i);
    }
  }

  lemma ReplyAt(s: State, last: seq<Option<Record>>, m: map<nat, Time>, wire: uint16, i: nat)
    requires KeepsAll(s, last, m) && TableInv(s) && i < SLOTS
    ensures |Step(s, Reply(wire)).slots| == SLOTS
    ensures Keeps(Step(s, Reply(wire)).slots[i], i, last[i], s.sent, IdealStep(m, s.sent, Reply(wire)))
  {
    var found := Find(s.slots, wire, 0);
    assert Keeps(s.slots[i], i, last[i], s.sent, m);
    if last[i].Some? {
      NewNumber(last[i].value.number);
      if last[i].value.number == wire < 0x8000 {
        assert Matches(s.slots[i], wire);
        assert found.Some? && found.value <= i;
      }
    }
  }

  /** Over every run of up to 65536 requests each slot keeps number and time of the request last recorded in it. */
  lemma {:induction false} LastIsKept(events: seq<Event>)
    requires Sends(events) <= 0x1_0000
    ensures KeepsAll(Run(events), Last(events), Ideal(events)) && Run(events).sent == Sends(events)
  {
    if events != [] {
      hide KeepsAll, Step, IdealStep, TableInv, Find, FirstDone;
      var before, e := events[..|events| - 1], events[|events| - 1];
      LastIsKept(before);
      RefinesMap(before);
      RefinesMap(events);
      match e
      case Send(time) =>
        FullExactly(before);
        IdealIsBelow(before, Sends(before));
        SendIsKept(Run(before), Last(before), Ideal(before), time);
      case Reply(wire) =>
        ReplyIsKept(Run(before), Last(before), Ideal(before), wire);
    }
  }

  lemma {:induction false} IdealIsBelow(events: seq<Event>, n: nat)
    requires n >= Sends(events)
    ensures n !in Ideal(events)
  {
    if events != [] {
      IdealIsBelow(events[..|events| - 1], n);
    }
  }

  /** Over every such run a reply is compared with the time of the request it names exactly as long as that is the
      last one recorded in some slot, answered or not, and is below 32768; a reply to request 0 is otherwise
      compared with time 0 as long as some slot was never used, and every other reply is ignored. */
  lemma ReplyTimeExactly(events: seq<Event>, wire: uint16)
    requires Sends(events) <= 0x1_0000
    ensures var time := ReplyTime(Run(events), wire);
            && (forall t | Some(Record(wire, t)) in Last(events) :: time == if wire < 0x8000 then Some(t) else None)
            && ((forall t :: Some(Record(wire, t)) !in Last(events)) ==>
                  time == if wire == 0 && None in Last(events) then Some(0) else None)
  {
    hide KeepsAll, TableInv;
    LastIsKept(events);
    RefinesMap(events);
    FoundIsLast(Run(events), Last(events), Ideal(events), wire);
  }

  lemma FoundIsLast(s: State, last: seq<Option<Record>>, m: map<nat, Time>, wire: uint16)
    requires KeepsAll(s, last, m) && TableInv(s)
    ensures forall t | Some(Record(wire, t)) in last :: ReplyTime(s, wire) == if wire < 0x8000 then Some(t) else None
    ensures (forall t :: Some(Record(wire, t)) !in last) ==>
              ReplyTime(s, wire) == if wire == 0 && None in last then Some(0) else None
  {
    var found := Find(s.slots, wire, 0);
    if found.Some? {
      var f := found.value;
      assert Keeps(s.slots[f], f, last[f], s.sent, m);
      if last[f].Some? {
        NewNumber(last[f].value.number);
        assert last[f] == Some(Record(wire, last[f].value.time));
      }
    }
    forall t | Some(Record(wire, t)) in last
      ensures ReplyTime(s, wire) == if wire < 0x8000 then Some(t) else None
    {
      var i :| 0 <= i < SLOTS && last[i] == Some(Record(wire, t));
      assert Keeps(s.slots[i], i, last[i], s.sent, m);
      NewNumber(wire);
    }
    if wire == 0 && None in last {
      var i :| 0 <= i < SLOTS && last[i] == None;
      assert Keeps(s.slots[i], i, last[i], s.sent, m);
    }
  }

  // ----- two threads -----

  /** A reply finds slot i, the sending thread records a request, and only then the slot's flag is cleared. */
  function LateClear(s: State, i: nat, time: Time): State
    requires i < |s.slots|
  {
    var t := Step(s, Send(time));
    assert |t.slots| == |s.slots|;
    t.(slots := t.slots[i := t.slots[i].(flag := 0)])
  }

  /** The two threads take no lock. With a request recorded between a reply's search and its clearing, the table
      is still what it should be exactly if the request did not take the slot the reply had found, or the
      reply's number is that of the request. */
  lemma LateClearExactly(s: State, wire: uint16, i: nat, time: Time)
    requires TableInv(s) && s.sent < 0x1_0000 && Find(s.slots, wire, 0) == Some(i)
    ensures Held(LateClear(s, i, time).slots, SLOTS)
              == IdealStep(IdealStep(Held(s.slots, SLOTS), s.sent, Send(time)), s.sent + 1, Reply(wire))
        <==> Find(s.slots, -1, 0) != Some(i) || wire == s.sent
  {
    hide TableInv, Held, Find;
    if Find(s.slots, -1, 0) == Some(i) {
      TakenSlot(s, wire, i, time);
    } else {
      OtherSlot(s, wire, i, time);
      SendKeeps(s, time);
      ReplyKeeps(Step(s, Send(time)), wire);
    }
  }

  /** In another slot the clearing comes to the same as a reply after the request. */
  lemma OtherSlot(s: State, wire: uint16, i: nat, time: Time)
    requires TableInv(s) && s.sent < 0x1_0000 && Find(s.slots, wire, 0) == Some(i) && Find(s.slots, -1, 0) != Some(i)
    ensures LateClear(s, i, time) == Step(Step(s, Send(time)), Reply(wire)) && wire < 0x8000
  {
    NewNumber(s.sent);
    var t := Step(s, Send(time));
    var free := Find(s.slots, -1, 0);
    forall k | 0 <= k < i ensures !Matches(t.slots[k], wire) {
      if free == Some(k) && ToShort(s.sent) == wire {
        assert false;
      }
    }
    FirstMatch(t.slots, wire, i, 0);
  }

  lemma {:induction false} FirstMatch(t: seq<Slot>, want: int, i: nat, from: nat)
    requires from <= i < |t| && Matches(t[i], want) && forall k | from <= k < i :: !Matches(t[k], want)
    ensures Find(t, want, from) == Some(i)
    decreases i - from
  {
    if from < i {
      FirstMatch(t, want, i, from + 1);
    }
  }

  /** In the slot the request takes, the clearing loses it. */
  lemma TakenSlot(s: State, wire: uint16, i: nat, time: Time)
    requires TableInv(s) && s.sent < 0x1_0000 && Find(s.slots, wire, 0) == Some(i) == Find(s.slots, -1, 0)
    ensures Held(LateClear(s, i, time).slots, SLOTS)
              == IdealStep(IdealStep(Held(s.slots, SLOTS), s.sent, Send(time)), s.sent + 1, Reply(wire))
        <==> wire == s.sent
  {
    hide TableInv, Held, Find, Distinct;
    FreeMeansRoom(s, i);
    var t, m := Step(s, Send(time)), Held(s.slots, SLOTS);
    SendKeeps(s, time);
    InvIsDistinct(t);
    NewNumber(s.sent);
    assert wire < 0x8000 by { FoundIsSmall(s, wire, i); }
    ClearedMap(t.slots, i);
    NotHeld(s, wire, i);
    LostExactly(m, s.sent, wire, time);
  }

  lemma FreeMeansRoom(s: State, i: nat)
    requires TableInv(s) && Find(s.slots, -1, 0) == Some(i)
    ensures |s.slots| == SLOTS && i < SLOTS && |Held(s.slots, SLOTS)| < SLOTS && !Outstanding(s.slots[i])
  {
    InvIsDistinct(s);
    HeldSize(s.slots, SLOTS);
  }

  lemma FoundIsSmall(s: State, wire: uint16, i: nat)
    requires Find(s.slots, wire, 0) == Some(i)
    ensures wire < 0x8000
  {
  }

  lemma NotHeld(s: State, wire: uint16, i: nat)
    requires TableInv(s) && Find(s.slots, wire, 0) == Some(i) && i < SLOTS && !Outstanding(s.slots[i])
    ensures s.sent !in Held(s.slots, SLOTS) && wire !in Held(s.slots, SLOTS)
  {
    InvIsDistinct(s);
    HeldExactly(s.slots, SLOTS, s.sent);
    HeldExactly(s.slots, SLOTS, wire);
    if j :| 0 <= j < SLOTS && Stands(s.slots[j], wire) {
      FindsOwnSlot(s, wire, j);
    }
  }

  lemma LostExactly(m: map<nat, Time>, n: nat, wire: uint16, time: Time)
    requires n !in m && wire !in m
    ensures m[n := time] - {n} == IdealStep(m[n := time], n + 1, Reply(wire)) <==> wire == n && wire < 0x8000
  {
    assert m[n := time] - {n} == m;
    assert n in IdealStep(m[n := time], n + 1, Reply(wire)) <==> wire != n || wire >= 0x8000;
  }

  lemma FirstAnswered()
    ensures var s := Run([Send(1), Reply(0)]);
            s.slots == Run([]).slots[0 := Slot(0, 0, 1)] && s.sent == 1
  {
    var start, sent := Run([]), Run([Send(1)]);
    assert [Send(1), Reply(0)][..1] == [Send(1)] && [Send(1)][..0] == [];
    assert Find(start.slots, -1, 0) == Some(0);
    assert sent == State(start.slots[0 := Slot(0, 1, 1)], 1);
    assert Find(sent.slots, 0, 0) == Some(0);
  }

  /** A reply to request 0 is timed once more after it was answered, and even before anything was sent. */
  lemma RepeatedReplyFails()
    ensures ReplyTime(Run([Send(1), Reply(0)]), 0) == Some(1) && 0 !in Ideal([Send(1), Reply(0)])
    ensures ReplyTime(Run([]), 0) == Some(0) && 0 !in Ideal([])
  {
    FirstAnswered();
    assert [Send(1), Reply(0)][..1] == [Send(1)];
  }

  /** A second reply to request 0, answered already, that is overtaken by request 1 loses that request. */
  lemma LateDuplicateFails()
    ensures var s := Run([Send(1), Reply(0)]);
            && |s.slots| == SLOTS && Find(s.slots, 0, 0) == Some(0)
            && Held(LateClear(s, 0, 2).slots, SLOTS)
                 != IdealStep(IdealStep(Held(s.slots, SLOTS), s.sent, Send(2)), s.sent + 1, Reply(0))
  {
    hide Ideal;
    var s := Run([Send(1), Reply(0)]);
    FirstAnswered();
    assert Sends([Send(1), Reply(0)]) <= 2 by { TwoEvents(); }
    RefinesMap([Send(1), Reply(0)]);
    LateClearExactly(s, 0, 0, 2);
  }

  lemma TwoEvents()
    ensures Sends([Send(1), Reply(0)]) == 1
  {
    assert [Send(1), Reply(0)][..1] == [Send(1)] && [Send(1)][..0] == [];
  }

  // ----- the program -----

  class Ping {
    const table: array<Slot>
    var packetSend: int16

    ghost predicate Represents(s: State)
      reads this, table
    {
      table.Length == SLOTS && table[..] == s.slots && packetSend == ToShort(s.sent)
    }

    constructor ()
      ensures Represents(Run([])) && fresh(table)
    {
      table := new Slot[SLOTS](_ => Slot(0, 0, 0));
      packetSend := 0;
    }

    /** icmp_findpacket */
    method FindPacket(want: int) returns (found: Option<nat>)
      ensures found == Find(table[..], want, 0)
    {
      var i := 0;
      if want == -1 {
        while i < table.Length
          invariant 0 <= i <= table.Length
          invariant Find(table[..], want, 0) == Find(table[..], want, i)
        {
          if table[i].flag == 0 {
            return Some(i);
          }
          i := i + 1;
        }
      } else if want >= 0 {
        while i < table.Length
          invariant 0 <= i <= table.Length
          invariant Find(table[..], want, 0) == Find(table[..], want, i)
        {
          if table[i].seqNo == want {
            return Some(i);
          }
          i := i + 1;
        }
      } else {
        NothingNegative(table[..], want, 0);
      }
      return None;
    }

    /** The table update of icmp_send; the result is the number put into the request. */
    method SendRequest(time: Time, ghost s: State) returns (wire: uint16)
      requires Represents(s)
      modifies this, table
      ensures Represents(Step(s, Send(time))) && wire == s.sent % 0x1_0000
    {
      var packet := FindPacket(-1);
      if packet.Some? {
        table[packet.value] := Slot(packetSend, 1, time);
      }
      wire := packetSend % 0x1_0000;
      packetSend := ToShort(packetSend as int + 1);
    }

    /** The table update of icmp_unpack for an echo reply of this process. */
    method ReceiveReply(wire: uint16, ghost s: State) returns (begin: Option<Time>)
      requires Represents(s)
      modifies table
      ensures Represents(Step(s, Reply(wire))) && begin == ReplyTime(s, wire)
    {
      var packet := FindPacket(wire);
      if packet == None {
        return None;
      }
      table[packet.value] := table[packet.value].(flag := 0);
      begin := Some(table[packet.value].begin);
    }
  }

  lemma {:induction false} NothingNegative(t: seq<Slot>, want: int, i: nat)
    requires want < -1 && i <= |t|
    ensures Find(t, want, i) == None
    decreases |t| - i
  {
    if i < |t| {
      NothingNegative(t, want, i + 1);
    }
  }

  // ----- a request that is not found -----

  /** Requests 0 to n - 1, each answered before the next is sent. */
  function Answered(n: nat): seq<Event>
    requires n <= 0x8000
  {
    if n == 0 then [] else Answered(n - 1) + [Send(0)] + [Reply(n - 1)]
  }

  lemma OneMore(events: seq<Event>, e: Event)
    ensures Ideal(events + [e]) == IdealStep(Ideal(events), Sends(events), e)
    ensures Sends(events + [e]) == Sends(events) + if e.Send? then 1 else 0
  {
    assert (events + [e])[..|events|] == events;
  }

  lemma AnsweredLeavesNothing(k: uint16, sent: nat)
    requires k < 0x8000
    ensures IdealStep(IdealStep(map[], k, Send(0)), sent, Reply(k)) == map[]
  {
    var m: map<nat, Time> := map[k := 0];
    assert IdealStep(map[], k, Send(0)) == m && m - {k} == map[];
  }

  lemma {:induction false} AnsweredIsEmpty(n: nat)
    requires n <= 0x8000
    ensures Ideal(Answered(n)) == map[] && Sends(Answered(n)) == n
  {
    if n > 0 {
      hide Ideal, Sends, IdealStep;
      var before, sent := Answered(n - 1), Answered(n - 1) + [Send(0)];
      AnsweredIsEmpty(n - 1);
      OneMore(before, Send(0));
      OneMore(sent, Reply(n - 1));
      AnsweredLeavesNothing(n - 1, n);
    }
  }

  /** After 32768 answered requests the next one is recorded, but a reply to it is ignored. */
  lemma LateRequestFails()
    ensures var events := Answered(0x8000) + [Send(7)];
            0x8000 in Ideal(events) && ReplyTime(Run(events), 0x8000) == None
  {
    hide Answered, Run, ReplyTime, Ideal, Sends;
    var events := Answered(0x8000) + [Send(7)];
    AnsweredIsEmpty(0x8000);
    OneMore(Answered(0x8000), Send(7));
    RepliesFindTheirRequest(events, 0x8000);
  }
}
