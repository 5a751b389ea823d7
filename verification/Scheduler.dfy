/** The deferred-event scheduler of app_scheduler.c. A put is cut into the steps between which interrupts may run
    other puts, which may be interrupted themselves: reserving a slot inside the critical section, then writing handler,
    data and size outside it. Fetching an event is cut likewise. */
module Scheduler {
  import opened Bytes
  import opened Cyclic

  datatype Err = Ok | NoMemory | Invalid

  /** What a caller puts; `isNull` stands for a NULL data pointer, whatever the size says. */
  datatype Event = Event(handler: nat, data: seq<byte>, isNull: bool) {
    /** What the handler is to be called with. */
    function Payload(): seq<byte> { if isNull then [] else data }
  }

  /** A put in progress: which accepted event it is for, and how many of its three writes are done. */
  datatype Put = Put(c: nat, stage: nat)

  /** Puts one after the other, each with what interrupts it before each of its three writes. */
  datatype Puts = Quiet | Then(e: Event, atHandler: Puts, atData: Puts, atSize: Puts, next: Puts)

  /** One turn of the main loop: the puts that come before the look at the queue, between it and the update of the
      index, before each of the two header reads, and while the handler runs, its own ones included. */
  datatype Turn = Turn(before: Puts, atUpdate: Puts, atSize: Puts, atHandler: Puts, handling: Puts)

  const IDLE := Turn(Quiet, Quiet, Quiet, Quiet, Quiet)

  function Count(puts: Puts): nat {
    match puts
    case Quiet => 0
    case Then(_, a, b, c, next) => 1 + Count(a) + Count(b) + Count(c) + Count(next)
  }

  /** The events in line after these puts, when `room` bounds how many there may be: each put is accepted or refused by
      what has been reserved when its turn comes, and interrupting puts come behind the one they interrupt. */
  function InLine(line: seq<Event>, room: int, eventSize: nat, puts: Puts): (r: seq<Event>)
    ensures line <= r
    decreases puts
  {
    match puts
    case Quiet => line
    case Then(e, a, b, c, next) =>
      var with := if |e.data| <= eventSize && |line| < room then line + [e] else line;
      InLine(InLine(InLine(InLine(with, room, eventSize, a), room, eventSize, b), room, eventSize, c),
        room, eventSize, next)
  }

  /** The number of slots the 8-bit indices cycle through. */
  function Slots(queueSize: nat): (n: nat)
    ensures 0 < n <= 256 && n <= queueSize + 1
  {
    if queueSize < 255 then queueSize + 1 else 256
  }

  /** next_index, with the 8-bit result of the addition. */
  function NextIndex(queueSize: nat, index: nat): nat
    requires index < 256
  {
    if index < queueSize then (index + 1) % 256 else 0
  }

  /** One slot more than the queue is to hold, as far as an 8-bit index reaches. */
  lemma NextIndexCycles(queueSize: nat, c: nat)
    ensures Slots(queueSize) == (if queueSize < 255 then queueSize else 255) + 1
    ensures NextIndex(queueSize, Pos(Slots(queueSize), c)) == Pos(Slots(queueSize), c + 1)
  {
  }

  /** All events that these puts bring, in the order in which they come to the critical section. */
  function Arrivals(puts: Puts): seq<Event> {
    match puts
    case Quiet => []
    case Then(e, a, b, c, next) => [e] + Arrivals(a) + Arrivals(b) + Arrivals(c) + Arrivals(next)
  }

  function Fitting(es: seq<Event>, eventSize: nat): seq<Event> {
    if es == [] then [] else (if |es[0].data| <= eventSize then [es[0]] else []) + Fitting(es[1..], eventSize)
  }

  function Shorter(n: nat, m: nat): nat { if n < m then n else m }

  lemma {:induction false} FittingOfConcat(es: seq<Event>, fs: seq<Event>, eventSize: nat)
    ensures Fitting(es + fs, eventSize) == Fitting(es, eventSize) + Fitting(fs, eventSize)
    decreases |es|
  {
    if es == [] {
      assert es + fs == fs;
    } else {
      assert (es + fs)[1..] == es[1..] + fs;
      FittingOfConcat(es[1..], fs, eventSize);
    }
  }

  /** A line that takes, in turn, what fits of these events until there are as many as there is room for. */
  function Filled(line: seq<Event>, room: int, eventSize: nat, es: seq<Event>): (r: seq<Event>)
    requires |line| <= room
    ensures |r| <= room
  {
    var fit := Fitting(es, eventSize);
    line + fit[..Shorter(|fit|, room - |line|)]
  }

  lemma FilledByNone(line: seq<Event>, room: int, eventSize: nat)
    requires |line| <= room
    ensures Filled(line, room, eventSize, []) == line
  {
  }

  lemma FilledByOne(line: seq<Event>, room: int, eventSize: nat, e: Event)
    requires |line| <= room
    ensures Filled(line, room, eventSize, [e])
            == if |e.data| <= eventSize && |line| < room then line + [e] else line
  {
    assert [e][1..] == [];
    assert Fitting([e][1..], eventSize) == [];
    assert Fitting([e], eventSize) == if |e.data| <= eventSize then [e] else [];
  }

  lemma FilledOn(line: seq<Event>, room: int, eventSize: nat, es: seq<Event>, fs: seq<Event>)
    requires |line| <= room
    ensures Filled(Filled(line, room, eventSize, es), room, eventSize, fs) == Filled(line, room, eventSize, es + fs)
  {
    FittingOfConcat(es, fs, eventSize);
  }

  /** However the puts interrupt each other, those events get in line that come first among the fitting ones, as many
      as there is room for. */
  lemma {:induction false} FirstComeFirstIn(line: seq<Event>, room: int, eventSize: nat, puts: Puts)
    requires |line| <= room
    ensures InLine(line, room, eventSize, puts) == Filled(line, room, eventSize, Arrivals(puts))
    decreases puts
  {
    hide Filled;
    match puts {
      case Quiet =>
        FilledByNone(line, room, eventSize);
      case Then(e, a, b, c, next) =>
        FilledByOne(line, room, eventSize, e);
        var l0 := Filled(line, room, eventSize, [e]);
        FirstComeFirstIn(l0, room, eventSize, a);
        FilledOn(line, room, eventSize, [e], Arrivals(a));
        var l1 := Filled(l0, room, eventSize, Arrivals(a));
        FirstComeFirstIn(l1, room, eventSize, b);
        FilledOn(line, room, eventSize, [e] + Arrivals(a), Arrivals(b));
        var l2 := Filled(l1, room, eventSize, Arrivals(b));
        FirstComeFirstIn(l2, room, eventSize, c);
        FilledOn(line, room, eventSize, [e] + Arrivals(a) + Arrivals(b), Arrivals(c));
        var l3 := Filled(l2, room, eventSize, Arrivals(c));
        FirstComeFirstIn(l3, room, eventSize, next);
        FilledOn(line, room, eventSize, [e] + Arrivals(a) + Arrivals(b) + Arrivals(c), Arrivals(next));
    }
  }

  // ---------- whole turns of the main loop ----------

  /** The line behind a turn in which an event is handled: from the update of the index on there is room for one
      more. */
  function TurnLine(line: seq<Event>, taken: nat, most: nat, eventSize: nat, t: Turn): seq<Event> {
    var room := taken + most;
    var got := InLine(InLine(line, room, eventSize, t.before), room, eventSize, t.atUpdate);
    InLine(InLine(InLine(got, room + 1, eventSize, t.atSize), room + 1, eventSize, t.atHandler),
      room + 1, eventSize, t.handling)
  }

  function TurnsLine(line: seq<Event>, taken: nat, most: nat, eventSize: nat, turns: seq<Turn>): seq<Event> {
    var n := |turns|;
    if n == 0 then line
    else TurnLine(TurnsLine(line, taken, most, eventSize, turns[..n - 1]), taken + n - 1, most, eventSize, turns[n - 1])
  }

  /** All events that these turns bring. */
  function Brings(turns: seq<Turn>): seq<Event> {
    if turns == [] then []
    else
      var t := turns[|turns| - 1];
      Brings(turns[..|turns| - 1]) + (Arrivals(t.before) + Arrivals(t.atUpdate) + Arrivals(t.atSize)
                                      + Arrivals(t.atHandler) + Arrivals(t.handling))
  }

  /** As long as there is room for all of them the fitting ones get in line, in their order. */
  lemma AllGetIn(line: seq<Event>, room: int, eventSize: nat, puts: Puts)
    requires |line| + |Fitting(Arrivals(puts), eventSize)| <= room
    ensures InLine(line, room, eventSize, puts) == line + Fitting(Arrivals(puts), eventSize)
  {
    FirstComeFirstIn(line, room, eventSize, puts);
  }

  /** Nothing gets in line although there is room only if nothing fits. */
  lemma NothingFits(line: seq<Event>, room: int, eventSize: nat, puts: Puts)
    requires |line| < room
    ensures InLine(line, room, eventSize, puts) == line ==> Fitting(Arrivals(puts), eventSize) == []
  {
    FirstComeFirstIn(line, room, eventSize, puts);
  }

  lemma FittingOfTurn(es: seq<Event>, t: Turn, eventSize: nat)
    ensures var all := Arrivals(t.before) + Arrivals(t.atUpdate) + Arrivals(t.atSize) + Arrivals(t.atHandler)
                       + Arrivals(t.handling);
            Fitting(es + all, eventSize) ==
            Fitting(es, eventSize) + (Fitting(Arrivals(t.before), eventSize) + Fitting(Arrivals(t.atUpdate), eventSize)
                                      + Fitting(Arrivals(t.atSize), eventSize)
                                      + Fitting(Arrivals(t.atHandler), eventSize)
                                      + Fitting(Arrivals(t.handling), eventSize))
  {
    hide Fitting, Arrivals;
    var a, b, c, d, e := Arrivals(t.before), Arrivals(t.atUpdate), Arrivals(t.atSize), Arrivals(t.atHandler),
      Arrivals(t.handling);
    FittingOfConcat(es, a + b + c + d + e, eventSize);
    FittingOfConcat(a + b + c + d, e, eventSize);
    FittingOfConcat(a + b + c, d, eventSize);
    FittingOfConcat(a + b, c, eventSize);
    FittingOfConcat(a, b, eventSize);
  }

  lemma {:induction false} NoneRefused(line: seq<Event>, taken: nat, most: nat, eventSize: nat, turns: seq<Turn>)
    requires taken <= |line| && |line| + |Fitting(Brings(turns), eventSize)| <= taken + most
    ensures TurnsLine(line, taken, most, eventSize, turns) == line + Fitting(Brings(turns), eventSize)
    decreases |turns|
  {
    hide Fitting, Arrivals, InLine;
    if turns == [] {
      FittingNone(eventSize);
    } else {
      var n := |turns| - 1;
      var t := turns[n];
      FittingOfTurn(Brings(turns[..n]), t, eventSize);
      NoneRefused(line, taken, most, eventSize, turns[..n]);
      var room := taken + n + most;
      var l := line + Fitting(Brings(turns[..n]), eventSize);
      AllGetIn(l, room, eventSize, t.before);
      l := l + Fitting(Arrivals(t.before), eventSize);
      AllGetIn(l, room, eventSize, t.atUpdate);
      l := l + Fitting(Arrivals(t.atUpdate), eventSize);
      AllGetIn(l, room + 1, eventSize, t.atSize);
      l := l + Fitting(Arrivals(t.atSize), eventSize);
      AllGetIn(l, room + 1, eventSize, t.atHandler);
      l := l + Fitting(Arrivals(t.atHandler), eventSize);
      AllGetIn(l, room + 1, eventSize, t.handling);
      assert l + Fitting(Arrivals(t.handling), eventSize) == line + Fitting(Brings(turns), eventSize);
    }
  }

  lemma FittingNone(eventSize: nat)
    ensures Fitting([], eventSize) == []
  {
  }

  class Queue {
    const queueSize: nat
    const eventSize: nat
    const handlers: array<nat>
    const sizes: array<nat>
    const data: array<seq<byte>>
    var start: nat
    var end: nat

    // Every event accepted so far in the order of reservation, how many of them have been fetched, the puts in
    // progress with the most deeply nested one last, and whether a handler is running.
    ghost var accepted: seq<Event>
    ghost var taken: nat
    ghost var pending: seq<Put>
    ghost var running: bool

    ghost function N(): nat { Slots(queueSize) }

    ghost predicate Separate() {
      && handlers != sizes && handlers.Length == sizes.Length == data.Length == N()
    }

    /** Slot of event c: what its put has written so far. */
    ghost predicate Written(c: nat, stage: nat)
      requires Separate() && c < |accepted|
      reads this`accepted, handlers, sizes, data
    {
      var i := Pos(N(), c);
      && (stage >= 1 ==> handlers[i] == accepted[c].handler)
      && var p := accepted[c].Payload();
      && (stage >= 2 ==> |p| <= |data[i]| && data[i][..|p|] == p)
      && (stage >= 3 ==> sizes[i] == |p|)
    }

    ghost predicate InProgress(c: nat)
      reads this`pending
    {
      Among(pending, c)
    }

    /** The oldest event whose slot is still in use: a running handler's slot is. */
    ghost function Oldest(): int
      reads this`running, this`taken
    {
      if running then taken - 1 else taken
    }

    ghost predicate Valid()
      reads this, handlers, sizes, data
    {
      && Separate()
      && end == Pos(N(), |accepted|) && start == Pos(N(), taken)
      && taken <= |accepted| < taken + N()
      && (running ==> taken > 0)
      && (forall i | 0 <= i < N() :: |data[i]| == eventSize)
      && (forall c | 0 <= c < |accepted| :: |accepted[c].data| <= eventSize)
      && (forall k | 0 <= k < |pending| :: taken <= pending[k].c < |accepted| && pending[k].stage < 3)
      && (forall k, l | 0 <= k < l < |pending| :: pending[k].c < pending[l].c)
      && (forall k | 0 <= k < |pending| :: Written(pending[k].c, pending[k].stage))
      && (forall c | Oldest() <= c < |accepted| :: InProgress(c) || Written(c, 3))
    }

    constructor (eventSize: nat, queueSize: nat)
      ensures Valid() && fresh(handlers) && fresh(sizes) && fresh(data)
      ensures this.queueSize == queueSize && this.eventSize == eventSize
      ensures accepted == [] && taken == 0 && pending == [] && !running
    {
      this.queueSize, this.eventSize := queueSize, eventSize;
      var n := Slots(queueSize);
      handlers := new nat[n](i => 0);
      sizes := new nat[n](i => 0);
      var blank := seq(eventSize, i => 0 as byte);
      data := new seq<byte>[n](i => blank);
      start, end := 0, 0;
      accepted, taken, pending, running := [], 0, [], false;
    }

    /** APP_SCHED_QUEUE_FULL. */
    method IsFull() returns (full: bool)
      requires Valid()
      ensures full <==> |accepted| - taken >= if queueSize < 255 then queueSize else 255
    {
      NextIndexCycles(queueSize, |accepted|);
      PosTells(N(), taken, |accepted|);
      PosTells(N(), if |accepted| + 1 < taken + N() then taken else taken + 1, |accepted| + 1);
      full := NextIndex(queueSize, end) == start;
    }

    /** The first part of app_sched_event_put: the size check and the critical section. */
    method Reserve(ghost e: Event, size: nat) returns (err: Err, slot: nat)
      requires Valid() && size == |e.data|
      modifies this`end, this`accepted, this`pending
      ensures Valid() && taken == old(taken) && running == old(running)
      ensures var most := if queueSize < 255 then queueSize else 255;
              err == if size > eventSize then Invalid else if |old(accepted)| - taken >= most then NoMemory else Ok
      ensures err != Ok ==> accepted == old(accepted) && pending == old(pending) && end == old(end)
      ensures err == Ok ==> accepted == old(accepted) + [e] && slot == Pos(N(), |old(accepted)|)
                            && pending == old(pending) + [Put(|old(accepted)|, 0)]
    {
      hide Pos, Slots, NextIndex, Among;
      slot := 0xFFFF;
      if size > eventSize { return Invalid, slot; }
      var full := IsFull();
      if !full {
        slot := end;
        NextIndexCycles(queueSize, |accepted|);
        end := NextIndex(queueSize, end);
        NewPutInProgress(pending, |accepted|);
        accepted := accepted + [e];
        pending := pending + [Put(|accepted| - 1, 0)];
        err := Ok;
        forall c | Oldest() <= c < |accepted| && !InProgress(c) ensures Written(c, 3) {
          assert old(Written(c, 3)) by { assert !old(InProgress(c)); }
        }
      } else {
        err := NoMemory;
      }
    }

    /** The slot of the put that runs now is none of the slots in use by other events, fetched ones included. */
    lemma SlotIsOwn(c: nat)
      requires Valid() && pending != [] && c < |accepted| && taken <= c + 1 && c != pending[|pending| - 1].c
      ensures Pos(N(), c) != Pos(N(), pending[|pending| - 1].c)
    {
      var p := pending[|pending| - 1].c;
      if c < p { PosTells(N(), c, p); } else { PosTells(N(), p, c); }
    }

    /** The three writes of a put outside the critical section, each on the slot it has reserved. */
    method WriteHandler(slot: nat, handler: nat)
      requires Valid() && pending != []
      requires var p := pending[|pending| - 1];
               p.stage == 0 && slot == Pos(N(), p.c) && handler == accepted[p.c].handler
      modifies this`pending, handlers
      ensures Valid() && pending == old(Advanced(pending))
    {
      hide Pos, Slots;
      forall c | 0 <= c < |accepted| && taken <= c + 1
        && c != pending[|pending| - 1].c ensures Pos(N(), c) != slot { SlotIsOwn(c); }
      AdvancedKeeps(pending);
      handlers[slot] := handler;
      pending := Advanced(pending);
      forall c | Oldest() <= c < |accepted| && !InProgress(c) ensures Written(c, 3) {
        assert old(Written(c, 3)) && Pos(N(), c) != slot by { assert !old(InProgress(c)); }
      }
    }

    method WriteData(slot: nat, payload: seq<byte>)
      requires Valid() && pending != []
      requires var p := pending[|pending| - 1];
               p.stage == 1 && slot == Pos(N(), p.c) && payload == accepted[p.c].Payload()
      modifies this`pending, data
      ensures Valid() && pending == old(Advanced(pending))
    {
      hide Pos, Slots;
      forall c | 0 <= c < |accepted| && taken <= c + 1
        && c != pending[|pending| - 1].c ensures Pos(N(), c) != slot { SlotIsOwn(c); }
      AdvancedKeeps(pending);
      data[slot] := payload + data[slot][|payload|..];
      assert data[slot][..|payload|] == payload;
      pending := Advanced(pending);
      forall c | Oldest() <= c < |accepted| && !InProgress(c) ensures Written(c, 3) {
        assert old(Written(c, 3)) && Pos(N(), c) != slot by { assert !old(InProgress(c)); }
      }
    }

    method WriteSize(slot: nat, size: nat)
      requires Valid() && pending != []
      requires var p := pending[|pending| - 1];
               p.stage == 2 && slot == Pos(N(), p.c) && size == |accepted[p.c].Payload()|
      modifies this`pending, sizes
      ensures Valid() && pending == old(pending[..|pending| - 1])
    {
      hide Pos, Slots;
      forall c | 0 <= c < |accepted| && taken <= c + 1
        && c != pending[|pending| - 1].c ensures Pos(N(), c) != slot { SlotIsOwn(c); }
      FinishedKeeps(pending);
      assert Written(pending[|pending| - 1].c, 2);
      sizes[slot] := size;
      ghost var last := pending[|pending| - 1].c;
      pending := pending[..|pending| - 1];
      forall c | Oldest() <= c < |accepted| && !InProgress(c) ensures Written(c, 3) {
        if c != last {
          assert old(Written(c, 3)) && Pos(N(), c) != slot by { assert !old(InProgress(c)); }
        } else {
          assert old(Written(c, 2));
        }
      }
    }

    lemma LineIsBounded()
      requires Valid()
      ensures taken <= |accepted| < taken + N()
    {
    }

    lemma HasRoom()
      ensures N() - 1 == if queueSize < 255 then queueSize else 255
    {
    }

    /** The line after puts in this state. */
    ghost function LineAfter(puts: Puts): seq<Event>
      reads this`accepted, this`taken
    {
      InLine(accepted, taken + N() - 1, eventSize, puts)
    }

    /** The writes outside the critical section, with the interrupts that come before each. */
    method FillSlot(slot: nat, e: Event, atHandler: Puts, atData: Puts, atSize: Puts)
      requires Valid() && pending != []
      requires var p := pending[|pending| - 1];
               p.stage == 0 && slot == Pos(N(), p.c) && p.c < |accepted| && e == accepted[p.c]
      modifies this`end, this`accepted, this`pending, handlers, sizes, data
      ensures Valid() && pending == old(pending[..|pending| - 1])
      ensures var room := taken + N() - 1;
              accepted == InLine(InLine(InLine(old(accepted), room, eventSize, atHandler), room, eventSize, atData),
                room, eventSize, atSize)
      decreases Count(atHandler) + Count(atData) + Count(atSize), 1
    {
      hide Valid, Written, InProgress, Separate, Oldest, Pos, Among, InLine, Count, N;
      ghost var c := pending[|pending| - 1].c;
      PutAll(atHandler);
      assert c < |accepted| && accepted[c] == e;
      WriteHandler(slot, e.handler);
      PutAll(atData);
      assert c < |accepted| && accepted[c] == e;
      WriteData(slot, e.Payload());
      PutAll(atSize);
      assert c < |accepted| && accepted[c] == e;
      WriteSize(slot, |e.Payload()|);
    }

    /** app_sched_event_put, with the interrupts that cut into it, or come all the same when it is refused. */
    method EventPut(e: Event, atHandler: Puts, atData: Puts, atSize: Puts) returns (err: Err)
      requires Valid()
      modifies this`end, this`accepted, this`pending, handlers, sizes, data
      ensures Valid() && pending == old(pending)
      ensures var most := if queueSize < 255 then queueSize else 255;
              err == if |e.data| > eventSize then Invalid else if |old(accepted)| - taken >= most then NoMemory else Ok
      ensures var room, line := taken + N() - 1, if err == Ok then old(accepted) + [e] else old(accepted);
              accepted == InLine(InLine(InLine(line, room, eventSize, atHandler), room, eventSize, atData),
                room, eventSize, atSize)
      decreases Count(atHandler) + Count(atData) + Count(atSize), 2
    {
      hide Valid, Written, InProgress, Separate, Oldest, Pos, Among, InLine, Count, N;
      var slot;
      err, slot := Reserve(e, |e.data|);
      if err == Ok {
        FillSlot(slot, e, atHandler, atData, atSize);
      } else {
        PutAll(atHandler);
        PutAll(atData);
        PutAll(atSize);
      }
    }

    /** Puts one after the other, by interrupts or by the code that runs. */
    method PutAll(puts: Puts)
      requires Valid()
      modifies this`end, this`accepted, this`pending, handlers, sizes, data
      ensures Valid() && pending == old(pending) && accepted == old(LineAfter(puts))
      ensures puts.Quiet? ==> accepted == old(accepted)
      decreases Count(puts), 0
    {
      hide Valid, Slots;
      LineIsBounded();
      NextIndexCycles(queueSize, 0);
      match puts {
        case Quiet =>
        case Then(e, a, b, c, next) =>
          var err := EventPut(e, a, b, c);
          PutAll(next);
      }
    }

    /** The same without the tree: the queue takes what fits until it holds min(queueSize, 255) events. */
    method PutAny(puts: Puts)
      requires Valid()
      modifies this`end, this`accepted, this`pending, handlers, sizes, data
      ensures Valid() && pending == old(pending)
      ensures var most, fit := if queueSize < 255 then queueSize else 255, Fitting(Arrivals(puts), eventSize);
              && |old(accepted)| - taken <= most
              && accepted == old(accepted) + fit[..Shorter(|fit|, taken + most - |old(accepted)|)]
    {
      hide Valid, Slots, Pos, InLine, Arrivals, Fitting;
      NextIndexCycles(queueSize, 0);
      LineIsBounded();
      FirstComeFirstIn(accepted, taken + N() - 1, eventSize, puts);
      PutAll(puts);
    }

    /** The update of the index in app_sched_event_get: from then on the slot is that of the running event. */
    method TakeNext() returns (slot: nat)
      requires Valid() && pending == [] && !running && taken < |accepted|
      modifies this`start, this`taken, this`running
      ensures Valid() && taken == old(taken) + 1 && running && slot == Pos(N(), old(taken))
    {
      hide Pos, Slots, NextIndex;
      NextIndexCycles(queueSize, taken);
      slot := start;
      start := NextIndex(queueSize, start);
      taken, running := taken + 1, true;
    }

    /** app_sched_event_get, called from the main loop only, when no put is in progress and no handler runs, with the
        interrupts that cut into it. The slot returned stands for the data pointer. */
    method EventGet(atUpdate: Puts, atSize: Puts, atHandler: Puts)
      returns (found: bool, slot: nat, size: nat, handler: nat)
      requires Valid() && pending == [] && !running
      modifies this, handlers, sizes, data
      ensures Valid() && pending == [] && found == (old(taken) < |old(accepted)|)
      ensures !found ==> accepted == old(accepted) && taken == old(taken) && !running
      ensures found ==> taken == old(taken) + 1 && running && Delivers(slot, size, handler) && old(accepted) <= accepted
      ensures atUpdate.Quiet? && atSize.Quiet? && atHandler.Quiet? ==> accepted == old(accepted)
      ensures found ==> var room := old(taken) + N() - 1;
                        accepted == InLine(InLine(InLine(old(accepted), room, eventSize, atUpdate),
                          room + 1, eventSize, atSize), room + 1, eventSize, atHandler)
    {
      hide Valid, Pos, Slots, NextIndex, Among, Written, InProgress, Separate, Oldest, InLine;
      WaitingTellsIndices();
      found, slot, size, handler := false, 0, 0, 0;
      if start != end {
        PutAll(atUpdate);
        slot := TakeNext();
        PutAll(atSize);
        RunningHeaderIsStable();
        size := sizes[slot];
        PutAll(atHandler);
        RunningHeaderIsStable();
        handler := handlers[slot];
        RunningDataIsStable(slot, size, handler);
        found := true;
      }
    }

    lemma WaitingTellsIndices()
      requires Valid()
      ensures start != end <==> taken < |accepted|
    {
      PosTells(N(), taken, |accepted|);
    }

    /** The header of the running event is complete, and no put in progress is for it. */
    lemma RunningHeaderIsStable()
      requires Valid() && running
      ensures var c := taken - 1;
              c < |accepted| && Separate() && Pos(N(), c) < sizes.Length == handlers.Length
              && sizes[Pos(N(), c)] == |accepted[c].Payload()| && handlers[Pos(N(), c)] == accepted[c].handler
    {
      assert !InProgress(taken - 1);
      assert Written(taken - 1, 3);
    }

    /** The handler that runs was called for the event reserved next in line, and still finds its own data,
        whatever has been put meanwhile. */
    ghost predicate Delivers(slot: nat, size: nat, handler: nat)
      requires Separate()
      reads this, data
    {
      && 0 < taken <= |accepted| && slot == Pos(N(), taken - 1)
      && var e := accepted[taken - 1];
      && handler == e.handler && size == |e.Payload()| <= |data[slot]| && data[slot][..size] == e.Payload()
    }

    /** While a handler runs its data slot keeps holding its event's data. */
    lemma RunningDataIsStable(slot: nat, size: nat, handler: nat)
      requires Valid() && running && slot == Pos(N(), taken - 1)
      requires size == |accepted[taken - 1].Payload()| && handler == accepted[taken - 1].handler
      ensures Delivers(slot, size, handler)
    {
      assert !InProgress(taken - 1);
      assert Written(taken - 1, 3);
    }

    /** The running handler reads its data. */
    method ReadData(slot: nat, size: nat) returns (d: seq<byte>)
      requires Valid() && running && slot == Pos(N(), taken - 1) && size == |accepted[taken - 1].Payload()|
      ensures d == accepted[taken - 1].Payload()
    {
      RunningDataIsStable(slot, size, accepted[taken - 1].handler);
      d := data[slot][..size];
    }

    method Return()
      requires Valid() && running && pending == []
      modifies this`running
      ensures Valid() && !running
    {
      running := false;
    }

    /** The handler runs, with what it and the interrupts put meanwhile, and reads its data. */
    method CallHandler(slot: nat, size: nat, ghost handler: nat, handling: Puts) returns (d: seq<byte>)
      requires Valid() && pending == [] && running && Delivers(slot, size, handler)
      modifies this, handlers, sizes, data
      ensures Valid() && pending == [] && !running && taken == old(taken) && accepted == old(LineAfter(handling))
      ensures taken > 0 && taken <= |old(accepted)| <= |accepted| && old(accepted) <= accepted
      ensures handler == accepted[taken - 1].handler && d == accepted[taken - 1].Payload()
      ensures handling.Quiet? ==> accepted == old(accepted)
    {
      hide Valid, Pos, Slots, Among, Written, InProgress, Separate, Oldest, InLine, N;
      PutAll(handling);
      d := ReadData(slot, size);
      Return();
    }

    /** One turn of app_sched_execute: the next event is fetched and its handler called. The handler is unknown code;
        what it and the interrupts put is given by `turn`. */
    method HandleNext(turn: Turn) returns (found: bool, handler: nat, d: seq<byte>)
      requires Valid() && pending == [] && !running
      modifies this, handlers, sizes, data
      ensures Valid() && pending == [] && !running && old(accepted) <= accepted
      ensures if found then taken == old(taken) + 1 <= |accepted|
              && handler == accepted[old(taken)].handler && d == accepted[old(taken)].Payload()
              else taken == old(taken) == |accepted|
      ensures turn == IDLE ==> accepted == old(accepted)
      ensures found ==> accepted == TurnLine(old(accepted), old(taken), N() - 1, eventSize, turn)
      ensures !found ==> accepted == old(accepted)
      ensures !found && queueSize > 0 ==> Fitting(Arrivals(turn.before), eventSize) == []
    {
      hide Valid, Pos, Slots, NextIndex, Among, Written, InProgress, Separate, Oldest, InLine, Fitting, Arrivals, N,
           Delivers;
      LineIsBounded();
      HasRoom();
      if |accepted| < taken + N() - 1 { NothingFits(accepted, taken + N() - 1, eventSize, turn.before); }
      PutAll(turn.before);
      var slot, size;
      LineIsBounded();
      found, slot, size, handler := EventGet(turn.atUpdate, turn.atSize, turn.atHandler);
      d := [];
      if found {
        d := CallHandler(slot, size, handler, turn.handling);
      }
    }

    /** app_sched_execute. The turns are given, and nothing is put any more once that list is used up. As many of them
        as `used` says come to handle an event. */
    method Execute(turns: seq<Turn>) returns (calls: seq<(nat, seq<byte>)>, ghost used: nat)
      requires Valid() && pending == [] && !running
      modifies this, handlers, sizes, data
      ensures Valid() && pending == [] && !running && taken == |accepted| && old(accepted) <= accepted
      ensures |calls| == taken - old(taken)
      ensures forall k | 0 <= k < |calls| ::
                calls[k] == (accepted[old(taken) + k].handler, accepted[old(taken) + k].Payload())
      ensures used <= |turns|
      ensures accepted == TurnsLine(old(accepted), old(taken), N() - 1, eventSize, turns[..used])
      ensures used < |turns| && queueSize > 0 ==> Fitting(Arrivals(turns[used].before), eventSize) == []
    {
      hide Valid, Pos, Slots, NextIndex, Among, Written, InProgress, Separate, Oldest, InLine, TurnLine, N, Fitting,
           Arrivals;
      calls, used := [], 0;
      LineIsBounded();
      var left := turns;
      while true
        invariant Valid() && pending == [] && !running && old(accepted) <= accepted && taken <= |accepted|
        invariant taken == old(taken) + |calls|
        invariant forall k | 0 <= k < |calls| ::
                    calls[k] == (accepted[old(taken) + k].handler, accepted[old(taken) + k].Payload())
        invariant used <= |turns| && left == turns[used..] && (left != [] ==> |calls| == used)
        invariant accepted == TurnsLine(old(accepted), old(taken), N() - 1, eventSize, turns[..used])
        decreases |left|, |accepted| - taken
      {
        var turn := IDLE;
        ghost var now := used;
        if |left| > 0 {
          turn, left := left[0], left[1..];
          now := used + 1;
          assert turns[..now][..used] == turns[..used] && turns[..now][used] == turn;
        }
        var found, handler, d := HandleNext(turn);
        if !found { break; }
        used := now;
        calls := calls + [(handler, d)];
      }
    }

    /** The main loop: whatever is put between two calls of app_sched_execute, every event accepted from the start on
        is handled exactly once, in the order of reservation, by its own handler with its own data. If no round brings
        more than min(queueSize, 255) fitting events, these are all events that fit. */
    method MainLoop(rounds: seq<(Puts, seq<Turn>)>) returns (calls: seq<(nat, seq<byte>)>, ghost used: seq<nat>)
      requires Valid() && pending == [] && !running && accepted == []
      modifies this, handlers, sizes, data
      ensures Valid() && pending == [] && !running && |calls| == |accepted| == taken
      ensures forall k | 0 <= k < |calls| ::
                var e := accepted[k]; calls[k] == (e.handler, if e.isNull then [] else e.data)
      ensures Handling(rounds, used) && (queueSize > 0 ==> WorkedOff(rounds, used, eventSize))
      ensures Gentle(rounds, used, eventSize, if queueSize < 255 then queueSize else 255) ==>
                accepted == Fitting(RoundsBring(rounds, used), eventSize)
    {
      hide Valid, Pos, Slots, Among, Written, InProgress, Separate, Oldest, InLine, TurnsLine, N, Fitting, Arrivals,
           Gentle, RoundsBring, Handling, WorkedOff;
      calls, used := [], [];
      LineIsBounded();
      HasRoom();
      NoRoundYet(rounds[..0], used, eventSize);
      for i := 0 to |rounds|
        invariant Valid() && pending == [] && !running && |calls| == |accepted| == taken
        invariant forall k | 0 <= k < |calls| :: calls[k] == (accepted[k].handler, accepted[k].Payload())
        invariant Handling(rounds[..i], used) && (queueSize > 0 ==> WorkedOff(rounds[..i], used, eventSize))
        invariant Gentle(rounds[..i], used, eventSize, N() - 1) ==>
                    accepted == Fitting(RoundsBring(rounds[..i], used), eventSize)
      {
        ghost var line, was := accepted, used;
        PutAll(rounds[i].0);
        var more, u := Execute(rounds[i].1);
        calls, used := calls + more, used + [u];
        OneRoundMore(line, N() - 1, eventSize, rounds[..i], was, rounds[i], u);
        assert rounds[..i] + [rounds[i]] == rounds[..i + 1];
      }
      assert rounds[..|rounds|] == rounds;
    }
  }

  /** What a round brings, when so many of its turns come to handle an event. */
  function RoundBrings(round: (Puts, seq<Turn>), used: nat): seq<Event>
    requires used <= |round.1|
  {
    Arrivals(round.0) + Brings(round.1[..used])
  }

  ghost predicate Handling(rounds: seq<(Puts, seq<Turn>)>, used: seq<nat>) {
    |used| == |rounds| && forall i | 0 <= i < |rounds| :: used[i] <= |rounds[i].1|
  }

  ghost function RoundsBring(rounds: seq<(Puts, seq<Turn>)>, used: seq<nat>): seq<Event>
    requires Handling(rounds, used)
    decreases |rounds|
  {
    var n := |rounds| - 1;
    if rounds == [] then [] else RoundsBring(rounds[..n], used[..n]) + RoundBrings(rounds[n], used[n])
  }

  /** The turns of a round that handle no event any more would not have brought one. */
  ghost predicate WorkedOff(rounds: seq<(Puts, seq<Turn>)>, used: seq<nat>, eventSize: nat) {
    && Handling(rounds, used)
    && forall i | 0 <= i < |rounds| && used[i] < |rounds[i].1| ::
         Fitting(Arrivals(rounds[i].1[used[i]].before), eventSize) == []
  }

  lemma NoRoundYet(rounds: seq<(Puts, seq<Turn>)>, used: seq<nat>, eventSize: nat)
    requires |rounds| == |used| == 0
    ensures Handling(rounds, used) && WorkedOff(rounds, used, eventSize)
    ensures Fitting(RoundsBring(rounds, used), eventSize) == []
  {
  }

  /** No round brings more events that fit than the queue holds. */
  ghost predicate Gentle(rounds: seq<(Puts, seq<Turn>)>, used: seq<nat>, eventSize: nat, most: nat) {
    && Handling(rounds, used)
    && forall i | 0 <= i < |rounds| :: |Fitting(RoundBrings(rounds[i], used[i]), eventSize)| <= most
  }

  /** One more round, on a line that has been worked off. */
  lemma OneRoundMore(line: seq<Event>, most: nat, eventSize: nat, rounds: seq<(Puts, seq<Turn>)>, used: seq<nat>,
        round: (Puts, seq<Turn>), u: nat)
    requires Handling(rounds, used) && u <= |round.1|
    ensures Handling(rounds + [round], used + [u])
    ensures WorkedOff(rounds, used, eventSize)
            && (u < |round.1| ==> Fitting(Arrivals(round.1[u].before), eventSize) == []) ==>
              WorkedOff(rounds + [round], used + [u], eventSize)
    ensures Gentle(rounds + [round], used + [u], eventSize, most) ==> Gentle(rounds, used, eventSize, most)
    ensures Gentle(rounds + [round], used + [u], eventSize, most)
            && line == Fitting(RoundsBring(rounds, used), eventSize) ==>
              TurnsLine(InLine(line, |line| + most, eventSize, round.0), |line|, most, eventSize, round.1[..u])
              == Fitting(RoundsBring(rounds + [round], used + [u]), eventSize)
  {
    hide Fitting, Arrivals, InLine, TurnsLine, Brings;
    var more, used' := rounds + [round], used + [u];
    assert more[..|rounds|] == rounds && used'[..|rounds|] == used;
    if Gentle(more, used', eventSize, most) {
      assert forall i | 0 <= i < |rounds| :: more[i] == rounds[i] && used'[i] == used[i];
      assert |Fitting(RoundBrings(more[|rounds|], used'[|rounds|]), eventSize)| <= most;
      if line == Fitting(RoundsBring(rounds, used), eventSize) {
        var a, b := Arrivals(round.0), Brings(round.1[..u]);
        FittingOfConcat(a, b, eventSize);
        FittingOfConcat(RoundsBring(rounds, used), a + b, eventSize);
        AllGetIn(line, |line| + most, eventSize, round.0);
        NoneRefused(line + Fitting(a, eventSize), |line|, most, eventSize, round.1[..u]);
      }
    }
  }

  /** The innermost put has done one more write. */
  function Advanced(pending: seq<Put>): seq<Put>
    requires pending != []
  {
    var p := pending[|pending| - 1];
    pending[|pending| - 1 := Put(p.c, p.stage + 1)]
  }

  ghost predicate Among(pending: seq<Put>, c: nat) {
    exists p | p in pending :: p.c == c
  }

  lemma AdvancedKeeps(pending: seq<Put>)
    requires pending != []
    ensures forall c :: Among(pending, c) <==> Among(Advanced(pending), c)
  {
    forall c ensures Among(pending, c) <==> Among(Advanced(pending), c) {
      var q := Advanced(pending);
      if Among(pending, c) {
        var k :| 0 <= k < |pending| && pending[k].c == c;
        assert q[k].c == c;
      }
      if Among(q, c) {
        var k :| 0 <= k < |q| && q[k].c == c;
        assert pending[k].c == c;
      }
    }
  }

  lemma FinishedKeeps(pending: seq<Put>)
    requires pending != []
    ensures forall c :: Among(pending, c) ==> Among(pending[..|pending| - 1], c) || c == pending[|pending| - 1].c
  {
    forall c | Among(pending, c) ensures Among(pending[..|pending| - 1], c) || c == pending[|pending| - 1].c {
      var k :| 0 <= k < |pending| && pending[k].c == c;
      if k < |pending| - 1 { assert pending[..|pending| - 1][k].c == c; }
    }
  }

  lemma NewPutInProgress(pending: seq<Put>, c: nat)
    ensures forall b :: Among(pending, b) ==> Among(pending + [Put(c, 0)], b)
    ensures Among(pending + [Put(c, 0)], c)
  {
    forall b | Among(pending, b) ensures Among(pending + [Put(c, 0)], b) {
      var p :| p in pending && p.c == b;
      assert p in pending + [Put(c, 0)];
    }
    assert Put(c, 0) in pending + [Put(c, 0)];
  }
}
