/** The one scheduler of kernel/src/scheduler.rs, and the calls of kernel/src/user.rs that reach
    it. A switch of stacks is an atomic transfer of control: what the incoming process does next
    is what its continuation says. */
module Schedulers {
  import opened Bytes
  import opened Mailboxes
  import opened Scheduling

  /** Who the CPU was handed to, in what state that slot was, and the kernel stack the CPU knew. */
  datatype Handover = Handover(to: nat, was: State, stackTop: nat, published: nat)

  ghost predicate HandoversOk(log: seq<Handover>) {
    forall i | 0 <= i < |log| :: log[i].was.CanRun() && log[i].published == log[i].stackTop
  }

  class Scheduler {
    const slots: array<Option<Slot>>
    var current: nat
    var switching: bool
    var handedOver: bool
    /** The stack the CPU enters the kernel on. */
    var published: nat
    ghost var past: seq<Past>
    ghost var log: seq<Handover>

    ghost predicate Valid()
      reads this, slots
    {
      && slots.Length == MAX_PROCESSES && !switching && HandoversOk(log)
      && if handedOver then Running(slots[..], current, past) && published == slots[current].value.stackTop
         else Idle(slots[..], past)
    }

    constructor ()
      ensures Valid() && fresh(slots) && !handedOver && log == []
      ensures slots[..] == seq(MAX_PROCESSES, _ => None)
    {
      slots := new Option<Slot>[MAX_PROCESSES](_ => None);
      current, switching, handedOver, published := 0, false, false, 0;
      past := seq(MAX_PROCESSES, _ => Past([], [], 0));
      log := [];
    }

    function NextAfter(from: nat): (next: Option<nat>)
      reads slots
      ensures next == NextRunnable(States(slots[..]), from)
    {
      NextRunnable(States(slots[..]), from)
    }

    /** A process that never ran takes the first free slot, if there is one. */
    method Add(stackTop: nat) returns (index: Option<nat>)
      requires Valid()
      modifies this`past, slots
      ensures Valid()
      ensures match index
        case None => slots[..] == old(slots[..]) && forall i | 0 <= i < MAX_PROCESSES :: slots[i].Some?
        case Some(free) =>
          && free < MAX_PROCESSES && old(slots[free]) == None
          && (forall i | 0 <= i < free :: slots[i].Some?)
          && slots[..] == old(slots[..])[free := Some(Slot(New, stackTop, NeverRun, None, NoAnswer))]
    {
      var free := 0;
      while free < MAX_PROCESSES && slots[free].Some?
        invariant free <= MAX_PROCESSES
        invariant forall i | 0 <= i < free :: slots[i].Some?
      {
        free := free + 1;
      }
      if free == MAX_PROCESSES { return None; }
      slots[free] := Some(Slot(New, stackTop, NeverRun, None, NoAnswer));
      return Some(free);
    }

    /** What the stack of the process now current does when it is switched to. */
    method Resume()
      requires slots.Length == MAX_PROCESSES && |past| == MAX_PROCESSES
      requires current < MAX_PROCESSES && slots[current].Some? && slots[current].value.state.CanRun()
      requires SlotOk(slots[current].value, false, past[current])
      modifies this`switching, this`past, slots
      ensures !switching && slots[..] == HandedOn(old(slots[..]), current)
      ensures past == old(past)[current := TakenOn(old(slots[current]).value, old(past[current]))]
      ensures ComesBack(old(slots[current]).value, slots[current].value, old(past[current]), past[current])
    {
      ResumedOk(slots[current].value, past[current]);
      var slot := slots[current].value;
      match slot.continuation {
        case NeverRun =>
          switching := false;
          slots[current] := Some(slot.(state := Runnable, continuation := OnCpu));
        case Parked =>
          switching := false;
          slots[current] := Some(slot.(continuation := OnCpu));
        case InRecv(room) =>
          switching := false;
          slots[current] := Some(slot.(continuation := OnCpu));
          var r := TakeMessage(room);
          slot := slots[current].value;
          match r {
            case Ok(message) => slots[current] := Some(slot.(answer := Received(message)));
            case Err(TooSmall(_)) => slots[current] := Some(slot.(answer := BadArgument));
            case Err(Nothing) => assert false;
          }
      }
    }

    /** Takes what waits for the running process, if its buffer has room for it. */
    method TakeMessage(room: nat) returns (r: Result<Message, TakeError>)
      requires slots.Length == MAX_PROCESSES && |past| == MAX_PROCESSES
      requires current < MAX_PROCESSES && slots[current].Some?
      modifies this`past, slots
      ensures match old(slots[current]).value.mail
        case None => r == Err(Nothing) && slots[..] == old(slots[..]) && past == old(past)
        case Some(m) =>
          if room < |m.bytes| then r == Err(TooSmall(|m.bytes|)) && slots[..] == old(slots[..]) && past == old(past)
          else
            && r == Ok(m)
            && slots[..] == old(slots[..])[current := Some(old(slots[current]).value.(mail := None))]
            && past == old(past)[current := old(past[current]).(taken := old(past[current]).taken + [m])]
    {
      var slot := slots[current].value;
      match slot.mail {
        case None => r := Err(Nothing);
        case Some(m) =>
          if room < |m.bytes| { return Err(TooSmall(|m.bytes|)); }
          slots[current] := Some(slot.(mail := None));
          past := past[current := past[current].(taken := past[current].taken + [m])];
          r := Ok(m);
      }
    }

    /** Leaves the stack of the running process, whose slot already says how it is left, and takes
        up that of the next. */
    method SwitchTo(to: nat, left: Continuation)
      requires slots.Length == MAX_PROCESSES && handedOver && !switching && HandoversOk(log)
      requires current < MAX_PROCESSES && slots[current].Some?
      requires Between(slots[..][current := Some(slots[current].value.(continuation := left))], current, past)
      requires NextRunnable(States(slots[..]), current) == Some(to) && to != current
      modifies this, slots
      ensures Valid() && handedOver && current == to
      ensures var parked := old(slots[..])[old(current) := Some(old(slots[current]).value.(continuation := left))];
        slots[..] == HandedOn(parked, to) && past == PastHandedOn(parked, old(past), old(current), to)
      ensures log == old(log) + [Handover(to, old(slots[to]).value.state, old(slots[to]).value.stackTop, published)]
      ensures ComesBack(old(slots[to]).value, slots[to].value, old(past[to]), past[to])
    {
      hide SlotOk, TurnOk, Resumed, TakenOn, Waited;
      var from := current;
      switching := true;
      current := to;
      published := slots[to].value.stackTop;
      slots[from] := Some(slots[from].value.(continuation := left));
      ghost var parked, before := slots[..], past;
      assert States(parked) == States(old(slots[..]));
      HandoverKeeps(parked, before, from, to);
      assert AbleAt(States(parked), to);
      log := log + [Handover(to, parked[to].value.state, parked[to].value.stackTop, published)];
      Resume();
      TakenAlike(parked, before, from, to);
      past := PastHandedOn(parked, before, from, to);
    }

    /** The CPU goes to whoever is next; with nobody else able, nothing happens at all. */
    method SwitchToNext()
      requires Valid() && handedOver
      modifies this, slots
      ensures Valid() && handedOver && Turn(old(slots[..]), old(past), old(log), old(current), Parked)
    {
      SomebodyIsNext(slots[..], current, past);
      assert SlotOk(slots[current].value, true, past[current]);
      PutAside(slots[..], current, past, slots[current].value.(continuation := Parked));
      hide SlotOk, TurnOk, Resumed, TakenOn;
      var next := NextAfter(current);
      if next.value == current { return; }
      SwitchTo(next.value, Parked);
    }

    /** The turn passed from `was`: to the nearest able process after it, once, or it stayed. */
    ghost predicate Turn(s: seq<Option<Slot>>, p: seq<Past>, before: seq<Handover>, was: nat, left: Continuation)
      requires slots.Length == MAX_PROCESSES && |s| == |p| == MAX_PROCESSES && was < MAX_PROCESSES && s[was].Some?
      reads this, slots
    {
      && NextRunnable(States(s), was) == Some(current)
      && if current == was then slots[..] == s && past == p && log == before
         else
           var parked := s[was := Some(s[was].value.(continuation := left))];
           && slots[..] == HandedOn(parked, current) && past == PastHandedOn(parked, p, was, current)
           && log == before + [Handover(current, s[current].value.state, s[current].value.stackTop, published)]
           && s[current].Some? && slots[current].Some?
           && ComesBack(s[current].value, slots[current].value, p[current], past[current])
    }

    /** A tick moves the turn only while a process has the CPU and no switch is under way. */
    method OnTick()
      requires Valid()
      modifies this, slots
      ensures Valid() && handedOver == old(handedOver)
      ensures if handedOver then Turn(old(slots[..]), old(past), old(log), old(current), Parked)
              else slots[..] == old(slots[..]) && past == old(past) && log == old(log)
    {
      if handedOver && !switching { SwitchToNext(); }
    }

    /** `yield`: the answer is zero, found when its turn comes round again. */
    method Yield()
      requires Valid() && handedOver
      modifies this, slots
      ensures Valid() && handedOver
      ensures Turn(Answered(old(slots[..]), old(current), Zero), old(past), old(log), old(current), Parked)
    {
      Reply(Zero);
      SwitchToNext();
    }

    method Reply(answer: Answer)
      requires Valid() && handedOver && !answer.Received?
      modifies slots
      ensures Valid() && slots[..] == Answered(old(slots[..]), current, answer)
    {
      assert SlotOk(slots[current].value, true, past[current]);
      ChangeRunning(slots[..], current, past, slots[current].value.(answer := answer), past[current]);
      assert past[current := past[current]] == past;
      hide Running;
      slots[current] := Some(slots[current].value.(answer := answer));
    }

    method Deliver(to: nat, message: seq<Byte>) returns (r: Result<Delivery, SendError>)
      requires Valid() && handedOver
      modifies this`past, slots
      ensures Valid()
      ensures match Undeliverable(old(slots[..]), to, message)
        case Some(why) => r == Err(why) && slots[..] == old(slots[..]) && past == old(past)
        case None =>
          && r == Ok(Delivery(current, |message|))
          && slots[..] == old(slots[..])[to := Some(Mailed(old(slots[to]).value, Message(current, message)))]
          && past == old(past)[to := MailedPast(old(past[to]), Message(current, message))]
    {
      hide Running, SlotOk, TurnOk, Refusal;
      RunningBasics(slots[..], current, past);
      if to >= MAX_PROCESSES || slots[to].None? { return Err(Absent); }
      var slot := slots[to].value;
      if slot.state == Dead { return Err(Absent); }
      match Refusal(slot.mail, message) {
        case Some(Busy) => return Err(StillBusy);
        case Some(other) => return Err(Rejected(other));
        case None =>
          ghost var m := Message(current, message);
          DeliveryKeeps(slots[..], current, past, to, m);
          slots[to] := Some(slot.(mail := Some(Message(current, message))));
          Unblock(to);
          past := past[to := MailedPast(past[to], m)];
          assert slots[..] == old(slots[..])[to := Some(Mailed(slot, m))];
          return Ok(Delivery(current, |message|));
      }
    }

    method Unblock(index: nat)
      requires index < slots.Length && slots[index].Some?
      modifies slots
      ensures slots[..] == old(slots[..])[index := Some(old(slots[index]).value.(state :=
        if old(slots[index]).value.state == Blocked then Runnable else old(slots[index]).value.state))]
    {
      var slot := slots[index].value;
      if slot.state.Woken().Some? { slots[index] := Some(slot.(state := slot.state.Woken().value)); }
    }

    /** `send`: either the whole message waits for its receiver, who is able to run from then on,
        or nothing but the answer changes. Sending to a process that waits always works. */
    method Send(to: nat, message: seq<Byte>, owned: bool)
      requires Valid() && handedOver
      modifies this`past, slots
      ensures Valid()
      ensures var s, c := old(slots[..]), current; var m := Message(c, message);
        match SendAnswer(s, to, message, owned)
        case Sent(_) =>
          && slots[..] == Answered(s[to := Some(Mailed(s[to].value, m))], c, Sent(|message|))
          && past == old(past)[to := MailedPast(old(past[to]), m)]
        case refused => slots[..] == Answered(s, c, refused) && past == old(past)
    {
      hide Running, Refusal;
      if !owned || |message| > MAILBOX_BYTES { Reply(BadArgument); return; }
      var r := Deliver(to, message);
      match r {
        case Ok(delivery) => Reply(Sent(delivery.len));
        case Err(StillBusy) => Reply(MailboxFull);
        case Err(Absent) => Reply(NoSuchProcess);
        case Err(Rejected(_)) => Reply(BadArgument);
      }
    }

    /** `recv`: takes what waits; or parks until there is something, unless nobody could send it. */
    method Recv(room: nat, owned: bool)
      requires Valid() && handedOver
      modifies this, slots
      ensures Valid() && handedOver
      ensures var s, p, c := old(slots[..]), old(past), old(current); var slot := s[c].value;
        if !owned then slots[..] == Answered(s, c, BadArgument) && past == p && current == c
        else match slot.mail
          case Some(m) =>
            && current == c
            && if room < |m.bytes| then slots[..] == Answered(s, c, BadArgument) && past == p
               else
                 && slots[..] == s[c := Some(slot.(mail := None, answer := Received(m)))]
                 && past == p[c := p[c].(taken := p[c].taken + [m])]
          case None =>
            if NextRunnable(States(s), c) == Some(c)
            then slots[..] == Answered(s, c, WouldWaitForEver) && past == p && current == c
            else Turn(s[c := Some(slot.(state := Blocked))], p, old(log), c, InRecv(room)) && current != c
    {
      if !owned { Reply(BadArgument); return; }
      ghost var s, p := slots[..], past;
      var r := TakeMessage(room);
      match r {
        case Ok(m) =>
          TookOk(s, current, p, m);
          hide Running, SlotOk;
          slots[current] := Some(slots[current].value.(answer := Received(m)));
        case Err(TooSmall(_)) =>
          hide Running, SlotOk;
          Reply(BadArgument);
        case Err(Nothing) => WaitForMessage(room);
      }
    }

    /** From one process to another that waits for it: when the receiver's turn comes, it has received
        exactly what was sent and from whom, or is told that its buffer is too small. */
    method SendThenYield(to: nat, message: seq<Byte>)
      requires Valid() && handedOver && to < MAX_PROCESSES && slots[to].Some? && slots[to].value.state == Blocked
      requires 0 < |message| <= MAILBOX_BYTES
      modifies this, slots
      ensures Valid() && handedOver
      ensures slots[to].Some?
      ensures current == to ==>
        slots[to].value.answer
        == if |message| <= old(slots[to].value.continuation.room) then Received(Message(old(current), message))
           else BadArgument
    {
      hide Running, SlotOk, TurnOk, Resumed, TakenOn;
      BlockedIsNeverBusy(slots[..], current, past, to, message);
      BlockedWaits(slots[..], current, past, to);
      Send(to, message, true);
      ghost var sent := slots[..];
      assert sent[to].value.continuation == old(slots[to]).value.continuation;
      Yield();
    }

    method WaitForMessage(room: nat)
      requires Valid() && handedOver && slots[current].value.mail == None
      modifies this, slots
      ensures Valid() && handedOver
      ensures var s, p, c := old(slots[..]), old(past), old(current);
        if NextRunnable(States(s), c) == Some(c)
        then slots[..] == Answered(s, c, WouldWaitForEver) && past == p && current == c
        else Turn(s[c := Some(s[c].value.(state := Blocked))], p, old(log), c, InRecv(room)) && current != c
    {
      ghost var s := slots[..];
      SomebodyIsNext(s, current, past);
      assert SlotOk(slots[current].value, true, past[current]);
      PutAside(s, current, past, slots[current].value.(state := Blocked, continuation := InRecv(room)));
      NextIgnores(s, current, slots[current].value.(state := Blocked));
      hide Running, SlotOk, TurnOk, Resumed, TakenOn;
      var next := NextAfter(current);
      if next.value == current {
        Reply(WouldWaitForEver);
      } else {
        slots[current] := Some(slots[current].value.(state := slots[current].value.state.Waiting().value));
        SwitchTo(next.value, InRecv(room));
      }
    }

    /** `exit` or a fault: the process is gone, and the CPU goes to whoever is next; when nobody is
        able the kernel has it back, and every process is gone. */
    method End()
      requires Valid() && handedOver
      modifies this, slots
      ensures Valid()
      ensures var s, c := old(slots[..]), old(current); var gone := s[c := Some(s[c].value.(state := Dead))];
        if handedOver then Turn(gone, old(past), old(log), c, Parked) && current != c
        else Over(slots[..]) && past == old(past) && log == old(log) && forall i | 0 <= i < MAX_PROCESSES ::
          !AbleAt(States(gone), i)
    {
      assert SlotOk(slots[current].value, true, past[current]);
      PutAside(slots[..], current, past, slots[current].value.(state := Dead));
      PutAside(slots[..], current, past, slots[current].value.(state := Dead, continuation := Parked));
      hide Running, SlotOk, TurnOk, Resumed, TakenOn;
      slots[current] := Some(slots[current].value.(state := Dead));
      var next := NextAfter(current);
      assert !AbleAt(States(slots[..]), current);
      if next.Some? && next.value != current {
        SwitchTo(next.value, Parked);
      } else {
        forall i: nat | i < MAX_PROCESSES ensures !AbleAt(States(slots[..]), i) {
          NobodyIsAble(slots[..], current, i);
        }
        LeaveForTheKernel();
      }
    }

    /** Back in `run_until_empty`: whoever still waits is given up. */
    method LeaveForTheKernel()
      requires slots.Length == MAX_PROCESSES && !switching && HandoversOk(log)
      requires Between(slots[..], current, past)
      requires forall i | 0 <= i < MAX_PROCESSES :: !AbleAt(States(slots[..]), i)
      modifies this`handedOver, slots
      ensures Valid() && !handedOver && Over(slots[..])
    {
      hide SlotOk, TurnOk;
      ghost var s := slots[..];
      handedOver := false;
      for index := 0 to MAX_PROCESSES
        modifies slots
        invariant forall i | 0 <= i < index ::
          slots[i] == if s[i].Some? && s[i].value.state == Blocked then Some(s[i].value.(state := Dead)) else s[i]
        invariant forall i | index <= i < MAX_PROCESSES :: slots[i] == s[i]
      {
        if slots[index].Some? && slots[index].value.state == Blocked {
          slots[index] := Some(slots[index].value.(state := Dead));
        }
      }
      EndKeeps(s, current, past, slots[..]);
    }

    /** Hands the CPU to the lowest slot able to run; with none there is nothing to do, and every
        process is gone. It comes back through `LeaveForTheKernel`. */
    method RunUntilEmpty() returns (started: bool)
      requires Valid() && !handedOver
      modifies this, slots
      ensures Valid() && handedOver == started
      ensures !started ==> Over(slots[..]) && slots[..] == old(slots[..])
      ensures started ==>
        && NextRunnable(States(old(slots[..])), MAX_PROCESSES - 1) == Some(current)
        && slots[..] == HandedOn(old(slots[..]), current) && past == old(past)
    {
      var first := NextAfter(MAX_PROCESSES - 1);
      if first.None? {
        forall i: nat | i < MAX_PROCESSES ensures slots[..][i].Some? ==> slots[..][i].value.state == Dead {
          NobodyIsAble(slots[..], MAX_PROCESSES - 1, i);
        }
        return false;
      }
      StartKeeps(slots[..], past, first.value);
      hide Running, TurnOk, Resumed, TakenOn;
      current := first.value;
      published := slots[current].value.stackTop;
      handedOver := true;
      log := log + [Handover(current, slots[current].value.state, slots[current].value.stackTop, published)];
      Resume();
      assert past == old(past);
      return true;
    }
  }

  // ---------------------------------------------------------------------
  // Whole runs
  // ---------------------------------------------------------------------

  /** What can happen next: the kernel adds a process or starts a run, the timer ticks, or the
      process that has the CPU calls or faults. */
  datatype Event =
    | Arrive(stackTop: nat)
    | Start
    | Tick
    | CallYield
    | CallSend(to: nat, message: seq<Byte>, owned: bool)
    | CallRecv(room: nat, owned: bool)
    | CallExit
    | Fault

  /** Whatever happens, in whatever order: no switch is under way and the CPU knows the running
      process's own stack; the kernel has the CPU only with every process gone or never run; who
      waits for a message has none; a slot took exactly what was delivered to it, in order, less
      the one still waiting; who is able to run has seen at most fourteen hand-overs go by; and
      only a slot able to run was ever handed the CPU. */
  method AnyRun(script: seq<Event>)
    returns (slots: seq<Option<Slot>>, current: nat, switching: bool, handedOver: bool, published: nat,
             ghost past: seq<Past>, ghost log: seq<Handover>)
    ensures |slots| == |past| == MAX_PROCESSES && !switching
    ensures handedOver ==>
              && current < MAX_PROCESSES && slots[current].Some? && slots[current].value.state == Runnable
              && published == slots[current].value.stackTop
    ensures !handedOver ==>
              forall i | 0 <= i < MAX_PROCESSES && slots[i].Some? ::
                slots[i].value.state == New || slots[i].value.state == Dead
    ensures forall i | 0 <= i < MAX_PROCESSES && slots[i].Some? ::
              slots[i].value.state == Blocked ==> slots[i].value.mail == None
    ensures forall i | 0 <= i < MAX_PROCESSES && slots[i].Some? ::
              past[i].delivered == past[i].taken + Waiting(slots[i].value.mail)
    ensures handedOver ==>
              forall i | 0 <= i < MAX_PROCESSES && slots[i].Some? && i != current && slots[i].value.state.CanRun() ::
                past[i].waits < MAX_PROCESSES - 1
    ensures forall i | 0 <= i < MAX_PROCESSES && slots[i].Some? && slots[i].value.answer.Received? ::
              && past[i].taken != []
              && slots[i].value.answer.message == past[i].taken[|past[i].taken| - 1]
    ensures HandoversOk(log)
  {
    var s := new Scheduler();
    for n := 0 to |script|
      invariant s.Valid() && fresh(s) && fresh(s.slots)
    {
      Happen(s, script[n]);
    }
    slots, current, switching, handedOver, published := s.slots[..], s.current, s.switching, s.handedOver, s.published;
    past, log := s.past, s.log;
    forall i | 0 <= i < MAX_PROCESSES && slots[i].Some?
      ensures SlotOk(slots[i].value, handedOver && i == current, past[i])
      ensures (handedOver ==> TurnOk(slots[i].value, current, i, past[i]))
    {
    }
  }

  method Happen(s: Scheduler, event: Event)
    requires s.Valid()
    modifies s, s.slots
    ensures s.Valid()
  {
    hide Running, Idle;
    match event {
      case Arrive(stackTop) => var _ := s.Add(stackTop);
      case Start => if !s.handedOver { var _ := s.RunUntilEmpty(); }
      case Tick => s.OnTick();
      case CallYield => if s.handedOver { s.Yield(); }
      case CallSend(to, message, owned) => if s.handedOver { s.Send(to, message, owned); }
      case CallRecv(room, owned) => if s.handedOver { s.Recv(room, owned); }
      case CallExit => if s.handedOver { s.End(); }
      case Fault => if s.handedOver { s.End(); }
    }
  }

  datatype SendError = Absent | StillBusy | Rejected(why: DeliverError)

  /** Slot `to` holds a process that has not ended. */
  predicate There(slots: seq<Option<Slot>>, to: nat)
    requires |slots| == MAX_PROCESSES
  {
    to < MAX_PROCESSES && slots[to].Some? && slots[to].value.state != Dead
  }

  /** Why a delivery to slot `to` cannot be made, if it cannot. */
  function Undeliverable(slots: seq<Option<Slot>>, to: nat, message: seq<Byte>): (why: Option<SendError>)
    requires |slots| == MAX_PROCESSES
    ensures why == None <==>
            There(slots, to) && slots[to].value.mail == None && 0 < |message| <= MAILBOX_BYTES
    ensures why == Some(Absent) <==> !There(slots, to)
    ensures why == Some(StillBusy) <==>
            There(slots, to) && slots[to].value.mail.Some? && 0 < |message| <= MAILBOX_BYTES
    ensures why == Some(Rejected(Empty)) <==> There(slots, to) && |message| == 0
    ensures why == Some(Rejected(TooLong(MAILBOX_BYTES))) <==> There(slots, to) && |message| > MAILBOX_BYTES
  {
    if to >= MAX_PROCESSES || slots[to].None? || slots[to].value.state == Dead then Some(Absent)
    else match Refusal(slots[to].value.mail, message)
      case None => None
      case Some(Busy) => Some(StillBusy)
      case Some(why) => Some(Rejected(why))
  }

  function SendAnswer(slots: seq<Option<Slot>>, to: nat, message: seq<Byte>, owned: bool): (a: Answer)
    requires |slots| == MAX_PROCESSES
    ensures a.Sent? ==> Undeliverable(slots, to, message) == None
    ensures a.Sent? <==>
            owned && There(slots, to) && slots[to].value.mail == None && 0 < |message| <= MAILBOX_BYTES
    ensures a.Sent? ==> a.len == |message|
    ensures a == NoSuchProcess <==> owned && |message| <= MAILBOX_BYTES && !There(slots, to)
    ensures a == MailboxFull <==>
            owned && There(slots, to) && slots[to].value.mail.Some? && 0 < |message| <= MAILBOX_BYTES
    ensures a == BadArgument <==> !owned || |message| > MAILBOX_BYTES || (|message| == 0 && There(slots, to))
  {
    if !owned || |message| > MAILBOX_BYTES then BadArgument
    else match Undeliverable(slots, to, message)
      case None => Sent(|message|)
      case Some(Absent) => NoSuchProcess
      case Some(StillBusy) => MailboxFull
      case Some(Rejected(_)) => BadArgument
  }

  function Answered(slots: seq<Option<Slot>>, index: nat, answer: Answer): (r: seq<Option<Slot>>)
    requires index < |slots| && slots[index].Some?
    ensures |r| == |slots|
  {
    slots[index := Some(slots[index].value.(answer := answer))]
  }

  lemma {:induction false} RunningBasics(slots: seq<Option<Slot>>, current: nat, past: seq<Past>)
    requires Running(slots, current, past)
    ensures |slots| == |past| == MAX_PROCESSES && current < MAX_PROCESSES && slots[current].Some?
  {
  }

  lemma {:induction false} TookOk(slots: seq<Option<Slot>>, current: nat, past: seq<Past>, m: Message)
    requires Running(slots, current, past) && slots[current].value.mail == Some(m)
    ensures Running(slots[current := Some(slots[current].value.(mail := None, answer := Received(m)))], current,
                    past[current := past[current].(taken := past[current].taken + [m])])
  {
    assert SlotOk(slots[current].value, true, past[current]);
    assert past[current].delivered == past[current].taken + [m];
    ChangeRunning(slots, current, past, slots[current].value.(mail := None, answer := Received(m)),
                  past[current].(taken := past[current].taken + [m]));
  }

  /** Whether the process at `from` may run itself does not matter when somebody else is next. */
  lemma {:induction false} NextIgnores(slots: seq<Option<Slot>>, from: nat, slot: Slot)
    requires |slots| == MAX_PROCESSES && from < MAX_PROCESSES && slots[from].Some?
    requires NextRunnable(States(slots), from).Some?
    ensures NextRunnable(States(slots), from).value != from ==>
      NextRunnable(States(slots[from := Some(slot)]), from) == NextRunnable(States(slots), from)
  {
    NextFromIgnores(slots, from, slot, 1);
  }

  lemma {:induction false} NextFromIgnores(slots: seq<Option<Slot>>, from: nat, slot: Slot, step: nat)
    requires |slots| == MAX_PROCESSES && from < MAX_PROCESSES && slots[from].Some? && 1 <= step <= MAX_PROCESSES + 1
    ensures var next := NextFrom(States(slots), from, step);
      next.Some? && next.value != from ==> NextFrom(States(slots[from := Some(slot)]), from, step) == next
    decreases MAX_PROCESSES + 1 - step
  {
    if step < MAX_PROCESSES {
      var index := (from + step) % MAX_PROCESSES;
      assert index != from;
      NextFromIgnores(slots, from, slot, step + 1);
    }
  }

  lemma {:induction false} BlockedWaits(slots: seq<Option<Slot>>, current: nat, past: seq<Past>, to: nat)
    requires Running(slots, current, past) && to < MAX_PROCESSES && slots[to].Some? && slots[to].value.state == Blocked
    ensures slots[to].value.continuation.InRecv? && slots[to].value.mail == None && to != current
  {
    assert SlotOk(slots[to].value, to == current, past[to]);
  }

  /** A process that waits for a message can always be sent one. */
  lemma {:induction false} BlockedIsNeverBusy(slots: seq<Option<Slot>>, current: nat, past: seq<Past>, to: nat,
                                              message: seq<Byte>)
    requires Running(slots, current, past) && to < MAX_PROCESSES && slots[to].Some? && slots[to].value.state == Blocked
    requires 0 < |message| <= MAILBOX_BYTES
    ensures SendAnswer(slots, to, message, true) == Sent(|message|)
    ensures Mailed(slots[to].value, Message(current, message)).state == Runnable
  {
    assert SlotOk(slots[to].value, to == current, past[to]);
  }
}
