/** What the scheduler of kernel/src/scheduler.rs keeps about its processes, and what every
    hand-over of the CPU keeps true of it. */
module Scheduling {
  import opened Bytes
  import opened Mailboxes

  const MAX_PROCESSES := 16

  datatype State = New | Runnable | Blocked | Dead {
    predicate CanRun() {
      this == New || this == Runnable
    }

    function Waiting(): (s: Option<State>) {
      if CanRun() then Some(Blocked) else None
    }

    function Woken(): (s: Option<State>) {
      if this == Blocked then Some(Runnable) else None
    }
  }

  /** What a process does when its kernel stack is switched to: enter ring 3 for the first time,
      return from the switch a tick or a yield made, or go round `recv`'s loop again with room for
      so many bytes. The process that has the CPU has nothing saved. */
  datatype Continuation = NeverRun | Parked | InRecv(room: nat) | OnCpu

  /** What a process finds in its registers, and in its buffer, when a call of its comes back. */
  datatype Answer =
    | NoAnswer
    | Zero
    | Sent(len: nat)
    | MailboxFull
    | NoSuchProcess
    | BadArgument
    | Received(message: Message)
    | WouldWaitForEver

  datatype Slot = Slot(state: State, stackTop: nat, continuation: Continuation, mail: Option<Message>, answer: Answer)

  /** The history of one slot: what was put in its mailbox, what it took out, and how often the
      CPU went to somebody else while it was able to run and waiting. */
  datatype Past = Past(delivered: seq<Message>, taken: seq<Message>, waits: nat)

  // ---------------------------------------------------------------------
  // Whose turn it is
  // ---------------------------------------------------------------------

  predicate AbleAt(states: seq<Option<State>>, i: nat) {
    i < |states| && states[i].Some? && states[i].value.CanRun()
  }

  /** Who runs after `from`: the first able one going round, `from` itself last of all. */
  function NextRunnable(states: seq<Option<State>>, from: nat): (next: Option<nat>)
    ensures next.Some? ==> AbleAt(states, next.value)
  {
    NextFrom(states, from, 1)
  }

  function NextFrom(states: seq<Option<State>>, from: nat, step: nat): (next: Option<nat>)
    ensures next.Some? ==> AbleAt(states, next.value)
    decreases |states| + 1 - step
  {
    if step > |states| || |states| == 0 then None
    else
      var index := (from + step) % |states|;
      if AbleAt(states, index) then Some(index) else NextFrom(states, from, step + 1)
  }

  /** How many places round the list `to` is past `from`. */
  function Distance(from: nat, to: nat): (d: int)
    requires from < MAX_PROCESSES && to < MAX_PROCESSES
    ensures 0 <= d < MAX_PROCESSES
    ensures d == 0 <==> from == to
  {
    if from <= to then to - from else to - from + MAX_PROCESSES
  }

  lemma {:induction false} NextFromNearest(states: seq<Option<State>>, from: nat, step: nat, i: nat)
    requires |states| == MAX_PROCESSES && from < MAX_PROCESSES && AbleAt(states, i)
    requires 1 <= step <= if i == from then MAX_PROCESSES else Distance(from, i)
    ensures var next := NextFrom(states, from, step);
      && next.Some?
      && (i != next.value && i != from ==> next.value != from && Distance(from, next.value) < Distance(from, i))
      && (next.value == from ==> i == from)
    decreases MAX_PROCESSES - step
  {
    var index := (from + step) % MAX_PROCESSES;
    assert index == if from + step < MAX_PROCESSES then from + step else from + step - MAX_PROCESSES;
    if !AbleAt(states, index) {
      assert index != i;
      NextFromNearest(states, from, step + 1, i);
    }
  }

  /** The next is there whenever anybody is able, it is nearer than every other able one, and it is
      `from` itself only when nobody else is able. */
  lemma {:induction false} NextIsNearest(states: seq<Option<State>>, from: nat, i: nat)
    requires |states| == MAX_PROCESSES && from < MAX_PROCESSES && AbleAt(states, i)
    ensures var next := NextRunnable(states, from);
      && next.Some?
      && (i != next.value && i != from ==> next.value != from && Distance(from, next.value) < Distance(from, i))
      && (next.value == from ==> i == from)
  {
    NextFromNearest(states, from, 1, i);
  }

  /** Whatever becomes of the others from one hand-over to the next: a process that stays able to
      run is within fifteen of them given the CPU. */
  lemma {:induction false} BoundedWaiting(states: seq<seq<Option<State>>>, turn: seq<nat>, p: nat, n: nat)
    requires n < |turn| && |states| + 1 == |turn| && forall k | 0 <= k < |turn| :: turn[k] < MAX_PROCESSES
    requires forall k | 0 <= k < |states| ::
      && |states[k]| == MAX_PROCESSES && AbleAt(states[k], p) && NextRunnable(states[k], turn[k]) == Some(turn[k + 1])
      && turn[k] != turn[k + 1]
    requires p < MAX_PROCESSES
    ensures p in turn[..n + 1] || Distance(turn[n], p) <= MAX_PROCESSES - 1 - n
    ensures n == MAX_PROCESSES - 1 ==> p in turn[..n + 1]
  {
    if n > 0 {
      BoundedWaiting(states, turn, p, n - 1);
      assert turn[..n + 1] == turn[..n] + [turn[n]];
      assert turn[..n] == turn[..n - 1] + [turn[n - 1]];
      NextIsNearest(states[n - 1], turn[n - 1], p);
      assert turn[n] == turn[n - 1 + 1];
    }
    assert turn[..n + 1][n] == turn[n];
  }

  function States(slots: seq<Option<Slot>>): (states: seq<Option<State>>)
    ensures |states| == |slots|
    ensures forall i | 0 <= i < |slots| :: states[i] == if slots[i].Some? then Some(slots[i].value.state) else None
  {
    seq(|slots|, i requires 0 <= i < |slots| => if slots[i].Some? then Some(slots[i].value.state) else None)
  }

  // ---------------------------------------------------------------------
  // What is true of every slot between two steps
  // ---------------------------------------------------------------------

  /** What a process was answered as received is the last message it took. */
  ghost predicate AnswerOk(answer: Answer, taken: seq<Message>) {
    answer.Received? ==> taken != [] && answer.message == taken[|taken| - 1]
  }

  /** One slot: who waits for a message has none; who was woken has one; nothing sent is lost. */
  ghost predicate SlotOk(slot: Slot, onCpu: bool, past: Past) {
    && AnswerOk(slot.answer, past.taken)
    && Holdable(slot.mail) && NothingLost(past.delivered, past.taken, slot.mail)
    && (onCpu ==> slot.state == Runnable)
    && match slot.state
       case New => slot.continuation == NeverRun
       case Runnable =>
         if onCpu then slot.continuation == OnCpu
         else slot.continuation == Parked || (slot.continuation.InRecv? && slot.mail.Some?)
       case Blocked => slot.continuation.InRecv? && slot.mail == None
       case Dead => true
  }

  ghost predicate TurnOk(slot: Slot, current: nat, i: nat, past: Past)
    requires current < MAX_PROCESSES && i < MAX_PROCESSES
  {
    && (slot.state.CanRun() ==> past.waits + Distance(current, i) <= MAX_PROCESSES - 1)
    && (!slot.state.CanRun() || i == current ==> past.waits == 0)
  }

  /** Every slot while the process in `current` runs. */
  ghost predicate Running(slots: seq<Option<Slot>>, current: nat, past: seq<Past>) {
    && |slots| == |past| == MAX_PROCESSES && current < MAX_PROCESSES && slots[current].Some?
    && (forall i | 0 <= i < MAX_PROCESSES :: slots[i].Some? ==> SlotOk(slots[i].value, i == current, past[i]))
    && (forall i | 0 <= i < MAX_PROCESSES :: slots[i].Some? ==> TurnOk(slots[i].value, current, i, past[i]))
    && (forall i | 0 <= i < MAX_PROCESSES :: slots[i] == None ==> past[i] == Past([], [], 0))
  }

  /** Every slot while the kernel has the CPU: whoever is there never ran or has ended. */
  ghost predicate Idle(slots: seq<Option<Slot>>, past: seq<Past>) {
    && |slots| == |past| == MAX_PROCESSES
    && (forall i | 0 <= i < MAX_PROCESSES :: slots[i].Some? ==>
         SlotOk(slots[i].value, false, past[i]) && (slots[i].value.state == New || slots[i].value.state == Dead))
    && (forall i | 0 <= i < MAX_PROCESSES :: past[i].waits == 0)
    && (forall i | 0 <= i < MAX_PROCESSES :: slots[i] == None ==> past[i] == Past([], [], 0))
  }

  ghost predicate Over(slots: seq<Option<Slot>>) {
    forall i | 0 <= i < |slots| :: slots[i].Some? ==> slots[i].value.state == Dead
  }

  // ---------------------------------------------------------------------
  // A hand-over
  // ---------------------------------------------------------------------

  /** The process as it is once it has the CPU again and its call, if it was in one, has come back.
      `recv` goes round once more: it takes the message, or finds its buffer too small for it. */
  function Resumed(slot: Slot): (r: Slot)
    ensures r.stackTop == slot.stackTop
  {
    var back := slot.(state := Runnable, continuation := OnCpu);
    if slot.continuation.InRecv? && slot.mail.Some? then
      if |slot.mail.value.bytes| <= slot.continuation.room then back.(mail := None, answer := Received(slot.mail.value))
      else back.(answer := BadArgument)
    else back
  }

  /** How a process comes back to ring 3. If it waited in `recv` it is answered the very message that
      was delivered to it, which is taken, when that fits its buffer; when it does not it is told so
      and the message stays. Otherwise it finds what it left. */
  ghost predicate ComesBack(was: Slot, now: Slot, before: Past, after: Past) {
    && now.state == Runnable && now.continuation == OnCpu && now.stackTop == was.stackTop
    && after.delivered == before.delivered
    && if was.continuation.InRecv? && was.state == Runnable then
         && was.mail.Some? && before.delivered == before.taken + [was.mail.value]
         && (|was.mail.value.bytes| <= was.continuation.room ==>
               now.answer == Received(was.mail.value) && now.mail == None && after.taken == before.delivered)
         && (|was.mail.value.bytes| > was.continuation.room ==>
               now.answer == BadArgument && now.mail == was.mail && after.taken == before.taken)
       else now.answer == was.answer && now.mail == was.mail && after.taken == before.taken
  }

  ghost function TakenOn(slot: Slot, past: Past): (p: Past) {
    if Resumed(slot).mail != slot.mail && slot.mail.Some? then past.(taken := past.taken + [slot.mail.value]) else past
  }

  /** All slots once the CPU is with `to`. */
  function HandedOn(slots: seq<Option<Slot>>, to: nat): (r: seq<Option<Slot>>)
    requires to < |slots| && slots[to].Some?
    ensures |r| == |slots|
  {
    slots[to := Some(Resumed(slots[to].value))]
  }

  ghost function Waited(slots: seq<Option<Slot>>, past: seq<Past>, from: nat, to: nat, i: nat): (p: Past)
    requires i < |slots| == |past|
  {
    if i == to && slots[i].Some? then TakenOn(slots[i].value, past[i]).(waits := 0)
    else if i == from || !AbleAt(States(slots), i) then past[i].(waits := 0)
    else past[i].(waits := past[i].waits + 1)
  }

  /** The histories after it: everybody else who could have run has waited once more. */
  ghost function PastHandedOn(slots: seq<Option<Slot>>, past: seq<Past>, from: nat, to: nat): (r: seq<Past>)
    requires |slots| == |past|
    ensures |r| == |past| && forall i | 0 <= i < |past| :: r[i] == Waited(slots, past, from, to, i)
  {
    seq(|past|, i requires 0 <= i < |past| => Waited(slots, past, from, to, i))
  }

  /** What was taken in a hand-over is what the resumed process took. */
  lemma {:induction false} TakenAlike(slots: seq<Option<Slot>>, past: seq<Past>, from: nat, to: nat)
    requires to < |slots| == |past| && slots[to].Some?
    ensures var resumed := past[to := TakenOn(slots[to].value, past[to])];
      forall i | 0 <= i < |past| ::
        && PastHandedOn(slots, past, from, to)[i].taken == resumed[i].taken
        && PastHandedOn(slots, past, from, to)[i].delivered == resumed[i].delivered
  {
  }

  /** Every slot when the one in `current` has been put aside, asleep, able or gone. */
  ghost predicate Between(slots: seq<Option<Slot>>, current: nat, past: seq<Past>) {
    && |slots| == |past| == MAX_PROCESSES && current < MAX_PROCESSES && slots[current].Some?
    && (forall i | 0 <= i < MAX_PROCESSES :: slots[i].Some? ==> SlotOk(slots[i].value, false, past[i]))
    && (forall i | 0 <= i < MAX_PROCESSES :: slots[i].Some? ==> TurnOk(slots[i].value, current, i, past[i]))
    && (forall i | 0 <= i < MAX_PROCESSES :: slots[i] == None ==> past[i] == Past([], [], 0))
  }

  /** Whoever is given the CPU runs, and a `recv` that was waiting finds its message. */
  lemma {:induction false} ResumedOk(slot: Slot, past: Past)
    requires SlotOk(slot, false, past) && slot.state.CanRun()
    ensures SlotOk(Resumed(slot), true, TakenOn(slot, past))
    ensures ComesBack(slot, Resumed(slot), past, TakenOn(slot, past))
  {
    if Resumed(slot).mail != slot.mail {
      assert past.delivered == past.taken + [slot.mail.value];
    }
  }

  /** A hand-over keeps everything, and brings each process that waits its turn nearer to it. */
  lemma {:induction false} HandoverKeeps(slots: seq<Option<Slot>>, past: seq<Past>, from: nat, to: nat)
    requires Between(slots, from, past)
    requires NextRunnable(States(slots), from) == Some(to) && to != from
    ensures Running(HandedOn(slots, to), to, PastHandedOn(slots, past, from, to))
  {
    var s', p' := HandedOn(slots, to), PastHandedOn(slots, past, from, to);
    assert AbleAt(States(slots), to);
    ResumedOk(slots[to].value, past[to]);
    forall i | 0 <= i < MAX_PROCESSES && s'[i].Some?
      ensures SlotOk(s'[i].value, i == to, p'[i]) && TurnOk(s'[i].value, to, i, p'[i])
    {
      HandoverSlot(slots, past, from, to, i);
    }
  }

  lemma {:induction false} HandoverSlot(slots: seq<Option<Slot>>, past: seq<Past>, from: nat, to: nat, i: nat)
    requires Between(slots, from, past) && i < MAX_PROCESSES && slots[i].Some?
    requires NextRunnable(States(slots), from) == Some(to) && to != from
    ensures var s := HandedOn(slots, to)[i]; var p := PastHandedOn(slots, past, from, to)[i];
      s.Some? && SlotOk(s.value, i == to, p) && TurnOk(s.value, to, i, p)
  {
    ResumedOk(slots[to].value, past[to]);
    var p := Waited(slots, past, from, to, i);
    if i != to {
      assert SlotOk(slots[i].value, false, p) by { assert SlotOk(slots[i].value, false, past[i]); }
      if slots[i].value.state.CanRun() && i != from {
        NextIsNearest(States(slots), from, i);
        assert TurnOk(slots[i].value, from, i, past[i]);
      }
    }
  }

  /** A running process may be put aside in any state that is in order without the CPU. */
  lemma {:induction false} PutAside(slots: seq<Option<Slot>>, current: nat, past: seq<Past>, aside: Slot)
    requires Running(slots, current, past) && SlotOk(aside, false, past[current])
    ensures Between(slots[current := Some(aside)], current, past)
  {
    var s' := slots[current := Some(aside)];
    assert SlotOk(slots[current].value, true, past[current])
           && TurnOk(slots[current].value, current, current, past[current]);
    forall i | 0 <= i < MAX_PROCESSES && s'[i].Some?
      ensures SlotOk(s'[i].value, false, past[i]) && TurnOk(s'[i].value, current, i, past[i])
    {
      if i != current {
        assert SlotOk(slots[i].value, i == current, past[i]) && TurnOk(slots[i].value, current, i, past[i]);
      }
    }
  }

  /** Any change to the running process's answer or mailbox that keeps its own account is in order. */
  lemma {:induction false} ChangeRunning(slots: seq<Option<Slot>>, current: nat, past: seq<Past>, slot: Slot, own: Past)
    requires Running(slots, current, past)
    requires SlotOk(slot, true, own) && own.waits == past[current].waits
    ensures Running(slots[current := Some(slot)], current, past[current := own])
  {
    var s', p' := slots[current := Some(slot)], past[current := own];
    assert SlotOk(slots[current].value, true, past[current])
           && TurnOk(slots[current].value, current, current, past[current]);
    forall i | 0 <= i < MAX_PROCESSES && s'[i].Some?
      ensures SlotOk(s'[i].value, i == current, p'[i]) && TurnOk(s'[i].value, current, i, p'[i])
    {
      if i != current {
        assert SlotOk(slots[i].value, i == current, past[i]) && TurnOk(slots[i].value, current, i, past[i]);
      }
    }
  }

  /** Somebody is next while a process runs: itself, if nobody else. */
  lemma {:induction false} SomebodyIsNext(slots: seq<Option<Slot>>, current: nat, past: seq<Past>)
    requires Running(slots, current, past)
    ensures NextRunnable(States(slots), current).Some?
  {
    assert SlotOk(slots[current].value, true, past[current]);
    assert AbleAt(States(slots), current);
    NextIsNearest(States(slots), current, current);
  }

  /** With nobody next, nobody is able. */
  lemma {:induction false} NobodyIsAble(slots: seq<Option<Slot>>, from: nat, i: nat)
    requires |slots| == MAX_PROCESSES && from < MAX_PROCESSES && i < MAX_PROCESSES
    requires NextRunnable(States(slots), from) == None
             || (NextRunnable(States(slots), from) == Some(from) && !AbleAt(States(slots), from))
    ensures !AbleAt(States(slots), i)
  {
    if AbleAt(States(slots), i) { NextIsNearest(States(slots), from, i); }
  }

  /** The first hand-over of a run: the kernel gives the CPU to the lowest slot that never ran. */
  lemma {:induction false} StartKeeps(slots: seq<Option<Slot>>, past: seq<Past>, first: nat)
    requires Idle(slots, past) && AbleAt(States(slots), first)
    ensures Running(HandedOn(slots, first), first, past) && TakenOn(slots[first].value, past[first]) == past[first]
  {
    var s' := HandedOn(slots, first);
    assert SlotOk(slots[first].value, false, past[first]);
    forall i | 0 <= i < MAX_PROCESSES && s'[i].Some?
      ensures SlotOk(s'[i].value, i == first, past[i]) && TurnOk(s'[i].value, first, i, past[i])
    {
      assert SlotOk(slots[i].value, false, past[i]);
    }
  }

  /** The slot a message was put into: woken, if it was waiting. */
  function Mailed(slot: Slot, message: Message): (r: Slot) {
    slot.(mail := Some(message), state := if slot.state.Woken().Some? then slot.state.Woken().value else slot.state)
  }

  ghost function MailedPast(past: Past, message: Message): (p: Past) {
    past.(delivered := past.delivered + [message])
  }

  lemma {:induction false} MailedOk(slot: Slot, onCpu: bool, past: Past, message: Message)
    requires SlotOk(slot, onCpu, past) && slot.state != Dead && Refusal(slot.mail, message.bytes) == None
    ensures SlotOk(Mailed(slot, message), onCpu, MailedPast(past, message))
    ensures Mailed(slot, message).state.CanRun()
  {
    assert past.delivered == past.taken;
  }

  /** A delivery keeps everything; who was waiting for it starts waiting for its turn instead. */
  lemma {:induction false} DeliveryKeeps(slots: seq<Option<Slot>>, current: nat, past: seq<Past>, to: nat,
                                         message: Message)
    requires Running(slots, current, past) && to < MAX_PROCESSES && slots[to].Some?
    requires slots[to].value.state != Dead && Refusal(slots[to].value.mail, message.bytes) == None
    ensures Running(slots[to := Some(Mailed(slots[to].value, message))], current,
                    past[to := MailedPast(past[to], message)])
  {
    var s', p' := slots[to := Some(Mailed(slots[to].value, message))], past[to := MailedPast(past[to], message)];
    forall i | 0 <= i < MAX_PROCESSES && s'[i].Some?
      ensures SlotOk(s'[i].value, i == current, p'[i]) && TurnOk(s'[i].value, current, i, p'[i])
    {
      assert SlotOk(slots[i].value, i == current, past[i]) && TurnOk(slots[i].value, current, i, past[i]);
      if i == to { MailedOk(slots[to].value, to == current, past[to], message); }
    }
  }

  /** When nobody is able, giving up on whoever still waits leaves only the dead. */
  lemma {:induction false} EndKeeps(slots: seq<Option<Slot>>, current: nat, past: seq<Past>, after: seq<Option<Slot>>)
    requires Between(slots, current, past) && |after| == MAX_PROCESSES
    requires forall i | 0 <= i < MAX_PROCESSES :: !AbleAt(States(slots), i)
    requires forall i | 0 <= i < MAX_PROCESSES ::
      && after[i] == if slots[i].Some?
      && slots[i].value.state == Blocked then Some(slots[i].value.(state := Dead)) else slots[i]
    ensures Idle(after, past) && Over(after)
  {
    forall i | 0 <= i < MAX_PROCESSES
      ensures after[i].Some? ==> SlotOk(after[i].value, false, past[i]) && after[i].value.state == Dead
      ensures past[i].waits == 0
    {
      if slots[i].Some? {
        assert SlotOk(slots[i].value, false, past[i]) && TurnOk(slots[i].value, current, i, past[i]);
        assert !AbleAt(States(slots), i);
      }
    }
  }
}
