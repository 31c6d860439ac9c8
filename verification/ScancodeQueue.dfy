/** The single-producer, single-consumer scancode ring of arch/x86_64/src/keyboard.rs, one atomic
    load or store at a time. */
module ScancodeQueue {
  import opened Bytes

  const CAPACITY := 64
  /** The counters are `usize`: they run freely and wrap here. */
  const WRAP := 0x1_0000_0000_0000_0000

  /** Where the producer is in `push`. */
  datatype Producer =
    | Outside
    | TailLoaded(tail: U64, code: Byte)
    | HeadLoaded(tail: U64, head: U64, code: Byte)
    | SlotStored(tail: U64, code: Byte)

  /** Where the consumer is in `pop`. */
  datatype Consumer =
    | Away
    | HeadRead(head: U64)
    | TailRead(head: U64, tail: U64)
    | SlotRead(head: U64, code: Byte)

  /** The queue, both sides, and what a watcher has seen: what each `push` was called with and
      answered, the values that went in and came out, what was outstanding at each side's last
      load of the other's counter, and how pushes and pops last ended. */
  datatype Queue = Queue(
    slots: seq<Byte>, head: U64, tail: U64,
    producer: Producer, consumer: Consumer,
    called: seq<Byte>, answers: seq<bool>,
    pushed: seq<Byte>, popped: seq<Byte>,
    headSeen: nat, tailSeen: nat,
    lastPush: Option<bool>, lastPop: Option<Option<Byte>>)

  ghost predicate Init(q: Queue) {
    && |q.slots| == CAPACITY && q.head == 0 && q.tail == 0 && q.producer == Outside && q.consumer == Away
    && q.called == [] && q.answers == [] && q.pushed == [] && q.popped == [] && q.headSeen == 0 && q.tailSeen == 0
    && q.lastPush == None && q.lastPop == None
  }

  /** `push(code)` begins: the producer loads its own counter. */
  predicate PushLoadTail(q: Queue, code: Byte, q': Queue) {
    && q.producer == Outside
    && q' == q.(producer := TailLoaded(q.tail, code), called := q.called + [code], lastPush := None)
  }

  predicate PushLoadHead(q: Queue, q': Queue) {
    && q.producer.TailLoaded?
    && q' == q.(producer := HeadLoaded(q.producer.tail, q.head, q.producer.code), headSeen := |q.popped|)
  }

  /** Full: nothing is stored and the answer is `false`. */
  predicate PushRefuse(q: Queue, q': Queue) {
    && q.producer.HeadLoaded? && WrappingSub(q.producer.tail, q.producer.head) == CAPACITY
    && q' == q.(producer := Outside, answers := q.answers + [false], lastPush := Some(false))
  }

  predicate PushStoreSlot(q: Queue, q': Queue) {
    && q.producer.HeadLoaded? && WrappingSub(q.producer.tail, q.producer.head) != CAPACITY && |q.slots| == CAPACITY
    && q' == q.(slots := q.slots[q.producer.tail % CAPACITY := q.producer.code],
                producer := SlotStored(q.producer.tail, q.producer.code))
  }

  predicate PushStoreTail(q: Queue, q': Queue) {
    && q.producer.SlotStored?
    && q' == q.(tail := (q.producer.tail + 1) % WRAP, producer := Outside, pushed := q.pushed + [q.producer.code],
                answers := q.answers + [true], lastPush := Some(true))
  }

  predicate PopLoadHead(q: Queue, q': Queue) {
    q.consumer == Away && q' == q.(consumer := HeadRead(q.head), lastPop := None)
  }

  predicate PopLoadTail(q: Queue, q': Queue) {
    q.consumer.HeadRead? && q' == q.(consumer := TailRead(q.consumer.head, q.tail), tailSeen := |q.pushed|)
  }

  predicate PopEmpty(q: Queue, q': Queue) {
    && q.consumer.TailRead? && q.consumer.head == q.consumer.tail
    && q' == q.(consumer := Away, lastPop := Some(None))
  }

  predicate PopLoadSlot(q: Queue, q': Queue) {
    && q.consumer.TailRead? && q.consumer.head != q.consumer.tail && |q.slots| == CAPACITY
    && q' == q.(consumer := SlotRead(q.consumer.head, q.slots[q.consumer.head % CAPACITY]))
  }

  predicate PopStoreHead(q: Queue, q': Queue) {
    && q.consumer.SlotRead?
    && q' == q.(head := (q.consumer.head + 1) % WRAP, consumer := Away, popped := q.popped + [q.consumer.code],
                lastPop := Some(Some(q.consumer.code)))
  }

  function WrappingSub(a: U64, b: U64): U64 {
    (a - b) % WRAP
  }

  /** One load or store of either side. */
  ghost predicate Next(q: Queue, q': Queue) {
    || (exists code: Byte :: PushLoadTail(q, code, q'))
    || PushLoadHead(q, q') || PushRefuse(q, q') || PushStoreSlot(q, q') || PushStoreTail(q, q')
    || PopLoadHead(q, q') || PopLoadTail(q, q') || PopEmpty(q, q') || PopLoadSlot(q, q') || PopStoreHead(q, q')
  }

  ghost predicate Run(trace: seq<Queue>) {
    |trace| > 0 && Init(trace[0]) && forall i | 0 <= i < |trace| - 1 :: Next(trace[i], trace[i + 1])
  }

  // ---------------------------------------------------------------------
  // What every step keeps
  // ---------------------------------------------------------------------

  /** The counters count; what is outstanding is in its slots; what is popped was pushed. */
  ghost predicate Counted(q: Queue) {
    && |q.slots| == CAPACITY
    && |q.popped| <= |q.pushed| <= |q.popped| + CAPACITY
    && q.head == |q.popped| % WRAP && q.tail == |q.pushed| % WRAP
    && (forall k | |q.popped| <= k < |q.pushed| :: q.slots[k % CAPACITY] == q.pushed[k])
    && q.popped <= q.pushed
  }

  ghost predicate ProducerOk(q: Queue) {
    && (q.producer != Outside ==> q.lastPush == None)
    && match q.producer
    case Outside => true
    case TailLoaded(tail, _) => tail == q.tail
    case HeadLoaded(tail, head, _) =>
      tail == q.tail && head == q.headSeen % WRAP && q.headSeen <= |q.popped| && |q.pushed| <= q.headSeen + CAPACITY
    case SlotStored(tail, code) =>
      && tail == q.tail && q.headSeen <= |q.popped| && |q.pushed| < q.headSeen + CAPACITY
      && |q.slots| == CAPACITY && q.slots[|q.pushed| % CAPACITY] == code
  }

  ghost predicate ConsumerOk(q: Queue) {
    && (q.consumer != Away ==> q.lastPop == None)
    && match q.consumer
    case Away => true
    case HeadRead(head) => head == q.head
    case TailRead(head, tail) => head == q.head && tail == q.tailSeen % WRAP && |q.popped| <= q.tailSeen <= |q.pushed|
    case SlotRead(head, code) => head == q.head && |q.popped| < q.tailSeen <= |q.pushed| && code == q.pushed[|q.popped|]
  }

  /** Of the values that `push` was called with, those for which it answered `true`, in order. */
  function Admitted(called: seq<Byte>, answers: seq<bool>): (r: seq<Byte>)
    requires |answers| <= |called|
    ensures |r| <= |answers|
  {
    if answers == [] then []
    else
      var n := |answers| - 1;
      Admitted(called, answers[..n]) + if answers[n] then [called[n]] else []
  }

  /** What went in is what `push` was called with and admitted; a push under way carries its own value. */
  ghost predicate CallsOk(q: Queue) {
    && |q.called| == |q.answers| + (if q.producer == Outside then 0 else 1)
    && q.pushed == Admitted(q.called, q.answers)
    && (q.producer != Outside ==> q.producer.code == q.called[|q.called| - 1])
    && (q.lastPush.Some? ==> q.answers != [] && q.answers[|q.answers| - 1] == q.lastPush.value)
  }

  lemma {:induction false} AdmittedLater(called: seq<Byte>, answers: seq<bool>, code: Byte)
    requires |answers| <= |called|
    ensures Admitted(called + [code], answers) == Admitted(called, answers)
  {
    if answers != [] { AdmittedLater(called, answers[..|answers| - 1], code); }
  }

  lemma {:induction false} AdmittedMore(called: seq<Byte>, answers: seq<bool>, answer: bool)
    requires |answers| < |called|
    ensures Admitted(called, answers + [answer])
            == Admitted(called, answers) + if answer then [called[|answers|]] else []
  {
    assert (answers + [answer])[..|answers|] == answers;
  }

  /** What the answers mean: full when `CAPACITY` were outstanding at the load of the head,
      empty when nothing was at the load of the tail. */
  ghost predicate AnswersOk(q: Queue) {
    && (q.lastPush == Some(false) ==> |q.pushed| == q.headSeen + CAPACITY)
    && (q.lastPush == Some(true) ==> q.headSeen < |q.pushed| <= q.headSeen + CAPACITY)
    && (q.lastPop == Some(None) ==> q.tailSeen == |q.popped|)
    && (q.lastPop.Some? && q.lastPop.value.Some? ==>
        0 < |q.popped| <= q.tailSeen && q.popped[|q.popped| - 1] == q.lastPop.value.value)
  }

  ghost predicate Inv(q: Queue) {
    Counted(q) && ProducerOk(q) && ConsumerOk(q) && AnswersOk(q) && CallsOk(q)
  }

  /** Wrapping counters that are at most a queue apart say how far apart they are. */
  lemma {:induction false} WrappedDistance(high: nat, low: nat)
    requires low <= high <= low + CAPACITY
    ensures WrappingSub(high % WRAP, low % WRAP) == high - low
    ensures high % WRAP == low % WRAP <==> high == low
  {
    var n := high - low;
    assert (high % WRAP - low % WRAP - n) % WRAP == 0 by {
      assert high == high / WRAP * WRAP + high % WRAP;
      assert low == low / WRAP * WRAP + low % WRAP;
      assert high % WRAP - low % WRAP - n == (low / WRAP - high / WRAP) * WRAP;
    }
  }

  lemma {:induction false} SlotOfCount(k: nat)
    ensures k % WRAP % CAPACITY == k % CAPACITY
    ensures (k % WRAP + 1) % WRAP == (k + 1) % WRAP
  {
  }

  /** Two counts less than a queue apart never share a slot. */
  lemma {:induction false} SlotsDiffer(low: nat, high: nat)
    requires low < high < low + CAPACITY
    ensures low % CAPACITY != high % CAPACITY
  {
    assert low == low / CAPACITY * CAPACITY + low % CAPACITY;
    assert high == high / CAPACITY * CAPACITY + high % CAPACITY;
  }

  /** A store into the slot of the next push leaves every outstanding value where it was. */
  lemma {:induction false} StoreSlotStep(q: Queue, q': Queue, k: nat)
    requires Inv(q) && PushStoreSlot(q, q')
    requires |q.popped| <= k < |q.pushed|
    ensures q.producer.tail % CAPACITY == |q.pushed| % CAPACITY
    ensures |q.pushed| % CAPACITY != k % CAPACITY
    ensures q'.slots[k % CAPACITY] == q.pushed[k]
  {
    WrappedDistance(|q.pushed|, q.headSeen);
    SlotOfCount(|q.pushed|);
    SlotsDiffer(k, |q.pushed|);
  }

  lemma {:induction false} CallsKept(q: Queue, q': Queue)
    requires CallsOk(q)
    requires (exists code: Byte :: PushLoadTail(q, code, q')) || PushLoadHead(q, q') || PushRefuse(q, q')
             || PushStoreSlot(q, q') || PushStoreTail(q, q')
    ensures CallsOk(q')
  {
    hide Admitted;
    if q.producer == Outside {
      AdmittedLater(q.called, q.answers, q'.called[|q.called|]);
    } else if |q.answers| < |q'.answers| {
      AdmittedMore(q.called, q.answers, q'.answers[|q.answers|]);
    }
  }

  lemma {:induction false} StoreSlotKeeps(q: Queue, q': Queue)
    requires Inv(q) && PushStoreSlot(q, q')
    ensures Inv(q')
  {
    hide CallsOk;
    CallsKept(q, q');
    WrappedDistance(|q.pushed|, q.headSeen);
    SlotOfCount(|q.pushed|);
    forall k | |q'.popped| <= k < |q'.pushed| ensures q'.slots[k % CAPACITY] == q'.pushed[k] {
      StoreSlotStep(q, q', k);
    }
  }

  lemma {:induction false} PushStep(q: Queue, q': Queue)
    requires Inv(q)
    requires (exists code: Byte :: PushLoadTail(q, code, q')) || PushLoadHead(q, q') || PushRefuse(q, q')
             || PushStoreSlot(q, q') || PushStoreTail(q, q')
    ensures Inv(q')
  {
    hide CallsOk;
    CallsKept(q, q');
    if PushStoreSlot(q, q') {
      StoreSlotKeeps(q, q');
    } else if q.producer.HeadLoaded? {
      WrappedDistance(|q.pushed|, q.headSeen);
    } else {
      SlotOfCount(|q.pushed|);
    }
  }

  lemma {:induction false} PopStep(q: Queue, q': Queue)
    requires Inv(q)
    requires PopLoadHead(q, q') || PopLoadTail(q, q') || PopEmpty(q, q') || PopLoadSlot(q, q') || PopStoreHead(q, q')
    ensures Inv(q')
  {
    SlotOfCount(|q.popped|);
    if q.consumer.TailRead? {
      WrappedDistance(q.tailSeen, |q.popped|);
    }
  }

  lemma {:induction false} InitOk(q: Queue)
    ensures Init(q) ==> Inv(q)
  {
  }

  /** Every reachable state of the queue, whatever the interleaving. */
  lemma {:induction false} Reachable(trace: seq<Queue>, n: nat)
    requires Run(trace) && n < |trace|
    ensures Inv(trace[n])
  {
    hide Counted, ProducerOk, ConsumerOk, AnswersOk, CallsOk;
    InitOk(trace[0]);
    if n > 0 {
      Reachable(trace, n - 1);
      var q, q' := trace[n - 1], trace[n - 1 + 1];
      assert Next(q, q');
      if q'.consumer == q.consumer && q'.lastPop == q.lastPop && q'.popped == q.popped && q'.tailSeen == q.tailSeen
         && q'.producer != q.producer
      {
        PushStep(q, q');
      } else {
        PopStep(q, q');
      }
    }
  }

  /** First in, first out, nothing lost and nothing invented; refused only when full, empty only
      when nothing is there. */
  lemma {:induction false} QueueIsFifo(trace: seq<Queue>, n: nat)
    requires Run(trace) && n < |trace|
    ensures trace[n].popped <= trace[n].pushed
    ensures |trace[n].answers| <= |trace[n].called| && trace[n].pushed == Admitted(trace[n].called, trace[n].answers)
    ensures trace[n].lastPush == Some(false) ==> |trace[n].pushed| - trace[n].headSeen == CAPACITY
    ensures trace[n].lastPush == Some(true) ==> 0 <= |trace[n].pushed| - 1 - trace[n].headSeen < CAPACITY
    ensures trace[n].lastPop == Some(None) ==> trace[n].tailSeen - |trace[n].popped| == 0
    ensures trace[n].lastPop.Some? && trace[n].lastPop.value.Some? ==>
              && 0 <= |trace[n].popped| - 1 < trace[n].tailSeen
              && trace[n].popped[|trace[n].popped| - 1] == trace[n].lastPop.value.value
  {
    Reachable(trace, n);
  }

  /** One push from its call to its answer, whatever the consumer does meanwhile: it answers, and on
      `true` exactly what it was called with has gone in, on `false` nothing has. */
  lemma {:induction false} PushAppends(trace: seq<Queue>, from: nat, n: nat, code: Byte)
    requires Run(trace) && from < n < |trace| && PushLoadTail(trace[from], code, trace[from + 1])
    requires forall k | from < k < n :: trace[k].producer != Outside
    ensures trace[n].called == trace[from].called + [code]
    ensures trace[n].producer != Outside ==> trace[n].producer.code == code && trace[n].pushed == trace[from].pushed
    ensures trace[n].producer == Outside ==>
              && trace[n].lastPush.Some?
              && trace[n].pushed == trace[from].pushed + if trace[n].lastPush.value then [code] else []
  {
    if n > from + 1 {
      PushAppends(trace, from, n - 1, code);
      assert Next(trace[n - 1], trace[n - 1 + 1]);
    }
  }

  /** One pop from its call to its answer, whatever the producer does meanwhile: it answers the next
      value that went in, which is then out, or that there was none. */
  lemma {:induction false} PopTakes(trace: seq<Queue>, from: nat, n: nat)
    requires Run(trace) && from < n < |trace| && PopLoadHead(trace[from], trace[from + 1])
    requires forall k | from < k < n :: trace[k].consumer != Away
    ensures trace[from].consumer == Away
    ensures trace[n].consumer != Away ==> trace[n].popped == trace[from].popped
    ensures trace[n].consumer == Away ==>
              && trace[n].lastPop.Some?
              && trace[n].popped
                 == trace[from].popped + if trace[n].lastPop.value.Some? then [trace[n].lastPop.value.value] else []
  {
    if n > from + 1 {
      PopTakes(trace, from, n - 1);
      assert Next(trace[n - 1], trace[n - 1 + 1]);
    }
  }

  /** Neither side ever waits for the other: a call can always begin when none is under way, and one
      that is can always take its next step, and is one step nearer its answer. */
  lemma {:induction false} NeverStuck(trace: seq<Queue>, n: nat, code: Byte)
    requires Run(trace) && n < |trace|
    ensures trace[n].producer == Outside ==> exists q' :: PushLoadTail(trace[n], code, q')
    ensures trace[n].consumer == Away ==> exists q' :: PopLoadHead(trace[n], q')
    ensures trace[n].producer != Outside ==>
              exists q' :: PushLoadHead(trace[n], q') || PushRefuse(trace[n], q') || PushStoreSlot(trace[n], q')
                           || PushStoreTail(trace[n], q')
    ensures trace[n].consumer != Away ==>
              exists q' :: PopLoadTail(trace[n], q') || PopEmpty(trace[n], q') || PopLoadSlot(trace[n], q')
                           || PopStoreHead(trace[n], q')
  {
    Reachable(trace, n);
    var q := trace[n];
    match q.producer {
      case Outside =>
        assert PushLoadTail(q, code, q.(producer := TailLoaded(q.tail, code), called := q.called + [code],
                                        lastPush := None));
      case TailLoaded(tail, held) =>
        assert PushLoadHead(q, q.(producer := HeadLoaded(tail, q.head, held), headSeen := |q.popped|));
      case HeadLoaded(tail, head, held) =>
        if WrappingSub(tail, head) == CAPACITY {
          assert PushRefuse(q, q.(producer := Outside, answers := q.answers + [false], lastPush := Some(false)));
        } else {
          assert PushStoreSlot(q, q.(slots := q.slots[tail % CAPACITY := held], producer := SlotStored(tail, held)));
        }
      case SlotStored(tail, held) =>
        assert PushStoreTail(q, q.(tail := (tail + 1) % WRAP, producer := Outside, pushed := q.pushed + [held],
                                   answers := q.answers + [true], lastPush := Some(true)));
    }
    match q.consumer {
      case Away => assert PopLoadHead(q, q.(consumer := HeadRead(q.head), lastPop := None));
      case HeadRead(head) => assert PopLoadTail(q, q.(consumer := TailRead(head, q.tail), tailSeen := |q.pushed|));
      case TailRead(head, tail) =>
        if head == tail {
          assert PopEmpty(q, q.(consumer := Away, lastPop := Some(None)));
        } else {
          assert PopLoadSlot(q, q.(consumer := SlotRead(head, q.slots[head % CAPACITY])));
        }
      case SlotRead(head, code) =>
        assert PopStoreHead(q, q.(head := (head + 1) % WRAP, consumer := Away, popped := q.popped + [code],
                                  lastPop := Some(Some(code))));
    }
  }

  /** A push never stores over a value that has not been read. */
  lemma {:induction false} NoUnreadOverwritten(trace: seq<Queue>, n: nat, k: nat)
    requires Run(trace) && n + 1 < |trace| && PushStoreSlot(trace[n], trace[n + 1])
    requires |trace[n].popped| <= k < |trace[n].pushed|
    ensures trace[n].producer.tail % CAPACITY != k % CAPACITY
    ensures trace[n + 1].slots[k % CAPACITY] == trace[n].pushed[k]
  {
    Reachable(trace, n);
    StoreSlotStep(trace[n], trace[n + 1], k);
  }
}
