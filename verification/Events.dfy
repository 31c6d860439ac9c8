/** The event ring and its line-preserving join, from kernel/src/events.rs. A line is an opaque
    string of bytes: its layout is not part of the model. */
module Events {
  import opened Bytes

  const EVENTS := 128
  const NEWLINE: Byte := 10

  // ---------------------------------------------------------------------
  // The ring
  // ---------------------------------------------------------------------

  /** The first line a flush should take, and how many there are. */
  function Unflushed(written: nat, flushed: nat, capacity: nat): (r: (nat, nat)) {
    var oldest := if written < capacity then 0 else written - capacity;
    var first := if flushed < oldest then oldest else flushed;
    (first, if written < first then 0 else written - first)
  }

  function Concat(lines: seq<seq<Byte>>): (text: seq<Byte>) {
    if lines == [] then [] else Concat(lines[..|lines| - 1]) + lines[|lines| - 1]
  }

  ghost predicate StrictlyRising(s: seq<nat>) {
    forall i, j | 0 <= i < j < |s| :: s[i] < s[j]
  }

  /** What the lines recorded so far, the line numbers copied out and the flush mark owe each
      other: out comes in order and once each, and a line behind the mark that never came out is
      one that `EVENTS` newer ones had buried. */
  ghost predicate Delivered(recorded: nat, flushed: nat, out: seq<nat>) {
    && flushed <= recorded
    && StrictlyRising(out)
    && (forall i | 0 <= i < |out| :: out[i] < flushed)
    && (forall k: nat | k < flushed && k !in out :: k + EVENTS < recorded)
  }

  ghost function Numbers(first: nat, count: nat): (s: seq<nat>)
    ensures |s| == count && forall i | 0 <= i < count :: s[i] == first + i
  {
    seq(count, i requires 0 <= i < count => first + i)
  }

  lemma {:induction false} FlushDelivers(recorded: nat, flushed: nat, out: seq<nat>, taken: nat)
    requires Delivered(recorded, flushed, out)
    requires taken <= Unflushed(recorded, flushed, EVENTS).1
    ensures var first := Unflushed(recorded, flushed, EVENTS).0;
      Delivered(recorded, first + taken, out + Numbers(first, taken))
  {
    var first := Unflushed(recorded, flushed, EVENTS).0;
    var out' := out + Numbers(first, taken);
    forall k: nat | first <= k < first + taken ensures k in out' {
      assert Numbers(first, taken)[k - first] == k;
    }
  }

  ghost function Picked(recorded: seq<seq<Byte>>, numbers: seq<nat>): (lines: seq<seq<Byte>>)
    requires forall i | 0 <= i < |numbers| :: numbers[i] < |recorded|
  {
    seq(|numbers|, i requires 0 <= i < |numbers| => recorded[numbers[i]])
  }

  lemma {:induction false} ConcatOneMore(recorded: seq<seq<Byte>>, first: nat, end: nat)
    requires first <= end < |recorded|
    ensures Concat(recorded[first..end + 1]) == Concat(recorded[first..end]) + recorded[end]
  {
    assert recorded[first..end + 1][..end - first] == recorded[first..end];
  }

  class Ring {
    var lines: array<seq<Byte>>
    var written: nat
    var flushed: nat
    /** Every line ever recorded, and the numbers of those copied out, in the order they went. */
    ghost var recorded: seq<seq<Byte>>
    ghost var out: seq<nat>

    ghost predicate Valid()
      reads this, lines
    {
      && lines.Length == EVENTS && written == |recorded|
      && (forall k: nat | k < written <= k + EVENTS :: lines[k % EVENTS] == recorded[k])
      && Delivered(|recorded|, flushed, out)
    }

    constructor ()
      ensures Valid() && fresh(lines) && recorded == [] && out == []
    {
      lines := new seq<Byte>[EVENTS](_ => []);
      written, flushed := 0, 0;
      recorded, out := [], [];
    }

    /** A line the ring still holds. */
    function Line(k: nat): (line: seq<Byte>)
      requires Valid() && k < written <= k + EVENTS
      reads this, lines
      ensures line == recorded[k]
    {
      lines[k % EVENTS]
    }

    /** All that ever came out, end to end, is `text`. */
    ghost predicate Said(text: seq<Byte>)
      requires Valid()
      reads this, lines
    {
      text == Concat(Picked(recorded, out))
    }

    method WriteLine(line: seq<Byte>)
      requires Valid()
      modifies this, lines
      ensures Valid() && lines == old(lines)
      ensures recorded == old(recorded) + [line] && out == old(out) && flushed == old(flushed)
      ensures forall text :: old(Said(text)) ==> Said(text)
    {
      ghost var were := recorded;
      var at := written % EVENTS;
      assert forall k: nat | k < written < k + EVENTS :: k % EVENTS != at;
      lines[at] := line;
      recorded := recorded + [line];
      written := written + 1;
      assert Picked(recorded, out) == Picked(were, out);
    }

    method CopyLines(first: nat, count: nat, into: array<Byte>) returns (at: nat, step: nat)
      requires Valid() && first + count == written && count <= EVENTS
      modifies into
      ensures Valid() && step <= count && at <= into.Length
      ensures into[..at] == Concat(recorded[first..first + step]) && into[at..] == old(into[at..])
      ensures step < count ==> at + |recorded[first + step]| > into.Length
    {
      assert Concat([]) == [];
      hide Concat, Delivered;
      at, step := 0, 0;
      while step < count
        invariant Valid() && step <= count && at <= into.Length
        invariant into[..at] == Concat(recorded[first..first + step])
        invariant into[at..] == old(into[at..])
      {
        var line := Line(first + step);
        if at + |line| > into.Length { break; }
        ConcatOneMore(recorded, first, first + step);
        Paste(into, at, line);
        at := at + |line|;
        step := step + 1;
      }
    }

    /** Copies out, oldest first, as many whole lines as fit: exactly the next ones, and it stops
        only where there is none left or the next does not fit. */
    method CopyInto(into: array<Byte>) returns (at: nat, ghost taken: nat)
      requires Valid()
      modifies this, into
      ensures Valid() && lines == old(lines) && recorded == old(recorded) && written == old(written)
      ensures at <= into.Length && into[at..] == old(into[at..])
      ensures var first := Unflushed(|recorded|, old(flushed), EVENTS).0;
        && flushed == first + taken <= |recorded|
        && out == old(out) + Numbers(first, taken)
        && into[..at] == Concat(recorded[first..flushed])
        && (flushed < |recorded| ==> at + |recorded[flushed]| > into.Length)
      ensures forall text :: old(Said(text)) ==> Said(text + into[..at])
    {
      hide Concat;
      var (first, count) := Unflushed(written, flushed, EVENTS);
      var step;
      at, step := CopyLines(first, count, into);
      taken := step;
      FlushDelivers(|recorded|, flushed, out, taken);
      PickedMore(recorded, out, first, taken);
      out := out + Numbers(first, taken);
      flushed := first + step;
    }
  }

  /** `into[at..at + len].copy_from_slice(bytes)`. */
  method Paste(into: array<Byte>, at: nat, bytes: seq<Byte>)
    requires at + |bytes| <= into.Length
    modifies into
    ensures into[..at] == old(into[..at]) && into[at..at + |bytes|] == bytes
    ensures into[..at + |bytes|] == old(into[..at]) + bytes
    ensures into[at + |bytes|..] == old(into[at + |bytes|..])
    ensures forall i | at + |bytes| <= i < into.Length :: into[i] == old(into[i])
  {
    forall i | at <= i < at + |bytes| { into[i] := bytes[i - at]; }
  }

  // ---------------------------------------------------------------------
  // A boot: any records and flushes, with any buffer sizes
  // ---------------------------------------------------------------------

  datatype Operation = Record(line: seq<Byte>) | Flush(room: nat)

  ghost function Recorded(operations: seq<Operation>): (lines: seq<seq<Byte>>) {
    if operations == [] then []
    else
      var rest := Recorded(operations[..|operations| - 1]);
      match operations[|operations| - 1]
      case Record(line) => rest + [line]
      case Flush(_) => rest
  }

  lemma {:induction false} ConcatAppend(a: seq<seq<Byte>>, b: seq<seq<Byte>>)
    ensures Concat(a + b) == Concat(a) + Concat(b)
  {
    if b == [] {
      assert a + b == a;
    } else {
      var front := b[..|b| - 1];
      ConcatAppend(a, front);
      assert (a + b)[..|a + b| - 1] == a + front;
    }
  }

  lemma {:induction false} PickedMore(recorded: seq<seq<Byte>>, out: seq<nat>, first: nat, taken: nat)
    requires forall i | 0 <= i < |out| :: out[i] < |recorded|
    requires first + taken <= |recorded|
    ensures Concat(Picked(recorded, out + Numbers(first, taken)))
            == Concat(Picked(recorded, out)) + Concat(recorded[first..first + taken])
  {
    var numbers := Numbers(first, taken);
    assert Picked(recorded, numbers) == recorded[first..first + taken];
    assert Picked(recorded, out + numbers) == Picked(recorded, out) + Picked(recorded, numbers);
    ConcatAppend(Picked(recorded, out), Picked(recorded, numbers));
  }

  /** Over any sequence of records and flushes: what came out, end to end, is lines that were
      recorded, each at most once and in order; a line the flush mark has passed was missed only
      if more than `EVENTS` lines had been recorded from it on. */
  method Session(operations: seq<Operation>) returns (text: seq<Byte>, flushed: nat)
    ensures exists out: seq<nat> ::
              Delivered(|Recorded(operations)|, flushed, out) && text == Concat(Picked(Recorded(operations), out))
  {
    assert Recorded(operations[..0]) == [] && Concat([]) == [];
    hide Concat, Delivered;
    var ring := new Ring();
    text := [];
    for n := 0 to |operations|
      invariant ring.Valid() && fresh(ring) && fresh(ring.lines)
      invariant ring.recorded == Recorded(operations[..n])
      invariant ring.Said(text)
    {
      assert operations[..n + 1][..n] == operations[..n];
      match operations[n] {
        case Record(line) => ring.WriteLine(line);
        case Flush(room) =>
          var into := new Byte[room];
          ghost var taken;
          var at;
          at, taken := ring.CopyInto(into);
          text := text + into[..at];
      }
    }
    assert operations[..|operations|] == operations;
    flushed := ring.flushed;
    ghost var out := ring.out;
    assert Delivered(|Recorded(operations)|, flushed, out) && text == Concat(Picked(Recorded(operations), out));
  }

  // ---------------------------------------------------------------------
  // Joining the log on the disk with what is new
  // ---------------------------------------------------------------------

  ghost predicate LineStart(text: seq<Byte>, at: nat) {
    at <= |text| && (at == 0 || text[at - 1] == NEWLINE)
  }

  ghost predicate WholeLines(text: seq<Byte>) {
    LineStart(text, |text|)
  }

  /** `text[cut..]` is the longest suffix that starts where a line starts and fits in `room`. */
  ghost predicate LongestCut(text: seq<Byte>, room: nat, cut: nat) {
    && cut <= |text| <= cut + room && LineStart(text, cut)
    && forall at: nat | LineStart(text, at) && |text| - at <= room :: cut <= at
  }

  ghost predicate LongestSuffix(text: seq<Byte>, room: nat, kept: seq<Byte>) {
    exists cut: nat :: LongestCut(text, room, cut) && kept == text[cut..]
  }

  /** Where the first newline at or after `from` is, or the length of the text. */
  function NextNewline(text: seq<Byte>, from: nat): (at: nat)
    requires from <= |text|
    ensures from <= at <= |text|
    ensures at < |text| ==> text[at] == NEWLINE
    ensures forall i | from <= i < at :: text[i] != NEWLINE
    decreases |text| - from
  {
    if from == |text| || text[from] == NEWLINE then from else NextNewline(text, from + 1)
  }

  /** Where the newest whole lines that fit in `room` start. */
  function NewestFrom(text: seq<Byte>, room: nat): (from: nat)
    ensures from <= |text| && |text| - from <= room
  {
    if |text| <= room then 0
    else
      var cut := |text| - room;
      if cut == 0 || text[cut - 1] == NEWLINE then cut
      else
        var at := NextNewline(text, cut);
        if at < |text| then at + 1 else |text|
  }

  function NewestWholeLines(text: seq<Byte>, room: nat): (kept: seq<Byte>)
    ensures |kept| <= room
  {
    text[NewestFrom(text, room)..]
  }

  function Joined(past: seq<Byte>, news: seq<Byte>, limit: nat): (text: seq<Byte>)
    ensures |text| <= limit
  {
    var newKept := NewestWholeLines(news, limit);
    NewestWholeLines(past, limit - |newKept|) + newKept
  }

  method Join(past: seq<Byte>, news: seq<Byte>, limit: nat, into: array<Byte>) returns (len: nat)
    modifies into
    ensures len <= into.Length && len <= limit && into[len..] == old(into[len..])
    ensures var most := if limit < into.Length then limit else into.Length;
      && into[..len] == Joined(past, news, most)
      && (|news| <= most && WholeLines(past) ==> LongestSuffix(past + news, most, into[..len]))
  {
    hide NewestWholeLines, WholeLines, LongestSuffix;
    var most := if limit < into.Length then limit else into.Length;
    var newKept := NewestWholeLines(news, most);
    var oldKept := NewestWholeLines(past, most - |newKept|);
    Paste(into, 0, oldKept);
    Paste(into, |oldKept|, newKept);
    len := |oldKept| + |newKept|;
    if |news| <= most && WholeLines(past) { JoinIsLongest(past, news, most); }
  }

  /** Of whole lines it keeps the longest suffix of whole lines that fits. */
  lemma {:induction false} NewestIsLongest(text: seq<Byte>, room: nat)
    requires WholeLines(text) || |text| <= room
    ensures LongestCut(text, room, NewestFrom(text, room))
  {
    var from := NewestFrom(text, room);
    assert LineStart(text, from);
    forall at: nat | LineStart(text, at) && |text| - at <= room ensures from <= at {
      assert at == 0 || text[at - 1] == NEWLINE;
    }
  }

  /** Line starts of two texts end to end, when the first is whole lines. */
  lemma {:induction false} StartsAcross(a: seq<Byte>, b: seq<Byte>, at: nat)
    requires WholeLines(a) && at <= |a| + |b|
    ensures at <= |a| ==> (LineStart(a + b, at) <==> LineStart(a, at))
    ensures at >= |a| ==> (LineStart(a + b, at) <==> LineStart(b, at - |a|))
  {
    if at > |a| {
      assert (a + b)[at - 1] == b[at - |a| - 1];
    } else if 0 < at {
      assert (a + b)[at - 1] == a[at - 1];
    }
  }

  /** The longest cut of two texts end to end is in the second when that alone does not fit. */
  lemma {:induction false} CutAcross(a: seq<Byte>, b: seq<Byte>, room: nat, cut: nat)
    requires WholeLines(a)
    requires if |b| <= room then LongestCut(a, room - |b|, cut) else cut >= |a| && LongestCut(b, room, cut - |a|)
    ensures LongestCut(a + b, room, cut)
  {
    StartsAcross(a, b, cut);
    StartsAcross(a, b, |a|);
    hide LineStart, WholeLines;
    forall at: nat | LineStart(a + b, at) && |a + b| - at <= room ensures cut <= at {
      StartBound(a + b, at);
      StartsAcross(a, b, at);
    }
  }

  lemma {:induction false} StartBound(text: seq<Byte>, at: nat)
    requires LineStart(text, at)
    ensures at <= |text|
  {
  }

  /** When the new text fits and the old one is empty or ends in a newline, joining keeps the
      longest suffix of the two that starts at a line start and fits. */
  lemma {:induction false} JoinIsLongest(past: seq<Byte>, news: seq<Byte>, limit: nat)
    requires |news| <= limit && WholeLines(past)
    ensures LongestSuffix(past + news, limit, Joined(past, news, limit))
  {
    hide LongestCut, WholeLines;
    var cut := NewestFrom(past, limit - |news|);
    NewestIsLongest(past, limit - |news|);
    CutAcross(past, news, limit, cut);
    assert news[0..] == news;
    assert past[cut..] + news == (past + news)[cut..];
  }

  lemma {:induction false} LongestIsUnique(text: seq<Byte>, room: nat, a: seq<Byte>, b: seq<Byte>)
    requires LongestSuffix(text, room, a) && LongestSuffix(text, room, b)
    ensures a == b
  {
    hide LineStart;
    var x: nat :| LongestCut(text, room, x) && a == text[x..];
    var y: nat :| LongestCut(text, room, y) && b == text[y..];
  }

  ghost predicate NoLineFits(text: seq<Byte>, room: nat) {
    forall at: nat | LineStart(text, at) && at < |text| :: |text| - at > room
  }

  lemma {:induction false} NothingKept(text: seq<Byte>, room: nat)
    requires WholeLines(text)
    ensures NewestWholeLines(text, room) == [] <==> NoLineFits(text, room)
  {
    NewestIsLongest(text, room);
    hide LineStart;
  }

  /** For texts of whole lines the promise holds exactly when the new text fits, or no line of the
      old one fits in what the new one's newest lines leave. */
  lemma {:induction false} JoinIsLongestExactly(past: seq<Byte>, news: seq<Byte>, limit: nat)
    requires WholeLines(past) && WholeLines(news)
    ensures LongestSuffix(past + news, limit, Joined(past, news, limit)) <==>
      |news| <= limit || NoLineFits(past, limit - |NewestWholeLines(news, limit)|)
  {
    if |news| <= limit {
      JoinIsLongest(past, news, limit);
    } else {
      NewestIsLongest(news, limit);
      var newKept := NewestWholeLines(news, limit);
      NothingKept(past, limit - |newKept|);
      var from := NewestFrom(news, limit);
      CutAcross(past, news, limit, |past| + from);
      hide LineStart, LongestCut, NoLineFits, NewestFrom;
      assert newKept == (past + news)[|past| + from..];
      var oldKept := NewestWholeLines(past, limit - |newKept|);
      if LongestSuffix(past + news, limit, oldKept + newKept) {
        LongestIsUnique(past + news, limit, oldKept + newKept, newKept);
      }
    }
  }

  /** Old "a", new "bbb", three bytes of room: the old line is kept after the newer is dropped. */
  lemma {:induction false} JoinMayKeepAnOlderLine()
    ensures var past, news := [97, NEWLINE], [98, 98, 98, NEWLINE];
      && Joined(past, news, 3) == past && !LongestSuffix(past + news, 3, Joined(past, news, 3))
  {
    var past: seq<Byte>, news: seq<Byte> := [97, NEWLINE], [98, 98, 98, NEWLINE];
    assert NextNewline(news, 3) == 3;
    assert NextNewline(news, 2) == 3;
    assert NextNewline(news, 1) == 3;
    assert NewestWholeLines(news, 3) == [];
    assert LineStart(past, 0);
    JoinIsLongestExactly(past, news, 3);
  }

  /** The log on the disk after these boots, each joining what it has to say to what was there. */
  function LogAfter(boots: seq<seq<Byte>>, limit: nat): (log: seq<Byte>)
    ensures |log| <= limit
  {
    if boots == [] then [] else Joined(LogAfter(boots[..|boots| - 1], limit), boots[|boots| - 1], limit)
  }

  lemma {:induction false} ConcatWhole(texts: seq<seq<Byte>>)
    requires forall i | 0 <= i < |texts| :: WholeLines(texts[i])
    ensures WholeLines(Concat(texts))
  {
    if texts != [] { ConcatWhole(texts[..|texts| - 1]); }
  }

  /** Over any number of boots whose news fit, the log is the newest whole lines of everything
      any boot ever said. */
  lemma {:induction false} LogIsNewestOfEverything(boots: seq<seq<Byte>>, limit: nat)
    requires forall i | 0 <= i < |boots| :: |boots[i]| <= limit && WholeLines(boots[i])
    ensures LongestSuffix(Concat(boots), limit, LogAfter(boots, limit)) && WholeLines(LogAfter(boots, limit))
  {
    if boots == [] {
      assert LongestCut([], limit, 0);
    } else {
      var rest, news := boots[..|boots| - 1], boots[|boots| - 1];
      LogIsNewestOfEverything(rest, limit);
      ConcatWhole(rest);
      hide LongestSuffix, WholeLines;
      LongestAbsorbs(Concat(rest), LogAfter(rest, limit), news, limit);
    }
  }

  /** A whole text's suffix from a line start is whole. */
  lemma {:induction false} WholeFrom(text: seq<Byte>, from: nat)
    requires WholeLines(text) && LineStart(text, from)
    ensures WholeLines(text[from..]) && WholeLines(text[..from])
  {
  }

  lemma {:induction false} WholeJoined(a: seq<Byte>, b: seq<Byte>)
    requires WholeLines(a) && WholeLines(b)
    ensures WholeLines(a + b)
  {
  }

  /** Joining onto the newest lines of a text is joining onto the text. */
  lemma {:induction false} LongestAbsorbs(text: seq<Byte>, log: seq<Byte>, news: seq<Byte>, limit: nat)
    requires WholeLines(text) && WholeLines(log) && WholeLines(news) && |news| <= limit
    requires LongestSuffix(text, limit, log)
    ensures LongestSuffix(text + news, limit, Joined(log, news, limit)) && WholeLines(Joined(log, news, limit))
  {
    hide LineStart, WholeLines, Joined;
    var from: nat :| LongestCut(text, limit, from) && log == text[from..];
    JoinIsLongest(log, news, limit);
    var both, all := log + news, text + news;
    var joined := Joined(log, news, limit);
    var cut: nat :| LongestCut(both, limit, cut) && joined == both[cut..];
    StartBound(text, from);
    StartBound(both, cut);
    WholeJoined(log, news);
    WholeFrom(both, cut);
    assert both == all[from..];
    assert joined == all[from + cut..];
    CutBelow(text, from, news, limit, cut);
  }

  lemma {:induction false} CutBelow(text: seq<Byte>, from: nat, news: seq<Byte>, limit: nat, cut: nat)
    requires WholeLines(text) && from <= |text| && LongestCut(text, limit, from)
    requires LongestCut(text[from..] + news, limit, cut)
    ensures LongestCut(text + news, limit, from + cut)
  {
    hide LineStart, WholeLines;
    var front, both := text[..from], text[from..] + news;
    WholeFrom(text, from);
    assert text + news == front + both;
    StartBound(both, cut);
    StartsAcross(front, both, from + cut);
    forall at: nat | LineStart(text + news, at) && |text + news| - at <= limit ensures from + cut <= at {
      StartBound(text + news, at);
      StartsAcross(front, both, at);
      if at < from { StartsAcross(text, news, at); }
    }
  }
}
