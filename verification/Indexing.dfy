/** The block scanner: a tick loop that walks from the last indexed block to the chain tip. */
module Indexing {
  import opened Events

  const MAX_UINT64: nat := 0xFFFF_FFFF_FFFF_FFFF

  type BlockHeight = h: nat | h <= MAX_UINT64

  datatype Message = Message(height: nat, events: seq<BlockchainEvent>)

  /** Where Run stands: between ticks, before publishing a height, between publishing and saving it, or ended. */
  datatype Point = Waiting | Scanning(next: nat, tip: nat) | Saving(height: nat, tip: nat) | Ended

  /** handed: everything Publish has accepted so far; sent: what of it went on the connection. */
  datatype Progress = Progress(last: nat, at: Point, handed: seq<Message>, sent: seq<Message>)

  /** Answer to a query for the chain tip. */
  datatype Answer = Height(block: nat) | Unanswered

  /** Tick carries the answers to its tip queries; the second one is only asked while nothing is indexed.
      Publish carries the block's events and whether the connection would take a message. */
  datatype Step = Tick(first: Answer, second: Answer) | Publish(answer: Fetch, sends: bool) | Save | Stop

  function Initial(startingBlock: nat): Progress {
    Progress(startingBlock, Waiting, [], [])
  }

  /** One step; a step that is not due changes nothing. */
  function Next(x: Progress, step: Step): Progress {
    match step
    case Tick(first, second) =>
      if x.at != Waiting then x
      else if first.Unanswered? then x.(at := Ended)
      else
        var last := if x.last == 0 then first.block else x.last;
        var tip := if x.last == 0 then second else first;
        x.(last := last,
           at := if tip.Unanswered? then Ended else if last < tip.block then Scanning(last + 1, tip.block) else Waiting)
    case Publish(answer, sends) =>
      if !x.at.Scanning? then x
      else if !answer.Fetched? || (answer.events != [] && !sends) then x.(at := Ended)
      else
        var m := Message(x.at.next, answer.events);
        x.(handed := x.handed + [m], sent := x.sent + NonEmpty([m]), at := Saving(x.at.next, x.at.tip))
    case Save =>
      if !x.at.Saving? then x
      else x.(last := x.at.height, at := if x.at.height < x.at.tip then Scanning(x.at.height + 1, x.at.tip) else Waiting)
    case Stop => x.(at := Ended)
  }

  function After(x: Progress, steps: seq<Step>): Progress {
    if steps == [] then x else Next(After(x, steps[..|steps| - 1]), steps[|steps| - 1])
  }

  /** Publish skips blocks without events. */
  function NonEmpty(messages: seq<Message>): seq<Message> {
    if messages == [] then []
    else
      var last := messages[|messages| - 1];
      NonEmpty(messages[..|messages| - 1]) + (if last.events == [] then [] else [last])
  }

  lemma NonEmptyAppend(messages: seq<Message>, m: Message)
    ensures NonEmpty(messages + [m]) == NonEmpty(messages) + NonEmpty([m])
  {
    assert (messages + [m])[..|messages|] == messages && [m][..0] == [];
  }

  // ---- gap-free indexing ----

  /** The height before the first one handed to Publish. */
  function Base(x: Progress): int {
    if x.handed == [] then x.last else x.handed[0].height - 1
  }

  /** The last height handed to Publish, or the starting point while there is none. */
  function Reached(x: Progress): int {
    Base(x) + |x.handed|
  }

  predicate Consecutive(messages: seq<Message>) {
    && (messages != [] ==> messages[0].height >= 1)
    && forall k :: 0 <= k < |messages| ==> messages[k].height == messages[0].height + k
  }

  predicate GapFree(x: Progress) {
    && Consecutive(x.handed)
    && x.sent == NonEmpty(x.handed)
    && match x.at
       case Waiting => x.last == Reached(x)
       case Scanning(next, tip) => x.last == Reached(x) && next == x.last + 1 && next <= tip
       case Saving(height, tip) => x.handed != [] && height == Reached(x) == x.last + 1 && height <= tip
       case Ended => x.last == Reached(x) || (x.handed != [] && x.last + 1 == Reached(x))
  }

  lemma GapFreeStep(x: Progress, step: Step)
    requires GapFree(x)
    ensures GapFree(Next(x, step))
  {
    hide NonEmpty;
    if step.Publish? && x.at.Scanning? && step.answer.Fetched? {
      NonEmptyAppend(x.handed, Message(x.at.next, step.answer.events));
    }
  }

  lemma InitialIsGapFree(startingBlock: nat)
    ensures GapFree(Initial(startingBlock))
  {
  }

  lemma {:induction false} GapFreeRun(x: Progress, steps: seq<Step>)
    requires GapFree(x)
    ensures GapFree(After(x, steps))
  {
    hide Next, GapFree;
    if steps != [] {
      GapFreeRun(x, steps[..|steps| - 1]);
      GapFreeStep(After(x, steps[..|steps| - 1]), steps[|steps| - 1]);
    }
  }

  /** The height a run starts after, read off its inputs alone: the starting block if it is not zero, and
      otherwise the first answer of the first tick whose two answers are not both zero. A run that cannot ask
      for the tip, or is stopped before, stays at zero. */
  function StartHeight(startingBlock: nat, steps: seq<Step>): nat
    decreases |steps|
  {
    if startingBlock != 0 || steps == [] then startingBlock
    else match steps[0]
      case Tick(Height(first), second) =>
        if first == 0 && second == Height(0) then StartHeight(0, steps[1..]) else first
      case Tick(Unanswered, _) => 0
      case Stop => 0
      case _ => StartHeight(0, steps[1..])
  }

  /** From here on the height after which the run started is fixed. */
  predicate Anchored(x: Progress) {
    x.last != 0 || x.at != Waiting
  }

  lemma AnchoredStep(x: Progress, step: Step)
    requires GapFree(x) && Anchored(x)
    ensures Anchored(Next(x, step)) && Base(Next(x, step)) == Base(x)
    ensures Next(x, step).last >= x.last
  {
    hide NonEmpty;
  }

  lemma {:induction false} AnchoredRun(x: Progress, steps: seq<Step>)
    requires GapFree(x) && Anchored(x)
    ensures Base(After(x, steps)) == Base(x) && Anchored(After(x, steps)) && After(x, steps).last >= x.last
  {
    hide Next, GapFree, Base, Anchored;
    if steps != [] {
      var init := steps[..|steps| - 1];
      AnchoredRun(x, init);
      GapFreeRun(x, init);
      AnchoredStep(After(x, init), steps[|steps| - 1]);
    }
  }

  lemma {:induction false} AfterFirst(x: Progress, steps: seq<Step>)
    requires steps != []
    ensures After(x, steps) == After(Next(x, steps[0]), steps[1..])
  {
    hide Next;
    var init := steps[..|steps| - 1];
    if init == [] {
      assert After(x, []) == x && After(Next(x, steps[0]), []) == Next(x, steps[0]);
    } else {
      AfterFirst(x, init);
      assert steps[1..][..|steps| - 2] == init[1..];
    }
  }

  lemma {:induction false} BaseIsStart(startingBlock: nat, steps: seq<Step>)
    ensures Base(After(Initial(startingBlock), steps)) == StartHeight(startingBlock, steps)
    decreases |steps|
  {
    hide NonEmpty, After;
    var x := Initial(startingBlock);
    InitialIsGapFree(startingBlock);
    if steps == [] {
      NothingRun(x);
    } else {
      AfterFirst(x, steps);
      var y := Next(x, steps[0]);
      GapFreeStep(x, steps[0]);
      if Anchored(x) {
        AnchoredRun(x, steps);
      } else if Anchored(y) {
        AnchoredRun(y, steps[1..]);
      } else {
        BaseIsStart(startingBlock, steps[1..]);
      }
    }
  }

  lemma NothingRun(x: Progress)
    ensures After(x, []) == x
  {
  }

  /** For every sequence of steps, whatever tips are answered and wherever it stops: the heights handed to
      Publish are start + 1, start + 2, ..., each once and in order, up to the last indexed block or one
      beyond it, and sent are those of them with events. A non-zero starting block is the start itself. */
  lemma IndexingIsGapFree(startingBlock: nat, steps: seq<Step>)
    ensures GapFree(After(Initial(startingBlock), steps))
    ensures var x, start := After(Initial(startingBlock), steps), StartHeight(startingBlock, steps);
            && (startingBlock != 0 ==> start == startingBlock && x.last >= startingBlock)
            && (forall k :: 0 <= k < |x.handed| ==> x.handed[k].height == start + 1 + k)
            && (x.last == start + |x.handed| || x.last + 1 == start + |x.handed|)
            && x.sent == NonEmpty(x.handed)
  {
    hide Next, After, NonEmpty, StartHeight;
    InitialIsGapFree(startingBlock);
    GapFreeRun(Initial(startingBlock), steps);
    BaseIsStart(startingBlock, steps);
    NoStart(startingBlock, steps);
    if startingBlock != 0 {
      AnchoredRun(Initial(startingBlock), steps);
    }
  }

  lemma NoStart(startingBlock: nat, steps: seq<Step>)
    ensures startingBlock != 0 ==> StartHeight(startingBlock, steps) == startingBlock
  {
  }

  lemma Grows(x: Progress, step: Step)
    ensures x.handed <= Next(x, step).handed && x.sent <= Next(x, step).sent
  {
    hide NonEmpty;
  }

  /** Over any run the last indexed block, once it is not zero, never falls, and what was handed on or sent
      is never taken back. */
  lemma {:induction false} LastNeverFalls(x: Progress, steps: seq<Step>, n: nat)
    requires GapFree(x) && n <= |steps|
    ensures var y, z := After(x, steps[..n]), After(x, steps);
            && (y.last != 0 ==> z.last >= y.last)
            && y.handed <= z.handed && y.sent <= z.sent
            && (y.handed != [] ==> Base(z) == Base(y))
  {
    hide Next, GapFree;
    if n == |steps| {
      assert steps[..n] == steps;
    } else {
      var init := steps[..|steps| - 1];
      assert init[..n] == steps[..n];
      LastNeverFalls(x, init, n);
      GapFreeRun(x, init);
      Grows(After(x, init), steps[|steps| - 1]);
      if After(x, init).last != 0 {
        AnchoredStep(After(x, init), steps[|steps| - 1]);
      }
    }
  }

  // ---- the service ----

  class ProgressRepo {
    var lastIndexedBlock: BlockHeight

    constructor (startingBlock: BlockHeight)
      ensures lastIndexedBlock == startingBlock
    {
      lastIndexedBlock := startingBlock;
    }

    method GetLastIndexedBlock() returns (block: BlockHeight)
      ensures block == lastIndexedBlock
    {
      block := lastIndexedBlock;
    }

    method SetLastIndexedBlock(block: BlockHeight)
      modifies this
      ensures lastIndexedBlock == block
    {
      lastIndexedBlock := block;
    }
  }

  class Publisher {
    var connection: seq<Message>

    constructor ()
      ensures connection == []
    {
      connection := [];
    }

    /** sends: whether the message can be marshalled and the connection takes it. */
    method PublishMessage(m: Message, sends: bool) returns (ok: bool)
      modifies this
      ensures ok <==> m.events == [] || sends
      ensures connection == if ok then old(connection) + NonEmpty([m]) else old(connection)
    {
      assert [m][..0] == [];
      if |m.events| == 0 { return true; }
      if !sends { return false; }
      connection := connection + [m];
      return true;
    }
  }

  /** What the protocol service answers and the connection does for each height. */
  datatype Outside = Outside(fetch: nat -> Fetch, sends: nat -> bool)

  predicate Answers(x: Progress, step: Step, o: Outside) {
    step.Publish? && x.at.Scanning? ==> step.answer == o.fetch(x.at.next) && step.sends == o.sends(x.at.next)
  }

  /** These steps were given the answers from outside. */
  ghost predicate Follows(x: Progress, steps: seq<Step>, o: Outside) {
    steps == []
    || (Follows(x, steps[..|steps| - 1], o) && Answers(After(x, steps[..|steps| - 1]), steps[|steps| - 1], o))
  }

  /** The ticks among these steps. */
  ghost function Ticks(steps: seq<Step>): seq<(Answer, Answer)> {
    if steps == [] then []
    else
      var last := steps[|steps| - 1];
      Ticks(steps[..|steps| - 1]) + (if last.Tick? then [(last.first, last.second)] else [])
  }

  // ---- how a run of ticks must end ----

  /** The block at this height can be fetched, and sent if it has events. */
  predicate Deliverable(o: Outside, h: nat) {
    o.fetch(h).Fetched? && (o.fetch(h).events == [] || o.sends(h))
  }

  /** The tip a tick works with; the first answer replaces a zero. */
  function TipAnswer(last: nat, t: (Answer, Answer)): Answer {
    if last == 0 then t.1 else t.0
  }

  predicate Answered(last: nat, t: (Answer, Answer)) {
    t.0.Height? && TipAnswer(last, t).Height?
  }

  /** Where a tick starts to scan after. */
  function ScanAfter(last: nat, t: (Answer, Answer)): nat
    requires Answered(last, t)
  {
    if last == 0 then t.0.block else last
  }

  /** The last indexed block when every one of these ticks succeeds: the highest of the start and the tips. */
  function Highest(last: nat, ticks: seq<(Answer, Answer)>): nat {
    if ticks == [] then last
    else
      var before, t := Highest(last, ticks[..|ticks| - 1]), ticks[|ticks| - 1];
      if !Answered(before, t) then before
      else if ScanAfter(before, t) < TipAnswer(before, t).block then TipAnswer(before, t).block
      else ScanAfter(before, t)
  }

  /** Every tip asked for is answered, and every height up to it is delivered. */
  ghost predicate Succeeds(last: nat, ticks: seq<(Answer, Answer)>, o: Outside) {
    ticks == []
    || var before, t := Highest(last, ticks[..|ticks| - 1]), ticks[|ticks| - 1];
       && Succeeds(last, ticks[..|ticks| - 1], o)
       && Answered(before, t)
       && forall h :: ScanAfter(before, t) < h <= TipAnswer(before, t).block ==> Deliverable(o, h)
  }

  lemma {:induction false} SucceedsBefore(last: nat, ticks: seq<(Answer, Answer)>, o: Outside, n: nat)
    requires n <= |ticks| && Succeeds(last, ticks, o)
    ensures Succeeds(last, ticks[..n], o)
  {
    hide Deliverable;
    if n == |ticks| {
      assert ticks[..n] == ticks;
    } else {
      var init := ticks[..|ticks| - 1];
      assert init[..n] == ticks[..n];
      SucceedsBefore(last, init, o, n);
    }
  }

  /** From a starting block other than zero: the highest of the start and the tips is one of them, none is higher,
      and a run succeeds if and only if every tip is answered and every height up to the highest is delivered. */
  lemma {:induction false} SucceedsExactly(start: nat, ticks: seq<(Answer, Answer)>, o: Outside)
    requires start != 0
    ensures var top := Highest(start, ticks);
            && top >= start
            && (forall t :: t in ticks && t.0.Height? ==> t.0.block <= top)
            && (top == start || exists t :: t in ticks && t.0 == Height(top))
            && (Succeeds(start, ticks, o) <==>
                  (forall t :: t in ticks ==> t.0.Height?) && forall h :: start < h <= top ==> Deliverable(o, h))
  {
    hide Deliverable;
    if ticks != [] {
      var init, last := ticks[..|ticks| - 1], ticks[|ticks| - 1];
      assert ticks == init + [last];
      SucceedsExactly(start, init, o);
      assert last in ticks;
      if Highest(start, init) != start {
        var t :| t in init && t.0 == Height(Highest(start, init));
        assert t in ticks;
      }
    }
  }

  class Indexer {
    const repo: ProgressRepo
    const publisher: Publisher
    ghost var at: Point
    ghost var handed: seq<Message>

    constructor (repo: ProgressRepo, publisher: Publisher)
      ensures this.repo == repo && this.publisher == publisher && at == Waiting && handed == []
    {
      this.repo := repo;
      this.publisher := publisher;
      at := Waiting;
      handed := [];
    }

    ghost function State(): Progress
      reads this, repo, publisher
    {
      Progress(repo.lastIndexedBlock, at, handed, publisher.connection)
    }

    /** getLastIndexedBlock: zero means "not started" and is replaced by the tip. */
    method LastIndexedOrTip(first: Answer) returns (last: BlockHeight, asked: bool, failed: bool)
      requires first.Height? ==> first.block <= MAX_UINT64
      modifies repo
      ensures asked <==> old(repo.lastIndexedBlock) == 0
      ensures failed <==> asked && first.Unanswered?
      ensures repo.lastIndexedBlock == if asked && !failed then first.block else old(repo.lastIndexedBlock)
      ensures last == repo.lastIndexedBlock
    {
      last := repo.GetLastIndexedBlock();
      asked, failed := false, false;
      if last == 0 {
        if first.Unanswered? { return 0, true, true; }
        repo.SetLastIndexedBlock(first.block);
        return first.block, true, false;
      }
    }

    /** One pass of the height loop: fetch, publish, save. */
    method IndexBlock(o: Outside, i: BlockHeight, tip: BlockHeight, ghost start: Progress, ghost steps: seq<Step>)
      returns (failed: bool, ghost longer: seq<Step>)
      requires at == Scanning(i, tip) && State() == After(start, steps) && Follows(start, steps, o)
      modifies this, repo, publisher
      ensures failed <==> !o.fetch(i).Fetched? || (o.fetch(i).events != [] && !o.sends(i))
      ensures !failed ==> repo.lastIndexedBlock == i
      ensures failed ==> repo.lastIndexedBlock == old(repo.lastIndexedBlock)
      ensures publisher.connection == old(publisher.connection)
                                      + if failed || o.fetch(i).events == [] then [] else [Message(i, o.fetch(i).events)]
      ensures State() == After(start, longer) && Follows(start, longer, o) && Ticks(longer) == Ticks(steps)
      ensures at == if failed then Ended else if i < tip then Scanning(i + 1, tip) else Waiting
    {
      hide NonEmpty, After, Follows, Ticks;
      OneMessage(Message(i, if o.fetch(i).Fetched? then o.fetch(i).events else []));
      var block := o.fetch(i);
      StepAppend(start, steps, Publish(block, o.sends(i)), o);
      longer := steps + [Publish(block, o.sends(i))];
      assert Ticks(steps) + [] == Ticks(steps);
      if !block.Fetched? {
        at := Ended;
        return true, longer;
      }
      var ok := publisher.PublishMessage(Message(i, block.events), o.sends(i));
      if !ok {
        at := Ended;
        return true, longer;
      }
      handed := handed + [Message(i, block.events)];
      at := Saving(i, tip);
      StepAppend(start, longer, Save, o);
      longer := longer + [Save];
      repo.SetLastIndexedBlock(i);
      at := if i < tip then Scanning(i + 1, tip) else Waiting;
      failed := false;
    }

    /** Run until the ticks are used up, or a tip or a block cannot be fetched or a message not sent. The run is
        one of the machine's runs, with exactly these ticks and the answers from outside. Heights are 64-bit:
        with a tip of MAX_UINT64 the loop's counter would wrap around. */
    method Run(o: Outside, ticks: seq<(Answer, Answer)>) returns (failed: bool, ghost steps: seq<Step>)
      requires at == Waiting
      requires forall t :: t in ticks ==>
                 (t.0.Height? ==> t.0.block < MAX_UINT64) && (t.1.Height? ==> t.1.block < MAX_UINT64)
      modifies this, repo, publisher
      ensures State() == After(old(State()), steps)
      ensures Follows(old(State()), steps, o)
      ensures at == if failed then Ended else Waiting
      ensures if failed then Ticks(steps) <= ticks else Ticks(steps) == ticks
      ensures failed <==> !Succeeds(old(repo.lastIndexedBlock), ticks, o)
      ensures !failed ==> repo.lastIndexedBlock == Highest(old(repo.lastIndexedBlock), ticks)
    {
      hide NonEmpty, After, Follows, Ticks, Highest, Succeeds, Deliverable;
      ghost var start := State();
      ghost var begin := repo.lastIndexedBlock;
      steps := [];
      NoSteps(start, o);
      NoTicks(begin, o);
      for n := 0 to |ticks|
        invariant at == Waiting && State() == After(start, steps)
        invariant Follows(start, steps, o) && Ticks(steps) == ticks[..n]
        invariant Succeeds(begin, ticks[..n], o) && repo.lastIndexedBlock == Highest(begin, ticks[..n])
      {
        assert ticks[..n + 1] == ticks[..n] + [ticks[n]];
        assert ticks[n] in ticks;
        OneMoreTick(begin, ticks, o, n);
        StepAppend(start, steps, Tick(ticks[n].0, ticks[n].1), o);
        steps := steps + [Tick(ticks[n].0, ticks[n].1)];
        var last, asked, unknown := LastIndexedOrTip(ticks[n].0);
        var answer := if asked then ticks[n].1 else ticks[n].0;
        if unknown || answer.Unanswered? {
          at := Ended;
          return true, steps;
        }
        var tip: BlockHeight := answer.block;
        at := if last < tip then Scanning(last + 1, tip) else Waiting;
        if last < tip {
          var i: BlockHeight := last + 1;
          while i <= tip
            invariant last < i && i - 1 <= tip && repo.lastIndexedBlock == i - 1
            invariant at == if i <= tip then Scanning(i, tip) else Waiting
            invariant State() == After(start, steps)
            invariant Follows(start, steps, o) && Ticks(steps) == ticks[..n + 1]
            invariant forall h :: last < h < i ==> Deliverable(o, h)
            decreases (tip as int) - (i as int)
          {
            DeliverableMeans(o, i);
            failed, steps := IndexBlock(o, i, tip, start, steps);
            if failed { return; }
            i := i + 1;
          }
        }
      }
      assert ticks[..|ticks|] == ticks;
      failed := false;
    }
  }

  lemma DeliverableMeans(o: Outside, h: nat)
    ensures Deliverable(o, h) <==> !(!o.fetch(h).Fetched? || (o.fetch(h).events != [] && !o.sends(h)))
  {
  }

  lemma NoTicks(last: nat, o: Outside)
    ensures Succeeds(last, [], o) && Highest(last, []) == last
  {
  }

  /** What the next tick adds, and that a failure is final. */
  lemma OneMoreTick(last: nat, ticks: seq<(Answer, Answer)>, o: Outside, n: nat)
    requires n < |ticks|
    ensures var before, t := Highest(last, ticks[..n]), ticks[n];
            && (Succeeds(last, ticks[..n + 1], o) <==>
                  && Succeeds(last, ticks[..n], o)
                  && Answered(before, t)
                  && forall h :: ScanAfter(before, t) < h <= TipAnswer(before, t).block ==> Deliverable(o, h))
            && (Answered(before, t) ==>
                  Highest(last, ticks[..n + 1]) ==
                  if ScanAfter(before, t) < TipAnswer(before, t).block then TipAnswer(before, t).block else ScanAfter(before, t))
    ensures !Succeeds(last, ticks[..n + 1], o) ==> !Succeeds(last, ticks, o)
  {
    hide Deliverable;
    assert ticks[..n + 1][..n] == ticks[..n];
    if Succeeds(last, ticks, o) {
      SucceedsBefore(last, ticks, o, n + 1);
    }
  }

  lemma OneMessage(m: Message)
    ensures NonEmpty([m]) == if m.events == [] then [] else [m]
  {
    assert [m][..0] == [];
  }

  lemma NoSteps(x: Progress, o: Outside)
    ensures After(x, []) == x && Follows(x, [], o) && Ticks([]) == []
  {
  }

  lemma StepAppend(x: Progress, steps: seq<Step>, step: Step, o: Outside)
    ensures After(x, steps + [step]) == Next(After(x, steps), step)
    ensures Ticks(steps + [step]) == Ticks(steps) + (if step.Tick? then [(step.first, step.second)] else [])
    ensures Follows(x, steps, o) && Answers(After(x, steps), step, o) ==> Follows(x, steps + [step], o)
  {
    hide Next, Answers;
    assert (steps + [step])[..|steps|] == steps;
  }
}
