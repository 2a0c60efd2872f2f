/** The reader-writer lock: a binary semaphore and a reader count under a spinlock, used by any
    number of tasks in any interleaving. Each critical section and each semaphore call is one
    atomic step. */
module SharedMutex {

  /** Where a task stands. Parked: it counted itself as the first reader and has not yet taken the
      semaphore. OwesGive: it counted itself out as the last reader and has not yet given it. */
  datatype Pc = Out | Parked | Reading | OwesGive | Asking | Writing

  datatype Lock = Lock(free: bool, readers: int)

  datatype System = System(lock: Lock, tasks: seq<Pc>)

  datatype Action = ReadEnter | ReadTake | ReadLeave | ReadGive | WriteAsk | WriteTake | WriteGive

  function Init(n: nat): System {
    System(Lock(true, 0), seq(n, _ => Out))
  }

  predicate Enabled(s: System, i: nat, a: Action) {
    i < |s.tasks| &&
    match a
    case ReadEnter => s.tasks[i].Out?
    case ReadTake => s.tasks[i].Parked? && Take(s.lock).1
    case ReadLeave => s.tasks[i].Reading?
    case ReadGive => s.tasks[i].OwesGive?
    case WriteAsk => s.tasks[i].Out?
    case WriteTake => s.tasks[i].Asking? && Take(s.lock).1
    case WriteGive => s.tasks[i].Writing?
  }

  function Enter(l: Lock): (Lock, bool) {
    (l.(readers := l.readers + 1), l.readers + 1 == 1)
  }

  function Leave(l: Lock): (Lock, bool) {
    (l.(readers := l.readers - 1), l.readers - 1 == 0)
  }

  /** An attempt to take the semaphore: the token is gone afterwards, and the answer tells who has it. */
  function Take(l: Lock): (Lock, bool) {
    (l.(free := false), l.free)
  }

  function Release(l: Lock): Lock {
    l.(free := true)
  }

  function Step(s: System, i: nat, a: Action): (r: System)
    requires Enabled(s, i, a)
    ensures |r.tasks| == |s.tasks|
  {
    match a
    case ReadEnter =>
      var (lock, first) := Enter(s.lock);
      System(lock, s.tasks[i := if first then Parked else Reading])
    case ReadTake => System(Take(s.lock).0, s.tasks[i := Reading])
    case ReadLeave =>
      var (lock, last) := Leave(s.lock);
      System(lock, s.tasks[i := if last then OwesGive else Out])
    case ReadGive => System(Release(s.lock), s.tasks[i := Out])
    case WriteAsk => s.(tasks := s.tasks[i := Asking])
    case WriteTake => System(Take(s.lock).0, s.tasks[i := Writing])
    case WriteGive => System(Release(s.lock), s.tasks[i := Out])
  }

  /** The lock's own fields and its atomic steps. */
  class Mutex {
    var free: bool
    var readers: int

    ghost function View(): Lock
      reads this
    {
      Lock(free, readers)
    }

    constructor ()
      ensures View() == Init(0).lock
    {
      free := true;
      readers := 0;
    }

    /** First part of lock_shared; the caller that gets true takes the semaphore next. */
    method CountIn() returns (first: bool)
      modifies this
      ensures (View(), first) == Enter(old(View()))
    {
      readers := readers + 1;
      first := readers == 1;
    }

    /** First part of unlock_shared; the caller that gets true gives the semaphore next. */
    method CountOut() returns (last: bool)
      modifies this
      ensures (View(), last) == Leave(old(View()))
    {
      readers := readers - 1;
      last := readers == 0;
    }

    /** One attempt of xSemaphoreTake; a task that gets false stays blocked. */
    method TryTake() returns (taken: bool)
      modifies this
      ensures (View(), taken) == Take(old(View()))
    {
      taken := free;
      free := false;
    }

    method Give()
      modifies this
      ensures View() == Release(old(View()))
    {
      free := true;
    }
  }

  // ---------------------------------------------------------------- counting tasks

  function Count(tasks: seq<Pc>, pc: Pc): nat {
    if tasks == [] then 0 else (if tasks[0] == pc then 1 else 0) + Count(tasks[1..], pc)
  }

  lemma {:induction false} CountUpdate(tasks: seq<Pc>, i: nat, pc: Pc, next: Pc)
    requires i < |tasks|
    ensures Count(tasks[i := next], pc) ==
            Count(tasks, pc) - (if tasks[i] == pc then 1 else 0) + (if next == pc then 1 else 0)
  {
    if i == 0 {
      assert tasks[i := next][1..] == tasks[1..];
    } else {
      assert tasks[i := next][1..] == tasks[1..][i - 1 := next];
      CountUpdate(tasks[1..], i - 1, pc, next);
    }
  }

  lemma {:induction false} CountSeen(tasks: seq<Pc>, i: nat, pc: Pc)
    requires i < |tasks| && tasks[i] == pc
    ensures Count(tasks, pc) >= 1
  {
    CountUpdate(tasks, i, pc, pc);
    if i > 0 {
      CountSeen(tasks[1..], i - 1, pc);
    }
  }

  lemma {:induction false} CountTwo(tasks: seq<Pc>, i: nat, j: nat, pc: Pc)
    requires i < j < |tasks| && tasks[i] == pc && tasks[j] == pc
    ensures Count(tasks, pc) >= 2
  {
    if i == 0 {
      CountSeen(tasks[1..], j - 1, pc);
    } else {
      CountTwo(tasks[1..], i - 1, j - 1, pc);
    }
  }

  lemma {:induction false} CountWitness(tasks: seq<Pc>, pc: Pc) returns (i: nat)
    requires Count(tasks, pc) >= 1
    ensures i < |tasks| && tasks[i] == pc
  {
    if tasks[0] == pc {
      i := 0;
    } else {
      var k := CountWitness(tasks[1..], pc);
      i := k + 1;
    }
  }

  lemma {:induction false} CountOut(n: nat, pc: Pc)
    ensures Count(seq(n, _ => Out), pc) == if pc == Out then n else 0
  {
    if n > 0 {
      assert seq(n, _ => Out)[1..] == seq(n - 1, _ => Out);
      CountOut(n - 1, pc);
    }
  }

  // ---------------------------------------------------------------- the invariant

  function One(b: bool): nat {
    if b then 1 else 0
  }

  /** The readers hold the semaphore as a group once the first of them has taken it. */
  predicate GroupHolds(s: System) {
    s.lock.readers > 0 && Count(s.tasks, Parked) == 0
  }

  /** The count is the number of readers that counted themselves in, at most one of them is parked,
      and there is exactly one token: free, with a writer, owed by a last reader, or with the group. */
  ghost predicate Inv(s: System) {
    && s.lock.readers == Count(s.tasks, Parked) + Count(s.tasks, Reading)
    && Count(s.tasks, Parked) <= 1
    && One(s.lock.free) + Count(s.tasks, Writing) + Count(s.tasks, OwesGive) + One(GroupHolds(s)) == 1
  }

  lemma {:induction false} InitInv(n: nat)
    ensures Inv(Init(n))
  {
    CountOut(n, Parked);
    CountOut(n, Reading);
    CountOut(n, Writing);
    CountOut(n, OwesGive);
  }

  lemma {:induction false} StepInv(s: System, i: nat, a: Action)
    requires Inv(s) && Enabled(s, i, a)
    ensures Inv(Step(s, i, a))
  {
    var next := Step(s, i, a).tasks[i];
    CountUpdate(s.tasks, i, Parked, next);
    CountUpdate(s.tasks, i, Reading, next);
    CountUpdate(s.tasks, i, Writing, next);
    CountUpdate(s.tasks, i, OwesGive, next);
    CountSeen(s.tasks, i, s.tasks[i]);
  }

  datatype Event = Event(task: nat, action: Action)

  ghost predicate Possible(s: System, run: seq<Event>)
    decreases |run|
  {
    run == [] ||
    (Enabled(s, run[0].task, run[0].action) && Possible(Step(s, run[0].task, run[0].action), run[1..]))
  }

  ghost function After(s: System, run: seq<Event>): System
    requires Possible(s, run)
    decreases |run|
  {
    if run == [] then s else After(Step(s, run[0].task, run[0].action), run[1..])
  }

  lemma {:induction false} RunInv(s: System, run: seq<Event>)
    requires Inv(s) && Possible(s, run)
    ensures Inv(After(s, run))
    decreases |run|
  {
    if run != [] {
      StepInv(s, run[0].task, run[0].action);
      RunInv(Step(s, run[0].task, run[0].action), run[1..]);
    }
  }

  // ---------------------------------------------------------------- what the lock guarantees

  /** A reader and a writer are inside together. */
  ghost predicate Overlap(s: System) {
    Count(s.tasks, Reading) > 0 && Count(s.tasks, Writing) > 0
  }

  /** For any number of tasks and any interleaving: the invariant holds, so there is exactly one token
      and at most one writer; and a reader and a writer are inside together exactly when a writer is
      inside and two readers or more are counted, one of them parked. */
  lemma {:induction false} Guarantees(n: nat, run: seq<Event>)
    requires Possible(Init(n), run)
    ensures var s := After(Init(n), run);
            && Inv(s)
            && (Count(s.tasks, Writing) + Count(s.tasks, OwesGive) > 0 ==> !s.lock.free)
            && Count(s.tasks, Writing) <= 1
            && (Overlap(s) <==> Count(s.tasks, Writing) > 0 && s.lock.readers >= 2)
            && (Overlap(s) ==> Count(s.tasks, Parked) == 1)
  {
    InitInv(n);
    RunInv(Init(n), run);
  }

  /** When the promise breaks: the step that lets a reader and a writer in together is either a reader
      entering while others are counted and a writer is inside, or a writer taking the semaphore while more
      than one reader is counted; and every such step does. */
  lemma {:induction false} OverlapBeginsIff(n: nat, run: seq<Event>, i: nat, a: Action)
    requires Possible(Init(n), run) && Enabled(After(Init(n), run), i, a) && !Overlap(After(Init(n), run))
    ensures var s := After(Init(n), run);
            Overlap(Step(s, i, a)) <==>
            || (a.ReadEnter? && s.lock.readers > 0 && Count(s.tasks, Writing) > 0)
            || (a.WriteTake? && s.lock.readers > 1)
  {
    Guarantees(n, run);
    var s := After(Init(n), run);
    var next := Step(s, i, a).tasks[i];
    CountUpdate(s.tasks, i, Parked, next);
    CountUpdate(s.tasks, i, Reading, next);
    CountUpdate(s.tasks, i, Writing, next);
    CountSeen(s.tasks, i, s.tasks[i]);
  }

  /** What a take means: in every reachable state it succeeds exactly when no writer is inside, no group of
      readers holds the lock and no last reader still owes the token. */
  lemma {:induction false} TakeSucceedsIff(n: nat, run: seq<Event>)
    requires Possible(Init(n), run)
    ensures var s := After(Init(n), run);
            Take(s.lock).1 <==> Count(s.tasks, Writing) == 0 && Count(s.tasks, OwesGive) == 0 && !GroupHolds(s)
  {
    Guarantees(n, run);
  }

  /** What a give means: it is always the holder's, and afterwards nobody holds the lock and a take would
      succeed. */
  lemma {:induction false} GiveHandsOver(n: nat, run: seq<Event>, i: nat, a: Action)
    requires Possible(Init(n), run) && Enabled(After(Init(n), run), i, a) && (a.ReadGive? || a.WriteGive?)
    ensures var s := After(Init(n), run);
            var r := Step(s, i, a);
            && r.tasks == s.tasks[i := Out] && !Take(s.lock).1 && Take(r.lock).1
            && Count(r.tasks, Writing) == 0 && Count(r.tasks, OwesGive) == 0 && !GroupHolds(r)
  {
    Guarantees(n, run);
    var s := After(Init(n), run);
    StepInv(s, i, a);
    CountSeen(s.tasks, i, s.tasks[i]);
  }

  /** Where each action leads, in every reachable state: the first reader parks before it may read, and the
      last one owes the token that the group has held; a reader or writer is inside exactly once it has been
      let in; and no action moves another task. */
  lemma {:induction false} ActionLeadsTo(n: nat, run: seq<Event>, i: nat, a: Action)
    requires Possible(Init(n), run) && Enabled(After(Init(n), run), i, a)
    ensures var s := After(Init(n), run);
            var r := Step(s, i, a);
            && (forall j :: 0 <= j < |r.tasks| && j != i ==> r.tasks[j] == s.tasks[j])
            && (r.tasks[i].Parked? <==> a.ReadEnter? && Count(s.tasks, Parked) + Count(s.tasks, Reading) == 0)
            && (r.tasks[i].Reading? <==> a.ReadTake? || (a.ReadEnter? && !r.tasks[i].Parked?))
            && (r.tasks[i].OwesGive? <==> a.ReadLeave? && Count(s.tasks, Parked) + Count(s.tasks, Reading) == 1)
            && (r.tasks[i].Asking? <==> a.WriteAsk?)
            && (r.tasks[i].Writing? <==> a.WriteTake?)
  {
    Guarantees(n, run);
  }

  lemma {:induction false} GivesOnlyWhenTaken(n: nat, run: seq<Event>, i: nat, a: Action)
    requires Possible(Init(n), run)
    requires Enabled(After(Init(n), run), i, a) && (a.ReadGive? || a.WriteGive?)
    ensures !After(Init(n), run).lock.free
  {
    Guarantees(n, run);
    var s := After(Init(n), run);
    CountSeen(s.tasks, i, s.tasks[i]);
  }

  lemma {:induction false} TwoWritersNever(n: nat, run: seq<Event>, i: nat, j: nat)
    requires Possible(Init(n), run)
    requires i < j < |After(Init(n), run).tasks|
    ensures !(After(Init(n), run).tasks[i].Writing? && After(Init(n), run).tasks[j].Writing?)
  {
    Guarantees(n, run);
    var s := After(Init(n), run);
    if s.tasks[i].Writing? && s.tasks[j].Writing? {
      CountTwo(s.tasks, i, j, Writing);
    }
  }

  /** A writer gets in past readers only through a parked first reader. */
  lemma {:induction false} WriterTakes(n: nat, run: seq<Event>, i: nat)
    requires Possible(Init(n), run) && Enabled(After(Init(n), run), i, WriteTake)
    ensures var s := After(Init(n), run);
            s.lock.readers == 0 || (Count(s.tasks, Parked) == 1 && Count(s.tasks, Reading) == s.lock.readers - 1)
  {
    InitInv(n);
    RunInv(Init(n), run);
  }

  lemma {:induction false} PossibleStep(s: System, e: Event, rest: seq<Event>)
    requires Enabled(s, e.task, e.action) && Possible(Step(s, e.task, e.action), rest)
    ensures Possible(s, [e] + rest) && After(s, [e] + rest) == After(Step(s, e.task, e.action), rest)
  {}

  /** The exception is reachable with any three tasks: a writer is inside, a first reader parks
      behind it, and a second reader finds the count above zero and walks in. */
  lemma {:induction false} OverlapIsReachable(n: nat) returns (run: seq<Event>)
    requires n >= 3
    ensures Possible(Init(n), run) && Overlap(After(Init(n), run))
  {
    var e0, e1, e2, e3 := Event(0, WriteAsk), Event(0, WriteTake), Event(1, ReadEnter), Event(2, ReadEnter);
    var s := Init(n);
    var s1 := Step(s, 0, WriteAsk);
    var s2 := Step(s1, 0, WriteTake);
    var s3 := Step(s2, 1, ReadEnter);
    var s4 := Step(s3, 2, ReadEnter);
    PossibleStep(s3, e3, []);
    PossibleStep(s2, e2, [e3] + []);
    PossibleStep(s1, e1, [e2] + ([e3] + []));
    PossibleStep(s, e0, [e1] + ([e2] + ([e3] + [])));
    run := [e0] + ([e1] + ([e2] + ([e3] + [])));
    CountSeen(s4.tasks, 2, Reading);
    CountSeen(s4.tasks, 0, Writing);
  }

  /** The lock cannot get stuck: while any task is in it, some task in it can take its next step. */
  lemma {:induction false} NoDeadlock(n: nat, run: seq<Event>)
    requires Possible(Init(n), run)
    requires exists k :: 0 <= k < |After(Init(n), run).tasks| && !After(Init(n), run).tasks[k].Out?
    ensures exists i: nat, a ::
              Enabled(After(Init(n), run), i, a) && !After(Init(n), run).tasks[i].Out?
  {
    InitInv(n);
    RunInv(Init(n), run);
    var s := After(Init(n), run);
    if s.lock.free {
      var k: nat :| k < |s.tasks| && !s.tasks[k].Out?;
      var a := match s.tasks[k]
               case Out => ReadEnter
               case Parked => ReadTake
               case Reading => ReadLeave
               case OwesGive => ReadGive
               case Asking => WriteTake
               case Writing => WriteGive;
      assert Enabled(s, k, a);
    } else if Count(s.tasks, Writing) > 0 {
      var k := CountWitness(s.tasks, Writing);
      assert Enabled(s, k, WriteGive);
    } else if Count(s.tasks, OwesGive) > 0 {
      var k := CountWitness(s.tasks, OwesGive);
      assert Enabled(s, k, ReadGive);
    } else {
      var k := CountWitness(s.tasks, Reading);
      assert Enabled(s, k, ReadLeave);
    }
  }
}
