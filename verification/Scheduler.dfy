/** The round-robin scheduler: the timer tick, and what runs of ticks guarantee. */
module Scheduler {
  import opened Bytes

  const PROCESS_COUNT_MAX := 16

  datatype ProcessState = READY | BLOCK | RUN | INACTIVE

  /** Registers, flags, instruction pointer and page directory, as one value. */
  datatype Context = Context(registers: seq<u32>, eip: u32, eflags: u32, pageDirectory: u32)

  datatype Pcb = Pcb(context: Context, pid: u32, state: ProcessState)

  type ProcessList = list: seq<Pcb> | |list| == PROCESS_COUNT_MAX
    witness Repeat(PROCESS_COUNT_MAX, Pcb(Context([], 0, 0, 0), 0, READY))

  /** The process list, the position of the current process or -1, and the index of the last one chosen or -1. */
  datatype State = State(list: ProcessList, running: int, index: int)

  ghost predicate Consistent(s: State) {
    -1 <= s.index < PROCESS_COUNT_MAX && (s.running == -1 || s.running == s.index)
  }

  /** The candidate that the search looks at after `offset` others. */
  function Candidate(index: int, offset: nat): (k: nat)
    requires index >= -1
    ensures k < PROCESS_COUNT_MAX
  {
    (index + 1 + offset) % PROCESS_COUNT_MAX
  }

  /** How many candidates the search passes before it meets a ready one, or 16. */
  ghost function FirstReady(list: ProcessList, index: int, from: nat): (o: nat)
    requires index >= -1 && from <= PROCESS_COUNT_MAX
    ensures from <= o <= PROCESS_COUNT_MAX
    ensures forall j | from <= j < o :: list[Candidate(index, j)].state != READY
    ensures o < PROCESS_COUNT_MAX ==> list[Candidate(index, o)].state == READY
    decreases PROCESS_COUNT_MAX - from
  {
    if from == PROCESS_COUNT_MAX || list[Candidate(index, from)].state == READY then from
    else FirstReady(list, index, from + 1)
  }

  /** What a tick ends in: the processor halts for good, or a process resumes with a context. */
  datatype Outcome = Halted | Resumed(state: State, context: Context)

  ghost function SwitchToNext(s: State): Outcome
    requires s.index >= -1
  {
    var o := FirstReady(s.list, s.index, 0);
    if o == PROCESS_COUNT_MAX then Halted
    else
      var k := Candidate(s.index, o);
      Resumed(State(s.list[k := s.list[k].(state := RUN)], k, k), s.list[k].context)
  }

  /** The preempted process is made ready again with the context it was interrupted in, whatever its state was. */
  ghost function Preempted(s: State, context: Context): State
    requires -1 <= s.running < PROCESS_COUNT_MAX
  {
    if s.running == -1 then s
    else s.(list := s.list[s.running := s.list[s.running].(context := context, state := READY)])
  }

  ghost function Tick(s: State, context: Context): Outcome
    requires Consistent(s)
  {
    SwitchToNext(Preempted(s, context))
  }

  class Scheduler {
    const list: array<Pcb>
    var running: int
    var index: int

    ghost predicate Valid()
      reads this
    {
      list.Length == PROCESS_COUNT_MAX && -1 <= index < PROCESS_COUNT_MAX && (running == -1 || running == index)
    }

    ghost function View(): (s: State)
      requires Valid()
      reads this, list
      ensures Consistent(s)
    {
      State(list[..], running, index)
    }

    constructor (list: array<Pcb>)
      requires list.Length == PROCESS_COUNT_MAX
      ensures Valid() && this.list == list && View() == State(list[..], -1, -1)
    {
      this.list := list;
      running, index := -1, -1;
    }

    method SaveContextToCurrent(context: Context)
      requires Valid()
      modifies list
      ensures View() == if running == -1 then old(View())
                        else old(View()).(list := old(list[..])[running := old(list[running]).(context := context)])
    {
      if running != -1 {
        list[running] := list[running].(context := context);
      }
    }

    /** The timer interrupt; `halted` stands for the endless halt loop. */
    method IsrHandler(context: Context) returns (halted: bool, resumed: Context)
      requires Valid()
      modifies this, list
      ensures Valid()
      ensures match Tick(old(View()), context)
              case Halted => halted && View() == Preempted(old(View()), context)
              case Resumed(s, c) => !halted && View() == s && resumed == c
    {
      hide FirstReady;
      SaveContextToCurrent(context);
      if running != -1 {
        list[running] := list[running].(state := READY);
      }
      halted, resumed := SwitchToNextProcess();
    }

    method SwitchToNextProcess() returns (halted: bool, resumed: Context)
      requires Valid()
      modifies this, list
      ensures Valid()
      ensures match SwitchToNext(old(View()))
              case Halted => halted && View() == old(View())
              case Resumed(s, c) => !halted && View() == s && resumed == c
    {
      ghost var all: ProcessList := list[..];
      var next := -1;
      var i := 0;
      while i < PROCESS_COUNT_MAX
        invariant 0 <= i <= PROCESS_COUNT_MAX && next == -1
        invariant FirstReady(all, index, i) == FirstReady(all, index, 0)
        invariant Valid() && View() == old(View())
      {
        var k := (index + 1 + i) % PROCESS_COUNT_MAX;
        if list[k].state == READY {
          next := k;
          break;
        }
        i := i + 1;
      }
      if next == -1 {
        return true, Context([], 0, 0, 0);
      }
      index := next;
      running := next;
      list[next] := list[next].(state := RUN);
      halted, resumed := false, list[next].context;
    }
  }

  // ---------- what ticks guarantee ----------

  /** No process runs but the current one. */
  ghost predicate OneRuns(s: State) {
    && Consistent(s)
    && (forall k | 0 <= k < PROCESS_COUNT_MAX && s.list[k].state == RUN :: k == s.running)
  }

  /** The other parts of the kernel change the list between ticks, but never make a process run. */
  ghost predicate Outside(before: ProcessList, after: ProcessList) {
    forall k | 0 <= k < PROCESS_COUNT_MAX && after[k].state == RUN :: before[k].state == RUN
  }

  datatype Event = Ticked(context: Context) | Changed(list: ProcessList)

  ghost predicate Possible(s: State, e: Event) {
    match e
    case Ticked(_) => Consistent(s) && Tick(s, e.context).Resumed?
    case Changed(list) => Outside(s.list, list)
  }

  ghost function Step(s: State, e: Event): State
    requires Possible(s, e)
  {
    match e
    case Ticked(context) => Tick(s, context).state
    case Changed(list) => s.(list := list)
  }

  ghost predicate PossibleRun(s: State, events: seq<Event>)
    decreases |events|
  {
    events != [] ==> Possible(s, events[0]) && PossibleRun(Step(s, events[0]), events[1..])
  }

  ghost function Run(s: State, events: seq<Event>): State
    requires PossibleRun(s, events)
    decreases |events|
  {
    if events == [] then s else Run(Step(s, events[0]), events[1..])
  }

  /** The processes that the search passes on its way from the last one chosen to this one. */
  predicate Passed(index: int, j: int, chosen: int) {
    if index < chosen then index < j < chosen else j > index || j < chosen
  }

  lemma PassedBefore(index: int, o: nat)
    requires -1 <= index < PROCESS_COUNT_MAX && o < PROCESS_COUNT_MAX
    ensures forall j: nat | j < PROCESS_COUNT_MAX && Passed(index, j, Candidate(index, o)) ::
              j == Candidate(index, o) || exists d: nat :: d < o && Candidate(index, d) == j
  {
    hide Candidate, Distance;
    CandidateIs(index, o);
    forall j: nat | j < PROCESS_COUNT_MAX && Passed(index, j, Candidate(index, o))
      ensures j == Candidate(index, o) || exists d: nat :: d < o && Candidate(index, d) == j
    {
      DistanceIs(index, j);
      if Distance(index, j) >= o {
        CandidateIs(index, Distance(index, j));
      }
    }
  }

  /** A tick in terms of the list before it: it halts only where there is no current process and none is ready.
      Otherwise it chooses the first one after the last that is ready or the current one itself, which runs from then on
      with the context that it has, or was just interrupted in; the one that was current is made ready with that
      context; and nothing else changes. */
  lemma TickExact(s: State, context: Context)
    requires Consistent(s)
    ensures match Tick(s, context)
            case Halted => s.running == -1 && forall k | 0 <= k < 16 :: s.list[k].state != READY
            case Resumed(s', c) =>
              var p, k := s.running, s'.index;
              && 0 <= k < 16 && s'.running == k && (k == p || s.list[k].state == READY)
              && (forall j | 0 <= j < 16 && j != k && Passed(s.index, j, k) :: s.list[j].state != READY)
              && c == (if k == p then context else s.list[k].context)
              && s'.list[k] == Pcb(c, s.list[k].pid, RUN)
              && (p != -1 && p != k ==> s'.list[p] == Pcb(context, s.list[p].pid, READY))
              && forall j | 0 <= j < 16 && j != k && j != p :: s'.list[j] == s.list[j]
  {
    hide Candidate, Distance, Passed;
    var s1 := Preempted(s, context);
    var o := FirstReady(s1.list, s1.index, 0);
    assert s.running != -1 ==> s1.list[s.running].state == READY;
    if o == PROCESS_COUNT_MAX {
      forall k: nat | k < 16
        ensures s1.list[k].state != READY
      {
        assert s1.list[Candidate(s1.index, Distance(s1.index, k))].state != READY;
      }
    } else {
      PassedBefore(s.index, o);
    }
  }

  /** So after a tick exactly one process runs: the one it chose, which was ready or the current one. */
  lemma TickRunsOne(s: State, context: Context)
    requires OneRuns(s)
    ensures match Tick(s, context)
            case Halted => true
            case Resumed(s', c) =>
              && OneRuns(s') && s'.running == s'.index >= 0
              && (forall k | 0 <= k < PROCESS_COUNT_MAX :: s'.list[k].state == RUN <==> k == s'.running)
              && (s'.running == s.running || s.list[s'.running].state == READY)
  {
    hide Tick;
    TickExact(s, context);
  }

  /** At most one process runs, and it is the current one, throughout a run. */
  lemma {:induction false} OneRunsThroughout(s: State, events: seq<Event>)
    requires OneRuns(s) && PossibleRun(s, events)
    ensures OneRuns(Run(s, events))
    decreases |events|
  {
    if events != [] {
      hide FirstReady;
      if events[0].Ticked? {
        TickRunsOne(s, events[0].context);
      }
      OneRunsThroughout(Step(s, events[0]), events[1..]);
    }
  }

  /** How many candidates come before process p. */
  function Distance(index: int, p: nat): (d: nat)
    requires index >= -1 && p < PROCESS_COUNT_MAX
    ensures d < PROCESS_COUNT_MAX && Candidate(index, d) == p
  {
    (p - index - 1) % PROCESS_COUNT_MAX
  }

  lemma CandidateIs(index: int, o: nat)
    requires -1 <= index < PROCESS_COUNT_MAX && o < PROCESS_COUNT_MAX
    ensures var k := index + 1 + o;
            Candidate(index, o) == if k < PROCESS_COUNT_MAX then k else k - PROCESS_COUNT_MAX
  {
  }

  lemma DistanceIs(index: int, p: nat)
    requires -1 <= index < PROCESS_COUNT_MAX && p < PROCESS_COUNT_MAX
    ensures Distance(index, p) == if p > index then p - index - 1 else p - index - 1 + PROCESS_COUNT_MAX
  {
  }

  /** Moving on past `o` candidates shortens the distance by as many and one. */
  lemma DistanceShrinks(index: int, p: nat, o: nat)
    requires -1 <= index < PROCESS_COUNT_MAX && p < PROCESS_COUNT_MAX && o < Distance(index, p)
    ensures Distance(Candidate(index, o), p) == Distance(index, p) - o - 1
  {
    hide Candidate, Distance;
    DistanceIs(index, p);
    CandidateIs(index, o);
    DistanceIs(Candidate(index, o), p);
  }

  /** A tick with a ready process, and so one with a current process, always resumes somebody. */
  lemma TickNeverHalts(s: State, context: Context, p: nat)
    requires Consistent(s) && p < PROCESS_COUNT_MAX
    requires s.running == p || s.list[p].state == READY
    ensures Tick(s, context).Resumed?
    ensures var next := Tick(s, context).state;
            next.index == p || Distance(next.index, p) < Distance(s.index, p)
  {
    var s1 := Preempted(s, context);
    var o, d := FirstReady(s1.list, s1.index, 0), Distance(s.index, p);
    assert s1.list[Candidate(s1.index, d)].state == READY;
    assert o <= d;
    if o < d {
      DistanceShrinks(s.index, p, o);
    }
  }

  /** A process that is ready, or about to be made ready by the tick. */
  ghost predicate Waiting(s: State, p: nat)
    requires p < PROCESS_COUNT_MAX
  {
    s.running == p || s.list[p].state == READY
  }

  /** Up to the tick that chooses the process, every event is possible and nobody takes it out of the ready state. */
  ghost predicate StaysReady(s: State, events: seq<Event>, p: nat)
    requires p < PROCESS_COUNT_MAX
    decreases |events|
  {
    events != [] ==>
      && Possible(s, events[0])
      && (|| (events[0].Ticked? && Step(s, events[0]).index == p)
          || (&& (events[0].Changed? ==> Waiting(s.(list := events[0].list), p))
              && StaysReady(Step(s, events[0]), events[1..], p)))
  }

  ghost predicate Chosen(s: State, events: seq<Event>, p: nat)
    decreases |events|
  {
    && events != [] && Possible(s, events[0])
    && ((events[0].Ticked? && Step(s, events[0]).index == p) || Chosen(Step(s, events[0]), events[1..], p))
  }

  function Ticks(events: seq<Event>): nat {
    if events == [] then 0 else (if events[0].Ticked? then 1 else 0) + Ticks(events[1..])
  }

  /** Bounded fairness: whatever happens to the other processes, a process that stays ready is chosen within as many
      ticks as there are candidates up to it, and so within sixteen. */
  lemma {:induction false} Fair(s: State, events: seq<Event>, p: nat)
    requires Consistent(s) && p < PROCESS_COUNT_MAX && Waiting(s, p) && StaysReady(s, events, p)
    requires Ticks(events) > Distance(s.index, p)
    ensures Chosen(s, events, p)
    decreases |events|
  {
    hide FirstReady, Distance;
    var next := Step(s, events[0]);
    if events[0].Ticked? {
      TickNeverHalts(s, events[0].context, p);
      if next.index != p {
        TickKeepsOthers(s, events[0].context, p);
        Fair(next, events[1..], p);
      }
    } else {
      Fair(next, events[1..], p);
    }
  }

  /** A process that is not chosen is left ready if it was, and keeps its context. */
  lemma TickKeepsOthers(s: State, context: Context, p: nat)
    requires Consistent(s) && p < PROCESS_COUNT_MAX && Tick(s, context).Resumed?
    requires Tick(s, context).state.index != p
    ensures var s' := Tick(s, context).state;
            && Consistent(s') && s'.running == s'.index != p
            && s'.list[p] == if p == s.running then Pcb(context, s.list[p].pid, READY) else s.list[p]
  {
  }

  lemma FairWithinSixteenTicks(s: State, events: seq<Event>, p: nat)
    requires Consistent(s) && p < 16 && Waiting(s, p) && StaysReady(s, events, p)
    requires Ticks(events) >= 16
    ensures Chosen(s, events, p)
  {
    Fair(s, events, p);
  }

  /** A stretch of a run in which a process is not chosen and nobody touches its context. */
  ghost predicate Undisturbed(s: State, events: seq<Event>, p: nat)
    requires p < PROCESS_COUNT_MAX && PossibleRun(s, events)
    decreases |events|
  {
    events != [] ==>
      && (match events[0]
          case Ticked(_) => Step(s, events[0]).index != p
          case Changed(list) => list[p].context == s.list[p].context)
      && Undisturbed(Step(s, events[0]), events[1..], p)
  }

  lemma {:induction false} ContextKept(s: State, events: seq<Event>, p: nat)
    requires Consistent(s) && p < PROCESS_COUNT_MAX && PossibleRun(s, events) && s.running != p
    requires Undisturbed(s, events, p)
    ensures var s' := Run(s, events);
            Consistent(s') && s'.running != p && s'.list[p].context == s.list[p].context
    decreases |events|
  {
    if events != [] {
      hide FirstReady;
      if events[0].Ticked? {
        TickKeepsOthers(s, events[0].context, p);
      }
      ContextKept(Step(s, events[0]), events[1..], p);
    }
  }

  /** A process resumes with exactly the context it was last preempted with. */
  lemma ResumedAsPreempted(s: State, saved: Context, events: seq<Event>, other: Context)
    requires Consistent(s) && s.running >= 0 && Tick(s, saved).Resumed?
    requires var s1 := Tick(s, saved).state;
             s1.index != s.running ==> PossibleRun(s1, events) && Undisturbed(s1, events, s.running)
    ensures var p, s1 := s.running, Tick(s, saved).state;
            if s1.index == p then Tick(s, saved).context == saved
            else
              var s2 := Run(s1, events);
              && Consistent(s2)
              && (Tick(s2, other).Resumed? && Tick(s2, other).state.index == p ==> Tick(s2, other).context == saved)
  {
    var p, s1 := s.running, Tick(s, saved).state;
    if s1.index != p {
      TickKeepsOthers(s, saved, p);
      ContextKept(s1, events, p);
      var s2 := Run(s1, events);
      hide FirstReady;
      assert Preempted(s2, other).list[p].context == saved;
    }
  }
}
