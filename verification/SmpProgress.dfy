/** What the boot handshake is for: every processor on the list that exists gets started. From every
    reachable state the boot processor can still come to the end of its list, if and only if all the
    processors on it exist; under a fair schedule it does; and when it is there, all of them have
    finished. */
module SmpProgress {
  import opened SmpBoot

  /** The loop over the processor list is through. */
  predicate Finished(s: State) {
    s.line == Next && s.todo == []
  }

  ghost predicate CanFinish(s: State) {
    exists events: seq<Event> :: Finished(Execute(s, events))
  }

  lemma {:induction false} ExecuteAppend(s: State, a: seq<Event>, b: seq<Event>)
    ensures Execute(s, a + b) == Execute(Execute(s, a), b)
  {
    hide Step;
    if b == [] {
      assert a + b == a;
    } else {
      var c := b[..|b| - 1];
      ExecuteAppend(s, a, c);
      assert (a + b)[..|a + b| - 1] == a + c;
    }
  }

  lemma OneStep(s: State, e: Event)
    ensures Execute(s, [e]) == Step(s, e)
  {
    hide Step;
    assert [e][..0] == [];
    assert Execute(s, []) == s;
  }

  // ----- what a run accounts for -----

  /** A processor that is still parked has its INIT ahead of it. */
  ghost predicate Pending(s: State) {
    PastInit(s.line) && s.cpu in s.aps && s.aps[s.cpu].pc == Parked ==>
      s.aps[s.cpu].inbox != [] && s.aps[s.cpu].inbox[0] == Init
  }

  /** Each listed processor is still on the list, or its call has begun; no other was touched. */
  ghost predicate Accounts(list: seq<nat>, s: State) {
    && (forall j :: j in list && j != 0 ==> j in s.todo || j in s.created || (s.line == Create && s.cpu == j))
    && (forall j :: j in s.todo ==> j in list)
    && (s.line != Next ==> s.cpu in list && s.cpu != 0)
    && (forall j :: j in s.created && j != 0 ==> j in list)
  }

  /** A call that has returned was for a processor that exists. */
  ghost predicate ReturnedExist(s: State) {
    forall j :: j in s.created && j != 0 && (s.line == Next || j != s.cpu) ==> j in s.aps
  }

  lemma StepAccounts(list: seq<nat>, s: State, e: Event)
    requires Accounts(list, s)
    ensures Accounts(list, Step(s, e)) && Step(s, e).aps.Keys == s.aps.Keys
  {
    if s.line == Next && s.todo != [] {
      assert forall j :: j in s.todo <==> j == s.todo[0] || j in s.todo[1..];
    }
  }

  lemma PendingKeeps(s: State, e: Event)
    requires Pending(s) && (s.line == SendInit && s.cpu in s.aps ==> s.aps[s.cpu].inbox == [])
    ensures Pending(Step(s, e))
  {
  }

  lemma ReturnedKeeps(s: State, e: Event)
    requires ReturnedExist(s) && (s.line == ResetDone ==> s.cpu in s.aps)
    ensures ReturnedExist(Step(s, e))
  {
  }

  lemma BeforeInit(s: State)
    requires Inv(s) && s.line == SendInit && s.cpu in s.aps
    ensures s.aps[s.cpu].inbox == []
  {
  }

  /** Nobody else sets magic or doneInit. */
  lemma CurrentExists(s: State)
    requires Inv(s) && (s.line == AwaitDone || s.line == ResetDone)
    ensures s.cpu in s.aps
  {
  }

  lemma ExecuteUnfolds(s: State, events: seq<Event>)
    ensures events == [] ==> Execute(s, events) == s
    ensures events != [] ==>
      Execute(s, events) == Step(Execute(s, events[..|events| - 1]), events[|events| - 1])
  {
    hide Step;
  }

  lemma InitialAccounts(s: State)
    requires Initial(s)
    ensures Accounts(s.todo, s) && Pending(s) && ReturnedExist(s)
  {
  }

  lemma {:induction false} RunAccounts(s: State, events: seq<Event>)
    requires Initial(s)
    ensures var t := Execute(s, events);
      Accounts(s.todo, t) && Pending(t) && ReturnedExist(t) && t.aps.Keys == s.aps.Keys
  {
    hide *;
    ExecuteUnfolds(s, events);
    if events == [] {
      InitialAccounts(s);
    } else {
      var before, last := events[..|events| - 1], events[|events| - 1];
      RunAccounts(s, before);
      ExecuteKeeps(s, before);
      var t := Execute(s, before);
      if t.line == SendInit && t.cpu in t.aps {
        BeforeInit(t);
      }
      if t.line == ResetDone {
        CurrentExists(t);
      }
      StepAccounts(s.todo, t, last);
      PendingKeeps(t, last);
      ReturnedKeeps(t, last);
    }
  }

  // ----- the next useful step -----

  /** The processors still to be started exist. */
  ghost predicate ListedExist(s: State) {
    (forall j :: j in s.todo && j != 0 ==> j in s.aps) && (s.line != Next ==> s.cpu in s.aps)
  }

  /** What magic and doneInit tell about the current processor. Its INIT, if still there, is first. */
  ghost predicate Signals(s: State) {
    PastInit(s.line) && s.cpu in s.aps ==>
      var a := s.aps[s.cpu];
      && s.area.magic == (if Started(a.pc) && a.pc != WriteMagic then Magic else 0)
      && (s.doneInit <==> a.pc == Done)
      && (s.line == AwaitDone ==> s.area.magic == Magic)
      && (|a.inbox| > 1 ==> a.inbox[1] == Startup)
      && (Started(a.pc) && a.inbox != [] ==> a.inbox[0] == Startup)
  }

  predicate Handshaking(line: Line) {
    line == TestMagic || line == SendStartup || line == AwaitDone
  }

  /** Mail first, then the processor that is booting, then the boot processor. */
  function Helpful(s: State, base: nat): Event {
    if Handshaking(s.line) && s.cpu in s.aps then
      var a := s.aps[s.cpu];
      if Booting(a.pc) then Run(s.cpu)
      else if !Started(a.pc) && a.inbox != [] then Deliver(s.cpu)
      else Boot(base)
    else Boot(base)
  }

  function LinesLeft(line: Line): nat {
    match line
    case Next => 0
    case ResetDone => 1
    case AwaitDone => 2
    case TestMagic => 3
    case SendStartup => 3
    case SendInit => 4
    case WriteCr3 => 5
    case WriteGdt => 6
    case WriteStack => 7
    case WriteEntry => 8
    case WriteId => 9
    case ClearMagic => 10
    case Create => 11
  }

  function LoadsLeft(pc: ApPc): nat {
    match pc
    case WriteMagic => 7
    case ReadCr3 => 6
    case ReadGdt => 5
    case ReadStack => 4
    case ReadId => 3
    case ReadEntry => 2
    case InEntry => 1
    case _ => 0
  }

  function StepsLeft(s: State): nat {
    if !Handshaking(s.line) || s.cpu !in s.aps then 0 else
      var a := s.aps[s.cpu];
      if a.pc == Done then (if s.line == SendStartup then 1 else 0)
      else if Started(a.pc) then 2 + LoadsLeft(a.pc)
      else if a.inbox == [] then (if s.line == TestMagic then 21 else 20)
      else if a.inbox[0] == Init then 30
      else 10
  }

  /** The list is shorter, or the current call is nearer to its return. */
  ghost predicate Nearer(t: State, s: State) {
    || |t.todo| < |s.todo|
    || (|t.todo| == |s.todo| && LinesLeft(t.line) < LinesLeft(s.line))
    || (|t.todo| == |s.todo| && LinesLeft(t.line) == LinesLeft(s.line) && StepsLeft(t) < StepsLeft(s))
  }

  lemma ProcessorNearer(s: State, base: nat)
    requires Handshaking(s.line) && s.cpu in s.aps && Pending(s) && Signals(s)
    requires Booting(s.aps[s.cpu].pc) || (!Started(s.aps[s.cpu].pc) && s.aps[s.cpu].inbox != [])
    ensures var t := Step(s, Helpful(s, base));
      t.todo == s.todo && t.line == s.line && StepsLeft(t) < StepsLeft(s)
  {
    hide BootStep;
  }

  lemma BootNearer(s: State, base: nat)
    requires !Finished(s) && ListedExist(s) && Signals(s) && (s.line == WriteStack ==> FreshStack(s, base))
    requires s.line == TestMagic || s.line == SendStartup || s.line == AwaitDone ==>
      s.aps[s.cpu].pc == Done || (!Started(s.aps[s.cpu].pc) && s.aps[s.cpu].inbox == [])
    ensures Nearer(Step(s, Boot(base)), s)
  {
    hide FreshStack, DeliverStep, RunStep;
  }

  lemma HelpfulIsNearer(s: State, base: nat)
    requires !Finished(s) && ListedExist(s) && Pending(s) && Signals(s)
    requires s.line == WriteStack ==> FreshStack(s, base)
    ensures Nearer(Step(s, Helpful(s, base)), s)
  {
    hide FreshStack, Step, StepsLeft, LinesLeft, Pending, Signals;
    if Helpful(s, base) == Boot(base) {
      BootNearer(s, base);
    } else {
      ProcessorNearer(s, base);
    }
  }

  lemma ListedKeeps(s: State, e: Event)
    requires ListedExist(s)
    ensures ListedExist(Step(s, e))
  {
  }

  lemma SignalsHold(s: State)
    requires Inv(s)
    ensures Signals(s)
  {
  }

  lemma {:induction false} AllBelow(stacks: map<nat, nat>, keys: set<nat>) returns (b: nat)
    requires forall i :: i in keys ==> i in stacks
    ensures forall i :: i in keys ==> stacks[i] <= b
  {
    if keys == {} {
      b := 0;
    } else {
      var k :| k in keys;
      b := AllBelow(stacks, keys - {k});
      b := if stacks[k] <= b then b else stacks[k];
      assert forall i :: i in keys ==> i == k || i in keys - {k};
    }
  }

  lemma SomeFreshStack(s: State) returns (base: nat)
    ensures FreshStack(s, base)
  {
    base := AllBelow(s.stacks, s.stacks.Keys);
  }

  /** The rest of the boot, one useful step after the other. */
  lemma {:induction false} Completes(s: State) returns (events: seq<Event>)
    requires Inv(s) && Pending(s) && ListedExist(s)
    ensures Finished(Execute(s, events))
    decreases |s.todo|, LinesLeft(s.line), StepsLeft(s)
  {
    hide Inv, Pending, ListedExist, Signals, Finished, FreshStack, Helpful, Execute, Step, LinesLeft, StepsLeft;
    if Finished(s) {
      events := [];
      ExecuteUnfolds(s, []);
    } else {
      var base := SomeFreshStack(s);
      var e := Helpful(s, base);
      SignalsHold(s);
      HelpfulIsNearer(s, base);
      ListedKeeps(s, e);
      if s.line == SendInit && s.cpu in s.aps {
        BeforeInit(s);
      }
      PendingKeeps(s, e);
      StepKeeps(s, e);
      var rest := Completes(Step(s, e));
      events := [e] + rest;
      OneStep(s, e);
      ExecuteAppend(s, [e], rest);
    }
  }

  // ----- the boot as a whole -----

  /** From every state that any run reaches, the end of the list can still be reached, if and only if
      every processor on it exists. A missing one keeps the STARTUP loop going for ever. */
  lemma BootCanFinish(s: State, events: seq<Event>)
    requires Initial(s)
    ensures CanFinish(Execute(s, events)) <==> forall j :: j in s.todo && j != 0 ==> j in s.aps
  {
    hide *;
    var t := Execute(s, events);
    RunAccounts(s, events);
    ExecuteKeeps(s, events);
    if forall j :: j in s.todo && j != 0 ==> j in s.aps {
      StillExist(s.todo, s, t);
      var rest := Completes(t);
      FinishFound(t, rest);
    }
    if CanFinish(t) {
      var rest := FinishOf(t);
      ExecuteAppend(s, events, rest);
      RunAccounts(s, events + rest);
      FinishedExist(s.todo, Execute(t, rest));
    }
  }

  /** At the end of the list every processor on it has been created and has finished, and no other has
      been started. */
  lemma EveryListedStarts(s: State, events: seq<Event>, j: nat)
    requires Initial(s) && Finished(Execute(s, events)) && j != 0
    ensures var t := Execute(s, events);
      && (j in s.todo ==> j in t.created && j in t.aps && t.aps[j].pc == Done)
      && (j !in s.todo && j in t.aps ==> j !in t.created && !Started(t.aps[j].pc))
  {
    RunAccounts(s, events);
    ReturnMeansFinished(s, events, j);
    hide Execute, Initial, Pending;
  }

  lemma StillExist(list: seq<nat>, s: State, t: State)
    requires Accounts(list, t) && t.aps.Keys == s.aps.Keys
    requires forall j :: j in list && j != 0 ==> j in s.aps
    ensures ListedExist(t)
  {
    assert forall j :: j in s.aps.Keys <==> j in t.aps.Keys;
  }

  lemma FinishedExist(list: seq<nat>, t: State)
    requires Accounts(list, t) && ReturnedExist(t) && Finished(t)
    ensures forall j :: j in list && j != 0 ==> j in t.aps.Keys
  {
  }

  lemma FinishFound(t: State, events: seq<Event>)
    requires Finished(Execute(t, events))
    ensures CanFinish(t)
  {
    hide Execute;
  }

  lemma FinishOf(t: State) returns (events: seq<Event>)
    requires CanFinish(t)
    ensures Finished(Execute(t, events))
  {
    hide Execute;
    events :| Finished(Execute(t, events));
  }

  // ----- fair schedules -----

  /** The state before event n of an endless schedule. */
  function StateAt(s: State, schedule: nat -> Event, n: nat): State {
    if n == 0 then s else Step(StateAt(s, schedule, n - 1), schedule(n - 1))
  }

  ghost predicate BootSoon(schedule: nat -> Event, i: nat) {
    exists k: nat :: i <= k && schedule(k).Boot?
  }

  ghost predicate Soon(schedule: nat -> Event, i: nat, e: Event) {
    exists k: nat :: i <= k && schedule(k) == e
  }

  /** No processor and no message is passed over for ever, and memory does not run out: the pages for a
      stack are ones that no earlier stack uses. */
  ghost predicate Fair(s: State, schedule: nat -> Event) {
    && (forall i: nat :: BootSoon(schedule, i))
    && (forall i: nat, j: nat :: Soon(schedule, i, Deliver(j)) && Soon(schedule, i, Run(j)))
    && (forall n: nat :: StateAt(s, schedule, n).line == WriteStack && schedule(n).Boot? ==>
          FreshStack(StateAt(s, schedule, n), schedule(n).stackBase))
  }

  /** The same way to go. */
  ghost predicate AsFar(t: State, s: State) {
    |t.todo| == |s.todo| && LinesLeft(t.line) == LinesLeft(s.line) && StepsLeft(t) == StepsLeft(s)
  }

  predicate IsHelpful(s: State, e: Event) {
    e == Helpful(s, if e.Boot? then e.stackBase else 0)
  }

  /** Any other event leads no farther away, and leaves the useful one useful. */
  lemma OthersDoNotHarm(s: State, e: Event)
    requires !Finished(s) && ListedExist(s) && Pending(s) && Signals(s) && !IsHelpful(s, e)
    ensures var t := Step(s, e);
      Nearer(t, s) || (!Finished(t) && AsFar(t, s) && forall f :: IsHelpful(s, f) ==> IsHelpful(t, f))
  {
    match e
    case Boot(base) => BootDoesNotHarm(s, base);
    case Deliver(j) => DeliverDoesNotHarm(s, j);
    case Run(j) => RunDoesNotHarm(s, j);
  }

  lemma BootDoesNotHarm(s: State, base: nat)
    requires ListedExist(s) && Signals(s) && !IsHelpful(s, Boot(base))
    ensures var t := BootStep(s, base);
      Nearer(t, s) || (!Finished(t) && AsFar(t, s) && forall f :: IsHelpful(s, f) ==> IsHelpful(t, f))
  {
  }

  lemma DeliverDoesNotHarm(s: State, j: nat)
    requires !Finished(s) && Pending(s) && Signals(s) && !IsHelpful(s, Deliver(j))
    ensures var t := DeliverStep(s, j);
      !Finished(t) && AsFar(t, s) && forall f :: IsHelpful(s, f) ==> IsHelpful(t, f)
  {
  }

  lemma RunDoesNotHarm(s: State, j: nat)
    requires !Finished(s) && !IsHelpful(s, Run(j))
    ensures var t := RunStep(s, j);
      !Finished(t) && AsFar(t, s) && forall f :: IsHelpful(s, f) ==> IsHelpful(t, f)
  {
  }

  lemma HelpfulHelps(s: State, e: Event)
    requires !Finished(s) && ListedExist(s) && Pending(s) && Signals(s) && IsHelpful(s, e)
    requires s.line == WriteStack && e.Boot? ==> FreshStack(s, e.stackBase)
    ensures Nearer(Step(s, e), s)
  {
    HelpfulIsNearer(s, if e.Boot? then e.stackBase else 0);
  }

  /** What holds all along. */
  ghost predicate OnTheWay(s: State) {
    Inv(s) && Pending(s) && ListedExist(s)
  }

  lemma OnTheWayKeeps(s: State, e: Event)
    requires OnTheWay(s)
    ensures OnTheWay(Step(s, e))
  {
    hide Inv, Pending, ListedExist, Step;
    ListedKeeps(s, e);
    if s.line == SendInit && s.cpu in s.aps {
      BeforeInit(s);
    }
    PendingKeeps(s, e);
    StepKeeps(s, e);
  }

  lemma StateAfter(s: State, schedule: nat -> Event, n: nat)
    ensures StateAt(s, schedule, n + 1) == Step(StateAt(s, schedule, n), schedule(n))
  {
    hide Step;
  }

  /** If the useful event of state i comes at k, some state after i and up to k + 1 is nearer. */
  lemma {:induction false} NearerBy(s: State, schedule: nat -> Event, i: nat, k: nat) returns (j: nat)
    requires Fair(s, schedule) && i <= k && OnTheWay(StateAt(s, schedule, i)) && !Finished(StateAt(s, schedule, i))
    requires IsHelpful(StateAt(s, schedule, i), schedule(k))
    ensures Nearer(StateAt(s, schedule, j), StateAt(s, schedule, i)) && OnTheWay(StateAt(s, schedule, j))
    decreases k - i
  {
    hide *;
    var t, e := StateAt(s, schedule, i), schedule(i);
    StateAfter(s, schedule, i);
    WayFacts(t);
    OnTheWayKeeps(t, e);
    j := i + 1;
    if IsHelpful(t, e) {
      FreshInTime(s, schedule, i);
      HelpfulHelps(t, e);
    } else {
      OthersDoNotHarm(t, e);
      if !Nearer(Step(t, e), t) {
        assert i < k;
        j := NearerBy(s, schedule, i + 1, k);
        AsNear(StateAt(s, schedule, j), Step(t, e), t);
      }
    }
  }

  lemma AsNear(u: State, t: State, s: State)
    requires Nearer(u, t) && AsFar(t, s)
    ensures Nearer(u, s)
  {
  }

  lemma WayFacts(s: State)
    requires OnTheWay(s)
    ensures Inv(s) && Pending(s) && ListedExist(s) && Signals(s)
  {
    hide Inv, Pending, ListedExist;
    SignalsHold(s);
  }

  lemma FreshInTime(s: State, schedule: nat -> Event, n: nat)
    requires Fair(s, schedule)
    ensures StateAt(s, schedule, n).line == WriteStack && schedule(n).Boot? ==>
      FreshStack(StateAt(s, schedule, n), schedule(n).stackBase)
  {
    hide StateAt, FreshStack;
  }

  /** The useful event of a state comes. */
  lemma HelpComes(s: State, schedule: nat -> Event, i: nat, t: State) returns (k: nat)
    requires Fair(s, schedule)
    ensures i <= k && IsHelpful(t, schedule(k))
  {
    hide StateAt, FreshStack;
    match Helpful(t, 0)
    case Boot(_) =>
      assert BootSoon(schedule, i);
      k :| i <= k && schedule(k).Boot?;
    case Deliver(j) =>
      assert Soon(schedule, i, Deliver(j));
      k :| i <= k && schedule(k) == Deliver(j);
    case Run(j) =>
      assert Soon(schedule, i, Run(j));
      k :| i <= k && schedule(k) == Run(j);
  }

  lemma {:induction false} EndComes(s: State, schedule: nat -> Event, i: nat) returns (n: nat)
    requires Fair(s, schedule) && OnTheWay(StateAt(s, schedule, i))
    ensures Finished(StateAt(s, schedule, n))
    decreases |StateAt(s, schedule, i).todo|, LinesLeft(StateAt(s, schedule, i).line), StepsLeft(StateAt(s, schedule, i))
  {
    hide Fair, OnTheWay, StateAt, Finished, LinesLeft, StepsLeft, IsHelpful, Step;
    var t := StateAt(s, schedule, i);
    if Finished(t) {
      n := i;
    } else {
      var k := HelpComes(s, schedule, i, t);
      var j := NearerBy(s, schedule, i, k);
      n := EndComes(s, schedule, j);
    }
  }

  /** Under every fair schedule the boot comes to its end, if all the processors on the list exist. */
  lemma FairBootFinishes(s: State, schedule: nat -> Event)
    requires Initial(s) && Fair(s, schedule)
    requires forall j :: j in s.todo && j != 0 ==> j in s.aps
    ensures exists n: nat :: Finished(StateAt(s, schedule, n))
  {
    hide Fair, Finished, Accounts, Pending;
    assert StateAt(s, schedule, 0) == s;
    InitialInv(s);
    InitialAccounts(s);
    var n := EndComes(s, schedule, 0);
  }
}
