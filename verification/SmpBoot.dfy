/** The SMP boot handshake: one boot processor and any number of application processors share one
    trampoline data area. Every store and load of the area is a step of its own, and memory is
    sequentially consistent. Interrupt messages to one processor arrive in the order in which they
    were sent, at any later time. A STARTUP message reaches a processor that waits for one; in any
    other state it is dropped (section 8.4 of the Intel SDM, volume 3A). A run is a sequence of
    events; an event that is not enabled changes nothing, so every interleaving is such a sequence. */
module SmpBoot {

  const Magic: nat := 0xB33F
  const StackSize: nat := 16384

  datatype Message = Init | Startup

  /** Where an application processor is. Parked is its state before its first INIT. */
  datatype ApPc =
    Parked | WaitForStartup | WriteMagic | ReadCr3 | ReadGdt | ReadStack | ReadId | ReadEntry | InEntry | Done

  datatype Ap = Ap(pc: ApPc, cr3: nat, gdt: nat, stack: nat, id: nat, entry: nat, inbox: seq<Message>)

  /** The statements of InitializeProcessor; Next is the loop over the processor list around it. */
  datatype Line =
    Next | Create | ClearMagic | WriteId | WriteEntry | WriteStack | WriteGdt | WriteCr3
    | SendInit | TestMagic | SendStartup | AwaitDone | ResetDone

  /** The trampoline data area. */
  datatype Area = Area(magic: nat, id: nat, entry: nat, stack: nat, gdt: nat, cr3: nat)

  datatype Kernel = Kernel(cr3: nat, gdt: nat, entry: nat)

  datatype State = State(
    kernel: Kernel,
    line: Line, cpu: nat, todo: seq<nat>,
    area: Area, doneInit: bool,
    created: set<nat>,          // cpus[i] is not null
    stacks: map<nat, nat>,      // stack top handed to each processor
    aps: map<nat, Ap>)

  datatype Event =
    | Boot(stackBase: nat)      // the boot processor's next step; a stack if it allocates one
    | Deliver(ap: nat)          // the oldest message arrives at a processor
    | Run(ap: nat)              // an application processor's next step

  /** KernelAllocate4KPages(4) hands out four pages that no earlier stack uses. */
  predicate FreshStack(s: State, base: nat) {
    forall i :: i in s.stacks ==> base + StackSize <= s.stacks[i] - StackSize || s.stacks[i] <= base
  }

  function Send(s: State, m: Message): State {
    if s.cpu in s.aps then s.(aps := s.aps[s.cpu := s.aps[s.cpu].(inbox := s.aps[s.cpu].inbox + [m])]) else s
  }

  function BootStep(s: State, base: nat): State {
    match s.line
    case Next =>
      if s.todo == [] then s else
        var k := s.todo[0];
        var t := s.(todo := s.todo[1..], cpu := k);
        if k == 0 || k in s.created then t else t.(line := Create)
    case Create => s.(created := s.created + {s.cpu}, line := ClearMagic)
    case ClearMagic => s.(area := s.area.(magic := 0), line := WriteId)
    case WriteId => s.(area := s.area.(id := s.cpu), line := WriteEntry)
    case WriteEntry => s.(area := s.area.(entry := s.kernel.entry), line := WriteStack)
    case WriteStack =>
      if FreshStack(s, base) then
        s.(area := s.area.(stack := base + StackSize), stacks := s.stacks[s.cpu := base + StackSize], line := WriteGdt)
      else s
    case WriteGdt => s.(area := s.area.(gdt := s.kernel.gdt), line := WriteCr3)
    case WriteCr3 => s.(area := s.area.(cr3 := s.kernel.cr3), line := SendInit)
    case SendInit => Send(s, Init).(line := TestMagic)
    case TestMagic => s.(line := if s.area.magic == Magic then AwaitDone else SendStartup)
    case SendStartup => Send(s, Startup).(line := TestMagic)
    case AwaitDone => if s.doneInit then s.(line := ResetDone) else s
    case ResetDone => s.(doneInit := false, line := Next)
  }

  function DeliverStep(s: State, j: nat): State {
    if j !in s.aps || s.aps[j].inbox == [] then s else
      var a := s.aps[j].(inbox := s.aps[j].inbox[1..]);
      var b :=
        if s.aps[j].inbox[0] == Init then a.(pc := WaitForStartup)
        else if a.pc == WaitForStartup then a.(pc := WriteMagic)
        else a;
      s.(aps := s.aps[j := b])
  }

  /** The trampoline loads cr3 as a 32-bit word, and TrampolineEntry takes its id as 16 bits. */
  function RunStep(s: State, j: nat): State {
    if j !in s.aps then s else
      var a := s.aps[j];
      match a.pc
      case WriteMagic => s.(area := s.area.(magic := Magic), aps := s.aps[j := a.(pc := ReadCr3)])
      case ReadCr3 => s.(aps := s.aps[j := a.(cr3 := s.area.cr3 % 0x1_0000_0000, pc := ReadGdt)])
      case ReadGdt => s.(aps := s.aps[j := a.(gdt := s.area.gdt, pc := ReadStack)])
      case ReadStack => s.(aps := s.aps[j := a.(stack := s.area.stack, pc := ReadId)])
      case ReadId => s.(aps := s.aps[j := a.(id := s.area.id % 0x1_0000, pc := ReadEntry)])
      case ReadEntry => s.(aps := s.aps[j := a.(entry := s.area.entry, pc := InEntry)])
      case InEntry => s.(doneInit := true, aps := s.aps[j := a.(pc := Done)])
      case _ => s
  }

  function Step(s: State, e: Event): State {
    match e
    case Boot(base) => BootStep(s, base)
    case Deliver(j) => DeliverStep(s, j)
    case Run(j) => RunStep(s, j)
  }

  function Execute(s: State, events: seq<Event>): State {
    if events == [] then s else Step(Execute(s, events[..|events| - 1]), events[|events| - 1])
  }

  /** Before Initialize's loop: nobody but processor 0 exists for the kernel, nothing is in flight.
      Processor ids are bytes. */
  ghost predicate Initial(s: State) {
    && s.line == Next && !s.doneInit && s.created == {0} && s.stacks == map[]
    && (forall i :: 0 <= i < |s.todo| ==> s.todo[i] < 256)
    && (forall j :: j in s.aps ==> (s.aps[j].pc == Parked || s.aps[j].pc == WaitForStartup) && s.aps[j].inbox == [])
  }

  // ----- the invariant -----

  predicate Started(pc: ApPc) {
    pc != Parked && pc != WaitForStartup
  }

  /** Between leaving the wait for STARTUP and setting doneInit. */
  predicate Booting(pc: ApPc) {
    Started(pc) && pc != Done
  }

  ghost predicate OnlyStartups(inbox: seq<Message>) {
    forall i :: 0 <= i < |inbox| ==> inbox[i] == Startup
  }

  predicate PastInit(line: Line) {
    line == TestMagic || line == SendStartup || line == AwaitDone || line == ResetDone
  }

  /** What the processor has loaded so far is what was stored for it. */
  ghost predicate Loaded(s: State, j: nat)
    requires j in s.aps
  {
    var a := s.aps[j];
    && (a.pc == ReadGdt || a.pc == ReadStack || a.pc == ReadId || a.pc == ReadEntry || a.pc == InEntry || a.pc == Done ==>
          a.cr3 == s.kernel.cr3 % 0x1_0000_0000)
    && (a.pc == ReadStack || a.pc == ReadId || a.pc == ReadEntry || a.pc == InEntry || a.pc == Done ==>
          a.gdt == s.kernel.gdt)
    && (a.pc == ReadId || a.pc == ReadEntry || a.pc == InEntry || a.pc == Done ==>
          j in s.stacks && a.stack == s.stacks[j])
    && (a.pc == ReadEntry || a.pc == InEntry || a.pc == Done ==> a.id == j && j in s.created)
    && (a.pc == InEntry || a.pc == Done ==> a.entry == s.kernel.entry)
  }

  /** A processor that is not being booted has finished, or was never touched. */
  ghost predicate AtRest(s: State, j: nat)
    requires j in s.aps
  {
    var a := s.aps[j];
    && Loaded(s, j)
    && if j in s.stacks then a.pc == Done && OnlyStartups(a.inbox) else !Started(a.pc) && a.inbox == []
  }

  /** The area as InitializeProcessor has filled it so far. */
  ghost predicate Filled(s: State) {
    var l := s.line;
    && (l != Next ==> 0 < s.cpu < 256)
    && (l != Next && l != Create ==> s.cpu in s.created)
    && (PastInit(l) || l == SendInit || l == WriteCr3 || l == WriteGdt || l == WriteStack || l == WriteEntry ==>
          s.area.id == s.cpu)
    && (PastInit(l) || l == SendInit || l == WriteCr3 || l == WriteGdt || l == WriteStack ==> s.area.entry == s.kernel.entry)
    && (PastInit(l) || l == SendInit || l == WriteCr3 || l == WriteGdt ==>
          s.cpu in s.stacks && s.area.stack == s.stacks[s.cpu])
    && (PastInit(l) || l == SendInit || l == WriteCr3 ==> s.area.gdt == s.kernel.gdt)
    && (PastInit(l) || l == SendInit ==> s.area.cr3 == s.kernel.cr3)
    && (l == WriteId || l == WriteEntry || l == WriteStack || l == WriteGdt || l == WriteCr3 || l == SendInit ==>
          s.area.magic == 0)
  }

  /** The processor being booted. Its INIT comes before every STARTUP, and magic and doneInit tell
      how far it is. */
  ghost predicate UnderWay(s: State) {
    s.cpu in s.aps ==>
      var a := s.aps[s.cpu];
      && Loaded(s, s.cpu)
      && (OnlyStartups(a.inbox)
          || (!Started(a.pc) && a.inbox != [] && a.inbox[0] == Init && OnlyStartups(a.inbox[1..])))
      && (Started(a.pc) ==> OnlyStartups(a.inbox))
      && (s.area.magic == if Started(a.pc) && a.pc != WriteMagic then Magic else 0)
      && (s.doneInit <==> a.pc == Done)
  }

  /** Stacks of different processors do not overlap. */
  ghost predicate StacksApart(s: State) {
    && (forall i :: i in s.stacks ==> s.stacks[i] >= StackSize)
    && (forall i, j :: i in s.stacks && j in s.stacks && i != j ==>
          s.stacks[i] <= s.stacks[j] - StackSize || s.stacks[j] <= s.stacks[i] - StackSize)
  }

  /** While line is before SendInit of a processor that got its stack, it has not been started. */
  ghost predicate CurrentUntouched(s: State) {
    s.cpu in s.aps ==> !Started(s.aps[s.cpu].pc) && s.aps[s.cpu].inbox == []
  }

  /** The list, the stacks and the area. */
  ghost predicate Bookkeeping(s: State) {
    && (forall i :: 0 <= i < |s.todo| ==> s.todo[i] < 256)
    && 0 in s.created && 0 !in s.stacks
    && Filled(s) && StacksApart(s)
    && (forall i :: i in s.stacks ==> i in s.created)
    && (s.line == Create ==> s.cpu !in s.created)
    && (s.line == Create || s.line == ClearMagic || s.line == WriteId || s.line == WriteEntry || s.line == WriteStack ==>
          s.cpu !in s.stacks)
    && (forall j :: j in s.created && j != 0 && (s.line == Next || j != s.cpu) ==> j in s.stacks)
  }

  /** The processors and the two flags. */
  ghost predicate Processors(s: State) {
    && (forall j :: j in s.aps && (s.line == Next || j != s.cpu) ==> AtRest(s, j))
    && (s.line != Next && !PastInit(s.line) ==> CurrentUntouched(s))
    && (PastInit(s.line) ==> UnderWay(s) && (s.cpu !in s.aps ==> !s.doneInit && s.area.magic == 0))
    && (s.line == AwaitDone || s.line == ResetDone ==> s.area.magic == Magic)
    && (s.line == ResetDone ==> s.doneInit)
    && (!PastInit(s.line) ==> !s.doneInit)
  }

  ghost predicate Inv(s: State) {
    Bookkeeping(s) && Processors(s)
  }

  lemma InitialInv(s: State)
    requires Initial(s)
    ensures Inv(s)
  {
  }

  lemma AreaFilled(s: State)
    requires Inv(s)
    ensures Filled(s) && (s.line != Next && s.line != Create ==> s.cpu in s.created)
    ensures PastInit(s.line) ==> s.cpu in s.stacks
  {
  }

  lemma NextKeeps(s: State, base: nat)
    requires Inv(s) && s.line == Next
    ensures Inv(BootStep(s, base))
  {
  }

  lemma FillKeeps(s: State, base: nat)
    requires Inv(s)
    requires s.line == Create || s.line == ClearMagic || s.line == WriteId || s.line == WriteEntry
    ensures Inv(BootStep(s, base))
  {
  }

  lemma StackKeeps(s: State, base: nat)
    requires Inv(s) && s.line == WriteStack
    ensures Inv(BootStep(s, base))
  {
  }

  lemma TablesKeep(s: State, base: nat)
    requires Inv(s) && (s.line == WriteGdt || s.line == WriteCr3)
    ensures Inv(BootStep(s, base))
  {
  }

  lemma InitKeepsBooks(s: State, base: nat)
    requires Inv(s) && s.line == SendInit
    ensures Bookkeeping(BootStep(s, base))
  {
    hide AtRest, Loaded, OnlyStartups, CurrentUntouched;
  }

  lemma InitKeeps(s: State, base: nat)
    requires Inv(s) && s.line == SendInit
    ensures Inv(BootStep(s, base))
  {
    hide Bookkeeping, StacksApart;
    InitKeepsBooks(s, base);
    AreaFilled(s);
  }

  lemma TestKeepsBooks(s: State, base: nat)
    requires Inv(s) && (s.line == TestMagic || s.line == AwaitDone)
    ensures Bookkeeping(BootStep(s, base))
  {
    hide AtRest, Loaded, OnlyStartups, CurrentUntouched;
  }

  lemma TestKeeps(s: State, base: nat)
    requires Inv(s) && (s.line == TestMagic || s.line == AwaitDone)
    ensures Inv(BootStep(s, base))
  {
    hide Bookkeeping, StacksApart;
    TestKeepsBooks(s, base);
    AreaFilled(s);
  }

  lemma StartupKeepsBooks(s: State, base: nat)
    requires Inv(s) && s.line == SendStartup
    ensures Bookkeeping(BootStep(s, base))
  {
    hide AtRest, Loaded, OnlyStartups, CurrentUntouched;
  }

  lemma StartupKeeps(s: State, base: nat)
    requires Inv(s) && s.line == SendStartup
    ensures Inv(BootStep(s, base))
  {
    hide Bookkeeping, StacksApart;
    StartupKeepsBooks(s, base);
    AreaFilled(s);
  }

  lemma ReturnKeepsBooks(s: State, base: nat)
    requires Inv(s) && s.line == ResetDone
    ensures Bookkeeping(BootStep(s, base))
  {
    hide AtRest, Loaded, OnlyStartups, CurrentUntouched;
  }

  lemma ReturnKeeps(s: State, base: nat)
    requires Inv(s) && s.line == ResetDone
    ensures Inv(BootStep(s, base))
  {
    hide Bookkeeping, StacksApart;
    ReturnKeepsBooks(s, base);
    AreaFilled(s);
  }

  lemma BootKeeps(s: State, base: nat)
    requires Inv(s)
    ensures Inv(BootStep(s, base))
  {
    hide *;
    match s.line
    case Next => NextKeeps(s, base);
    case Create => FillKeeps(s, base);
    case ClearMagic => FillKeeps(s, base);
    case WriteId => FillKeeps(s, base);
    case WriteEntry => FillKeeps(s, base);
    case WriteStack => StackKeeps(s, base);
    case WriteGdt => TablesKeep(s, base);
    case WriteCr3 => TablesKeep(s, base);
    case SendInit => InitKeeps(s, base);
    case TestMagic => TestKeeps(s, base);
    case SendStartup => StartupKeeps(s, base);
    case AwaitDone => TestKeeps(s, base);
    case ResetDone => ReturnKeeps(s, base);
  }

  /** Only the processor being booted ever leaves its state of rest, and only once its INIT is out. */
  lemma OnlyCurrentBoots(s: State, j: nat)
    requires Inv(s) && j in s.aps && Booting(s.aps[j].pc)
    ensures j == s.cpu && PastInit(s.line) && s.line != ResetDone && !s.doneInit && UnderWay(s)
  {
  }

  /** Mail is either the current processor's, or a stale STARTUP for a finished one. */
  lemma MailOnly(s: State, j: nat)
    requires Inv(s) && j in s.aps && s.aps[j].inbox != []
    ensures (j == s.cpu && PastInit(s.line)) || (s.aps[j].pc == Done && OnlyStartups(s.aps[j].inbox))
  {
  }

  lemma StaleMailKeeps(s: State, j: nat)
    requires Inv(s) && j in s.aps && s.aps[j].inbox != [] && s.aps[j].pc == Done && OnlyStartups(s.aps[j].inbox)
    ensures Inv(DeliverStep(s, j))
  {
  }

  lemma CurrentMailKeepsBooks(s: State, j: nat)
    requires Inv(s) && j in s.aps && s.aps[j].inbox != [] && s.aps[j].pc != Done && j == s.cpu && PastInit(s.line)
    ensures Bookkeeping(DeliverStep(s, j))
  {
    hide AtRest, Loaded, OnlyStartups, CurrentUntouched;
  }

  lemma CurrentMailKeeps(s: State, j: nat)
    requires Inv(s) && j in s.aps && s.aps[j].inbox != [] && s.aps[j].pc != Done && j == s.cpu && PastInit(s.line)
    ensures Inv(DeliverStep(s, j))
  {
    hide Bookkeeping, StacksApart;
    CurrentMailKeepsBooks(s, j);
    AreaFilled(s);
  }

  lemma DeliverKeeps(s: State, j: nat)
    requires Inv(s)
    ensures Inv(DeliverStep(s, j))
  {
    if j in s.aps && s.aps[j].inbox != [] {
      MailOnly(s, j);
      if s.aps[j].pc == Done {
        DoneMail(s, j);
        StaleMailKeeps(s, j);
      } else {
        hide Inv;
        CurrentMailKeeps(s, j);
      }
    }
  }

  lemma DoneMail(s: State, j: nat)
    requires Inv(s) && j in s.aps && s.aps[j].pc == Done
    ensures OnlyStartups(s.aps[j].inbox)
  {
  }

  lemma TablesLoadKeeps(s: State, j: nat)
    requires Inv(s) && j in s.aps && j == s.cpu && PastInit(s.line) && UnderWay(s)
    requires s.aps[j].pc == ReadCr3 || s.aps[j].pc == ReadGdt
    ensures Inv(RunStep(s, j))
  {
  }

  lemma SlotsLoadKeepsBooks(s: State, j: nat)
    requires Inv(s) && j in s.aps && j == s.cpu && PastInit(s.line) && UnderWay(s)
    requires s.aps[j].pc == ReadStack || s.aps[j].pc == ReadId || s.aps[j].pc == ReadEntry
    ensures Bookkeeping(RunStep(s, j))
  {
    hide AtRest, Loaded, OnlyStartups, CurrentUntouched;
  }

  lemma SlotsLoadKeeps(s: State, j: nat)
    requires Inv(s) && j in s.aps && j == s.cpu && PastInit(s.line) && UnderWay(s)
    requires s.aps[j].pc == ReadStack || s.aps[j].pc == ReadId || s.aps[j].pc == ReadEntry
    ensures Inv(RunStep(s, j))
  {
    hide Bookkeeping, StacksApart;
    SlotsLoadKeepsBooks(s, j);
    AreaFilled(s);
  }

  lemma FlagKeeps(s: State, j: nat)
    requires Inv(s) && j in s.aps && j == s.cpu && PastInit(s.line) && s.line != ResetDone && !s.doneInit && UnderWay(s)
    requires s.aps[j].pc == WriteMagic || s.aps[j].pc == InEntry
    ensures Inv(RunStep(s, j))
  {
  }

  lemma RunKeeps(s: State, j: nat)
    requires Inv(s)
    ensures Inv(RunStep(s, j))
  {
    if j in s.aps && Booting(s.aps[j].pc) {
      OnlyCurrentBoots(s, j);
      hide Inv, RunStep;
      if s.aps[j].pc == WriteMagic || s.aps[j].pc == InEntry {
        FlagKeeps(s, j);
      } else if s.aps[j].pc == ReadCr3 || s.aps[j].pc == ReadGdt {
        TablesLoadKeeps(s, j);
      } else {
        SlotsLoadKeeps(s, j);
      }
    } else {
      assert RunStep(s, j) == s;
    }
  }

  lemma StepKeeps(s: State, e: Event)
    requires Inv(s)
    ensures Inv(Step(s, e)) && Step(s, e).kernel == s.kernel
  {
    SameKernel(s, e);
    hide Inv, BootStep, DeliverStep, RunStep;
    match e
    case Boot(base) => BootKeeps(s, base);
    case Deliver(j) => DeliverKeeps(s, j);
    case Run(j) => RunKeeps(s, j);
  }

  lemma SameKernel(s: State, e: Event)
    ensures Step(s, e).kernel == s.kernel
  {
  }

  lemma {:induction false} ExecuteKeeps(s: State, events: seq<Event>)
    requires Initial(s)
    ensures Inv(Execute(s, events)) && Execute(s, events).kernel == s.kernel
  {
    if events == [] {
      InitialInv(s);
    } else {
      hide Inv, Initial, Step;
      var before := events[..|events| - 1];
      ExecuteKeeps(s, before);
      StepKeeps(Execute(s, before), events[|events| - 1]);
    }
  }

  // ----- the handshake -----

  /** In every interleaving at most one application processor is between leaving the wait for
      STARTUP and setting doneInit; it is the one InitializeProcessor is working on, and the boot
      processor is then inside its STARTUP loop or its final spin. In particular the boot processor
      is not allocating a stack while TrampolineEntry allocates its GDT. */
  lemma AtMostOneBooting(s: State, events: seq<Event>, i: nat, j: nat)
    requires Initial(s)
    ensures var t := Execute(s, events);
      && (i in t.aps && j in t.aps && Booting(t.aps[i].pc) && Booting(t.aps[j].pc) ==> i == j)
      && (i in t.aps && Booting(t.aps[i].pc) ==>
            i == t.cpu && (t.line == TestMagic || t.line == SendStartup || t.line == AwaitDone) && !t.doneInit)
  {
    ExecuteKeeps(s, events);
    var t := Execute(s, events);
    if i in t.aps && Booting(t.aps[i].pc) {
      OnlyCurrentBoots(t, i);
    }
    if j in t.aps && Booting(t.aps[j].pc) {
      OnlyCurrentBoots(t, j);
    }
  }

  /** A processor in TrampolineEntry or past it runs with the id, stack, GDT and entry point that
      were stored for it alone, its CPU record exists, and no other stack overlaps its own. Its page
      table root is the kernel's exactly when that lies below 4 GiB. */
  lemma ReadsItsOwnSlots(s: State, events: seq<Event>, j: nat)
    requires Initial(s)
    ensures var t := Execute(s, events);
      j in t.aps && (t.aps[j].pc == InEntry || t.aps[j].pc == Done) ==>
        && t.aps[j].id == j && j in t.created
        && j in t.stacks && t.aps[j].stack == t.stacks[j]
        && t.aps[j].gdt == s.kernel.gdt && t.aps[j].entry == s.kernel.entry
        && (t.aps[j].cr3 == s.kernel.cr3 <==> s.kernel.cr3 < 0x1_0000_0000)
        && (forall i :: i in t.stacks && i != j ==>
              t.stacks[i] <= t.aps[j].stack - StackSize || t.aps[j].stack <= t.stacks[i] - StackSize)
  {
    hide Inv, Execute, Initial;
    ExecuteKeeps(s, events);
    var t := Execute(s, events);
    if j in t.aps && (t.aps[j].pc == InEntry || t.aps[j].pc == Done) {
      RestOrUnderWay(t, j);
    }
  }

  lemma RestOrUnderWay(s: State, j: nat)
    requires Inv(s) && j in s.aps && Started(s.aps[j].pc)
    ensures Loaded(s, j) && StacksApart(s)
  {
  }

  /** InitializeProcessor(k) on first use returns only after k has finished, however many STARTUP
      messages were sent: whenever the loop over the list is between two calls, every processor that
      was created has set doneInit and stays finished, no other has started, and the flag is down
      again for the next call. */
  lemma ReturnMeansFinished(s: State, events: seq<Event>, j: nat)
    requires Initial(s)
    ensures var t := Execute(s, events);
      t.line == Next ==>
        && !t.doneInit
        && (j in t.aps && j != 0 ==> if j in t.created then t.aps[j].pc == Done else !Started(t.aps[j].pc))
  {
    ExecuteKeeps(s, events);
  }

  /** Finished is final: no message still in flight restarts a processor. */
  lemma FinishedStays(s: State, events: seq<Event>, e: Event, j: nat)
    requires Initial(s)
    ensures var t := Execute(s, events);
      j in t.aps && t.aps[j].pc == Done ==> j in Step(t, e).aps && Step(t, e).aps[j].pc == Done
  {
    hide *;
    ExecuteKeeps(s, events);
    var t := Execute(s, events);
    if j in t.aps && t.aps[j].pc == Done {
      DoneMail(t, j);
      DoneStays(t, e, j);
    }
  }

  lemma DoneStays(s: State, e: Event, j: nat)
    requires j in s.aps && s.aps[j].pc == Done && OnlyStartups(s.aps[j].inbox)
    ensures j in Step(s, e).aps && Step(s, e).aps[j].pc == Done
  {
  }
}
