/** User tasks made from ELF files: the file is loaded, and a ready task is created that will enter it. */
module UserTask {
  import opened Scheduler
  import opened Switch
  import E = Elf

  /** Bit 9 of the flags, and no other. */
  const INTERRUPT_FLAG: nat := 0x200

  /** Privilege ring 3, and otherwise the selector given. */
  ghost predicate UserSelector(s: nat, selector: nat) {
    s % 4 == 3 && s / 4 == selector / 4
  }

  /** A context from which user mode is entered at `entry` on the stack at `stackTop`, with only the
      interrupt flag set and all general-purpose registers zero. */
  ghost predicate Enters(c: TaskContext, entry: nat, stackTop: nat, userCode: nat, userData: nat) {
    && c.rip == entry && c.rsp == stackTop
    && UserSelector(c.cs, userCode) && UserSelector(c.ss, userData)
    && c.rflags == INTERRUPT_FLAG
    && forall r :: r in EXIT_POPS ==> Get(c, r) == 0
  }

  lemma NewUserEnters(entry: nat, stackTop: nat, userCode: nat, userData: nat)
    ensures Enters(NewUser(entry, stackTop, userCode, userData), entry, stackTop, userCode, userData)
  {
    var c := NewUser(entry, stackTop, userCode, userData);
    RingOnly(userCode);
    RingOnly(userData);
    forall r | r in EXIT_POPS ensures Get(c, r) == 0 {}
  }

  lemma RingOnly(selector: nat)
    ensures UserSelector(WithRing3(selector), selector)
  {}

  /** Load the file and create a ready task for it. */
  method FromElf(data: seq<E.Byte>, space: E.AddressSpace, id: nat, userCode: nat, userData: nat) returns (r: E.Outcome<Task>)
    requires space.Valid() && E.NoOverflow(data)
    modifies space
    ensures space.Valid() && E.Kept(old(space.Image()), space.Image())
    ensures r.Ok? ==>
              && |data| >= E.HEADER_SIZE && E.Loaded(data, old(space.Image()), space.Image())
              && r.value.id == id && r.value.state == Ready
              && Enters(r.value.context, E.ReadHeader(data).entry, E.USER_STACK_TOP, userCode, userData)
    ensures |data| >= E.HEADER_SIZE && E.HasMagic(data) && E.Is64Bit(data) && !E.Refused(data, old(space.Image())) && !space.Exhausted() ==> r.Ok?
    ensures r == E.Err(E.TooSmall) <==> |data| < E.HEADER_SIZE
    ensures r == E.Err(E.BadMagic) <==> |data| >= E.HEADER_SIZE && !E.HasMagic(data)
    ensures r == E.Err(E.Not64Bit) <==> |data| >= E.HEADER_SIZE && E.HasMagic(data) && !E.Is64Bit(data)
    ensures r.Err? && r.error.MappingFailed? ==> space.Exhausted() || (|data| >= E.HEADER_SIZE && E.Conflict(data, old(space.Image())))
    ensures r.Panic? ==> |data| >= E.HEADER_SIZE && (E.FileTooShort(data) || E.SegmentNotCanonical(data))
  {
    hide E.Loaded, E.NoOverflow, E.Kept, E.Refused, E.ReadHeader, Enters;
    var loaded := E.LoadElf(data, space);
    match loaded
    case Ok(result) =>
      NewUserEnters(result.entryPoint, result.stackTop, userCode, userData);
      return E.Ok(Task(id, Ready, NewUser(result.entryPoint, result.stackTop, userCode, userData)));
    case Err(e) =>
      return E.Err(e);
    case Panic =>
      return E.Panic;
  }

  /** Launching such a task enters the file: the CPU continues at its entry point, on the user stack, in
      ring 3, with only the interrupt flag set. */
  lemma LaunchEnters(before: TaskContext, c: TaskContext, entry: nat, stackTop: nat, userCode: nat, userData: nat)
    requires Enters(c, entry, stackTop, userCode, userData)
    ensures var cpu := Launch(before, c);
            && cpu.rip == entry && cpu.rsp == stackTop
            && UserSelector(cpu.cs, userCode) && UserSelector(cpu.ss, userData)
            && cpu.rflags == INTERRUPT_FLAG
  {
    hide Launch, Get;
    LaunchLoads(before, c);
    FrameLoaded(Launch(before, c), c);
  }
}
