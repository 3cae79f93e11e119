/** Whole runs under a moving collector, and the two theorems together: what a typed run of
    the interpreter computes, the compiled region computes under any collector, up to the
    addresses of the objects. */
module GcTheorem {
  import opened Basics
  import opened Words
  import opened Machine
  import opened Instr
  import opened Typing
  import opened Gc
  import opened GcOps
  import opened GcAlloc
  import opened Interp
  import opened RetPc
  import opened Simulation
  import opened RegionTheorem
  import R = Region

  /** The second call ends as the first does, renamed, unless its collector or allocator
      broke its contract. */
  ghost predicate ExitsRel(l: Layout, e: R.Exit, e': R.Exit) {
    e.Returned? ==>
      || e'.IllegalWorld?
      || (e'.Returned? && e'.newSp == e.newSp && e'.raised == e.raised && e'.at == e.at
          && exists rho :: MemRel(l, rho, e.m, e'.m, e.at))
  }

  ghost predicate LowersRel(l: Layout, env: R.Env, env': R.Env) {
    forall rho, ins, m: R.Mem, m': R.Mem, sp ::
      MemRel(l, rho, m, m', sp) && env.admits(R.Straight(ins), m, sp) ==>
        LowsRel(l, sp, env.lower(ins, m, sp), env'.lower(ins, m', sp))
  }

  ghost predicate TestsRel(l: Layout, env: R.Env, env': R.Env) {
    forall rho, ins, t, n, m: R.Mem, m': R.Mem, sp ::
      MemRel(l, rho, m, m', sp) && env.admits(R.Branch(ins, t, n), m, sp) && env.test(ins, m, sp).Some? ==>
        && env'.test(ins, m', sp) == env.test(ins, m, sp)
        && sp <= env.test(ins, m, sp).value.sp <= |m.stack|
  }

  /** What the run of blocks relies on, instruction by instruction. */
  ghost predicate EnvsRel(l: Layout, env: R.Env, env': R.Env) {
    && l.lo > 0 && env'.cs == env.cs
    && (forall piece, m, sp :: env'.admits(piece, m, sp))
    && LowersRel(l, env, env') && TestsRel(l, env, env')
    && (forall rho, m: R.Mem, m': R.Mem, sp :: MemRel(l, rho, m, m', sp) ==> PollsRel(l, env, env', m, m', sp))
    && (forall callee, closure, m, sp :: env.admits(R.CallNative(callee, closure), m, sp) ==> !l.Movable(closure))
    && (forall popTop, depth, m, sp :: !env.admits(R.CallDynamic(popTop, depth), m, sp))
  }

  ghost predicate PollsRel(l: Layout, env: R.Env, env': R.Env, m: R.Mem, m': R.Mem, sp: int) {
    env.poll(m, sp).Some? && env'.poll(m', sp).Some? ==>
      exists rho :: MemRel(l, rho, env.poll(m, sp).value, env'.poll(m', sp).value, sp)
  }

  lemma EnterRel(l: Layout, rho: Renaming, m: R.Mem, m': R.Mem, sp: int, closure: Word, closure': Word)
    requires l.lo > 0 && MemRel(l, rho, m, m', sp) && WordRel(l, rho, closure, closure')
    requires R.EnterFrame(m, sp, closure).Some?
    ensures R.EnterFrame(m', sp, closure').Some?
    ensures MemRel(l, rho, R.EnterFrame(m, sp, closure).value, R.EnterFrame(m', sp, closure').value, sp - 2)
  {
    ImmovableRel(l, rho, 0);
    StoreRel(l, rho, m, m', sp, sp - 1, 0, 0);
    StoreRel(l, rho, R.StoreAt(m, sp - 1, 0).value, R.StoreAt(m', sp - 1, 0).value, sp - 1, sp - 2, closure, closure');
  }

  lemma ReturnRel(l: Layout, rho: Renaming, m: R.Mem, m': R.Mem, sp: int, n: nat)
    requires MemRel(l, rho, m, m', sp) && R.LoadAt(m, sp).Some?
    requires R.StoreAt(m, sp + n + 2, R.LoadAt(m, sp).value).Some?
    ensures R.LoadAt(m', sp).Some? && R.StoreAt(m', sp + n + 2, R.LoadAt(m', sp).value).Some?
    ensures MemRel(l, rho, R.StoreAt(m, sp + n + 2, R.LoadAt(m, sp).value).value,
      R.StoreAt(m', sp + n + 2, R.LoadAt(m', sp).value).value, sp + n + 2)
  {
    LoadRel(l, rho, m, m', sp, sp);
    var x, y := R.LoadAt(m, sp).value, R.LoadAt(m', sp).value;
    StoreRel(l, rho, m, m', sp, sp + n + 2, x, y);
    PopRel(l, rho, R.StoreAt(m, sp + n + 2, x).value, R.StoreAt(m', sp + n + 2, y).value, sp, sp + n + 2);
  }

  /** Running a block, and all it leads to, is blind to the collector. */
  lemma {:induction false} RunRel(l: Layout, rho: Renaming, env: R.Env, env': R.Env, f: Word, code: seq<R.Piece>,
                                  m: R.Mem, m': R.Mem, sp: int, fuel: nat)
    requires EnvsRel(l, env, env') && MemRel(l, rho, m, m', sp)
    ensures ExitsRel(l, R.Run(env, f, code, m, sp, fuel), R.Run(env', f, code, m', sp, fuel))
    decreases fuel, |code|, 1
  {
    if code != [] && f in env.cs && env.admits(code[0], m, sp) {
      if code[0].Straight? {
        StraightRel(l, rho, env, env', f, code, m, m', sp, fuel);
      } else if code[0].CallNative? {
        if R.EnterFrame(m, sp, code[0].closure).Some? && fuel > 0 {
          CallRel(l, rho, env, env', f, code, m, m', sp, fuel);
        }
      } else if code[0].Ret? {
        if R.LoadAt(m, sp).Some? && R.StoreAt(m, sp + code[0].n + 2, R.LoadAt(m, sp).value).Some? {
          ReturnRel(l, rho, m, m', sp, code[0].n);
        }
      } else {
        LeaveRel(l, rho, env, env', f, code, m, m', sp, fuel);
      }
    }
  }

  lemma {:induction false} StraightRel(l: Layout, rho: Renaming, env: R.Env, env': R.Env, f: Word, code: seq<R.Piece>,
                                       m: R.Mem, m': R.Mem, sp: int, fuel: nat)
    requires EnvsRel(l, env, env') && MemRel(l, rho, m, m', sp)
    requires code != [] && code[0].Straight? && f in env.cs && env.admits(code[0], m, sp)
    ensures ExitsRel(l, R.Run(env, f, code, m, sp, fuel), R.Run(env', f, code, m', sp, fuel))
    decreases fuel, |code|, 0
  {
    var low, low' := env.lower(code[0].ins, m, sp), env'.lower(code[0].ins, m', sp);
    assert LowsRel(l, sp, low, low');
    if low.Some? && !low.value.BadWorld? && !low'.value.BadWorld? {
      var rho1 :| LowRel(l, rho1, sp, low.value, low'.value);
      if low.value.Cont? {
        RunRel(l, rho1, env, env', f, code[1..], low.value.m, low'.value.m, low.value.sp, fuel);
      }
    }
  }

  lemma {:induction false} LeaveRel(l: Layout, rho: Renaming, env: R.Env, env': R.Env, f: Word, code: seq<R.Piece>,
                                    m: R.Mem, m': R.Mem, sp: int, fuel: nat)
    requires EnvsRel(l, env, env') && MemRel(l, rho, m, m', sp)
    requires code != [] && f in env.cs && env.admits(code[0], m, sp)
    requires code[0].Goto? || code[0].PollGoto? || code[0].Branch? || code[0].CallDynamic?
    ensures ExitsRel(l, R.Run(env, f, code, m, sp, fuel), R.Run(env', f, code, m', sp, fuel))
    decreases fuel, |code|, 0
  {
    if fuel > 0 {
      match code[0] {
        case Goto(t) =>
          RunRel(l, rho, env, env', f, R.BlockAt(env.cs[f], t), m, m', sp, fuel - 1);
        case PollGoto(t) =>
          assert PollsRel(l, env, env', m, m', sp);
          if env.poll(m, sp).Some? && env'.poll(m', sp).Some? {
            var rho1 :| MemRel(l, rho1, env.poll(m, sp).value, env'.poll(m', sp).value, sp);
            RunRel(l, rho1, env, env', f, R.BlockAt(env.cs[f], t), env.poll(m, sp).value, env'.poll(m', sp).value, sp, fuel - 1);
          }
        case Branch(cond, taken, fall) =>
          if env.test(cond, m, sp).Some? {
            var b := env.test(cond, m, sp).value;
            PopRel(l, rho, m, m', sp, b.sp);
            RunRel(l, rho, env, env', f, R.BlockAt(env.cs[f], if b.Taken? then taken else fall), m, m', b.sp, fuel - 1);
          }
        case _ =>
      }
    }
  }

  lemma {:induction false} CallRel(l: Layout, rho: Renaming, env: R.Env, env': R.Env, f: Word, code: seq<R.Piece>,
                                   m: R.Mem, m': R.Mem, sp: int, fuel: nat)
    requires EnvsRel(l, env, env') && MemRel(l, rho, m, m', sp)
    requires code != [] && code[0].CallNative? && f in env.cs && env.admits(code[0], m, sp)
    requires R.EnterFrame(m, sp, code[0].closure).Some? && fuel > 0
    ensures ExitsRel(l, R.Run(env, f, code, m, sp, fuel), R.Run(env', f, code, m', sp, fuel))
    decreases fuel, |code|, 0
  {
    var callee, closure := code[0].callee, code[0].closure;
    ImmovableRel(l, rho, closure);
    EnterRel(l, rho, m, m', sp, closure, closure);
    var m1, m1' := R.EnterFrame(m, sp, closure).value, R.EnterFrame(m', sp, closure).value;
    var e, e' := R.Call(env, callee, m1, sp - 2, fuel - 1), R.Call(env', callee, m1', sp - 2, fuel - 1);
    if callee in env.cs {
      RunRel(l, rho, env, env', callee, env.cs[callee].entry, m1, m1', sp - 2, fuel - 1);
    }
    assert ExitsRel(l, e, e');
    if e.Returned? && e'.Returned? && !e.raised {
      ReturnsAtTop(env, callee, m1, sp - 2, fuel - 1);
      var rho1 :| MemRel(l, rho1, e.m, e'.m, e.at);
      RunRel(l, rho1, env, env', f, code[1..], e.m, e'.m, e.newSp, fuel);
    }
  }

  /** A normal return leaves the stack pointer where the result was stored. */
  lemma {:induction false} ReturnsAtTop(env: R.Env, f: Word, m: R.Mem, sp: int, fuel: nat)
    ensures R.Call(env, f, m, sp, fuel).Returned? && !R.Call(env, f, m, sp, fuel).raised ==>
      R.Call(env, f, m, sp, fuel).at == R.Call(env, f, m, sp, fuel).newSp
  {
    if f in env.cs {
      RunReturnsAtTop(env, f, env.cs[f].entry, m, sp, fuel);
    }
  }

  lemma {:induction false} RunReturnsAtTop(env: R.Env, f: Word, code: seq<R.Piece>, m: R.Mem, sp: int, fuel: nat)
    ensures var e := R.Run(env, f, code, m, sp, fuel);
      e.Returned? && !e.raised ==> e.at == e.newSp
    decreases fuel, |code|
  {
    if code != [] && f in env.cs && env.admits(code[0], m, sp) {
      match code[0] {
        case Straight(ins) =>
          var low := env.lower(ins, m, sp);
          if low.Some? && low.value.Cont? {
            RunReturnsAtTop(env, f, code[1..], low.value.m, low.value.sp, fuel);
          }
        case CallNative(callee, closure) =>
          var m1 := R.EnterFrame(m, sp, closure);
          if m1.Some? && fuel > 0 {
            var e := R.Call(env, callee, m1.value, sp - 2, fuel - 1);
            if e.Returned? && !e.raised {
              RunReturnsAtTop(env, f, code[1..], e.m, e.newSp, fuel);
            }
          }
        case CallDynamic(popTop, depth) =>
          var closure := R.LoadAt(m, if popTop then sp else sp + depth);
          if closure.Some? {
            var e := env.interp(m, if popTop then sp + 1 else sp, closure.value, fuel);
            if e.Returned? && !e.raised {
              RunReturnsAtTop(env, f, code[1..], e.m, e.newSp, fuel);
            }
          }
        case Goto(t) =>
          if fuel > 0 { RunReturnsAtTop(env, f, R.BlockAt(env.cs[f], t), m, sp, fuel - 1); }
        case PollGoto(t) =>
          if fuel > 0 && env.poll(m, sp).Some? {
            RunReturnsAtTop(env, f, R.BlockAt(env.cs[f], t), env.poll(m, sp).value, sp, fuel - 1);
          }
        case Branch(cond, taken, fall) =>
          if fuel > 0 && env.test(cond, m, sp).Some? {
            var b := env.test(cond, m, sp).value;
            RunReturnsAtTop(env, f, R.BlockAt(env.cs[f], if b.Taken? then taken else fall), m, b.sp, fuel - 1);
          }
        case Ret(n) =>
      }
    }
  }

  // ----- the emitted code --------------------------------------------------------------------

  lemma EmittedTestsRel(p: Program, cs: map<Word, R.Compiled>, w: World, w': World)
    requires WorldsRel(w, w')
    ensures TestsRel(w.layout, R.Emitted(p, cs, w, true), R.Emitted(p, cs, w', false))
  {
    var env := R.Emitted(p, cs, w, true);
    forall rho, ins, t, n, m: R.Mem, m': R.Mem, sp |
      MemRel(w.layout, rho, m, m', sp) && env.admits(R.Branch(ins, t, n), m, sp) && R.BranchTest(ins, m, sp).Some?
      ensures R.BranchTest(ins, m', sp) == R.BranchTest(ins, m, sp)
      ensures sp <= R.BranchTest(ins, m, sp).value.sp <= |m.stack|
    {
      BranchRel(w.layout, rho, ins, m, m', sp);
    }
  }

  lemma BranchRel(l: Layout, rho: Renaming, ins: Instr, m: R.Mem, m': R.Mem, sp: int)
    requires MemRel(l, rho, m, m', sp) && TypedIns(l, ins, m.stack, sp, m.heap) && R.BranchTest(ins, m, sp).Some?
    ensures R.BranchTest(ins, m', sp) == R.BranchTest(ins, m, sp)
    ensures sp <= R.BranchTest(ins, m, sp).value.sp <= |m.stack|
  {
    if ins.JumpIf? {
      LoadRel(l, rho, m, m', sp, sp);
      TaggedRel(l, rho, m.stack[sp], m'.stack[sp]);
    } else if ins.JumpNeqLocal? {
      JumpNeqRel(l, rho, ins.k, ins.want, ins.indirect, ins.target, m, m', sp);
    } else {
      LoadRel(l, rho, m, m', sp, sp + ins.k);
      TaggedRel(l, rho, m.stack[sp + ins.k], m'.stack[sp + ins.k]);
    }
  }

  lemma JumpNeqRel(l: Layout, rho: Renaming, k: nat, want: Byte, indirect: bool, t: nat, m: R.Mem, m': R.Mem, sp: int)
    requires MemRel(l, rho, m, m', sp) && TypedIns(l, JumpNeqLocal(k, want, indirect, t), m.stack, sp, m.heap)
    requires R.BranchTest(JumpNeqLocal(k, want, indirect, t), m, sp).Some?
    ensures R.BranchTest(JumpNeqLocal(k, want, indirect, t), m', sp) == R.BranchTest(JumpNeqLocal(k, want, indirect, t), m, sp)
  {
    LoadRel(l, rho, m, m', sp, sp + k);
    TaggedIsTagged(want);
    if indirect {
      FieldRel(l, rho, m, m', sp, sp + k, 0);
      TaggedRel(l, rho, ReadWord(m.heap, m.stack[sp + k], 0).value, ReadWord(m'.heap, m'.stack[sp + k], 0).value);
    } else {
      TaggedRel(l, rho, m.stack[sp + k], m'.stack[sp + k]);
    }
  }

  lemma EmittedPollsRel(p: Program, cs: map<Word, R.Compiled>, w: World, w': World, rho: Renaming, m: R.Mem, m': R.Mem, sp: int)
    requires WorldsRel(w, w') && MemRel(w.layout, rho, m, m', sp)
    ensures PollsRel(w.layout, R.Emitted(p, cs, w, true), R.Emitted(p, cs, w', false), m, m', sp)
  {
    var n, n' := m.(polls := m.polls + 1), m'.(polls := m'.polls + 1);
    assert MemRel(w.layout, rho, n, n', sp);
    if R.Poll(w', m', sp).Some? {
      var rho1 := CollectsTo(w.layout, rho, w', n, n', sp, w'.pollGc(m'.polls));
      if w'.pollGc(m'.polls).Some? {
        assert MemRel(w.layout, rho1, R.Poll(w, m, sp).value, R.Poll(w', m', sp).value, sp);
      }
    }
  }

  lemma EmittedRel(p: Program, cs: map<Word, R.Compiled>, w: World, w': World)
    requires WorldsRel(w, w')
    ensures EnvsRel(w.layout, R.Emitted(p, cs, w, true), R.Emitted(p, cs, w', false))
  {
    var l, env, env' := w.layout, R.Emitted(p, cs, w, true), R.Emitted(p, cs, w', false);
    forall rho, ins, m: R.Mem, m': R.Mem, sp | MemRel(l, rho, m, m', sp) && env.admits(R.Straight(ins), m, sp)
      ensures LowsRel(l, sp, env.lower(ins, m, sp), env'.lower(ins, m', sp))
    {
      LowerRel(rho, w, w', ins, m, m', sp);
    }
    EmittedTestsRel(p, cs, w, w');
    forall rho, m: R.Mem, m': R.Mem, sp | MemRel(l, rho, m, m', sp) ensures PollsRel(l, env, env', m, m', sp) {
      EmittedPollsRel(p, cs, w, w', rho, m, m', sp);
    }
  }

  // ----- the theorems -------------------------------------------------------------------------

  /** The collector is invisible: a well-typed call of a compiled function in a world that
      never collects ends the same way, up to the addresses of the objects, in every world
      that allocates elsewhere and collects and moves what it will, when it will.  The two
      worlds run out of space at the same allocations, and fresh bodies hold the same words. */
  lemma CollectorInvisible(p: Program, cs: map<Word, R.Compiled>, w: World, w': World, rho: Renaming, root: Word,
                           m: R.Mem, m': R.Mem, sp: int, closure: Word, closure': Word, fuel: nat)
    requires WorldsRel(w, w') && MemRel(w.layout, rho, m, m', sp) && WordRel(w.layout, rho, closure, closure')
    ensures ExitsRel(w.layout, R.Dispatch(R.Emitted(p, cs, w, true), root, m, sp, closure, fuel),
      R.Dispatch(R.Emitted(p, cs, w', false), root, m', sp, closure', fuel))
  {
    if R.EnterFrame(m, sp, closure).Some? {
      EnterRel(w.layout, rho, m, m', sp, closure, closure');
      EmittedRel(p, cs, w, w');
      if root in cs {
        RunRel(w.layout, rho, R.Emitted(p, cs, w, true), R.Emitted(p, cs, w', false), root, cs[root].entry,
          R.EnterFrame(m, sp, closure).value, R.EnterFrame(m', sp, closure').value, sp - 2, fuel);
      }
    }
  }

  /** Two endings are renamings of one ending. */
  ghost predicate SameOrigin(l: Layout, e: R.Exit, e1: R.Exit, e2: R.Exit) {
    && e.Returned? && e1.Returned? && e2.Returned? && e1.newSp == e2.newSp == e.newSp && e1.raised == e2.raised == e.raised
    && (exists rho1 :: MemRel(l, rho1, e.m, e1.m, e.at)) && (exists rho2 :: MemRel(l, rho2, e.m, e2.m, e.at))
  }

  /** Two worlds that both collect, each in its own way: where the call ends without
      collections, it ends alike in both, each time up to the addresses of the objects. */
  lemma CollectorsAgree(p: Program, cs: map<Word, R.Compiled>, w: World, w1: World, w2: World, rho1: Renaming, rho2: Renaming,
                        root: Word, m: R.Mem, m1: R.Mem, m2: R.Mem, sp: int, closure: Word, closure1: Word, closure2: Word,
                        fuel: nat)
    requires WorldsRel(w, w1) && MemRel(w.layout, rho1, m, m1, sp) && WordRel(w.layout, rho1, closure, closure1)
    requires WorldsRel(w, w2) && MemRel(w.layout, rho2, m, m2, sp) && WordRel(w.layout, rho2, closure, closure2)
    requires R.Dispatch(R.Emitted(p, cs, w, true), root, m, sp, closure, fuel).Returned?
    ensures var e := R.Dispatch(R.Emitted(p, cs, w, true), root, m, sp, closure, fuel);
      var e1 := R.Dispatch(R.Emitted(p, cs, w1, false), root, m1, sp, closure1, fuel);
      var e2 := R.Dispatch(R.Emitted(p, cs, w2, false), root, m2, sp, closure2, fuel);
      e1.IllegalWorld? || e2.IllegalWorld? || SameOrigin(w.layout, e, e1, e2)
  {
    CollectorInvisible(p, cs, w, w1, rho1, root, m, m1, sp, closure, closure1, fuel);
    CollectorInvisible(p, cs, w, w2, rho2, root, m, m2, sp, closure, closure2, fuel);
  }

  /** The interpreter's state against the compiled code's memory after collections. */
  ghost predicate SameUpToAddresses(l: Layout, rho: Renaming, s: State, m: R.Mem) {
    && HeapRel(l, rho, s.core.heap, m.heap) && |m.stack| == |s.core.stack|
    && forall i :: s.core.sp <= i < |m.stack| && i !in Slots(s.frames) ==> WordRel(l, rho, s.core.stack[i], m.stack[i])
  }

  /** Both results together: a well-typed call that the interpreter finishes without any
      collection, the compiled region finishes under every collector, with the same stack
      pointer, and with heap and live stack equal up to the renaming of moved objects.  An
      exception leaves with the interpreter's packet and the handler's stack pointer.  The
      one excepted ending is the full stack of `RegionPreservesMeaning`. */
  lemma {:induction false} CompiledUnderCollector(p: Program, cs: map<Word, R.Compiled>, w: World, w': World, rho: Renaming, s: State,
                               m: R.Mem, m': R.Mem, closure: Word, closure': Word, root: Word, next: nat, n: nat, fuel: nat)
    requires IsRegion(p, cs) && WorldsRel(w, w') && Agree(s, m) && next < MODULUS && fuel >= 2 * n
    requires MemRel(w.layout, rho, m, m', s.core.sp) && WordRel(w.layout, rho, closure, closure')
    requires ReadWord(s.core.heap, closure, 0) == Some(root) && root in cs
    ensures var r := CallRun(p, Stepping(Typed, p, w), s, closure, next, n);
      var e := R.Dispatch(R.Emitted(p, cs, w', false), root, m', s.core.sp, closure', fuel);
      Ends(r) && !OverranNatively(s, r) ==>
        || e.IllegalWorld?
        || (&& e.Returned? && e.raised == !r.Done?
            && e.newSp == (if r.Done? then r.s.core.sp else m.ctx.handlerSp)
            && (r.Done? ==> r.s.frames == s.frames)
            && (r.Escaped? ==> Shows(r.exn, e.m.ctx.packet)) && (r.Overran? ==> Shows(StackOverflow, e.m.ctx.packet))
            && exists rho' :: SameUpToAddresses(w.layout, rho', r.s, e.m))
  {
    RegionPreservesMeaning(p, cs, w, Typed, s, m, closure, root, next, n, fuel);
    CollectorInvisible(p, cs, w, w', rho, root, m, m', s.core.sp, closure, closure', fuel);
    var r := CallRun(p, Stepping(Typed, p, w), s, closure, next, n);
    var e0 := R.Dispatch(R.Emitted(p, cs, w, true), root, m, s.core.sp, closure, fuel);
    var e := R.Dispatch(R.Emitted(p, cs, w', false), root, m', s.core.sp, closure', fuel);
    if Ends(r) && !OverranNatively(s, r) && !e.IllegalWorld? {
      assert Mirrors(m.ctx.handlerSp, r, e0);
      EndsAlike(w.layout, m.ctx.handlerSp, r, e0, e);
    }
  }

  /** What the renamed ending is, given the ending without collections. */
  lemma {:induction false} EndsAlike(l: Layout, handlerSp: int, r: Interp.Run, e0: R.Exit, e: R.Exit)
    requires Ends(r) && Mirrors(handlerSp, r, e0) && ExitsRel(l, e0, e) && !e.IllegalWorld?
    ensures e.Returned? && e.raised == !r.Done? && e.newSp == (if r.Done? then r.s.core.sp else handlerSp)
    ensures (r.Escaped? ==> Shows(r.exn, e.m.ctx.packet)) && (r.Overran? ==> Shows(StackOverflow, e.m.ctx.packet))
    ensures exists rho' :: SameUpToAddresses(l, rho', r.s, e.m)
  {
    var rho' :| MemRel(l, rho', e0.m, e.m, e0.at);
    SlotsOfMem(l, rho', r.s, e0.m, e.m, e0.at);
  }

  lemma SlotsOfMem(l: Layout, rho: Renaming, s: State, m: R.Mem, m': R.Mem, at: int)
    requires MemRel(l, rho, m, m', at) && at <= s.core.sp
    requires AlikeAbove(s.core, CoreOf(m, s.core.sp), Slots(s.frames))
    ensures SameUpToAddresses(l, rho, s, m')
  {
    forall i | s.core.sp <= i < |m.stack| && i !in Slots(s.frames) ensures WordRel(l, rho, s.core.stack[i], m'.stack[i]) {
      LoadRel(l, rho, m, m', at, i);
    }
  }
}
