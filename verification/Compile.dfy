/** The block builder: from a code object's instructions to blocks of lowered pieces.

    `emit_all_blocks` walks the bytecode once, opening a block wherever a jump lands or a branch
    falls through, and skipping whatever follows a terminator and is no block start.
    `Tail` says, block by block, what that walk has to produce. */
module Compile {
  import opened Basics
  import opened Words
  import opened Machine
  import opened Instr
  import opened Region

  datatype Bail =
    | Truncated(at: nat)
    | UnresolvableCallee(at: nat)
    | JumpMidInstruction(target: nat)
    /** A block without a terminator, which the code generator's own checks refuse. */
    | ModuleError

  type Code = Result<seq<Piece>, Bail>

  /** Every offset has a decoding, and decoding always advances. */
  predicate Decodes(fn: Function) {
    forall pc :: 0 <= pc < fn.len ==> pc in fn.at && fn.at[pc].next > pc
  }

  // ----- block boundaries -----------------------------------------------------------

  /** The instruction boundaries from `pc` on. */
  function Boundaries(fn: Function, pc: nat): (r: set<nat>)
    requires Decodes(fn)
    ensures forall b :: b in r ==> pc <= b < fn.len
    decreases fn.len - pc
  {
    if pc >= fn.len then {} else {pc} + Boundaries(fn, fn.at[pc].next)
  }

  /** The block starts an instruction asks for: its target, and the offset after it. */
  function OffsetsOf(fn: Function, f: Fetched): set<nat> {
    match JumpTarget(f.ins)
    case None => {}
    case Some(t) => if f.next < fn.len then {t, f.next} else {t}
  }

  function OffsetsFrom(fn: Function, pc: nat): set<nat>
    requires Decodes(fn)
    decreases fn.len - pc
  {
    if pc >= fn.len then {} else OffsetsOf(fn, fn.at[pc]) + OffsetsFrom(fn, fn.at[pc].next)
  }

  /** Every jump lands on an instruction or at the very end. */
  predicate TargetsAligned(fn: Function)
    requires Decodes(fn)
  {
    forall pc :: pc in Boundaries(fn, 0) && JumpTarget(fn.at[pc].ins).Some? ==>
      JumpTarget(fn.at[pc].ins).value in Boundaries(fn, 0) + {fn.len}
  }

  /** The offsets that get a block of their own; the entry block is not one of them. */
  function BlockStarts(fn: Function): set<nat>
    requires Decodes(fn)
  {
    set o | o in OffsetsFrom(fn, 0) && 0 < o < fn.len
  }

  /** Boundaries are closed under stepping to the next instruction. */
  lemma {:induction false} BoundariesClosed(fn: Function, from: nat, pc: nat)
    requires Decodes(fn) && pc in Boundaries(fn, from)
    ensures fn.at[pc].next in Boundaries(fn, from) || fn.at[pc].next >= fn.len
    decreases fn.len - from
  {
    if pc != from {
      BoundariesClosed(fn, fn.at[from].next, pc);
    } else if fn.at[pc].next < fn.len {
      assert fn.at[pc].next in Boundaries(fn, fn.at[pc].next);
    }
  }

  lemma {:induction false} OffsetsContain(fn: Function, from: nat, pc: nat)
    requires Decodes(fn) && pc in Boundaries(fn, from)
    ensures OffsetsOf(fn, fn.at[pc]) <= OffsetsFrom(fn, from)
    decreases fn.len - from
  {
    if pc != from {
      OffsetsContain(fn, fn.at[from].next, pc);
    }
  }

  lemma {:induction false} OffsetsFromBoundaries(fn: Function, from: nat, o: nat)
    requires Decodes(fn) && o in OffsetsFrom(fn, from)
    ensures exists pc :: pc in Boundaries(fn, from) && o in OffsetsOf(fn, fn.at[pc])
    decreases fn.len - from
  {
    if o in OffsetsOf(fn, fn.at[from]) {
      assert from in Boundaries(fn, from);
    } else {
      OffsetsFromBoundaries(fn, fn.at[from].next, o);
    }
  }

  /** Block starts are instruction boundaries. */
  lemma {:induction false} BlockStartsAreBoundaries(fn: Function)
    requires Decodes(fn) && TargetsAligned(fn)
    ensures BlockStarts(fn) <= Boundaries(fn, 0)
  {
    forall o | o in BlockStarts(fn) ensures o in Boundaries(fn, 0) {
      OffsetsFromBoundaries(fn, 0, o);
      var pc :| pc in Boundaries(fn, 0) && o in OffsetsOf(fn, fn.at[pc]);
      BoundariesClosed(fn, 0, pc);
    }
  }

  /** `compute_block_offsets`: two walks over the bytecode. */
  method ComputeBlockOffsets(fn: Function) returns (r: Result<set<nat>, Bail>)
    requires Decodes(fn)
    ensures r.Ok? <==> TargetsAligned(fn)
    ensures r.Ok? ==> r.value == {0} + OffsetsFrom(fn, 0)
    ensures r.Err? ==> exists t :: r == Err(JumpMidInstruction(t)) && t !in Boundaries(fn, 0) + {fn.len}
  {
    var boundaries: set<nat>, pc := {}, 0;
    while pc < fn.len
      invariant boundaries + Boundaries(fn, pc) == Boundaries(fn, 0)
      decreases fn.len - pc
    {
      boundaries := boundaries + {pc};
      pc := fn.at[pc].next;
    }
    boundaries := boundaries + {fn.len};
    var targets: set<nat> := {0};
    pc := 0;
    while pc < fn.len
      invariant Collecting(fn, boundaries, targets, pc)
      decreases fn.len - pc
    {
      var f := fn.at[pc];
      ghost var collected := targets;
      BoundariesClosed(fn, 0, pc);
      match JumpTarget(f.ins) {
        case None =>
        case Some(t) =>
          if t !in boundaries {
            return Err(JumpMidInstruction(t));
          }
          targets := targets + {t};
          if f.next in boundaries && f.next < fn.len {
            targets := targets + {f.next};
          }
      }
      assert targets == collected + OffsetsOf(fn, f);
      CollectingNext(fn, boundaries, collected, pc);
      pc := f.next;
    }
    return Ok(targets);
  }

  /** What the second walk keeps: the targets before `pc` have been collected, and are on
      boundaries. */
  ghost predicate Collecting(fn: Function, boundaries: set<nat>, targets: set<nat>, pc: nat)
    requires Decodes(fn)
  {
    && boundaries == Boundaries(fn, 0) + {fn.len}
    && targets + OffsetsFrom(fn, pc) == {0} + OffsetsFrom(fn, 0)
    && (pc in Boundaries(fn, 0) || pc >= fn.len)
    && (forall b :: b in Boundaries(fn, 0) && b < pc && JumpTarget(fn.at[b].ins).Some? ==>
          JumpTarget(fn.at[b].ins).value in boundaries)
    && Boundaries(fn, 0) == BoundariesBelow(fn, pc) + Boundaries(fn, pc)
  }

  lemma CollectingNext(fn: Function, boundaries: set<nat>, targets: set<nat>, pc: nat)
    requires Decodes(fn) && pc < fn.len && Collecting(fn, boundaries, targets, pc)
    requires JumpTarget(fn.at[pc].ins).Some? ==> JumpTarget(fn.at[pc].ins).value in boundaries
    ensures Collecting(fn, boundaries, targets + OffsetsOf(fn, fn.at[pc]), fn.at[pc].next)
  {
    BoundariesClosed(fn, 0, pc);
  }

  ghost function BoundariesBelow(fn: Function, pc: nat): set<nat>
    requires Decodes(fn)
  {
    set b | b in Boundaries(fn, 0) && b < pc
  }

  // ----- what each block must hold -------------------------------------------------------

  function Landing(starts: set<nat>, t: nat): Result<nat, Bail> {
    if t in starts then Ok(t) else Err(JumpMidInstruction(t))
  }

  /** The piece that ends a block: a return, or a jump or branch to blocks that exist. */
  function Terminator(starts: set<nat>, f: Fetched): Result<Piece, Bail>
    requires EndsBlock(f.ins)
  {
    if f.ins.Return? then Ok(Ret(f.ins.n))
    else
      var t :- Landing(starts, JumpTarget(f.ins).value);
      if f.ins.Jump? then Ok(Goto(t))
      else if f.ins.JumpBack? then Ok(PollGoto(t))
      else
        var fall :- Landing(starts, f.next);
        Ok(Branch(f.ins, t, fall))
  }

  /** The piece for an instruction that stays inside its block. */
  function Inner(codeOf: map<Word, Word>, at: nat, ins: Instr): Result<Piece, Bail>
    requires !EndsBlock(ins)
  {
    if ins.CallConst? then
      if ins.closure in codeOf then Ok(CallNative(codeOf[ins.closure], ins.closure)) else Err(UnresolvableCallee(at))
    else if ins.CallClosure? then Ok(CallDynamic(true, 0))
    else if ins.CallLocal? then Ok(CallDynamic(false, ins.k))
    else if ins.Truncated? then Err(Bail.Truncated(at))
    else Ok(Straight(ins))
  }

  /** The block that starts at `pc`, up to its terminator or the next block start. */
  function Tail(codeOf: map<Word, Word>, fn: Function, starts: set<nat>, pc: nat): Code
    requires Decodes(fn)
    decreases fn.len - pc, 0
  {
    if pc >= fn.len then Err(ModuleError)
    else
      var f := fn.at[pc];
      if EndsBlock(f.ins) then
        var t :- Terminator(starts, f);
        Ok([t])
      else
        var x :- Inner(codeOf, pc, f.ins);
        var rest :- Onward(codeOf, fn, starts, f.next);
        Ok([x] + rest)
  }

  /** What follows inside a block: a jump when the next offset starts a block. */
  function Onward(codeOf: map<Word, Word>, fn: Function, starts: set<nat>, pc: nat): Code
    requires Decodes(fn)
    decreases fn.len - pc, 1
  {
    if pc in starts then Ok([Goto(pc)]) else Tail(codeOf, fn, starts, pc)
  }

  /** `c` is the compiled form of `fn`. */
  predicate IsCompiled(codeOf: map<Word, Word>, fn: Function, c: Compiled)
    requires Decodes(fn)
  {
    && Tail(codeOf, fn, BlockStarts(fn), 0) == Ok(c.entry)
    && c.blocks.Keys == BlockStarts(fn)
    && forall o :: o in c.blocks ==> Tail(codeOf, fn, BlockStarts(fn), o) == Ok(c.blocks[o])
  }

  /** The function can be compiled: jumps are aligned and every block can be built. */
  predicate Compilable(codeOf: map<Word, Word>, fn: Function)
    requires Decodes(fn)
  {
    && TargetsAligned(fn)
    && forall o :: o in BlockStarts(fn) + {0} ==> Tail(codeOf, fn, BlockStarts(fn), o).Ok?
  }

  // ----- the walk --------------------------------------------------------------------

  /** The function being built: one piece list per block, the entry under 0, and the
      block that receives the next piece. */
  class Builder {
    var blocks: map<nat, seq<Piece>>
    var current: nat

    constructor (starts: set<nat>)
      ensures blocks == (map o | o in starts + {0} :: []) && current == 0
    {
      blocks := map o | o in starts + {0} :: [];
      current := 0;
    }

    method Append(x: Piece)
      requires current in blocks
      modifies this`blocks
      ensures blocks == old(blocks)[current := old(blocks)[current] + [x]]
    {
      blocks := blocks[current := blocks[current] + [x]];
    }

    method SwitchTo(o: nat)
      modifies this`current
      ensures current == o
    {
      current := o;
    }
  }

  function Prepend(done: seq<Piece>, c: Code): Code {
    var rest :- c;
    Ok(done + rest)
  }

  lemma PrependNothing(c: Code)
    ensures Prepend([], c) == c
  {
    if c.Ok? {
      assert [] + c.value == c.value;
    }
  }

  lemma PrependMore(done: seq<Piece>, x: Piece, c: Code)
    ensures Prepend(done, Prepend([x], c)) == Prepend(done + [x], c)
  {
    if c.Ok? {
      assert done + ([x] + c.value) == done + [x] + c.value;
    }
  }

  /** When the walk has reached `pc`, every block but `current` is finished or not begun. */
  ghost predicate Others(codeOf: map<Word, Word>, fn: Function, starts: set<nat>, blocks: map<nat, seq<Piece>>,
                         current: int, pc: nat)
    requires Decodes(fn)
  {
    && blocks.Keys == starts + {0}
    && forall o :: o in blocks && o != current ==>
         if o < pc then Tail(codeOf, fn, starts, o) == Ok(blocks[o]) else blocks[o] == []
  }

  /** The block `current` still lacks `rest`. */
  ghost predicate Lacks(codeOf: map<Word, Word>, fn: Function, starts: set<nat>, blocks: map<nat, seq<Piece>>,
                        current: nat, rest: Code)
    requires Decodes(fn)
  {
    current in blocks && Tail(codeOf, fn, starts, current) == Prepend(blocks[current], rest)
  }

  /** Stepping over an instruction passes no block start. */
  lemma {:induction false} OthersAdvance(codeOf: map<Word, Word>, fn: Function, starts: set<nat>, blocks: map<nat, seq<Piece>>,
                      current: int, pc: nat)
    requires Decodes(fn) && pc < fn.len && Others(codeOf, fn, starts, blocks, current, pc)
    requires forall o :: o in starts && o >= pc ==> o in Boundaries(fn, pc)
    requires pc in starts + {0} ==> current == pc
    ensures Others(codeOf, fn, starts, blocks, current, fn.at[pc].next)
    ensures forall o :: o in starts && o >= fn.at[pc].next ==> o in Boundaries(fn, fn.at[pc].next)
  {
  }

  /** `emit_one`: lowers the instruction at `pc` into the current block, and reports whether
      that ended the block. */
  method EmitOne(b: Builder, codeOf: map<Word, Word>, fn: Function, starts: set<nat>, pc: nat)
    returns (r: Result<bool, Bail>)
    requires Decodes(fn) && pc < fn.len
    requires Lacks(codeOf, fn, starts, b.blocks, b.current, Tail(codeOf, fn, starts, pc))
    modifies b`blocks
    ensures r.Ok? ==> exists x :: b.blocks == old(b.blocks)[b.current := old(b.blocks)[b.current] + [x]]
    ensures r.Ok? && r.value ==> Tail(codeOf, fn, starts, b.current) == Ok(b.blocks[b.current])
    ensures r.Ok? && !r.value ==>
      Lacks(codeOf, fn, starts, b.blocks, b.current, Onward(codeOf, fn, starts, fn.at[pc].next))
    ensures r.Err? ==> Tail(codeOf, fn, starts, b.current) == Err(r.error)
  {
    var f := fn.at[pc];
    if EndsBlock(f.ins) {
      var t :- Terminator(starts, f);
      b.Append(t);
      return Ok(true);
    } else {
      var x :- Inner(codeOf, pc, f.ins);
      PrependMore(b.blocks[b.current], x, Onward(codeOf, fn, starts, f.next));
      b.Append(x);
      return Ok(false);
    }
  }

  /** Opens the block at `pc`, closing the current one with a jump if it still runs. */
  method OpenBlock(b: Builder, codeOf: map<Word, Word>, fn: Function, starts: set<nat>, pc: nat, terminated: bool)
    requires Decodes(fn) && pc in starts && b.current < pc && b.current in starts + {0}
    requires Others(codeOf, fn, starts, b.blocks, if terminated then -1 else b.current, pc)
    requires !terminated ==> Lacks(codeOf, fn, starts, b.blocks, b.current, Onward(codeOf, fn, starts, pc))
    modifies b
    ensures b.current == pc
    ensures Others(codeOf, fn, starts, b.blocks, pc, pc)
    ensures Lacks(codeOf, fn, starts, b.blocks, pc, Tail(codeOf, fn, starts, pc))
  {
    if !terminated {
      b.Append(Goto(pc));
    }
    b.SwitchTo(pc);
    PrependNothing(Tail(codeOf, fn, starts, pc));
  }

  /** The state of the walk at `pc`. */
  ghost predicate Walked(codeOf: map<Word, Word>, fn: Function, starts: set<nat>, blocks: map<nat, seq<Piece>>,
                         current: nat, terminated: bool, pc: nat)
    requires Decodes(fn)
  {
    && (if pc == 0 then current == 0 && !terminated else current < pc)
    && (forall o :: o in starts && o >= pc ==> o in Boundaries(fn, pc))
    && current in starts + {0} && 0 !in starts
    && Others(codeOf, fn, starts, blocks, if terminated then -1 else current, pc)
    && (!terminated ==> Lacks(codeOf, fn, starts, blocks, current, Onward(codeOf, fn, starts, pc)))
  }

  lemma {:induction false} WalkDone(codeOf: map<Word, Word>, fn: Function, starts: set<nat>, blocks: map<nat, seq<Piece>>,
                 current: nat, terminated: bool, pc: nat)
    requires Decodes(fn) && pc >= fn.len && starts <= Boundaries(fn, 0)
    requires Walked(codeOf, fn, starts, blocks, current, terminated, pc)
    ensures terminated ==> forall o :: o in starts + {0} ==> o in blocks && Tail(codeOf, fn, starts, o) == Ok(blocks[o])
    ensures !terminated ==> Tail(codeOf, fn, starts, current) == Err(ModuleError)
  {
    if !terminated {
      assert Onward(codeOf, fn, starts, pc) == Err(ModuleError);
    }
  }

  /** One turn of the walk: an instruction is emitted, or skipped as unreachable. */
  method WalkOne(b: Builder, codeOf: map<Word, Word>, fn: Function, starts: set<nat>, terminated: bool, pc: nat)
    returns (r: Result<bool, Bail>)
    requires Decodes(fn) && pc < fn.len
    requires Walked(codeOf, fn, starts, b.blocks, b.current, terminated, pc)
    modifies b
    ensures r.Ok? ==> Walked(codeOf, fn, starts, b.blocks, b.current, r.value, fn.at[pc].next)
    ensures r.Err? ==> b.current in starts + {0} && Tail(codeOf, fn, starts, b.current) == Err(r.error)
  {
    if pc in starts {
      OpenBlock(b, codeOf, fn, starts, pc, terminated);
    } else if terminated {
      OthersAdvance(codeOf, fn, starts, b.blocks, -1, pc);
      return Ok(true);
    }
    OthersAdvance(codeOf, fn, starts, b.blocks, b.current, pc);
    r := EmitOne(b, codeOf, fn, starts, pc);
  }

  /** `emit_all_blocks`, with the code generator's check that every block is terminated.
      It succeeds exactly when every block can be built, and then builds each one; an
      error it reports is an error in some block. */
  method EmitAllBlocks(codeOf: map<Word, Word>, fn: Function, starts: set<nat>)
    returns (r: Result<Compiled, Bail>)
    requires Decodes(fn) && starts <= Boundaries(fn, 0) && 0 !in starts
    ensures r.Ok? <==> forall o :: o in starts + {0} ==> Tail(codeOf, fn, starts, o).Ok?
    ensures r.Ok? ==>
      && Tail(codeOf, fn, starts, 0) == Ok(r.value.entry)
      && r.value.blocks.Keys == starts
      && forall o :: o in starts ==> Tail(codeOf, fn, starts, o) == Ok(r.value.blocks[o])
    ensures r.Err? ==> exists o :: o in starts + {0} && Tail(codeOf, fn, starts, o) == Err(r.error)
  {
    var b := new Builder(starts);
    var terminated, pc := false, 0;
    PrependNothing(Tail(codeOf, fn, starts, 0));
    while pc < fn.len
      invariant Walked(codeOf, fn, starts, b.blocks, b.current, terminated, pc)
      decreases fn.len - pc
    {
      terminated :- WalkOne(b, codeOf, fn, starts, terminated, pc);
      pc := fn.at[pc].next;
    }
    WalkDone(codeOf, fn, starts, b.blocks, b.current, terminated, pc);
    if !terminated {
      return Err(ModuleError);
    }
    return Ok(Compiled(b.blocks[0], map o | o in starts :: b.blocks[o]));
  }

  /** `define_function`. */
  method DefineFunction(codeOf: map<Word, Word>, fn: Function) returns (r: Result<Compiled, Bail>)
    requires Decodes(fn)
    ensures r.Ok? <==> Compilable(codeOf, fn)
    ensures r.Ok? ==> IsCompiled(codeOf, fn, r.value)
  {
    var offsets :- ComputeBlockOffsets(fn);
    BlockStartsAreBoundaries(fn);
    var starts := set o | o in offsets && o != 0 && o < fn.len;
    assert starts == BlockStarts(fn);
    r := EmitAllBlocks(codeOf, fn, starts);
  }
}
