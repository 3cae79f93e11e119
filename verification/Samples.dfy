/** Regions of one function that runs straight through and returns: enough to exhibit single
    runs. */
module Samples {
  import opened Basics
  import opened Words
  import opened Machine
  import opened Instr
  import opened Interp
  import opened Lowering
  import opened Compile
  import opened Simulation
  import R = Region

  /** The body, one offset each, and a return of no arguments. */
  function Straights(body: seq<Instr>): Function {
    Function(|body| + 1, map pc: nat | pc <= |body| :: Fetched(if pc < |body| then body[pc] else Return(0), pc + 1))
  }

  predicate AllStraight(body: seq<Instr>) {
    forall i :: 0 <= i < |body| ==> StraightLine(body[i])
  }

  function Pieces(body: seq<Instr>, from: nat): seq<R.Piece>
    requires from <= |body|
    decreases |body| - from
  {
    if from == |body| then [R.Ret(0)] else [R.Straight(body[from])] + Pieces(body, from + 1)
  }

  lemma {:induction false} NoOffsets(body: seq<Instr>, pc: nat)
    requires AllStraight(body) && pc <= |body| + 1
    ensures Decodes(Straights(body)) && OffsetsFrom(Straights(body), pc) == {}
    decreases |body| + 1 - pc
  {
    var fn := Straights(body);
    if pc <= |body| {
      assert pc < |body| ==> StraightLine(body[pc]);
      assert OffsetsOf(fn, fn.at[pc]) == {};
      NoOffsets(body, pc + 1);
    }
  }

  lemma {:induction false} TailIsPieces(codeOf: map<Word, Word>, body: seq<Instr>, from: nat)
    requires AllStraight(body) && from <= |body| && Decodes(Straights(body))
    ensures Tail(codeOf, Straights(body), {}, from) == Ok(Pieces(body, from))
    decreases |body| - from
  {
    if from < |body| {
      assert StraightLine(body[from]);
      TailIsPieces(codeOf, body, from + 1);
    }
  }

  /** The function at 8, and a closure of it at 16. */
  function ProgramOf(body: seq<Instr>): Program { Program(map[8 := Straights(body)], map[16 := 8]) }

  function RegionOf(body: seq<Instr>): map<Word, R.Compiled> { map[8 := R.Compiled(Pieces(body, 0), map[])] }

  lemma {:induction false} PiecesCallNothing(cs: map<Word, R.Compiled>, body: seq<Instr>, from: nat)
    requires from <= |body|
    ensures CallsInside(cs, Pieces(body, from))
    decreases |body| - from
  {
    if from < |body| {
      PiecesCallNothing(cs, body, from + 1);
    }
  }

  lemma {:induction false} IsSampleRegion(body: seq<Instr>)
    requires AllStraight(body) && |body| < HALF
    ensures IsRegion(ProgramOf(body), RegionOf(body))
  {
    var p, cs := ProgramOf(body), RegionOf(body);
    NoOffsets(body, 0);
    assert BlockStarts(Straights(body)) == {};
    TailIsPieces(p.codeOf, body, 0);
    PiecesCallNothing(cs, body, 0);
    assert FunctionOk(p, cs, 8);
  }

  /** The interpreter before a call of the function from outside any code of its own. */
  function Caller(m: R.Mem, sp: nat): State { State(8, 0, Core(m.stack, sp, m.heap, m.allocs), []) }
}
