/** The inferred argument count against the depth scan.  The two tables differ in one opcode,
    and that opcode decides whether the count is enough. */
module Sufficiency {
  import opened Basics
  import opened Words
  import opened Opcodes
  import opened Stacking
  import D = DepthScan
  import I = InferArgs
  import T = Translator

  // ----- opcodes that both tables accept ----------------------------------------------------

  /** Pass 1 goes on from the opcode, by falling through or branching. */
  predicate Accepted(b: Body, pc: nat) {
    pc < |b.bc| && ScanAt(b, pc).Ok? && (ScanAt(b, pc).value.Plain? || ScanAt(b, pc).value.Branches?)
  }

  function NeedAt(b: Body, pc: nat): nat
    requires Accepted(b, pc)
  {
    ScanAt(b, pc).value.need
  }

  predicate IsContainer(b: Body, pc: nat) { pc < |b.bc| && b.bc[pc] == MOVE_TO_CONTAINER_B }

  /** Where pass 1 cannot find a branch's targets, the inference gives up. */
  lemma LostTargets(b: Body, pc: nat)
    requires pc < |b.bc| && ScanAt(b, pc).Ok? && ScanAt(b, pc).value.Branches? && ScanAt(b, pc).value.targets.Err?
    ensures !I.EffectAt(b.bc, pc).Moves?
  {
    assert ScanAt(b, pc) == ScanLeaving(b, pc);
  }

  lemma SeenAlike(b: Body, pc: nat)
    requires Accepted(b, pc) && !IsContainer(b, pc) && I.EffectAt(b.bc, pc).Moves?
    ensures I.SameEffect(ScanAt(b, pc).value, I.EffectAt(b.bc, pc))
  {
    if ScanAt(b, pc).value.Branches? && ScanAt(b, pc).value.targets.Err? {
      LostTargets(b, pc);
    } else {
      I.InferenceAgrees(b, pc);
    }
  }

  /** MOVE_TO_CONTAINER_B pops a value and then looks at the pointer below it.  Pass 1 asks
      for both; the inference looks first and pops afterwards, and asks for one. */
  lemma ContainerSeen(b: Body, pc: nat)
    requires Accepted(b, pc) && IsContainer(b, pc)
    ensures ScanAt(b, pc) == Ok(Plain(pc + 2, 2, -1)) && I.EffectAt(b.bc, pc) == I.Moves(1, -1, [], Some(pc + 2))
  {
    I.NotElsewhere();
    assert !IsLocal(MOVE_TO_CONTAINER_B) && HasOneByte(MOVE_TO_CONTAINER_B);
    assert ScanAt(b, pc) == ScanOperand(b.bc, pc);
    assert I.EffectAt(b.bc, pc) == I.EffectOperand(b.bc, pc);
    assert I.EffectOperand(b.bc, pc) == I.EffectOneByte(b.bc, pc);
  }

  // ----- trails and paths --------------------------------------------------------------------

  /** A trail of pass 1 as a path of the inference: depths count from the entry. */
  function PathOf(trail: seq<D.Config>, args: nat): seq<I.Point> {
    seq(|trail|, i requires 0 <= i < |trail| => I.Point(trail[i].pc, trail[i].depth - args))
  }

  lemma EdgeLeads(b: Body, args: nat, c: D.Config, c': D.Config)
    requires Accepted(b, c.pc) && I.EffectAt(b.bc, c.pc).Moves? && D.Goes(D.FlowOf(b), c, c')
    ensures I.Leads(I.WalkOf(b.bc), I.Point(c.pc, c.depth - args), I.Point(c'.pc, c'.depth - args))
  {
    if IsContainer(b, c.pc) {
      ContainerSeen(b, c.pc);
    } else {
      SeenAlike(b, c.pc);
    }
    var e :| e in D.Edges(D.FlowOf(b), c.pc, c.depth).value && c' == D.Config(e.pc, e.depth);
    assert D.FlowOf(b).at[c.pc] == ScanAt(b, c.pc);
  }

  /** The other way, where the opcode finds the values it needs. */
  lemma LeadsEdge(b: Body, args: nat, a: I.Point, a': I.Point)
    requires Accepted(b, a.pc) && I.Leads(I.WalkOf(b.bc), a, a') && a.depth + args >= NeedAt(b, a.pc)
    ensures a'.depth + args >= 0
    ensures D.Goes(D.FlowOf(b), D.Config(a.pc, a.depth + args), D.Config(a'.pc, a'.depth + args))
  {
    if IsContainer(b, a.pc) {
      ContainerSeen(b, a.pc);
    } else {
      SeenAlike(b, a.pc);
    }
    EdgeThere(D.FlowOf(b), ScanAt(b, a.pc).value, I.EffectAt(b.bc, a.pc), a, a', args);
  }

  lemma EdgeThere(flow: D.Flow, s: Scan, e: I.Effect, a: I.Point, a': I.Point, args: nat)
    requires D.Complete(flow) && a.pc < flow.len && flow.at[a.pc] == Ok(s) && (s.Plain? || s.Branches?)
    requires I.SameEffect(s, e) || (s == Plain(a.pc + 2, 2, -1) && e == I.Moves(1, -1, [], Some(a.pc + 2)))
    requires Covers(s) && a.depth + args >= s.need
    requires (a'.pc in e.jumps || e.falls == Some(a'.pc)) && a'.depth == a.depth + e.delta
    ensures a'.depth + args >= 0
    ensures D.Goes(flow, D.Config(a.pc, a.depth + args), D.Config(a'.pc, a'.depth + args))
  {
    var es := D.Edges(flow, a.pc, a.depth + args).value;
    if s.Plain? {
      assert es[0] == D.Edge(a'.pc, a'.depth + args, false);
    } else {
      var i :| 0 <= i < |s.targets.value| && s.targets.value[i] == a'.pc;
      assert es[i] == D.Edge(a'.pc, a'.depth + args, true);
    }
  }

  /** At the offsets `alike` a step of pass 1 is a step of the inference. */
  ghost predicate Mirrors(flow: D.Flow, w: I.Walk, args: nat, alike: set<nat>)
    requires D.Complete(flow) && I.Whole(w)
  {
    forall c: D.Config, c': D.Config :: c.pc in alike && D.Goes(flow, c, c') && c.pc < w.len && w.at[c.pc].Moves? ==>
      I.Leads(w, I.Point(c.pc, c.depth - args), I.Point(c'.pc, c'.depth - args))
  }

  /** And a step of the inference is a step of pass 1, where `need` is met. */
  ghost predicate MirrorsBack(flow: D.Flow, w: I.Walk, args: nat, alike: set<nat>, need: map<nat, nat>)
    requires D.Complete(flow) && I.Whole(w)
  {
    && (forall pc :: pc in alike ==> pc in need)
    && forall a: I.Point, a': I.Point :: a.pc in alike && I.Leads(w, a, a') && a.depth + args >= need[a.pc] ==>
         a'.depth + args >= 0 && D.Goes(flow, D.Config(a.pc, a.depth + args), D.Config(a'.pc, a'.depth + args))
  }

  lemma PathExtends(w: I.Walk, start: nat, p: seq<I.Point>, a: I.Point)
    requires I.Whole(w) && I.IsPath(w, start, p) && I.Leads(w, p[|p| - 1], a)
    ensures I.IsPath(w, start, p + [a])
  {
  }

  lemma TrailExtends(flow: D.Flow, args: nat, trail: seq<D.Config>, c: D.Config)
    requires D.Complete(flow) && D.IsTrail(flow, 0, args, trail) && D.Goes(flow, trail[|trail| - 1], c)
    ensures D.IsTrail(flow, 0, args, trail + [c])
  {
    var longer := trail + [c];
    forall i | 0 <= i < |longer| - 1 ensures D.Goes(flow, longer[i], longer[i + 1]) {
      if i < |trail| - 1 {
        assert D.Goes(flow, trail[i], trail[i + 1]);
      }
    }
  }

  lemma TrailShrinks(flow: D.Flow, args: nat, trail: seq<D.Config>)
    requires D.Complete(flow) && D.IsTrail(flow, 0, args, trail) && |trail| > 1
    ensures D.IsTrail(flow, 0, args, trail[..|trail| - 1])
    ensures D.Goes(flow, trail[|trail| - 2], trail[|trail| - 1])
  {
    assert D.Goes(flow, trail[|trail| - 2], trail[|trail| - 2 + 1]);
  }

  lemma PathShrinks(w: I.Walk, p: seq<I.Point>)
    requires I.Whole(w) && I.IsPath(w, 0, p) && |p| > 1
    ensures I.IsPath(w, 0, p[..|p| - 1]) && I.Leads(w, p[|p| - 2], p[|p| - 1])
  {
    assert I.Leads(w, p[|p| - 2], p[|p| - 2 + 1]);
  }

  /** Every trail over such offsets is a path of the inference. */
  lemma {:induction false} TrailIsPath(flow: D.Flow, w: I.Walk, args: nat, alike: set<nat>, trail: seq<D.Config>)
    requires D.Complete(flow) && I.Whole(w) && flow.len == w.len && Mirrors(flow, w, args, alike) && I.Understood(w, 0)
    requires D.IsTrail(flow, 0, args, trail) && forall i :: 0 <= i < |trail| - 1 ==> trail[i].pc in alike
    ensures I.IsPath(w, 0, PathOf(trail, args))
    decreases |trail|
  {
    var p, n := PathOf(trail, args), |trail| - 1;
    if n > 0 {
      TrailShrinks(flow, args, trail);
      TrailIsPath(flow, w, args, alike, trail[..n]);
      assert PathOf(trail[..n], args) == p[..n];
      PathExtends(w, 0, p[..n], p[n]);
      assert p == p[..n] + [p[n]];
    }
  }

  /** The point is at an offset in `alike` with the values it needs. */
  predicate Met(args: nat, alike: set<nat>, need: map<nat, nat>, a: I.Point) {
    a.pc in alike && a.pc in need && a.depth + args >= need[a.pc]
  }

  /** Every path that meets the needs up to its last point is a trail of pass 1. */
  lemma {:induction false} PathIsTrail(flow: D.Flow, w: I.Walk, args: nat, alike: set<nat>, need: map<nat, nat>, p: seq<I.Point>)
    returns (trail: seq<D.Config>)
    requires D.Complete(flow) && I.Whole(w) && MirrorsBack(flow, w, args, alike, need)
    requires I.IsPath(w, 0, p) && forall i :: 0 <= i < |p| - 1 ==> Met(args, alike, need, p[i])
    ensures D.IsTrail(flow, 0, args, trail) && |trail| == |p|
    ensures forall i :: 0 <= i < |p| ==> trail[i].pc == p[i].pc && trail[i].depth == p[i].depth + args
    decreases |p|
  {
    var n := |p| - 1;
    if n == 0 {
      trail := [D.Config(0, args)];
      assert D.IsTrail(flow, 0, args, trail);
    } else {
      PathShrinks(w, p);
      var shorter := PathIsTrail(flow, w, args, alike, need, p[..n]);
      assert Met(args, alike, need, p[n - 1]);
      var c := D.Config(p[n].pc, p[n].depth + args);
      assert shorter[n - 1] == D.Config(p[n - 1].pc, p[n - 1].depth + args);
      TrailExtends(flow, args, shorter, c);
      trail := shorter + [c];
    }
  }

  // ----- the tables of one body ------------------------------------------------------------------

  function Alike(b: Body): (s: set<nat>)
    ensures forall pc :: pc in s <==> Accepted(b, pc)
  {
    set pc: nat | pc < |b.bc| && Accepted(b, pc)
  }

  function Needs(b: Body): map<nat, nat> { map pc | pc in Alike(b) :: NeedAt(b, pc) }

  lemma BodyMirrors(b: Body, args: nat)
    ensures Mirrors(D.FlowOf(b), I.WalkOf(b.bc), args, Alike(b))
    ensures MirrorsBack(D.FlowOf(b), I.WalkOf(b.bc), args, Alike(b), Needs(b))
  {
    var flow, w := D.FlowOf(b), I.WalkOf(b.bc);
    forall c: D.Config, c': D.Config | c.pc in Alike(b) && D.Goes(flow, c, c') && c.pc < w.len && w.at[c.pc].Moves?
      ensures I.Leads(w, I.Point(c.pc, c.depth - args), I.Point(c'.pc, c'.depth - args))
    {
      EdgeLeads(b, args, c, c');
    }
    forall a: I.Point, a': I.Point | a.pc in Alike(b) && I.Leads(w, a, a') && a.depth + args >= Needs(b)[a.pc]
      ensures a'.depth + args >= 0 && D.Goes(flow, D.Config(a.pc, a.depth + args), D.Config(a'.pc, a'.depth + args))
    {
      LeadsEdge(b, args, a, a');
    }
  }

  // ----- exactly when the count is too small -------------------------------------------------------

  /** Over opcodes that both tables accept, control arrives in pass 1 at one of them with
      fewer values than it needs. */
  ghost predicate Underflows(b: Body, args: nat) {
    exists trail: seq<D.Config> :: D.IsTrail(D.FlowOf(b), 0, args, trail) && ShortAtEnd(b, trail)
  }

  predicate ShortAtEnd(b: Body, trail: seq<D.Config>) {
    && |trail| > 0 && (forall i :: 0 <= i < |trail| ==> Accepted(b, trail[i].pc))
    && trail[|trail| - 1].depth < NeedAt(b, trail[|trail| - 1].pc)
  }

  /** Over such opcodes, a path of the inference arrives at MOVE_TO_CONTAINER_B with one
      value left. */
  ghost predicate ReachesContainer(b: Body, args: nat) {
    exists p: seq<I.Point> :: I.IsPath(I.WalkOf(b.bc), 0, p) && ContainerAtEnd(b, args, p)
  }

  predicate ContainerAtEnd(b: Body, args: nat, p: seq<I.Point>) {
    && |p| > 0 && (forall i :: 0 <= i < |p| ==> Accepted(b, p[i].pc))
    && OneLeft(b, args, p[|p| - 1])
  }

  predicate OneLeft(b: Body, args: nat, a: I.Point) { IsContainer(b, a.pc) && a.depth + args == 1 }

  /** What a point of a path finds, under a count that suffices for the inference. */
  lemma PointFinds(b: Body, args: nat, p: seq<I.Point>, i: nat)
    requires I.Suffices(I.WalkOf(b.bc), 0, args) && I.Understood(I.WalkOf(b.bc), 0)
    requires I.IsPath(I.WalkOf(b.bc), 0, p) && i < |p| && Accepted(b, p[i].pc)
    ensures p[i].depth + args < NeedAt(b, p[i].pc) <==> OneLeft(b, args, p[i])
  {
    var w := I.WalkOf(b.bc);
    assert w.at[p[i].pc].Moves? && I.Lowest(w, p[i]) >= 0 - args;
    if IsContainer(b, p[i].pc) {
      ContainerSeen(b, p[i].pc);
    } else {
      SeenAlike(b, p[i].pc);
    }
  }

  lemma {:induction false} UnderflowIsContainer(b: Body, args: nat, trail: seq<D.Config>)
    requires I.Suffices(I.WalkOf(b.bc), 0, args) && I.Understood(I.WalkOf(b.bc), 0)
    requires D.IsTrail(D.FlowOf(b), 0, args, trail) && ShortAtEnd(b, trail)
    ensures ReachesContainer(b, args)
  {
    BodyMirrors(b, args);
    TrailIsPath(D.FlowOf(b), I.WalkOf(b.bc), args, Alike(b), trail);
    var p := PathOf(trail, args);
    PointFinds(b, args, p, |p| - 1);
    assert ContainerAtEnd(b, args, p);
  }

  /** A path that arrives with one value left has a first point that does. */
  lemma {:induction false} FirstOneLeft(b: Body, args: nat, p: seq<I.Point>) returns (q: seq<I.Point>)
    requires I.IsPath(I.WalkOf(b.bc), 0, p) && ContainerAtEnd(b, args, p)
    ensures I.IsPath(I.WalkOf(b.bc), 0, q) && ContainerAtEnd(b, args, q)
    ensures forall i :: 0 <= i < |q| - 1 ==> !OneLeft(b, args, q[i])
    decreases |p|
  {
    if i :| 0 <= i < |p| - 1 && OneLeft(b, args, p[i]) {
      var shorter := p[..i + 1];
      assert forall k :: 0 <= k < i ==> I.Leads(I.WalkOf(b.bc), p[k], p[k + 1]);
      q := FirstOneLeft(b, args, shorter);
    } else {
      q := p;
    }
  }

  lemma {:induction false} ContainerUnderflows(b: Body, args: nat, p: seq<I.Point>)
    requires I.Suffices(I.WalkOf(b.bc), 0, args) && I.Understood(I.WalkOf(b.bc), 0)
    requires I.IsPath(I.WalkOf(b.bc), 0, p) && ContainerAtEnd(b, args, p)
    ensures Underflows(b, args)
  {
    var q := FirstOneLeft(b, args, p);
    BodyMirrors(b, args);
    forall i | 0 <= i < |q| - 1 ensures Met(args, Alike(b), Needs(b), q[i]) {
      PointFinds(b, args, q, i);
    }
    var trail := PathIsTrail(D.FlowOf(b), I.WalkOf(b.bc), args, Alike(b), Needs(b), q);
    PointFinds(b, args, q, |q| - 1);
    assert ShortAtEnd(b, trail);
  }

  /** A count that the inference found sufficient is enough for pass 1 over the opcodes that
      both tables accept, except exactly where a path comes to MOVE_TO_CONTAINER_B with one
      value left. */
  lemma UnderflowsOnlyAtContainer(b: Body, args: nat)
    requires I.Suffices(I.WalkOf(b.bc), 0, args) && I.Understood(I.WalkOf(b.bc), 0)
    ensures Underflows(b, args) <==> ReachesContainer(b, args)
  {
    if Underflows(b, args) {
      var trail: seq<D.Config> :| D.IsTrail(D.FlowOf(b), 0, args, trail) && ShortAtEnd(b, trail);
      UnderflowIsContainer(b, args, trail);
    }
    if ReachesContainer(b, args) {
      var p: seq<I.Point> :| I.IsPath(I.WalkOf(b.bc), 0, p) && ContainerAtEnd(b, args, p);
      ContainerUnderflows(b, args, p);
    }
  }

  /** No smaller count is enough for the inference itself. */
  lemma FewerFail(w: I.Walk, args: nat, fewer: nat)
    requires I.Whole(w) && I.LeastBaseline(w, 0, args) && fewer < args
    ensures !I.Suffices(w, 0, fewer)
  {
    if I.Suffices(w, 0, fewer) {
      I.LeastIsLeast(w, 0, args, fewer);
    }
  }

  // ----- a body that is refused ----------------------------------------------------------------------

  /** Moves to a container and raises. */
  const SHORT: seq<Byte> := [MOVE_TO_CONTAINER_B, 0, RAISE_EX]

  lemma ShortEffects()
    ensures I.EffectAt(SHORT, 0) == I.Moves(1, -1, [], Some(2)) && I.EffectAt(SHORT, 2) == I.Moves(0, 0, [], None)
  {
    I.NotElsewhere();
    assert !IsLocal(MOVE_TO_CONTAINER_B) && HasOneByte(MOVE_TO_CONTAINER_B);
    assert I.EffectOneByte(SHORT, 0) == I.Moves(1, -1, [], Some(2));
    assert !IsLocal(RAISE_EX) && !IsBinary(RAISE_EX) && !HasNoOperand(RAISE_EX) && IsLeaving(RAISE_EX);
    assert I.EffectLeaving(SHORT, 2) == I.Moves(0, 0, [], None);
  }

  /** Its only paths stay at the start or go on to the raise. */
  lemma {:induction false} ShortPaths(p: seq<I.Point>, i: nat)
    requires I.IsPath(I.WalkOf(SHORT), 0, p) && i < |p|
    ensures p[i] == (if i == 0 then I.Point(0, 0) else I.Point(2, -1)) && i <= 1
  {
    ShortEffects();
    if i > 0 {
      ShortPaths(p, i - 1);
      assert I.Leads(I.WalkOf(SHORT), p[i - 1], p[i - 1 + 1]);
    }
  }

  lemma ShortBaseline()
    ensures I.LeastBaseline(I.WalkOf(SHORT), 0, 1)
  {
    var w := I.WalkOf(SHORT);
    ShortEffects();
    forall p: seq<I.Point>, i | I.IsPath(w, 0, p) && 0 <= i < |p| && p[i].pc < w.len ensures I.Lowest(w, p[i]) >= -1 {
      ShortPaths(p, i);
    }
    I.StartArrives(w, 0);
    assert I.Lowest(w, I.Point(0, 0)) == -1;
  }

  /** It has no return that would ask for more. */
  lemma {:induction false} ShortReturns(bs: seq<nat>, i: nat)
    requires T.BeforeReturn(SHORT, bs) && i < |bs|
    ensures bs[i] == (if i == 0 then 0 else if i == 1 then 2 else 3)
    ensures bs[i] < |SHORT| ==> T.ReturnAt(SHORT, bs[i]).None?
  {
    assert T.ReturnAt(SHORT, 0).None? && T.ReturnAt(SHORT, 2).None?;
    if i > 0 {
      ShortReturns(bs, i - 1);
      assert T.Hop(SHORT, bs[i - 1], bs[i - 1 + 1]);
      ShortLengths();
    }
  }

  lemma ShortLengths()
    ensures TotalLen(SHORT, 0) == Ok(2) && TotalLen(SHORT, 2) == Ok(1)
  {
    I.NotElsewhere();
    assert !IsLocal(MOVE_TO_CONTAINER_B) && HasOneByte(MOVE_TO_CONTAINER_B);
    assert !IsLocal(RAISE_EX) && !IsBinary(RAISE_EX) && !HasNoOperand(RAISE_EX) && IsLeaving(RAISE_EX);
  }

  /** Whatever `compute_arg_count` makes of it, the count is too small: control is at the
      first opcode with fewer than the two values that pass 1 asks for, and there is no
      typing for pass 1 to find. */
  lemma ContainerUndercounted(b: Body, args: nat, end: Option<I.Ending>, bs: seq<nat>)
    requires b.bc == SHORT && T.Counted(SHORT, I.WalkOf(SHORT), args, end, bs)
    ensures I.LeastBaseline(I.WalkOf(SHORT), 0, 1) && args <= 1
    ensures D.ArrivesAtFault(D.FlowOf(b), 0, args, Underflow)
    ensures forall reached: D.Reached, targets: map<nat, nat> :: !D.Typing(D.FlowOf(b), reached, targets, 0, args)
  {
    ShortBaseline();
    ShortReturns(bs, |bs| - 1);
    AtMostOne(args, bs);
    I.NotElsewhere();
    assert !IsLocal(MOVE_TO_CONTAINER_B) && HasOneByte(MOVE_TO_CONTAINER_B);
    assert ScanAt(b, 0) == ScanOperand(SHORT, 0);
    assert ScanOneByte(MOVE_TO_CONTAINER_B, 0, 2) == Plain(2, 2, -1);
    D.ArrivesFirst(D.FlowOf(b), 0, args);
    assert D.Edges(D.FlowOf(b), D.Config(0, args).pc, D.Config(0, args).depth) == Err(Underflow);
    forall reached: D.Reached, targets: map<nat, nat> ensures !D.Typing(D.FlowOf(b), reached, targets, 0, args) {
      if D.Bounded(D.FlowOf(b), reached, targets, 0, args) {
        StartUnsettled(D.FlowOf(b), reached, targets, args);
      }
    }
  }

  lemma StartUnsettled(flow: D.Flow, reached: D.Reached, targets: map<nat, nat>, args: nat)
    requires D.Complete(flow) && flow.len > 0 && flow.at[0] == Ok(Plain(2, 2, -1)) && args <= 1
    requires D.Bounded(flow, reached, targets, 0, args)
    ensures !D.Settled(flow, reached, targets, 0)
  {
  }

  lemma AtMostOne(args: nat, bs: seq<nat>)
    requires |bs| > 0 && T.Needed(SHORT, I.WalkOf(SHORT), args, bs) && T.FirstReturn(SHORT, bs).None?
    requires I.LeastBaseline(I.WalkOf(SHORT), 0, 1)
    ensures args <= 1
  {
    if args > 0 {
      ReachesAtMost(I.WalkOf(SHORT), 1, args);
    }
  }

  lemma ReachesAtMost(w: I.Walk, enough: nat, reached: nat)
    requires I.Whole(w) && I.Suffices(w, 0, enough) && I.Reaches(w, 0, reached)
    ensures reached <= enough
  {
    var a :| I.Arrives(w, 0, a) && a.pc < w.len && I.Lowest(w, a) == 0 - reached;
    var p :| I.IsPath(w, 0, p) && p[|p| - 1] == a;
    assert I.Lowest(w, p[|p| - 1]) >= 0 - enough;
  }
}
