/**
 Whole runs over a stack of coin caches of any depth, against the obvious
 reference: a stack of plain maps from txid to unspent coins.
 */
module CoinsRun {
  import opened Basics
  import opened Coins
  import opened CoinsView

  /** The reference. Each level is one map that holds only unspent, cleaned-up coins. */
  datatype Plain = Bottom(m: map<Hash, Coins>) | Layer(m: map<Hash, Coins>, below: Plain)

  /** `depth` counts caches down from the top, which is at 0. Coins are only modified at the top. */
  datatype Op =
    | OpFetch(depth: nat, txid: Hash)
    | OpUncache(depth: nat, txid: Hash)
    | OpFlush(depth: nat)
    | OpPush
    | OpPop
    | OpModify(txid: Hash)
    | OpModifyNew(txid: Hash, coinbase: bool)
    | OpAssign(c: Coins)
    | OpEndModify
    | OpSetBestBlock(hash: Hash)

  // ----- the real stack -----

  function CacheCount(v: View): nat {
    if v.Cache? then 1 + CacheCount(v.base) else 0
  }

  /** The view `depth` levels down. */
  function Down(v: View, depth: nat): View
    requires depth <= CacheCount(v)
  {
    if depth == 0 then v else Down(v.base, depth - 1)
  }

  /** The stack with the view `depth` levels down replaced. */
  function Replace(v: View, depth: nat, w: View): View
    requires depth <= CacheCount(v)
  {
    if depth == 0 then w else v.(base := Replace(v.base, depth - 1, w))
  }

  /** What the code's assertions, and the BIP 30 rule, ask of a caller. A cache that is being
      modified is the top one and is neither flushed nor stacked upon. */
  ghost predicate Allowed(v: View, p: Plain, op: Op) {
    match op
    case OpFetch(depth, _) => depth <= CacheCount(v)
    case OpUncache(depth, _) => depth < CacheCount(v)
    case OpFlush(depth) => depth < CacheCount(v) && (depth == 0 ==> Idle(v))
    case OpPush => Idle(v)
    case OpPop => v.Cache? && Idle(v)
    case OpModify(_) => v.Cache? && Idle(v)
    case OpModifyNew(txid, coinbase) => v.Cache? && Idle(v) && (!coinbase ==> txid !in p.m)
    case OpAssign(_) => HasModifier(v)
    case OpEndModify => HasModifier(v)
    case OpSetBestBlock(_) => v.Cache?
  }

  function ReplaceResult(v: View, depth: nat, w: Result<View>): Result<View>
    requires depth <= CacheCount(v)
  {
    if w.Ok? then Ok(Replace(v, depth, w.value)) else w
  }

  lemma {:induction false} DownIsCache(v: View, depth: nat)
    requires depth < CacheCount(v)
    ensures Down(v, depth).Cache?
  {
    if depth > 0 {
      DownIsCache(v.base, depth - 1);
    }
  }

  /** What `BatchWrite` asserts of the parent that is written to, and that the reference has as many
      levels as the stack. */
  predicate Safe(v: View, p: Plain, op: Op) {
    match op
    case OpFlush(depth) => depth < CacheCount(v) && depth < Layers(p) && (DownIsCache(v, depth); Idle(Down(v, depth).base))
    case OpPop => p.Layer?
    case _ => true
  }

  ghost function Step(v: View, p: Plain, op: Op): Result<View>
    requires Allowed(v, p, op) && Safe(v, p, op)
  {
    match op
    case OpFetch(depth, txid) => Ok(Replace(v, depth, Fetch(Down(v, depth), txid)))
    case OpUncache(depth, txid) =>
      DownIsCache(v, depth);
      Ok(Replace(v, depth, Uncache(Down(v, depth), txid)))
    case OpFlush(depth) =>
      DownIsCache(v, depth);
      ReplaceResult(v, depth, Flush(Down(v, depth)))
    case OpPush => Ok(Cache(map[], 0, None, v))
    case OpPop => Ok(v.base)
    case OpModify(txid) => Ok(ModifyCoins(v, txid))
    case OpModifyNew(txid, coinbase) => ModifyNewCoins(v, txid, coinbase)
    case OpAssign(c) => Ok(Assign(v, c))
    case OpEndModify => Ok(EndModify(v))
    case OpSetBestBlock(hash) => Ok(v.(hashBlock := hash))
  }

  // ----- the reference -----

  function Put(m: map<Hash, Coins>, txid: Hash, c: Option<Coins>): map<Hash, Coins> {
    if c.Some? then m[txid := c.value] else m - {txid}
  }

  function Layers(p: Plain): nat {
    if p.Layer? then 1 + Layers(p.below) else 0
  }

  function PlainDown(p: Plain, depth: nat): Plain
    requires depth <= Layers(p)
  {
    if depth == 0 then p else PlainDown(p.below, depth - 1)
  }

  function PlainReplace(p: Plain, depth: nat, q: Plain): Plain
    requires depth <= Layers(p)
  {
    if depth == 0 then q else p.(below := PlainReplace(p.below, depth - 1, q))
  }

  /** A flush copies a map onto the one below it; nothing else ever moves between levels. */
  function CopyDown(p: Plain): Plain {
    if p.Layer? then p.(below := p.below.(m := p.m)) else p
  }

  function PlainStep(p: Plain, op: Op, modifying: Option<Hash>): Plain
    requires op.OpFlush? ==> op.depth < Layers(p)
    requires op.OpPop? ==> p.Layer?
    requires op.OpAssign? ==> modifying.Some?
  {
    match op
    case OpFlush(depth) => PlainReplace(p, depth, CopyDown(PlainDown(p, depth)))
    case OpPush => Layer(p.m, p)
    case OpPop => p.below
    case OpModifyNew(txid, _) => p.(m := p.m - {txid})
    case OpAssign(c) => p.(m := Put(p.m, modifying.value, Norm(Some(c))))
    case _ => p
  }

  ghost predicate Agrees(v: View, m: map<Hash, Coins>) {
    forall txid :: Read(v, txid) == Lookup(m, txid)
  }

  /** Level by level, the stack reads like the reference. */
  ghost predicate Refines(v: View, p: Plain) {
    && Agrees(v, p.m)
    && (v.Cache? <==> p.Layer?)
    && (v.Cache? ==> Refines(v.base, p.below))
  }

  // ----- every step keeps it -----

  lemma {:induction false} DownKeeps(v: View, depth: nat)
    requires Inv(v) && depth <= CacheCount(v)
    ensures Inv(Down(v, depth))
    ensures depth > 0 ==> Idle(Down(v, depth))
    ensures depth < CacheCount(v) ==> Down(v, depth).Cache? && Idle(Down(v, depth).base)
  {
    if depth > 0 {
      DownKeeps(v.base, depth - 1);
    }
  }

  lemma {:induction false} RefinesCounts(v: View, p: Plain)
    requires Refines(v, p)
    ensures CacheCount(v) == Layers(p)
  {
    if v.Cache? {
      RefinesCounts(v.base, p.below);
    }
  }

  lemma {:induction false} PlainReplaceSelf(p: Plain, depth: nat)
    requires depth <= Layers(p)
    ensures PlainReplace(p, depth, PlainDown(p, depth)) == p
  {
    if depth > 0 {
      PlainReplaceSelf(p.below, depth - 1);
    }
  }

  lemma {:induction false} DownRefines(v: View, p: Plain, depth: nat)
    requires Refines(v, p) && depth <= CacheCount(v)
    ensures depth <= Layers(p) && Refines(Down(v, depth), PlainDown(p, depth))
  {
    if depth > 0 {
      DownRefines(v.base, p.below, depth - 1);
    }
  }

  lemma SameReadsAgree(v: View, w: View, m: map<Hash, Coins>)
    requires Agrees(v, m) && SameReads(v, w)
    ensures Agrees(w, m)
  {
    forall txid
      ensures Read(w, txid) == Lookup(m, txid)
    {
      assert Read(v, txid) == Read(w, txid);
    }
  }

  /** A level may be replaced by any sound one that reads the same; all levels above keep their meaning. */
  lemma {:induction false} ReplaceKeeps(v: View, p: Plain, depth: nat, w: View, q: Plain)
    requires Inv(v) && Refines(v, p) && depth <= CacheCount(v) && depth <= Layers(p)
    requires Inv(w) && Refines(w, q) && SameReads(Down(v, depth), w)
    requires w.Cache? <==> Down(v, depth).Cache?
    requires depth > 0 ==> Idle(w)
    ensures var r := Replace(v, depth, w);
            && Inv(r) && SameReads(v, r) && Refines(r, PlainReplace(p, depth, q))
            && (depth > 0 ==> r.Cache? && v.Cache? && r.modifying == v.modifying)
  {
    if depth > 0 {
      ReplaceKeeps(v.base, p.below, depth - 1, w, q);
      RebaseKeeps(v, Replace(v.base, depth - 1, w));
      SameReadsAgree(v, Replace(v, depth, w), p.m);
    }
  }

  lemma {:induction false} FetchRefines(v: View, p: Plain, txid: Hash)
    requires Inv(v) && Refines(v, p)
    ensures Refines(Fetch(v, txid), p)
  {
    FetchKeeps(v, txid);
    SameReadsAgree(v, Fetch(v, txid), p.m);
    if v.Cache? {
      FetchRefines(v.base, p.below, txid);
    }
  }

  lemma FlushRefines(v: View, p: Plain)
    requires v.Cache? && Inv(v) && v.modifying.None? && Refines(v, p)
    ensures Flush(v).Ok? && Refines(Flush(v).value, CopyDown(p))
  {
    FlushKeeps(v);
    var w := Flush(v).value;
    SameReadsAgree(v, w, p.m);
    SameReadsAgree(v, w.base, p.m);
  }

  lemma FetchStepRefines(v: View, p: Plain, depth: nat, txid: Hash)
    requires Inv(v) && Refines(v, p) && depth <= CacheCount(v)
    ensures var r := Replace(v, depth, Fetch(Down(v, depth), txid)); Inv(r) && Refines(r, p)
  {
    DownKeeps(v, depth);
    DownRefines(v, p, depth);
    FetchKeeps(Down(v, depth), txid);
    FetchRefines(Down(v, depth), PlainDown(p, depth), txid);
    ReplaceKeeps(v, p, depth, Fetch(Down(v, depth), txid), PlainDown(p, depth));
    PlainReplaceSelf(p, depth);
  }

  lemma UncacheStepRefines(v: View, p: Plain, depth: nat, txid: Hash)
    requires Inv(v) && Refines(v, p) && depth < CacheCount(v) && Down(v, depth).Cache?
    ensures var r := Replace(v, depth, Uncache(Down(v, depth), txid)); Inv(r) && Refines(r, p)
  {
    DownKeeps(v, depth);
    DownRefines(v, p, depth);
    var d, q := Down(v, depth), PlainDown(p, depth);
    UncacheKeeps(d, txid);
    SameReadsAgree(d, Uncache(d, txid), q.m);
    ReplaceKeeps(v, p, depth, Uncache(d, txid), q);
    PlainReplaceSelf(p, depth);
  }

  lemma FlushStepRefines(v: View, p: Plain, depth: nat)
    requires Inv(v) && Refines(v, p) && depth < CacheCount(v) && depth < Layers(p)
    requires depth == 0 ==> Idle(v)
    ensures Down(v, depth).Cache? && Idle(Down(v, depth).base)
    ensures Flush(Down(v, depth)).Ok?
    ensures var r := Replace(v, depth, Flush(Down(v, depth)).value);
            Inv(r) && SameReads(v, r) && Refines(r, PlainReplace(p, depth, CopyDown(PlainDown(p, depth))))
  {
    DownKeeps(v, depth);
    DownRefines(v, p, depth);
    FlushKeeps(Down(v, depth));
    FlushRefines(Down(v, depth), PlainDown(p, depth));
    ReplaceKeeps(v, p, depth, Flush(Down(v, depth)).value, CopyDown(PlainDown(p, depth)));
  }

  function Modifying(v: View): Option<Hash> {
    if v.Cache? then v.modifying else None
  }

  lemma StepIsSafe(v: View, p: Plain, op: Op)
    requires Inv(v) && Refines(v, p) && Allowed(v, p, op)
    ensures Safe(v, p, op)
  {
    RefinesCounts(v, p);
    if op.OpFlush? {
      DownKeeps(v, op.depth);
    }
  }

  /** One allowed step: no throw, flags still honest, and still the same as the reference. */
  lemma StepRefines(v: View, p: Plain, op: Op)
    requires Inv(v) && Refines(v, p) && Allowed(v, p, op)
    ensures Safe(v, p, op)
    ensures Step(v, p, op).Ok? && Inv(Step(v, p, op).value)
    ensures Refines(Step(v, p, op).value, PlainStep(p, op, Modifying(v)))
  {
    StepIsSafe(v, p, op);
    var r := Step(v, p, op);
    match op
    case OpFetch(depth, txid) => FetchStepRefines(v, p, depth, txid);
    case OpUncache(depth, txid) =>
      DownKeeps(v, depth);
      UncacheStepRefines(v, p, depth, txid);
    case OpFlush(depth) => FlushStepRefines(v, p, depth);
    case OpPush =>
      SameReadsAgree(v, r.value, p.m);
    case OpPop =>
    case OpModify(txid) =>
      ModifyCoinsKeeps(v, txid);
      SameReadsAgree(v, r.value, p.m);
      FetchRefines(v.base, p.below, txid);
    case OpModifyNew(txid, coinbase) =>
      assert Read(v, txid) == Lookup(p.m, txid);
      ModifyNewCoinsKeeps(v, txid, coinbase);
      forall t
        ensures Read(r.value, t) == Lookup(p.m - {txid}, t)
      {
        assert Read(v, t) == Lookup(p.m, t);
      }
    case OpAssign(c) =>
      AssignKeeps(v, c);
      forall t
        ensures Read(r.value, t) == Lookup(Put(p.m, v.modifying.value, Norm(Some(c))), t)
      {
        assert Read(v, t) == Lookup(p.m, t);
      }
    case OpEndModify =>
      EndModifyKeeps(v);
      SameReadsAgree(v, r.value, p.m);
    case OpSetBestBlock(hash) =>
      forall t
        ensures Read(r.value, t) == Read(v, t)
        ensures t in r.value.entries ==> Honest(r.value.entries[t], Read(r.value.base, t))
      {
      }
      SameReadsAgree(v, r.value, p.m);
  }

  // ----- whole runs -----

  /** A state of the run: the real stack beside the reference. */
  datatype State = State(v: View, p: Plain)

  ghost predicate Next(s: State, op: Op, s': State) {
    && Allowed(s.v, s.p, op) && Safe(s.v, s.p, op)
    && Step(s.v, s.p, op) == Ok(s'.v)
    && s'.p == PlainStep(s.p, op, Modifying(s.v))
  }

  ghost predicate IsRun(run: seq<State>, ops: seq<Op>) {
    && |run| == |ops| + 1
    && (forall i :: 0 <= i < |ops| ==> Next(run[i], ops[i], run[i + 1]))
  }

  ghost predicate Sound(s: State) {
    Inv(s.v) && Refines(s.v, s.p)
  }

  /** A run starts from a database alone, with the reference holding its unspent coins. */
  ghost predicate Initial(s: State) {
    s.v.Store? && s.p.Bottom? && Agrees(s.v, s.p.m)
  }

  /** In every run the stack refines the plain maps at every moment, at every level. */
  lemma {:induction false} RunRefines(run: seq<State>, ops: seq<Op>)
    requires IsRun(run, ops) && Initial(run[0])
    ensures forall i :: 0 <= i < |run| ==> Sound(run[i])
    decreases |ops|
  {
    if |ops| > 0 {
      var n := |ops| - 1;
      assert forall i :: 0 <= i < n ==> Next(run[..n + 1][i], ops[..n][i], run[..n + 1][i + 1]) by {
        forall i | 0 <= i < n
          ensures Next(run[..n + 1][i], ops[..n][i], run[..n + 1][i + 1])
        {
          assert Next(run[i], ops[i], run[i + 1]);
        }
      }
      RunRefines(run[..n + 1], ops[..n]);
      assert Sound(run[..n + 1][n]) && run[..n + 1][n] == run[n];
      assert Next(run[n], ops[n], run[n + 1]);
      StepRefines(run[n].v, run[n].p, ops[n]);
      forall i | 0 <= i < |run|
        ensures Sound(run[i])
      {
        if i <= n {
          assert run[i] == run[..n + 1][i];
        }
      }
    }
  }

  /** No run gets stuck on a throw: from where a run stands, every allowed step goes through. */
  lemma RunNeverThrows(run: seq<State>, ops: seq<Op>, op: Op)
    requires IsRun(run, ops) && Initial(run[0])
    requires Allowed(run[|ops|].v, run[|ops|].p, op)
    ensures Safe(run[|ops|].v, run[|ops|].p, op) && Step(run[|ops|].v, run[|ops|].p, op).Ok?
  {
    RunRefines(run, ops);
    var s := run[|ops|];
    assert Sound(s);
    StepRefines(s.v, s.p, op);
  }

  /** What `GetCoins` answers anywhere in any run, at any depth, is the reference's answer. */
  lemma RunReads(run: seq<State>, ops: seq<Op>, i: nat, depth: nat, txid: Hash)
    requires IsRun(run, ops) && Initial(run[0])
    requires i < |run| && depth <= CacheCount(run[i].v)
    ensures depth <= Layers(run[i].p)
    ensures Norm(Get(Down(run[i].v, depth), txid)) == Lookup(PlainDown(run[i].p, depth).m, txid)
  {
    RunRefines(run, ops);
    assert Sound(run[i]);
    DownRefines(run[i].v, run[i].p, depth);
    assert Read(Down(run[i].v, depth), txid) == Lookup(PlainDown(run[i].p, depth).m, txid);
  }
}
