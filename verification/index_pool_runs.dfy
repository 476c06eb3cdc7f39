/** Every interleaving of the index pool's callers, background builders and closers. */
module IndexPoolRuns {
  import opened IndexPool

  /** A background builder: building, waiting for the lock with its index, unlocked but not yet done
      with the wait group, done. */
  datatype Worker = Building | Holding(idx: nat) | Leaving | Gone

  /** A call of get: about to build inline, built but not yet counted, owning its index. */
  datatype Getter = Waiting | Built(idx: nat) | Got(idx: nat)

  /** A call of close: the pool flagged, the builders awaited, returned. */
  datatype Closer = Begun | Waited | Returned

  /** issued counts the indexes built so far, each named by its number; released are those nobody gets. */
  datatype System = System(pool: Pool, workers: seq<Worker>, getters: seq<Getter>, closers: seq<Closer>, issued: nat, released: seq<nat>)

  datatype Event =
    | Prewarms
    | Takes
    | BuildsInline(g: nat)
    | CountsInline(g: nat)
    | Builds(w: nat)
    | Finishes(w: nat)
    | Leaves(w: nat)
    | BeginsClose
    | Waits(d: nat)
    | EndsClose(d: nat)

  function Init(size: int): System { System(New(size), [], [], [], 0, []) }

  predicate Enabled(s: System, e: Event) {
    match e
    case Prewarms => true
    case Takes => true
    case BuildsInline(g) => g < |s.getters| && s.getters[g].Waiting?
    case CountsInline(g) => g < |s.getters| && s.getters[g].Built?
    case Builds(w) => w < |s.workers| && s.workers[w].Building?
    case Finishes(w) => w < |s.workers| && s.workers[w].Holding? && s.pool.inflight > 0
    case Leaves(w) => w < |s.workers| && s.workers[w].Leaving?
    case BeginsClose => true
    case Waits(d) => d < |s.closers| && s.closers[d].Begun? && AllGone(s.workers)
    case EndsClose(d) => d < |s.closers| && s.closers[d].Waited?
  }

  /** The wait group's counter is zero. */
  predicate AllGone(ws: seq<Worker>) {
    forall w | w in ws :: w.Gone?
  }

  function Started(ws: seq<Worker>, starts: bool): seq<Worker> {
    if starts then ws + [Building] else ws
  }

  function Step(s: System, e: Event): System
    requires Enabled(s, e)
  {
    match e
    case Prewarms =>
      var p := Aimed(s.pool);
      s.(pool := Filled(p), workers := Started(s.workers, Starts(p)))
    case Takes =>
      var p := Taken(s.pool);
      var getter := match Handed(s.pool) case Some(idx) => Got(idx) case None => Waiting;
      s.(pool := Filled(p), workers := Started(s.workers, Starts(p)), getters := s.getters + [getter])
    case BuildsInline(g) => s.(getters := s.getters[g := Built(s.issued)], issued := s.issued + 1)
    case CountsInline(g) => s.(pool := Counted(s.pool), getters := s.getters[g := Got(s.getters[g].idx)])
    case Builds(w) => s.(workers := s.workers[w := Holding(s.issued)], issued := s.issued + 1)
    case Finishes(w) =>
      var idx := s.workers[w].idx;
      var starts := !Drops(s.pool) && Starts(Finished(s.pool, idx));
      s.(pool := FinishedFilled(s.pool, idx), workers := Started(s.workers[w := Leaving], starts),
         released := if Drops(s.pool) then s.released + [idx] else s.released)
    case Leaves(w) => s.(workers := s.workers[w := Gone])
    case BeginsClose => s.(pool := Flagged(s.pool), closers := s.closers + [Begun])
    case Waits(d) => s.(closers := s.closers[d := Waited])
    case EndsClose(d) => s.(pool := Cleared(s.pool), closers := s.closers[d := Returned], released := s.released + s.pool.ready)
  }

  predicate Possible(s: System, es: seq<Event>)
    decreases |es|
  {
    es == [] || (Enabled(s, es[0]) && Possible(Step(s, es[0]), es[1..]))
  }

  function Run(s: System, es: seq<Event>): System
    requires Possible(s, es)
    decreases |es|
  {
    if es == [] then s else Run(Step(s, es[0]), es[1..])
  }

  // ----- Who has which index -----

  function One(b: bool): nat { if b then 1 else 0 }

  function Occurs(xs: seq<nat>, idx: nat): nat {
    if xs == [] then 0 else Occurs(xs[..|xs| - 1], idx) + One(xs[|xs| - 1] == idx)
  }

  predicate Has(w: Worker, idx: nat) { w.Holding? && w.idx == idx }

  predicate Owns(g: Getter, idx: nat) { !g.Waiting? && g.idx == idx }

  function Holders(ws: seq<Worker>, idx: nat): nat {
    if ws == [] then 0 else Holders(ws[..|ws| - 1], idx) + One(Has(ws[|ws| - 1], idx))
  }

  function Owners(gs: seq<Getter>, idx: nat): nat {
    if gs == [] then 0 else Owners(gs[..|gs| - 1], idx) + One(Owns(gs[|gs| - 1], idx))
  }

  /** In how many places an index is: ready, with a builder, with a caller, released. */
  function Places(s: System, idx: nat): nat {
    Occurs(s.pool.ready, idx) + Holders(s.workers, idx) + Owners(s.getters, idx) + Occurs(s.released, idx)
  }

  /** Every index built is in exactly one place, and no other is anywhere. */
  ghost predicate Accounted(s: System) {
    forall idx: nat :: Places(s, idx) == One(idx < s.issued)
  }

  lemma OccursMore(xs: seq<nat>, x: nat, idx: nat)
    ensures Occurs(xs + [x], idx) == Occurs(xs, idx) + One(x == idx)
    ensures Occurs([], idx) == 0
  {
    assert (xs + [x])[..|xs|] == xs;
  }

  lemma {:induction false} OccursConcat(xs: seq<nat>, ys: seq<nat>, idx: nat)
    ensures Occurs(xs + ys, idx) == Occurs(xs, idx) + Occurs(ys, idx)
  {
    if ys == [] {
      assert xs + ys == xs;
    } else {
      var n := |ys| - 1;
      OccursConcat(xs, ys[..n], idx);
      assert (xs + ys)[..|xs + ys| - 1] == xs + ys[..n] && (xs + ys)[|xs + ys| - 1] == ys[n];
    }
  }

  lemma {:induction false} HoldersUpdate(ws: seq<Worker>, w: nat, x: Worker, idx: nat)
    requires w < |ws|
    ensures Holders(ws[w := x], idx) + One(Has(ws[w], idx)) == Holders(ws, idx) + One(Has(x, idx))
  {
    var n := |ws| - 1;
    if w < n {
      HoldersUpdate(ws[..n], w, x, idx);
      assert ws[w := x][..n] == ws[..n][w := x];
    } else {
      assert ws[w := x][..n] == ws[..n];
    }
  }

  lemma {:induction false} OwnersUpdate(gs: seq<Getter>, g: nat, x: Getter, idx: nat)
    requires g < |gs|
    ensures Owners(gs[g := x], idx) + One(Owns(gs[g], idx)) == Owners(gs, idx) + One(Owns(x, idx))
  {
    var n := |gs| - 1;
    if g < n {
      OwnersUpdate(gs[..n], g, x, idx);
      assert gs[g := x][..n] == gs[..n][g := x];
    } else {
      assert gs[g := x][..n] == gs[..n];
    }
  }

  lemma OwnersMore(gs: seq<Getter>, g: Getter, idx: nat)
    ensures Owners(gs + [g], idx) == Owners(gs, idx) + One(Owns(g, idx))
  {
    assert (gs + [g])[..|gs|] == gs;
  }

  lemma HoldersMore(ws: seq<Worker>, starts: bool, idx: nat)
    ensures Holders(Started(ws, starts), idx) == Holders(ws, idx)
  {
    assert (ws + [Building])[..|ws|] == ws;
  }

  /** A step moves an index, or adds the one it builds. */
  lemma {:induction false} StepMoves(s: System, e: Event, idx: nat)
    requires Enabled(s, e)
    ensures Places(Step(s, e), idx) == Places(s, idx) + One((e.BuildsInline? || e.Builds?) && idx == s.issued)
  {
    hide Occurs, Holders, Owners;
    match e
    case Prewarms =>
      HoldersMore(s.workers, Starts(Aimed(s.pool)), idx);
    case Takes =>
      HoldersMore(s.workers, Starts(Taken(s.pool)), idx);
      var getter := match Handed(s.pool) case Some(idx) => Got(idx) case None => Waiting;
      OwnersMore(s.getters, getter, idx);
      if s.pool.ready != [] {
        var n := |s.pool.ready| - 1;
        OccursMore(s.pool.ready[..n], s.pool.ready[n], idx);
        assert s.pool.ready == s.pool.ready[..n] + [s.pool.ready[n]];
      }
    case BuildsInline(g) => OwnersUpdate(s.getters, g, Built(s.issued), idx);
    case CountsInline(g) => OwnersUpdate(s.getters, g, Got(s.getters[g].idx), idx);
    case Builds(w) => HoldersUpdate(s.workers, w, Holding(s.issued), idx);
    case Finishes(w) =>
      var x := s.workers[w].idx;
      HoldersUpdate(s.workers, w, Leaving, idx);
      HoldersMore(s.workers[w := Leaving], !Drops(s.pool) && Starts(Finished(s.pool, x)), idx);
      OccursMore(s.pool.ready, x, idx);
      OccursMore(s.released, x, idx);
    case Leaves(w) => HoldersUpdate(s.workers, w, Gone, idx);
    case BeginsClose =>
    case Waits(d) =>
    case EndsClose(d) =>
      OccursConcat(s.released, s.pool.ready, idx);
      OccursMore([], 0, idx);
  }

  lemma {:induction false} StepAccounts(s: System, e: Event)
    requires Accounted(s) && Enabled(s, e)
    ensures Accounted(Step(s, e))
  {
    hide Places;
    forall idx: nat ensures Places(Step(s, e), idx) == One(idx < Step(s, e).issued) {
      StepMoves(s, e, idx);
      assert Places(s, idx) == One(idx < s.issued);
    }
  }

  // ----- Counting builders -----

  function Active(ws: seq<Worker>): nat {
    if ws == [] then 0
    else Active(ws[..|ws| - 1]) + (if ws[|ws| - 1].Building? || ws[|ws| - 1].Holding? then 1 else 0)
  }

  function Carrying(ws: seq<Worker>): nat {
    if ws == [] then 0 else Carrying(ws[..|ws| - 1]) + (if ws[|ws| - 1].Holding? then 1 else 0)
  }

  function Uncounted(gs: seq<Getter>): nat {
    if gs == [] then 0 else Uncounted(gs[..|gs| - 1]) + (if gs[|gs| - 1].Built? then 1 else 0)
  }

  lemma {:induction false} ActiveUpdate(ws: seq<Worker>, w: nat, x: Worker)
    requires w < |ws|
    ensures Active(ws[w := x]) + One(ws[w].Building? || ws[w].Holding?) == Active(ws) + One(x.Building? || x.Holding?)
    ensures Carrying(ws[w := x]) + One(ws[w].Holding?) == Carrying(ws) + One(x.Holding?)
    ensures Active(ws) >= One(ws[w].Building? || ws[w].Holding?)
  {
    var n := |ws| - 1;
    if w < n {
      ActiveUpdate(ws[..n], w, x);
      assert ws[w := x][..n] == ws[..n][w := x];
    } else {
      assert ws[w := x][..n] == ws[..n];
    }
  }

  lemma {:induction false} UncountedUpdate(gs: seq<Getter>, g: nat, x: Getter)
    requires g < |gs|
    ensures Uncounted(gs[g := x]) + One(gs[g].Built?) == Uncounted(gs) + One(x.Built?)
  {
    var n := |gs| - 1;
    if g < n {
      UncountedUpdate(gs[..n], g, x);
      assert gs[g := x][..n] == gs[..n][g := x];
    } else {
      assert gs[g := x][..n] == gs[..n];
    }
  }

  lemma ActiveMore(ws: seq<Worker>, starts: bool)
    ensures Active(Started(ws, starts)) == Active(ws) + One(starts)
    ensures Carrying(Started(ws, starts)) == Carrying(ws)
  {
    assert (ws + [Building])[..|ws|] == ws;
  }

  lemma UncountedMore(gs: seq<Getter>, g: Getter)
    ensures Uncounted(gs + [g]) == Uncounted(gs) + One(g.Built?)
  {
    assert (gs + [g])[..|gs|] == gs;
  }

  lemma {:induction false} GoneIsIdle(ws: seq<Worker>)
    requires AllGone(ws)
    ensures Active(ws) == 0
  {
    if ws != [] {
      assert ws[|ws| - 1] in ws;
      GoneIsIdle(ws[..|ws| - 1]);
    }
  }

  /** What every state of every run satisfies. */
  ghost predicate Safe(s: System) {
    var p := s.pool;
    && p.inflight == Active(s.workers) <= 1
    && |p.ready| <= p.size && p.target <= p.size
    // A build is in flight exactly when an open pool is short.
    && (p.inflight > 0 ==> |p.ready| < p.target)
    && (!p.closed && |p.ready| < p.target ==> p.inflight == 1)
    // Nothing is released before close.
    && (s.released != [] ==> p.closed)
    // The statistics.
    && p.stats.pooled + p.stats.inlined == |s.getters|
    && p.stats.built + Carrying(s.workers) + Uncounted(s.getters) == s.issued
  }

  /** What holds once close is called, has waited, has returned. */
  ghost predicate CloseHolds(s: System) {
    forall c | c in s.closers ::
      && s.pool.closed
      && (c.Waited? || c.Returned? ==> AllGone(s.workers))
      && (c.Returned? ==> s.pool.ready == [])
  }

  lemma {:induction false} StepIsSafe(s: System, e: Event)
    requires Safe(s) && CloseHolds(s) && Enabled(s, e)
    ensures Safe(Step(s, e))
  {
    hide Active, Carrying, Uncounted;
    match e
    case Prewarms =>
      ActiveMore(s.workers, Starts(Aimed(s.pool)));
    case Takes =>
      ActiveMore(s.workers, Starts(Taken(s.pool)));
      var getter := match Handed(s.pool) case Some(idx) => Got(idx) case None => Waiting;
      UncountedMore(s.getters, getter);
    case BuildsInline(g) => UncountedUpdate(s.getters, g, Built(s.issued));
    case CountsInline(g) => UncountedUpdate(s.getters, g, Got(s.getters[g].idx));
    case Builds(w) => ActiveUpdate(s.workers, w, Holding(s.issued));
    case Finishes(w) =>
      ActiveUpdate(s.workers, w, Leaving);
      ActiveMore(s.workers[w := Leaving], !Drops(s.pool) && Starts(Finished(s.pool, s.workers[w].idx)));
    case Leaves(w) => ActiveUpdate(s.workers, w, Gone);
    case BeginsClose =>
    case Waits(d) =>
    case EndsClose(d) => assert s.closers[d] in s.closers;
  }

  /** Closed and all builders gone: no step brings a builder back. */
  lemma StaysGone(s: System, e: Event)
    requires Safe(s) && s.pool.closed && AllGone(s.workers) && Enabled(s, e)
    ensures Step(s, e).workers == s.workers && Step(s, e).pool.closed
    ensures s.pool.ready == [] ==> Step(s, e).pool.ready == []
  {
    hide Active, Carrying, Uncounted;
    GoneIsIdle(s.workers);
    forall w | 0 <= w < |s.workers| ensures s.workers[w].Gone? {
      assert s.workers[w] in s.workers;
    }
  }

  lemma {:induction false} StepKeepsClose(s: System, e: Event)
    requires Safe(s) && CloseHolds(s) && Enabled(s, e)
    ensures CloseHolds(Step(s, e))
  {
    hide Active, Carrying, Uncounted;
    var t := Step(s, e);
    assert s.pool.closed ==> t.pool.closed;
    if s.pool.closed && AllGone(s.workers) {
      StaysGone(s, e);
    }
    hide Safe, Step;
    forall c | c in t.closers ensures t.pool.closed && (c.Waited? || c.Returned? ==> AllGone(t.workers)) && (c.Returned? ==> t.pool.ready == []) {
      ClosersOf(s, e, c);
    }
  }

  /** Where a closer's phase comes from. */
  lemma ClosersOf(s: System, e: Event, c: Closer)
    requires Enabled(s, e) && c in Step(s, e).closers
    ensures c in s.closers || (e.BeginsClose? && c.Begun? && Step(s, e).pool.closed)
      || (e.Waits? && c.Waited? && AllGone(s.workers) && Begun in s.closers)
      || (e.EndsClose? && c.Returned? && Waited in s.closers && Step(s, e).pool.ready == [])
  {
  }

  ghost predicate Inv(s: System) {
    Accounted(s) && Safe(s) && CloseHolds(s)
  }

  /** The invariant holds after every possible run, whatever the interleaving. */
  lemma {:induction false} RunIsSafe(s: System, es: seq<Event>)
    requires Inv(s) && Possible(s, es)
    ensures Inv(Run(s, es))
    decreases |es|
  {
    hide Accounted, Safe, CloseHolds, Step, Enabled;
    if es != [] {
      StepAccounts(s, es[0]);
      StepIsSafe(s, es[0]);
      StepKeepsClose(s, es[0]);
      RunIsSafe(Step(s, es[0]), es[1..]);
    }
  }

  lemma InitIsSafe(size: int)
    ensures Inv(Init(size))
  {
  }

  // ----- What the invariant says -----

  /** The pool's promises in any state reached from a new pool. */
  lemma {:induction false} PoolIsSafe(size: int, es: seq<Event>)
    requires Possible(Init(size), es)
    ensures var s := Run(Init(size), es);
      && Inv(s)
      && s.pool.inflight <= 1 && |s.pool.ready| <= s.pool.size
      && (!s.pool.closed && |s.pool.ready| < s.pool.target ==> s.pool.inflight == 1)
      && (Returned in s.closers ==> s.pool.ready == [])
  {
    hide Run, Possible, Step, Places;
    InitIsSafe(size);
    RunIsSafe(Init(size), es);
  }

  // ----- Prewarming -----

  lemma {:induction false} TargetAfter(s: System, es: seq<Event>)
    requires Possible(s, es)
    ensures var p := Run(s, es).pool;
      p.size == s.pool.size && p.target == if Prewarms in es then p.size else s.pool.target
    decreases |es|
  {
    if es != [] {
      TargetAfter(Step(s, es[0]), es[1..]);
      assert Prewarms in es <==> es[0] == Prewarms || Prewarms in es[1..];
    }
  }

  lemma {:induction false} NothingStarted(s: System, es: seq<Event>)
    requires Possible(s, es) && Prewarms !in es && s.pool.target == 0 && s.workers == [] && s.pool.ready == []
    ensures var t := Run(s, es); t.workers == [] && t.pool.ready == []
    decreases |es|
  {
    if es != [] {
      assert Prewarms !in es[1..];
      NothingStarted(Step(s, es[0]), es[1..]);
    }
  }

  /** After a run that prewarms the pool, an open pool with fewer than its size ready has exactly one
      builder at work; before that no builder has been started and nothing is ready. */
  lemma PrewarmedRefills(size: int, es: seq<Event>)
    requires Possible(Init(size), es)
    ensures var s := Run(Init(size), es);
      && (Prewarms in es && !s.pool.closed && |s.pool.ready| < size ==> s.pool.inflight == Active(s.workers) == 1)
      && (Prewarms !in es ==> s.workers == [] && s.pool.ready == [])
  {
    hide Run, Possible, Step, Places;
    PoolIsSafe(size, es);
    TargetAfter(Init(size), es);
    if Prewarms !in es {
      NothingStarted(Init(size), es);
    }
  }

  // ----- Newest first -----

  /** Indexes stand ready in the order they were built, and one held was built after all of them. */
  ghost predicate Ordered(s: System) {
    var ready := s.pool.ready;
    && (forall i, j | 0 <= i < j < |ready| :: ready[i] < ready[j])
    && (forall i | 0 <= i < |ready| :: ready[i] < s.issued)
    && (forall w, i | w in s.workers && w.Holding? && 0 <= i < |ready| :: ready[i] < w.idx < s.issued)
    && (forall w | w in s.workers && w.Holding? :: w.idx < s.issued)
  }

  lemma {:induction false} OneCarries(ws: seq<Worker>, v: nat, w: nat)
    requires v < w < |ws| && ws[v].Holding? && ws[w].Holding?
    ensures Active(ws) >= 2
  {
    var n := |ws| - 1;
    if w < n { OneCarries(ws[..n], v, w); } else { ActiveUpdate(ws[..n], v, Gone); }
  }

  lemma StepKeepsOrder(s: System, e: Event)
    requires Safe(s) && Ordered(s) && Enabled(s, e)
    ensures Ordered(Step(s, e))
  {
    hide Active, Carrying, Uncounted;
    match e
    case Finishes(w) =>
      forall v | 0 <= v < |s.workers| && v != w ensures !s.workers[v].Holding? {
        if s.workers[v].Holding? { OneCarries(s.workers, if v < w then v else w, if v < w then w else v); }
      }
      assert s.workers[w] in s.workers;
      hide Safe;
      assert forall x | x in Step(s, e).workers :: !x.Holding?;
    case _ => hide Safe;
  }

  lemma {:induction false} RunKeepsOrder(s: System, es: seq<Event>)
    requires Inv(s) && Ordered(s) && Possible(s, es)
    ensures Ordered(Run(s, es))
    decreases |es|
  {
    hide Accounted, Safe, CloseHolds, Step, Enabled, Ordered;
    if es != [] {
      StepAccounts(s, es[0]);
      StepIsSafe(s, es[0]);
      StepKeepsClose(s, es[0]);
      StepKeepsOrder(s, es[0]);
      RunKeepsOrder(Step(s, es[0]), es[1..]);
    }
  }

  /** From s to t a get was handed the largest ready index, or, when none was ready, is to build. */
  ghost predicate HandsNewest(s: System, t: System) {
    var ready, left := s.pool.ready, t.pool.ready;
    if ready == [] then t.getters == s.getters + [Waiting] && left == []
    else
      && |t.getters| == |s.getters| + 1 && t.getters[..|s.getters|] == s.getters
      && var last := t.getters[|s.getters|];
      last.Got? && ready == left + [last.idx] && forall other | other in left :: other < last.idx
  }

  /** In any reachable state a get is handed the ready index that was built last, which then is the only
      one to leave the pool; when none is ready it is to build its own. */
  lemma NewestFirst(size: int, es: seq<Event>)
    requires Possible(Init(size), es)
    ensures HandsNewest(Run(Init(size), es), Step(Run(Init(size), es), Takes))
  {
    hide Run, Possible, Step, Inv, HandsNewest;
    InitIsSafe(size);
    assert Ordered(Init(size)) by { NothingOrdered(size); }
    RunKeepsOrder(Init(size), es);
    TakeHandsNewest(Run(Init(size), es));
  }

  lemma NothingOrdered(size: int)
    ensures Ordered(Init(size))
  {
  }

  lemma TakeHandsNewest(s: System)
    requires Ordered(s)
    ensures HandsNewest(s, Step(s, Takes))
  {
  }

  // ----- The statistics count events -----

  function Count(es: seq<Event>, p: Event -> bool): nat {
    if es == [] then 0 else One(p(es[0])) + Count(es[1..], p)
  }

  function Undecided(gs: seq<Getter>): nat {
    if gs == [] then 0 else Undecided(gs[..|gs| - 1]) + One(gs[|gs| - 1].Waiting?)
  }

  lemma {:induction false} UndecidedUpdate(gs: seq<Getter>, g: nat, x: Getter)
    requires g < |gs|
    ensures Undecided(gs[g := x]) + One(gs[g].Waiting?) == Undecided(gs) + One(x.Waiting?)
  {
    var n := |gs| - 1;
    if g < n {
      UndecidedUpdate(gs[..n], g, x);
      assert gs[g := x][..n] == gs[..n][g := x];
    } else {
      assert gs[g := x][..n] == gs[..n];
    }
  }

  lemma UndecidedMore(gs: seq<Getter>, g: Getter)
    ensures Undecided(gs + [g]) == Undecided(gs) + One(g.Waiting?)
  {
    assert (gs + [g])[..|gs|] == gs;
  }

  lemma StepCounts(s: System, e: Event)
    requires Enabled(s, e)
    ensures var a, b, t := s.pool.stats, Step(s, e).pool.stats, Step(s, e);
      && b.pooled + b.inlined == a.pooled + a.inlined + One(e.Takes?)
      && b.inlined + Undecided(s.getters) == a.inlined + Undecided(t.getters) + One(e.BuildsInline?)
      && b.built == a.built + One(e.CountsInline? || e.Finishes?)
  {
    hide Undecided;
    match e
    case Takes => UndecidedMore(s.getters, match Handed(s.pool) case Some(idx) => Got(idx) case None => Waiting);
    case BuildsInline(g) => UndecidedUpdate(s.getters, g, Built(s.issued));
    case CountsInline(g) => UndecidedUpdate(s.getters, g, Got(s.getters[g].idx));
    case _ =>
  }

  lemma {:induction false} RunCounts(s: System, es: seq<Event>)
    requires Possible(s, es)
    ensures var a, b, t := s.pool.stats, Run(s, es).pool.stats, Run(s, es);
      && b.pooled + b.inlined == a.pooled + a.inlined + Count(es, (e: Event) => e.Takes?)
      && b.inlined + Undecided(s.getters) == a.inlined + Undecided(t.getters) + Count(es, (e: Event) => e.BuildsInline?)
      && b.built == a.built + Count(es, (e: Event) => e.CountsInline? || e.Finishes?)
    decreases |es|
  {
    hide Undecided, Step, Enabled;
    if es != [] {
      StepCounts(s, es[0]);
      RunCounts(Step(s, es[0]), es[1..]);
    }
  }

  /** After any run the statistics say how many gets were served from the pool, how many had to build
      or still have to, and how many builds were counted. */
  lemma StatsCount(size: int, es: seq<Event>)
    requires Possible(Init(size), es)
    ensures var s := Run(Init(size), es);
      && s.pool.stats.pooled + s.pool.stats.inlined == Count(es, (e: Event) => e.Takes?)
      && s.pool.stats.inlined == Undecided(s.getters) + Count(es, (e: Event) => e.BuildsInline?)
      && s.pool.stats.built == Count(es, (e: Event) => e.CountsInline? || e.Finishes?)
  {
    RunCounts(Init(size), es);
  }

  lemma {:induction false} OwnersCount(gs: seq<Getter>, g: nat, h: nat, idx: nat)
    requires g < h < |gs| && Owns(gs[h], idx)
    ensures Owners(gs, idx) >= 1 + One(Owns(gs[g], idx))
  {
    var n := |gs| - 1;
    if h < n {
      OwnersCount(gs[..n], g, h, idx);
    } else {
      OwnersSome(gs[..n], g, idx);
    }
  }

  lemma {:induction false} OwnersSome(gs: seq<Getter>, g: nat, idx: nat)
    requires g < |gs|
    ensures Owners(gs, idx) >= One(Owns(gs[g], idx))
  {
    if g < |gs| - 1 {
      OwnersSome(gs[..|gs| - 1], g, idx);
    }
  }

  lemma {:induction false} OccursSome(xs: seq<nat>, idx: nat)
    requires idx in xs
    ensures Occurs(xs, idx) >= 1
  {
    if xs[|xs| - 1] != idx {
      assert idx in xs[..|xs| - 1];
      OccursSome(xs[..|xs| - 1], idx);
    }
  }

  /** No index goes to two callers, and none a caller has is still in the pool. */
  lemma {:induction false} NoIndexIsShared(s: System, g: nat, h: nat, idx: nat)
    requires Accounted(s) && g < |s.getters| && Owns(s.getters[g], idx)
    ensures g != h && h < |s.getters| ==> !Owns(s.getters[h], idx)
    ensures idx !in s.pool.ready && idx !in s.released && idx < s.issued
  {
    hide Owners, Occurs, Holders;
    assert Places(s, idx) == One(idx < s.issued);
    OwnersSome(s.getters, g, idx);
    if g != h && h < |s.getters| && Owns(s.getters[h], idx) {
      OwnersCount(s.getters, if g < h then g else h, if g < h then h else g, idx);
    }
    if idx in s.pool.ready {
      OccursSome(s.pool.ready, idx);
    }
    if idx in s.released {
      OccursSome(s.released, idx);
    }
  }

  /** A background build is dropped exactly if the pool closed while it ran: the size check never fires. */
  lemma DropsOnlyAfterClose(s: System, w: nat)
    requires Safe(s) && Enabled(s, Finishes(w))
    ensures Drops(s.pool) <==> s.pool.closed
  {
  }

  /** A builder may always finish: the count of builds in flight is not zero while one is building. */
  lemma BuilderMayFinish(s: System, w: nat)
    requires Safe(s) && w < |s.workers| && s.workers[w].Holding?
    ensures Enabled(s, Finishes(w))
  {
    ActiveUpdate(s.workers, w, Gone);
  }

  /** Once a close has returned, no run makes an index ready again, and every get builds inline. */
  lemma {:induction false} ClosedForGood(s: System, es: seq<Event>)
    requires Inv(s) && Returned in s.closers && Possible(s, es)
    ensures var t := Run(s, es);
      && t.pool.ready == [] && Returned in t.closers && AllGone(t.workers)
      && Step(t, Takes).getters == t.getters + [Waiting] && Step(t, Takes).workers == t.workers
    decreases |es|
  {
    hide Accounted, Active, Carrying, Uncounted;
    if es == [] {
      StaysGone(s, Takes) by { assert Returned in s.closers; }
    } else {
      StepAccounts(s, es[0]);
      StepIsSafe(s, es[0]);
      StepKeepsClose(s, es[0]);
      StillReturned(s, es[0]);
      ClosedForGood(Step(s, es[0]), es[1..]);
    }
  }

  lemma StillReturned(s: System, e: Event)
    requires Enabled(s, e) && Returned in s.closers
    ensures Returned in Step(s, e).closers
  {
    var d :| 0 <= d < |s.closers| && s.closers[d] == Returned;
    assert Step(s, e).closers[d] == Returned;
  }

  // ----- close returns -----

  function Rank(w: Worker): nat {
    match w
    case Building => 3
    case Holding(_) => 2
    case Leaving => 1
    case Gone => 0
  }

  /** How many steps the builders still have. */
  function Work(ws: seq<Worker>): nat {
    if ws == [] then 0 else Work(ws[..|ws| - 1]) + Rank(ws[|ws| - 1])
  }

  lemma {:induction false} WorkUpdate(ws: seq<Worker>, w: nat, x: Worker)
    requires w < |ws|
    ensures Work(ws[w := x]) + Rank(ws[w]) == Work(ws) + Rank(x)
  {
    var n := |ws| - 1;
    if w < n {
      WorkUpdate(ws[..n], w, x);
      assert ws[w := x][..n] == ws[..n][w := x];
    } else {
      assert ws[w := x][..n] == ws[..n];
    }
  }

  predicate OfBuilder(e: Event) { e.Builds? || e.Finishes? || e.Leaves? }

  /** In a closed pool every step of a builder leaves less to do, and no other step adds any. */
  lemma {:induction false} ClosedPoolWinds(s: System, e: Event)
    requires s.pool.closed && Enabled(s, e)
    ensures Step(s, e).pool.closed
    ensures Work(Step(s, e).workers) == Work(s.workers) - One(OfBuilder(e))
  {
    hide Work;
    match e
    case Builds(w) => WorkUpdate(s.workers, w, Holding(s.issued));
    case Finishes(w) => WorkUpdate(s.workers, w, Leaving);
    case Leaves(w) => WorkUpdate(s.workers, w, Gone);
    case Prewarms =>
    case Takes =>
    case BuildsInline(g) =>
    case CountsInline(g) =>
    case BeginsClose =>
    case Waits(d) =>
    case EndsClose(d) =>
  }

  /** While close waits, some builder can move: with the last lemma, the wait ends after as many builder
      steps as there is work. */
  lemma WaitIsNotStuck(s: System)
    requires Safe(s) && !AllGone(s.workers)
    ensures exists e :: OfBuilder(e) && Enabled(s, e)
  {
    var x :| x in s.workers && !x.Gone?;
    var w: nat :| w < |s.workers| && s.workers[w] == x;
    match x
    case Building => assert Enabled(s, Builds(w));
    case Holding(_) => BuilderMayFinish(s, w);
    case Leaving => assert Enabled(s, Leaves(w));
  }
}
