/** Signal traps: each serve call chains its own in front of what it finds, and puts that back
    only while no later call has installed anything. */
module Traps {
  import opened Bytes

  datatype Signal = TERM | INT

  const SIGNALS: seq<Signal> := [TERM, INT]

  /** What answers a signal: whatever was there before any server (a Proc, or a string such as
      "DEFAULT", which cannot be called), or a serve call's trap with the handler it chains to. */
  datatype Handler = Base(callable: bool) | Trap(gen: nat, previous: Handler)

  /** A handler for every signal. */
  type Table = t: map<Signal, Handler> | forall s: Signal :: s in t witness map s: Signal | true :: Base(false)

  /** Every signal's handler with generation gen's trap in front. */
  function Trapped(installed: Table, gen: nat): (t: Table)
    ensures forall s :: t[s] == Trap(gen, installed[s])
  {
    map s: Signal | s in installed :: Trap(gen, installed[s])
  }

  lemma SameTable(a: Table, b: Table)
    requires a[TERM] == b[TERM] && a[INT] == b[INT]
    ensures a == b
  {
    forall s: Signal ensures a[s] == b[s] {
      match s
      case TERM =>
      case INT =>
    }
  }

  /** The module's trap bookkeeping and the process's signal handlers. */
  class TrapState {
    var generation: nat
    var installed: Table

    constructor (installed: Table)
      ensures this.installed == installed && generation == 0
    {
      this.installed, generation := installed, 0;
    }

    /** Signal.trap: installs a handler and returns the one it replaces. */
    method SetTrap(signal: Signal, handler: Handler) returns (previous: Handler)
      modifies this`installed
      ensures previous == old(installed)[signal]
      ensures installed == old(installed)[signal := handler]
    {
      previous := installed[signal];
      installed := installed[signal := handler];
    }

    /** install_shutdown_traps: the new generation, and what each signal's handler was. The trap's
        block refers to the handler that installing it returns. */
    method InstallShutdownTraps() returns (gen: nat, previous: Table)
      modifies this
      ensures gen == generation == old(generation) + 1
      ensures previous == old(installed) && installed == Trapped(old(installed), gen)
    {
      generation := generation + 1;
      gen := generation;
      var found: map<Signal, Handler> := map[];
      for i := 0 to |SIGNALS|
        invariant gen == generation == old(generation) + 1
        invariant if i > 0 then TERM in found && found[TERM] == old(installed)[TERM] && installed[TERM] == Trap(gen, found[TERM])
                  else installed[TERM] == old(installed)[TERM]
        invariant if i > 1 then INT in found && found[INT] == old(installed)[INT] && installed[INT] == Trap(gen, found[INT])
                  else installed[INT] == old(installed)[INT]
      {
        var before := SetTrap(SIGNALS[i], Trap(gen, installed[SIGNALS[i]]));
        found := found[SIGNALS[i] := before];
      }
      forall s: Signal ensures s in found {
        match s
        case TERM =>
        case INT =>
      }
      previous := found;
      SameTable(previous, old(installed));
      SameTable(installed, Trapped(old(installed), gen));
    }

    /** restore_shutdown_traps: only the latest generation puts anything back. */
    method RestoreShutdownTraps(gen: nat, previous: Table)
      modifies this`installed
      ensures installed == if gen == generation then previous else old(installed)
    {
      if gen != generation {
        return;
      }
      for i := 0 to |SIGNALS|
        invariant installed[TERM] == if i > 0 then previous[TERM] else old(installed)[TERM]
        invariant installed[INT] == if i > 1 then previous[INT] else old(installed)[INT]
      {
        var _ := SetTrap(SIGNALS[i], previous[SIGNALS[i]]);
      }
      SameTable(installed, previous);
    }
  }

  /* ---- Serve calls, overlapping at will ---- */

  /** `running` holds, for each server still running, what it will put back; `overlapped`
      records whether a serve call ever began while another was running. */
  datatype World = World(generation: nat, installed: Table, running: map<nat, Table>, overlapped: bool)

  datatype Label = Begin | End(gen: nat)

  function Fresh(original: Table): World {
    World(0, original, map[], false)
  }

  function Move(w: World, l: Label): Option<World> {
    match l
    case Begin =>
      var gen := w.generation + 1;
      Some(World(gen, Trapped(w.installed, gen), w.running[gen := w.installed], w.overlapped || w.running != map[]))
    case End(gen) =>
      if gen !in w.running then None
      else Some(w.(installed := if gen == w.generation then w.running[gen] else w.installed, running := w.running - {gen}))
  }

  predicate IsRun(worlds: seq<World>, labels: seq<Label>) {
    && |worlds| == |labels| + 1
    && forall i :: 0 <= i < |labels| ==> Move(worlds[i], labels[i]) == Some(worlds[i + 1])
  }

  /* ---- Delivering a signal ---- */

  /** The servers whose traps run, in order: each asks for shutdown, then calls what it chains to. */
  function Told(h: Handler): seq<nat> {
    match h
    case Base(_) => []
    case Trap(gen, previous) => [gen] + Told(previous)
  }

  /** How often the handler from before any server is called. */
  function BaseCalls(h: Handler): nat {
    match h
    case Base(callable) => if callable then 1 else 0
    case Trap(_, previous) => BaseCalls(previous)
  }

  function Bottom(h: Handler): Handler {
    if h.Base? then h else Bottom(h.previous)
  }

  predicate InChain(h: Handler, gen: nat) {
    h.Trap? && (h.gen == gen || InChain(h.previous, gen))
  }

  /** Generations fall strictly along the chain, from at most top. */
  predicate Falling(h: Handler, top: nat) {
    h.Trap? ==> h.gen <= top && h.gen > 0 && Falling(h.previous, h.gen - 1)
  }

  lemma {:induction false} FallingAbove(h: Handler, low: nat, high: nat)
    requires Falling(h, low) && low <= high
    ensures Falling(h, high)
  {
  }

  lemma {:induction false} ToldOnce(h: Handler, top: nat)
    requires Falling(h, top)
    ensures forall i :: 0 <= i < |Told(h)| ==> 0 < Told(h)[i] <= top
    ensures forall i, j :: 0 <= i < j < |Told(h)| ==> Told(h)[i] > Told(h)[j]
    ensures BaseCalls(h) == BaseCalls(Bottom(h))
  {
    if h.Trap? {
      ToldOnce(h.previous, h.gen - 1);
    }
  }

  lemma {:induction false} ToldInChain(h: Handler, gen: nat)
    ensures gen in Told(h) <==> InChain(h, gen)
  {
    if h.Trap? {
      ToldInChain(h.previous, gen);
    }
  }

  /* ---- The invariant ---- */

  /** A table in which every chain ends in the original handler and falls from top. */
  predicate Rooted(t: Table, original: Table, top: nat) {
    forall s :: Bottom(t[s]) == original[s] && Falling(t[s], top)
  }

  predicate Hears(t: Table, gen: nat) {
    forall s :: InChain(t[s], gen)
  }

  predicate Inv(w: World, original: Table) {
    && (forall s :: original[s].Base?)
    && Rooted(w.installed, original, w.generation)
    && (forall g :: g in w.running ==> 0 < g <= w.generation && Rooted(w.running[g], original, g - 1))
    && (forall g :: g in w.running ==> Hears(w.installed, g))
    && (forall g, k :: g in w.running && k in w.running && k < g ==> Hears(w.running[g], k))
  }

  /** Without overlap there is at most the one server, over the original handlers; after one,
      some trap stays in front of them for good. */
  predicate OverlapInv(w: World, original: Table) {
    if w.overlapped then
      && (forall s :: w.installed[s].Trap?)
      && (w.generation in w.running ==> forall s :: w.running[w.generation][s].Trap?)
    else
      || (w.running == map[] && w.installed == original)
      || (w.running.Keys == {w.generation} && w.running[w.generation] == original)
  }

  lemma TrappedRooted(t: Table, original: Table, gen: nat)
    requires gen > 0 && Rooted(t, original, gen - 1)
    ensures Rooted(Trapped(t, gen), original, gen)
  {
  }

  lemma TrappedHears(t: Table, gen: nat, g: nat)
    requires g == gen || Hears(t, g)
    ensures Hears(Trapped(t, gen), g)
  {
  }

  /** A new trap is heard in front of everything, and hides nothing behind it. */
  lemma BeginKeepsInv(w: World, original: Table)
    requires Inv(w, original)
    ensures Inv(Move(w, Begin).value, original)
  {
    hide Rooted, Hears;
    var w' := Move(w, Begin).value;
    var gen := w.generation + 1;
    TrappedRooted(w.installed, original, gen);
    forall g | g in w'.running ensures Hears(w'.installed, g) {
      TrappedHears(w.installed, gen, g);
    }
  }

  lemma EndKeepsInv(w: World, gen: nat, original: Table)
    requires Inv(w, original) && gen in w.running
    ensures Inv(Move(w, End(gen)).value, original)
  {
    var w' := Move(w, End(gen)).value;
    if gen == w.generation {
      assert Rooted(w.running[gen], original, gen - 1);
      forall s: Signal ensures Falling(w'.installed[s], w.generation) {
        FallingAbove(w.running[gen][s], gen - 1, w.generation);
      }
      forall g | g in w'.running ensures Hears(w'.installed, g) {
        assert Hears(w.running[gen], g);
      }
    }
  }

  lemma MoveKeepsOverlap(w: World, l: Label, original: Table)
    requires Inv(w, original) && OverlapInv(w, original) && Move(w, l).Some?
    ensures OverlapInv(Move(w, l).value, original)
  {
    var w' := Move(w, l).value;
    match l
    case Begin =>
      if w.running != map[] {
        var g :| g in w.running;
        assert Hears(w.installed, g);
        assert forall s: Signal :: InChain(w.installed[s], g) && w.installed[s].Trap?;
      } else if !w.overlapped {
        assert w'.running.Keys == {w'.generation};
      }
    case End(gen) =>
      if !w.overlapped {
        assert gen == w.generation;
        assert w'.running.Keys == {};
      }
  }

  lemma RunKeepsInv(worlds: seq<World>, labels: seq<Label>, original: Table)
    requires IsRun(worlds, labels) && worlds[0] == Fresh(original)
    requires forall s :: original[s].Base?
    ensures forall i :: 0 <= i < |worlds| ==> Inv(worlds[i], original) && OverlapInv(worlds[i], original)
  {
    hide Move, Inv, OverlapInv;
    FreshInv(original);
    for k := 0 to |labels|
      invariant forall i :: 0 <= i <= k ==> Inv(worlds[i], original) && OverlapInv(worlds[i], original)
    {
      var w, l := worlds[k], labels[k];
      assert Move(w, l) == Some(worlds[k + 1]);
      MoveKeepsOverlap(w, l, original);
      match l
      case Begin => BeginKeepsInv(w, original);
      case End(gen) => EndOfRunning(w, gen); EndKeepsInv(w, gen, original);
    }
  }

  lemma EndOfRunning(w: World, gen: nat)
    requires Move(w, End(gen)).Some?
    ensures gen in w.running
  {
  }

  lemma FreshInv(original: Table)
    requires forall s :: original[s].Base?
    ensures Inv(Fresh(original), original) && OverlapInv(Fresh(original), original)
  {
  }

  /* ---- Results ---- */

  /** Whenever a signal arrives, every running server is told, each once and the newest first, and the handler from
      before any server is called once if it can be. */
  lemma EveryRunningServerIsTold(worlds: seq<World>, labels: seq<Label>, original: Table, k: nat, s: Signal)
    requires IsRun(worlds, labels) && worlds[0] == Fresh(original) && k < |worlds|
    requires forall s :: original[s].Base?
    ensures var w := worlds[k];
            var told := Told(w.installed[s]);
            && (forall g :: g in w.running ==> g in told)
            && (forall i, j :: 0 <= i < j < |told| ==> told[i] > told[j])
            && BaseCalls(w.installed[s]) == if original[s].callable then 1 else 0
  {
    hide Move, OverlapInv;
    RunKeepsInv(worlds, labels, original);
    var w := worlds[k];
    assert Inv(w, original);
    ToldOnce(w.installed[s], w.generation);
    forall g | g in w.running ensures g in Told(w.installed[s]) {
      assert Hears(w.installed, g);
      ToldInChain(w.installed[s], g);
    }
  }

  /** When no server runs any more, the original handlers are back exactly if no two serve
      calls ever overlapped. */
  lemma RestoredExactly(worlds: seq<World>, labels: seq<Label>, original: Table, k: nat)
    requires IsRun(worlds, labels) && worlds[0] == Fresh(original) && k < |worlds|
    requires forall s :: original[s].Base?
    requires worlds[k].running == map[]
    ensures worlds[k].installed == original <==> !worlds[k].overlapped
  {
    hide Move, Inv;
    RunKeepsInv(worlds, labels, original);
    assert OverlapInv(worlds[k], original);
    if worlds[k].overlapped {
      assert worlds[k].installed[TERM].Trap? && original[TERM].Base?;
    }
  }

  /** Two servers, the second ending before the first as if nested: the first one's trap stays. */
  lemma NestedLeavesTrap(original: Table)
    requires forall s :: original[s].Base?
    ensures var a := Move(Fresh(original), Begin).value;
            var b := Move(a, Begin).value;
            && Move(b, End(2)).Some? && Move(Move(b, End(2)).value, End(1)).Some?
            && var end := Move(Move(b, End(2)).value, End(1)).value;
               end.running == map[] && end.installed == Trapped(original, 1) != original
  {
    var a := Move(Fresh(original), Begin).value;
    var b := Move(a, Begin).value;
    var c := Move(b, End(2)).value;
    assert 1 in c.running && 2 in b.running;
    var end := Move(c, End(1)).value;
    assert end.running.Keys == {};
    assert end.installed[TERM] != original[TERM];
  }
}
