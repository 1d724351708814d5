/** The watchdog thread and its one client, over every interleaving of their steps, the clock,
    timeouts and spurious wakeups. The mutex is held exactly in the thread's states Top, Looked
    and After; the client's critical sections are single steps taken while it is free. */
module Watchdog {
  import opened Bytes

  datatype State = Idle | Armed(deadline: nat) | Shutdown

  /** The client is the server's thread: it arms and disarms around each request, and shuts
      the watchdog down last. The *Notify states lie between a write and its notify_one. */
  datatype ClientPc =
    | Away | Arming(deadline: nat) | ArmNotify | Inside | DisarmNotify
    | ShutNotify | Joining | Returned

  /** Where the thread goes on once it has the lock: the loop's top, or the wait for
      generation gen, just fired for, to pass. */
  datatype Goal = Loop | Settle(gen: nat)

  /** A wait_timeout entered for `deadline` returns by itself from `wake` on. */
  datatype Patience = Indefinite | Until(deadline: nat, wake: nat)

  datatype DogPc =
    | Locking(goal: Goal)
    | Top
    | Looked(time: nat)          // has read the clock, still holding the lock
    | Parked(goal: Goal, patience: Patience)
    | Firing(gen: nat)           // has decided and released the lock
    | After(gen: nat)            // holds the lock again after firing
    | Stopped

  /** A decision to fire, for generation gen with its deadline, on a clock reading. */
  datatype Decision = Decision(gen: nat, deadline: nat, time: nat)

  datatype World = World(
    now: nat, state: State, gen: nat, client: ClientPc, dog: DogPc,
    arms: map<nat, nat>,         // every generation ever armed, with its deadline
    decisions: seq<Decision>,
    fires: seq<nat>)             // the generations fire() was called for

  const START: World := World(0, Idle, 0, Away, Locking(Loop), map[], [], [])

  predicate Holds(dog: DogPc) {
    dog.Top? || dog.Looked? || dog.After?
  }

  /** A notify_one is still to come. */
  predicate Pending(client: ClientPc) {
    client.ArmNotify? || client.DisarmNotify? || client.ShutNotify?
  }

  /* ---- Steps ---- */

  datatype Label =
    | Tick(elapsed: nat)
    | BeginArm(slice: nat) | ArmWrite | DisarmWrite | ShutWrite | Notify | Join
    | Dog | Timeout | Spurious

  function Woken(dog: DogPc): DogPc {
    if dog.Parked? then Locking(dog.goal) else dog
  }

  /** The thread's own next step, if it is not parked, stopped or kept from the lock. */
  function DogStep(w: World): Option<World> {
    match w.dog
    case Locking(Loop) => Some(w.(dog := Top))
    case Locking(Settle(g)) => Some(w.(dog := After(g)))
    case Top =>
      (match w.state
       case Shutdown => Some(w.(dog := Stopped))
       case Idle => Some(w.(dog := Parked(Loop, Indefinite)))
       case Armed(_) => Some(w.(dog := Looked(w.now))))
    case Looked(t) =>
      if !w.state.Armed? then None
      else if t < w.state.deadline then
        Some(w.(dog := Parked(Loop, Until(w.state.deadline, w.now + (w.state.deadline - t)))))
      else
        Some(w.(dog := Firing(w.gen), decisions := w.decisions + [Decision(w.gen, w.state.deadline, t)]))
    case Firing(g) => Some(w.(dog := Locking(Settle(g)), fires := w.fires + [g]))
    case After(g) => Some(w.(dog := if w.gen == g then Parked(Settle(g), Indefinite) else Top))
    case Parked(_, _) => None
    case Stopped => None
  }

  /** The world after a step, where that step is possible. */
  function Move(w: World, l: Label): Option<World> {
    match l
    case Tick(elapsed) => Some(w.(now := w.now + elapsed))
    case BeginArm(slice) =>
      if w.client.Away? then Some(w.(client := Arming(w.now + slice))) else None
    case ArmWrite =>
      if w.client.Arming? && !Holds(w.dog) then
        Some(w.(state := Armed(w.client.deadline), gen := w.gen + 1, client := ArmNotify,
                arms := w.arms[w.gen + 1 := w.client.deadline]))
      else None
    case DisarmWrite =>
      if w.client.Inside? && !Holds(w.dog) then Some(w.(state := Idle, gen := w.gen + 1, client := DisarmNotify)) else None
    case ShutWrite =>
      if w.client.Away? && !Holds(w.dog) then Some(w.(state := Shutdown, client := ShutNotify)) else None
    case Notify =>
      (match w.client
       case ArmNotify => Some(w.(client := Inside, dog := Woken(w.dog)))
       case DisarmNotify => Some(w.(client := Away, dog := Woken(w.dog)))
       case ShutNotify => Some(w.(client := Joining, dog := Woken(w.dog)))
       case _ => None)
    case Join =>
      if w.client.Joining? && w.dog.Stopped? then Some(w.(client := Returned)) else None
    case Dog => DogStep(w)
    case Timeout =>
      if w.dog.Parked? && w.dog.patience.Until? && w.dog.patience.wake <= w.now then Some(w.(dog := Woken(w.dog))) else None
    case Spurious =>
      if w.dog.Parked? then Some(w.(dog := Woken(w.dog))) else None
  }

  /** A run: each world follows from the one before by the step between them. */
  predicate IsRun(worlds: seq<World>, labels: seq<Label>) {
    && |worlds| == |labels| + 1
    && forall i :: 0 <= i < |labels| ==> Move(worlds[i], labels[i]) == Some(worlds[i + 1])
  }

  /* ---- The invariant ---- */

  /** The generation the thread has fired, or is firing, for and has not yet left behind. */
  function Settling(dog: DogPc): Option<nat> {
    match dog
    case Locking(Settle(g)) => Some(g)
    case Parked(Settle(g), _) => Some(g)
    case Firing(g) => Some(g)
    case After(g) => Some(g)
    case _ => None
  }

  /** The state is what the client last wrote. */
  predicate ClientInv(w: World) {
    match w.client
    case Away => w.state == Idle
    case Arming(_) => w.state == Idle
    case DisarmNotify => w.state == Idle
    case ArmNotify => w.state.Armed? && w.gen in w.arms && w.arms[w.gen] == w.state.deadline
    case Inside => w.state.Armed? && w.gen in w.arms && w.arms[w.gen] == w.state.deadline
    case _ => w.state == Shutdown
  }

  /** A parked thread waits for the right thing, unless its notification is on the way. */
  predicate WaitFits(w: World) {
    w.dog.Parked? ==>
      match w.dog.goal
      case Settle(g) => w.gen == g && w.state.Armed?
      case Loop =>
        match w.dog.patience
        case Indefinite => w.state == Idle
        case Until(deadline, wake) => w.state == Armed(deadline) && deadline <= wake
  }

  predicate DogInv(w: World) {
    && (w.dog.Looked? ==> w.state.Armed? && w.dog.time <= w.now)
    && (w.dog.Stopped? ==> w.state == Shutdown)
    && (Pending(w.client) || WaitFits(w))
    && match Settling(w.dog)
       case Some(g) =>
         && w.decisions != [] && w.decisions[|w.decisions| - 1].gen == g <= w.gen
         && (g == w.gen ==> w.state.Armed?)
       case None =>
         w.dog != Stopped && w.decisions != [] ==> w.decisions[|w.decisions| - 1].gen < w.gen
  }

  /** Decisions are for ever later generations, each armed with a deadline already passed;
      fire() follows each of them once. */
  predicate DecisionInv(w: World) {
    && (forall g :: g in w.arms ==> g <= w.gen)
    && (forall i, j :: 0 <= i < j < |w.decisions| ==> w.decisions[i].gen < w.decisions[j].gen)
    && (forall i :: 0 <= i < |w.decisions| ==>
          var d := w.decisions[i];
          d.gen in w.arms && w.arms[d.gen] == d.deadline && d.deadline <= d.time <= w.now)
    && |w.fires| == |w.decisions| - (if w.dog.Firing? then 1 else 0)
    && (forall i :: 0 <= i < |w.fires| ==> w.fires[i] == w.decisions[i].gen)
  }

  predicate Inv(w: World) {
    ClientInv(w) && DogInv(w) && DecisionInv(w)
  }

  lemma MoveKeepsClient(w: World, l: Label)
    requires Inv(w) && Move(w, l).Some?
    ensures ClientInv(Move(w, l).value)
  {
    hide DogInv, DecisionInv;
  }

  lemma DogKeepsDog(w: World)
    requires ClientInv(w) && DogInv(w) && DogStep(w).Some?
    ensures DogInv(DogStep(w).value)
  {
    match w.dog
    case Locking(goal) =>
      if goal.Settle? {}
    case _ =>
  }

  lemma OtherKeepsDog(w: World, l: Label)
    requires ClientInv(w) && DogInv(w) && !l.Dog? && Move(w, l).Some?
    ensures DogInv(Move(w, l).value)
  {
    hide DogStep;
    assert Settling(Woken(w.dog)) == Settling(w.dog);
  }

  lemma DogKeepsDecisions(w: World)
    requires Inv(w) && DogStep(w).Some?
    ensures DecisionInv(DogStep(w).value)
  {
    hide WaitFits;
    match w.dog
    case Looked(_) =>
      var d := Decision(w.gen, w.state.deadline, w.dog.time);
      if w.dog.time >= w.state.deadline {
        assert DogStep(w).value.decisions == w.decisions + [d];
        var n := |w.decisions|;
        assert forall i :: 0 <= i < n ==> w.decisions[i].gen <= w.decisions[n - 1].gen < w.gen;
      }
    case _ =>
  }

  lemma OtherKeepsDecisions(w: World, l: Label)
    requires DecisionInv(w) && !l.Dog? && Move(w, l).Some?
    ensures DecisionInv(Move(w, l).value)
  {
    hide DogStep;
    var w' := Move(w, l).value;
    assert w'.decisions == w.decisions && w'.fires == w.fires && (w'.dog.Firing? <==> w.dog.Firing?);
    assert w'.arms == w.arms || (l.ArmWrite? && w'.gen == w.gen + 1);
  }

  lemma MoveKeepsInv(w: World, l: Label)
    requires Inv(w) && Move(w, l).Some?
    ensures Inv(Move(w, l).value)
  {
    hide ClientInv, DogInv, DecisionInv, DogStep;
    MoveKeepsClient(w, l);
    if l.Dog? {
      DogKeepsDog(w);
      DogKeepsDecisions(w);
    } else {
      OtherKeepsDog(w, l);
      OtherKeepsDecisions(w, l);
    }
  }

  /** The invariant holds in every world of every run. */
  lemma RunKeepsInv(worlds: seq<World>, labels: seq<Label>)
    requires IsRun(worlds, labels) && Inv(worlds[0])
    ensures forall i :: 0 <= i < |worlds| ==> Inv(worlds[i])
  {
    hide Inv, Move;
    for k := 0 to |labels|
      invariant forall i :: 0 <= i <= k ==> Inv(worlds[i])
    {
      assert Move(worlds[k], labels[k]) == Some(worlds[k + 1]);
      MoveKeepsInv(worlds[k], labels[k]);
    }
  }

  /* ---- Firing ---- */

  /** A decision to fire is taken under the lock, while the current generation is armed, with
      its deadline passed, its request not yet disarmed, and for the first time. */
  lemma DecidedUnderLock(w: World, l: Label)
    requires Inv(w) && Move(w, l).Some?
    requires Move(w, l).value.decisions != w.decisions
    ensures Holds(w.dog) && w.client in {ArmNotify, Inside}
    ensures w.state.Armed? && w.state.deadline <= w.now
    ensures |Move(w, l).value.decisions| == |w.decisions| + 1 && w.decisions <= Move(w, l).value.decisions
    ensures Move(w, l).value.decisions[|w.decisions|].gen == w.gen
    ensures forall d :: d in w.decisions ==> d.gen < w.gen
  {
    assert l.Dog? && w.dog.Looked?;
    assert forall i :: 0 <= i < |w.decisions| ==> w.decisions[i].gen <= w.decisions[|w.decisions| - 1].gen;
  }

  /** Over any run, each arming is fired for at most once, and only ever after its deadline. */
  lemma OncePerArm(worlds: seq<World>, labels: seq<Label>)
    requires IsRun(worlds, labels) && worlds[0] == START
    ensures var w := worlds[|labels|];
            && (forall i, j :: 0 <= i < j < |w.fires| ==> w.fires[i] != w.fires[j])
            && (forall i :: 0 <= i < |w.fires| ==> w.fires[i] in w.arms && w.arms[w.fires[i]] <= w.now)
  {
    hide Move, ClientInv, DogInv;
    assert Inv(START) by {
      StartKeepsInv();
    }
    RunKeepsInv(worlds, labels);
    assert Inv(worlds[|labels|]);
  }

  /** What is armed is a generation never armed before. */
  lemma ArmsAreNew(w: World)
    requires Inv(w) && Move(w, ArmWrite).Some?
    ensures var w' := Move(w, ArmWrite).value; w'.gen !in w.arms && w'.arms == w.arms[w'.gen := w.client.deadline]
  {
  }

  predicate InRequest(client: ClientPc) {
    client.Arming? || client.ArmNotify? || client.Inside?
  }

  /** The deadline a request is armed for, or about to be. */
  function DeadlineOf(w: World): nat {
    if w.client.Arming? then w.client.deadline else if w.state.Armed? then w.state.deadline else 0
  }

  /** A request's deadline is its slice, counted from when it was begun. */
  lemma {:induction false} DeadlineIsSlice(worlds: seq<World>, labels: seq<Label>, k: nat) returns (i: nat, slice: nat)
    requires IsRun(worlds, labels) && worlds[0] == START && k < |worlds|
    requires InRequest(worlds[k].client)
    ensures i < k && labels[i] == BeginArm(slice) && DeadlineOf(worlds[k]) == worlds[i].now + slice
    ensures forall m :: i < m <= k ==> InRequest(worlds[m].client)
    ensures !worlds[k].client.Arming? ==> worlds[k].state == Armed(worlds[i].now + slice)
  {
    hide DogStep, Inv;
    assert k > 0;
    var w, l := worlds[k - 1], labels[k - 1];
    assert Move(w, l) == Some(worlds[k]);
    assert Inv(START) by {
      StartKeepsInv();
    }
    RunKeepsInv(worlds, labels);
    RequestGoesOn(w, l);
    if l.BeginArm? {
      i, slice := k - 1, l.slice;
    } else {
      i, slice := DeadlineIsSlice(worlds, labels, k - 1);
    }
  }

  lemma RequestGoesOn(w: World, l: Label)
    requires Inv(w) && Move(w, l).Some? && InRequest(Move(w, l).value.client)
    ensures var w' := Move(w, l).value;
            && (w'.client.Arming? || w'.state.Armed?)
            && if l.BeginArm? then w'.client == Arming(w.now + l.slice)
               else InRequest(w.client) && DeadlineOf(w') == DeadlineOf(w)
  {
    hide DogInv, DecisionInv;
  }

  /* ---- Waiting ---- */

  /** From the i-th world to the j-th the thread has held on to one look at the clock. */
  predicate Looking(worlds: seq<World>, i: nat, j: nat) {
    && i < j < |worlds| && worlds[i].dog == Top && worlds[i].now <= worlds[j].now
    && forall m :: i < m <= j ==> worlds[m].dog == Looked(worlds[i].now)
  }

  /** And then it parked, and has been parked until the k-th. */
  predicate ParkedSince(worlds: seq<World>, j: nat, k: nat) {
    j < k < |worlds| && forall m :: j < m <= k ==> worlds[m].dog == worlds[k].dog
  }

  lemma {:induction false} LookBegan(worlds: seq<World>, labels: seq<Label>, k: nat) returns (i: nat)
    requires IsRun(worlds, labels) && worlds[0] == START && k < |worlds| && worlds[k].dog.Looked?
    ensures Looking(worlds, i, k) && worlds[k].dog == Looked(worlds[i].now)
  {
    hide Move;
    assert k > 0;
    var w, l := worlds[k - 1], labels[k - 1];
    assert Move(w, l) == Some(worlds[k]);
    LookGoesOn(w, l);
    if w.dog.Looked? {
      i := LookBegan(worlds, labels, k - 1);
    } else {
      i := k - 1;
    }
  }

  lemma LookGoesOn(w: World, l: Label)
    requires Move(w, l).Some? && Move(w, l).value.dog.Looked?
    ensures var w' := Move(w, l).value;
            w.now <= w'.now && (w'.dog == w.dog || (w.dog == Top && w'.dog == Looked(w.now)))
  {
  }

  lemma ParkGoesOn(w: World, l: Label)
    requires Move(w, l).Some? && Move(w, l).value.dog.Parked? && Move(w, l).value.dog.patience.Until?
    ensures var w' := Move(w, l).value;
            || w'.dog == w.dog
            || (w.dog.Looked? && w'.dog.goal.Loop? && w'.dog.patience.wake == w.now + (w'.dog.patience.deadline - w.dog.time))
  {
  }

  /** A timed wait is for the rest of the time to the deadline, as of the look at the clock: it ends
      later than the deadline by just as long as it took from that look to the parking. */
  lemma {:induction false} WaitIsTheRest(worlds: seq<World>, labels: seq<Label>, k: nat) returns (i: nat, j: nat)
    requires IsRun(worlds, labels) && worlds[0] == START && k < |worlds|
    requires worlds[k].dog.Parked? && worlds[k].dog.patience.Until?
    ensures Looking(worlds, i, j) && ParkedSince(worlds, j, k)
    ensures worlds[k].dog.goal.Loop?
    ensures worlds[k].dog.patience.wake == worlds[k].dog.patience.deadline + (worlds[j].now - worlds[i].now)
  {
    hide Move;
    assert k > 0;
    var w, l := worlds[k - 1], labels[k - 1];
    assert Move(w, l) == Some(worlds[k]);
    ParkGoesOn(w, l);
    if w.dog == worlds[k].dog {
      i, j := WaitIsTheRest(worlds, labels, k - 1);
    } else {
      i := LookBegan(worlds, labels, k - 1);
      j := k - 1;
    }
  }

  /** The wait a parked thread is in is the one the armed deadline calls for. */
  ghost predicate TimedWait(worlds: seq<World>, k: nat) {
    && k < |worlds| && worlds[k].state.Armed?
    && exists i: nat, j: nat :: Looking(worlds, i, j) && ParkedSince(worlds, j, k)
         && worlds[k].dog == Parked(Loop, Until(worlds[k].state.deadline, worlds[k].state.deadline + (worlds[j].now - worlds[i].now)))
  }

  /** In every world of every run, a parked thread with no notification on the way waits for
      exactly what the state now calls for. */
  lemma NoLostWakeup(worlds: seq<World>, labels: seq<Label>, k: nat)
    requires IsRun(worlds, labels) && worlds[0] == START && k < |worlds|
    requires worlds[k].dog.Parked? && !Pending(worlds[k].client)
    ensures var w := worlds[k];
            || (w.dog == Parked(Loop, Indefinite) && w.state == Idle)
            || TimedWait(worlds, k)
            || (w.state.Armed? && w.dog.goal == Settle(w.gen) && w.decisions != [] && w.decisions[|w.decisions| - 1].gen == w.gen)
  {
    hide Move, DecisionInv, ClientInv, Looking, ParkedSince;
    assert Inv(START) by {
      StartKeepsInv();
    }
    RunKeepsInv(worlds, labels);
    var w := worlds[k];
    assert Inv(w);
    if w.dog.goal.Loop? && w.dog.patience.Until? {
      var i, j := WaitIsTheRest(worlds, labels, k);
    }
  }

  /* ---- Stopping ---- */

  /** How many steps the thread is from returning, once the client waits to join it. */
  function StopRank(dog: DogPc): nat {
    match dog
    case Stopped => 0
    case Top => 1
    case Locking(Loop) => 2
    case After(_) => 2
    case Locking(Settle(_)) => 3
    case Firing(_) => 4
    case _ => 5
  }

  predicate Closing(w: World) {
    w.client.Joining? || w.client.Returned?
  }

  lemma ClosingStep(w: World, l: Label)
    requires Inv(w) && Closing(w)
    ensures w.dog.Stopped? || DogStep(w).Some?
    ensures Move(w, l).Some? ==>
              && Closing(Move(w, l).value)
              && if l.Dog? then StopRank(Move(w, l).value.dog) < StopRank(w.dog) else Move(w, l).value.dog == w.dog
  {
    hide DecisionInv;
  }

  function DogMoves(labels: seq<Label>): nat {
    if labels == [] then 0
    else DogMoves(labels[..|labels| - 1]) + if labels[|labels| - 1] in {Dog, Timeout, Spurious} then 1 else 0
  }

  /** After shutdown the thread is never stuck, and returns within four steps of its own,
      whatever the clock does meanwhile. */
  lemma {:induction false} ShutdownStops(worlds: seq<World>, labels: seq<Label>)
    requires IsRun(worlds, labels) && Inv(worlds[0]) && worlds[0].client.Joining?
    ensures var w := worlds[|labels|];
            && Closing(w) && (w.dog.Stopped? || DogStep(w).Some?)
            && DogMoves(labels) + StopRank(w.dog) <= StopRank(worlds[0].dog) <= 4
  {
    hide Move, Inv, DogStep;
    var n := |labels|;
    if n == 0 {
      ClosingStep(worlds[0], Dog);
      ClosingRank(worlds[0]);
    } else {
      ShutdownStops(worlds[..n], labels[..n - 1]);
      assert IsRun(worlds[..n], labels[..n - 1]);
      RunKeepsInv(worlds, labels);
      assert Move(worlds[n - 1], labels[n - 1]) == Some(worlds[n]);
      ClosingStep(worlds[n - 1], labels[n - 1]);
      ClosingStep(worlds[n], Dog);
      NotParked(worlds[n - 1], labels[n - 1]);
    }
  }

  lemma ClosingRank(w: World)
    requires Inv(w) && Closing(w)
    ensures StopRank(w.dog) <= 4 && !w.dog.Parked?
  {
  }

  lemma NotParked(w: World, l: Label)
    requires Inv(w) && Closing(w) && Move(w, l).Some?
    ensures !l.Timeout? && !l.Spurious?
  {
    ClosingRank(w);
  }

  /** Shutting down must come after disarming: were it done while the fired request is still
      armed, the thread would wait forever for a generation that never passes. */
  predicate Stuck(w: World) {
    && w.state == Shutdown && Closing(w)
    && Settling(w.dog) == Some(w.gen)
  }

  lemma StuckStays(w: World, l: Label)
    requires Stuck(w) && Move(w, l).Some?
    ensures Stuck(Move(w, l).value)
  {
  }

  /** The client is told that the thread is gone only when it is. */
  lemma {:induction false} JoinedIsStopped(worlds: seq<World>, labels: seq<Label>, k: nat)
    requires IsRun(worlds, labels) && worlds[0] == START && k < |worlds|
    ensures worlds[k].client.Returned? ==> worlds[k].dog.Stopped?
  {
    if k > 0 {
      JoinedIsStopped(worlds, labels, k - 1);
      assert Move(worlds[k - 1], labels[k - 1]) == Some(worlds[k]);
    }
  }

  /** Whenever the lock is free the client can take its next step. */
  lemma ClientGoesOn(w: World)
    requires !Holds(w.dog)
    ensures w.client.Away? ==> Move(w, ShutWrite).Some? && forall slice :: Move(w, BeginArm(slice)).Some?
    ensures w.client.Arming? ==> Move(w, ArmWrite).Some?
    ensures w.client.Inside? ==> Move(w, DisarmWrite).Some?
    ensures Pending(w.client) ==> Move(w, Notify).Some?
    ensures w.client.Joining? && w.dog.Stopped? ==> Move(w, Join).Some?
  {
  }

  /** Time goes on by any amount, a wait may end for no reason at all, and does end when it is over. */
  lemma WorldGoesOn(w: World, elapsed: nat)
    ensures Move(w, Tick(elapsed)) == Some(w.(now := w.now + elapsed))
    ensures w.dog.Parked? ==> Move(w, Spurious) == Some(w.(dog := Locking(w.dog.goal)))
    ensures w.dog.Parked? && w.dog.patience.Until? ==> (Move(w, Timeout).Some? <==> w.dog.patience.wake <= w.now)
  {
  }

  /** How many steps a thread that holds the lock is from letting go of it. */
  function HoldRank(dog: DogPc): nat {
    match dog
    case Looked(_) => 1
    case Top => 2
    case After(_) => 3
    case _ => 0
  }

  /** And the thread lets go of the lock within three steps of its own, which it always can take. */
  lemma LockIsReleased(w: World)
    requires Inv(w) && Holds(w.dog)
    ensures DogStep(w).Some? && HoldRank(DogStep(w).value.dog) < HoldRank(w.dog) <= 3
    ensures HoldRank(DogStep(w).value.dog) == 0 <==> !Holds(DogStep(w).value.dog)
  {
    hide DecisionInv;
  }

  /** What `shutdown` would leave behind in the middle of a request. */
  function ShutEarly(w: World): World {
    w.(state := Shutdown, client := Joining, dog := Woken(w.dog))
  }

  lemma EarlyShutdownHangs(w: World, worlds: seq<World>, labels: seq<Label>)
    requires w.client.Inside? && Settling(w.dog) == Some(w.gen)
    requires IsRun(worlds, labels) && worlds[0] == ShutEarly(w)
    ensures forall i :: 0 <= i < |worlds| ==> !worlds[i].dog.Stopped?
  {
    hide Move, Inv;
    for k := 0 to |labels|
      invariant forall i :: 0 <= i <= k ==> Stuck(worlds[i])
    {
      assert Move(worlds[k], labels[k]) == Some(worlds[k + 1]);
      StuckStays(worlds[k], labels[k]);
    }
  }

  /** The world after a sequence of steps, if they can all be taken. */
  function Play(w: World, labels: seq<Label>): Option<World>
    decreases |labels|
  {
    if labels == [] then Some(w)
    else match Move(w, labels[0]) case None => None case Some(w') => Play(w', labels[1..])
  }

  /** A request with a slice of no length at all, and the thread's three steps to its decision. */
  const TO_FIRING: seq<Label> := [BeginArm(0), ArmWrite, Notify, Dog, Dog, Dog]

  function ArmedFrom(w: World): World {
    w.(state := Armed(w.now), gen := w.gen + 1, client := Inside, arms := w.arms[w.gen + 1 := w.now])
  }

  function FiringFrom(w: World): World {
    ArmedFrom(w).(dog := Firing(w.gen + 1), decisions := w.decisions + [Decision(w.gen + 1, w.now, w.now)])
  }

  lemma ArmingMoves(w: World)
    requires w.client.Away? && w.dog == Locking(Loop)
    ensures var a, b := w.(client := Arming(w.now)), ArmedFrom(w).(client := ArmNotify);
            Move(w, BeginArm(0)) == Some(a) && Move(a, ArmWrite) == Some(b) && Move(b, Notify) == Some(ArmedFrom(w))
  {
    hide DogStep;
  }

  lemma FiringMoves(w: World)
    requires w.client.Away? && w.dog == Locking(Loop)
    ensures var d, e := ArmedFrom(w).(dog := Top), ArmedFrom(w).(dog := Looked(w.now));
            Move(ArmedFrom(w), Dog) == Some(d) && Move(d, Dog) == Some(e) && Move(e, Dog) == Some(FiringFrom(w))
  {
  }

  /** From a fresh thread, as at the start, six steps lead into such a world, and seven past fire(). */
  lemma HangIsReached(w: World)
    requires w.client.Away? && w.dog == Locking(Loop)
    ensures START.client.Away? && START.dog == Locking(Loop)
    ensures Play(w, TO_FIRING) == Some(FiringFrom(w))
    ensures var f := FiringFrom(w); f.client.Inside? && Settling(f.dog) == Some(f.gen) && Stuck(ShutEarly(f))
    ensures var later := Move(FiringFrom(w), Dog);
            && later.Some? && later.value.client.Inside? && !later.value.dog.Firing?
            && Settling(later.value.dog) == Some(later.value.gen) && Stuck(ShutEarly(later.value))
  {
    hide Play;
    FiringIsReached(w);
  }

  lemma FiringIsReached(w: World)
    requires w.client.Away? && w.dog == Locking(Loop)
    ensures Play(w, TO_FIRING) == Some(FiringFrom(w))
  {
    hide Play, Move;
    var a, b := w.(client := Arming(w.now)), ArmedFrom(w).(client := ArmNotify);
    var d, e := ArmedFrom(w).(dog := Top), ArmedFrom(w).(dog := Looked(w.now));
    ArmingMoves(w);
    FiringMoves(w);
    PlayNone(FiringFrom(w));
    PlayOne(e, [Dog], FiringFrom(w));
    PlayOne(d, [Dog, Dog], e);
    PlayOne(ArmedFrom(w), [Dog, Dog, Dog], d);
    PlayOne(b, [Notify, Dog, Dog, Dog], ArmedFrom(w));
    PlayOne(a, [ArmWrite, Notify, Dog, Dog, Dog], b);
    PlayOne(w, TO_FIRING, a);
  }

  lemma PlayNone(w: World)
    ensures Play(w, []) == Some(w)
  {
  }

  lemma PlayOne(w: World, labels: seq<Label>, w': World)
    requires labels != [] && Move(w, labels[0]) == Some(w')
    ensures Play(w, labels) == Play(w', labels[1..])
  {
  }

  /* ---- An overdue request is fired for ---- */

  /** The armed request is past its deadline, undecided, and no earlier look at the clock is
      still being acted on. */
  predicate Overdue(w: World) {
    && w.client.Inside? && w.state.Armed? && w.state.deadline <= w.now
    && (w.decisions != [] ==> w.decisions[|w.decisions| - 1].gen < w.gen)
    && (w.dog.Looked? ==> w.state.deadline <= w.dog.time)
    && (w.dog.Parked? && w.dog.patience.Until? ==> w.dog.patience.wake <= w.now)
  }

  function FireRank(dog: DogPc): nat {
    match dog
    case Looked(_) => 1
    case Top => 2
    case Locking(Loop) => 3
    case After(_) => 3
    case Locking(Settle(_)) => 4
    case Parked(_, _) => 4
    case Firing(_) => 5
    case Stopped => 0
  }

  lemma OverdueStep(w: World, l: Label)
    requires Inv(w) && Overdue(w)
    ensures 1 <= FireRank(w.dog) && (DogStep(w).Some? || Move(w, Timeout).Some?)
    ensures Move(w, l).Some? && !l.DisarmWrite? ==>
              var w' := Move(w, l).value;
              if l in {Dog, Timeout, Spurious} then
                (Overdue(w') && w'.gen == w.gen && FireRank(w'.dog) < FireRank(w.dog)) || Decided(w', w.gen)
              else Overdue(w') && w'.gen == w.gen && w'.dog == w.dog
  {
    hide DecisionInv;
  }

  predicate Decided(w: World, gen: nat) {
    exists d :: d in w.decisions && d.gen == gen
  }

  lemma DecidedStays(w: World, l: Label, gen: nat)
    requires Decided(w, gen) && Move(w, l).Some?
    ensures Decided(Move(w, l).value, gen)
  {
    var d :| d in w.decisions && d.gen == gen;
    assert d in Move(w, l).value.decisions;
  }

  /** A request that stays armed past its deadline is fired for within five steps of the thread,
      and the thread always has a step to take until then. */
  lemma {:induction false} OverdueFires(worlds: seq<World>, labels: seq<Label>)
    requires IsRun(worlds, labels) && Inv(worlds[0]) && Overdue(worlds[0])
    requires DisarmWrite !in labels
    ensures var w := worlds[|labels|];
            || Decided(w, worlds[0].gen)
            || (Overdue(w) && w.gen == worlds[0].gen && (DogStep(w).Some? || Move(w, Timeout).Some?)
                && DogMoves(labels) + FireRank(w.dog) <= FireRank(worlds[0].dog) <= 5 && 1 <= FireRank(w.dog))
  {
    hide Inv, DogStep, Decided, Overdue, Move;
    var n := |labels|;
    if n == 0 {
      OverdueStep(worlds[0], Dog);
    } else {
      assert IsRun(worlds[..n], labels[..n - 1]);
      OverdueFires(worlds[..n], labels[..n - 1]);
      RunKeepsInv(worlds, labels);
      var w, l := worlds[n - 1], labels[n - 1];
      assert Move(w, l) == Some(worlds[n]);
      if Decided(w, worlds[0].gen) {
        DecidedStays(w, l, worlds[0].gen);
      } else {
        assert l in labels;
        OverdueStep(w, l);
        if !Decided(worlds[n], worlds[0].gen) {
          OverdueStep(worlds[n], Dog);
        }
      }
    }
  }

  /** The clock moves by no more than `lag` while the thread holds on to a look at it. */
  ghost predicate PromptLooks(worlds: seq<World>, lag: nat) {
    forall i: nat, j: nat :: Looking(worlds, i, j) ==> worlds[j].now <= worlds[i].now + lag
  }

  lemma {:induction false} StaysDecided(worlds: seq<World>, labels: seq<Label>, gen: nat)
    requires IsRun(worlds, labels) && Decided(worlds[0], gen)
    ensures Decided(worlds[|labels|], gen)
  {
    hide Move, Decided;
    for k := 0 to |labels|
      invariant Decided(worlds[k], gen)
    {
      assert Move(worlds[k], labels[k]) == Some(worlds[k + 1]);
      DecidedStays(worlds[k], labels[k], gen);
    }
  }

  /** Once the deadline is past by the lag, the request is decided or overdue. */
  lemma PastIsOverdue(worlds: seq<World>, labels: seq<Label>, k: nat, lag: nat)
    requires IsRun(worlds, labels) && worlds[0] == START && k < |worlds| && PromptLooks(worlds, lag)
    requires worlds[k].client.Inside? && worlds[k].state.Armed? && worlds[k].state.deadline + lag <= worlds[k].now
    ensures Inv(worlds[k]) && (Decided(worlds[k], worlds[k].gen) || Overdue(worlds[k]))
  {
    hide Move, Looking, ParkedSince;
    assert Inv(START) by {
      StartKeepsInv();
    }
    RunKeepsInv(worlds, labels);
    var w := worlds[k];
    assert Inv(w);
    if !Decided(w, w.gen) {
      if w.decisions != [] {
        var d := w.decisions[|w.decisions| - 1];
        assert d in w.decisions && d.gen in w.arms;
      }
      if w.dog.Looked? {
        var i := LookBegan(worlds, labels, k);
      }
      if w.dog.Parked? && w.dog.patience.Until? {
        var i, j := WaitIsTheRest(worlds, labels, k);
      }
    }
  }

  lemma LaterIsRun(worlds: seq<World>, labels: seq<Label>, k: nat)
    requires IsRun(worlds, labels) && k < |worlds|
    ensures IsRun(worlds[k..], labels[k..])
  {
    hide Move;
    forall i | 0 <= i < |labels[k..]| ensures Move(worlds[k..][i], labels[k..][i]) == Some(worlds[k..][i + 1]) {
      assert Move(worlds[k + i], labels[k + i]) == Some(worlds[k + i + 1]);
    }
  }

  /** However a run from the start goes, a request still armed when its deadline is past by the lag
      is fired for within five more steps of the thread, which always has one to take. */
  lemma FiresInTime(worlds: seq<World>, labels: seq<Label>, k: nat, lag: nat)
    requires IsRun(worlds, labels) && worlds[0] == START && k < |worlds| && PromptLooks(worlds, lag)
    requires worlds[k].client.Inside? && worlds[k].state.Armed? && worlds[k].state.deadline + lag <= worlds[k].now
    requires DisarmWrite !in labels[k..]
    ensures var w := worlds[|labels|];
            || Decided(w, worlds[k].gen)
            || ((DogStep(w).Some? || Move(w, Timeout).Some?) && DogMoves(labels[k..]) < 5)
  {
    hide Move, DogStep, Inv, Decided, Overdue, PromptLooks, DogMoves;
    PastIsOverdue(worlds, labels, k, lag);
    LaterIsRun(worlds, labels, k);
    if Decided(worlds[k], worlds[k].gen) {
      StaysDecided(worlds[k..], labels[k..], worlds[k].gen);
    } else {
      OverdueFires(worlds[k..], labels[k..]);
    }
  }

  lemma StartKeepsInv()
    ensures Inv(START)
  {
  }
}
