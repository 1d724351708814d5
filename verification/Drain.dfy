/** Graceful shutdown: connection tasks, the in-flight counter, and the server's main future
    (accept loop, then drain), over every interleaving. Tasks may move between any two steps of
    the main future except its last two, which one poll takes together. */
module Drain {
  import opened Bytes

  /** A connection: between requests, inside a guard, past the guard's decrement but before its
      notify_waiters, or closed. */
  datatype Task = Open | Busy | Telling | Gone

  datatype Cause = AllDone | TimedOut

  /** The main future. `seen` is the number of notifications there had been when `notified()`
      was called: it completes as soon as there have been more. */
  datatype Main =
    | Serving | Top | Registered(seen: nat) | Parked(seen: nat)
    | Finished(cause: Cause) | TornDown(cause: Cause)

  datatype World = World(
    now: nat, requested: bool, tasks: seq<Task>, inFlight: int, notices: nat,
    main: Main, noticedAt: nat, grace: nat)

  function Start(grace: nat): World {
    World(0, false, [], 0, 0, Serving, 0, grace)
  }

  predicate Draining(m: Main) {
    m.Top? || m.Registered? || m.Parked?
  }

  predicate Running(m: Main) {
    m.Serving? || Draining(m)
  }

  function BusyCount(tasks: seq<Task>): nat {
    if tasks == [] then 0 else BusyCount(tasks[..|tasks| - 1]) + if tasks[|tasks| - 1].Busy? then 1 else 0
  }

  /* ---- Steps ---- */

  datatype Label =
    | Tick(elapsed: nat)
    | RequestShutdown
    | Accept
    | Begin(i: nat) | Finish(i: nat) | Tell(i: nat) | Close(i: nat)
    | Notice | Poll | Expire | TearDown

  /** One task's step from one state to another. */
  function TaskMove(w: World, i: nat, from: Task, to: Task): Option<World> {
    if i < |w.tasks| && w.tasks[i] == from && Running(w.main) then Some(w.(tasks := w.tasks[i := to])) else None
  }

  function WithCounts(o: Option<World>, inFlight: int, notices: nat): Option<World> {
    if o.Some? then Some(o.value.(inFlight := inFlight, notices := notices)) else None
  }

  /** The drain loop: register, then check, then await. The timeout around it looks at the
      clock whenever the loop is left waiting. */
  function PollStep(w: World): Option<World> {
    match w.main
    case Top => Some(w.(main := Registered(w.notices)))
    case Registered(seen) =>
      Some(w.(main :=
        if w.inFlight == 0 then Finished(AllDone)
        else if w.noticedAt + w.grace <= w.now then Finished(TimedOut)
        else Parked(seen)))
    case Parked(seen) => if w.notices > seen then Some(w.(main := Top)) else None
    case _ => None
  }

  function Move(w: World, l: Label): Option<World> {
    match l
    case Tick(elapsed) => Some(w.(now := w.now + elapsed))
    case RequestShutdown => Some(w.(requested := true))
    case Accept => if w.main.Serving? then Some(w.(tasks := w.tasks + [Open])) else None
    case Begin(i) => WithCounts(TaskMove(w, i, Open, Busy), w.inFlight + 1, w.notices)
    case Finish(i) => WithCounts(TaskMove(w, i, Busy, Telling), w.inFlight - 1, w.notices)
    case Tell(i) => WithCounts(TaskMove(w, i, Telling, Open), w.inFlight, w.notices + 1)
    case Close(i) => TaskMove(w, i, Open, Gone)
    case Notice =>
      if w.main.Serving? && w.requested then Some(w.(main := Top, noticedAt := w.now)) else None
    case Poll => PollStep(w)
    case Expire =>
      if w.main.Parked? && w.notices == w.main.seen && w.noticedAt + w.grace <= w.now
      then Some(w.(main := Finished(TimedOut))) else None
    case TearDown =>
      if w.main.Finished? then
        Some(w.(main := TornDown(w.main.cause), tasks := seq(|w.tasks|, _ => Gone), inFlight := 0))
      else None
  }

  predicate IsRun(worlds: seq<World>, labels: seq<Label>) {
    && |worlds| == |labels| + 1
    && forall i :: 0 <= i < |labels| ==> Move(worlds[i], labels[i]) == Some(worlds[i + 1])
  }

  /* ---- The invariant ---- */

  /** A notification is on the way or sure to come: some request is in flight or just finished. */
  predicate Awaited(tasks: seq<Task>) {
    exists i :: 0 <= i < |tasks| && (tasks[i].Busy? || tasks[i].Telling?)
  }

  predicate MainInv(w: World) {
    match w.main
    case Parked(seen) => seen <= w.notices && (w.notices == seen ==> Awaited(w.tasks))
    case Registered(seen) => seen <= w.notices
    case Finished(AllDone) => w.inFlight == 0
    case Finished(TimedOut) => w.noticedAt + w.grace <= w.now
    case TornDown(TimedOut) => w.noticedAt + w.grace <= w.now
    case _ => true
  }

  /** The counter is the number of live guards; the drain loop never waits in vain. */
  predicate Inv(w: World) {
    w.inFlight == BusyCount(w.tasks) && MainInv(w)
  }

  lemma {:induction false} BusyUpdate(tasks: seq<Task>, i: nat, t: Task)
    requires i < |tasks|
    ensures BusyCount(tasks[i := t])
            == BusyCount(tasks) - (if tasks[i].Busy? then 1 else 0) + (if t.Busy? then 1 else 0)
  {
    var n := |tasks| - 1;
    if i < n {
      assert tasks[i := t][..n] == tasks[..n][i := t];
      BusyUpdate(tasks[..n], i, t);
    } else {
      assert tasks[i := t][..n] == tasks[..n];
    }
  }

  lemma {:induction false} BusyExists(tasks: seq<Task>)
    ensures BusyCount(tasks) == 0 <==> forall i :: 0 <= i < |tasks| ==> !tasks[i].Busy?
  {
    if tasks != [] {
      BusyExists(tasks[..|tasks| - 1]);
    }
  }

  lemma TaskKeepsInv(w: World, i: nat, from: Task, to: Task, inFlight: int, notices: nat)
    requires Inv(w) && TaskMove(w, i, from, to).Some? && from != to
    requires inFlight == w.inFlight - (if from.Busy? then 1 else 0) + (if to.Busy? then 1 else 0)
    requires notices == w.notices + if from.Telling? then 1 else 0
    requires from.Busy? ==> to.Telling?
    ensures Inv(WithCounts(TaskMove(w, i, from, to), inFlight, notices).value)
  {
    BusyUpdate(w.tasks, i, to);
    var tasks := w.tasks[i := to];
    if Awaited(w.tasks) && !from.Telling? {
      var j :| 0 <= j < |w.tasks| && (w.tasks[j].Busy? || w.tasks[j].Telling?);
      assert tasks[j].Busy? || tasks[j].Telling?;
    }
  }

  lemma PollKeepsInv(w: World)
    requires Inv(w) && PollStep(w).Some?
    ensures Inv(PollStep(w).value)
  {
    BusyExists(w.tasks);
  }

  lemma MoveKeepsInv(w: World, l: Label)
    requires Inv(w) && Move(w, l).Some?
    ensures Inv(Move(w, l).value)
  {
    match l
    case Begin(i) => TaskKeepsInv(w, i, Open, Busy, w.inFlight + 1, w.notices);
    case Finish(i) => TaskKeepsInv(w, i, Busy, Telling, w.inFlight - 1, w.notices);
    case Tell(i) => TaskKeepsInv(w, i, Telling, Open, w.inFlight, w.notices + 1);
    case Close(i) => TaskKeepsInv(w, i, Open, Gone, w.inFlight, w.notices);
    case Poll => PollKeepsInv(w);
    case Accept =>
      assert (w.tasks + [Open])[..|w.tasks|] == w.tasks;
    case TearDown =>
      BusyExists(seq(|w.tasks|, _ => Gone));
    case _ =>
  }

  lemma RunKeepsInv(worlds: seq<World>, labels: seq<Label>)
    requires IsRun(worlds, labels) && Inv(worlds[0])
    ensures forall i :: 0 <= i < |worlds| ==> Inv(worlds[i])
  {
    hide Inv, Move;
    for k := 0 to |labels|
      invariant forall i :: 0 <= i <= k ==> Inv(worlds[i])
    {
      assert Move(worlds[k], labels[k]) == Some(worlds[k + 1]);
      MoveKeepsInv(worlds[k], labels[k]);
    }
  }

  /* ---- Results over runs ---- */

  /** In every world of every run the counter equals the number of requests in flight, and a
      parked drain without a notification has one coming. */
  lemma NoLostWakeup(worlds: seq<World>, labels: seq<Label>, grace: nat, k: nat)
    requires IsRun(worlds, labels) && worlds[0] == Start(grace) && k < |worlds|
    ensures var w := worlds[k];
            && w.inFlight == BusyCount(w.tasks) >= 0
            && (w.main.Parked? && w.notices == w.main.seen ==> w.inFlight > 0 || Telling in w.tasks)
  {
    RunKeepsInv(worlds, labels);
    var w := worlds[k];
    assert Inv(w);
    BusyExists(w.tasks);
    if Awaited(w.tasks) {
      var i :| 0 <= i < |w.tasks| && (w.tasks[i].Busy? || w.tasks[i].Telling?);
      assert w.tasks[i] in w.tasks;
    }
  }

  lemma MainOnward(w: World, l: Label)
    requires Move(w, l).Some? && !w.main.Serving?
    ensures var w' := Move(w, l).value;
            && !w'.main.Serving? && |w'.tasks| == |w.tasks| && w'.noticedAt == w.noticedAt && w'.grace == w.grace
            && w.now <= w'.now
  {
  }

  /** From the moment a shutdown is noticed no connection is accepted any more, and the grace
      period counts from that moment. */
  lemma {:induction false} NothingAccepted(worlds: seq<World>, labels: seq<Label>)
    requires IsRun(worlds, labels) && !worlds[0].main.Serving?
    ensures forall i :: 0 <= i < |worlds| ==>
              && |worlds[i].tasks| == |worlds[0].tasks| && !worlds[i].main.Serving?
              && worlds[i].noticedAt == worlds[0].noticedAt && worlds[i].grace == worlds[0].grace
  {
    hide Move;
    for k := 0 to |labels|
      invariant forall i :: 0 <= i <= k ==>
                  && |worlds[i].tasks| == |worlds[0].tasks| && !worlds[i].main.Serving?
                  && worlds[i].noticedAt == worlds[0].noticedAt && worlds[i].grace == worlds[0].grace
    {
      assert Move(worlds[k], labels[k]) == Some(worlds[k + 1]);
      MainOnward(worlds[k], labels[k]);
    }
  }

  /** When the connections are torn down, no request is in flight on any of them, or the grace
      period is over. */
  lemma GracefulTeardown(worlds: seq<World>, labels: seq<Label>, grace: nat, k: nat)
    requires IsRun(worlds, labels) && worlds[0] == Start(grace) && k < |labels|
    requires labels[k] == TearDown
    ensures var w := worlds[k];
            if w.main == Finished(AllDone) then forall i :: 0 <= i < |w.tasks| ==> !w.tasks[i].Busy?
            else w.main == Finished(TimedOut) && w.noticedAt + w.grace <= w.now
  {
    RunKeepsInv(worlds, labels);
    assert Move(worlds[k], labels[k]) == Some(worlds[k + 1]);
    assert Inv(worlds[k]);
    BusyExists(worlds[k].tasks);
  }

  /** The shutdown notice of a run that is past serving: where it was taken, on what request,
      and that nothing has moved the start of the grace period since. */
  predicate NoticedAt(worlds: seq<World>, labels: seq<Label>, k: nat, j: nat)
    requires |worlds| == |labels| + 1
  {
    j < k < |worlds| && labels[j] == Notice && worlds[k].noticedAt == worlds[j].now
  }

  lemma {:induction false} NoticeBegan(worlds: seq<World>, labels: seq<Label>, grace: nat, k: nat) returns (j: nat)
    requires IsRun(worlds, labels) && worlds[0] == Start(grace) && k < |worlds|
    ensures worlds[k].grace == grace
    ensures !worlds[k].main.Serving? ==> NoticedAt(worlds, labels, k, j)
  {
    hide PollStep, TaskMove, WithCounts;
    j := 0;
    if k > 0 {
      j := NoticeBegan(worlds, labels, grace, k - 1);
      var w, l := worlds[k - 1], labels[k - 1];
      assert Move(w, l) == Some(worlds[k]);
      KeepsNotice(w, l);
      if w.main.Serving? && !worlds[k].main.Serving? {
        j := k - 1;
      }
    }
  }

  lemma KeepsNotice(w: World, l: Label)
    requires Move(w, l).Some?
    ensures var w' := Move(w, l).value;
            && w'.grace == w.grace
            && (w.main.Serving? && !w'.main.Serving? ==> l == Notice && w.requested)
            && (l != Notice ==> w'.noticedAt == w.noticedAt)
            && (l == Notice ==> w.main.Serving? && w'.noticedAt == w.now)
  {
  }

  /** A request is cut off at teardown only when the full grace period has passed since the
      shutdown was noticed. */
  lemma CutOnlyAfterGrace(worlds: seq<World>, labels: seq<Label>, grace: nat, k: nat, i: nat) returns (j: nat)
    requires IsRun(worlds, labels) && worlds[0] == Start(grace) && k < |labels|
    requires labels[k] == TearDown && i < |worlds[k].tasks| && worlds[k].tasks[i].Busy?
    ensures j < k && labels[j] == Notice && worlds[j].now + grace <= worlds[k].now
  {
    hide Move, Inv;
    GracefulTeardown(worlds, labels, grace, k);
    j := NoticeBegan(worlds, labels, grace, k);
  }

  /** No run leaves off serving, let alone tears anything down, without having been asked to. */
  lemma {:induction false} OnlyOnRequest(worlds: seq<World>, labels: seq<Label>, grace: nat, k: nat) returns (j: nat)
    requires IsRun(worlds, labels) && worlds[0] == Start(grace) && k < |worlds|
    requires worlds[k].requested || !worlds[k].main.Serving?
    ensures j < k && labels[j] == RequestShutdown
  {
    hide PollStep, TaskMove, WithCounts;
    assert k > 0;
    var w, l := worlds[k - 1], labels[k - 1];
    assert Move(w, l) == Some(worlds[k]);
    if l == RequestShutdown {
      j := k - 1;
    } else {
      KeepsRequest(w, l);
      j := OnlyOnRequest(worlds, labels, grace, k - 1);
    }
  }

  lemma KeepsRequest(w: World, l: Label)
    requires Move(w, l).Some? && l != RequestShutdown
    ensures Move(w, l).value.requested == w.requested
    ensures w.main.Serving? && !w.requested ==> Move(w, l).value.main.Serving?
  {
  }

  /** While serving, new connections are taken; and once asked to, the server can always notice. */
  lemma ServesUntilNoticed(w: World)
    requires w.main.Serving?
    ensures Move(w, Accept) == Some(w.(tasks := w.tasks + [Open]))
    ensures Move(w, RequestShutdown).Some? && Move(Move(w, RequestShutdown).value, Notice).Some?
    ensures Move(w, Notice).Some? <==> w.requested
  {
  }

  /** Until the main future is over connections go on as ever: requests may begin even while
      draining, and are finished and told of; idle connections may close. */
  lemma TasksGoOn(w: World, i: nat)
    requires Running(w.main) && i < |w.tasks|
    ensures Move(w, Begin(i)).Some? <==> w.tasks[i].Open?
    ensures Move(w, Finish(i)).Some? <==> w.tasks[i].Busy?
    ensures Move(w, Tell(i)).Some? <==> w.tasks[i].Telling?
    ensures Move(w, Close(i)).Some? <==> w.tasks[i].Open?
    ensures w.tasks[i].Telling? ==> Move(w, Tell(i)).value.tasks == w.tasks[i := Open]
  {
  }

  /** Teardown drops every connection, and nothing happens on any of them afterwards; time goes on. */
  lemma TornDownIsOver(w: World, l: Label, elapsed: nat)
    requires Move(w, TearDown).Some?
    ensures var w' := Move(w, TearDown).value;
            && w'.inFlight == 0 && |w'.tasks| == |w.tasks| && (forall t :: t in w'.tasks ==> t.Gone?)
            && (Move(w', l).Some? ==> Move(w', l).value.tasks == w'.tasks)
    ensures Move(w, Tick(elapsed)) == Some(w.(now := w.now + elapsed))
  {
  }

  /** A drain past registering counts from the notifications there had been when it did: it is
      woken by one that came since, and by no other. */
  lemma {:induction false} RegisteredSince(worlds: seq<World>, labels: seq<Label>, grace: nat, k: nat) returns (i: nat)
    requires IsRun(worlds, labels) && worlds[0] == Start(grace) && k < |worlds|
    requires worlds[k].main.Registered? || worlds[k].main.Parked?
    ensures i < k && labels[i] == Poll && worlds[i].main.Top? && worlds[k].main.seen == worlds[i].notices
    ensures forall m :: i < m <= k ==> worlds[m].main.Registered? || worlds[m].main.Parked?
  {
    hide Move;
    assert k > 0;
    var w, l := worlds[k - 1], labels[k - 1];
    assert Move(w, l) == Some(worlds[k]);
    KeepsSeen(w, l);
    if w.main.Top? {
      i := k - 1;
    } else {
      i := RegisteredSince(worlds, labels, grace, k - 1);
    }
  }

  lemma KeepsSeen(w: World, l: Label)
    requires Move(w, l).Some?
    requires Move(w, l).value.main.Registered? || Move(w, l).value.main.Parked?
    ensures var w' := Move(w, l).value;
            if w.main.Top? then l == Poll && w'.main.seen == w.notices
            else (w.main.Registered? || w.main.Parked?) && w'.main.seen == w.main.seen
  {
  }

  /* ---- Progress ---- */

  /** How many polls the main future is from its end. */
  function PollRank(m: Main): nat {
    match m
    case Parked(_) => 3
    case Top => 2
    case Registered(_) => 1
    case _ => 0
  }

  function Polls(labels: seq<Label>): nat {
    if labels == [] then 0
    else Polls(labels[..|labels| - 1]) + if labels[|labels| - 1] in {Poll, Expire} then 1 else 0
  }

  predicate Over(m: Main) {
    m.Finished? || m.TornDown?
  }

  /** No request holds up the drain, or its time is up. */
  predicate Due(w: World) {
    !w.main.Serving? && (!Awaited(w.tasks) || w.noticedAt + w.grace <= w.now)
  }

  lemma DueStep(w: World, l: Label)
    requires Inv(w) && Due(w)
    requires !l.Begin? || w.noticedAt + w.grace <= w.now
    ensures Over(w.main) || PollStep(w).Some? || Move(w, Expire).Some?
    ensures Move(w, l).Some? ==>
              var w' := Move(w, l).value;
              && Due(w')
              && PollRank(w'.main) + (if l in {Poll, Expire} then 1 else 0) <= PollRank(w.main)
  {
    BusyExists(w.tasks);
    if Move(w, l).Some? && !Awaited(w.tasks) && l.Close? {
      assert forall j :: 0 <= j < |w.tasks| ==> !w.tasks[j].Busy? && !w.tasks[j].Telling?;
    }
  }

  /** Once the last response is out (and told), or the grace period is over, the drain ends within
      three polls and is never stuck, whatever idle connections, the clock and (past the grace
      period) even new requests do meanwhile. */
  lemma {:induction false} DrainEnds(worlds: seq<World>, labels: seq<Label>)
    requires IsRun(worlds, labels) && Inv(worlds[0]) && Due(worlds[0])
    requires (forall l :: l in labels ==> !l.Begin?) || worlds[0].noticedAt + worlds[0].grace <= worlds[0].now
    ensures var w := worlds[|labels|];
            && Due(w) && (Over(w.main) || PollStep(w).Some? || Move(w, Expire).Some?)
            && Polls(labels) + PollRank(w.main) <= PollRank(worlds[0].main) <= 3
  {
    hide Inv, Awaited, Move, PollStep;
    var n := |labels|;
    if n == 0 {
      DueStep(worlds[0], Poll);
    } else {
      assert forall l :: l in labels[..n - 1] ==> l in labels;
      assert IsRun(worlds[..n], labels[..n - 1]);
      DrainEnds(worlds[..n], labels[..n - 1]);
      RunKeepsInv(worlds, labels);
      var w, l := worlds[n - 1], labels[n - 1];
      assert Move(w, l) == Some(worlds[n]) && l in labels;
      TimeOnward(worlds, labels, n - 1);
      DueStep(w, l);
      DueStep(worlds[n], Poll);
    }
  }

  lemma {:induction false} TimeOnward(worlds: seq<World>, labels: seq<Label>, k: nat)
    requires IsRun(worlds, labels) && !worlds[0].main.Serving? && k < |worlds|
    ensures worlds[0].now <= worlds[k].now
    ensures worlds[k].noticedAt == worlds[0].noticedAt && worlds[k].grace == worlds[0].grace && !worlds[k].main.Serving?
  {
    hide Move;
    if k > 0 {
      TimeOnward(worlds, labels, k - 1);
      assert Move(worlds[k - 1], labels[k - 1]) == Some(worlds[k]);
      MainOnward(worlds[k - 1], labels[k - 1]);
    }
  }
}
