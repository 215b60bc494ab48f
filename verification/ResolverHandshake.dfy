/** Who releases what, when a thread resolves a name for a parent that polls, waits
    or gives up. Every critical section and every release is one step. */
module ResolverHandshake {
  import opened Runs

  datatype Thread =
    | Resolving      // in the resolver call
    | Resolved       // about to take the mutex
    | CleaningUp     // too late: about to destroy the synchronization data
    | Destroyed      // about to free the thread data
    | Exited

  datatype Parent =
    | Idle           // holds the thread data, may poll, wait or cancel
    | Collecting     // the thread is done: about to hand over its result
    | Destroying     // about to take the mutex in destroy_async_data
    | Detaching      // the thread was not done
    | Joining        // the thread was done: about to join it
    | Freeing        // about to destroy the synchronization data
    | FreeingData    // about to free the thread data
    | ClosingRead    // about to close its end of the wake-up pair
    | Finished

  datatype State = State(
    thread: Thread,
    parent: Parent,
    done: bool,              // tsd->done
    list: bool,              // tsd->res is a list
    error: bool,             // tsd->sock_error is not success
    joined: bool,            // td->thread_hnd is null
    // what happened so far
    produced: nat,           // lists the resolver made
    stored: nat,             // lists the completion callback took over
    freed: nat,              // lists freed with the synchronization data
    lost: nat,               // lists the callback was given together with an error
    wakeFailed: bool,
    collected: bool,         // the parent completed the lookup
    cancelFirst: bool,       // the parent's critical section came first
    freedByThread: nat,
    freedByParent: nat,
    readClosed: nat,
    writeClosed: nat
  )

  datatype Action =
    | Resolve(found: bool)
    | ThreadLock(woken: bool)
    | ThreadDestroy
    | ThreadFree
    | Poll
    | Wait(wanted: bool)
    | Cancel
    | Complete
    | ParentLock
    | Detach
    | Join
    | ParentDestroy
    | ParentFree
    | CloseRead

  predicate Enabled(s: State, a: Action) {
    match a
    case Resolve(_) => s.thread.Resolving?
    case ThreadLock(_) => s.thread.Resolved?
    case ThreadDestroy => s.thread.CleaningUp?
    case ThreadFree => s.thread.Destroyed?
    case Poll => s.parent.Idle?
    case Wait(_) => s.parent.Idle? && s.thread.Exited?
    case Cancel => s.parent.Idle?
    case Complete => s.parent.Collecting?
    case ParentLock => s.parent.Destroying?
    case Detach => s.parent.Detaching?
    case Join => s.parent.Joining? && s.thread.Exited?
    case ParentDestroy => s.parent.Freeing?
    case ParentFree => s.parent.FreeingData?
    case CloseRead => s.parent.ClosingRead?
  }

  /** Frees the list if it is still there and closes the writing end. */
  function DestroySyncData(s: State): State {
    s.(freed := s.freed + if s.list then 1 else 0, list := false, writeClosed := s.writeClosed + 1)
  }

  /** The callback takes the list over only when there is no error; it is forgotten in any case. */
  function HandOver(s: State): State {
    if !s.list then s
    else if s.error then s.(lost := s.lost + 1, list := false)
    else s.(stored := s.stored + 1, list := false)
  }

  function Do(s: State, a: Action): State
    requires Enabled(s, a)
  {
    match a
    case Resolve(found) =>
      s.(thread := Resolved, list := found, error := !found, produced := s.produced + if found then 1 else 0)
    case ThreadLock(woken) =>
      if s.done then s.(thread := CleaningUp)
      else s.(thread := Exited, done := true, error := s.error || !woken, wakeFailed := !woken)
    case ThreadDestroy => DestroySyncData(s).(thread := Destroyed)
    case ThreadFree => s.(thread := Exited, freedByThread := s.freedByThread + 1)
    case Poll => if s.done then s.(parent := Collecting) else s
    case Wait(wanted) => s.(joined := true, parent := if wanted then Collecting else Destroying)
    case Cancel => s.(parent := Destroying)
    case Complete => HandOver(s).(collected := true, parent := Destroying)
    case ParentLock =>
      if !s.done then s.(done := true, cancelFirst := true, parent := Detaching)
      else s.(parent := if s.joined then Freeing else Joining)
    case Detach => s.(parent := ClosingRead)
    case Join => s.(joined := true, parent := Freeing)
    case ParentDestroy => DestroySyncData(s).(parent := FreeingData)
    case ParentFree => s.(freedByParent := s.freedByParent + 1, parent := ClosingRead)
    case CloseRead => s.(readClosed := s.readClosed + 1, parent := Finished)
  }

  /** The thread has just been started. */
  const START := State(Resolving, Idle, false, false, false, false, 0, 0, 0, 0, false, false, false, 0, 0, 0, 0)

  /** Thread and parent together: each run is some interleaving of their steps. */
  function Handshake(): Machine<State, Action> {
    Machine((s, a) => Enabled(s, a), (s, a) => if Enabled(s, a) then Do(s, a) else s)
  }

  // ---- what every step keeps --------------------------------------------

  function Once(b: bool): nat {
    if b then 1 else 0
  }

  /** The synchronization data has been destroyed, by whichever side it fell to. */
  predicate SyncDestroyed(s: State) {
    if s.cancelFirst then s.thread.Destroyed? || s.thread.Exited?
    else s.parent.FreeingData? || s.parent.ClosingRead? || s.parent.Finished?
  }

  predicate Inv(s: State) {
    // where the two sides can be
    && (s.done <==> s.cancelFirst || s.thread.Exited?)
    && (s.thread.CleaningUp? || s.thread.Destroyed? ==> s.cancelFirst)
    && (if s.cancelFirst then s.parent.Detaching? || s.parent.ClosingRead? || s.parent.Finished?
        else !s.parent.Detaching? && (s.parent.Idle? || s.parent.Destroying? || s.done))
    && (s.joined ==> s.thread.Exited? && !s.cancelFirst)
    && (s.parent.Freeing? ==> s.joined)
    && (s.collected ==> s.thread.Exited? && !s.cancelFirst && !s.parent.Idle? && !s.parent.Collecting?)
    // the thread data and the wake-up pair
    && s.freedByThread == Once(s.cancelFirst && s.thread.Exited?)
    && s.freedByParent == Once(!s.cancelFirst && (s.parent.ClosingRead? || s.parent.Finished?))
    && s.writeClosed == Once(SyncDestroyed(s))
    && s.readClosed == Once(s.parent.Finished?)
    // the list
    && s.produced <= 1 && (s.thread.Resolving? ==> s.produced == 0)
    && (s.list <==> s.produced == 1 && !s.collected && !SyncDestroyed(s))
    && s.stored == Once(s.produced == 1 && s.collected && !s.wakeFailed)
    && s.lost == Once(s.produced == 1 && s.collected && s.wakeFailed)
    && s.freed == Once(s.produced == 1 && !s.collected && SyncDestroyed(s))
    && (!s.thread.Resolving? ==> (s.error <==> s.produced == 0 || s.wakeFailed))
    && (s.wakeFailed ==> s.thread.Exited? && !s.cancelFirst)
  }

  lemma ThreadKeepsInv(s: State, a: Action)
    requires Inv(s) && Enabled(s, a) && (a.Resolve? || a.ThreadLock? || a.ThreadDestroy? || a.ThreadFree?)
    ensures Inv(Do(s, a))
  {
  }

  lemma RequestKeepsInv(s: State, a: Action)
    requires Inv(s) && Enabled(s, a) && (a.Poll? || a.Wait? || a.Cancel? || a.Complete?)
    ensures Inv(Do(s, a))
  {
  }

  lemma CleanupKeepsInv(s: State, a: Action)
    requires Inv(s) && Enabled(s, a)
    requires a.ParentLock? || a.Detach? || a.Join? || a.ParentDestroy? || a.ParentFree? || a.CloseRead?
    ensures Inv(Do(s, a))
  {
  }

  lemma StepKeepsInv(s: State, a: Action)
    requires Inv(s) && Enabled(s, a)
    ensures Inv(Do(s, a))
  {
    hide Inv, Do;
    match a
    case Resolve(_) => ThreadKeepsInv(s, a);
    case ThreadLock(_) => ThreadKeepsInv(s, a);
    case ThreadDestroy => ThreadKeepsInv(s, a);
    case ThreadFree => ThreadKeepsInv(s, a);
    case Poll => RequestKeepsInv(s, a);
    case Wait(_) => RequestKeepsInv(s, a);
    case Cancel => RequestKeepsInv(s, a);
    case Complete => RequestKeepsInv(s, a);
    case _ => CleanupKeepsInv(s, a);
  }

  lemma RunKeepsInv(s: State, actions: seq<Action>, t: State)
    requires Inv(s) && Leads(Handshake(), s, actions, t)
    ensures Inv(t)
  {
    hide Inv;
    forall s, a | Inv(s) && Enabled(s, a) ensures Inv(Do(s, a)) {
      StepKeepsInv(s, a);
    }
    RunKeeps(Handshake(), s => Inv(s), s, actions, t);
  }

  lemma ReachedIsInv(actions: seq<Action>, t: State)
    requires Leads(Handshake(), START, actions, t)
    ensures Inv(t)
  {
    RunKeepsInv(START, actions, t);
  }

  // ---- every run --------------------------------------------------------

  predicate Over(s: State) {
    s.thread.Exited? && s.parent.Finished?
  }

  /** Nothing is ever released twice, and the data is not used by a cleanup after it is freed. */
  predicate NothingTwice(s: State) {
    && s.freedByThread + s.freedByParent <= 1 && s.writeClosed <= 1 && s.readClosed <= 1
    && s.stored + s.freed + s.lost <= s.produced <= 1
    && ((s.thread.CleaningUp? || s.thread.Destroyed? || s.parent.Freeing? || s.parent.FreeingData?) ==>
          s.freedByThread + s.freedByParent == 0)
  }

  /** Everything is released exactly once: the data by the thread if and only if the
      parent's critical section came first; and the list, unless the wake-up failed
      and the parent collected the result all the same. */
  predicate AllReleased(s: State) {
    && s.freedByThread == Once(s.cancelFirst) && s.freedByParent == Once(!s.cancelFirst)
    && s.writeClosed == 1 && s.readClosed == 1
    && s.stored + s.freed == s.produced - Once(s.produced == 1 && s.wakeFailed && s.collected)
  }

  lemma InvReleases(s: State)
    requires Inv(s)
    ensures NothingTwice(s)
    ensures Over(s) ==> AllReleased(s)
  {
  }

  /** In every interleaving. */
  lemma RunsReleaseOnce(actions: seq<Action>, t: State)
    requires Leads(Handshake(), START, actions, t)
    ensures NothingTwice(t)
    ensures Over(t) ==> AllReleased(t)
  {
    hide Inv;
    ReachedIsInv(actions, t);
    InvReleases(t);
  }

  // ---- what the steps taken tell ----------------------------------------

  predicate ThreadLocked(h: seq<Action>) {
    ThreadLock(true) in h || ThreadLock(false) in h
  }

  /** The parent let the thread go before the thread had its result. */
  predicate LetGo(h: seq<Action>) {
    h != [] &&
    var past, a := h[..|h| - 1], h[|h| - 1];
    LetGo(past) || (a.ParentLock? && !ThreadLocked(past))
  }

  /** The parent waited for the result and wanted it, or polled when it was there. */
  predicate Asked(h: seq<Action>) {
    h != [] &&
    var past, a := h[..|h| - 1], h[|h| - 1];
    Asked(past) || a == Wait(true) || (a.Poll? && ThreadLocked(past))
  }

  /** What the state says of the past is what happened. */
  predicate Told(h: seq<Action>, s: State) {
    && (s.thread.Resolving? <==> Resolve(true) !in h && Resolve(false) !in h)
    && (s.produced == 1 <==> Resolve(true) in h)
    && (s.thread.Resolving? || s.thread.Resolved? <==> !ThreadLocked(h))
    && (s.cancelFirst <==> LetGo(h))
    && (s.collected || s.parent.Collecting? <==> Asked(h))
    && (s.wakeFailed <==> ThreadLock(false) in h && !LetGo(h))
  }

  lemma StepTells(h: seq<Action>, s: State, a: Action)
    requires Inv(s) && Told(h, s) && Enabled(s, a)
    ensures Told(h + [a], Do(s, a))
  {
    assert (h + [a])[..|h|] == h;
  }

  lemma RunsTell(actions: seq<Action>, t: State)
    requires Leads(Handshake(), START, actions, t)
    ensures Inv(t) && Told(actions, t)
  {
    hide Inv, Told, Do, Enabled;
    forall h, s, a | Inv(s) && Told(h, s) && Enabled(s, a)
      ensures Inv(Do(s, a)) && Told(h + [a], Do(s, a))
    {
      StepKeepsInv(s, a);
      StepTells(h, s, a);
    }
    NothingTold();
    RunTells(Handshake(), (h, s) => Inv(s) && Told(h, s), [], START, actions, t);
    assert [] + actions == actions;
  }

  lemma NothingTold()
    ensures Inv(START) && Told([], START)
  {
  }

  /** How a run ends, from its steps alone: a list that was found is stored if the parent
      asked for it and the thread could wake it, lost if it asked and could not be woken,
      and freed if it did not ask; and the thread frees the data if it was let go. */
  lemma RunsEndAsAsked(actions: seq<Action>, t: State)
    requires Leads(Handshake(), START, actions, t) && Over(t)
    ensures
      var found, asked, woken := Resolve(true) in actions, Asked(actions), ThreadLock(false) !in actions;
      && t.stored == Once(found && asked && woken)
      && t.lost == Once(found && asked && !woken)
      && t.freed == Once(found && !asked)
    ensures t.freedByThread == Once(LetGo(actions)) && t.freedByParent == Once(!LetGo(actions))
    ensures Asked(actions) ==> !LetGo(actions)
  {
    RunsTell(actions, t);
  }

  /** A parent that still waits may ask or cancel at any time, and once the thread is done
      a poll collects the result in one more step. */
  lemma PollCollects(actions: seq<Action>, t: State)
    requires Leads(Handshake(), START, actions, t) && t.parent.Idle?
    ensures Enabled(t, Poll) && Enabled(t, Cancel) && Do(t, Cancel).parent.Destroying?
    ensures forall wanted :: Enabled(t, Wait(wanted)) <==> t.thread.Exited?
    ensures t.thread.Exited? ==>
      var u := Do(t, Poll);
      && Enabled(u, Complete)
      && var v := Do(u, Complete);
      && v.collected && v.parent.Destroying? && !v.list
      && (t.list ==> if t.error then v.lost == t.lost + 1 else v.stored == t.stored + 1)
  {
    ReachedIsInv(actions, t);
  }

  // ---- getting on -------------------------------------------------------

  /** Steps still to come, not counting polls that come too early. */
  function StepsLeft(s: State): nat {
    (match s.thread
     case Resolving => 4
     case Resolved => 3
     case CleaningUp => 2
     case Destroyed => 1
     case Exited => 0)
    + (match s.parent
       case Idle => 8
       case Collecting => 7
       case Destroying => 6
       case Detaching => 5
       case Joining => 5
       case Freeing => 4
       case FreeingData => 3
       case ClosingRead => 1
       case Finished => 0)
  }

  lemma StepGetsOn(s: State, a: Action)
    requires Inv(s) && Enabled(s, a)
    ensures StepsLeft(Do(s, a)) < StepsLeft(s) || (a.Poll? && !s.done && Do(s, a) == s)
  {
  }

  lemma SomeStep(s: State) returns (a: Action)
    requires Inv(s) && !Over(s)
    ensures Enabled(s, a) && !a.Poll?
  {
    if s.thread.Exited? {
      a := match s.parent
        case Idle => Cancel
        case Collecting => Complete
        case Destroying => ParentLock
        case Detaching => Detach
        case Joining => Join
        case Freeing => ParentDestroy
        case FreeingData => ParentFree
        case _ => CloseRead;
    } else {
      a := match s.thread
        case Resolving => Resolve(true)
        case Resolved => ThreadLock(true)
        case CleaningUp => ThreadDestroy
        case _ => ThreadFree;
    }
  }

  /** The sides cannot get stuck: until both are finished, one of them has a step to
      take, and every step but a poll that comes too early brings the end nearer. */
  lemma RunsGetOn(actions: seq<Action>, t: State)
    requires Leads(Handshake(), START, actions, t)
    ensures !Over(t) ==> exists a :: Enabled(t, a) && StepsLeft(Do(t, a)) < StepsLeft(t)
    ensures forall a :: Enabled(t, a) ==>
              StepsLeft(Do(t, a)) < StepsLeft(t) || (a.Poll? && !t.done && Do(t, a) == t)
  {
    hide Inv, StepsLeft, Do, Enabled, Over, Leads, Handshake;
    ReachedIsInv(actions, t);
    forall a | Enabled(t, a)
      ensures StepsLeft(Do(t, a)) < StepsLeft(t) || (a.Poll? && !t.done && Do(t, a) == t)
    {
      StepGetsOn(t, a);
    }
    if !Over(t) {
      var a := SomeStep(t);
      StepGetsOn(t, a);
    }
  }

  /** The thread found a list but could not wake the parent, which then joined it. */
  const UNWOKEN := START.(thread := Exited, parent := Collecting, done := true, list := true, error := true,
                          joined := true, produced := 1, wakeFailed := true)

  lemma Take(actions: seq<Action>, s: State, a: Action) returns (more: seq<Action>, t: State)
    requires Leads(Handshake(), START, actions, s) && Enabled(s, a)
    ensures Leads(Handshake(), START, more, t) && t == Do(s, a)
  {
    OneMore(Handshake(), START, actions, s, a);
    more, t := actions + [a], Do(s, a);
  }

  lemma UnwokenIsReached() returns (actions: seq<Action>)
    ensures Leads(Handshake(), START, actions, UNWOKEN)
  {
    hide Handshake;
    var t := START;
    actions := [];
    actions, t := Take(actions, t, Resolve(true));
    actions, t := Take(actions, t, ThreadLock(false));
    actions, t := Take(actions, t, Wait(true));
  }

  /** A list does get lost that way. */
  lemma ListCanBeLost() returns (actions: seq<Action>, t: State)
    ensures Leads(Handshake(), START, actions, t) && Over(t) && t.produced == 1 && t.stored == t.freed == 0
  {
    actions := UnwokenIsReached();
    actions, t := FinishParent(actions, UNWOKEN);
  }

  /** The parent alone gets to its end once the thread is done and joined. */
  lemma FinishParent(actions: seq<Action>, s: State) returns (more: seq<Action>, t: State)
    requires Leads(Handshake(), START, actions, s) && s.thread.Exited? && s.done && s.joined
    requires s.parent.Collecting? && s.list && s.error
    ensures Leads(Handshake(), START, more, t) && Over(t)
    ensures t.produced == s.produced && t.stored == s.stored && t.freed == s.freed
  {
    hide Handshake, Leads;
    more, t := Take(actions, s, Complete);
    more, t := Take(more, t, ParentLock);
    more, t := Take(more, t, ParentDestroy);
    more, t := Take(more, t, ParentFree);
    more, t := Take(more, t, CloseRead);
  }
}
