/** The mailbox of `sys_arch.c`: a ring of messages guarded by three binary semaphores, used by any number
    of posting threads and one fetching thread, as a state machine over their interleaved steps.

    A step is one semaphore operation, or what a thread does between two of them while it holds the mutex. */
module Mailbox {

  const SIZE: nat := 128

  type Message = int

  /** Where a thread inside `sys_mbox_post` (`block`) or `sys_mbox_trypost` is. */
  datatype Poster =
    | Lock(msg: Message, block: bool)   // about to wait for the mutex
    | Check(msg: Message, block: bool)  // holds the mutex, about to look for room
    | Release(msg: Message)             // found no room, about to signal the mutex
    | Sleep(msg: Message)               // about to wait for not_full
    | Relock(msg: Message)              // about to wait for the mutex again
    | Notify                            // has stored its message, about to signal not_empty
    | Unlock                            // about to signal the mutex and return

  /** Where the thread that calls `sys_arch_mbox_fetch` (`block`) or `sys_arch_mbox_tryfetch` is. */
  datatype Fetcher =
    | Away                   // not in a call
    | FLock(fblock: bool)    // about to wait for the mutex
    | FCheck(fblock: bool)   // holds the mutex, about to look for a message
    | FRelease               // found no message, about to signal the mutex
    | FSleep                 // about to wait for not_empty
    | FNotify                // has taken a message, about to signal not_full
    | FUnlock                // about to signal the mutex and return

  datatype Owner = Nobody | TheFetcher | APoster(t: nat)

  /** The mailbox, the threads, and the messages stored and taken so far.  The count of the mutex is 1
      exactly if nobody owns it. */
  datatype State = State(
    first: nat, last: nat, msgs: seq<Message>, waitSend: nat,
    owner: Owner, notEmpty: bool, notFull: bool,
    posters: map<nat, Poster>, fetcher: Fetcher,
    posted: seq<Message>, fetched: seq<Message>)

  /** `sys_mbox_new`; the slots of the ring hold anything. */
  predicate Initial(s: State) {
    |s.msgs| == SIZE && s == State(0, 0, s.msgs, 0, Nobody, false, false, map[], Away, [], [])
  }

  datatype Action =
    | Post(t: nat, msg: Message, block: bool)  // thread `t` calls post or trypost
    | StepPoster(t: nat)
    | Fetch(block: bool)                       // the fetcher calls fetch or tryfetch
    | StepFetcher
    | Timeout                                  // the fetcher gives up waiting

  function Slot(k: nat): (i: nat)
    ensures i < SIZE
  {
    k % SIZE
  }

  predicate Full(s: State) {
    s.last + 1 >= s.first + SIZE
  }

  /** Whether an action can happen: threads wait for semaphores whose count is 0. */
  predicate Enabled(s: State, a: Action) {
    match a
    case Post(t, _, _) => t !in s.posters
    case StepPoster(t) =>
      && t in s.posters
      && (s.posters[t].Lock? || s.posters[t].Relock? ==> s.owner == Nobody)
      && (s.posters[t].Sleep? ==> s.notFull)
    case Fetch(_) => s.fetcher == Away
    case StepFetcher =>
      && s.fetcher != Away
      && (s.fetcher.FLock? ==> s.owner == Nobody)
      && (s.fetcher.FSleep? ==> s.notEmpty)
    case Timeout => s.fetcher == FSleep
  }

  function At(s: State, t: nat, p: Poster): State {
    s.(posters := s.posters[t := p])
  }

  /** What a posting thread does in one step. */
  function PosterStep(s: State, t: nat): State
    requires t in s.posters && |s.msgs| == SIZE
  {
    match s.posters[t]
    case Lock(msg, block) => At(s, t, Check(msg, block)).(owner := APoster(t))
    case Check(msg, block) =>
      if Full(s) then
        if block then At(s, t, Release(msg)).(waitSend := s.waitSend + 1) else At(s, t, Unlock)
      else
        At(s, t, if s.last == s.first then Notify else Unlock).(
          msgs := s.msgs[Slot(s.last) := msg], last := s.last + 1, posted := s.posted + [msg])
    case Release(msg) => At(s, t, Sleep(msg)).(owner := Nobody)
    case Sleep(msg) => At(s, t, Relock(msg)).(notFull := false)
    case Relock(msg) =>
      At(s, t, Check(msg, true)).(owner := APoster(t), waitSend := if s.waitSend > 0 then s.waitSend - 1 else 0)
    case Notify => At(s, t, Unlock).(notEmpty := true)
    case Unlock => s.(posters := s.posters - {t}, owner := Nobody)
  }

  /** What the fetching thread does in one step. */
  function FetcherStep(s: State): State
    requires |s.msgs| == SIZE
  {
    match s.fetcher
    case Away => s
    case FLock(block) => s.(fetcher := FCheck(block), owner := TheFetcher)
    case FCheck(block) =>
      if s.first == s.last then
        s.(fetcher := if block then FRelease else FUnlock)
      else
        s.(fetcher := if s.waitSend > 0 then FNotify else FUnlock,
           fetched := s.fetched + [s.msgs[Slot(s.first)]], first := s.first + 1)
    case FRelease => s.(fetcher := FSleep, owner := Nobody)
    case FSleep => s.(fetcher := FLock(true), notEmpty := false)
    case FNotify => s.(fetcher := FUnlock, notFull := true)
    case FUnlock => s.(fetcher := Away, owner := Nobody)
  }

  function Apply(s: State, a: Action): State
    requires Enabled(s, a) && |s.msgs| == SIZE
  {
    match a
    case Post(t, msg, block) => At(s, t, Lock(msg, block))
    case StepPoster(t) => PosterStep(s, t)
    case Fetch(block) => s.(fetcher := FLock(block))
    case StepFetcher => FetcherStep(s)
    case Timeout => s.(fetcher := Away)
  }

  predicate Moves(r: State, a: Action, s: State) {
    |r.msgs| == SIZE && Enabled(r, a) && s == Apply(r, a)
  }

  /** The states of a run: any interleaving of the threads, from the new mailbox on. */
  ghost predicate IsRun(states: seq<State>, actions: seq<Action>) {
    && |states| == |actions| + 1 && Initial(states[0])
    && forall i :: 0 <= i < |actions| ==> Moves(states[i], actions[i], states[i + 1])
  }

  // --- Invariants -----------------------------------------------------------------------------------------------

  predicate HoldsMutex(p: Poster) {
    p.Check? || p.Release? || p.Notify? || p.Unlock?
  }

  predicate FHoldsMutex(f: Fetcher) {
    f.FCheck? || f.FRelease? || f.FNotify? || f.FUnlock?
  }

  /** Posters that `wait_send` counts. */
  function Waiters(posters: map<nat, Poster>): set<nat> {
    set t | t in posters && (posters[t].Release? || posters[t].Sleep? || posters[t].Relock?)
  }

  /** Posters that wait, or are about to wait, for not_full. */
  function Sleepers(posters: map<nat, Poster>): set<nat> {
    set t | t in posters && (posters[t].Release? || posters[t].Sleep?)
  }

  /** Posters that not_full has woken up. */
  function Woken(posters: map<nat, Poster>): set<nat> {
    set t | t in posters && posters[t].Relock?
  }

  /** The mutex has one owner at a time, who is where the mutex is held. */
  ghost predicate Exclusive(s: State) {
    && (forall t :: t in s.posters ==> (HoldsMutex(s.posters[t]) <==> s.owner == APoster(t)))
    && (s.owner.APoster? ==> s.owner.t in s.posters)
    && (FHoldsMutex(s.fetcher) <==> s.owner == TheFetcher)
  }

  /** The ring holds the messages that were posted and not yet fetched, in order. */
  ghost predicate Fifo(s: State) {
    && |s.msgs| == SIZE && |s.posted| == s.last
    && s.first <= s.last < s.first + SIZE
    && s.fetched == s.posted[..s.first]
    && (forall k :: s.first <= k < s.last ==> s.msgs[Slot(k)] == s.posted[k])
  }

  ghost predicate OwnerAt(s: State, notify: bool) {
    s.owner.APoster? && s.owner.t in s.posters &&
    if notify then s.posters[s.owner.t].Notify? else s.posters[s.owner.t].Check?
  }

  /** A fetcher that sleeps although there is a message will be woken up. */
  ghost predicate FetcherWakes(s: State) {
    && (s.fetcher.FRelease? ==> s.first == s.last)
    && (s.fetcher.FSleep? && s.first < s.last ==> s.notEmpty || OwnerAt(s, true))
  }

  /** What keeps sleeping posters from being forgotten: there are messages left to fetch, a signal is
      pending or about to be sent, or another poster has been woken up. */
  ghost predicate WillWaken(s: State) {
    s.first < s.last || s.notFull || Woken(s.posters) != {} || OwnerAt(s, false) || s.fetcher.FNotify?
  }

  /** A poster that sleeps although the box is empty will be woken up, or another one was. */
  ghost predicate PostersWake(s: State) {
    && s.waitSend == |Waiters(s.posters)|
    && (Sleepers(s.posters) != {} ==> WillWaken(s))
  }

  ghost predicate Inv(s: State) {
    Exclusive(s) && Fifo(s) && FetcherWakes(s) && PostersWake(s)
  }

  // --- Every step keeps them ------------------------------------------------------------------------------------

  /** A poster takes the mutex when nobody has it, or gives it back, and touches no other poster. */
  lemma PosterMoves(s: State, t: nat)
    requires Enabled(s, StepPoster(t)) && |s.msgs| == SIZE
    requires HoldsMutex(s.posters[t]) <==> s.owner == APoster(t)
    ensures var s' := PosterStep(s, t);
      && s'.fetcher == s.fetcher && s'.posters - {t} == s.posters - {t}
      && (t in s'.posters ==> (HoldsMutex(s'.posters[t]) <==> s'.owner == APoster(t)))
      && (s'.owner == APoster(t) ==> t in s'.posters)
      && (s'.owner == s.owner
          || (s.owner in {Nobody, APoster(t)} && s'.owner in {Nobody, APoster(t)}))
  {
    hide Full, Slot;
  }

  lemma PosterExclusive(s: State, t: nat)
    requires Exclusive(s) && Enabled(s, StepPoster(t)) && |s.msgs| == SIZE
    ensures Exclusive(PosterStep(s, t))
  {
    hide PosterStep, HoldsMutex, FHoldsMutex;
    PosterMoves(s, t);
    var s' := PosterStep(s, t);
    forall u | u in s'.posters && u != t ensures u in s.posters && s'.posters[u] == s.posters[u] {
      assert u in s'.posters - {t} && (s'.posters - {t})[u] == s'.posters[u];
    }
    forall u | u in s.posters && u != t ensures u in s'.posters {
      assert u in s.posters - {t};
    }
  }

  lemma FetcherExclusive(s: State)
    requires Exclusive(s) && Enabled(s, StepFetcher) && |s.msgs| == SIZE
    ensures Exclusive(FetcherStep(s))
  {
  }

  lemma ExclusiveKept(s: State, a: Action)
    requires Inv(s) && Enabled(s, a)
    ensures Exclusive(Apply(s, a))
  {
    match a
    case Post(t, msg, block) =>
    case StepPoster(t) => PosterExclusive(s, t);
    case Fetch(_) =>
    case StepFetcher => FetcherExclusive(s);
    case Timeout =>
  }

  /** A slot that is written next is not one that still holds a message. */
  lemma SlotsDiffer(k: nat, last: nat)
    requires k < last < k + SIZE
    ensures Slot(k) != Slot(last)
  {
  }

  lemma StoreFifo(s: State, t: nat)
    requires Fifo(s) && t in s.posters && s.posters[t].Check? && !Full(s)
    ensures Fifo(PosterStep(s, t))
  {
    hide Slot;
    forall k: nat | s.first <= k < s.last ensures Slot(k) != Slot(s.last) {
      SlotsDiffer(k, s.last);
    }
  }

  lemma TakeFifo(s: State)
    requires Fifo(s) && s.fetcher.FCheck? && s.first != s.last
    ensures Fifo(FetcherStep(s))
  {
    hide Slot;
  }

  lemma FifoKept(s: State, a: Action)
    requires Inv(s) && Enabled(s, a)
    ensures Fifo(Apply(s, a))
  {
    if a.StepPoster? && s.posters[a.t].Check? && !Full(s) {
      StoreFifo(s, a.t);
    } else if a.StepFetcher? && s.fetcher.FCheck? && s.first != s.last {
      TakeFifo(s);
    } else {
      SameQueue(s, a);
    }
  }

  /** All other steps leave the queue alone. */
  lemma SameQueue(s: State, a: Action)
    requires |s.msgs| == SIZE && Enabled(s, a)
    requires !(a.StepPoster? && s.posters[a.t].Check? && !Full(s))
    requires !(a.StepFetcher? && s.fetcher.FCheck? && s.first != s.last)
    ensures var s' := Apply(s, a);
      (s'.first, s'.last, s'.msgs, s'.posted, s'.fetched) == (s.first, s.last, s.msgs, s.posted, s.fetched)
  {
  }

  lemma FetcherWakesKept(s: State, a: Action)
    requires Inv(s) && Enabled(s, a)
    ensures FetcherWakes(Apply(s, a))
  {
  }

  /** Whether `wait_send` counts a poster at `p`. */
  function Counted(p: Poster): nat {
    if p.Release? || p.Sleep? || p.Relock? then 1 else 0
  }

  lemma CountMoved(posters: map<nat, Poster>, t: nat, p: Poster)
    ensures |Waiters(posters[t := p])| ==
      |Waiters(posters)| - (if t in posters then Counted(posters[t]) else 0) + Counted(p)
  {
    var rest := Waiters(posters) - {t};
    assert Waiters(posters[t := p]) == if Counted(p) == 1 then rest + {t} else rest;
    assert Waiters(posters) == if t in posters && Counted(posters[t]) == 1 then rest + {t} else rest;
  }

  lemma CountGone(posters: map<nat, Poster>, t: nat)
    requires t in posters && Counted(posters[t]) == 0
    ensures Waiters(posters - {t}) == Waiters(posters)
  {
  }

  lemma PosterCounts(s: State, t: nat)
    requires t in s.posters && |s.msgs| == SIZE && s.waitSend == |Waiters(s.posters)|
    ensures PosterStep(s, t).waitSend == |Waiters(PosterStep(s, t).posters)|
  {
    hide Waiters;
    if s.posters[t].Unlock? {
      CountGone(s.posters, t);
    } else {
      CountMoved(s.posters, t, PosterStep(s, t).posters[t]);
    }
  }

  lemma WaitSendCounts(s: State, a: Action)
    requires Inv(s) && Enabled(s, a)
    ensures Apply(s, a).waitSend == |Waiters(Apply(s, a).posters)|
  {
    match a
    case Post(t, msg, block) => CountMoved(s.posters, t, Lock(msg, block));
    case StepPoster(t) => PosterCounts(s, t);
    case Fetch(_) =>
    case StepFetcher =>
    case Timeout =>
  }

  lemma FetcherWakensSleepers(s: State)
    requires Inv(s) && Enabled(s, StepFetcher) && Sleepers(s.posters) != {}
    ensures WillWaken(FetcherStep(s))
  {
    var t :| t in Sleepers(s.posters);
    assert t in Waiters(s.posters);
  }

  lemma PosterWakensSleepers(s: State, t: nat)
    requires Inv(s) && Enabled(s, StepPoster(t)) && Sleepers(PosterStep(s, t).posters) != {}
    ensures WillWaken(PosterStep(s, t))
  {
    hide FetcherWakes;
    var s' := PosterStep(s, t);
    var p := s.posters[t];
    if p.Sleep? {
      assert t in Woken(s'.posters);
    } else if p.Relock? {
      assert OwnerAt(s', false);
    } else if p.Check? {
      assert s'.first < s'.last;
    } else {
      OthersSleep(s, t);
    }
  }

  /** Steps that neither put a poster to sleep nor wake one up. */
  lemma OthersSleep(s: State, t: nat)
    requires Exclusive(s) && PostersWake(s) && Enabled(s, StepPoster(t)) && |s.msgs| == SIZE
    requires s.posters[t].Lock? || s.posters[t].Release? || s.posters[t].Notify? || s.posters[t].Unlock?
    requires Sleepers(PosterStep(s, t).posters) != {}
    ensures WillWaken(PosterStep(s, t))
  {
    var s' := PosterStep(s, t);
    var u :| u in Sleepers(s'.posters);
    assert u in Sleepers(s.posters);
    if Woken(s.posters) != {} {
      var w :| w in Woken(s.posters);
      assert w in Woken(s'.posters);
    }
  }

  lemma SleepersWaken(s: State, a: Action)
    requires Inv(s) && Enabled(s, a) && Sleepers(Apply(s, a).posters) != {}
    ensures WillWaken(Apply(s, a))
  {
    match a
    case Post(t, msg, block) =>
      var u :| u in Sleepers(Apply(s, a).posters);
      assert u in Sleepers(s.posters);
      if Woken(s.posters) != {} {
        var w :| w in Woken(s.posters);
        assert w in Woken(Apply(s, a).posters);
      }
    case StepPoster(t) => PosterWakensSleepers(s, t);
    case Fetch(_) =>
    case StepFetcher => FetcherWakensSleepers(s);
    case Timeout =>
  }

  lemma InvKept(s: State, a: Action)
    requires Inv(s) && Enabled(s, a)
    ensures Inv(Apply(s, a))
  {
    ExclusiveKept(s, a);
    FifoKept(s, a);
    FetcherWakesKept(s, a);
    WaitSendCounts(s, a);
    if Sleepers(Apply(s, a).posters) != {} {
      SleepersWaken(s, a);
    }
  }

  /** Every state of every run satisfies the invariants. */
  lemma {:induction false} RunsKeepInv(states: seq<State>, actions: seq<Action>, i: nat)
    requires IsRun(states, actions) && i < |states|
    ensures Inv(states[i])
  {
    if i == 0 {
      assert Waiters(states[0].posters) == {};
      assert Sleepers(states[0].posters) == {};
    } else {
      RunsKeepInv(states, actions, i - 1);
      assert Moves(states[i - 1], actions[i - 1], states[i]);
      InvKept(states[i - 1], actions[i - 1]);
    }
  }

  // --- What the mailbox guarantees ------------------------------------------------------------------------------

  /** In every run the mailbox is a queue: what has been fetched is the beginning of what has been posted,
      and at most 127 messages are pending. */
  lemma MailboxIsQueue(states: seq<State>, actions: seq<Action>, i: nat)
    requires IsRun(states, actions) && i < |states|
    ensures var s := states[i]; s.fetched <= s.posted && |s.posted| - |s.fetched| <= 127
  {
    RunsKeepInv(states, actions, i);
  }

  /** A poster that looks for room finds it unless 127 messages are pending.  Then it adds its message at
      the end of the queue; `trypost` adds nothing exactly if 127 messages are pending. */
  lemma PostAppends(states: seq<State>, actions: seq<Action>, i: nat, t: nat)
    requires IsRun(states, actions) && i < |actions| && actions[i] == StepPoster(t)
    requires t in states[i].posters && states[i].posters[t].Check?
    ensures var s, s' := states[i], states[i + 1];
      s'.posted == if |s.posted| - |s.fetched| == 127 then s.posted else s.posted + [s.posters[t].msg]
  {
    RunsKeepInv(states, actions, i);
    assert Moves(states[i], actions[i], states[i + 1]);
  }

  /** The fetcher takes the oldest message that has not been fetched. */
  lemma FetchTakesOldest(states: seq<State>, actions: seq<Action>, i: nat)
    requires IsRun(states, actions) && i < |actions| && actions[i] == StepFetcher && states[i].fetcher.FCheck?
    ensures var s, s' := states[i], states[i + 1];
      if s.fetched == s.posted then s'.fetched == s.fetched
      else |s.fetched| < |s.posted| && s'.fetched == s.fetched + [s.posted[|s.fetched|]]
  {
    RunsKeepInv(states, actions, i);
    assert Moves(states[i], actions[i], states[i + 1]);
    assert states[i].posted[..states[i].last] == states[i].posted;
  }

  /** No wakeup is lost: a fetcher that sleeps on a box with messages can go on, at the latest after the
      owner of the mutex has taken its next step. */
  lemma NoLostWakeup(states: seq<State>, actions: seq<Action>, i: nat)
    requires IsRun(states, actions) && i < |states|
    requires states[i].fetcher == FSleep && states[i].fetched != states[i].posted
    ensures var s := states[i];
      || Enabled(s, StepFetcher)
      || (s.owner.APoster? && |s.msgs| == SIZE && Enabled(s, StepPoster(s.owner.t))
          && Enabled(Apply(s, StepPoster(s.owner.t)), StepFetcher))
  {
    RunsKeepInv(states, actions, i);
    assert states[i].posted[..states[i].last] == states[i].posted;
  }

  /** Some thread that is in a call can take a step. */
  ghost predicate CanMove(s: State) {
    Enabled(s, StepFetcher) || exists t :: t in s.posters && Enabled(s, StepPoster(t))
  }

  /** Whoever holds the mutex can take a step. */
  lemma OwnerMoves(s: State)
    requires Exclusive(s) && s.owner != Nobody
    ensures CanMove(s)
  {
    if s.owner.APoster? {
      assert Enabled(s, StepPoster(s.owner.t));
    }
  }

  /** No run ends in a deadlock.  If no thread can take a step, then either the fetcher is in a call, the box
      is empty and nobody is posting; or the fetcher is not in a call, and posters in a call wait for it to
      make room. */
  lemma NoDeadlock(states: seq<State>, actions: seq<Action>, i: nat)
    requires IsRun(states, actions) && i < |states| && !CanMove(states[i])
    ensures var s := states[i];
      if s.fetcher != Away then s.fetcher == FSleep && s.fetched == s.posted && s.posters == map[]
      else s.posters == map[] || (s.fetched != s.posted && forall t :: t in s.posters ==> s.posters[t].Sleep?)
  {
    RunsKeepInv(states, actions, i);
    var s := states[i];
    if s.owner != Nobody {
      OwnerMoves(s);
    } else {
      forall t | t in s.posters ensures s.posters[t].Sleep? && !s.notFull && t in Sleepers(s.posters) {
        assert !Enabled(s, StepPoster(t));
      }
      assert s.posted[..s.last] == s.posted;
      NobodyWoken(s);
    }
  }

  lemma NobodyWoken(s: State)
    requires Inv(s) && s.owner == Nobody && !Enabled(s, StepFetcher)
    requires forall t :: t in s.posters ==> s.posters[t].Sleep? && !s.notFull && t in Sleepers(s.posters)
    ensures s.posters != map[] ==> s.first < s.last
    ensures s.fetcher == FSleep ==> s.first == s.last
  {
    assert Woken(s.posters) == {};
    if s.posters != map[] {
      var t :| t in s.posters;
    }
  }

  // --- No thread runs in circles ----------------------------------------------------------------------------------

  /** How many steps a poster can still take, if it finds room now; a signal pays for looking again. */
  function Rank(p: Poster): nat {
    match p
    case Lock(_, _) => 8
    case Relock(_) => 8
    case Check(_, _) => 7
    case Release(_) => 6
    case Notify => 6
    case Sleep(_) => 5
    case Unlock => 1
  }

  function FRank(f: Fetcher): nat {
    match f
    case Away => 0
    case FLock(_) => 8
    case FCheck(_) => 7
    case FRelease => 6
    case FNotify => 6
    case FSleep => 5
    case FUnlock => 1
  }

  function Signal(raised: bool): nat {
    if raised then 4 else 0
  }

  ghost function Ranks(posters: map<nat, Poster>): nat
    decreases |posters|
  {
    if posters == map[] then 0
    else
      var t :| t in posters;
      Rank(posters[t]) + Ranks(posters - {t})
  }

  /** An upper bound on the steps that can be taken without new calls. */
  ghost function Energy(s: State): nat {
    Ranks(s.posters) + FRank(s.fetcher) + Signal(s.notFull) + Signal(s.notEmpty)
  }

  lemma {:induction false} RanksWithout(posters: map<nat, Poster>, t: nat)
    requires t in posters
    ensures Ranks(posters) == Rank(posters[t]) + Ranks(posters - {t})
    decreases |posters|
  {
    var u :| u in posters && Ranks(posters) == Rank(posters[u]) + Ranks(posters - {u});
    if u != t {
      RanksWithout(posters - {u}, t);
      RanksWithout(posters - {t}, u);
      assert posters - {u} - {t} == posters - {t} - {u};
    }
  }

  lemma RanksMoved(posters: map<nat, Poster>, t: nat, p: Poster)
    ensures Ranks(posters[t := p]) == Rank(p) + Ranks(posters - {t})
  {
    RanksWithout(posters[t := p], t);
    assert posters[t := p] - {t} == posters - {t};
  }

  lemma RanksAdded(posters: map<nat, Poster>, t: nat, p: Poster)
    requires t !in posters
    ensures Ranks(posters[t := p]) == Rank(p) + Ranks(posters)
  {
    RanksMoved(posters, t, p);
    assert posters - {t} == posters;
  }

  predicate IsCall(a: Action) {
    a.Post? || a.Fetch?
  }

  /** A call brings energy for at most eight steps, and every other action uses some up. */
  lemma EnergyFalls(s: State, a: Action)
    requires |s.msgs| == SIZE && Enabled(s, a)
    ensures IsCall(a) ==> Energy(Apply(s, a)) == Energy(s) + 8
    ensures !IsCall(a) ==> Energy(Apply(s, a)) < Energy(s)
  {
    hide Ranks;
    match a
    case Post(t, msg, block) => RanksAdded(s.posters, t, Lock(msg, block));
    case StepPoster(t) => PosterEnergy(s, t);
    case Fetch(_) =>
    case StepFetcher =>
    case Timeout =>
  }

  /** A poster loses rank, or pays with a signal. */
  lemma PosterPays(s: State, t: nat)
    requires |s.msgs| == SIZE && Enabled(s, StepPoster(t))
    ensures var s' := PosterStep(s, t);
      var rank := if t in s'.posters then Rank(s'.posters[t]) else 0;
      && s'.fetcher == s.fetcher
      && rank + Signal(s'.notFull) + Signal(s'.notEmpty) < Rank(s.posters[t]) + Signal(s.notFull) + Signal(s.notEmpty)
      && s'.posters == if t in s'.posters then s.posters[t := s'.posters[t]] else s.posters - {t}
  {
    hide Full, Slot;
  }

  lemma PosterEnergy(s: State, t: nat)
    requires |s.msgs| == SIZE && Enabled(s, StepPoster(t))
    ensures Energy(PosterStep(s, t)) < Energy(s)
  {
    hide Ranks, Rank, FRank, Signal, PosterStep;
    PosterPays(s, t);
    var s' := PosterStep(s, t);
    RanksWithout(s.posters, t);
    if t in s'.posters {
      RanksMoved(s.posters, t, s'.posters[t]);
    }
  }

  function Calls(actions: seq<Action>, n: nat): nat
    requires n <= |actions|
  {
    if n == 0 then 0 else Calls(actions, n - 1) + if IsCall(actions[n - 1]) then 1 else 0
  }

  lemma {:induction false} EnergyBound(states: seq<State>, actions: seq<Action>, m: nat, n: nat)
    requires IsRun(states, actions) && m <= n <= |actions|
    ensures Calls(actions, m) <= Calls(actions, n)
    ensures (n - m) - (Calls(actions, n) - Calls(actions, m)) + Energy(states[n])
         <= Energy(states[m]) + 8 * (Calls(actions, n) - Calls(actions, m))
    decreases n
  {
    hide Energy, Apply, Enabled;
    if m < n {
      EnergyBound(states, actions, m, n - 1);
      assert Moves(states[n - 1], actions[n - 1], states[n]);
      EnergyFalls(states[n - 1], actions[n - 1]);
    }
  }

  /** In every run the threads take at most eight steps for each call, so without new calls every run ends, in
      one of the states of `NoDeadlock`. */
  lemma StepsAreBounded(states: seq<State>, actions: seq<Action>)
    requires IsRun(states, actions)
    ensures |actions| - Calls(actions, |actions|) <= 8 * Calls(actions, |actions|)
  {
    EnergyBound(states, actions, 0, |actions|);
  }
}
