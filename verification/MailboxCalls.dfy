/** How the calls on a mailbox end: what each call of a run has done when its thread is out of it again. */
module MailboxCalls {
  import opened Mailbox

  // --- Fetching ------------------------------------------------------------------------------------------------

  /** Between `Fetch(block)` at position `i` of a run and position `k` the fetcher has been in the call.  It has looked
      for a message at position `m` and is on its way out, or has not found one yet. */
  ghost predicate InFetch(states: seq<State>, block: bool, i: nat, k: nat, m: nat)
    requires i < k < |states|
  {
    var s, before := states[k], states[i].fetched;
    match s.fetcher
    case Away => false
    case FLock(b) => b == block && s.fetched == before
    case FCheck(b) => b == block && s.fetched == before
    case FRelease => block && s.fetched == before
    case FSleep => block && s.fetched == before
    case FNotify => Fetched(states, block, i, m, s)
    case FUnlock => Fetched(states, block, i, m, s)
  }

  /** At position `m` the fetcher held the mutex and took the oldest message, if there was one; without one only a
      call that does not block goes on to its end. */
  ghost predicate Fetched(states: seq<State>, block: bool, i: nat, m: nat, s: State)
    requires i < |states|
  {
    && i < m < |states| && states[m].fetcher == FCheck(block) && states[m].owner == TheFetcher
    && |states[m].fetched| <= |states[m].posted|
    && if states[m].fetched == states[m].posted then !block && s.fetched == states[i].fetched
       else |states[m].fetched| < |states[m].posted|
            && s.fetched == states[i].fetched + [states[m].posted[|states[m].fetched|]]
  }

  lemma FetchedNow(states: seq<State>, actions: seq<Action>, block: bool, i: nat, k: nat)
    requires IsRun(states, actions) && i < k < |actions| && states[k].fetcher == FCheck(block)
    requires states[k].fetched == states[i].fetched && actions[k] == StepFetcher
    ensures var s := states[k + 1];
      if states[k].fetched == states[k].posted && block then s.fetcher == FRelease && s.fetched == states[i].fetched
      else (s.fetcher == FNotify || s.fetcher == FUnlock) && Fetched(states, block, i, k, s)
  {
    RunsKeepInv(states, actions, k);
    assert Moves(states[k], actions[k], states[k + 1]);
    var s := states[k];
    assert s.posted[..s.last] == s.posted;
    assert s.first < s.last ==> s.msgs[Slot(s.first)] == s.posted[s.first];
  }

  /** Steps of others leave the fetcher and its messages alone. */
  lemma OthersDoNotFetch(states: seq<State>, actions: seq<Action>, k: nat)
    requires IsRun(states, actions) && k < |actions| && (actions[k].Post? || actions[k].StepPoster?)
    ensures states[k + 1].fetcher == states[k].fetcher && states[k + 1].fetched == states[k].fetched
  {
    assert Moves(states[k], actions[k], states[k + 1]);
  }

  lemma {:induction false} Fetching(states: seq<State>, actions: seq<Action>, block: bool, i: nat, k: nat) returns (m: nat)
    requires IsRun(states, actions) && i < k <= |actions| && actions[i] == Fetch(block)
    requires forall j :: i < j <= k ==> states[j].fetcher != Away
    ensures InFetch(states, block, i, k, m)
    decreases k
  {
    assert Moves(states[k - 1], actions[k - 1], states[k]);
    m := 0;
    if i + 1 < k {
      m := Fetching(states, actions, block, i, k - 1);
      var a := actions[k - 1];
      if a.Post? || a.StepPoster? {
        OthersDoNotFetch(states, actions, k - 1);
      } else if states[k - 1].fetcher.FCheck? {
        FetchedNow(states, actions, block, i, k - 1);
        if states[k].fetcher != FRelease {
          m := k - 1;
        }
      }
    }
  }

  /** A call of fetch that does not time out has taken exactly one message when it ends: the oldest one at a moment
      when it held the mutex.  So has a call of tryfetch if there was one at that moment; it never sleeps. */
  lemma FetchEnds(states: seq<State>, actions: seq<Action>, block: bool, i: nat, j: nat) returns (m: nat)
    requires IsRun(states, actions) && i < j < |states| && actions[i] == Fetch(block)
    requires states[j].fetcher == Away && forall k :: i < k < j ==> states[k].fetcher != Away
    ensures !block ==> forall k :: i < k < j ==> !states[k].fetcher.FRelease? && !states[k].fetcher.FSleep?
    ensures if actions[j - 1] == Timeout then block && states[j].fetched == states[i].fetched
            else Fetched(states, block, i, m, states[j])
  {
    forall k | i < k < j ensures !block ==> !states[k].fetcher.FRelease? && !states[k].fetcher.FSleep? {
      var _ := Fetching(states, actions, block, i, k);
    }
    assert Moves(states[i], actions[i], states[i + 1]);
    m := Fetching(states, actions, block, i, j - 1);
    assert Moves(states[j - 1], actions[j - 1], states[j]);
  }

  // --- Posting -------------------------------------------------------------------------------------------------

  /** Between `Post(t, msg, block)` at position `i` of a run and position `k` the thread has been in the call.  It has
      looked for room at position `m` and is on its way out, or has not found any yet. */
  ghost predicate InPost(states: seq<State>, actions: seq<Action>, t: nat, msg: Message, block: bool, i: nat, k: nat, m: nat)
    requires i < k < |states| == |actions| + 1 && t in states[k].posters
  {
    match states[k].posters[t]
    case Lock(x, b) => x == msg && b == block && PostedNothing(states, actions, t, i, k, k)
    case Check(x, b) => x == msg && b == block && PostedNothing(states, actions, t, i, k, k)
    case Release(x) => block && x == msg && PostedNothing(states, actions, t, i, k, k)
    case Sleep(x) => block && x == msg && PostedNothing(states, actions, t, i, k, k)
    case Relock(x) => block && x == msg && PostedNothing(states, actions, t, i, k, k)
    case Notify => Posted(states, actions, t, msg, block, i, k, m)
    case Unlock => Posted(states, actions, t, msg, block, i, k, m)
  }

  /** No step of the thread after position `i` and before `k`, but for the one at `m`, has posted anything. */
  ghost predicate PostedNothing(states: seq<State>, actions: seq<Action>, t: nat, i: nat, k: nat, m: nat)
    requires k < |states| == |actions| + 1
  {
    forall n :: i < n < k && n != m && actions[n] == StepPoster(t) ==> states[n + 1].posted == states[n].posted
  }

  /** At position `m` the thread found room and posted its message, and did nothing of the kind at any other; or it
      found 127 messages pending and gave up, as only a call that does not block does. */
  ghost predicate Posted(states: seq<State>, actions: seq<Action>, t: nat, msg: Message, block: bool, i: nat, k: nat, m: nat)
    requires k < |states| == |actions| + 1
  {
    && i < m < k && actions[m] == StepPoster(t) && PostedNothing(states, actions, t, i, k, m)
    && t in states[m].posters && states[m].posters[t] == Check(msg, block) && states[m].owner == APoster(t)
    && if |states[m].posted| - |states[m].fetched| == 127 then !block && states[m + 1].posted == states[m].posted
       else states[m + 1].posted == states[m].posted + [msg]
  }

  lemma PostedNow(states: seq<State>, actions: seq<Action>, t: nat, msg: Message, block: bool, i: nat, k: nat)
    requires IsRun(states, actions) && i < k < |actions| && actions[k] == StepPoster(t) && t in states[k].posters
    requires states[k].posters[t] == Check(msg, block) && PostedNothing(states, actions, t, i, k, k)
    ensures t in states[k + 1].posters
    ensures var p := states[k + 1].posters[t];
      if |states[k].posted| - |states[k].fetched| == 127 && block
      then p == Release(msg) && PostedNothing(states, actions, t, i, k + 1, k + 1)
      else (p == Notify || p == Unlock) && Posted(states, actions, t, msg, block, i, k + 1, k)
  {
    RunsKeepInv(states, actions, k);
    assert Moves(states[k], actions[k], states[k + 1]);
  }

  /** Steps of others leave the thread alone, and its other steps post nothing. */
  lemma OthersDoNotPost(states: seq<State>, actions: seq<Action>, t: nat, k: nat)
    requires IsRun(states, actions) && k < |actions| && t in states[k].posters
    ensures actions[k] != StepPoster(t) ==> t in states[k + 1].posters && states[k + 1].posters[t] == states[k].posters[t]
    ensures actions[k] == StepPoster(t) && !states[k].posters[t].Check? ==> states[k + 1].posted == states[k].posted
  {
    assert Moves(states[k], actions[k], states[k + 1]);
  }

  lemma PostedNothingMore(states: seq<State>, actions: seq<Action>, t: nat, i: nat, k: nat, m: nat)
    requires k + 1 < |states| == |actions| + 1 && i < k && m <= k && PostedNothing(states, actions, t, i, k, m)
    requires actions[k] == StepPoster(t) ==> states[k + 1].posted == states[k].posted
    ensures PostedNothing(states, actions, t, i, k + 1, m) && (m == k ==> PostedNothing(states, actions, t, i, k + 1, k + 1))
  {
  }

  lemma PostingStep(states: seq<State>, actions: seq<Action>, t: nat, msg: Message, block: bool, i: nat, k: nat, m0: nat)
    returns (m: nat)
    requires IsRun(states, actions) && i < k < |actions| && t in states[k].posters && t in states[k + 1].posters
    requires InPost(states, actions, t, msg, block, i, k, m0)
    ensures InPost(states, actions, t, msg, block, i, k + 1, m)
  {
    hide PostedNothing, Inv;
    m := m0;
    OthersDoNotPost(states, actions, t, k);
    if actions[k] == StepPoster(t) && states[k].posters[t].Check? {
      PostedNow(states, actions, t, msg, block, i, k);
      if !states[k + 1].posters[t].Release? {
        m := k;
      }
    } else {
      var out := states[k].posters[t].Notify? || states[k].posters[t].Unlock?;
      PostedNothingMore(states, actions, t, i, k, if out then m0 else k);
      if actions[k] == StepPoster(t) {
        OwnStep(states, actions, t, k);
      }
    }
  }

  lemma OwnStep(states: seq<State>, actions: seq<Action>, t: nat, k: nat)
    requires IsRun(states, actions) && k < |actions| && actions[k] == StepPoster(t)
    requires t in states[k].posters && t in states[k + 1].posters
    ensures var p, p' := states[k].posters[t], states[k + 1].posters[t];
      match p
      case Lock(x, b) => p' == Check(x, b)
      case Check(_, _) => true
      case Release(x) => p' == Sleep(x)
      case Sleep(x) => p' == Relock(x)
      case Relock(x) => p' == Check(x, true)
      case Notify => p' == Unlock
      case Unlock => false
  {
    assert Moves(states[k], actions[k], states[k + 1]);
  }

  lemma {:induction false} Posting(states: seq<State>, actions: seq<Action>, t: nat, msg: Message, block: bool, i: nat, k: nat)
    returns (m: nat)
    requires IsRun(states, actions) && i < k <= |actions| && actions[i] == Post(t, msg, block)
    requires forall j :: i < j <= k ==> t in states[j].posters
    ensures InPost(states, actions, t, msg, block, i, k, m)
    decreases k
  {
    hide InPost;
    if i + 1 < k {
      m := Posting(states, actions, t, msg, block, i, k - 1);
      m := PostingStep(states, actions, t, msg, block, i, k - 1, m);
    } else {
      m := 0;
      PostingStarts(states, actions, t, msg, block, i);
    }
  }

  lemma PostingStarts(states: seq<State>, actions: seq<Action>, t: nat, msg: Message, block: bool, i: nat)
    requires IsRun(states, actions) && i < |actions| && actions[i] == Post(t, msg, block)
    ensures t in states[i + 1].posters && InPost(states, actions, t, msg, block, i, i + 1, 0)
  {
    assert Moves(states[i], actions[i], states[i + 1]);
  }

  /** A call of post has posted its message exactly once when it ends.  So has a call of trypost, unless 127 messages
      were pending when it held the mutex; it never sleeps. */
  lemma PostEnds(states: seq<State>, actions: seq<Action>, t: nat, msg: Message, block: bool, i: nat, j: nat)
    returns (m: nat)
    requires IsRun(states, actions) && i < j < |states| && actions[i] == Post(t, msg, block)
    requires t !in states[j].posters && forall k :: i < k < j ==> t in states[k].posters
    ensures !block ==> forall k :: i < k < j ==>
      !states[k].posters[t].Release? && !states[k].posters[t].Sleep? && !states[k].posters[t].Relock?
    ensures Posted(states, actions, t, msg, block, i, j, m)
  {
    hide Moves, Initial, PostedNothing;
    forall k | i < k < j && !block
      ensures !states[k].posters[t].Release? && !states[k].posters[t].Sleep? && !states[k].posters[t].Relock?
    {
      var _ := Posting(states, actions, t, msg, block, i, k);
    }
    PostingStarts(states, actions, t, msg, block, i);
    m := Posting(states, actions, t, msg, block, i, j - 1);
    LeavesUnlocked(states, actions, t, j - 1);
    PostedNothingMore(states, actions, t, i, j - 1, m);
  }

  lemma LeavesUnlocked(states: seq<State>, actions: seq<Action>, t: nat, k: nat)
    requires IsRun(states, actions) && k < |actions| && t in states[k].posters && t !in states[k + 1].posters
    ensures states[k].posters[t] == Unlock && states[k + 1].posted == states[k].posted
  {
    assert Moves(states[k], actions[k], states[k + 1]);
  }

  // --- Signals -------------------------------------------------------------------------------------------------

  /** A poster that is about to signal not_empty has put the only message into the box; the fetcher is about to signal
      not_full only if a poster waits for that. */
  ghost predicate SignalsNeeded(s: State) {
    && (forall t :: t in s.posters && s.posters[t].Notify? ==> s.last == s.first + 1)
    && (s.fetcher.FNotify? ==> s.waitSend > 0)
  }

  lemma SignalsStep(s: State, a: Action)
    requires Inv(s) && Enabled(s, a) && SignalsNeeded(s)
    ensures SignalsNeeded(Apply(s, a))
  {
    hide Slot, Full, Fifo, FetcherWakes, PostersWake;
    FifoSize(s);
    match a
    case Post(t, msg, block) =>
    case StepPoster(t) => PosterSignals(s, t);
    case Fetch(_) =>
    case StepFetcher =>
    case Timeout =>
  }

  lemma FifoSize(s: State)
    requires Fifo(s)
    ensures |s.msgs| == SIZE
  {
  }

  lemma PosterSignals(s: State, t: nat)
    requires Exclusive(s) && |s.msgs| == SIZE && Enabled(s, StepPoster(t)) && SignalsNeeded(s)
    ensures SignalsNeeded(PosterStep(s, t))
  {
    hide Slot, Full;
    var s' := PosterStep(s, t);
    PosterMoves(s, t);
    forall u | u in s'.posters && s'.posters[u].Notify? ensures s'.last == s'.first + 1 {
      if u != t {
        assert u in s'.posters - {t} && (s'.posters - {t})[u] == s'.posters[u];
        assert u in s.posters && s.owner == APoster(u);
      }
    }
  }

  /** In every run, signals are sent only where they are needed. */
  lemma {:induction false} NoIdleSignals(states: seq<State>, actions: seq<Action>, i: nat)
    requires IsRun(states, actions) && i < |states|
    ensures SignalsNeeded(states[i]) && (states[i].fetcher.FNotify? ==> Waiters(states[i].posters) != {})
  {
    RunsKeepInv(states, actions, i);
    if i > 0 {
      NoIdleSignals(states, actions, i - 1);
      RunsKeepInv(states, actions, i - 1);
      assert Moves(states[i - 1], actions[i - 1], states[i]);
      SignalsStep(states[i - 1], actions[i - 1]);
    }
  }
}
