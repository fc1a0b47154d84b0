/** What the walks of a search are, said by timetables: when a packet could leave over each contact. */
module Timetables {
  import opened Contacts
  import opened Volumes

  /** Where a packet is before it takes contact `i`. */
  function NodeBefore(s: Search, w: seq<Contact>, i: nat): int
    requires i < |w|
  {
    if i == 0 then s.root.to else w[i - 1].to
  }

  /** And since when, if it leaves over the contacts at the times `d`. */
  function TimeBefore(s: Search, w: seq<Contact>, d: seq<real>, i: nat): real
    requires i <= |w| == |d|
  {
    if i == 0 then s.departure else d[i - 1] + w[i - 1].owlt
  }

  /** The contacts of `w` may be used, and lead from one node to the next. */
  ghost predicate Connected(s: Search, w: seq<Contact>) {
    && (forall i :: 0 <= i < |w| ==> w[i] in s.plan && w[i] !in s.suppressed && w[i].to !in s.avoid)
    && (forall i :: 0 <= i < |w| ==> w[i].frm == NodeBefore(s, w, i))
    && (w != [] ==> w[0] !in s.blocked)
  }

  /** A packet that is there at the departure of the search leaves over contact `i` at time `d[i]`: while the contact
      is open, and after it has arrived over the one before. */
  ghost predicate Timetable(s: Search, w: seq<Contact>, d: seq<real>) {
    && |d| == |w|
    && (forall i :: 0 <= i < |w| ==> w[i].start <= d[i] < w[i].end)
    && (forall i :: 0 <= i < |w| ==> TimeBefore(s, w, d, i) <= d[i])
  }

  /** Leaving as early as possible. */
  function Earliest(s: Search, w: seq<Contact>): (d: seq<real>)
    ensures |d| == |w|
    ensures forall i :: 0 <= i < |w| ==> d[i] == Max(w[i].start, Arrival(s.departure, w[..i]))
  {
    seq(|w|, i requires 0 <= i < |w| => Max(w[i].start, Arrival(s.departure, w[..i])))
  }

  /** In a regular plan the contacts with residual volume are those that are open for some time. */
  lemma OpenIffVolume(c: Contact)
    requires Regular(c)
    ensures HasResidualVolume(c) <==> c.start < c.end
  {
    PositiveFactor(c.rate, c.end - c.start);
  }

  lemma ArrivalNext(s: Search, w: seq<Contact>, i: nat)
    requires i < |w|
    ensures Arrival(s.departure, w[..i + 1]) == Max(w[i].start, Arrival(s.departure, w[..i])) + w[i].owlt
  {
    assert w[..i + 1] == w[..i] + [w[i]];
    ArrivalSnoc(s.departure, w[..i], w[i]);
  }

  /** No timetable gets a packet anywhere before the arrival time of the search. */
  lemma {:induction false} ArrivalIsLeast(s: Search, w: seq<Contact>, d: seq<real>, n: nat)
    requires Timetable(s, w, d) && n <= |w|
    ensures Arrival(s.departure, w[..n]) <= TimeBefore(s, w, d, n)
    ensures n < |w| ==> Arrival(s.departure, w[..n]) <= d[n]
  {
    assert n < |w| ==> TimeBefore(s, w, d, n) <= d[n];
    if n > 0 {
      ArrivalIsLeast(s, w, d, n - 1);
      ArrivalNext(s, w, n - 1);
    }
  }

  lemma EarliestAt(s: Search, w: seq<Contact>, i: nat)
    requires RegularPlan(s.plan) && Walk(s, w) && i < |w|
    ensures var d := Earliest(s, w); w[i].start <= d[i] < w[i].end && TimeBefore(s, w, d, i) <= d[i]
  {
    hide Arrival, Walk, Regular;
    WalkStep(s, w, i);
    OpenIffVolume(w[i]);
    EarliestBefore(s, w, i);
  }

  lemma EarliestBefore(s: Search, w: seq<Contact>, i: nat)
    requires i <= |w|
    ensures TimeBefore(s, w, Earliest(s, w), i) == Arrival(s.departure, w[..i])
  {
    if i > 0 {
      ArrivalNext(s, w, i - 1);
    }
  }

  /** The earliest timetable of a walk is one, and ends at the arrival time of the search. */
  lemma EarliestIsTimetable(s: Search, w: seq<Contact>)
    requires RegularPlan(s.plan) && Walk(s, w)
    ensures Timetable(s, w, Earliest(s, w)) && TimeBefore(s, w, Earliest(s, w), |w|) == Arrival(s.departure, w)
  {
    hide Arrival, Walk, TimeBefore;
    var d := Earliest(s, w);
    forall i | 0 <= i < |w| ensures w[i].start <= d[i] < w[i].end && TimeBefore(s, w, d, i) <= d[i] {
      EarliestAt(s, w, i);
    }
    EarliestBefore(s, w, |w|);
    assert w[..|w|] == w;
  }

  lemma WalkIsConnected(s: Search, w: seq<Contact>)
    requires Walk(s, w)
    ensures Connected(s, w)
  {
    forall i | 0 <= i < |w|
      ensures w[i] in s.plan && w[i] !in s.suppressed && w[i].to !in s.avoid
      ensures w[i].frm == NodeBefore(s, w, i) && (i == 0 ==> w[i] !in s.blocked)
    {
      WalkStep(s, w, i);
    }
  }

  lemma TimetableExtends(s: Search, w: seq<Contact>, d: seq<real>, n: nat)
    requires RegularPlan(s.plan) && Connected(s, w) && Timetable(s, w, d) && n < |w|
    ensures Extends(s, w[..n], w[n])
  {
    hide Arrival, HasResidualVolume, Regular;
    ArrivalIsLeast(s, w, d, n);
    OpenIffVolume(w[n]);
  }

  lemma {:induction false} TimetableIsWalk(s: Search, w: seq<Contact>, d: seq<real>, n: nat)
    requires RegularPlan(s.plan) && Connected(s, w) && Timetable(s, w, d) && n <= |w|
    ensures Walk(s, w[..n])
  {
    hide Connected, Timetable, Extends, RegularPlan;
    if n > 0 {
      TimetableIsWalk(s, w, d, n - 1);
      TimetableExtends(s, w, d, n - 1);
      WalkSnoc(s, w[..n - 1], w[n - 1]);
      assert w[..n] == w[..n - 1] + [w[n - 1]];
    }
  }

  /** The walks of a search are the connected sequences of usable contacts that have a timetable, and the search
      reckons with the earliest one. */
  lemma WalkIffTimetable(s: Search, w: seq<Contact>)
    requires RegularPlan(s.plan)
    ensures Walk(s, w) <==> Connected(s, w) && exists d :: Timetable(s, w, d)
    ensures Walk(s, w) ==> exists d :: Timetable(s, w, d) && TimeBefore(s, w, d, |w|) == Arrival(s.departure, w)
    ensures forall d :: Timetable(s, w, d) ==> Arrival(s.departure, w) <= TimeBefore(s, w, d, |w|)
  {
    assert w[..|w|] == w;
    if Walk(s, w) {
      WalkIsConnected(s, w);
      EarliestIsTimetable(s, w);
    }
    forall d | Timetable(s, w, d)
      ensures Arrival(s.departure, w) <= TimeBefore(s, w, d, |w|) && (Connected(s, w) ==> Walk(s, w))
    {
      ArrivalIsLeast(s, w, d, |w|);
      if Connected(s, w) {
        TimetableIsWalk(s, w, d, |w|);
      }
    }
  }

  /** A contact is of use to the search exactly if it has volume left for some priority. */
  lemma SomePriority(c: Contact)
    ensures HasResidualVolume(c) <==> c.mav.0 > 0.0 || c.mav.1 > 0.0 || c.mav.2 > 0.0
  {
  }
}
