/** The routes that the route search returns can carry data: their volume is positive. */
module Volumes {
  import opened Contacts
  import opened Routes

  lemma PositiveFactor(a: real, b: real)
    requires a > 0.0
    ensures a * b > 0.0 <==> b > 0.0
  {
  }

  /** A regular contact with residual volume is open for some time. */
  lemma OpenWindow(c: Contact)
    requires Regular(c) && HasResidualVolume(c)
    ensures c.volume > 0.0 && c.start < c.end
  {
    PositiveFactor(c.rate, c.end - c.start);
  }

  lemma StepIsRegular(s: Search, w: seq<Contact>, i: nat)
    requires RegularPlan(s.plan) && Walk(s, w) && i < |w|
    ensures Regular(w[i]) && HasResidualVolume(w[i]) && Arrival(s.departure, w[..i]) < w[i].end
    ensures Arrival(s.departure, w[..i + 1]) == Arrive(Arrival(s.departure, w[..i]), w[i])
  {
    WalkStep(s, w, i);
    assert w[..i + 1][..i] == w[..i];
  }

  /** A packet sent with the first byte of a route is never later than one that leaves at departure. */
  lemma {:induction false} FirstByteInTime(s: Search, w: seq<Contact>, i: nat)
    requires RegularPlan(s.plan) && Walk(s, w) && i < |w|
    ensures FirstByte(w, i) < w[i].end && FirstByte(w, i) + w[i].owlt <= Arrival(s.departure, w[..i + 1])
  {
    StepIsRegular(s, w, i);
    OpenWindow(w[i]);
    if i > 0 {
      FirstByteInTime(s, w, i - 1);
    }
  }

  /** First bytes leave one hop after the other. */
  lemma {:induction false} FirstBytesAscend(w: seq<Contact>, i: nat, j: nat)
    requires i <= j < |w| && Distinct(w) && forall c :: c in w ==> c.owlt >= 0.0
    ensures FirstByte(w, i) <= FirstByte(w, j)
    decreases j
  {
    if i < j {
      FirstBytesAscend(w, i, j - 1);
      assert w[j] != w[0] && w[j - 1] in w;
    }
  }

  lemma {:induction false} ArrivalsAscend(s: Search, w: seq<Contact>, i: nat)
    requires RegularPlan(s.plan) && Walk(s, w) && i <= |w|
    ensures Arrival(s.departure, w[..i]) <= Arrival(s.departure, w)
  {
    WalkOpen(s, w);
    assert w == w[..i] + w[i..];
    ArrivalAppend(s.departure, w[..i], w[i..]);
    forall c | c in w[i..] ensures c.owlt >= 0.0 {
      assert c in w;
    }
    ArrivalNoEarlier(Arrival(s.departure, w[..i]), w[i..]);
  }

  /** No contact of the route ends before the first byte gets to it, nor to an earlier one. */
  lemma {:induction false} EndsAfterFirstByte(s: Search, w: seq<Contact>, i: nat, j: nat)
    requires RegularPlan(s.plan) && SimpleJourney(s, w) && Distinct(w) && i < |w| && i <= j <= |w|
    ensures FirstByte(w, i) < EarliestEnd(w, i, j)
    decreases j
  {
    WalkOpen(s, w);
    if i == j {
      StepIsRegular(s, w, i);
      FirstByteInTime(s, w, i);
      ArrivalsAscend(s, w, i + 1);
    } else {
      EndsAfterFirstByte(s, w, i, j - 1);
      FirstByteInTime(s, w, j - 1);
      FirstBytesAscend(w, i, j - 1);
    }
  }

  lemma ContactsDistinct(s: Search, w: seq<Contact>)
    requires SimpleJourney(s, w)
    ensures Distinct(w)
  {
    forall i, j | 0 <= i < j < |w| ensures w[i] != w[j] {
      assert Nodes(w)[i] != Nodes(w)[j];
    }
  }

  lemma VolumeWithinPositive(c: Contact, first: real, stop: real)
    requires c.rate > 0.0 && c.volume > 0.0 && first < stop
    ensures VolumeWithin(c, first, stop) > 0.0
  {
    PositiveFactor(c.rate, stop - first);
  }

  lemma EffectiveVolumePositive(s: Search, w: seq<Contact>, i: nat)
    requires RegularPlan(s.plan) && SimpleJourney(s, w) && i < |w|
    ensures EffectiveVolume(w, i) > 0.0
  {
    ContactsDistinct(s, w);
    StepIsRegular(s, w, i);
    OpenWindow(w[i]);
    FirstByteInTime(s, w, i);
    EndsAfterFirstByte(s, w, i, |w|);
    assert IndexOf(w, w[i]) == i;
    hide VolumeWithin, FirstByte, EarliestEnd, SimpleJourney;
    VolumeWithinPositive(w[i], FirstByte(w, i), Min(w[i].end, EarliestEnd(w, i, |w|)));
  }

  lemma {:induction false} LeastVolumePositive(s: Search, w: seq<Contact>, n: nat)
    requires RegularPlan(s.plan) && SimpleJourney(s, w) && n <= |w|
    ensures LeastVolume(w, n) > 0.0
  {
    if n > 0 {
      LeastVolumePositive(s, w, n - 1);
      EffectiveVolumePositive(s, w, n - 1);
    }
  }

  /** Every route that the search returns has positive volume, and delivers no later than its journey. */
  lemma RoutesAreUseful(s: Search, w: seq<Contact>)
    requires RegularPlan(s.plan) && SimpleJourney(s, w) && s.departure >= 0.0
    ensures Volume(w) > 0.0 && BestDelivery(w) <= Arrival(s.departure, w)
  {
    LeastVolumePositive(s, w, |w|);
    ArrivalMonotone(0.0, s.departure, w);
  }
}
