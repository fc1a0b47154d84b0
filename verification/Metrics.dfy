/** What the metrics of a route measure. */
module Metrics {
  import opened Contacts
  import opened Routes

  /** A route lasts until the first of its contacts ends. */
  lemma {:induction false} ToTimeIsLeast(hops: seq<Contact>)
    ensures ToTime(hops) <= MAX_TIME && forall c :: c in hops ==> ToTime(hops) <= c.end
    ensures ToTime(hops) == MAX_TIME || exists c :: c in hops && ToTime(hops) == c.end
    decreases |hops|
  {
    if hops != [] {
      var n := |hops| - 1;
      ToTimeIsLeast(hops[..n]);
      assert hops == hops[..n] + [hops[n]];
    }
  }

  /** Confidence is lost hop by hop, whatever their order. */
  lemma {:induction false} ConfidenceMultiplies(a: seq<Contact>, b: seq<Contact>, c: Contact)
    ensures Confidence(a + b) == Confidence(a) * Confidence(b) && Confidence([c]) == c.confidence
    decreases |b|
  {
    assert [c][..0] == [];
    if b == [] {
      assert a + b == a;
    } else {
      var n := |b| - 1;
      ConfidenceMultiplies(a, b[..n], c);
      assert (a + b)[..|a + b| - 1] == a + b[..n];
    }
  }

  lemma {:induction false} EarliestEndIsLeast(hops: seq<Contact>, i: nat, j: nat) returns (k: nat)
    requires i <= j <= |hops|
    ensures EarliestEnd(hops, i, j) <= MAX_TIME && forall m :: i <= m < j ==> EarliestEnd(hops, i, j) <= hops[m].end
    ensures EarliestEnd(hops, i, j) == MAX_TIME || (i <= k < j && EarliestEnd(hops, i, j) == hops[k].end)
    decreases j
  {
    k := i;
    if i < j {
      k := EarliestEndIsLeast(hops, i, j - 1);
      if hops[j - 1].end < EarliestEnd(hops, i, j - 1) {
        k := j - 1;
      }
    }
  }

  /** What hop `i` could carry if the route were cut off at time `end`. */
  function Until(hops: seq<Contact>, i: nat, end: real): real
    requires i < |hops|
  {
    (end - FirstByte(hops, i)) * hops[i].rate
  }

  lemma UntilMonotone(hops: seq<Contact>, i: nat, a: real, b: real)
    requires i < |hops| && hops[i].rate > 0.0 && a <= b
    ensures Until(hops, i, a) <= Until(hops, i, b)
  {
    hide FirstByte;
    var f, r := FirstByte(hops, i), hops[i].rate;
    assert (b - f) * r - (a - f) * r == (b - a) * r;
  }

  /** The volume of a hop is what fits between its first byte and the end of it or of any later hop, and no more than
      the volume of the contact. */
  lemma HopVolume(hops: seq<Contact>, i: nat) returns (k: nat)
    requires Distinct(hops) && i < |hops| && hops[i].rate > 0.0
    ensures EffectiveVolume(hops, i) <= hops[i].volume
    ensures forall m :: i <= m < |hops| ==> EffectiveVolume(hops, i) <= Until(hops, i, hops[m].end)
    ensures || EffectiveVolume(hops, i) == hops[i].volume || EffectiveVolume(hops, i) == Until(hops, i, MAX_TIME)
            || (i <= k < |hops| && EffectiveVolume(hops, i) == Until(hops, i, hops[k].end))
  {
    hide FirstByte, EarliestEnd;
    assert IndexOf(hops, hops[i]) == i;
    k := EarliestEndIsLeast(hops, i, |hops|);
    var stop := EarliestEnd(hops, i, |hops|);
    assert Min(hops[i].end, stop) == stop;
    assert EffectiveVolume(hops, i) == Min(Until(hops, i, stop), hops[i].volume);
    forall m | i <= m < |hops| ensures Until(hops, i, stop) <= Until(hops, i, hops[m].end) {
      UntilMonotone(hops, i, stop, hops[m].end);
    }
  }

  lemma {:induction false} LeastVolumeIs(hops: seq<Contact>, n: nat) returns (i: nat)
    requires n <= |hops|
    ensures LeastVolume(hops, n) <= MAX_TIME && forall m :: 0 <= m < n ==> LeastVolume(hops, n) <= EffectiveVolume(hops, m)
    ensures LeastVolume(hops, n) == MAX_TIME || (i < n && LeastVolume(hops, n) == EffectiveVolume(hops, i))
  {
    hide EffectiveVolume;
    i := 0;
    if n > 0 {
      i := LeastVolumeIs(hops, n - 1);
      if EffectiveVolume(hops, n - 1) < LeastVolume(hops, n - 1) {
        i := n - 1;
      }
    }
  }

  /** The volume of a route is the most that every hop can carry: no more than its contact holds, nor than fits between
      its first byte and the end of it or of any later hop; and one of these bounds is met. */
  lemma VolumeIsLeast(hops: seq<Contact>) returns (i: nat, k: nat)
    requires Distinct(hops) && forall c :: c in hops ==> c.rate > 0.0
    ensures forall m :: 0 <= m < |hops| ==> Volume(hops) <= hops[m].volume
    ensures forall m, n :: 0 <= m <= n < |hops| ==> Volume(hops) <= Until(hops, m, hops[n].end)
    ensures Volume(hops) == MAX_TIME || (i < |hops| &&
      (|| Volume(hops) == hops[i].volume || Volume(hops) == Until(hops, i, MAX_TIME)
       || (i <= k < |hops| && Volume(hops) == Until(hops, i, hops[k].end))))
  {
    hide EffectiveVolume, Until, LeastVolume;
    i := LeastVolumeIs(hops, |hops|);
    k := 0;
    forall m | 0 <= m < |hops| ensures Volume(hops) <= hops[m].volume {
      assert hops[m] in hops;
      var _ := HopVolume(hops, m);
    }
    forall m, n | 0 <= m <= n < |hops| ensures Volume(hops) <= Until(hops, m, hops[n].end) {
      assert hops[m] in hops;
      var _ := HopVolume(hops, m);
    }
    if i < |hops| {
      assert hops[i] in hops;
      k := HopVolume(hops, i);
    }
  }

  /** A route takes one more contact exactly if that leads to a node which none of its hops touches, and ends after the
      last hop could have been taken at its start. */
  lemma EligibleIff(r: Route, c: Contact)
    requires r.hops != [] && r.visited == Touched(r.hops)
    ensures r.Eligible(c) <==>
      && (forall i :: 0 <= i < |r.hops| ==> r.hops[i].frm != c.to && r.hops[i].to != c.to)
      && c.end > r.hops[|r.hops| - 1].start + r.hops[|r.hops| - 1].owlt
  {
    TouchedIff(r.hops, c.to);
  }

  lemma {:induction false} TouchedIff(hops: seq<Contact>, n: int)
    ensures n in Touched(hops) <==> exists i :: 0 <= i < |hops| && (hops[i].frm == n || hops[i].to == n)
    decreases |hops|
  {
    if hops != [] {
      var m := |hops| - 1;
      TouchedIff(hops[..m], n);
      if i :| 0 <= i < |hops| && (hops[i].frm == n || hops[i].to == n) {
        assert i < m ==> hops[..m][i] == hops[i];
      }
    }
  }
}
