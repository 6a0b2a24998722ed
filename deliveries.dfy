/**
  Icon values and the calls the cache makes on marker views.

  Bitmap descriptors and bitmaps are opaque handles. Every call of
  `setIconBitmapDescriptor` or `setIconBitmapDescriptorWithText` on a marker is
  recorded as a `Delivery`, so that what a marker was sent can be counted.
 */
module Deliveries {
  import opened Wrappers
  import opened WeakRefs

  /** A Google Maps `BitmapDescriptor`, by identity. */
  datatype Descriptor = Descriptor(handle: nat)

  /** An Android `Bitmap`, by identity. */
  datatype Bitmap = Bitmap(handle: nat)

  datatype Delivery =
    /** `marker.setIconBitmapDescriptor(descriptor, bitmap)`; either argument may be null. */
    | IconSet(marker: Marker, descriptor: Option<Descriptor>, bitmap: Option<Bitmap>)
    /** `marker.setIconBitmapDescriptorWithText(descriptor)`. */
    | TextedIconSet(marker: Marker, textedDescriptor: Descriptor)

  /** The calls that notify each of `subs`, in order, of the icon `(d, b)`. */
  function Fanout(subs: seq<Marker>, d: Option<Descriptor>, b: Option<Bitmap>): (r: seq<Delivery>)
  {
    if |subs| == 0 then [] else [IconSet(subs[0], d, b)] + Fanout(subs[1..], d, b)
  }

  /** The calls in `log` made on marker `m`, in order. */
  function DeliveriesTo(log: seq<Delivery>, m: Marker): (r: seq<Delivery>)
  {
    if |log| == 0 then []
    else (if log[0].marker == m then [log[0]] else []) + DeliveriesTo(log[1..], m)
  }

  lemma {:induction false} FanoutAppend(s: seq<Marker>, t: seq<Marker>, d: Option<Descriptor>, b: Option<Bitmap>)
    ensures Fanout(s + t, d, b) == Fanout(s, d, b) + Fanout(t, d, b)
  {
    var u := s + t;
    if |s| == 0 {
      assert u == t;
    } else {
      assert u[0] == s[0] && u[1..] == s[1..] + t;
      FanoutAppend(s[1..], t, d, b);
    }
  }

  lemma {:induction false} DeliveriesToAppend(a: seq<Delivery>, c: seq<Delivery>, m: Marker)
    ensures DeliveriesTo(a + c, m) == DeliveriesTo(a, m) + DeliveriesTo(c, m)
  {
    var u := a + c;
    if |a| == 0 {
      assert u == c;
    } else {
      var head := if a[0].marker == m then [a[0]] else [];
      assert u[0] == a[0] && u[1..] == a[1..] + c;
      calc {
        DeliveriesTo(u, m);
        head + DeliveriesTo(a[1..] + c, m);
        { DeliveriesToAppend(a[1..], c, m); }
        head + (DeliveriesTo(a[1..], m) + DeliveriesTo(c, m));
        (head + DeliveriesTo(a[1..], m)) + DeliveriesTo(c, m);
        DeliveriesTo(a, m) + DeliveriesTo(c, m);
      }
    }
  }

  /**
    A fan-out over a duplicate-free subscriber list sends every subscriber the
    icon exactly once and sends nothing to anybody else.
   */
  lemma {:induction false} FanoutReachesEachOnce(subs: seq<Marker>, d: Option<Descriptor>, b: Option<Bitmap>, m: Marker)
    requires NoDup(subs)
    ensures DeliveriesTo(Fanout(subs, d, b), m) == if m in subs then [IconSet(m, d, b)] else []
  {
    if |subs| > 0 {
      assert NoDup(subs[1..]);
      FanoutReachesEachOnce(subs[1..], d, b, m);
      var f := Fanout(subs, d, b);
      assert f == [IconSet(subs[0], d, b)] + Fanout(subs[1..], d, b);
      assert f[1..] == Fanout(subs[1..], d, b);
      assert subs == [subs[0]] + subs[1..];
      assert subs[0] !in subs[1..];
    }
  }

  /**
    What a pruning fan-out over a duplicate-free list amounts to: the kept list
    is duplicate-free and holds exactly the listed markers that are still
    reachable, it is shorter exactly when some reference no longer resolves,
    and each kept marker is sent the icon once while nobody else is sent anything.
   */
  lemma PrunedFanout(list: seq<Marker>, live: set<Marker>, d: Option<Descriptor>, b: Option<Bitmap>)
    requires NoDup(list)
    ensures NoDup(LiveEntries(list, live))
    ensures forall x :: x in LiveEntries(list, live) <==> x in list && x in live
    ensures (exists i :: 0 <= i < |list| && list[i] !in live) <==> |LiveEntries(list, live)| < |list|
    ensures forall x :: DeliveriesTo(Fanout(LiveEntries(list, live), d, b), x) ==
                          if x in list && x in live then [IconSet(x, d, b)] else []
  {
    LiveEntriesNoDup(list, live);
    LiveEntriesLength(list, live);
    forall x
      ensures x in LiveEntries(list, live) <==> x in list && x in live
      ensures DeliveriesTo(Fanout(LiveEntries(list, live), d, b), x) ==
                if x in list && x in live then [IconSet(x, d, b)] else []
    {
      LiveEntriesMembership(list, live, x);
      FanoutReachesEachOnce(LiveEntries(list, live), d, b, x);
    }
  }
}
