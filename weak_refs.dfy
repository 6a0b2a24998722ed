/**
  Lists of weak references to marker views.

  A marker is known only by its identity. An entry of a subscriber list stands
  for a `WeakReference` to that marker; whether the reference still resolves is
  decided by the garbage collector, which is outside the model and is given to
  every operation as the set `live` of markers that are still reachable.
 */
module WeakRefs {

  /** A marker view, identified by object identity. */
  type Marker = nat

  /** No marker is referenced twice in the list. */
  predicate NoDup(s: seq<Marker>)
  {
    forall i, j :: 0 <= i < j < |s| ==> s[i] != s[j]
  }

  /** The entries of `s` whose weak reference still resolves, in list order. */
  function LiveEntries(s: seq<Marker>, live: set<Marker>): (r: seq<Marker>)
  {
    if |s| == 0 then []
    else (if s[0] in live then [s[0]] else []) + LiveEntries(s[1..], live)
  }

  /** Pruning a concatenation prunes each part: order is kept and nothing moves across. */
  lemma {:induction false} LiveEntriesAppend(s: seq<Marker>, t: seq<Marker>, live: set<Marker>)
    ensures LiveEntries(s + t, live) == LiveEntries(s, live) + LiveEntries(t, live)
  {
    var u := s + t;
    if |s| == 0 {
      assert u == t;
    } else {
      var head := if s[0] in live then [s[0]] else [];
      assert u[0] == s[0] && u[1..] == s[1..] + t;
      calc {
        LiveEntries(u, live);
        head + LiveEntries(s[1..] + t, live);
        { LiveEntriesAppend(s[1..], t, live); }
        head + (LiveEntries(s[1..], live) + LiveEntries(t, live));
        (head + LiveEntries(s[1..], live)) + LiveEntries(t, live);
        LiveEntries(s, live) + LiveEntries(t, live);
      }
    }
  }

  /** A marker survives pruning exactly when it was listed and is still reachable. */
  lemma {:induction false} LiveEntriesMembership(s: seq<Marker>, live: set<Marker>, m: Marker)
    ensures m in LiveEntries(s, live) <==> m in s && m in live
  {
    if |s| > 0 {
      LiveEntriesMembership(s[1..], live, m);
      assert s == [s[0]] + s[1..];
    }
  }

  /** Pruning never introduces a duplicate. */
  lemma {:induction false} LiveEntriesNoDup(s: seq<Marker>, live: set<Marker>)
    requires NoDup(s)
    ensures NoDup(LiveEntries(s, live))
  {
    if |s| > 0 {
      assert NoDup(s[1..]);
      LiveEntriesNoDup(s[1..], live);
      LiveEntriesMembership(s[1..], live, s[0]);
      assert s[0] !in s[1..];
    }
  }

  /** Pruning keeps the list as it is when every reference resolves, and shortens it otherwise. */
  lemma {:induction false} LiveEntriesLength(s: seq<Marker>, live: set<Marker>)
    ensures |LiveEntries(s, live)| <= |s|
    ensures (forall i :: 0 <= i < |s| ==> s[i] in live) <==> LiveEntries(s, live) == s
    ensures (exists i :: 0 <= i < |s| && s[i] !in live) <==> |LiveEntries(s, live)| < |s|
  {
    if |s| > 0 {
      LiveEntriesLength(s[1..], live);
      if !(forall i :: 0 <= i < |s[1..]| ==> s[1..][i] in live) {
        var i :| 0 <= i < |s[1..]| && s[1..][i] !in live;
        assert s[i + 1] !in live;
      }
    }
  }

  /** A duplicate-free list holds any marker at most once. */
  lemma {:induction false} NoDupAtMostOnce(s: seq<Marker>, m: Marker)
    requires NoDup(s)
    ensures multiset(s)[m] <= 1
  {
    if |s| > 0 {
      assert s == [s[0]] + s[1..];
      assert NoDup(s[1..]);
      NoDupAtMostOnce(s[1..], m);
      if s[0] == m {
        assert m !in s[1..];
      }
    }
  }

  /**
    The list after subscribing a reachable marker `m`: unchanged when `m` is
    already listed, otherwise `m` appended at the end.
   */
  function Subscribed(list: seq<Marker>, m: Marker): (r: seq<Marker>)
  {
    if m in list then list else list + [m]
  }

  /**
    Subscribing keeps every earlier entry in place and leaves `m` listed
    exactly once in a duplicate-free list.
   */
  lemma SubscribedOnce(list: seq<Marker>, m: Marker)
    requires NoDup(list)
    ensures |list| <= |Subscribed(list, m)| && Subscribed(list, m)[..|list|] == list
    ensures NoDup(Subscribed(list, m))
    ensures multiset(Subscribed(list, m))[m] == 1
  {
    NoDupAtMostOnce(list, m);
    if m !in list {
      assert (list + [m])[..|list|] == list;
    }
  }

  /**
    Adds a weak reference to `m` at the end of `list` unless a reference in
    `list` already resolves to `m` (`addToList`). The comparison is by
    identity, so a reference that no longer resolves never matches.
   */
  method AddToList(m: Marker, list: seq<Marker>, live: set<Marker>) returns (r: seq<Marker>)
    ensures m in live && m in list ==> r == list
    ensures !(m in live && m in list) ==> r == list + [m]
    ensures m in live ==> r == Subscribed(list, m)
  {
    var i := 0;
    while i < |list|
      invariant 0 <= i <= |list|
      invariant forall k :: 0 <= k < i ==> !(list[k] in live && list[k] == m)
    {
      if list[i] in live && list[i] == m {
        return list;
      }
      i := i + 1;
    }
    r := list + [m];
  }
}
