/**
  The shared-icon cache of the Android marker view manager.

  `AirMapMarkerSharedIcon` holds, for one image URI, the decoded icon, the
  markers waiting for it (as weak references) and the per-text variants of the
  icon; `AirMapMarkerManager` keeps one shared icon per URI. Every operation is
  modelled as a sequential step: the locks of the Java code only serialise them.
 */
module MarkerManager {
  import opened Wrappers
  import opened WeakRefs
  import opened Deliveries

  /** Every per-text subscriber list is duplicate-free. */
  predicate AllNoDup(lists: map<Option<string>, seq<Marker>>)
  {
    forall t :: t in lists ==> NoDup(lists[t])
  }

  /**
    The pass of `updateIcon` over the subscriber list: every marker whose
    reference still resolves is sent `(d, b)` and kept, in order; the others
    are dropped. `calls` records the calls made, in the order they are made.
   */
  method NotifyLiveMarkers(list: seq<Marker>, live: set<Marker>, d: Option<Descriptor>, b: Option<Bitmap>)
    returns (newArray: seq<Marker>, ghost calls: seq<Delivery>)
    ensures newArray == LiveEntries(list, live)
    ensures calls == Fanout(newArray, d, b)
  {
    newArray := [];
    calls := [];
    var i := 0;
    while i < |list|
      invariant 0 <= i <= |list|
      invariant newArray == LiveEntries(list[..i], live)
      invariant calls == Fanout(newArray, d, b)
    {
      var weakMarker := list[i];
      assert list[..i + 1] == list[..i] + [weakMarker];
      LiveEntriesAppend(list[..i], [weakMarker], live);
      FanoutAppend(newArray, [weakMarker], d, b);
      if weakMarker in live {
        calls := calls + [IconSet(weakMarker, d, b)];
        newArray := newArray + [weakMarker];
      }
      i := i + 1;
    }
    assert list[..i] == list;
  }

  class AirMapMarkerSharedIcon {
    /** The bitmap descriptor of the image, null until the first update. */
    var iconBitmapDescriptor: Option<Descriptor>
    /** The bitmap of the image, null until the first update. */
    var bitmap: Option<Bitmap>
    /** The markers that share the image, as weak references. */
    var markers: seq<Marker>
    /** The texted descriptors drawn so far, by marker text. */
    var iconBitmapDescriptorsWithText: map<string, Descriptor>
    /** The markers showing each marker text (the key may be null). */
    var markersWithText: map<Option<string>, seq<Marker>>
    /** Whether some marker has already been told to fetch the image. */
    var loadImageStarted: bool

    /** How many calls of `ShouldLoadImage` have answered true. */
    ghost var loadGrants: nat
    /** Every icon call made on a marker so far, in order. */
    ghost var sent: seq<Delivery>

    ghost predicate Valid()
      reads this
    {
      && NoDup(markers)
      && AllNoDup(markersWithText)
      && loadGrants == (if loadImageStarted then 1 else 0)
    }

    /** The call `addMarker` makes on a new subscriber: the current icon, if there is one. */
    ghost function CurrentIconFor(m: Marker): (r: seq<Delivery>)
      reads this
    {
      if iconBitmapDescriptor.Some? then [IconSet(m, iconBitmapDescriptor, bitmap)] else []
    }

    /** The call `addMarker(marker, text)` makes on top: the texted icon for `text`, if it is cached. */
    ghost function CachedTextedIconFor(m: Marker, text: Option<string>): (r: seq<Delivery>)
      reads this
    {
      if CachedTextedIcon(text).Some? then [TextedIconSet(m, CachedTextedIcon(text).value)] else []
    }

    /** The subscriber list kept for `text`; a missing list reads as empty. */
    ghost function TextSubscribers(text: Option<string>): (r: seq<Marker>)
      reads this
    {
      if text in markersWithText then markersWithText[text] else []
    }

    /** The texted descriptor cached for `text`; a null text is never cached. */
    ghost function CachedTextedIcon(text: Option<string>): (r: Option<Descriptor>)
      reads this
    {
      if text.Some? && text.value in iconBitmapDescriptorsWithText
      then Some(iconBitmapDescriptorsWithText[text.value]) else None
    }

    /** The URI only names the icon; it is not stored. */
    constructor (uri: string)
      ensures Valid()
      ensures iconBitmapDescriptor == None && bitmap == None
      ensures markers == [] && markersWithText == map[] && iconBitmapDescriptorsWithText == map[]
      ensures !loadImageStarted && loadGrants == 0 && sent == []
    {
      markers := [];
      markersWithText := map[];
      iconBitmapDescriptorsWithText := map[];
      loadImageStarted := false;
      iconBitmapDescriptor := None;
      bitmap := None;
      loadGrants := 0;
      sent := [];
    }

    /**
      Answers true to the first caller only, who is then the one to fetch the
      image. `loadGrants` counts the true answers; `Valid` keeps it at most one
      for the whole life of the icon, whatever the sequence of calls.
     */
    method ShouldLoadImage() returns (r: bool)
      requires Valid()
      modifies this`loadImageStarted, this`loadGrants
      ensures Valid()
      ensures r == !old(loadImageStarted)
      ensures loadImageStarted
      ensures loadGrants == old(loadGrants) + (if r then 1 else 0) && loadGrants == 1
    {
      if !loadImageStarted {
        loadImageStarted := true;
        loadGrants := loadGrants + 1;
        return true;
      }
      return false;
    }

    /**
      Subscribes `m` to icon updates and hands it the current icon if one has
      been set. `m` is held by the caller, so its reference resolves.
     */
    method AddMarker(m: Marker, live: set<Marker>)
      requires Valid()
      requires m in live
      modifies this`markers, this`sent
      ensures Valid()
      ensures markers == Subscribed(old(markers), m)
      ensures multiset(markers)[m] == 1
      ensures sent == old(sent) + CurrentIconFor(m)
    {
      SubscribedOnce(markers, m);
      markers := AddToList(m, markers, live);
      if iconBitmapDescriptor.Some? {
        sent := sent + [IconSet(m, iconBitmapDescriptor, bitmap)];
      }
    }

    /**
      Subscribes `m` as `AddMarker` does, and also to the list of markers
      showing `markerText`, handing it the texted icon if that is cached.
     */
    method AddMarkerWithText(m: Marker, markerText: Option<string>, live: set<Marker>)
      requires Valid()
      requires m in live
      modifies this`markers, this`markersWithText, this`sent
      ensures Valid()
      ensures markers == Subscribed(old(markers), m)
      ensures multiset(markers)[m] == 1
      ensures markersWithText == old(markersWithText)[markerText := Subscribed(old(TextSubscribers(markerText)), m)]
      ensures multiset(markersWithText[markerText])[m] == 1
      ensures sent == old(sent) + old(CurrentIconFor(m)) + CachedTextedIconFor(m, markerText)
    {
      ghost var base := CurrentIconFor(m);
      AddMarker(m, live);
      AddToTextList(m, markerText, live);
      ghost var texted := CachedTextedIconFor(m, markerText);
      assert sent == old(sent) + base;
      if markerText.Some? && markerText.value in iconBitmapDescriptorsWithText {
        sent := sent + [TextedIconSet(m, iconBitmapDescriptorsWithText[markerText.value])];
        assert texted == [TextedIconSet(m, iconBitmapDescriptorsWithText[markerText.value])];
      } else {
        assert texted == [] && sent == old(sent) + base + texted;
      }
    }

    /**
      The middle of `addMarker(marker, text)`: subscribes `m` to the list kept
      for `markerText`, creating the list when there is none. (The Java code
      puts a new empty list under the text and then appends to that same list
      object; the map ends up holding the result.)
     */
    method AddToTextList(m: Marker, markerText: Option<string>, live: set<Marker>)
      requires Valid()
      requires m in live
      modifies this`markersWithText
      ensures Valid()
      ensures markersWithText == old(markersWithText)[markerText := Subscribed(old(TextSubscribers(markerText)), m)]
      ensures multiset(markersWithText[markerText])[m] == 1
    {
      var markersWithSameText := if markerText in markersWithText then markersWithText[markerText] else [];
      SubscribedOnce(markersWithSameText, m);
      markersWithSameText := AddToList(m, markersWithSameText, live);
      assert AllNoDup(markersWithText[markerText := markersWithSameText]);
      markersWithText := markersWithText[markerText := markersWithSameText];
    }

    /**
      Stores the fetched icon and hands it to every subscriber whose reference
      still resolves, dropping the others from the list in the same pass.
     */
    method UpdateIcon(bitmapDescriptor: Option<Descriptor>, newBitmap: Option<Bitmap>, live: set<Marker>)
      requires Valid()
      modifies this`iconBitmapDescriptor, this`bitmap, this`markers, this`sent
      ensures Valid()
      ensures iconBitmapDescriptor == bitmapDescriptor && bitmap == newBitmap
      ensures markers == LiveEntries(old(markers), live)
      ensures forall x :: x in markers <==> x in old(markers) && x in live
      ensures (exists i :: 0 <= i < |old(markers)| && old(markers)[i] !in live) <==> |markers| < |old(markers)|
      ensures sent == old(sent) + Fanout(markers, bitmapDescriptor, newBitmap)
      ensures forall x :: DeliveriesTo(sent[|old(sent)|..], x) ==
                          if x in old(markers) && x in live then [IconSet(x, bitmapDescriptor, newBitmap)] else []
    {
      iconBitmapDescriptor := bitmapDescriptor;
      bitmap := newBitmap;
      ghost var calls;
      var newArray;
      newArray, calls := NotifyLiveMarkers(markers, live, bitmapDescriptor, newBitmap);
      PrunedFanout(markers, live, bitmapDescriptor, newBitmap);
      sent := sent + calls;
      markers := newArray;
    }

    /**
      The descriptor to show for `markerText`: the base descriptor for a null
      text or while no bitmap is known, otherwise the texted variant, drawn by
      `render` (`drawTextOnBitmap`) on the first request and cached by text.
     */
    method GetTextedIcon(markerText: Option<string>, render: (string, Bitmap) -> Descriptor)
      returns (r: Option<Descriptor>)
      requires Valid()
      modifies this`iconBitmapDescriptorsWithText
      ensures Valid()
      ensures markerText.None? ==>
        r == iconBitmapDescriptor && iconBitmapDescriptorsWithText == old(iconBitmapDescriptorsWithText)
      ensures old(CachedTextedIcon(markerText)).Some? ==>
        r == old(CachedTextedIcon(markerText)) && iconBitmapDescriptorsWithText == old(iconBitmapDescriptorsWithText)
      ensures markerText.Some? && old(CachedTextedIcon(markerText)).None? && bitmap.None? ==>
        r == iconBitmapDescriptor && iconBitmapDescriptorsWithText == old(iconBitmapDescriptorsWithText)
      ensures markerText.Some? && old(CachedTextedIcon(markerText)).None? && bitmap.Some? ==>
        r == Some(render(markerText.value, bitmap.value)) &&
        iconBitmapDescriptorsWithText == old(iconBitmapDescriptorsWithText)[markerText.value := r.value]
      ensures markerText.Some? && (old(CachedTextedIcon(markerText)).Some? || bitmap.Some?) ==>
        r.Some? && CachedTextedIcon(markerText) == r
    {
      if markerText.None? {
        return iconBitmapDescriptor;
      }
      var text := markerText.value;
      if text in iconBitmapDescriptorsWithText {
        return Some(iconBitmapDescriptorsWithText[text]);
      }
      if bitmap.None? {
        return iconBitmapDescriptor;
      }
      var result := render(text, bitmap.value);
      iconBitmapDescriptorsWithText := iconBitmapDescriptorsWithText[text := result];
      return Some(result);
    }
  }

  /** The registry part of the marker view manager: one shared icon per URI, never evicted. */
  class AirMapMarkerManager {
    var sharedIcons: map<string, AirMapMarkerSharedIcon>

    /** Every icon the registry holds keeps its own invariant, and no two URIs share an instance. */
    ghost predicate Valid()
      reads this, sharedIcons.Values
    {
      && (forall u :: u in sharedIcons ==> sharedIcons[u].Valid())
      && (forall u, v :: u in sharedIcons && v in sharedIcons && u != v ==> sharedIcons[u] != sharedIcons[v])
    }

    constructor ()
      ensures Valid()
      ensures sharedIcons == map[]
    {
      sharedIcons := map[];
    }

    /**
      The shared icon for `uri`, created on the first request: null for a null
      URI, and for any other URI the one instance kept under it.
     */
    method GetSharedIcon(uri: Option<string>) returns (icon: AirMapMarkerSharedIcon?)
      requires Valid()
      modifies this`sharedIcons
      ensures Valid()
      ensures icon != null ==> icon.Valid()
      ensures uri.None? ==> icon == null && sharedIcons == old(sharedIcons)
      ensures uri.Some? && uri.value in old(sharedIcons) ==>
        icon == old(sharedIcons)[uri.value] && sharedIcons == old(sharedIcons)
      ensures uri.Some? && uri.value !in old(sharedIcons) ==>
        && icon != null && fresh(icon)
        && sharedIcons == old(sharedIcons)[uri.value := icon]
        && icon.Valid()
        && icon.iconBitmapDescriptor == None && icon.bitmap == None
        && icon.markers == [] && icon.markersWithText == map[] && icon.iconBitmapDescriptorsWithText == map[]
        && !icon.loadImageStarted && icon.sent == []
      ensures uri.Some? ==> icon != null && uri.value in sharedIcons && sharedIcons[uri.value] == icon
    {
      if uri.None? {
        return null;
      }
      if uri.value in sharedIcons {
        return sharedIcons[uri.value];
      }
      icon := new AirMapMarkerSharedIcon(uri.value);
      sharedIcons := sharedIcons[uri.value := icon];
    }
  }

  /** Two successive requests for the same URI yield the identical instance. */
  method GetSharedIconTwice(manager: AirMapMarkerManager, uri: string)
    returns (first: AirMapMarkerSharedIcon?, second: AirMapMarkerSharedIcon?)
    requires manager.Valid()
    modifies manager`sharedIcons
    ensures manager.Valid()
    ensures first != null && second == first && first.Valid()
    ensures manager.sharedIcons == old(manager.sharedIcons)[uri := first]
  {
    first := manager.GetSharedIcon(Some(uri));
    second := manager.GetSharedIcon(Some(uri));
  }

  /**
    A reachable marker showing the image at `uri`: it takes the shared icon,
    asks whether it should load the image, and subscribes. The registry stays
    valid, only the first asker of each URI is told to load, and the marker is
    listed once.
   */
  method Attach(manager: AirMapMarkerManager, uri: string, m: Marker, live: set<Marker>)
    returns (icon: AirMapMarkerSharedIcon?, shouldLoad: bool)
    requires manager.Valid()
    requires m in live
    modifies manager`sharedIcons, if uri in manager.sharedIcons then {manager.sharedIcons[uri]} else {}
    ensures manager.Valid()
    ensures icon != null && icon.Valid()
    ensures manager.sharedIcons == old(manager.sharedIcons)[uri := icon]
    ensures uri in old(manager.sharedIcons) ==> icon == old(manager.sharedIcons[uri])
    ensures uri !in old(manager.sharedIcons) ==> fresh(icon)
    ensures icon.iconBitmapDescriptor == (if uri in old(manager.sharedIcons) then old(manager.sharedIcons[uri].iconBitmapDescriptor) else None)
    ensures icon.bitmap == (if uri in old(manager.sharedIcons) then old(manager.sharedIcons[uri].bitmap) else None)
    ensures icon.iconBitmapDescriptorsWithText == (if uri in old(manager.sharedIcons) then old(manager.sharedIcons[uri].iconBitmapDescriptorsWithText) else map[])
    ensures icon.markersWithText == (if uri in old(manager.sharedIcons) then old(manager.sharedIcons[uri].markersWithText) else map[])
    ensures icon.sent == (if uri in old(manager.sharedIcons) then old(manager.sharedIcons[uri].sent) else []) + icon.CurrentIconFor(m)
    ensures shouldLoad <==> (uri !in old(manager.sharedIcons) || !old(manager.sharedIcons[uri].loadImageStarted))
    ensures icon.loadImageStarted
    ensures icon.markers == Subscribed(if uri in old(manager.sharedIcons) then old(manager.sharedIcons[uri].markers) else [], m)
    ensures multiset(icon.markers)[m] == 1
  {
    icon := manager.GetSharedIcon(Some(uri));
    shouldLoad := icon.ShouldLoadImage();
    icon.AddMarker(m, live);
  }

  /** A texted icon, once drawn, is served from the cache: asking again returns the same descriptor. */
  method GetTextedIconTwice(icon: AirMapMarkerSharedIcon, markerText: string, render: (string, Bitmap) -> Descriptor)
    returns (first: Option<Descriptor>, second: Option<Descriptor>)
    requires icon.Valid()
    modifies icon`iconBitmapDescriptorsWithText
    ensures icon.Valid()
    ensures second == first
    ensures icon.CachedTextedIcon(Some(markerText)).Some? ==> icon.CachedTextedIcon(Some(markerText)) == first
  {
    first := icon.GetTextedIcon(Some(markerText), render);
    second := icon.GetTextedIcon(Some(markerText), render);
  }
}
