# Shared marker icons of the Android map view manager

This project models the shared-icon cache of `AirMapMarkerManager`, the Android view
manager for map markers, and proves properties of the model. The cache has two parts.

- `AirMapMarkerSharedIcon` is kept once per image URI. It holds:
  - a flag that makes exactly one marker fetch the image (`shouldLoadImage`);
  - a duplicate-free list of weak references to the markers that use the image;
  - the current bitmap descriptor and bitmap. `updateIcon` hands them to every marker
    that is still reachable and drops the unreachable ones in the same pass;
  - a cache of descriptors with a text drawn over the bitmap, keyed by the text, and a
    subscriber list per text.
- The manager's `sharedIcons` map gives the icon for a URI, creating it on the first
  request (`getSharedIcon`).

Files:
- `wrappers.dfy` holds `Option`, which stands for a Java reference that may be null.
- `weak_refs.dfy` (module `WeakRefs`) has the following:
  - markers, as identities;
  - pruning a list down to its live entries (`LiveEntries`);
  - subscribing with de-duplication (`Subscribed`, `AddToList`).
- `deliveries.dfy` (module `Deliveries`) has the following:
  - descriptors and bitmaps, as opaque handles;
  - the log of icon calls made on markers;
  - the fan-out of one icon to a subscriber list (`Fanout`), and the calls a given
    marker received (`DeliveriesTo`).
- `marker_manager.dfy` (module `MarkerManager`) has the following:
  - the two classes, `AirMapMarkerSharedIcon` and the registry `AirMapMarkerManager`;
  - the pass of `updateIcon` over its subscriber list (`NotifyLiveMarkers`);
  - three client sequences over them: taking one icon and subscribing to it (`Attach`),
    and asking twice for one URI or one texted icon (`GetSharedIconTwice`, `GetTextedIconTwice`).

Modelling choices:
- **Markers** are `nat` identities. A list entry stands for a `WeakReference` to that
  marker.
- **Liveness.** Whether a weak reference still resolves is up to the garbage collector. Each
  operation that looks at references takes it as the set `live` of reachable markers.
  `AddMarker` and `AddMarkerWithText` require the marker they are given to be in
  `live`, because the Java caller holds a strong reference to it. `AddToList` itself
  handles any marker.
- **Delivery log.** Each call of `setIconBitmapDescriptor` or
  `setIconBitmapDescriptorWithText` is appended to the ghost log `sent`. This lets the
  contracts say which marker got which value, and how often.
- **Texts** are `Option<string>`, because `markerText` may be null. Java's `HashMap`
  accepts a null key, so the per-text subscriber lists are keyed by `Option<string>`.
  The texted-descriptor cache never stores anything under null.
- **Drawing.** `drawTextOnBitmap` is the function parameter `render` of `GetTextedIcon`.
- **The invariant.** `Valid()` says two things:
  - every subscriber list is duplicate-free;
  - the ghost counter `loadGrants` (how many calls of `ShouldLoadImage` answered true)
    is 1 once `loadImageStarted` is set and 0 before.

  It follows that over any sequence of calls at most one answer is true, and the first call's is.
  The registry `AirMapMarkerManager` has a `Valid()` of its own: every icon it holds is valid, and no two URIs hold the same instance.

Notes on the Java code:
- `shouldLoadImage` is a call of its own; subscribing a marker returns nothing.
- The code keeps texted variants of the icon.
- The constructor does not store the URI.
- `updateIcon` stores its arguments as given, including null. It does not notify, and
  does not prune, the per-text subscriber lists.

## Model

| member | source | states |
|---|---|---|
| MarkerManager.AirMapMarkerSharedIcon.constructor | lib/android/src/main/java/com/airbnb/android/react/maps/AirMapMarkerManager.java:59-64 | A new icon has no descriptor and no bitmap, empty subscriber lists and text maps, no load started and an empty delivery log, and it satisfies the invariant. |
| MarkerManager.AirMapMarkerSharedIcon.ShouldLoadImage | lib/android/src/main/java/com/airbnb/android/react/maps/AirMapMarkerManager.java:67-73 | The call answers true exactly when no load was started. Afterwards the flag is set, and the count of true answers goes up by one only then, so it never exceeds one. Nothing else changes. |
| MarkerManager.AirMapMarkerSharedIcon.AddMarker | lib/android/src/main/java/com/airbnb/android/react/maps/AirMapMarkerManager.java:82-89 | The marker list becomes `Subscribed(old list, m)`, and `m` is in it exactly once. `m` is sent the current descriptor and bitmap once if a descriptor is set, and nothing otherwise. No other marker is sent anything. |
| MarkerManager.AirMapMarkerSharedIcon.AddMarkerWithText | lib/android/src/main/java/com/airbnb/android/react/maps/AirMapMarkerManager.java:97-117 | It does everything `AddMarker` does. In addition, the list for the text becomes `Subscribed` of the old list, or of an empty one if there was none, and `m` is in it exactly once. `m` is then sent the texted descriptor only if one is cached for that text. Other texts' lists do not change. |
| MarkerManager.AirMapMarkerSharedIcon.AddToTextList | lib/android/src/main/java/com/airbnb/android/react/maps/AirMapMarkerManager.java:101-110 | Creates the per-text list when it is missing and subscribes `m` to it with de-duplication. Every other entry of the map is unchanged. |
| MarkerManager.AirMapMarkerSharedIcon.UpdateIcon | lib/android/src/main/java/com/airbnb/android/react/maps/AirMapMarkerManager.java:126-138 | It stores the new descriptor and bitmap. The new list is the live entries of the old list, in order: it keeps exactly the old members that are reachable, and it is shorter exactly when some reference no longer resolves. Each kept marker is sent the new icon exactly once, and no other marker is sent anything. The text cache and the text lists do not change. |
| MarkerManager.NotifyLiveMarkers | lib/android/src/main/java/com/airbnb/android/react/maps/AirMapMarkerManager.java:129-136 | The loop returns `LiveEntries(list, live)`. The calls it records are one call per kept marker, in list order. |
| MarkerManager.AirMapMarkerSharedIcon.GetTextedIcon | lib/android/src/main/java/com/airbnb/android/react/maps/AirMapMarkerManager.java:147-162 | A null text returns the base descriptor. A cached text returns the cached value and changes nothing. With no bitmap yet it returns the base descriptor and caches nothing. Otherwise it caches `render(text, bitmap)` under that text only and returns it. Afterwards a non-null text with a bitmap or a cache entry is cached with the returned value. |
| MarkerManager.GetTextedIconTwice | lib/android/src/main/java/com/airbnb/android/react/maps/AirMapMarkerManager.java:147-162 | Two successive requests for the same text return the same descriptor, and once a descriptor is cached for that text it is the one returned. |
| MarkerManager.AirMapMarkerManager.constructor | lib/android/src/main/java/com/airbnb/android/react/maps/AirMapMarkerManager.java:209 | The registry starts empty and valid. |
| MarkerManager.AirMapMarkerManager.GetSharedIcon | lib/android/src/main/java/com/airbnb/android/react/maps/AirMapMarkerManager.java:217-227 | A null URI gives null and leaves the map unchanged. A known URI gives its stored instance and leaves the map unchanged. An unknown URI gets a fresh, valid, empty icon stored under it, and no other entry changes. The registry stays valid (every icon it holds satisfies the icon invariant), and any icon returned is valid, so a caller may subscribe to it. |
| MarkerManager.GetSharedIconTwice | lib/android/src/main/java/com/airbnb/android/react/maps/AirMapMarkerManager.java:217-227 | Two successive requests for the same URI return the identical, valid instance, which is then stored under that URI; the registry stays valid. |
| MarkerManager.Attach | lib/android/src/main/java/com/airbnb/android/react/maps/AirMapMarkerManager.java:217-227 | A reachable marker takes the shared icon for a URI, asks whether to load it, and subscribes. Afterwards the registry stays valid and holds that icon under the URI: the stored one when the URI was known, a fresh one otherwise; no other icon changes; the answer is true exactly when the URI was new or its icon had not started loading; the icon is then loading and lists the marker exactly once, appended unless it was already listed; the icon's descriptor, bitmap, texted cache and per-text lists are kept; the marker is sent the current icon at once when one is set. |
| WeakRefs.AddToList | lib/android/src/main/java/com/airbnb/android/react/maps/AirMapMarkerManager.java:199-206 | If a live reference to `m` is already in the list, the list is unchanged. Otherwise `m` is appended after the untouched earlier entries. A reference that no longer resolves never matches. |
| WeakRefs.SubscribedOnce | lib/android/src/main/java/com/airbnb/android/react/maps/AirMapMarkerManager.java:199-206 | Subscribing to a duplicate-free list keeps every earlier entry in place, keeps the list duplicate-free and leaves the marker in it exactly once. |
| WeakRefs.NoDupAtMostOnce | lib/android/src/main/java/com/airbnb/android/react/maps/AirMapMarkerManager.java:199-206 | A duplicate-free list holds any marker at most once. |
| WeakRefs.LiveEntriesAppend | lib/android/src/main/java/com/airbnb/android/react/maps/AirMapMarkerManager.java:129-136 | Pruning a concatenation prunes each part and keeps their order. |
| WeakRefs.LiveEntriesMembership | lib/android/src/main/java/com/airbnb/android/react/maps/AirMapMarkerManager.java:129-136 | A marker survives pruning if and only if it was listed and is reachable. |
| WeakRefs.LiveEntriesNoDup | lib/android/src/main/java/com/airbnb/android/react/maps/AirMapMarkerManager.java:129-137 | Pruning a duplicate-free list gives a duplicate-free list. |
| WeakRefs.LiveEntriesLength | lib/android/src/main/java/com/airbnb/android/react/maps/AirMapMarkerManager.java:129-137 | Pruning never lengthens a list. It leaves the list unchanged if and only if every reference resolves, and shortens it if and only if one does not. |
| Deliveries.FanoutAppend | lib/android/src/main/java/com/airbnb/android/react/maps/AirMapMarkerManager.java:130-135 | Fanning out over a concatenation is the two fan-outs in order. |
| Deliveries.DeliveriesToAppend | lib/android/src/main/java/com/airbnb/android/react/maps/AirMapMarkerManager.java:130-135 | The calls a marker gets from two logs in sequence are its calls from each, in order. |
| Deliveries.FanoutReachesEachOnce | lib/android/src/main/java/com/airbnb/android/react/maps/AirMapMarkerManager.java:130-135 | Over a duplicate-free list, each listed marker gets exactly one call with the icon, and an unlisted marker gets none. |
| Deliveries.PrunedFanout | lib/android/src/main/java/com/airbnb/android/react/maps/AirMapMarkerManager.java:126-138 | Fanning out over the live entries of a duplicate-free list reaches exactly the listed, reachable markers, once each. The kept list is duplicate-free and is shorter exactly when a reference died. |

## Left out

- The view-manager boilerplate is left out. It is plain forwarding to the view, float and colour arithmetic, or bridge plumbing:
  - the `@ReactProp` setters, including anchors, pin colour, z-index and opacity;
  - `updateExtraData`;
  - `receiveCommand`, `getCommandsMap` and the exported event constants;
  - `addView`, `removeViewAt`, `createViewInstance`, `createShadowNodeInstance` and `getName`.
- The body of `drawTextOnBitmap` is left out. It is Canvas and Paint rendering, and stands as the function parameter `render`.
- MarkerManager.AirMapMarkerSharedIcon.GetTextedIcon: `render` is a mathematical function, so two drawings of the same text would be equal. In Java each drawing is a new object. The model's idempotence comes from the cache, as in the code, but distinct drawings are not told apart.
- Concurrency is left out, and each operation is one sequential step. This covers four things:
  - the `synchronized` blocks;
  - the unlocked read of the descriptor in `addMarker`;
  - the unlocked reads and writes of the `HashMap` `markersWithText`, and the unlocked read of `iconBitmapDescriptorsWithText`, in `addMarker` with a text;
  - the non-atomic get-then-put on the `ConcurrentHashMap` in `getSharedIcon`.
- Garbage collection is left out. Reachability is the `live` parameter; nothing in the model reclaims a marker.
- Aliasing of the list objects is left out. Lists are values held in fields. The Java per-text list is put into the map empty and then appended to through the same reference; the model stores the final list.
- `updateIcon`'s loop is the separate method `NotifyLiveMarkers`. It records the calls it makes in a ghost sequence that `UpdateIcon` appends to the log, so the order of calls is the same.
- The calls on the marker views (`setIconBitmapDescriptor`, `setIconBitmapDescriptorWithText`) are not modelled beyond being recorded in the log. `AirMapMarker` is not part of this model.
- A null marker is not modelled: callers pass the marker view itself. On null, `addToList` appends a reference that never resolves (or returns early if the list holds a cleared reference), `addMarker` throws once an icon is set, and `addMarker` with a text also throws on a cache hit for that text.
