/**
 The bounded file-icon cache: three pinned icons, an LRU over extensions, and a
 prewarm batch that other threads may interrupt by clearing the cache.
 */
module IconCache {
  import opened Common

  const ICON_CACHE_CAPACITY: nat := 128
  const PREWARM_KEY_LIMIT: nat := 64
  const IDENTITY_CHARACTER_LIMIT: nat := 96
  /** How many extensions fit beside the pinned icons. */
  const EXTENSION_CAPACITY: nat := 125

  datatype FileIconKey = Folder | Symlink | GenericFile | Extension(name: string) {
    predicate IsPinned() {
      !Extension?
    }
  }

  datatype FileIcon = FileIcon(width: nat, height: nat, rgba: seq<byte>)

  datatype FallbackIcons = FallbackIcons(folder: FileIcon, symlink: FileIcon, generic: FileIcon) {
    function ForKey(key: FileIconKey): FileIcon {
      match key
      case Folder => folder
      case Symlink => symlink
      case _ => generic
    }
  }

  const PINNED: set<FileIconKey> := {Folder, Symlink, GenericFile}

  // ----- Last-touch order -----

  /** The distinct keys of a history of touches, least recently touched first. */
  function LastTouch(touches: seq<FileIconKey>): (r: seq<FileIconKey>)
    ensures forall x :: x in r <==> x in touches
  {
    if touches == [] then []
    else
      var last := touches[|touches| - 1];
      Without(LastTouch(touches[..|touches| - 1]), last) + [last]
  }

  function LastN<T>(s: seq<T>, n: nat): seq<T> {
    if |s| <= n then s else s[|s| - n..]
  }

  lemma {:induction false} LastTouchIsDistinct(touches: seq<FileIconKey>)
    ensures Distinct(LastTouch(touches))
  {
    if touches != [] {
      var last := touches[|touches| - 1];
      var before := LastTouch(touches[..|touches| - 1]);
      LastTouchIsDistinct(touches[..|touches| - 1]);
      WithoutKeepsDistinct(before, last);
      var w := Without(before, last);
      forall k | 0 <= k < |w| ensures w[k] != last {
        assert w[k] in w;
      }
    }
  }

  lemma LastNOfSuffix(head: seq<FileIconKey>, tail: seq<FileIconKey>, n: nat)
    requires |tail| == n || (head == [] && |tail| <= n)
    ensures LastN(head + tail, n) == tail
  {
  }

  lemma WindowHit(head: seq<FileIconKey>, w: seq<FileIconKey>, key: FileIconKey, n: nat)
    requires |w| == n || (head == [] && |w| <= n)
    requires key in w && key !in head && |Without(w, key)| == |w| - 1
    ensures LastN(Without(head + w, key) + [key], n) == Without(w, key) + [key]
  {
    WithoutAppend(head, w, key);
    WithoutAbsent(head, key);
    Associative(head, Without(w, key), [key]);
    LastNOfSuffix(head, Without(w, key) + [key], n);
  }

  lemma WindowMiss(head: seq<FileIconKey>, w: seq<FileIconKey>, key: FileIconKey, n: nat)
    requires n > 0 && (|w| == n || (head == [] && |w| <= n))
    requires key !in w
    ensures LastN(Without(head + w, key) + [key], n) == if |w| == n then w[1..] + [key] else w + [key]
  {
    WithoutAppend(head, w, key);
    WithoutAbsent(w, key);
    var rest := Without(head, key);
    Associative(rest, w, [key]);
    if |w| == n {
      Associative(rest, [w[0]], w[1..] + [key]);
      assert [w[0]] + (w[1..] + [key]) == w + [key];
      LastNOfSuffix(rest + [w[0]], w[1..] + [key], n);
    } else {
      LastNOfSuffix(rest, w + [key], n);
    }
  }

  lemma NotBefore(head: seq<FileIconKey>, w: seq<FileIconKey>, key: FileIconKey)
    requires Distinct(head + w) && key in w
    ensures key !in head && Distinct(w)
  {
    var d := head + w;
    var j :| 0 <= j < |w| && w[j] == key;
    assert d[|head| + j] == key;
    assert forall i :: 0 <= i < |head| ==> d[i] == head[i];
    assert forall i :: 0 <= i < |w| ==> d[|head| + i] == w[i];
  }

  /** The window after one more touch, from the whole order before it. */
  lemma WindowOf(d: seq<FileIconKey>, key: FileIconKey, n: nat)
    requires n > 0 && Distinct(d)
    ensures LastN(Without(d, key) + [key], n)
            == var w := LastN(d, n);
               if key in w then Without(w, key) + [key] else if |w| == n then w[1..] + [key] else w + [key]
  {
    var w := LastN(d, n);
    var head := d[..|d| - |w|];
    assert d == head + w;
    hide LastN, Without;
    if key in w {
      NotBefore(head, w, key);
      WithoutKeepsDistinct(w, key);
      WindowHit(head, w, key, n);
    } else {
      WindowMiss(head, w, key, n);
    }
  }

  /** Touching a key of the window moves it to its end; a new key pushes out the oldest. */
  lemma WindowAfterTouch(touches: seq<FileIconKey>, key: FileIconKey, n: nat)
    requires n > 0
    ensures var w := LastN(LastTouch(touches), n);
      && Distinct(w)
      && LastN(LastTouch(touches + [key]), n)
         == if key in w then Without(w, key) + [key] else if |w| == n then w[1..] + [key] else w + [key]
  {
    assert (touches + [key])[..|touches|] == touches;
    LastTouchIsDistinct(touches);
    WindowOf(LastTouch(touches), key, n);
  }

  predicate LastTouchAt(touches: seq<FileIconKey>, key: FileIconKey, j: nat) {
    j < |touches| && touches[j] == key && key !in touches[j + 1..]
  }

  function Touched(touches: seq<FileIconKey>): set<FileIconKey> {
    set x | x in touches
  }

  lemma {:induction false} DistinctCount(s: seq<FileIconKey>)
    requires Distinct(s)
    ensures |Touched(s)| == |s|
  {
    if s != [] {
      DistinctCount(s[1..]);
      assert Touched(s) == {s[0]} + Touched(s[1..]);
    }
  }

  /** A key's place from the end of the order is the number of keys touched after it. */
  lemma {:induction false} PlaceInLastTouch(touches: seq<FileIconKey>, key: FileIconKey, j: nat)
    returns (before: seq<FileIconKey>)
    requires LastTouchAt(touches, key, j)
    ensures LastTouch(touches) == before + [key] + LastTouch(touches[j + 1..])
  {
    var n := |touches|;
    if j == n - 1 {
      before := Without(LastTouch(touches[..n - 1]), key);
      assert touches[j + 1..] == [];
    } else {
      var last := touches[n - 1];
      var after := touches[j + 1..];
      assert last == after[|after| - 1] && last != key;
      assert touches[..n - 1][j + 1..] == after[..|after| - 1];
      var b := PlaceInLastTouch(touches[..n - 1], key, j);
      before := Without(b, last);
      var rest := LastTouch(after[..|after| - 1]);
      WithoutAppend(b + [key], rest, last);
      WithoutAppend(b, [key], last);
      assert Without([key], last) == [key];
      Associative(before + [key], Without(rest, last), [last]);
    }
  }

  /**
   The retention rule: a touched key is in the window of `n` exactly when fewer than
   `n` other keys have been touched since its last touch.
   */
  lemma KeptIffFewTouchedSince(touches: seq<FileIconKey>, key: FileIconKey, j: nat, n: nat)
    requires LastTouchAt(touches, key, j)
    ensures key in LastN(LastTouch(touches), n) <==> |Touched(touches[j + 1..])| < n
  {
    var before := PlaceInLastTouch(touches, key, j);
    var after := touches[j + 1..];
    var d, later := LastTouch(touches), LastTouch(after);
    LastTouchIsDistinct(after);
    LastTouchIsDistinct(touches);
    DistinctCount(later);
    assert Touched(later) == Touched(after);
    assert d[|before|] == key;
    var w := LastN(d, n);
    if |later| < n {
      assert w[|w| - |later| - 1] == key;
    } else {
      assert w == later[|later| - n..];
      assert key !in later;
    }
  }

  // ----- The cache -----

  /** The cached extensions are the most recently touched ones, beside the pinned keys. */
  ghost predicate Consistent(icons: map<FileIconKey, FileIcon>, attempted: set<FileIconKey>, lru: seq<FileIconKey>,
                             touches: seq<FileIconKey>) {
    && (forall t :: t in touches ==> !t.IsPinned())
    && (forall k :: k in lru ==> !k.IsPinned())
    && lru == LastN(LastTouch(touches), EXTENSION_CAPACITY)
    && (forall k :: k in icons <==> k.IsPinned() || k in lru)
    && |icons| == 3 + |lru|
    && (forall k :: k in attempted ==> k in icons)
    && (forall k :: k in lru ==> k in attempted)
  }

  lemma StorePinned(icons: map<FileIconKey, FileIcon>, attempted: set<FileIconKey>, lru: seq<FileIconKey>,
                    touches: seq<FileIconKey>,
                    key: FileIconKey, icon: FileIcon)
    requires Consistent(icons, attempted, lru, touches) && key.IsPinned()
    ensures Consistent(icons[key := icon], attempted + {key}, lru, touches)
  {
    hide LastN, LastTouch;
  }

  lemma StoreFits(icons: map<FileIconKey, FileIcon>, attempted: set<FileIconKey>, lru: seq<FileIconKey>,
                  touches: seq<FileIconKey>,
                  key: FileIconKey, icon: FileIcon)
    requires Consistent(icons, attempted, lru, touches) && !key.IsPinned()
    requires key in icons || |icons| < ICON_CACHE_CAPACITY
    ensures Consistent(icons[key := icon], attempted + {key}, Without(lru, key) + [key], touches + [key])
  {
    hide LastN, LastTouch;
    StoredWindow(touches, key, lru);
  }

  lemma StoreEvicting(icons: map<FileIconKey, FileIcon>, attempted: set<FileIconKey>, lru: seq<FileIconKey>,
                      touches: seq<FileIconKey>,
                      key: FileIconKey, icon: FileIcon)
    requires Consistent(icons, attempted, lru, touches) && !key.IsPinned()
    requires key !in icons && |icons| == ICON_CACHE_CAPACITY
    ensures Consistent((icons - {lru[0]})[key := icon], attempted - {lru[0]} + {key}, Without(lru[1..], key) + [key],
                       touches + [key])
  {
    hide LastN, LastTouch, Without, Distinct;
    var victim := lru[0];
    StoredWindow(touches, key, lru[1..]);
    assert victim in lru && victim in icons && victim !in lru[1..];
    assert forall k :: k in lru <==> k == victim || k in lru[1..];
    var left := icons - {victim};
    assert left.Keys == icons.Keys - {victim};
    assert |left| == |left.Keys| == |icons.Keys| - 1;
    var after := Without(lru[1..], key) + [key];
    assert forall k :: k in after <==> k == key || k in lru[1..];
    assert |after| == |lru|;
    assert |left[key := icon]| == |left| + 1;
  }

  /** Room was made for `key`: the least recent extension is given up if the cache is full and the key new. */
  ghost predicate MadeRoom(key: FileIconKey, icons: map<FileIconKey, FileIcon>, attempted: set<FileIconKey>,
                           lru: seq<FileIconKey>,
                           icons': map<FileIconKey, FileIcon>, attempted': set<FileIconKey>, lru': seq<FileIconKey>) {
    if key in icons || |icons| < ICON_CACHE_CAPACITY then icons' == icons && attempted' == attempted && lru' == lru
    else
      && lru != [] && !lru[0].IsPinned() && lru' == lru[1..]
      && icons' == icons - {lru[0]} && attempted' == attempted - {lru[0]} && |icons'| == ICON_CACHE_CAPACITY - 1
  }

  lemma StoreInRoom(key: FileIconKey, icon: FileIcon, icons: map<FileIconKey, FileIcon>, attempted: set<FileIconKey>,
                    lru: seq<FileIconKey>, icons': map<FileIconKey, FileIcon>, attempted': set<FileIconKey>,
                    lru': seq<FileIconKey>,
                    touches: seq<FileIconKey>)
    requires Consistent(icons, attempted, lru, touches)
             && MadeRoom(key, icons, attempted, lru, icons', attempted', lru')
    ensures if key.IsPinned() then Consistent(icons'[key := icon], attempted' + {key}, lru', touches)
      else Consistent(icons'[key := icon], attempted' + {key}, Without(lru', key) + [key], touches + [key])
  {
    if key.IsPinned() {
      StorePinned(icons, attempted, lru, touches, key, icon);
    } else if key in icons || |icons| < ICON_CACHE_CAPACITY {
      StoreFits(icons, attempted, lru, touches, key, icon);
    } else {
      StoreEvicting(icons, attempted, lru, touches, key, icon);
    }
  }

  lemma RoomKeepsTheRest(key: FileIconKey, icon: FileIcon, icons: map<FileIconKey, FileIcon>,
                         attempted: set<FileIconKey>,
                         lru: seq<FileIconKey>, icons': map<FileIconKey, FileIcon>, attempted': set<FileIconKey>,
                         lru': seq<FileIconKey>)
    requires MadeRoom(key, icons, attempted, lru, icons', attempted', lru')
    ensures forall k :: k in icons'[key := icon] && k != key ==> k in icons && icons'[key := icon][k] == icons[k]
    ensures forall k: FileIconKey :: k.IsPinned() ==> (k in attempted' + {key} <==> k in attempted || k == key)
    ensures key in icons || |icons| < ICON_CACHE_CAPACITY ==> icons.Keys <= icons'[key := icon].Keys
  {
  }

  class IconCache {
    var identity: string
    var icons: map<FileIconKey, FileIcon>
    var attempted: set<FileIconKey>
    var extensionLru: seq<FileIconKey>
    /** Every extension touched since the last reset. */
    ghost var touches: seq<FileIconKey>

    ghost predicate Valid()
      reads this
    {
      Consistent(icons, attempted, extensionLru, touches)
    }

    /**
     What every reachable cache satisfies: the pinned icons are there, it never holds
     more than 128, its LRU is the cached extensions in last-touch order, and a touched
     extension is still cached exactly when fewer than 125 others were touched since.
     */
    lemma Retention(key: FileIconKey, j: nat)
      requires Valid()
      ensures PINNED <= icons.Keys && |icons| <= ICON_CACHE_CAPACITY
      ensures Distinct(extensionLru) && (forall k :: k in extensionLru <==> k in icons && !k.IsPinned())
      ensures LastTouchAt(touches, key, j) ==> (key in icons <==> |Touched(touches[j + 1..])| < EXTENSION_CAPACITY)
    {
      LastTouchIsDistinct(touches);
      if LastTouchAt(touches, key, j) {
        KeptIffFewTouchedSince(touches, key, j, EXTENSION_CAPACITY);
      }
    }

    /** An extension is cached, and remembered as attempted, exactly while it is in the window. */
    lemma Window(key: FileIconKey)
      requires Valid() && !key.IsPinned()
      ensures key in icons <==> InWindow(touches, key)
      ensures key in attempted <==> InWindow(touches, key)
    {
    }

    lemma Bounded()
      requires Valid()
      ensures |icons| <= ICON_CACHE_CAPACITY
    {
    }

    constructor (identity: string, fallbacks: FallbackIcons)
      ensures Valid() && this.identity == identity
      ensures icons == map[Folder := fallbacks.folder, Symlink := fallbacks.symlink, GenericFile := fallbacks.generic]
      ensures attempted == {} && touches == []
    {
      this.identity := identity;
      icons := map[Folder := fallbacks.folder, Symlink := fallbacks.symlink, GenericFile := fallbacks.generic];
      attempted, extensionLru, touches := {}, [], [];
    }

    /** Overwrite the whole cache with a new, empty one. */
    method Reset(identity: string, fallbacks: FallbackIcons)
      modifies this
      ensures Valid() && this.identity == identity
      ensures icons == map[Folder := fallbacks.folder, Symlink := fallbacks.symlink, GenericFile := fallbacks.generic]
      ensures attempted == {} && touches == []
    {
      this.identity := identity;
      icons := map[Folder := fallbacks.folder, Symlink := fallbacks.symlink, GenericFile := fallbacks.generic];
      attempted, extensionLru, touches := {}, [], [];
    }

    /** Move a cached extension to the recent end, or add a new one there. */
    method Touch(key: FileIconKey)
      modifies this`extensionLru
      ensures extensionLru == if key.IsPinned() then old(extensionLru) else Without(old(extensionLru), key) + [key]
    {
      if key.IsPinned() {
        return;
      }
      extensionLru := Without(extensionLru, key) + [key];
    }

    method Icon(key: FileIconKey) returns (icon: Option<FileIcon>)
      requires Valid()
      modifies this`extensionLru, this`touches
      ensures Valid()
      ensures icon == if key in icons then Some(icons[key]) else None
      ensures touches == if key in icons && !key.IsPinned() then old(touches) + [key] else old(touches)
    {
      if key !in icons {
        return None;
      }
      TouchKeepsCount(key);
      Touch(key);
      if !key.IsPinned() {
        touches := touches + [key];
      }
      return Some(icons[key]);
    }

    lemma TouchKeepsCount(key: FileIconKey)
      requires Valid()
      ensures key in extensionLru ==>
        LastN(LastTouch(touches + [key]), EXTENSION_CAPACITY) == Without(extensionLru, key) + [key]
        && |Without(extensionLru, key)| == |extensionLru| - 1
    {
      WindowAfterTouch(touches, key, EXTENSION_CAPACITY);
      LastTouchIsDistinct(touches);
      assert Distinct(extensionLru);
      WithoutKeepsDistinct(extensionLru, key);
    }

    method WasAttempted(key: FileIconKey) returns (yes: bool)
      requires Valid()
      modifies this`extensionLru, this`touches
      ensures Valid()
      ensures yes <==> key in attempted
      ensures touches == if yes && !key.IsPinned() then old(touches) + [key] else old(touches)
    {
      yes := key in attempted;
      if yes {
        TouchKeepsCount(key);
        Touch(key);
        if !key.IsPinned() {
          touches := touches + [key];
        }
      }
    }

    /** Give up least recent extensions until a new key fits. */
    method MakeRoom(key: FileIconKey)
      requires Valid()
      modifies this`icons, this`attempted, this`extensionLru
      ensures MadeRoom(key, old(icons), old(attempted), old(extensionLru), icons, attempted, extensionLru)
    {
      if key in icons {
        return;
      }
      while |icons| >= ICON_CACHE_CAPACITY
        invariant |icons| == 3 + |extensionLru|
        invariant |icons| == |old(icons)| ==> unchanged(this)
        invariant |icons| != |old(icons)| ==>
          && |old(icons)| == ICON_CACHE_CAPACITY && |icons| == ICON_CACHE_CAPACITY - 1
          && extensionLru == old(extensionLru)[1..]
          && icons == old(icons) - {old(extensionLru)[0]} && attempted == old(attempted) - {old(extensionLru)[0]}
        decreases |icons|
      {
        // There is always an extension to give up, so a store is never abandoned.
        assert extensionLru != [] && !extensionLru[0].IsPinned();
        var evicted := extensionLru[0];
        assert evicted in icons;
        extensionLru := extensionLru[1..];
        icons := icons - {evicted};
        attempted := attempted - {evicted};
      }
    }

    /** Store what was resolved, or the fallback, evicting the least recent extension if full. */
    method Store(key: FileIconKey, resolved: Option<FileIcon>, fallbacks: FallbackIcons)
      requires Valid()
      modifies this`icons, this`attempted, this`extensionLru, this`touches
      ensures Valid()
      ensures key in icons && key in attempted
      ensures icons[key] == if resolved.Some? then resolved.value else fallbacks.ForKey(key)
      ensures touches == if key.IsPinned() then old(touches) else old(touches) + [key]
      ensures forall k :: k in icons && k != key ==> k in old(icons) && icons[k] == old(icons)[k]
      ensures forall k: FileIconKey :: k.IsPinned() ==> (k in attempted <==> k in old(attempted) || k == key)
      // The cache only gives something up when it is full and the key is new.
      ensures key in old(icons) || |old(icons)| < ICON_CACHE_CAPACITY ==> old(icons).Keys <= icons.Keys
    {
      hide Consistent, MadeRoom, FileIconKey.IsPinned, Without;
      MakeRoom(key);
      var icon := if resolved.Some? then resolved.value else fallbacks.ForKey(key);
      StoreInRoom(key, icon, old(icons), old(attempted), old(extensionLru), icons, attempted, extensionLru, touches);
      RoomKeepsTheRest(key, icon, old(icons), old(attempted), old(extensionLru), icons, attempted, extensionLru);
      Insert(key, icon);
    }

    method Insert(key: FileIconKey, icon: FileIcon)
      modifies this`icons, this`attempted, this`extensionLru, this`touches
      ensures icons == old(icons)[key := icon] && attempted == old(attempted) + {key}
      ensures extensionLru == if key.IsPinned() then old(extensionLru) else Without(old(extensionLru), key) + [key]
      ensures touches == if key.IsPinned() then old(touches) else old(touches) + [key]
    {
      icons := icons[key := icon];
      attempted := attempted + {key};
      Touch(key);
      if !key.IsPinned() {
        touches := touches + [key];
      }
    }
  }

  /** The window after a store: room was made for the key if it was new and the window full. */
  lemma StoredWindow(touches: seq<FileIconKey>, key: FileIconKey, room: seq<FileIconKey>)
    requires var w := LastN(LastTouch(touches), EXTENSION_CAPACITY);
      room == if key in w || |w| < EXTENSION_CAPACITY then w else w[1..]
    ensures LastN(LastTouch(touches + [key]), EXTENSION_CAPACITY) == Without(room, key) + [key]
    ensures |Without(room, key)| == if key in room then |room| - 1 else |room|
    ensures forall i :: 0 < i < |LastN(LastTouch(touches), EXTENSION_CAPACITY)| ==>
      LastN(LastTouch(touches), EXTENSION_CAPACITY)[i] != LastN(LastTouch(touches), EXTENSION_CAPACITY)[0]
  {
    WindowAfterTouch(touches, key, EXTENSION_CAPACITY);
    AbsentIsLeft(key, room);
    WithoutKeepsDistinct(LastN(LastTouch(touches), EXTENSION_CAPACITY), key);
  }

  lemma AbsentIsLeft(key: FileIconKey, lru: seq<FileIconKey>)
    ensures key !in lru ==> Without(lru, key) == lru
  {
    if key !in lru {
      WithoutAbsent(lru, key);
    }
  }

  // ----- The provider: prewarming while others look up and clear -----

  function Printable(s: string): string {
    if s == "" then "" else (if IsControl(s[0]) then "" else [s[0]]) + Printable(s[1..])
  }

  /** The bounded identity of an icon theme. */
  function CacheIdentity(value: string): string {
    var p := Printable(value);
    if |p| <= IDENTITY_CHARACTER_LIMIT then p else p[..IDENTITY_CHARACTER_LIMIT]
  }

  const UNINITIALIZED: string := "uninitialized"

  /** What another thread may do with the cache while a prewarm does not hold its lock. */
  datatype Interruption = Clear | LookUp(key: FileIconKey)

  /**
   Everything that happened to the cache. The first two change its icons; the others
   only touch: a lookup by another thread, a batch asking whether a key was attempted.
   */
  datatype Event =
    | WasReset(identity: string)
    | WasStored(key: FileIconKey, icon: FileIcon, resolvedFor: string)
    | WasLookedUp(key: FileIconKey)
    | WasAsked(key: FileIconKey)

  /** The identity the cache carries: that of the last reset. */
  function CarriedIdentity(log: seq<Event>): string {
    if log == [] then CacheIdentity(UNINITIALIZED)
    else match log[|log| - 1]
      case WasReset(identity) => identity
      case _ => CarriedIdentity(log[..|log| - 1])
  }

  /** The icon last stored for `key` since the last reset. */
  function Latest(log: seq<Event>, key: FileIconKey): Option<FileIcon> {
    if log == [] then None
    else
      var last := log[|log| - 1];
      if last.WasReset? then None
      else if last.WasStored? && last.key == key then Some(last.icon)
      else Latest(log[..|log| - 1], key)
  }

  predicate InWindow(touches: seq<FileIconKey>, key: FileIconKey) {
    key in LastN(LastTouch(touches), EXTENSION_CAPACITY)
  }

  /** The extensions touched since the last reset: stored, or looked up or asked for while cached. */
  function TouchesOf(log: seq<Event>): seq<FileIconKey> {
    if log == [] then []
    else
      var before, last := TouchesOf(log[..|log| - 1]), log[|log| - 1];
      if last.WasReset? then []
      else if last.key.IsPinned() then before
      else if last.WasStored? || InWindow(before, last.key) then before + [last.key]
      else before
  }

  /** Whether the cache remembers an attempt at `key`: a pinned one for good, an extension while it is kept. */
  predicate Attempted(log: seq<Event>, key: FileIconKey) {
    if key.IsPinned() then Latest(log, key).Some? else InWindow(TouchesOf(log), key)
  }

  /** Stores and resets. */
  function Changes(log: seq<Event>): nat {
    if log == [] then 0
    else Changes(log[..|log| - 1]) + if log[|log| - 1].WasReset? || log[|log| - 1].WasStored? then 1 else 0
  }

  function OrFallback(icon: Option<FileIcon>, key: FileIconKey, fallbacks: FallbackIcons): FileIcon {
    if icon.Some? then icon.value else fallbacks.ForKey(key)
  }

  /** Every cached icon is the one last stored, or the fallback if none was. */
  ghost predicate Faithful(icons: map<FileIconKey, FileIcon>, log: seq<Event>, fallbacks: FallbackIcons) {
    forall k :: k in icons ==> icons[k] == OrFallback(Latest(log, k), k, fallbacks)
  }

  /** Every icon went into a cache that carried the identity it was resolved for at that moment. */
  ghost predicate RightlyPlaced(log: seq<Event>) {
    forall i :: 0 <= i < |log| && log[i].WasStored? ==> log[i].resolvedFor == CarriedIdentity(log[..i])
  }

  ghost predicate PinnedAttempts(attempted: set<FileIconKey>, log: seq<Event>) {
    forall k :: k in PINNED ==> (k in attempted <==> Latest(log, k).Some?)
  }

  /** Only other threads were at work. */
  ghost predicate OnlyOthers(before: seq<Event>, after: seq<Event>) {
    before <= after && forall i :: |before| <= i < |after| ==> after[i].WasReset? || after[i].WasLookedUp?
  }

  ghost predicate Cleared(from: nat, log: seq<Event>) {
    WasReset(CacheIdentity(UNINITIALIZED)) in log[if from <= |log| then from else |log|..]
  }

  // What a batch did, from position `from` of the log on.

  /** The keys it asked for, in order. */
  function Asked(log: seq<Event>, from: nat): seq<FileIconKey> {
    if |log| <= from then []
    else Asked(log[..|log| - 1], from) + if log[|log| - 1].WasAsked? then [log[|log| - 1].key] else []
  }

  /** Those of them that had not been attempted at that moment. */
  function Missed(log: seq<Event>, from: nat): seq<FileIconKey> {
    if |log| <= from then []
    else
      var last := log[|log| - 1];
      Missed(log[..|log| - 1], from)
      + if last.WasAsked? && !Attempted(log[..|log| - 1], last.key) then [last.key] else []
  }

  /** The keys stored, in order. */
  function Stored(log: seq<Event>, from: nat): seq<FileIconKey> {
    if |log| <= from then []
    else Stored(log[..|log| - 1], from) + if log[|log| - 1].WasStored? then [log[|log| - 1].key] else []
  }

  /** How many of the keys the resolver has an icon for. */
  function Resolvable(keys: seq<FileIconKey>, resolve: FileIconKey -> Option<FileIcon>): nat {
    if keys == [] then 0
    else Resolvable(keys[..|keys| - 1], resolve) + if resolve(keys[|keys| - 1]).Some? then 1 else 0
  }

  /** Every icon stored is what this batch resolved, or the fallback, for this batch's identity. */
  ghost predicate BatchAdds(from: nat, log: seq<Event>, identity: string, resolve: FileIconKey -> Option<FileIcon>,
                            fallbacks: FallbackIcons) {
    forall i :: from <= i < |log| && log[i].WasStored? ==>
      log[i] == WasStored(log[i].key, OrFallback(resolve(log[i].key), log[i].key, fallbacks), identity)
  }

  datatype IconPrewarmReport = IconPrewarmReport(requested: nat, systemResolved: nat, fallbackUsed: nat,
                                                 alreadyCached: nat,
                                                 cacheEntries: nat, identityChanged: bool, truncated: bool,
                                                 cacheAvailable: bool)

  /** Where `key` first occurs. */
  function FirstAt(keys: seq<FileIconKey>, key: FileIconKey): (i: nat)
    requires key in keys
    ensures i < |keys| && keys[i] == key && forall j :: 0 <= j < i ==> keys[j] != key
  {
    if keys[0] == key then 0 else 1 + FirstAt(keys[1..], key)
  }

  /** `kept` are distinct keys of the input, those that occur first, in the order of their first occurrences. */
  ghost predicate AreFirst(kept: seq<FileIconKey>, keys: seq<FileIconKey>) {
    && (forall k :: k in kept ==> k in keys)
    && (forall i, j :: 0 <= i < j < |kept| ==> FirstAt(keys, kept[i]) < FirstAt(keys, kept[j]))
    && (forall i, k :: 0 <= i < |kept| && k in keys && k !in kept ==> FirstAt(keys, kept[i]) < FirstAt(keys, k))
  }

  /** The first 64 distinct keys in order, and whether there were more. */
  method BoundedUniqueKeys(keys: seq<FileIconKey>) returns (bounded: seq<FileIconKey>, truncated: bool)
    ensures IsBatch(bounded, keys, truncated)
  {
    bounded, truncated := [], false;
    for i := 0 to |keys|
      invariant Distinct(bounded) && |bounded| <= PREWARM_KEY_LIMIT && !truncated
      invariant forall k :: k in bounded ==> k in keys && FirstAt(keys, k) < i
      invariant forall j :: 0 <= j < i ==> keys[j] in bounded
      invariant forall a, b :: 0 <= a < b < |bounded| ==> FirstAt(keys, bounded[a]) < FirstAt(keys, bounded[b])
    {
      if keys[i] !in bounded {
        assert FirstAt(keys, keys[i]) == i;
        if |bounded| == PREWARM_KEY_LIMIT {
          return bounded, true;
        }
        bounded := bounded + [keys[i]];
      }
    }
  }

  /** The keys of a batch: the first distinct ones, at most 64, and whether that left one out. */
  ghost predicate IsBatch(batch: seq<FileIconKey>, keys: seq<FileIconKey>, truncated: bool) {
    && AreFirst(batch, keys) && Distinct(batch) && |batch| <= PREWARM_KEY_LIMIT
    && (truncated <==> exists k :: k in keys && k !in batch)
    && (truncated ==> |batch| == PREWARM_KEY_LIMIT)
  }

  /** The batch was worked on in order, to its end unless the cache was lost. */
  ghost predicate WorkedOn(batch: seq<FileIconKey>, keys: seq<FileIconKey>, report: IconPrewarmReport,
                           asked: seq<FileIconKey>) {
    && IsBatch(batch, keys, report.truncated) && report.requested == |batch|
    && asked <= batch && (report.cacheAvailable ==> asked == batch)
  }

  // ----- What one more event changes -----

  lemma OneMoreChange(log: seq<Event>, e: Event)
    requires RightlyPlaced(log) && (e.WasStored? ==> e.resolvedFor == CarriedIdentity(log))
    ensures RightlyPlaced(log + [e])
    ensures CarriedIdentity(log + [e]) == if e.WasReset? then e.identity else CarriedIdentity(log)
    ensures Changes(log + [e]) == Changes(log) + if e.WasReset? || e.WasStored? then 1 else 0
    ensures TouchesOf(log + [e]) ==
      if e.WasReset? then []
      else if !e.key.IsPinned() && (e.WasStored? || InWindow(TouchesOf(log), e.key)) then TouchesOf(log) + [e.key]
      else TouchesOf(log)
  {
    hide InWindow;
    var after := log + [e];
    assert after[..|log|] == log;
    assert forall i :: 0 <= i < |log| ==> after[..i] == log[..i];
  }

  lemma LatestAfter(log: seq<Event>, e: Event, key: FileIconKey)
    ensures Latest(log + [e], key) ==
      if e.WasReset? then None else if e.WasStored? && e.key == key then Some(e.icon) else Latest(log, key)
  {
    assert (log + [e])[..|log|] == log;
  }

  /** Touching changes no icon. */
  lemma TouchIsFaithful(icons: map<FileIconKey, FileIcon>, attempted: set<FileIconKey>, log: seq<Event>, e: Event,
                        fallbacks: FallbackIcons)
    requires Faithful(icons, log, fallbacks) && PinnedAttempts(attempted, log) && (e.WasLookedUp? || e.WasAsked?)
    ensures Faithful(icons, log + [e], fallbacks) && PinnedAttempts(attempted, log + [e])
  {
    hide Latest;
    forall k ensures Latest(log + [e], k) == Latest(log, k) {
      LatestAfter(log, e, k);
    }
  }

  lemma ResetIsFaithful(log: seq<Event>, identity: string, fallbacks: FallbackIcons)
    ensures var icons := map[Folder := fallbacks.folder, Symlink := fallbacks.symlink,
                             GenericFile := fallbacks.generic];
      Faithful(icons, log + [WasReset(identity)], fallbacks) && PinnedAttempts({}, log + [WasReset(identity)])
  {
    hide Latest;
    forall k ensures Latest(log + [WasReset(identity)], k) == None {
      LatestAfter(log, WasReset(identity), k);
    }
  }

  lemma NewCacheIsFaithful(fallbacks: FallbackIcons)
    ensures var icons := map[Folder := fallbacks.folder, Symlink := fallbacks.symlink,
                             GenericFile := fallbacks.generic];
      Faithful(icons, [], fallbacks) && PinnedAttempts({}, [])
  {
  }

  /** Storing an icon keeps the record right, provided the cache carries the identity it was resolved for. */
  lemma StoreIsFaithful(before: map<FileIconKey, FileIcon>, icons: map<FileIconKey, FileIcon>,
                        attempted: set<FileIconKey>, after: set<FileIconKey>, log: seq<Event>, fallbacks: FallbackIcons,
                        key: FileIconKey, icon: FileIcon, resolvedFor: string)
    requires Faithful(before, log, fallbacks) && RightlyPlaced(log) && PinnedAttempts(attempted, log)
    requires CarriedIdentity(log) == resolvedFor
    requires key in icons && icons[key] == icon
    requires forall k :: k in icons && k != key ==> k in before && icons[k] == before[k]
    requires forall k :: k in PINNED ==> (k in after <==> k in attempted || k == key)
    ensures var more := log + [WasStored(key, icon, resolvedFor)];
      Faithful(icons, more, fallbacks) && RightlyPlaced(more) && PinnedAttempts(after, more)
        && CarriedIdentity(more) == resolvedFor
  {
    hide Latest, CarriedIdentity, RightlyPlaced, Changes, TouchesOf;
    var e := WasStored(key, icon, resolvedFor);
    OneMoreChange(log, e);
    forall k ensures Latest(log + [e], k) == if k == key then Some(icon) else Latest(log, k) {
      LatestAfter(log, e, k);
    }
  }

  /** What one more event adds to what a batch did. */
  lemma OneMoreForBatch(log: seq<Event>, e: Event, from: nat)
    requires from <= |log|
    ensures Asked(log + [e], from) == Asked(log, from) + if e.WasAsked? then [e.key] else []
    ensures Missed(log + [e], from) == Missed(log, from) + if e.WasAsked? && !Attempted(log, e.key) then [e.key] else []
    ensures Stored(log + [e], from) == Stored(log, from) + if e.WasStored? then [e.key] else []
  {
    hide Attempted;
    assert (log + [e])[..|log|] == log;
  }

  lemma StillCleared(from: nat, log: seq<Event>, more: seq<Event>)
    requires from <= |log| && Cleared(from, log)
    ensures Cleared(from, log + more)
  {
    hide CacheIdentity;
    assert (log + more)[from..] == log[from..] + more;
  }

  /** Other threads add nothing to what a batch did, but may clear the cache. */
  lemma {:induction false} OthersAddNothing(before: seq<Event>, after: seq<Event>, from: nat)
    requires from <= |before| && OnlyOthers(before, after)
    ensures Asked(after, from) == Asked(before, from) && Missed(after, from) == Missed(before, from)
    ensures Stored(after, from) == Stored(before, from)
    decreases |after|
  {
    hide Attempted;
    if |after| == |before| {
      assert after == before;
    } else {
      OthersAddNothing(before, after[..|after| - 1], from);
    }
  }

  lemma ClearedOnward(before: seq<Event>, after: seq<Event>, from: nat)
    requires from <= |before| <= |after| && before <= after
    ensures Cleared(from, before) || Cleared(|before|, after) ==> Cleared(from, after)
  {
    hide CacheIdentity;
    assert after == before + after[|before|..];
    assert after[from..] == before[from..] + after[|before|..];
  }

  // ----- The account of a batch -----

  /**
   What a batch has done after asking for its first `done` keys, `owed` being the key it
   has missed and not stored: it stored exactly the keys it missed, and counted them.
   */
  ghost predicate Accounted(from: nat, log: seq<Event>, batch: seq<FileIconKey>, identity: string,
                            resolve: FileIconKey -> Option<FileIcon>, fallbacks: FallbackIcons,
                            report: IconPrewarmReport,
                            done: nat, owed: seq<FileIconKey>) {
    && from <= |log| && done <= |batch|
    && BatchAdds(from, log, identity, resolve, fallbacks)
    && Asked(log, from) == batch[..done]
    && Missed(log, from) == Stored(log, from) + owed
    && report.alreadyCached == done - |Missed(log, from)|
    && report.systemResolved == Resolvable(Stored(log, from), resolve)
    && report.systemResolved + report.fallbackUsed == |Stored(log, from)|
  }

  lemma OthersKeepAccount(from: nat, before: seq<Event>, after: seq<Event>, batch: seq<FileIconKey>, identity: string,
                          resolve: FileIconKey -> Option<FileIcon>, fallbacks: FallbackIcons, report: IconPrewarmReport,
                          done: nat, owed: seq<FileIconKey>)
    requires Accounted(from, before, batch, identity, resolve, fallbacks, report, done, owed)
    requires OnlyOthers(before, after)
    ensures Accounted(from, after, batch, identity, resolve, fallbacks, report, done, owed)
  {
    hide Asked, Missed, Stored, Resolvable;
    OthersAddNothing(before, after, from);
  }

  lemma AskKeepsAccount(from: nat, log: seq<Event>, batch: seq<FileIconKey>, identity: string,
                        resolve: FileIconKey -> Option<FileIcon>, fallbacks: FallbackIcons,
                        report: IconPrewarmReport, done: nat)
    requires Accounted(from, log, batch, identity, resolve, fallbacks, report, done, []) && done < |batch|
    ensures var key := batch[done];
      var more := log + [WasAsked(key)];
      if Attempted(log, key) then
        Accounted(from, more, batch, identity, resolve, fallbacks, report.(alreadyCached := report.alreadyCached + 1),
                  done + 1, [])
      else
        Accounted(from, more, batch, identity, resolve, fallbacks, report, done + 1, [key])
  {
    hide Asked, Missed, Stored, Resolvable, Attempted;
    OneMoreForBatch(log, WasAsked(batch[done]), from);
    assert batch[..done + 1] == batch[..done] + [batch[done]];
    assert Stored(log, from) + [] == Stored(log, from);
  }

  lemma StoreKeepsAccount(from: nat, log: seq<Event>, batch: seq<FileIconKey>, identity: string,
                          resolve: FileIconKey -> Option<FileIcon>, fallbacks: FallbackIcons, report: IconPrewarmReport,
                          done: nat, key: FileIconKey)
    requires Accounted(from, log, batch, identity, resolve, fallbacks, report, done, [key])
    ensures var more := log + [WasStored(key, OrFallback(resolve(key), key, fallbacks), identity)];
      var counted := if resolve(key).Some? then report.(systemResolved := report.systemResolved + 1)
                     else report.(fallbackUsed := report.fallbackUsed + 1);
      Accounted(from, more, batch, identity, resolve, fallbacks, counted, done, [])
  {
    hide Asked, Missed, Stored, Resolvable;
    var e := WasStored(key, OrFallback(resolve(key), key, fallbacks), identity);
    OneMoreForBatch(log, e, from);
    OneMoreResolvable(Stored(log, from), key, resolve);
    assert Stored(log, from) + [key] + [] == Stored(log, from) + [key];
  }

  lemma OneMoreResolvable(keys: seq<FileIconKey>, key: FileIconKey, resolve: FileIconKey -> Option<FileIcon>)
    ensures Resolvable(keys + [key], resolve) == Resolvable(keys, resolve) + if resolve(key).Some? then 1 else 0
  {
    assert (keys + [key])[..|keys|] == keys;
  }

  class FileIconProvider {
    const fallbacks: FallbackIcons
    const cache: IconCache
    var revision: nat
    /** What other threads will do at each point where the cache lock is free. */
    var interruptions: seq<seq<Interruption>>
    ghost var log: seq<Event>

    /**
     Every cached icon is the latest stored one or the fallback, it was resolved for
     the identity the cache carried when it went in, every store and reset was counted,
     and what is remembered as attempted follows from the log.
     */
    ghost predicate Valid()
      reads this`revision, this`log, cache
    {
      && cache.Valid() && cache.identity == CarriedIdentity(log) && cache.touches == TouchesOf(log)
      && revision == Changes(log)
      && Faithful(cache.icons, log, fallbacks) && RightlyPlaced(log) && PinnedAttempts(cache.attempted, log)
    }

    constructor (fallbacks: FallbackIcons, interruptions: seq<seq<Interruption>>)
      ensures Valid() && revision == 0 && log == [] && cache.identity == CacheIdentity(UNINITIALIZED)
      ensures fresh(cache) && this.fallbacks == fallbacks && this.interruptions == interruptions
    {
      hide Consistent, Faithful, PinnedAttempts, CacheIdentity;
      NewCacheIsFaithful(fallbacks);
      this.fallbacks := fallbacks;
      this.interruptions := interruptions;
      cache := new IconCache(CacheIdentity(UNINITIALIZED), fallbacks);
      revision, log := 0, [];
    }

    /** The latest icon stored for a cached `key`; its fallback if there is none or it is not cached. */
    method CachedIcon(key: FileIconKey) returns (icon: FileIcon)
      requires Valid()
      modifies this`log, cache
      ensures Valid() && cache.icons == old(cache.icons) && cache.identity == old(cache.identity)
              && cache.attempted == old(cache.attempted)
      ensures log == old(log) + [WasLookedUp(key)]
      ensures icon == OrFallback(if key in cache.icons then Latest(log, key) else None, key, fallbacks)
    {
      hide Consistent, Latest, CarriedIdentity, RightlyPlaced, TouchesOf, Changes, InWindow, PinnedAttempts;
      if !key.IsPinned() {
        cache.Window(key);
      }
      OneMoreChange(log, WasLookedUp(key));
      TouchIsFaithful(cache.icons, cache.attempted, log, WasLookedUp(key), fallbacks);
      var found := cache.Icon(key);
      log := log + [WasLookedUp(key)];
      icon := if found.Some? then found.value else fallbacks.ForKey(key);
    }

    /** Ask whether `key` was attempted, which touches it. */
    method AskAttempted(key: FileIconKey) returns (yes: bool)
      requires Valid()
      modifies this`log, cache
      ensures Valid() && cache.identity == old(cache.identity)
      ensures log == old(log) + [WasAsked(key)]
      ensures yes <==> Attempted(old(log), key)
      ensures (yes <==> key in cache.attempted) && cache.attempted == old(cache.attempted)
    {
      hide Consistent, Faithful, Latest, CarriedIdentity, RightlyPlaced, TouchesOf, Changes, InWindow;
      if !key.IsPinned() {
        cache.Window(key);
      }
      OneMoreChange(log, WasAsked(key));
      TouchIsFaithful(cache.icons, cache.attempted, log, WasAsked(key), fallbacks);
      yes := cache.WasAttempted(key);
      log := log + [WasAsked(key)];
    }

    method ResetCache(identity: string)
      requires Valid()
      modifies this`revision, this`log, cache
      ensures Valid() && cache.identity == identity && cache.attempted == {}
      ensures log == old(log) + [WasReset(identity)] && revision == old(revision) + 1
    {
      hide Consistent, Faithful, Latest, CarriedIdentity, RightlyPlaced, TouchesOf, Changes, PinnedAttempts;
      OneMoreChange(log, WasReset(identity));
      ResetIsFaithful(log, identity, fallbacks);
      cache.Reset(identity, fallbacks);
      log := log + [WasReset(identity)];
      revision := revision + 1;
    }

    method ClearCache() returns (released: nat)
      requires Valid()
      modifies this`revision, this`log, cache
      ensures Valid() && cache.identity == CacheIdentity(UNINITIALIZED) && cache.attempted == {}
      ensures released == |old(cache.extensionLru)|
      ensures log == old(log) + [WasReset(CacheIdentity(UNINITIALIZED))] && revision == old(revision) + 1
    {
      hide FileIconProvider.Valid, CacheIdentity;
      released := |cache.extensionLru|;
      ResetCache(CacheIdentity(UNINITIALIZED));
    }

    method StoreResolved(key: FileIconKey, resolved: Option<FileIcon>, identity: string)
      requires Valid() && cache.identity == identity
      modifies this`revision, this`log, cache
      ensures Valid() && cache.identity == identity
      ensures revision == old(revision) + 1
      ensures log == old(log) + [WasStored(key, OrFallback(resolved, key, fallbacks), identity)]
      ensures key in cache.icons && key in cache.attempted
    {
      hide Consistent, Faithful, Latest, CarriedIdentity, RightlyPlaced, TouchesOf, Changes, PinnedAttempts, InWindow;
      var before, attempted := cache.icons, cache.attempted;
      cache.Store(key, resolved, fallbacks);
      var icon := OrFallback(resolved, key, fallbacks);
      OneMoreChange(log, WasStored(key, icon, identity));
      StoreIsFaithful(before, cache.icons, attempted, cache.attempted, log, fallbacks, key, icon, identity);
      log := log + [WasStored(key, icon, identity)];
      revision := revision + 1;
    }

    /** Other threads get the lock for a while: they look icons up, and may clear the cache. */
    method Interrupt()
      requires Valid()
      modifies this`interruptions, this`revision, this`log, cache
      ensures Valid() && OnlyOthers(old(log), log) && old(revision) <= revision
      ensures cache.identity != old(cache.identity) ==> Cleared(|old(log)|, log)
    {
      hide FileIconProvider.Valid, CacheIdentity;
      if interruptions == [] {
        return;
      }
      var now := interruptions[0];
      interruptions := interruptions[1..];
      for i := 0 to |now|
        invariant Valid() && OnlyOthers(old(log), log) && old(revision) <= revision
        invariant cache.identity != old(cache.identity) ==> Cleared(|old(log)|, log)
      {
        match now[i] {
          case Clear => {
            var _ := ClearCache();
            assert log[|log| - 1] == WasReset(CacheIdentity(UNINITIALIZED));
          }
          case LookUp(key) => {
            ghost var before := log;
            var _ := CachedIcon(key);
            if Cleared(|old(log)|, before) {
              StillCleared(|old(log)|, before, [WasLookedUp(key)]);
            }
          }
        }
      }
    }

    /** The lock is free: whatever happens adds nothing to what the batch did. */
    method LetOthersIn(identity: string, ghost resolve: FileIconKey -> Option<FileIcon>,
                       ghost report: IconPrewarmReport,
                       ghost from: nat, ghost batch: seq<FileIconKey>, ghost done: nat, ghost owed: seq<FileIconKey>)
      requires Valid() && Accounted(from, log, batch, identity, resolve, fallbacks, report, done, owed)
      requires cache.identity != identity ==> Cleared(from, log)
      modifies this`interruptions, this`revision, this`log, cache
      ensures Valid() && Accounted(from, log, batch, identity, resolve, fallbacks, report, done, owed)
      ensures cache.identity != identity ==> Cleared(from, log)
      ensures old(log) <= log && old(revision) <= revision && from <= |log|
      ensures old(Cleared(from, log)) ==> Cleared(from, log)
    {
      hide FileIconProvider.Valid, CacheIdentity, Cleared;
      ghost var before := log;
      Interrupt();
      OthersKeepAccount(from, before, log, batch, identity, resolve, fallbacks, report, done, owed);
      ClearedOnward(before, log, from);
    }

    /** One key of a batch: skip it if it was attempted, else resolve it without the lock and store it. */
    method PrewarmKey(key: FileIconKey, identity: string, resolve: FileIconKey -> Option<FileIcon>,
                      report: IconPrewarmReport,
                      ghost from: nat, ghost batch: seq<FileIconKey>, ghost done: nat)
      returns (after: IconPrewarmReport)
      requires Valid() && done < |batch| && batch[done] == key && report.cacheAvailable
      requires Accounted(from, log, batch, identity, resolve, fallbacks, report, done, [])
      requires cache.identity != identity ==> Cleared(from, log)
      modifies this`interruptions, this`revision, this`log, cache
      ensures Valid() && old(log) <= log && old(revision) <= revision
      ensures Accounted(from, log, batch, identity, resolve, fallbacks, after, done + 1,
                        if after.cacheAvailable then [] else [key])
      ensures !after.cacheAvailable || cache.identity != identity ==> Cleared(from, log)
      // A key that is counted has been attempted, now or before.
      ensures after.cacheAvailable ==> key in cache.attempted
      ensures after.requested == report.requested && after.truncated == report.truncated
              && after.identityChanged == report.identityChanged
    {
      hide FileIconProvider.Valid, CacheIdentity, Accounted, Cleared, Attempted;
      LetOthersIn(identity, resolve, report, from, batch, done, []);
      AskKeepsAccount(from, log, batch, identity, resolve, fallbacks, report, done);
      ghost var before := log;
      var attempted := AskAttempted(key);
      KeepCleared(from, before, log);
      if attempted {
        return report.(alreadyCached := report.alreadyCached + 1);
      }
      var resolved := resolve(key);
      LetOthersIn(identity, resolve, report, from, batch, done + 1, [key]);
      if cache.identity != identity {
        AvailabilityIsNotCounted(from, log, batch, identity, resolve, fallbacks, report, done + 1, [key]);
        return report.(cacheAvailable := false);
      }
      StoreKeepsAccount(from, log, batch, identity, resolve, fallbacks, report, done + 1, key);
      StoreResolved(key, resolved, identity);
      after := if resolved.Some? then report.(systemResolved := report.systemResolved + 1)
               else report.(fallbackUsed := report.fallbackUsed + 1);
    }

    /**
     Resolve one bounded batch. Between any two uses of the cache other threads may
     clear it; an icon then never reaches a cache of another identity, and the batch
     is abandoned only after such a clearing. Each key is asked for once, in order, and
     exactly those that had not been attempted at that moment are stored.
     */
    method Prewarm(keys: seq<FileIconKey>, identity: string, resolve: FileIconKey -> Option<FileIcon>)
      returns (report: IconPrewarmReport)
      requires Valid()
      modifies this`interruptions, this`revision, this`log, cache
      ensures Valid() && old(log) <= log && old(revision) <= revision
      ensures report.identityChanged <==> old(cache.identity) != identity
      ensures report.identityChanged ==> |log| > |old(log)| && log[|old(log)|] == WasReset(identity)
      ensures BatchAdds(|old(log)|, log, identity, resolve, fallbacks)
      ensures exists batch :: WorkedOn(batch, keys, report, Asked(log, |old(log)|))
      ensures report.alreadyCached == |Asked(log, |old(log)|)| - |Missed(log, |old(log)|)|
      ensures report.systemResolved == Resolvable(Stored(log, |old(log)|), resolve)
      ensures report.systemResolved + report.fallbackUsed == |Stored(log, |old(log)|)|
      ensures Distinct(Stored(log, |old(log)|)) && forall k :: k in Stored(log, |old(log)|) ==> k in keys
      ensures report.cacheAvailable ==> Stored(log, |old(log)|) == Missed(log, |old(log)|)
      ensures report.cacheAvailable ==>
                report.requested == report.systemResolved + report.fallbackUsed + report.alreadyCached
      ensures !report.cacheAvailable ==>
        && Cleared(|old(log)|, log)
        && exists key :: Missed(log, |old(log)|) == Stored(log, |old(log)|) + [key]
      ensures report.cacheEntries == |cache.icons| <= ICON_CACHE_CAPACITY
    {
      hide FileIconProvider.Valid, CacheIdentity, Accounted, Cleared, IsBatch, Attempted;
      var batch, truncated := BoundedUniqueKeys(keys);
      report := IconPrewarmReport(|batch|, 0, 0, 0, 0, cache.identity != identity, truncated, true);
      ghost var from := |log|;
      NothingDone(log, batch, identity, resolve, fallbacks, report);
      if cache.identity != identity {
        ghost var before := log;
        ResetCache(identity);
        OthersKeepAccount(from, before, log, batch, identity, resolve, fallbacks, report, 0, []);
      }
      ghost var started := log;
      var i := 0;
      while i < |batch| && report.cacheAvailable
        invariant i <= |batch| && (!report.cacheAvailable ==> i > 0)
        invariant Valid() && started <= log && old(revision) <= revision
        invariant Accounted(from, log, batch, identity, resolve, fallbacks, report, i,
                            if report.cacheAvailable then [] else [batch[i - 1]])
        invariant report.requested == |batch| && report.truncated == truncated
        invariant report.identityChanged <==> old(cache.identity) != identity
        invariant !report.cacheAvailable || cache.identity != identity ==> Cleared(from, log)
        decreases |batch| - i
      {
        report := PrewarmKey(batch[i], identity, resolve, report, from, batch, i);
        i := i + 1;
      }
      ghost var owed := if report.cacheAvailable then [] else [batch[i - 1]];
      LetOthersIn(identity, resolve, report, from, batch, i, owed);
      BatchDone(from, log, batch, identity, resolve, fallbacks, report, i, owed);
      EachStoredOnce(log, from, batch, keys, truncated, owed);
      report := report.(cacheEntries := |cache.icons|);
      assert WorkedOn(batch, keys, report, Asked(log, from));
      EntriesAreBounded();
    }

    lemma EntriesAreBounded()
      requires Valid()
      ensures |cache.icons| <= ICON_CACHE_CAPACITY
    {
      cache.Bounded();
    }
  }

  /** The missed keys are among those asked for, none of them twice. */
  lemma {:induction false} MissedAreAsked(log: seq<Event>, from: nat)
    ensures forall k :: k in Missed(log, from) ==> k in Asked(log, from)
    ensures Distinct(Asked(log, from)) ==> Distinct(Missed(log, from))
    decreases |log|
  {
    if |log| > from {
      var before, last := log[..|log| - 1], log[|log| - 1];
      MissedAreAsked(before, from);
      assert Asked(before, from) + [] == Asked(before, from) && Missed(before, from) + [] == Missed(before, from);
      if last.WasAsked? && Distinct(Asked(log, from)) {
        DistinctSnoc(Asked(before, from), last.key);
        DistinctSnoc(Missed(before, from), last.key);
      }
    }
  }

  lemma DistinctSnoc(s: seq<FileIconKey>, x: FileIconKey)
    ensures Distinct(s + [x]) <==> Distinct(s) && x !in s
  {
    var t := s + [x];
    assert forall i :: 0 <= i < |s| ==> t[i] == s[i];
    assert t[|s|] == x;
  }

  lemma EachStoredOnce(log: seq<Event>, from: nat, batch: seq<FileIconKey>, keys: seq<FileIconKey>, truncated: bool,
                       owed: seq<FileIconKey>)
    requires IsBatch(batch, keys, truncated) && Asked(log, from) <= batch
    requires Missed(log, from) == Stored(log, from) + owed
    ensures Distinct(Stored(log, from)) && forall k :: k in Stored(log, from) ==> k in keys
  {
    hide Asked, Missed, Stored;
    var asked, missed, stored := Asked(log, from), Missed(log, from), Stored(log, from);
    assert forall i :: 0 <= i < |asked| ==> asked[i] == batch[i];
    MissedAreAsked(log, from);
    assert forall i :: 0 <= i < |stored| ==> stored[i] == missed[i];
    forall k | k in stored ensures k in keys {
      assert k in missed && k in asked && k in batch;
    }
  }

  lemma KeepCleared(from: nat, before: seq<Event>, after: seq<Event>)
    requires before <= after && from <= |before|
    ensures Cleared(from, before) ==> Cleared(from, after)
  {
    ClearedOnward(before, after, from);
  }

  lemma AvailabilityIsNotCounted(from: nat, log: seq<Event>, batch: seq<FileIconKey>, identity: string,
                                 resolve: FileIconKey -> Option<FileIcon>, fallbacks: FallbackIcons,
                                 report: IconPrewarmReport,
                                 done: nat, owed: seq<FileIconKey>)
    requires Accounted(from, log, batch, identity, resolve, fallbacks, report, done, owed)
    ensures Accounted(from, log, batch, identity, resolve, fallbacks, report.(cacheAvailable := false), done, owed)
  {
  }

  lemma NothingDone(log: seq<Event>, batch: seq<FileIconKey>, identity: string,
                    resolve: FileIconKey -> Option<FileIcon>, fallbacks: FallbackIcons, report: IconPrewarmReport)
    requires report.alreadyCached == report.systemResolved == report.fallbackUsed == 0
    ensures Accounted(|log|, log, batch, identity, resolve, fallbacks, report, 0, [])
  {
  }

  /** What the account says at the end of a batch. */
  lemma BatchDone(from: nat, log: seq<Event>, batch: seq<FileIconKey>, identity: string,
                  resolve: FileIconKey -> Option<FileIcon>, fallbacks: FallbackIcons, report: IconPrewarmReport,
                  done: nat, owed: seq<FileIconKey>)
    requires Accounted(from, log, batch, identity, resolve, fallbacks, report, done, owed)
    ensures from <= |log| && BatchAdds(from, log, identity, resolve, fallbacks)
    ensures Asked(log, from) == batch[..done] <= batch && (done == |batch| ==> Asked(log, from) == batch)
    ensures Missed(log, from) == Stored(log, from) + owed && (owed == [] ==> Missed(log, from) == Stored(log, from))
    ensures report.alreadyCached == |Asked(log, from)| - |Missed(log, from)|
    ensures report.systemResolved == Resolvable(Stored(log, from), resolve)
    ensures report.systemResolved + report.fallbackUsed == |Stored(log, from)|
  {
    hide Asked, Missed, Stored, Resolvable, BatchAdds;
  }
}
