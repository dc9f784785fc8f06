/** Reading pointer maps: which pages the entries of a map speak about, and that all maps
    together speak about every page once. */
module PointerMap {
  import opened Wrappers
  import opened Bytes
  import opened Control
  import opened ClaimGraph
  import opened FileGeometry

  datatype MapKind = BtreeRoot | Freelist | FirstOverflow | ChainedOverflow | BtreeLink

  function KindOf(raw: Byte): Option<MapKind> {
    if raw == 1 then Some(BtreeRoot)
    else if raw == 2 then Some(Freelist)
    else if raw == 3 then Some(FirstOverflow)
    else if raw == 4 then Some(ChainedOverflow)
    else if raw == 5 then Some(BtreeLink)
    else None
  }

  datatype MapEntry = MapEntry(
    target: nat,
    rawKind: Byte,
    kind: Option<MapKind>,
    parent: Option<nat>,
    offset: nat,
    length: nat,
    state: RelationshipState
  )

  datatype MapPage = MapPage(page: nat, entries: seq<MapEntry>, complete: bool)

  // ---------------------------------------------------------------- which pages a map covers

  /** A page that the map `number` must have an entry for. */
  predicate Mapped(g: Geometry, number: nat, target: nat)
    requires g.Valid()
  {
    target > number && target != LockPage(g) && MapFor(g, target) == Some(number)
  }

  /** The pages from `from` up to `to` that are neither maps nor the lock-byte page. */
  function Ordinary(g: Geometry, from: nat, upTo: nat): seq<nat>
    requires g.Valid() && from <= upTo + 1
    decreases upTo + 1 - from
  {
    if from == upTo + 1 then []
    else (if from != LockPage(g) && MapFor(g, from) != Some(from) then [from] else []) + Ordinary(g, from + 1, upTo)
  }

  function Targets(entries: seq<MapEntry>): seq<nat> {
    if entries == [] then [] else Targets(entries[..|entries| - 1]) + [entries[|entries| - 1].target]
  }

  function AllTargets(maps: seq<MapPage>): seq<nat> {
    if maps == [] then [] else AllTargets(maps[..|maps| - 1]) + Targets(maps[|maps| - 1].entries)
  }

  lemma TargetsPush(entries: seq<MapEntry>, e: MapEntry)
    ensures Targets(entries + [e]) == Targets(entries) + [e.target]
  {
    assert (entries + [e])[..|entries|] == entries;
  }

  lemma AllTargetsPush(maps: seq<MapPage>, m: MapPage)
    ensures AllTargets(maps + [m]) == AllTargets(maps) + Targets(m.entries)
  {
    assert (maps + [m])[..|maps|] == maps;
  }

  lemma {:induction false} OrdinarySplit(g: Geometry, from: nat, mid: nat, upTo: nat)
    requires g.Valid() && from <= mid + 1 <= upTo + 1
    ensures Ordinary(g, from, upTo) == Ordinary(g, from, mid) + Ordinary(g, mid + 1, upTo)
    decreases mid + 1 - from
  {
    if from <= mid {
      OrdinarySplit(g, from + 1, mid, upTo);
    }
  }

  // ---------------------------------------------------------------- one map

  /** Where a byte of a page lies in the file. */
  function FileOffset(g: Geometry, page: nat, offset: nat): nat
    requires page >= 1
  {
    (page - 1) * g.pageSize + offset
  }

  /** An entry shows the bytes at its place in the map. */
  ghost predicate EntryFromFile(g: Geometry, file: seq<Byte>, number: nat, e: MapEntry)
    requires g.Valid() && number >= 1
  {
    && e.target > number
    && e.offset == 5 * (e.target - number - 1)
    && var at := FileOffset(g, number, e.offset);
    && 1 <= e.length <= 5 && at + e.length <= |file|
    && (e.length < 5 ==> at + e.length == |file|)
    && e.rawKind == file[at] && e.kind == KindOf(e.rawKind)
    && e.parent == (if e.length == 5 then Some(Big32(file, at + 1)) else None)
    && e.state == Unresolved
  }

  ghost predicate EntriesFromFile(g: Geometry, file: seq<Byte>, number: nat, entries: seq<MapEntry>)
    requires g.Valid() && number >= 1
  {
    forall k :: 0 <= k < |entries| ==> EntryFromFile(g, file, number, entries[k])
  }

  /** The entries of one map: in ascending order, about pages of its own group. */
  ghost predicate OfGroup(g: Geometry, number: nat, entries: seq<MapEntry>)
    requires g.Valid()
  {
    && (forall k :: 0 <= k < |entries| ==> MapFor(g, entries[k].target) == Some(number))
    && (forall a, b :: 0 <= a < b < |entries| ==> entries[a].target < entries[b].target)
  }

  lemma OneMoreOfGroup(g: Geometry, number: nat, entries: seq<MapEntry>, e: MapEntry)
    requires g.Valid() && OfGroup(g, number, entries) && MapFor(g, e.target) == Some(number) && Below(entries, e.target)
    ensures OfGroup(g, number, entries + [e]) && Below(entries + [e], e.target + 1)
  {
    hide MapFor;
  }

  ghost predicate Below(entries: seq<MapEntry>, limit: nat) {
    forall k :: 0 <= k < |entries| ==> entries[k].target < limit
  }

  lemma BelowMore(entries: seq<MapEntry>, limit: nat)
    requires Below(entries, limit)
    ensures Below(entries, limit + 1)
  {
  }

  /** Maps in page order, each with the entries of its own group. */
  ghost predicate MapsApart(g: Geometry, maps: seq<MapPage>)
    requires g.Valid()
  {
    && (forall k :: 0 <= k < |maps| ==> OfGroup(g, maps[k].page, maps[k].entries))
    && (forall a, b :: 0 <= a < b < |maps| ==> maps[a].page < maps[b].page)
  }

  lemma OneMoreMap(g: Geometry, maps: seq<MapPage>, m: MapPage)
    requires g.Valid() && MapsApart(g, maps) && OfGroup(g, m.page, m.entries)
    requires forall k :: 0 <= k < |maps| ==> maps[k].page < m.page
    ensures MapsApart(g, maps + [m])
  {
    hide OfGroup;
  }

  /** No two entries of all maps speak about the same page. */
  lemma OnePageOneEntry(g: Geometry, maps: seq<MapPage>, a: nat, i: nat, b: nat, j: nat)
    requires g.Valid() && MapsApart(g, maps) && a < |maps| && b < |maps|
    requires i < |maps[a].entries| && j < |maps[b].entries| && (a != b || i != j)
    ensures maps[a].entries[i].target != maps[b].entries[j].target
  {
    hide MapFor;
    assert OfGroup(g, maps[a].page, maps[a].entries) && OfGroup(g, maps[b].page, maps[b].entries);
    if a < b {
      assert maps[a].page < maps[b].page;
    } else if b < a {
      assert maps[b].page < maps[a].page;
    }
  }

  /** Reads one entry; a map that ends inside it gives the bytes that are left. */
  method ReadEntry(g: Geometry, file: seq<Byte>, number: nat, index: nat) returns (entry: Option<MapEntry>)
    requires g.Valid() && number >= 1
    ensures entry.Some? ==> EntryFromFile(g, file, number, entry.value) && entry.value.target == number + index + 1
  {
    var at := FileOffset(g, number, index * 5);
    if at >= |file| {
      return None;
    }
    var read: bool := *;
    if !read {
      return None;
    }
    var available := if |file| - at < 5 then |file| - at else 5;
    entry := Some(MapEntry(number + index + 1, file[at], KindOf(file[at]),
      if available == 5 then Some(Big32(file, at + 1)) else None, index * 5, available, Unresolved));
  }

  /** The entries read so far speak, in order, about pages up to `reached`; if nothing is
      missing, about every ordinary one of them. */
  ghost predicate Progress(g: Geometry, file: seq<Byte>, number: nat, entries: seq<MapEntry>, reached: nat, complete: bool)
    requires g.Valid() && 1 <= number <= reached
  {
    && EntriesFromFile(g, file, number, entries) && OfGroup(g, number, entries) && Below(entries, reached + 1)
    && (complete ==> Targets(entries) == Ordinary(g, number + 1, reached))
  }

  lemma NothingRead(g: Geometry, file: seq<Byte>, number: nat)
    requires g.Valid() && number >= 1
    ensures Progress(g, file, number, [], number, true)
  {
    assert Ordinary(g, number + 1, number) == [];
  }

  lemma EntryRead(g: Geometry, file: seq<Byte>, number: nat, entries: seq<MapEntry>, reached: nat, complete: bool, e: MapEntry)
    requires g.Valid() && 2 <= number <= reached && Progress(g, file, number, entries, reached, complete)
    requires EntryFromFile(g, file, number, e) && e.target == reached + 1 != LockPage(g) && MapFor(g, e.target) == Some(number)
    ensures Progress(g, file, number, entries + [e], reached + 1, complete)
  {
    hide EntryFromFile, MapFor, OfGroup, Below, Ordinary, Targets;
    OrdinaryPush(g, number + 1, reached);
    TargetsPush(entries, e);
    OneMoreOfGroup(g, number, entries, e);
  }

  lemma LockPassed(g: Geometry, file: seq<Byte>, number: nat, entries: seq<MapEntry>, reached: nat, complete: bool)
    requires g.Valid() && 2 <= number <= reached && Progress(g, file, number, entries, reached, complete) && reached + 1 == LockPage(g)
    ensures Progress(g, file, number, entries, reached + 1, complete)
  {
    hide EntriesFromFile, MapFor, OfGroup, Below, Ordinary, Targets;
    OrdinaryPush(g, number + 1, reached);
    BelowMore(entries, reached + 1);
  }

  /** The group ends where the next page is another map's, or where the file ends. */
  lemma WithinGroup(g: Geometry, number: nat, target: nat)
    requires g.Valid() && g.largestRoot != 0 && number >= 2 && MapFor(g, number) == Some(number) && target > number
    ensures target <= GroupEnd(g, number) <==> target <= g.pageCount && MapFor(g, target) == Some(number)
    ensures number + g.usableSize / 5 >= GroupEnd(g, number)
  {
    GroupBounds(g, number);
    CoveredPages(g, number, target);
  }

  /** Reads one map. A complete result has one entry for each page of the map's group that
      exists, in order, the lock-byte page left out; each entry shows the file's bytes. */
  method InspectPage(g: Geometry, file: seq<Byte>, declaredPages: nat, number: nat, control: WorkControl)
    returns (map_: MapPage)
    requires g.Valid() && g.largestRoot != 0
    requires 2 <= number <= g.pageCount && MapFor(g, number) == Some(number)
    modifies control`stop
    ensures control.Later()
    ensures map_.page == number && EntriesFromFile(g, file, number, map_.entries) && OfGroup(g, number, map_.entries)
    ensures map_.complete ==> Targets(map_.entries) == Ordinary(g, number + 1, GroupEnd(g, number))
  {
    hide EntriesFromFile, EntryFromFile, OfGroup, Below, Ordinary, Targets, MapFor, GroupEnd, FileOffset;
    var entries, complete := [], true;
    NothingRead(g, file, number);
    var truncated := |file| < number * g.pageSize;
    var limit := g.pageCount;
    if truncated {
      complete := false;
      limit := if declaredPages > g.pageCount then declaredPages else g.pageCount;
    }
    var granted := control.ReserveMemory();
    if !granted {
      return MapPage(number, [], false);
    }
    WithinGroup(g, number, number + 1);
    StartsWithin(g, number);
    var index: nat := 0;
    while index < g.usableSize / 5
      invariant control.Later()
      invariant index <= g.usableSize / 5
      invariant Progress(g, file, number, entries, number + index, complete)
      invariant complete ==> limit == g.pageCount && number + index <= GroupEnd(g, number)
      decreases g.usableSize / 5 - index
    {
      var target := number + index + 1;
      WithinGroup(g, number, target);
      if target > limit || MapFor(g, target) != Some(number) {
        break;
      }
      if target == LockPage(g) {
        LockPassed(g, file, number, entries, number + index, complete);
      } else {
        var stopped := control.Stopped();
        if stopped {
          complete := false;
          break;
        }
        var entry := ReadEntry(g, file, number, index);
        if entry.None? {
          complete := false;
          break;
        }
        EntryRead(g, file, number, entries, number + index, complete, entry.value);
        entries := entries + [entry.value];
      }
      index := index + 1;
    }
    map_ := MapPage(number, entries, complete);
  }

  lemma StartsWithin(g: Geometry, number: nat)
    requires g.Valid() && 2 <= number <= g.pageCount
    ensures number <= GroupEnd(g, number)
  {
    GroupBounds(g, number);
  }

  lemma {:induction false} OrdinaryPush(g: Geometry, from: nat, upTo: nat)
    requires g.Valid() && from <= upTo + 1
    ensures Ordinary(g, from, upTo + 1)
         == Ordinary(g, from, upTo) + (if upTo + 1 != LockPage(g) && MapFor(g, upTo + 1) != Some(upTo + 1) then [upTo + 1] else [])
  {
    OrdinarySplit(g, from, upTo, upTo + 1);
    assert Ordinary(g, upTo + 2, upTo + 1) == [];
  }

  // ---------------------------------------------------------------- all maps

  /** Everything up to `covered` was spoken about; `number` is past the last map read and
      not past the next one. */
  ghost predicate Between(g: Geometry, covered: nat, number: nat)
    requires g.Valid()
  {
    && 1 <= covered <= g.pageCount
    && (covered < g.pageCount ==>
         Nominal(g, covered + 1) == covered + 1 && number <= MapNumber(g, covered + 1).value)
    && (forall n :: number <= n <= covered && n >= 2 ==> MapNumber(g, n) != Some(n))
  }

  lemma NotTheNextMap(g: Geometry, covered: nat, number: nat)
    requires g.Valid() && g.largestRoot != 0 && 1 <= number <= g.pageCount && Between(g, covered, number)
    requires MapFor(g, number) != Some(number)
    ensures Between(g, covered, number + 1)
  {
    if covered < g.pageCount {
      MapNumberFixedPoint(g, covered + 1);
    }
  }

  /** A map is met exactly where the covered pages end, the lock-byte page aside. */
  lemma TheNextMap(g: Geometry, covered: nat, number: nat)
    requires g.Valid() && g.largestRoot != 0 && 1 <= number <= g.pageCount && Between(g, covered, number)
    requires MapFor(g, number) == Some(number)
    ensures covered < number && number >= 2
    ensures Ordinary(g, covered + 1, number) == []
    ensures var last := Nominal(g, number) + g.Stride() - 1;
      var end := if last < g.pageCount then last else g.pageCount;
      number <= end + 1 && number <= end && Between(g, end, number + 1)
  {
    GroupBounds(g, number);
    var first := Nominal(g, number);
    var last := first + g.Stride() - 1;
    var end := if last < g.pageCount then last else g.pageCount;
    assert number > covered;
    assert first == covered + 1 by {
      GroupBounds(g, covered + 1);
      assert number == covered + 1 || (number == covered + 2 && covered + 1 == LockPage(g));
      if number == covered + 2 {
        SameGroup(g, covered + 1, 1);
      }
    }
    assert Ordinary(g, number + 1, number) == [];
    forall n | number + 1 <= n <= end
      ensures MapNumber(g, n) != Some(n)
    {
      SameGroup(g, first, n - first);
    }
    if end < g.pageCount {
      NextGroup(g, first);
    }
  }

  ghost function GroupEnd(g: Geometry, number: nat): nat
    requires g.Valid() && number >= 2
  {
    var last := Nominal(g, number) + g.Stride() - 1;
    if last < g.pageCount then last else g.pageCount
  }

  lemma MapExtends(g: Geometry, covered: nat, number: nat)
    requires g.Valid() && g.largestRoot != 0 && 1 <= number <= g.pageCount && Between(g, covered, number)
    requires MapFor(g, number) == Some(number)
    ensures number >= 2 && number <= GroupEnd(g, number) <= g.pageCount
    ensures Between(g, GroupEnd(g, number), number + 1)
    ensures Ordinary(g, 2, covered) + Ordinary(g, number + 1, GroupEnd(g, number)) == Ordinary(g, 2, GroupEnd(g, number))
  {
    TheNextMap(g, covered, number);
    OrdinarySplit(g, 2, number, GroupEnd(g, number));
    OrdinarySplit(g, 2, covered, number);
  }

  lemma NextGroup(g: Geometry, first: nat)
    requires g.Valid() && first >= 2 && Nominal(g, first) == first
    ensures Nominal(g, first + g.Stride()) == first + g.Stride()
  {
    var q, n := (first - 2) / g.Stride(), g.Stride();
    assert (q + 1) * n == q * n + n;
    DivisionGroup(first + n - 2, q + 1, 0, n);
  }

  lemma BetweenBounds(g: Geometry, covered: nat, number: nat)
    requires g.Valid() && Between(g, covered, number)
    ensures 1 <= covered <= g.pageCount
  {
  }

  /** Reads every map of the inventory. When the result is complete, the entries of all maps
      together name each page from 2 to the end that is neither a map nor the lock-byte page
      once, in ascending order, also around the displaced map. */
  method InspectMaps(g: Geometry, file: seq<Byte>, declaredPages: nat, inventory: nat, control: WorkControl)
    returns (maps: seq<MapPage>, complete: bool)
    requires g.Valid() && g.largestRoot != 0
    modifies control`stop, control`failed
    ensures control.Later()
    ensures MapsApart(g, maps)
    ensures complete && !control.failed ==> AllTargets(maps) == Ordinary(g, 2, g.pageCount)
  {
    hide MapsApart, AllTargets, Targets, OfGroup, EntriesFromFile, Between, Ordinary, GroupEnd;
    maps, complete := [], true;
    NoMapYet(g);
    ghost var covered: nat := 1;
    StartOfMaps(g);
    var limit := if inventory < g.pageCount then inventory else g.pageCount;
    for number: nat := 1 to limit + 1
      invariant control.Later()
      invariant 1 <= covered && Between(g, covered, number)
      invariant MapsApart(g, maps) && forall k :: 0 <= k < |maps| ==> maps[k].page < number
      invariant complete && !control.failed ==> AllTargets(maps) == Ordinary(g, 2, covered)
    {
      var stopped := control.Stopped();
      if stopped {
        return maps, false;
      }
      BetweenBounds(g, covered, number);
      if MapFor(g, number) == Some(number) {
        MapExtends(g, covered, number);
        var m := InspectPage(g, file, declaredPages, number, control);
        complete := complete && m.complete;
        AllTargetsPush(maps, m);
        OneMoreMap(g, maps, m);
        var written := control.Access();
        if written {
          maps := maps + [m];
        }
        covered := GroupEnd(g, number);
      } else {
        NotTheNextMap(g, covered, number);
      }
    }
    var stopped := control.Stopped();
    complete := complete && !stopped && inventory == g.pageCount;
    if complete {
      NothingLeft(g, covered);
    }
  }

  lemma NoMapYet(g: Geometry)
    requires g.Valid()
    ensures MapsApart(g, []) && AllTargets([]) == []
  {
  }

  /** Past the last page, everything was covered. */
  lemma NothingLeft(g: Geometry, covered: nat)
    requires g.Valid() && g.largestRoot != 0 && Between(g, covered, g.pageCount + 1)
    ensures Ordinary(g, 2, covered) == Ordinary(g, 2, g.pageCount)
  {
    if covered < g.pageCount {
      OrdinarySplit(g, 2, covered, g.pageCount);
      assert Ordinary(g, g.pageCount + 1, g.pageCount) == [];
    }
  }

  lemma StartOfMaps(g: Geometry)
    requires g.Valid()
    ensures Between(g, 1, 1) && Ordinary(g, 2, 1) == []
  {
    DivisionGroup(0, 0, 0, g.Stride());
  }

  /** Every page the entries must name is named, and named once. */
  lemma {:induction false} OrdinaryMeaning(g: Geometry, from: nat, upTo: nat)
    requires g.Valid() && from <= upTo + 1
    ensures forall p :: p in Ordinary(g, from, upTo) <==>
      from <= p <= upTo && p != LockPage(g) && MapFor(g, p) != Some(p)
    ensures forall a, b :: 0 <= a < b < |Ordinary(g, from, upTo)| ==> Ordinary(g, from, upTo)[a] < Ordinary(g, from, upTo)[b]
    decreases upTo + 1 - from
  {
    if from <= upTo {
      OrdinaryMeaning(g, from + 1, upTo);
      var rest := Ordinary(g, from + 1, upTo);
      forall b | 0 <= b < |rest|
        ensures from < rest[b]
      {
        assert rest[b] in rest;
      }
    }
  }
}
