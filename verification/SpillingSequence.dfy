/** Work sequences: a cached part, a spilled part and appended segments that together behave
    as one plain sequence. */
module SpillingSequence {
  import opened Wrappers
  import opened Store

  /** One sequence: positions below `length` are its own, cached or on disk; the rest belong
      to the segments that were appended to it. */
  datatype Cells<T> = Cells(collection: nat, memory: map<nat, T>, spilled: bool, bytes: nat, length: nat, segments: seq<Cells<T>>)

  function Cost<T>(size: T -> nat, value: T): nat {
    (size(value) + 64) * 4
  }

  ghost function MemoryBytes<T>(memory: map<nat, T>, size: T -> nat, n: nat): nat {
    if n == 0 then 0 else MemoryBytes(memory, size, n - 1) + if n - 1 in memory then Cost(size, memory[n - 1]) else 0
  }

  // ---------------------------------------------------------------- what a sequence stands for

  function Length<T>(c: Cells<T>): nat
    decreases c
  {
    c.length + Lengths(c.segments)
  }

  function Lengths<T>(cs: seq<Cells<T>>): nat
    decreases cs
  {
    if cs == [] then 0 else Lengths(cs[..|cs| - 1]) + Length(cs[|cs| - 1])
  }

  ghost function Collections<T>(c: Cells<T>): set<nat>
    decreases c
  {
    {c.collection} + CollectionsOf(c.segments)
  }

  ghost function CollectionsOf<T>(cs: seq<Cells<T>>): set<nat>
    decreases cs
  {
    if cs == [] then {} else CollectionsOf(cs[..|cs| - 1]) + Collections(cs[|cs| - 1])
  }

  /** The sequence's own part: every position is in the cache or on disk, and in one of the
      two only; the cache is charged for exactly what it holds. */
  ghost predicate LocalGood<T>(c: Cells<T>, h: Held<T>, size: T -> nat) {
    && c.collection < |h.owned| && h.owned[c.collection] == c.bytes == MemoryBytes(c.memory, size, c.length)
    && (forall p :: p in c.memory ==> p < c.length && (c.collection, p) !in h.records)
    && (forall p: nat {:trigger (c.collection, p) in h.records} :: (c.collection, p) in h.records ==> p < c.length && c.spilled)
    && (forall p: nat {:trigger p in c.memory} :: p < c.length && p !in c.memory ==> (c.collection, p) in h.records)
  }

  ghost predicate Good<T>(c: Cells<T>, h: Held<T>, size: T -> nat)
    decreases c
  {
    LocalGood(c, h, size) && AllGood(c.segments, h, size) && c.collection !in CollectionsOf(c.segments)
  }

  ghost predicate AllGood<T>(cs: seq<Cells<T>>, h: Held<T>, size: T -> nat)
    decreases cs
  {
    cs == [] ||
    (AllGood(cs[..|cs| - 1], h, size) && Good(cs[|cs| - 1], h, size) && CollectionsOf(cs[..|cs| - 1]) !! Collections(cs[|cs| - 1]))
  }

  ghost function LocalView<T>(c: Cells<T>, h: Held<T>, size: T -> nat): (v: seq<T>)
    requires LocalGood(c, h, size)
    ensures |v| == c.length
  {
    seq(c.length, p requires 0 <= p < c.length => if p in c.memory then c.memory[p] else h.records[(c.collection, p)])
  }

  ghost function View<T>(c: Cells<T>, h: Held<T>, size: T -> nat): (v: seq<T>)
    requires Good(c, h, size)
    ensures |v| == Length(c)
    decreases c
  {
    LocalView(c, h, size) + Views(c.segments, h, size)
  }

  ghost function Views<T>(cs: seq<Cells<T>>, h: Held<T>, size: T -> nat): (v: seq<T>)
    requires AllGood(cs, h, size)
    ensures |v| == Lengths(cs)
    decreases cs
  {
    if cs == [] then [] else Views(cs[..|cs| - 1], h, size) + View(cs[|cs| - 1], h, size)
  }

  // ---------------------------------------------------------------- segments side by side

  lemma {:induction false} SplitSegments<T>(a: seq<Cells<T>>, b: seq<Cells<T>>, h: Held<T>, size: T -> nat)
    ensures Lengths(a + b) == Lengths(a) + Lengths(b)
    ensures CollectionsOf(a + b) == CollectionsOf(a) + CollectionsOf(b)
    ensures AllGood(a + b, h, size) <==> AllGood(a, h, size) && AllGood(b, h, size) && CollectionsOf(a) !! CollectionsOf(b)
    ensures AllGood(a + b, h, size) ==> Views(a + b, h, size) == Views(a, h, size) + Views(b, h, size)
    decreases |b|
  {
    if b == [] {
      assert a + b == a;
    } else {
      var rest := b[..|b| - 1];
      assert (a + b)[..|a + b| - 1] == a + rest;
      SplitSegments(a, rest, h, size);
    }
  }

  lemma OneSegment<T>(c: Cells<T>, h: Held<T>, size: T -> nat)
    ensures Lengths([c]) == Length(c) && CollectionsOf([c]) == Collections(c)
    ensures AllGood([c], h, size) <==> Good(c, h, size)
    ensures AllGood([c], h, size) ==> Views([c], h, size) == View(c, h, size)
  {
    assert [c][..0] == [];
    assert Lengths<T>([]) == 0 && CollectionsOf<T>([]) == {};
  }

  // ---------------------------------------------------------------- work elsewhere changes nothing

  lemma {:induction false} LocalFrame<T>(c: Cells<T>, before: Held<T>, after: Held<T>, size: T -> nat, mine: set<nat>)
    requires LocalGood(c, before, size) && Untouched(before, after, mine) && c.collection !in mine
    ensures LocalGood(c, after, size) && LocalView(c, after, size) == LocalView(c, before, size)
  {
    forall p: nat
      ensures (c.collection, p) in after.records <==> (c.collection, p) in before.records
      ensures (c.collection, p) in before.records ==> after.records[(c.collection, p)] == before.records[(c.collection, p)]
    {
      assert SameRecord(before, after, c.collection, p);
    }
  }

  /** Work on other collections leaves a sequence as it is. */
  lemma {:induction false} Frame<T>(c: Cells<T>, before: Held<T>, after: Held<T>, size: T -> nat, mine: set<nat>)
    requires Good(c, before, size) && Untouched(before, after, mine) && Collections(c) !! mine
    ensures Good(c, after, size) && View(c, after, size) == View(c, before, size)
    decreases c
  {
    LocalFrame(c, before, after, size, mine);
    FrameAll(c.segments, before, after, size, mine);
  }

  lemma {:induction false} FrameAll<T>(cs: seq<Cells<T>>, before: Held<T>, after: Held<T>, size: T -> nat, mine: set<nat>)
    requires AllGood(cs, before, size) && Untouched(before, after, mine) && CollectionsOf(cs) !! mine
    ensures AllGood(cs, after, size) && Views(cs, after, size) == Views(cs, before, size)
    decreases cs
  {
    if cs != [] {
      FrameAll(cs[..|cs| - 1], before, after, size, mine);
      Frame(cs[|cs| - 1], before, after, size, mine);
    }
  }

  // ---------------------------------------------------------------- storing one record

  ghost function Charged<T>(memory: map<nat, T>, size: T -> nat, p: nat): nat {
    if p in memory then Cost(size, memory[p]) else 0
  }

  /** Two caches that differ at one position differ in their charge by that position. */
  lemma {:induction false} ChargeDiffers<T>(before: map<nat, T>, after: map<nat, T>, size: T -> nat, n: nat, p: nat)
    requires forall q: nat {:trigger q in after} {:trigger q in before} :: q < n && q != p ==>
      (q in after <==> q in before) && (q in before ==> after[q] == before[q])
    ensures p < n ==>
      MemoryBytes(after, size, n) + Charged(before, size, p) == MemoryBytes(before, size, n) + Charged(after, size, p)
    ensures p >= n ==> MemoryBytes(after, size, n) == MemoryBytes(before, size, n)
  {
    if n > 0 {
      ChargeDiffers(before, after, size, n - 1, p);
      assert n - 1 != p ==> (n - 1 in after <==> n - 1 in before);
    }
  }

  lemma {:induction false} ChargedWithin<T>(memory: map<nat, T>, size: T -> nat, n: nat, p: nat)
    requires p < n
    ensures Charged(memory, size, p) <= MemoryBytes(memory, size, n)
  {
    if p < n - 1 {
      ChargedWithin(memory, size, n - 1, p);
    }
  }

  function Put<T>(v: seq<T>, position: nat, value: T): seq<T>
    requires position <= |v|
  {
    if position < |v| then v[position := value] else v + [value]
  }

  /** The record goes into the cache. */
  lemma Cached<T>(c: Cells<T>, h: Held<T>, size: T -> nat, position: nat, value: T, bytes: nat)
    requires LocalGood(c, h, size) && position <= c.length && (!c.spilled || position in c.memory)
    requires bytes + Charged(c.memory, size, position) == c.bytes + Cost(size, value)
    ensures var r := c.(memory := c.memory[position := value], bytes := bytes, length := if position == c.length then c.length + 1 else c.length);
      var after := h.(owned := h.owned[c.collection := bytes]);
      LocalGood(r, after, size) && LocalView(r, after, size) == Put(LocalView(c, h, size), position, value)
  {
    var memory := c.memory[position := value];
    ChargeDiffers(c.memory, memory, size, c.length, position);
    var r := c.(memory := memory, bytes := bytes, length := if position == c.length then c.length + 1 else c.length);
    if position == c.length {
      assert Charged(c.memory, size, position) == 0;
      assert MemoryBytes(memory, size, r.length) == MemoryBytes(memory, size, c.length) + Cost(size, value);
    }
    var after := h.(owned := h.owned[c.collection := bytes]);
    assert LocalGood(r, after, size);
    assert LocalView(r, after, size) == Put(LocalView(c, h, size), position, value);
  }

  /** The record goes to disk, and leaves the cache only then. */
  lemma Spilled<T>(c: Cells<T>, h: Held<T>, size: T -> nat, position: nat, value: T, bytes: nat)
    requires LocalGood(c, h, size) && position <= c.length
    requires bytes + Charged(c.memory, size, position) == c.bytes
    ensures var r := c.(memory := c.memory - {position}, spilled := true, bytes := bytes, length := if position == c.length then c.length + 1 else c.length);
      var after := h.(owned := h.owned[c.collection := bytes], records := h.records[(c.collection, position) := value]);
      LocalGood(r, after, size) && LocalView(r, after, size) == Put(LocalView(c, h, size), position, value)
  {
    var memory := c.memory - {position};
    ChargeDiffers(c.memory, memory, size, c.length, position);
    var r := c.(memory := memory, spilled := true, bytes := bytes, length := if position == c.length then c.length + 1 else c.length);
    var after := h.(owned := h.owned[c.collection := bytes], records := h.records[(c.collection, position) := value]);
    assert LocalGood(r, after, size);
    assert LocalView(r, after, size) == Put(LocalView(c, h, size), position, value);
  }

  /** What storing a record locally does, whichever way it goes. */
  ghost predicate Stored<T>(c: Cells<T>, before: Held<T>, r: Cells<T>, after: Held<T>, size: T -> nat, position: nat, value: T)
    requires LocalGood(c, before, size) && position <= c.length
  {
    && Untouched(before, after, {c.collection})
    && LocalGood(r, after, size) && r.collection == c.collection && r.segments == c.segments
    && LocalView(r, after, size) == Put(LocalView(c, before, size), position, value)
  }

  /** The shared cache has room for the record in place of what it replaces. */
  ghost predicate Room<T>(store: StoreContext<T>, indexBytes: nat, held: nat, value: T) {
    indexBytes - held + Cost(store.size, value) <= store.cacheBytes / 2
  }

  lemma OwnCharge<T>(c: Cells<T>, h: Held<T>, size: T -> nat)
    requires LocalGood(c, h, size)
    ensures c.collection < |h.owned| && h.owned[c.collection] == c.bytes
  {
  }

  method TryCache<T>(store: StoreContext<T>, c: Cells<T>, position: nat, value: T, held: nat) returns (r: Cells<T>, granted: bool)
    requires store.Valid() && LocalGood(c, store.Now(), store.size) && position <= c.length
    requires !c.spilled || position in c.memory
    requires held == Charged(c.memory, store.size, position) && held <= c.bytes
    modifies store`indexBytes, store`owned
    ensures store.Valid()
    ensures granted <==> Room(store, old(store.indexBytes), held, value)
    ensures granted ==> r.memory == c.memory[position := value] && r.spilled == c.spilled
    ensures granted ==> Stored(c, old(store.Now()), r, store.Now(), store.size, position, value)
    ensures !granted ==> store.Now() == old(store.Now())
  {
    hide LocalGood;
    r := c;
    ghost var before := store.Now();
    OwnCharge(c, before, store.size);
    granted := store.Reserve(c.collection, held, Cost(store.size, value));
    if granted {
      var bytes := c.bytes - held + Cost(store.size, value);
      Cached(c, before, store.size, position, value, bytes);
      Recharged(before, c.collection, bytes);
      r := c.(memory := c.memory[position := value], bytes := bytes, length := if position == c.length then c.length + 1 else c.length);
    }
  }

  method Spill<T>(store: StoreContext<T>, c: Cells<T>, position: nat, value: T, held: nat) returns (r: Cells<T>, error: Failure)
    requires store.Valid() && LocalGood(c, store.Now(), store.size) && position <= c.length
    requires held == Charged(c.memory, store.size, position) && held <= c.bytes
    modifies store`indexBytes, store`owned, store`records
    ensures store.Valid()
    ensures error.Working? ==> Stored(c, old(store.Now()), r, store.Now(), store.size, position, value)
    ensures error.Working? ==> r.memory == c.memory - {position} && r.spilled
    ensures !error.Working? ==> r == c && store.Now() == old(store.Now())
  {
    r := c;
    error := store.DiskAnswers();
    assert store.owned[c.collection] == c.bytes && c.collection < |store.owned|;
    hide LocalGood, Stored;
    if error.Working? {
      ghost var before := store.Now();
      r := SpilledCells(c, position, c.bytes - held);
      store.Release(c.collection, held);
      store.records := store.records[(c.collection, position) := value];
      assert store.Now() == before.(owned := before.owned[c.collection := c.bytes - held], records := before.records[(c.collection, position) := value]);
      SpillStores(before, c, store.size, position, value, c.bytes - held);
    }
  }

  function SpilledCells<T>(c: Cells<T>, position: nat, bytes: nat): Cells<T> {
    c.(memory := c.memory - {position}, spilled := true, bytes := bytes, length := if position == c.length then c.length + 1 else c.length)
  }

  lemma SpillStores<T>(before: Held<T>, c: Cells<T>, size: T -> nat, position: nat, value: T, bytes: nat)
    requires LocalGood(c, before, size) && position <= c.length
    requires bytes + Charged(c.memory, size, position) == c.bytes
    ensures var after := before.(owned := before.owned[c.collection := bytes], records := before.records[(c.collection, position) := value]);
      Stored(c, before, SpilledCells(c, position, bytes), after, size, position, value)
  {
    Spilled(c, before, size, position, value, bytes);
    Rewritten(before, c.collection, bytes, position, value);
    hide LocalGood, LocalView, Untouched, Put, Charged;
  }

  /** Stores a record in the sequence's own part: in the cache while the cache takes it, and
      on disk otherwise. A write that fails leaves everything as it was. */
  method StoreLocal<T>(store: StoreContext<T>, c: Cells<T>, position: nat, value: T) returns (r: Cells<T>, error: Failure)
    requires store.Valid() && LocalGood(c, store.Now(), store.size) && position <= c.length
    modifies store`indexBytes, store`owned, store`records
    ensures store.Valid()
    ensures error.Working? ==> Stored(c, old(store.Now()), r, store.Now(), store.size, position, value)
    ensures !error.Working? ==> r == c && store.Now() == old(store.Now())
    ensures (!c.spilled || position in c.memory) && Room(store, old(store.indexBytes), Charged(c.memory, store.size, position), value)
      ==> error.Working? && r.memory == c.memory[position := value] && r.spilled == c.spilled
    ensures error.Working? && !((!c.spilled || position in c.memory) && Room(store, old(store.indexBytes), Charged(c.memory, store.size, position), value))
      ==> r.memory == c.memory - {position} && r.spilled
  {
    var held := if position in c.memory then Cost(store.size, c.memory[position]) else 0;
    if position in c.memory {
      ChargedWithin(c.memory, store.size, c.length, position);
    }
    hide Stored, LocalGood;
    var granted := false;
    r, error := c, Working;
    if !c.spilled || position in c.memory {
      r, granted := TryCache(store, c, position, value, held);
    }
    if !granted {
      r, error := Spill(store, c, position, value, held);
    }
  }

  // ---------------------------------------------------------------- storing through segments

  /** What storing a record does to a whole sequence. */
  ghost predicate Replaced<T>(c: Cells<T>, before: Held<T>, r: Cells<T>, after: Held<T>, size: T -> nat, position: nat, value: T)
    requires Good(c, before, size) && position <= Length(c)
  {
    && Untouched(before, after, Collections(c))
    && Good(r, after, size) && Collections(r) == Collections(c)
    && View(r, after, size) == Put(View(c, before, size), position, value)
  }

  lemma UntouchedWider<T>(before: Held<T>, after: Held<T>, small: set<nat>, large: set<nat>)
    requires Untouched(before, after, small) && small <= large
    ensures Untouched(before, after, large)
  {
  }

  lemma OwnPart<T>(c: Cells<T>, before: Held<T>, r: Cells<T>, after: Held<T>, size: T -> nat, position: nat, value: T)
    requires Good(c, before, size) && position <= c.length && (position < c.length || c.segments == [])
    requires Stored(c, before, r, after, size, position, value)
    ensures Length(c) >= position && Replaced(c, before, r, after, size, position, value)
  {
    hide LocalGood, LocalView, AllGood, Views, CollectionsOf, Untouched;
    FrameAll(c.segments, before, after, size, {c.collection});
    UntouchedWider(before, after, {c.collection}, Collections(c));
    var own, rest := LocalView(c, before, size), Views(c.segments, before, size);
    assert Put(own, position, value) + rest == Put(own + rest, position, value);
  }

  /** One segment of several, with those before and after it. */
  lemma AroundSegment<T>(cs: seq<Cells<T>>, k: nat, s: Cells<T>, h: Held<T>, size: T -> nat)
    requires k < |cs|
    ensures var a, b := cs[..k], cs[k + 1..];
      && Lengths(cs[k := s]) == Lengths(a) + Length(s) + Lengths(b)
      && CollectionsOf(cs[k := s]) == CollectionsOf(a) + Collections(s) + CollectionsOf(b)
      && (AllGood(cs[k := s], h, size) <==>
           && AllGood(a, h, size) && Good(s, h, size) && AllGood(b, h, size)
           && CollectionsOf(a) !! Collections(s) && CollectionsOf(a) + Collections(s) !! CollectionsOf(b))
      && (AllGood(cs[k := s], h, size) ==> Views(cs[k := s], h, size) == Views(a, h, size) + View(s, h, size) + Views(b, h, size))
  {
    var a, b := cs[..k], cs[k + 1..];
    assert cs[k := s] == a + [s] + b;
    SplitSegments(a + [s], b, h, size);
    SplitSegments(a, [s], h, size);
    OneSegment(s, h, size);
  }

  /** The segments before and after a changed one stay as they are. */
  lemma AmongSegments<T>(cs: seq<Cells<T>>, before: Held<T>, k: nat, s: Cells<T>, after: Held<T>, size: T -> nat)
    requires AllGood(cs, before, size) && k < |cs| && Good(s, after, size)
    requires Untouched(before, after, Collections(cs[k])) && Collections(s) == Collections(cs[k])
    ensures Collections(cs[k]) <= CollectionsOf(cs) == CollectionsOf(cs[k := s])
    ensures AllGood(cs[k := s], after, size) && Good(cs[k], before, size)
    ensures AllGood(cs[..k], before, size) && AllGood(cs[k + 1..], before, size)
    ensures Views(cs, before, size) == Views(cs[..k], before, size) + View(cs[k], before, size) + Views(cs[k + 1..], before, size)
    ensures Views(cs[k := s], after, size) == Views(cs[..k], before, size) + View(s, after, size) + Views(cs[k + 1..], before, size)
    ensures Lengths(cs) == Lengths(cs[..k]) + Length(cs[k]) + Lengths(cs[k + 1..])
  {
    assert cs[k := cs[k]] == cs;
    AroundSegment(cs, k, cs[k], before, size);
    AroundSegment(cs, k, s, after, size);
    FrameAll(cs[..k], before, after, size, Collections(cs[k]));
    FrameAll(cs[k + 1..], before, after, size, Collections(cs[k]));
  }

  lemma WithSegment<T>(c: Cells<T>, before: Held<T>, k: nat, s: Cells<T>, after: Held<T>, size: T -> nat)
    requires Good(c, before, size) && k < |c.segments| && Good(s, after, size)
    requires Untouched(before, after, Collections(c.segments[k])) && Collections(s) == Collections(c.segments[k])
    ensures var r := c.(segments := c.segments[k := s]);
      && Untouched(before, after, Collections(c)) && Good(r, after, size) && Collections(r) == Collections(c)
      && LocalView(r, after, size) == LocalView(c, before, size)
  {
    var r, mine := c.(segments := c.segments[k := s]), Collections(c.segments[k]);
    AmongSegments(c.segments, before, k, s, after, size);
    LocalFrame(c, before, after, size, mine);
    LocalOnly(c, r, after, size);
    UntouchedWider(before, after, mine, Collections(c));
  }

  /** A record stored in one segment, seen from the whole sequence. */
  lemma InSegment<T>(c: Cells<T>, before: Held<T>, k: nat, s: Cells<T>, after: Held<T>, size: T -> nat, remaining: nat, value: T)
    requires Good(c, before, size) && k < |c.segments|
    requires Good(c.segments[k], before, size) && remaining <= Length(c.segments[k])
    requires Replaced(c.segments[k], before, s, after, size, remaining, value)
    requires remaining < Length(c.segments[k]) || k == |c.segments| - 1
    ensures var position := c.length + Lengths(c.segments[..k]) + remaining;
      position <= Length(c) && Replaced(c, before, c.(segments := c.segments[k := s]), after, size, position, value)
  {
    hide LocalGood, LocalView, AllGood, Views, CollectionsOf, Untouched, Put;
    var cs, r := c.segments, c.(segments := c.segments[k := s]);
    WithSegment(c, before, k, s, after, size);
    AmongSegments(cs, before, k, s, after, size);
    if k == |cs| - 1 {
      NoSegments(cs[k + 1..], before, size);
    }
    PutInside(View(c, before, size), View(r, after, size), LocalView(c, before, size),
      Views(cs[..k], before, size), View(cs[k], before, size), View(s, after, size), Views(cs[k + 1..], before, size), remaining, value);
  }

  lemma NoSegments<T>(cs: seq<Cells<T>>, h: Held<T>, size: T -> nat)
    requires cs == []
    ensures AllGood(cs, h, size) && Views(cs, h, size) == []
  {
  }

  lemma PutInside<T>(whole: seq<T>, after: seq<T>, own: seq<T>, a: seq<T>, x: seq<T>, y: seq<T>, b: seq<T>, remaining: nat, value: T)
    requires whole == own + (a + x + b) && after == own + (a + y + b)
    requires remaining < |x| || (remaining == |x| && b == [])
    requires y == Put(x, remaining, value)
    ensures |own| + |a| + remaining <= |whole| && after == Put(whole, |own| + |a| + remaining, value)
  {
  }

  lemma LocalOnly<T>(c: Cells<T>, r: Cells<T>, h: Held<T>, size: T -> nat)
    requires LocalGood(c, h, size) && r == c.(segments := r.segments)
    ensures LocalGood(r, h, size) && LocalView(r, h, size) == LocalView(c, h, size)
  {
  }

  /** Finds the segment that owns a position; positions at the end belong to the last one. */
  method FindSegment<T>(segments: seq<Cells<T>>, position: nat) returns (k: nat, remaining: nat)
    requires segments != []
    ensures k < |segments| && Lengths(segments[..k]) + remaining == position
    ensures remaining < Length(segments[k]) || k == |segments| - 1
  {
    k, remaining := 0, position;
    assert Lengths(segments[..0]) == 0;
    while k < |segments| - 1 && remaining >= Length(segments[k])
      invariant k < |segments| && Lengths(segments[..k]) + remaining == position
      decreases |segments| - k
    {
      assert segments[..k + 1][..k] == segments[..k];
      remaining := remaining - Length(segments[k]);
      k := k + 1;
    }
  }

  lemma {:induction false} SegmentGood<T>(cs: seq<Cells<T>>, h: Held<T>, size: T -> nat, k: nat)
    requires AllGood(cs, h, size) && k < |cs|
    ensures Good(cs[k], h, size)
    ensures Lengths(cs[..k]) + Length(cs[k]) <= Lengths(cs) && (k == |cs| - 1 ==> Lengths(cs[..k]) + Length(cs[k]) == Lengths(cs))
  {
    if k < |cs| - 1 {
      SegmentGood(cs[..|cs| - 1], h, size, k);
      assert cs[..|cs| - 1][..k] == cs[..k];
    }
  }

  method Locate<T>(c: Cells<T>, position: nat, ghost h: Held<T>, ghost size: T -> nat) returns (k: nat, remaining: nat)
    requires Good(c, h, size) && c.length <= position <= Length(c) && c.segments != []
    ensures k < |c.segments| && Good(c.segments[k], h, size) && remaining <= Length(c.segments[k])
    ensures position == c.length + Lengths(c.segments[..k]) + remaining
    ensures remaining < Length(c.segments[k]) || k == |c.segments| - 1
  {
    k, remaining := FindSegment(c.segments, position - c.length);
    SegmentGood(c.segments, h, size, k);
  }

  lemma OwnIsGood<T>(c: Cells<T>, h: Held<T>, size: T -> nat)
    requires Good(c, h, size)
    ensures LocalGood(c, h, size) && (c.segments == [] ==> Length(c) == c.length)
  {
  }

  /** Stores a record at a position, or appends it at the end. */
  method StoreAt<T>(store: StoreContext<T>, c: Cells<T>, position: nat, value: T) returns (r: Cells<T>, error: Failure)
    requires store.Valid() && Good(c, store.Now(), store.size) && position <= Length(c)
    modifies store`indexBytes, store`owned, store`records
    ensures store.Valid()
    ensures error.Working? ==> Replaced(c, old(store.Now()), r, store.Now(), store.size, position, value)
    ensures !error.Working? ==> r == c && store.Now() == old(store.Now())
    decreases c
  {
    hide Good, LocalGood, AllGood, Replaced, Stored, Untouched, View, Views, Length, Lengths;
    ghost var before := store.Now();
    OwnIsGood(c, before, store.size);
    if position >= c.length && c.segments != [] {
      var k, remaining := Locate(c, position, before, store.size);
      var s;
      s, error := StoreAt(store, c.segments[k], remaining, value);
      r := c;
      if error.Working? {
        InSegment(c, before, k, s, store.Now(), store.size, remaining, value);
        r := c.(segments := c.segments[k := s]);
      }
    } else {
      r, error := StoreLocal(store, c, position, value);
      if error.Working? {
        OwnPart(c, before, r, store.Now(), store.size, position, value);
      }
    }
  }

  /** Reads one record: from the cache, from disk, or from a segment. */
  method ReadAt<T>(store: StoreContext<T>, c: Cells<T>, position: nat) returns (value: Option<T>)
    requires store.Valid() && Good(c, store.Now(), store.size)
    modifies store`failure
    ensures value.Some? ==> position < Length(c) && value.value == View(c, store.Now(), store.size)[position]
    ensures value.None? && position < Length(c) ==> !store.failure.Working?
    ensures !old(store.failure).Working? ==> value.None?
    ensures value.Some? ==> store.failure == old(store.failure)
    ensures !old(store.failure).Working? ==> !store.failure.Working?
    decreases c
  {
    value := None;
    if !store.failure.Working? {
      return;
    }
    if position >= c.length {
      if c.segments != [] && position - c.length < Lengths(c.segments) {
        var k, remaining := FindSegment(c.segments, position - c.length);
        SegmentGood(c.segments, store.Now(), store.size, k);
        value := ReadAt(store, c.segments[k], remaining);
        SegmentReads(c.segments, store.Now(), store.size, k, remaining);
      }
    } else {
      value := ReadLocal(store, c, position);
    }
  }

  /** Reads a record of the sequence's own part. */
  method ReadLocal<T>(store: StoreContext<T>, c: Cells<T>, position: nat) returns (value: Option<T>)
    requires store.Valid() && Good(c, store.Now(), store.size) && position < c.length && store.failure.Working?
    modifies store`failure
    ensures value.Some? ==> value.value == View(c, store.Now(), store.size)[position] && store.failure.Working?
    ensures value.None? ==> !store.failure.Working?
  {
    value := None;
    if position in c.memory {
      value := Some(c.memory[position]);
    } else if c.spilled {
      var error := store.DiskAnswers();
      if error.Working? {
        value := Some(store.records[(c.collection, position)]);
      } else {
        store.RecordError(error);
      }
    }
  }

  lemma {:induction false} SegmentReads<T>(cs: seq<Cells<T>>, h: Held<T>, size: T -> nat, k: nat, remaining: nat)
    requires AllGood(cs, h, size) && k < |cs| && Good(cs[k], h, size) && remaining < Length(cs[k])
    ensures Lengths(cs[..k]) + remaining < Lengths(cs)
    ensures Views(cs, h, size)[Lengths(cs[..k]) + remaining] == View(cs[k], h, size)[remaining]
  {
    if k < |cs| - 1 {
      SegmentReads(cs[..|cs| - 1], h, size, k, remaining);
      assert cs[..|cs| - 1][..k] == cs[..k];
    }
  }

  // ---------------------------------------------------------------- dropping

  lemma Released<T>(c: Cells<T>, h: Held<T>, size: T -> nat)
    requires Good(c, h, size)
    ensures Untouched(h, h.(owned := h.owned[c.collection := 0]), {c.collection})
    ensures AllGood(c.segments, h.(owned := h.owned[c.collection := 0]), size)
  {
    Recharged(h, c.collection, 0);
    FrameAll(c.segments, h, h.(owned := h.owned[c.collection := 0]), size, {c.collection});
  }

  lemma UntouchedTwice<T>(a: Held<T>, b: Held<T>, c: Held<T>, first: set<nat>, second: set<nat>)
    requires Untouched(a, b, first) && Untouched(b, c, second)
    ensures Untouched(a, c, first + second)
  {
    forall d: nat, p: nat | d < |a.owned| && d !in first + second
      ensures SameRecord(a, c, d, p)
    {
      assert SameRecord(a, b, d, p) && SameRecord(b, c, d, p);
    }
  }

  /** Dropping a sequence gives back what it held, and what its segments held. */
  method Drop<T>(store: StoreContext<T>, c: Cells<T>)
    requires store.Valid() && Good(c, store.Now(), store.size)
    modifies store`indexBytes, store`owned
    ensures store.Valid() && Untouched(old(store.Now()), store.Now(), Collections(c))
    ensures forall k :: k in Collections(c) ==> k < |store.owned| && store.owned[k] == 0
    decreases c, 1
  {
    ghost var before := store.Now();
    Released(c, before, store.size);
    store.Release(c.collection, c.bytes);
    ghost var between := store.Now();
    DropAll(store, c.segments);
    UntouchedTwice(before, between, store.Now(), {c.collection}, CollectionsOf(c.segments));
  }

  method DropAll<T>(store: StoreContext<T>, cs: seq<Cells<T>>)
    requires store.Valid() && AllGood(cs, store.Now(), store.size)
    modifies store`indexBytes, store`owned
    ensures store.Valid() && Untouched(old(store.Now()), store.Now(), CollectionsOf(cs))
    ensures forall k :: k in CollectionsOf(cs) ==> k < |store.owned| && store.owned[k] == 0
    decreases cs, 0
  {
    ghost var before := store.Now();
    if cs == [] {
      Unchanged(before, {});
      return;
    }
    var rest, last := cs[..|cs| - 1], cs[|cs| - 1];
    DropAll(store, rest);
    ghost var between := store.Now();
    Frame(last, before, between, store.size, CollectionsOf(rest));
    Drop(store, last);
    UntouchedTwice(before, between, store.Now(), CollectionsOf(rest), Collections(last));
  }

  lemma Unchanged<T>(h: Held<T>, mine: set<nat>)
    ensures Untouched(h, h, mine)
  {
  }

  // ---------------------------------------------------------------- the work sequence

  lemma FreshCells<T>(h: Held<T>, size: T -> nat)
    requires forall key :: key in h.records ==> key.0 < |h.owned|
    ensures var after := h.(owned := h.owned + [0]);
      var c := Cells(|h.owned|, map[], false, 0, 0, []);
      Untouched(h, after, {}) && Good(c, after, size) && View(c, after, size) == [] && Collections(c) == {|h.owned|}
  {
    var after := h.(owned := h.owned + [0]);
    forall d: nat, p: nat
      ensures SameRecord(h, after, d, p)
    {
    }
  }

  method NewCells<T>(store: StoreContext<T>) returns (c: Cells<T>)
    requires store.Valid()
    modifies store`nextCollection, store`owned
    ensures store.Valid() && Untouched(old(store.Now()), store.Now(), {})
    ensures Good(c, store.Now(), store.size) && View(c, store.Now(), store.size) == []
    ensures Collections(c) == {|old(store.owned)|} && |store.owned| == |old(store.owned)| + 1
  {
    FreshCells(store.Now(), store.size);
    var collection := store.NewCollection();
    c := Cells(collection, map[], false, 0, 0, []);
  }

  /** A sequence of the private store. */
  class Sequence<T(==)> {
    const store: StoreContext<T>
    var cells: Cells<T>

    ghost predicate Valid()
      reads this, store
    {
      store.Valid() && Good(cells, store.Now(), store.size)
    }

    ghost function Contents(): seq<T>
      requires Valid()
      reads this, store
    {
      View(cells, store.Now(), store.size)
    }

    constructor (store: StoreContext<T>)
      requires store.Valid()
      modifies store`nextCollection, store`owned
      ensures Valid() && this.store == store && Contents() == []
      ensures Untouched(old(store.Now()), store.Now(), {}) && Collections(cells) == {|old(store.owned)|}
    {
      var empty := NewCells(store);
      this.store, cells := store, empty;
    }

    /** Appends a record, unless the store has failed or fails now. */
    method Push(value: T)
      requires Valid()
      modifies this`cells, store`indexBytes, store`owned, store`records, store`failure
      ensures Valid() && Collections(cells) == Collections(old(cells))
      ensures Untouched(old(store.Now()), store.Now(), Collections(cells))
      ensures Contents() == if store.failure.Working? then old(Contents()) + [value] else old(Contents())
      ensures !old(store.failure).Working? ==> !store.failure.Working?
    {
      if store.failure.Working? {
        var error;
        cells, error := StoreAt(store, cells, Length(cells), value);
        store.RecordError(error);
      }
      if !store.failure.Working? {
        Unchanged(store.Now(), Collections(cells));
      }
    }

    /** Reads a record by position. */
    method Get(position: nat) returns (value: Option<T>)
      requires Valid()
      modifies store`failure
      ensures Valid() && cells == old(cells) && store.Now() == old(store.Now())
      ensures value.Some? ==> position < |Contents()| && value.value == Contents()[position]
      ensures store.failure.Working? ==> (value.Some? <==> position < |Contents()|)
      ensures !old(store.failure).Working? ==> !store.failure.Working?
    {
      value := ReadAt(store, cells, position);
    }

    /** Changes a record in place. If the changed record cannot be written back, the old one
        stays. */
    method Edit(position: nat, change: T -> T) returns (done: bool)
      requires Valid()
      modifies this`cells, store`indexBytes, store`owned, store`records, store`failure
      ensures Valid() && Collections(cells) == Collections(old(cells))
      ensures Untouched(old(store.Now()), store.Now(), Collections(cells))
      ensures done ==> position < |old(Contents())| && Contents() == old(Contents())[position := change(old(Contents())[position])]
      ensures !done ==> Contents() == old(Contents())
      ensures store.failure.Working? && position < |old(Contents())| ==> done
      ensures !old(store.failure).Working? ==> !store.failure.Working?
    {
      done := false;
      var value := Get(position);
      if value.Some? {
        var error;
        cells, error := StoreAt(store, cells, position, change(value.value));
        done := error.Working?;
        store.RecordError(error);
      }
      if !done {
        Unchanged(store.Now(), Collections(cells));
      }
    }

    /** Moves the records of another sequence to the end of this one, without copying them. */
    method Append(other: Sequence<T>)
      requires Valid() && other.Valid() && other.store == store && other != this
      requires Collections(cells) !! Collections(other.cells)
      modifies this`cells, other`cells, store`nextCollection, store`owned
      ensures Valid() && other.Valid()
      ensures Contents() == old(Contents()) + old(other.Contents()) && other.Contents() == []
      ensures Untouched(old(store.Now()), store.Now(), {})
      ensures Collections(cells) !! Collections(other.cells)
      ensures Collections(cells) + Collections(other.cells) <= old(Collections(cells)) + old(Collections(other.cells)) + {|old(store.owned)|}
    {
      hide Good, View, Untouched, LocalGood, LocalView, Length, Collections;
      ghost var before := store.Now();
      if Length(other.cells) > 0 {
        var moved := other.cells;
        var empty := NewCells(store);
        Frame(cells, before, store.Now(), store.size, {});
        Frame(moved, before, store.Now(), store.size, {});
        MoveSegment(cells, moved, store.Now(), store.size);
        CollectionsExist(cells, before, store.size);
        CollectionsExist(moved, before, store.size);
        cells := cells.(segments := cells.segments + [moved]);
        other.cells := empty;
      } else {
        Unchanged(before, {});
      }
    }
  }

  function Kept<T>(values: seq<T>, keep: T -> bool): seq<T> {
    if values == [] then []
    else
      var last := values[|values| - 1];
      Kept(values[..|values| - 1], keep) + (if keep(last) then [last] else [])
  }

  /** Reads one record and copies it if `keep` accepts it. */
  method CopyOne<T>(store: StoreContext<T>, cells: Cells<T>, n: nat, keep: T -> bool, retained: Sequence<T>) returns (answered: bool)
    requires retained.store == store && retained.Valid() && n < Length(cells)
    requires Good(cells, store.Now(), store.size) && Collections(cells) !! Collections(retained.cells)
    modifies retained`cells, store`indexBytes, store`owned, store`records, store`failure
    ensures retained.Valid() && Collections(retained.cells) == Collections(old(retained.cells))
    ensures Untouched(old(store.Now()), store.Now(), Collections(retained.cells))
    ensures Good(cells, store.Now(), store.size) && View(cells, store.Now(), store.size) == View(cells, old(store.Now()), store.size)
    ensures !old(store.failure).Working? ==> !store.failure.Working?
    ensures store.failure.Working? ==>
      var value := View(cells, old(store.Now()), store.size)[n];
      answered && retained.Contents() == if keep(value) then old(retained.Contents()) + [value] else old(retained.Contents())
  {
    ghost var before := store.Now();
    var value := ReadAt(store, cells, n);
    answered := value.Some?;
    if answered {
      PushIf(retained, value.value, keep);
    } else {
      Unchanged(before, Collections(retained.cells));
    }
    Frame(cells, before, store.Now(), store.size, Collections(retained.cells));
  }

  /** The same as one step of a copy that began at `before`. */
  method CopyNext<T>(store: StoreContext<T>, cells: Cells<T>, n: nat, keep: T -> bool, retained: Sequence<T>, ghost before: Held<T>, ghost values: seq<T>)
    returns (answered: bool)
    requires retained.store == store && retained.Valid() && n < Length(cells)
    requires Good(cells, store.Now(), store.size) && Collections(cells) !! Collections(retained.cells)
    requires values == View(cells, store.Now(), store.size) && Untouched(before, store.Now(), Collections(retained.cells))
    requires store.failure.Working? ==> retained.Contents() == Kept(values[..n], keep)
    modifies retained`cells, store`indexBytes, store`owned, store`records, store`failure
    ensures retained.Valid() && Collections(retained.cells) == Collections(old(retained.cells))
    ensures Untouched(before, store.Now(), Collections(retained.cells))
    ensures Good(cells, store.Now(), store.size) && View(cells, store.Now(), store.size) == values
    ensures store.failure.Working? ==> answered && retained.Contents() == Kept(values[..n + 1], keep)
  {
    hide Good, View, Untouched, Collections, Length, Kept;
    ghost var between, mine := store.Now(), Collections(retained.cells);
    answered := CopyOne(store, cells, n, keep, retained);
    KeptStep(values, n, keep);
    UntouchedTwice(before, between, store.Now(), mine, mine);
    assert mine + mine == mine;
  }

  /** Copies the records that `keep` accepts; `proceed` is asked before each record. */
  method CopyKept<T>(store: StoreContext<T>, cells: Cells<T>, keep: T -> bool, proceed: nat -> bool, retained: Sequence<T>) returns (ghost read: nat)
    requires retained.store == store && retained.Valid() && retained.Contents() == []
    requires Good(cells, store.Now(), store.size) && Collections(cells) !! Collections(retained.cells)
    modifies retained`cells, store`indexBytes, store`owned, store`records, store`failure
    ensures retained.Valid() && Collections(retained.cells) == Collections(old(retained.cells))
    ensures Untouched(old(store.Now()), store.Now(), Collections(retained.cells))
    ensures read <= |View(cells, old(store.Now()), store.size)|
    ensures store.failure.Working? ==>
      && retained.Contents() == Kept(View(cells, old(store.Now()), store.size)[..read], keep)
      && ((forall n :: 0 <= n < Length(cells) ==> proceed(n)) ==> read == Length(cells))
  {
    ghost var before, values, mine := store.Now(), View(cells, store.Now(), store.size), Collections(retained.cells);
    hide Good, View, Untouched, Collections, Length;
    Unchanged(before, mine);
    assert values[..0] == [];
    var n := 0;
    var answered := true;
    while answered && n < Length(cells) && proceed(n)
      invariant n <= Length(cells) && retained.Valid() && Collections(retained.cells) == mine
      invariant Good(cells, store.Now(), store.size) && View(cells, store.Now(), store.size) == values
      invariant Untouched(before, store.Now(), mine)
      invariant store.failure.Working? ==> answered && retained.Contents() == Kept(values[..n], keep)
      decreases Length(cells) - n
    {
      answered := CopyNext(store, cells, n, keep, retained, before, values);
      n := n + 1;
    }
    read := n;
  }

  lemma KeptStep<T>(values: seq<T>, n: nat, keep: T -> bool)
    requires n < |values|
    ensures Kept(values[..n + 1], keep) == if keep(values[n]) then Kept(values[..n], keep) + [values[n]] else Kept(values[..n], keep)
  {
    assert values[..n + 1][..n] == values[..n];
  }

  method PushIf<T>(retained: Sequence<T>, value: T, keep: T -> bool)
    requires retained.Valid()
    modifies retained`cells, retained.store`indexBytes, retained.store`owned, retained.store`records, retained.store`failure
    ensures retained.Valid() && Collections(retained.cells) == Collections(old(retained.cells))
    ensures Untouched(old(retained.store.Now()), retained.store.Now(), Collections(retained.cells))
    ensures !old(retained.store.failure).Working? ==> !retained.store.failure.Working?
    ensures retained.store.failure.Working? ==> retained.Contents() == if keep(value) then old(retained.Contents()) + [value] else old(retained.Contents())
  {
    if keep(value) {
      retained.Push(value);
    } else {
      Unchanged(retained.store.Now(), Collections(retained.cells));
    }
  }

  lemma OlderUntouched<T>(before: Held<T>, after: Held<T>, mine: set<nat>, newer: set<nat>)
    requires Untouched(before, after, mine + newer) && forall c :: c in newer ==> c >= |before.owned|
    ensures Untouched(before, after, mine)
  {
  }

  /** Rebuilds a sequence with the records that `keep` accepts, and gives back what the old
      one held. When `proceed` says no, or the store fails, the rest is left out. */
  method Retain<T>(sequence: Sequence<T>, keep: T -> bool, proceed: nat -> bool) returns (ghost read: nat)
    requires sequence.Valid()
    modifies sequence`cells, sequence.store
    ensures sequence.Valid() && read <= |old(sequence.Contents())|
    ensures sequence.store.failure.Working? ==>
      && sequence.Contents() == Kept(old(sequence.Contents())[..read], keep)
      && ((forall n :: 0 <= n < |old(sequence.Contents())| ==> proceed(n)) ==> read == |old(sequence.Contents())|)
    ensures Untouched(old(sequence.store.Now()), sequence.store.Now(), old(Collections(sequence.cells)))
  {
    var store, cells := sequence.store, sequence.cells;
    ghost var before := store.Now();
    CollectionsExist(cells, before, store.size);
    hide Good, View, Untouched, LocalGood, LocalView, Kept;
    var retained := new Sequence(store);
    ghost var created, mine := store.Now(), Collections(retained.cells);
    Frame(cells, before, created, store.size, {});
    read := CopyKept(store, cells, keep, proceed, retained);
    ghost var copied := store.Now();
    Frame(cells, created, copied, store.size, mine);
    Drop(store, cells);
    Frame(retained.cells, copied, store.Now(), store.size, Collections(cells));
    UntouchedTwice(before, created, copied, {}, mine);
    UntouchedTwice(before, copied, store.Now(), {} + mine, Collections(cells));
    assert {} + mine + Collections(cells) == Collections(cells) + mine;
    OlderUntouched(before, store.Now(), Collections(cells), mine);
    sequence.cells := retained.cells;
  }

  lemma {:induction false} CollectionsExist<T>(c: Cells<T>, h: Held<T>, size: T -> nat)
    requires Good(c, h, size)
    ensures forall k :: k in Collections(c) ==> k < |h.owned|
    decreases c, 1
  {
    AllCollectionsExist(c.segments, h, size);
  }

  lemma {:induction false} AllCollectionsExist<T>(cs: seq<Cells<T>>, h: Held<T>, size: T -> nat)
    requires AllGood(cs, h, size)
    ensures forall k :: k in CollectionsOf(cs) ==> k < |h.owned|
    decreases cs, 0
  {
    if cs != [] {
      AllCollectionsExist(cs[..|cs| - 1], h, size);
      CollectionsExist(cs[|cs| - 1], h, size);
    }
  }

  lemma MoveSegment<T>(c: Cells<T>, moved: Cells<T>, h: Held<T>, size: T -> nat)
    requires Good(c, h, size) && Good(moved, h, size) && Collections(c) !! Collections(moved)
    ensures var r := c.(segments := c.segments + [moved]);
      && Good(r, h, size) && Collections(r) == Collections(c) + Collections(moved)
      && View(r, h, size) == View(c, h, size) + View(moved, h, size)
  {
    hide LocalGood, LocalView, AllGood, Views, CollectionsOf;
    var r := c.(segments := c.segments + [moved]);
    SplitSegments(c.segments, [moved], h, size);
    OneSegment(moved, h, size);
    LocalOnly(c, r, h, size);
    assert View(r, h, size) == LocalView(c, h, size) + (Views(c.segments, h, size) + View(moved, h, size));
  }
}
