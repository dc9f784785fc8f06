/** Work indexes: a cached part and a spilled part that together behave as one plain map, and
    whose keys can be walked in order. */
module SpillingMap {
  import opened Wrappers
  import opened Store
  import opened KeyCodec

  datatype Index<T> = Index(collection: nat, memory: map<Key, T>, spilled: bool, bytes: nat)

  function Cost<T>(size: T -> nat, key: Key, value: T): nat {
    (|key| + size(value) + 64) * 4
  }

  /** The cache bytes of all cached entries. */
  ghost function CachedBytes<T>(memory: map<Key, T>, size: T -> nat): nat
    decreases |memory|
  {
    if memory == map[] then 0
    else
      var key :| key in memory;
      Cost(size, key, memory[key]) + CachedBytes(memory - {key}, size)
  }

  /** Any entry may be counted first. */
  lemma {:induction false} CachedWithout<T>(memory: map<Key, T>, size: T -> nat, key: Key)
    requires key in memory
    ensures CachedBytes(memory, size) == Cost(size, key, memory[key]) + CachedBytes(memory - {key}, size)
    decreases |memory|
  {
    var first :| first in memory && CachedBytes(memory, size) == Cost(size, first, memory[first]) + CachedBytes(memory - {first}, size);
    if first != key {
      var without := memory - {first};
      CachedWithout(without, size, key);
      CachedWithout(memory - {key}, size, first);
      assert without - {key} == memory - {key} - {first};
    }
  }

  lemma CachedWith<T>(memory: map<Key, T>, size: T -> nat, key: Key, value: T)
    ensures CachedBytes(memory[key := value], size) == Cost(size, key, value) + CachedBytes(memory - {key}, size)
  {
    CachedWithout(memory[key := value], size, key);
    assert memory[key := value] - {key} == memory - {key};
  }

  ghost function Charged<T>(m: Index<T>, size: T -> nat, key: Key): nat {
    if key in m.memory then Cost(size, key, m.memory[key]) else 0
  }

  lemma ChargedWithout<T>(m: Index<T>, size: T -> nat, key: Key)
    ensures CachedBytes(m.memory, size) == Charged(m, size, key) + CachedBytes(m.memory - {key}, size)
  {
    if key in m.memory {
      CachedWithout(m.memory, size, key);
    } else {
      assert m.memory - {key} == m.memory;
    }
  }

  // ---------------------------------------------------------------- what an index stands for

  /** Every entry is in the cache or on disk and never in both, and the cache is charged for
      exactly what it holds. */
  ghost predicate Good<T>(m: Index<T>, h: Held<T>, size: T -> nat) {
    && m.collection < |h.owned| && h.owned[m.collection] == m.bytes == CachedBytes(m.memory, size)
    && m.memory.Keys !! h.Table(m.collection).Keys && (!m.spilled ==> h.Table(m.collection) == map[])
  }

  function View<T>(m: Index<T>, h: Held<T>): map<Key, T> {
    h.Table(m.collection) + m.memory
  }

  lemma EntryFrame<T>(m: Index<T>, before: Held<T>, after: Held<T>, size: T -> nat, mine: set<nat>)
    requires Good(m, before, size) && Untouched(before, after, mine) && m.collection !in mine
    ensures Good(m, after, size) && View(m, after) == View(m, before)
  {
  }

  /** What a change to one entry does. */
  ghost predicate Changed<T>(m: Index<T>, before: Held<T>, r: Index<T>, after: Held<T>, size: T -> nat, view: map<Key, T>) {
    && Untouched(before, after, {m.collection})
    && Good(r, after, size) && r.collection == m.collection && View(r, after) == view
  }

  function WithTable<T>(h: Held<T>, c: nat, bytes: nat, table: map<Key, T>): Held<T>
    requires c < |h.owned|
  {
    h.(owned := h.owned[c := bytes], entries := h.entries[c := table])
  }

  lemma TableChanged<T>(h: Held<T>, c: nat, bytes: nat, table: map<Key, T>)
    requires c < |h.owned|
    ensures Untouched(h, WithTable(h, c, bytes, table), {c}) && WithTable(h, c, bytes, table).Table(c) == table
  {
    var after := WithTable(h, c, bytes, table);
    forall d: nat, p: nat
      ensures SameRecord(h, after, d, p)
    {
    }
  }

  lemma Cached<T>(m: Index<T>, h: Held<T>, size: T -> nat, key: Key, value: T)
    requires Good(m, h, size) && (!m.spilled || key in m.memory)
    ensures Charged(m, size, key) <= m.bytes
    ensures var bytes := m.bytes - Charged(m, size, key) + Cost(size, key, value);
      Changed(m, h, m.(memory := m.memory[key := value], bytes := bytes), h.(owned := h.owned[m.collection := bytes]), size, View(m, h)[key := value])
  {
    ChargedWithout(m, size, key);
    CachedWith(m.memory, size, key, value);
    Recharged(h, m.collection, m.bytes - Charged(m, size, key) + Cost(size, key, value));
    assert h.Table(m.collection) + m.memory[key := value] == (h.Table(m.collection) + m.memory)[key := value];
  }

  lemma Spilled<T>(m: Index<T>, h: Held<T>, size: T -> nat, key: Key, value: T)
    requires Good(m, h, size)
    ensures Charged(m, size, key) <= m.bytes
    ensures var bytes := m.bytes - Charged(m, size, key);
      Changed(m, h, m.(memory := m.memory - {key}, spilled := true, bytes := bytes),
        WithTable(h, m.collection, bytes, h.Table(m.collection)[key := value]), size, View(m, h)[key := value])
  {
    ChargedWithout(m, size, key);
    TableChanged(h, m.collection, m.bytes - Charged(m, size, key), h.Table(m.collection)[key := value]);
    assert h.Table(m.collection)[key := value] + (m.memory - {key}) == (h.Table(m.collection) + m.memory)[key := value];
  }

  lemma Uncached<T>(m: Index<T>, h: Held<T>, size: T -> nat, key: Key)
    requires Good(m, h, size) && key in m.memory
    ensures Charged(m, size, key) <= m.bytes
    ensures var bytes := m.bytes - Charged(m, size, key);
      Changed(m, h, m.(memory := m.memory - {key}, bytes := bytes), h.(owned := h.owned[m.collection := bytes]), size, View(m, h) - {key})
  {
    ChargedWithout(m, size, key);
    Recharged(h, m.collection, m.bytes - Charged(m, size, key));
    assert h.Table(m.collection) + (m.memory - {key}) == (h.Table(m.collection) + m.memory) - {key};
  }

  lemma Erased<T>(m: Index<T>, h: Held<T>, size: T -> nat, key: Key)
    requires Good(m, h, size) && key !in m.memory
    ensures Changed(m, h, m, WithTable(h, m.collection, m.bytes, h.Table(m.collection) - {key}), size, View(m, h) - {key})
  {
    TableChanged(h, m.collection, m.bytes, h.Table(m.collection) - {key});
    assert (h.Table(m.collection) - {key}) + m.memory == (h.Table(m.collection) + m.memory) - {key};
  }

  // ---------------------------------------------------------------- walking the keys

  ghost function After(keys: set<Key>, previous: Option<Key>): set<Key> {
    set key | key in keys && (previous.None? || Less(previous.value, key))
  }

  lemma LeastUnion(a: set<Key>, b: set<Key>, x: Key, y: Key)
    requires Least(a, x) && Least(b, y)
    ensures Less(x, y) || x == y ==> Least(a + b, x)
    ensures Less(y, x) ==> Least(a + b, y)
  {
    forall other | other in a + b
      ensures (Less(x, y) || x == y) && other != x ==> Less(x, other)
      ensures Less(y, x) && other != y ==> Less(y, other)
    {
      if Less(x, y) && other in b && other != y {
        LessTransitive(x, y, other);
      }
      if Less(y, x) && other in a && other != x {
        LessTransitive(y, x, other);
      }
    }
  }

  function SmallerOf(a: Option<Key>, b: Option<Key>): Option<Key> {
    if a.None? then b else if b.None? then a else if Less(b.value, a.value) then b else a
  }

  ghost predicate Next(keys: set<Key>, key: Option<Key>) {
    if key.None? then keys == {} else Least(keys, key.value)
  }

  lemma AfterUnion(a: set<Key>, b: set<Key>, previous: Option<Key>)
    ensures After(a + b, previous) == After(a, previous) + After(b, previous)
    ensures b == {} ==> After(b, previous) == {}
    ensures forall key :: key in After(a + b, previous) ==> key in a + b && (previous.Some? ==> Less(previous.value, key))
  {
  }

  /** The smaller of the next cached key and the next key on disk is the next key. */
  lemma SmallerIsNext(a: set<Key>, b: set<Key>, x: Option<Key>, y: Option<Key>)
    requires Next(a, x) && Next(b, y)
    ensures Next(a + b, SmallerOf(x, y))
  {
    if x.Some? && y.Some? {
      LessTotal(x.value, y.value);
      LessTotal(y.value, x.value);
      LeastUnion(a, b, x.value, y.value);
    } else {
      assert x.None? ==> a + b == b;
      assert y.None? ==> a + b == a;
    }
  }

  /** The smallest key of a set after the previous one. */
  method NextOf(keys: set<Key>, previous: Option<Key>) returns (key: Option<Key>)
    ensures Next(After(keys, previous), key)
  {
    var rest := set k | k in keys && (previous.None? || Less(previous.value, k));
    assert rest == After(keys, previous);
    if rest == {} {
      return None;
    }
    ghost var least := LeastExists(rest);
    var chosen: Key :| chosen in rest && Least(rest, chosen);
    key := Some(chosen);
  }

  // ---------------------------------------------------------------- the work index

  class IndexMap<T(==)> {
    const store: StoreContext<T>
    var index: Index<T>

    ghost predicate Valid()
      reads this, store
    {
      store.Valid() && Good(index, store.Now(), store.size)
    }

    ghost function Contents(): map<Key, T>
      reads this, store
    {
      View(index, store.Now())
    }

    constructor (store: StoreContext<T>)
      requires store.Valid()
      modifies store`nextCollection, store`owned
      ensures Valid() && this.store == store && Contents() == map[]
      ensures Untouched(old(store.Now()), store.Now(), {}) && index.collection == |old(store.owned)|
    {
      ghost var before := store.Now();
      var collection := store.NewCollection();
      NewUntouched(before);
      this.store := store;
      index := Index(collection, map[], false, 0);
    }

    /** Reads an entry, cached or spilled. */
    method Get(key: Key) returns (value: Option<T>)
      requires Valid()
      modifies store`failure
      ensures Valid() && Contents() == old(Contents())
      ensures value.Some? ==> key in Contents() && value.value == Contents()[key]
      ensures store.failure.Working? ==> (value.Some? <==> key in Contents())
      ensures !old(store.failure).Working? ==> !store.failure.Working?
    {
      value := None;
      if !store.failure.Working? {
        return;
      }
      if key in index.memory {
        value := Some(index.memory[key]);
      } else if index.spilled {
        var error := store.DiskAnswers();
        store.RecordError(error);
        if error.Working? && index.collection in store.entries && key in store.entries[index.collection] {
          value := Some(store.entries[index.collection][key]);
        }
      }
    }

    /** The entries are now `view`, nothing of other collections was touched, and the books
        are in order. */
    twostate predicate Becomes(view: map<Key, T>)
      reads this, store
    {
      store.Valid() && Changed(old(index), old(store.Now()), index, store.Now(), store.size, view)
    }

    /** Writes an entry: in the cache while it fits, on disk otherwise. A failed write changes
        nothing. */
    method Put(key: Key, value: T) returns (error: Failure)
      requires Valid()
      modifies this`index, store`indexBytes, store`owned, store`entries
      ensures Becomes(if error.Working? then old(Contents())[key := value] else old(Contents()))
    {
      var held := if key in index.memory then Cost(store.size, key, index.memory[key]) else 0;
      NoChange(index, store.Now(), store.size);
      hide Changed, View, Untouched;
      var granted := false;
      error := Working;
      if !index.spilled || key in index.memory {
        granted := TryCache(key, value, held);
      }
      if !granted {
        error := Spill(key, value, held);
      }
    }

    method TryCache(key: Key, value: T, held: nat) returns (granted: bool)
      requires Valid() && held == Charged(index, store.size, key) && (!index.spilled || key in index.memory)
      modifies this`index, store`indexBytes, store`owned
      ensures granted ==> Becomes(old(Contents())[key := value])
      ensures !granted ==> Valid() && index == old(index) && store.Now() == old(store.Now())
    {
      ghost var before, m := store.Now(), index;
      Cached(m, before, store.size, key, value);
      assert m.collection < |before.owned| && before.owned[m.collection] == m.bytes;
      hide Changed, View, Untouched, Good, CachedBytes;
      granted := store.Reserve(index.collection, held, Cost(store.size, key, value));
      if granted {
        index := index.(memory := index.memory[key := value], bytes := index.bytes - held + Cost(store.size, key, value));
        assert store.Now() == before.(owned := before.owned[m.collection := index.bytes]);
      }
    }

    method Spill(key: Key, value: T, held: nat) returns (error: Failure)
      requires Valid() && held == Charged(index, store.size, key)
      modifies this`index, store`indexBytes, store`owned, store`entries
      ensures Becomes(if error.Working? then old(Contents())[key := value] else old(Contents()))
    {
      ghost var before, m := store.Now(), index;
      Spilled(m, before, store.size, key, value);
      NoChange(m, before, store.size);
      assert m.collection < |before.owned| && before.owned[m.collection] == m.bytes;
      hide Changed, View, Untouched, Good, CachedBytes;
      error := store.DiskAnswers();
      if error.Working? {
        store.Release(index.collection, held);
        var table := if index.collection in store.entries then store.entries[index.collection] else map[];
        store.entries := store.entries[index.collection := table[key := value]];
        index := index.(memory := index.memory - {key}, spilled := true, bytes := index.bytes - held);
        assert store.Now() == WithTable(before, m.collection, m.bytes - held, before.Table(m.collection)[key := value]);
      }
    }

    /** Inserts or replaces an entry and tells what was there before. */
    method Insert(key: Key, value: T) returns (previous: Option<T>)
      requires Valid()
      modifies this`index, store`indexBytes, store`owned, store`entries, store`failure
      ensures Becomes(if store.failure.Working? then old(Contents())[key := value] else old(Contents()))
      ensures store.failure.Working? ==> previous == if key in old(Contents()) then Some(old(Contents())[key]) else None
      ensures !old(store.failure).Working? ==> !store.failure.Working?
    {
      NoChange(index, store.Now(), store.size);
      hide Changed, View, Untouched;
      previous := Get(key);
      if store.failure.Working? {
        var error := Put(key, value);
        store.RecordError(error);
      }
    }

    /** Removes an entry and returns it. */
    method Remove(key: Key) returns (removed: Option<T>)
      requires Valid()
      modifies this`index, store`indexBytes, store`owned, store`entries, store`failure
      ensures Becomes(if removed.Some? then old(Contents()) - {key} else old(Contents()))
      ensures removed.Some? ==> key in old(Contents()) && removed.value == old(Contents())[key]
      ensures store.failure.Working? ==> (removed.Some? <==> key in old(Contents()))
      ensures !old(store.failure).Working? ==> !store.failure.Working?
    {
      NoChange(index, store.Now(), store.size);
      removed := Get(key);
      if removed.Some? {
        assert key in index.memory ==> removed.value == index.memory[key];
        hide Changed, View, Untouched;
        if key in index.memory {
          Evict(key);
        } else {
          var erased := Erase(key);
          removed := if erased then removed else None;
        }
      }
    }

    method Evict(key: Key)
      requires Valid() && key in index.memory
      modifies this`index, store`indexBytes, store`owned
      ensures Becomes(old(Contents()) - {key})
    {
      ghost var before, m := store.Now(), index;
      Uncached(m, before, store.size, key);
      assert m.collection < |before.owned| && before.owned[m.collection] == m.bytes;
      hide Changed, View, Untouched, Good, CachedBytes;
      store.Release(index.collection, Cost(store.size, key, index.memory[key]));
      index := index.(memory := index.memory - {key}, bytes := index.bytes - Cost(store.size, key, index.memory[key]));
      assert store.Now() == before.(owned := before.owned[m.collection := index.bytes]);
    }

    method Erase(key: Key) returns (erased: bool)
      requires Valid() && key !in index.memory
      modifies store`entries, store`failure
      ensures Becomes(if erased then old(Contents()) - {key} else old(Contents()))
      ensures !erased ==> !store.failure.Working?
      ensures !old(store.failure).Working? ==> !store.failure.Working?
    {
      ghost var before := store.Now();
      Erased(index, before, store.size, key);
      NoChange(index, before, store.size);
      assert index.collection < |before.owned| && before.owned[index.collection] == index.bytes;
      hide Changed, View, Untouched, Good, CachedBytes;
      var error := store.DiskAnswers();
      store.RecordError(error);
      erased := error.Working?;
      if erased {
        var table := if index.collection in store.entries then store.entries[index.collection] else map[];
        store.entries := store.entries[index.collection := table - {key}];
        assert store.Now() == WithTable(before, index.collection, index.bytes, before.Table(index.collection) - {key}) by {
          assert before.owned[index.collection := index.bytes] == before.owned;
        }
      }
    }

    /** The key after `previous`, from the cache and the disk together. */
    method NextKey(previous: Option<Key>) returns (key: Option<Key>)
      requires Valid()
      modifies store`failure
      ensures Valid() && Contents() == old(Contents())
      ensures store.failure.Working? ==> Next(After(Contents().Keys, previous), key)
      ensures key.Some? ==> key.value in Contents() && (previous.Some? ==> Less(previous.value, key.value))
      ensures !old(store.failure).Working? ==> !store.failure.Working?
    {
      hide After;
      key := None;
      if !store.failure.Working? {
        return;
      }
      var cached := NextOf(index.memory.Keys, previous);
      var onDisk := if index.collection in store.entries then store.entries[index.collection].Keys else {};
      var spilled: Option<Key> := None;
      assert !index.spilled ==> onDisk == {};
      AfterUnion(index.memory.Keys, onDisk, previous);
      if index.spilled {
        var error := store.DiskAnswers();
        store.RecordError(error);
        if error.Working? {
          spilled := NextOf(onDisk, previous);
        }
      }
      key := SmallerOf(cached, spilled);
      assert Contents().Keys == index.memory.Keys + onDisk;
      if store.failure.Working? {
        SmallerIsNext(After(index.memory.Keys, previous), After(onDisk, previous), cached, spilled);
      }
    }
  }

  ghost predicate Ascending(keys: seq<Key>) {
    forall a, b :: 0 <= a < b < |keys| ==> Less(keys[a], keys[b])
  }

  /** The keys walked so far and the keys still to come. */
  ghost predicate Walked(all: set<Key>, from: Option<Key>, keys: seq<Key>) {
    && Ascending(keys)
    && (forall k :: k in keys ==> k in After(all, from))
    && (forall k :: k in After(all, from) ==> k in keys || (keys != [] ==> Less(keys[|keys| - 1], k)))
  }

  lemma WalkStep(all: set<Key>, from: Option<Key>, keys: seq<Key>, key: Key)
    requires Walked(all, from, keys)
    requires Least(After(all, if keys == [] then from else Some(keys[|keys| - 1])), key)
    ensures Walked(all, from, keys + [key])
  {
    if keys != [] {
      var last := keys[|keys| - 1];
      forall a | 0 <= a < |keys|
        ensures Less(keys[a], key)
      {
        if a < |keys| - 1 {
          LessTransitive(keys[a], last, key);
        }
      }
      assert last in keys;
      if from.Some? {
        LessTransitive(from.value, last, key);
      }
    }
    forall k | k in After(all, from) && k !in keys + [key]
      ensures Less(key, k)
    {
      assert keys != [] ==> Less(keys[|keys| - 1], k);
    }
  }

  lemma WalkEnd(all: set<Key>, from: Option<Key>, keys: seq<Key>)
    requires Walked(all, from, keys)
    requires After(all, if keys == [] then from else Some(keys[|keys| - 1])) == {}
    ensures forall k :: k in After(all, from) ==> k in keys
  {
    forall k | k in After(all, from) && k !in keys
      ensures k in After(all, if keys == [] then from else Some(keys[|keys| - 1]))
    {
    }
  }

  /** The keys listed so far rise, and the next one is larger still. */
  ghost predicate Listing(all: set<Key>, keys: seq<Key>, key: Option<Key>) {
    && Ascending(keys) && |Seen(keys)| == |keys|
    && (forall k :: k in keys ==> k in all)
    && (key.Some? ==> key.value in all && forall a :: 0 <= a < |keys| ==> Less(keys[a], key.value))
  }

  lemma ListingStep(all: set<Key>, keys: seq<Key>, key: Key, next: Option<Key>)
    requires Listing(all, keys, Some(key))
    requires next.Some? ==> next.value in all && Less(key, next.value)
    ensures Listing(all, keys + [key], next) && |keys| + 1 <= |all|
  {
    SeenStep(keys, key, all);
    var more := keys + [key];
    if next.Some? {
      forall a | 0 <= a < |more|
        ensures Less(more[a], next.value)
      {
        if a < |keys| {
          LessTransitive(more[a], key, next.value);
        }
      }
    }
  }

  /** Walks the keys after `from`: each once, in ascending order, and none is missed. */
  method KeysAfter<T>(index: IndexMap<T>, from: Option<Key>) returns (keys: seq<Key>)
    requires index.Valid()
    modifies index.store`failure
    ensures index.Contents() == old(index.Contents()) && Ascending(keys)
    ensures index.store.failure.Working? ==> forall k :: k in keys <==> k in After(index.Contents().Keys, from)
  {
    ghost var all := index.Contents().Keys;
    keys := [];
    assert Seen(keys) == {} && Walked(all, from, keys);
    hide Good, View, After, Walked, Least;
    var key := index.NextKey(from);
    while key.Some?
      invariant index.Valid() && index.Contents() == old(index.Contents())
      invariant Listing(all, keys, key)
      invariant index.store.failure.Working? ==> Walked(all, from, keys)
      invariant index.store.failure.Working? ==> Next(After(all, if keys == [] then from else Some(keys[|keys| - 1])), key)
      decreases |all| - |keys|
    {
      if index.store.failure.Working? {
        WalkStep(all, from, keys, key.value);
      }
      var next := index.NextKey(key);
      ListingStep(all, keys, key.value, next);
      keys, key := keys + [key.value], next;
    }
    if index.store.failure.Working? {
      WalkEnd(all, from, keys);
      WalkedListed(all, from, keys);
    }
  }

  lemma WalkedListed(all: set<Key>, from: Option<Key>, keys: seq<Key>)
    requires Walked(all, from, keys) && forall k :: k in After(all, from) ==> k in keys
    ensures forall k :: k in keys <==> k in After(all, from)
  {
  }

  ghost function Seen(keys: seq<Key>): set<Key> {
    set k | k in keys
  }

  lemma SeenStep(keys: seq<Key>, key: Key, all: set<Key>)
    requires |Seen(keys)| == |keys| && key in all
    requires forall a :: 0 <= a < |keys| ==> Less(keys[a], key)
    requires forall k :: k in keys ==> k in all
    ensures |Seen(keys + [key])| == |keys| + 1 <= |all|
  {
    LessTotal(key, key);
    assert key !in keys;
    assert Seen(keys + [key]) == Seen(keys) + {key};
    Fits(Seen(keys + [key]), all);
  }

  lemma {:induction false} Fits(small: set<Key>, large: set<Key>)
    requires small <= large
    ensures |small| <= |large|
  {
    if small != {} {
      var key :| key in small;
      Fits(small - {key}, large - {key});
    }
  }

  lemma NewUntouched<T>(h: Held<T>)
    ensures Untouched(h, h.(owned := h.owned + [0]), {})
  {
    var after := h.(owned := h.owned + [0]);
    forall d: nat, p: nat
      ensures SameRecord(h, after, d, p)
    {
    }
  }

  lemma NoChange<T>(m: Index<T>, h: Held<T>, size: T -> nat)
    requires Good(m, h, size)
    ensures Changed(m, h, m, h, size, View(m, h))
  {
  }
}
