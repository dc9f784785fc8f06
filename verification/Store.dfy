/** The private structural store: a bounded cache shared by all collections, a disk table that
    takes what the cache cannot hold, and a failure latch. */
module Store {
  import opened Wrappers
  import opened Bytes

  datatype Failure = Working | OverBudget | Unavailable

  type Key = seq<Byte>

  /** Bytes charged to the cache, collection by collection. */
  ghost function Sum(owned: seq<nat>): nat {
    if owned == [] then 0 else Sum(owned[..|owned| - 1]) + owned[|owned| - 1]
  }

  lemma {:induction false} SumUpdated(owned: seq<nat>, c: nat, bytes: nat)
    requires c < |owned|
    ensures Sum(owned[c := bytes]) + owned[c] == Sum(owned) + bytes
  {
    var last := |owned| - 1;
    if c < last {
      SumUpdated(owned[..last], c, bytes);
      assert owned[c := bytes][..last] == owned[..last][c := bytes];
    } else {
      assert owned[c := bytes][..last] == owned[..last];
    }
  }

  lemma SumPushed(owned: seq<nat>)
    ensures Sum(owned + [0]) == Sum(owned)
  {
    assert (owned + [0])[..|owned|] == owned;
  }

  lemma {:induction false} SumHolds(owned: seq<nat>, c: nat)
    requires c < |owned|
    ensures owned[c] <= Sum(owned)
  {
    if c < |owned| - 1 {
      SumHolds(owned[..|owned| - 1], c);
    }
  }

  /** What the collections hold between them. */
  datatype Held<T> = Held(owned: seq<nat>, records: map<(nat, nat), T>, entries: map<nat, map<Key, T>>) {
    /** The spilled entries of one index. */
    function Table(c: nat): map<Key, T> {
      if c in entries then entries[c] else map[]
    }
  }

  /** Nothing of the collections outside `mine` changed. */
  ghost predicate Untouched<T>(before: Held<T>, after: Held<T>, mine: set<nat>) {
    && |before.owned| <= |after.owned|
    && (forall c {:trigger after.owned[c]} :: 0 <= c < |before.owned| && c !in mine ==> after.owned[c] == before.owned[c])
    && (forall c: nat, p: nat {:trigger SameRecord(before, after, c, p)} :: c < |before.owned| && c !in mine ==> SameRecord(before, after, c, p))
    && (forall c: nat {:trigger after.Table(c)} :: c < |before.owned| && c !in mine ==> after.Table(c) == before.Table(c))
  }

  ghost predicate SameRecord<T>(before: Held<T>, after: Held<T>, c: nat, p: nat) {
    ((c, p) in after.records <==> (c, p) in before.records)
    && ((c, p) in before.records ==> after.records[(c, p)] == before.records[(c, p)])
  }

  lemma Recharged<T>(before: Held<T>, c: nat, bytes: nat)
    requires c < |before.owned|
    ensures Untouched(before, before.(owned := before.owned[c := bytes]), {c})
  {
    var after := before.(owned := before.owned[c := bytes]);
    forall d: nat, p: nat
      ensures SameRecord(before, after, d, p)
    {
    }
  }

  lemma Rewritten<T>(before: Held<T>, c: nat, bytes: nat, p: nat, value: T)
    requires c < |before.owned|
    ensures Untouched(before, before.(owned := before.owned[c := bytes], records := before.records[(c, p) := value]), {c})
  {
    var after := before.(owned := before.owned[c := bytes], records := before.records[(c, p) := value]);
    forall d: nat, q: nat | d != c
      ensures SameRecord(before, after, d, q)
    {
    }
  }

  class StoreContext<T(==)> {
    const cacheBytes: nat
    /** The encoded size of a record. */
    const size: T -> nat
    var failure: Failure
    var indexBytes: nat
    var nextCollection: nat
    var records: map<(nat, nat), T>
    var entries: map<nat, map<Key, T>>
    /** What each collection has in the cache; nothing for a dropped one. */
    ghost var owned: seq<nat>

    constructor (cacheBytes: nat, size: T -> nat)
      ensures Valid() && failure == Working && nextCollection == 0
      ensures this.cacheBytes == cacheBytes && this.size == size
    {
      this.cacheBytes, this.size := cacheBytes, size;
      failure, indexBytes, nextCollection := Working, 0, 0;
      records, entries, owned := map[], map[], [];
    }

    /** The cache is charged exactly what the collections hold, within its ceiling, and no
        record belongs to a collection that does not exist yet. */
    ghost predicate Valid()
      reads this
    {
      && |owned| == nextCollection
      && indexBytes == Sum(owned) && indexBytes <= cacheBytes / 2
      && (forall key :: key in records ==> key.0 < nextCollection)
      && (forall c :: c in entries ==> c < nextCollection)
    }

    ghost function Now(): Held<T>
      reads this
    {
      Held(owned, records, entries)
    }

    method NewCollection() returns (collection: nat)
      requires Valid()
      modifies this`nextCollection, this`owned
      ensures Valid() && collection == old(nextCollection) && nextCollection == collection + 1
      ensures owned == old(owned) + [0]
    {
      collection := nextCollection;
      SumPushed(owned);
      nextCollection, owned := nextCollection + 1, owned + [0];
    }

    /** A failure is kept until it is cleared; the worse of two stays. */
    method RecordError(error: Failure)
      modifies this`failure
      ensures failure == if old(failure).Unavailable? || error.Working? then old(failure) else error
    {
      if !failure.Unavailable? && !error.Working? {
        failure := error;
      }
    }

    method ClearBudgetStop()
      modifies this`failure
      ensures failure == if old(failure).OverBudget? then Working else old(failure)
    {
      if failure.OverBudget? {
        failure := Working;
      }
    }

    /** Charges a collection `after` bytes instead of `before`, if the cache can hold it. */
    method Reserve(ghost c: nat, before: nat, after: nat) returns (granted: bool)
      requires Valid() && c < nextCollection && before <= owned[c]
      modifies this`indexBytes, this`owned
      ensures Valid() && before <= old(indexBytes)
      ensures granted <==> old(indexBytes) - before + after <= cacheBytes / 2
      ensures owned == if granted then old(owned)[c := old(owned)[c] - before + after] else old(owned)
    {
      SumHolds(owned, c);
      var next := indexBytes - before + after;
      granted := next <= cacheBytes / 2;
      if granted {
        SumUpdated(owned, c, owned[c] - before + after);
        indexBytes := next;
        owned := owned[c := owned[c] - before + after];
      }
    }

    method Release(ghost c: nat, count: nat)
      requires Valid() && c < nextCollection && count <= owned[c]
      modifies this`indexBytes, this`owned
      ensures Valid() && owned == old(owned)[c := old(owned)[c] - count]
    {
      SumHolds(owned, c);
      SumUpdated(owned, c, owned[c] - count);
      indexBytes := indexBytes - count;
      owned := owned[c := owned[c] - count];
    }

    /** Whether the private file takes a write or answers a read; the reason if not. */
    method DiskAnswers() returns (error: Failure)
    {
      error := *;
    }
  }
}
