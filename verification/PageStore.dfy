/** The page inventory of the private store: pages kept in memory while they fit, then on disk
    behind a least-recently-used cache. */
module PageStore {
  import opened Wrappers
  import Store

  // ---------------------------------------------------------------- the cache

  datatype Entry<+T> = Entry(page: T, size: nat, used: nat)

  /** The sizes of the entries below `n`, together. */
  ghost function SizeBelow<T>(entries: map<nat, Entry<T>>, n: nat): nat {
    if n == 0 then 0 else SizeBelow(entries, n - 1) + SizeAt(entries, n - 1)
  }

  ghost function SizeAt<T>(entries: map<nat, Entry<T>>, k: nat): nat {
    if k in entries then entries[k].size else 0
  }

  /** Entries that differ in size at one page differ in total by that page. */
  lemma {:induction false} SizeDiffers<T>(before: map<nat, Entry<T>>, after: map<nat, Entry<T>>, n: nat, k: nat)
    requires k < n && forall m: nat :: m != k ==> SizeAt(after, m) == SizeAt(before, m)
    ensures SizeBelow(after, n) + SizeAt(before, k) == SizeBelow(before, n) + SizeAt(after, k)
  {
    if k < n - 1 {
      SizeDiffers(before, after, n - 1, k);
    } else {
      SizeSame(before, after, n - 1);
    }
  }

  lemma {:induction false} SizeSame<T>(before: map<nat, Entry<T>>, after: map<nat, Entry<T>>, n: nat)
    requires forall m: nat :: m < n ==> SizeAt(after, m) == SizeAt(before, m)
    ensures SizeBelow(after, n) == SizeBelow(before, n)
  {
    if n > 0 {
      SizeSame(before, after, n - 1);
    }
  }

  lemma {:induction false} SizeBeyond<T>(entries: map<nat, Entry<T>>, top: nat, n: nat)
    requires top <= n && forall k :: k in entries ==> k < top
    ensures SizeBelow(entries, n) == SizeBelow(entries, top)
  {
    if top < n {
      SizeBeyond(entries, top, n - 1);
    }
  }

  lemma {:induction false} SomeEntry<T>(entries: map<nat, Entry<T>>, n: nat)
    ensures SizeBelow(entries, n) > 0 ==> entries != map[]
  {
    if n > 0 {
      SomeEntry(entries, n - 1);
      assert SizeAt(entries, n - 1) > 0 ==> n - 1 in entries;
    }
  }

  /** The entry is the one that was not asked for the longest. */
  ghost predicate IsOldest<T>(entries: map<nat, Entry<T>>, k: nat) {
    k in entries && forall m :: m in entries ==> entries[k].used <= entries[m].used
  }

  /** The entries that are left were all used after those that are gone. */
  ghost predicate OldestGone<T>(before: map<nat, Entry<T>>, after: map<nat, Entry<T>>) {
    && (forall k :: k in after ==> k in before && after[k] == before[k])
    && (forall k, gone :: k in after && gone in before && gone !in after ==> before[gone].used < before[k].used)
  }

  lemma OldestGoes<T>(before: map<nat, Entry<T>>, after: map<nat, Entry<T>>, k: nat)
    requires OldestGone(before, after) && IsOldest(after, k)
    requires forall a, b :: a in before && b in before && a != b ==> before[a].used != before[b].used
    ensures OldestGone(before, after - {k})
  {
  }

  lemma NothingNew<T>(before: map<nat, Entry<T>>, after: map<nat, Entry<T>>, k: nat)
    requires k !in before
    ensures OldestGone(before, after) ==> k !in after
  {
  }

  class PageCache<T(==)> {
    var limit: nat
    var bytes: nat
    var clock: nat
    var entries: map<nat, Entry<T>>
    /** All pages of the cache are below this one. */
    ghost var top: nat

    constructor (limit: nat)
      ensures Valid() && this.limit == limit && entries == map[]
    {
      this.limit, bytes, clock, entries, top := limit, 0, 0, map[], 0;
    }

    /** What is charged is what is held, within the limit; no two pages were used at the same
        time. */
    ghost predicate Valid()
      reads this
    {
      && bytes == SizeBelow(entries, top) && bytes <= limit
      && (forall k :: k in entries ==> k < top && entries[k].used <= clock)
      && (forall a, b :: a in entries && b in entries && a != b ==> entries[a].used != entries[b].used)
    }

    method Get(number: nat) returns (page: Option<T>)
      requires Valid()
      modifies this`clock, this`entries
      ensures Valid() && entries.Keys == old(entries.Keys)
      ensures page == if number in old(entries) then Some(old(entries)[number].page) else None
      ensures forall k :: k in entries ==> entries[k].page == old(entries)[k].page
      ensures forall k :: k in entries && k != number ==> entries[k] == old(entries)[k]
      ensures number in entries ==> forall k :: k in entries && k != number ==> entries[k].used < entries[number].used
    {
      clock := clock + 1;
      page := None;
      if number in entries {
        ghost var before := entries;
        page := Some(entries[number].page);
        entries := entries[number := entries[number].(used := clock)];
        SizeSame(before, entries, top);
      }
    }

    method Remove(number: nat)
      requires Valid()
      modifies this`bytes, this`entries
      ensures Valid() && entries == old(entries) - {number} && bytes <= old(bytes)
    {
      if number in entries {
        SizeDiffers(entries, entries - {number}, top, number);
        bytes := bytes - entries[number].size;
        entries := entries - {number};
      }
    }

    method Oldest() returns (number: nat)
      requires entries != map[]
      ensures IsOldest(entries, number)
    {
      var rest := entries.Keys;
      assert rest != {};
      number :| number in rest;
      rest := rest - {number};
      while rest != {}
        invariant number in entries && rest <= entries.Keys
        invariant forall m :: m in entries.Keys - rest ==> entries[number].used <= entries[m].used
        decreases |rest|
      {
        var k: nat :| k in rest;
        rest := rest - {k};
        if entries[k].used < entries[number].used {
          number := k;
        }
      }
    }

    /** Makes room for `size` more bytes by giving up the pages used longest ago. */
    method MakeRoom(size: nat)
      requires Valid() && size <= limit
      modifies this`bytes, this`entries
      ensures Valid() && bytes + size <= limit && OldestGone(old(entries), entries)
      ensures old(bytes) + size <= limit ==> entries == old(entries)
    {
      while bytes + size > limit
        invariant Valid() && OldestGone(old(entries), entries)
        invariant old(bytes) + size <= limit ==> entries == old(entries) && bytes == old(bytes)
        decreases |entries|
      {
        SomeEntry(entries, top);
        var number := Oldest();
        OldestGoes(old(entries), entries, number);
        assert |entries - {number}| < |entries| by {
          assert (entries - {number}).Keys == entries.Keys - {number};
        }
        Remove(number);
      }
    }

    /** Keeps a page, unless it is larger than the whole cache. Pages given up for it were all
        used before every page that stays. */
    method Insert(number: nat, page: T, size: nat)
      requires Valid()
      modifies this`bytes, this`clock, this`entries, this`top
      ensures Valid()
      ensures size > limit ==> entries == old(entries) - {number}
      ensures size <= limit ==> number in entries && entries[number].page == page && entries[number].size == size
      ensures size <= limit ==> OldestGone(old(entries) - {number}, entries - {number})
      ensures size <= limit && old(bytes) + size <= limit ==> entries - {number} == old(entries) - {number}
    {
      hide SizeBelow, OldestGone;
      Remove(number);
      if size <= limit {
        ghost var left := entries;
        MakeRoom(size);
        assert OldestGone(left, entries) ==> number !in entries by {
          NothingNew(left, entries, number);
        }
        Add(number, page, size);
      }
    }

    method Add(number: nat, page: T, size: nat)
      requires Valid() && number !in entries && bytes + size <= limit
      modifies this`bytes, this`clock, this`entries, this`top
      ensures Valid() && number in entries && entries[number].page == page && entries[number].size == size
      ensures entries - {number} == old(entries)
    {
      ghost var before := entries;
      clock := clock + 1;
      entries := entries[number := Entry(page, size, clock)];
      ghost var more := if top <= number then number + 1 else top;
      SizeBeyond(before, top, more);
      SizeDiffers(before, entries, more, number);
      top, bytes := more, bytes + size;
      assert entries - {number} == before;
    }

    method Clear(limit: nat)
      modifies this
      ensures Valid() && entries == map[] && this.limit == limit
    {
      this.limit, bytes, entries, top := limit, 0, map[], 0;
    }
  }

  // ---------------------------------------------------------------- the inventory

  ghost function Retained<T>(size: T -> nat, pages: seq<T>): nat {
    if pages == [] then 0 else Retained(size, pages[..|pages| - 1]) + size(pages[|pages| - 1]) * 4
  }

  /** Pages in file order; page `n` of the file is element `n - 1`. */
  class PageInventory<T(==)> {
    const cacheBytes: nat
    /** The encoded size of a page. */
    const size: T -> nat
    const cache: PageCache<T>
    var memory: seq<T>
    var memoryBytes: nat
    var spilled: bool
    var disk: map<nat, T>
    var stored: nat
    /** Pages that the published analysis shows instead of the stored ones. */
    var overlay: map<nat, T>
    var failure: Store.Failure

    constructor (cacheBytes: nat, size: T -> nat)
      ensures Valid() && Contents() == [] && overlay == map[] && failure.Working?
      ensures this.cacheBytes == cacheBytes && this.size == size && fresh(cache)
    {
      this.cacheBytes, this.size := cacheBytes, size;
      cache := new PageCache(0);
      memory, memoryBytes, spilled, disk, stored := [], 0, false, map[], 0;
      overlay, failure := map[], Store.Working;
    }

    /** Every page is in memory or on disk, a cached page is the stored one, and memory and
        cache together stay within their half of the budget. */
    ghost predicate Valid()
      reads this, cache
    {
      && cache.Valid() && |memory| <= stored && memoryBytes == Retained(size, memory)
      && (forall n: nat :: |memory| < n <= stored ==> n in disk)
      && (forall n :: n in cache.entries ==> n in disk && cache.entries[n].page == disk[n])
      && (!spilled ==> stored == |memory| && cache.entries == map[])
      && (if spilled then memoryBytes + cache.limit <= cacheBytes / 2 else memoryBytes <= cacheBytes / 2)
    }

    ghost function Contents(): (v: seq<T>)
      requires Valid()
      reads this, cache
      ensures |v| == stored
    {
      seq(stored, i requires 0 <= i < stored && |memory| <= stored && forall n: nat :: |memory| < n <= stored ==> n in disk
        reads this => if i < |memory| then memory[i] else disk[i + 1])
    }

    /** Appends the next page of the file. A write that fails leaves the inventory as it was. */
    method Push(page: T) returns (error: Store.Failure)
      requires Valid()
      modifies this`memory, this`memoryBytes, this`spilled, this`disk, this`stored, cache
      ensures Valid()
      ensures Contents() == if error.Working? then old(Contents()) + [page] else old(Contents())
    {
      var retained := size(page) * 4;
      error := Store.Working;
      if !spilled && memoryBytes + retained <= cacheBytes / 2 {
        Keep(page);
      } else {
        if !spilled {
          error := StartSpilling();
        }
        if error.Working? {
          error := Write(page);
        }
      }
    }

    method Keep(page: T)
      requires Valid() && !spilled && memoryBytes + size(page) * 4 <= cacheBytes / 2
      modifies this`memory, this`memoryBytes, this`stored
      ensures Valid() && Contents() == old(Contents()) + [page]
    {
      ghost var before := Contents();
      assert (memory + [page])[..|memory|] == memory;
      memory, memoryBytes, stored := memory + [page], memoryBytes + size(page) * 4, stored + 1;
      assert Contents() == before + [page];
    }

    /** From here on pages go to disk; the cache gets what memory leaves of its half. */
    method StartSpilling() returns (error: Store.Failure)
      requires Valid() && !spilled
      modifies this`spilled, cache
      ensures Valid() && Contents() == old(Contents())
      ensures spilled <==> error.Working?
    {
      ghost var before := Contents();
      error := Answer();
      if error.Working? {
        cache.Clear(cacheBytes / 2 - memoryBytes);
        spilled := true;
      }
      assert Contents() == before;
    }

    /** Writes the next page to disk; a page of that number is no longer cached. */
    method Write(page: T) returns (error: Store.Failure)
      requires Valid() && spilled
      modifies this`disk, this`stored, cache
      ensures Valid()
      ensures Contents() == if error.Working? then old(Contents()) + [page] else old(Contents())
    {
      hide Retained, SizeBelow;
      ghost var before := Contents();
      error := Answer();
      if error.Working? {
        disk := disk[stored + 1 := page];
        cache.Remove(stored + 1);
        stored := stored + 1;
        assert Contents() == before + [page];
      }
    }

    method Answer() returns (error: Store.Failure) {
      error := *;
    }

    /** Reads a page: from the overlay, from memory, or from disk through the cache. */
    method Get(index: nat) returns (page: Option<T>)
      requires Valid()
      modifies this`failure, cache
      ensures Valid() && Contents() == old(Contents())
      ensures page.Some? ==> index < |Contents()| && page.value == if index + 1 in overlay then overlay[index + 1] else Contents()[index]
      ensures page.None? ==> index >= |Contents()| || failure.Unavailable?
      ensures old(failure).Unavailable? ==> page.None? && failure.Unavailable?
    {
      if index >= stored || failure.Unavailable? {
        return None;
      }
      if index + 1 in overlay {
        return Some(overlay[index + 1]);
      }
      if index < |memory| {
        return Some(memory[index]);
      }
      page := cache.Get(index + 1);
      if page.None? {
        page := Load(index + 1);
      }
    }

    /** Reads a page from disk and remembers it. */
    method Load(number: nat) returns (page: Option<T>)
      requires Valid() && number in disk && spilled
      modifies this`failure, cache
      ensures Valid()
      ensures page.Some? ==> page.value == disk[number] && failure == old(failure)
      ensures page.None? ==> failure.Unavailable?
    {
      var error := Answer();
      if !error.Working? {
        failure := Store.Unavailable;
        return None;
      }
      page := Some(disk[number]);
      cache.Insert(number, disk[number], size(disk[number]) * 4);
      assert forall n :: n in cache.entries && n != number ==> n in cache.entries - {number};
    }

    /** Shows some pages as the analysis sees them. */
    method Publish(overlay: map<nat, T>)
      requires Valid()
      modifies this`overlay
      ensures Valid() && this.overlay == overlay && Contents() == old(Contents())
    {
      this.overlay := overlay;
    }
  }
}
