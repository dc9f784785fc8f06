/** File geometry: which pages the page size and the usable size alone reserve. */
module FileGeometry {
  import opened Wrappers

  datatype Geometry = Geometry(pageSize: nat, usableSize: nat, pageCount: nat, largestRoot: nat) {
    /** What reading the header establishes before any page is inspected. */
    predicate Valid() {
      512 <= pageSize <= 65536 && 480 <= usableSize <= pageSize && 1 <= pageCount <= 4294967294
    }

    /** Pages between one pointer map and the next, the map included. */
    function Stride(): nat {
      usableSize / 5 + 1
    }
  }

  datatype Reserved = LockByte | PointerMapPage

  function LockPage(g: Geometry): nat
    requires g.Valid()
  {
    0x4000_0000 / g.pageSize + 1
  }

  /** The first page of the group that `target` lies in. */
  function Nominal(g: Geometry, target: nat): nat
    requires g.Valid() && target >= 2
  {
    (target - 2) / g.Stride() * g.Stride() + 2
  }

  /** The pointer map of a page by geometry alone; the map that would fall on the lock-byte
      page moves up by one. */
  function MapNumber(g: Geometry, target: nat): Option<nat>
    requires g.Valid()
  {
    if target < 2 then None
    else
      var nominal := Nominal(g, target);
      Some(nominal + if nominal == LockPage(g) then 1 else 0)
  }

  function MapFor(g: Geometry, target: nat): Option<nat>
    requires g.Valid()
  {
    if g.largestRoot == 0 then None else MapNumber(g, target)
  }

  function ReservedRole(g: Geometry, number: nat): Option<Reserved>
    requires g.Valid()
  {
    if number == LockPage(g) then Some(LockByte)
    else if MapFor(g, number) == Some(number) then Some(PointerMapPage)
    else None
  }

  // ---------------------------------------------------------------- groups of pages

  lemma FewerMultiples(x: nat, y: nat, n: nat)
    requires x < y
    ensures x * n + n <= y * n
  {
    if x + 1 < y {
      FewerMultiples(x, y - 1, n);
    }
    assert y * n == (y - 1) * n + n;
  }

  lemma DivisionGroup(a: nat, q: nat, r: nat, n: nat)
    requires n > 0 && a == q * n + r && r < n
    ensures a / n == q
  {
    if a / n < q {
      FewerMultiples(a / n, q, n);
    } else if a / n > q {
      FewerMultiples(q, a / n, n);
    }
  }

  /** All pages of one group have the group's first page as nominal map. */
  lemma SameGroup(g: Geometry, first: nat, offset: nat)
    requires g.Valid() && first >= 2 && Nominal(g, first) == first && offset < g.Stride()
    ensures Nominal(g, first + offset) == first
  {
    DivisionGroup(first + offset - 2, (first - 2) / g.Stride(), offset, g.Stride());
  }

  lemma GroupBounds(g: Geometry, target: nat)
    requires g.Valid() && target >= 2
    ensures Nominal(g, target) <= target < Nominal(g, target) + g.Stride()
    ensures Nominal(g, target) >= 2 && Nominal(g, Nominal(g, target)) == Nominal(g, target)
  {
    var n := g.Stride();
    Multiple(target - 2, n);
  }

  /** The largest multiple of `n` up to `a`, and that it is its own. */
  lemma Multiple(a: nat, n: nat)
    requires n > 0
    ensures 0 <= a / n * n <= a < a / n * n + n
    ensures a / n * n / n == a / n
  {
    var q := a / n;
    assert a == q * n + a % n;
    DivisionGroup(q * n, q, 0, n);
  }

  /** The map of every page is its own map, is never the lock-byte page, and fits a page
      number. */
  lemma MapNumberFixedPoint(g: Geometry, target: nat)
    requires g.Valid() && 2 <= target < 0x1_0000_0000
    ensures var m := MapNumber(g, target);
      && m.Some? && MapNumber(g, m.value) == m
      && m.value != LockPage(g) && 2 <= m.value < 0x1_0000_0000
      && ReservedRole(g.(largestRoot := 1), m.value) == Some(PointerMapPage)
  {
    GroupBounds(g, target);
    var nominal := Nominal(g, target);
    if nominal == LockPage(g) {
      SameGroup(g, nominal, 1);
      assert LockPage(g) <= 0x4000_0000;
    }
    var h := g.(largestRoot := 1);
    assert MapNumber(h, MapNumber(g, target).value) == MapNumber(g, MapNumber(g, target).value);
    assert LockPage(h) == LockPage(g);
  }

  /** A page is covered by the map `number` exactly when it lies in the rest of its group. */
  lemma CoveredPages(g: Geometry, number: nat, target: nat)
    requires g.Valid() && number >= 2 && MapNumber(g, number) == Some(number) && target > number
    ensures MapNumber(g, target) == Some(number) <==> target < Nominal(g, number) + g.Stride()
    ensures MapNumber(g, target) != Some(number) ==> target >= Nominal(g, number) + g.Stride()
  {
    GroupBounds(g, number);
    GroupBounds(g, target);
    if target < Nominal(g, number) + g.Stride() {
      SameGroup(g, Nominal(g, number), target - Nominal(g, number));
    }
  }
}
