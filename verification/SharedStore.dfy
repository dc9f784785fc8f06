/** Many sequences and indexes in one store: whatever operations run on them and in whatever
    order, together they behave as that many plain sequences and plain maps. */
module SharedStore {
  import opened Wrappers
  import opened Store
  import S = SpillingSequence
  import M = SpillingMap

  /** The collections of one store, seen as values. */
  datatype Snapshot<T> = Snapshot(cells: seq<S.Cells<T>>, indexes: seq<M.Index<T>>, held: Held<T>)

  /** What the collections stand for. */
  datatype Plain<T> = Plain(sequences: seq<seq<T>>, maps: seq<map<Key, T>>)

  /** Each collection is in order, and no two share anything in the store. */
  ghost predicate Sane<T>(s: Snapshot<T>, size: T -> nat) {
    && (forall i :: 0 <= i < |s.cells| ==> S.Good(s.cells[i], s.held, size))
    && (forall k :: 0 <= k < |s.indexes| ==> M.Good(s.indexes[k], s.held, size))
    && (forall i, j :: 0 <= i < j < |s.cells| ==> S.Collections(s.cells[i]) !! S.Collections(s.cells[j]))
    && (forall k, l :: 0 <= k < l < |s.indexes| ==> s.indexes[k].collection != s.indexes[l].collection)
    && (forall i, k :: 0 <= i < |s.cells| && 0 <= k < |s.indexes| ==> s.indexes[k].collection !in S.Collections(s.cells[i]))
  }

  ghost function Meaning<T>(s: Snapshot<T>, size: T -> nat): Plain<T>
    requires Sane(s, size)
  {
    Plain(seq(|s.cells|, i requires 0 <= i < |s.cells| => S.View(s.cells[i], s.held, size)),
          seq(|s.indexes|, k requires 0 <= k < |s.indexes| => M.View(s.indexes[k], s.held)))
  }

  /** Work on one sequence. */
  lemma SequenceStep<T>(s: Snapshot<T>, size: T -> nat, i: nat, r: S.Cells<T>, after: Held<T>)
    requires Sane(s, size) && i < |s.cells| && Untouched(s.held, after, S.Collections(s.cells[i]))
    requires S.Good(r, after, size) && S.Collections(r) == S.Collections(s.cells[i])
    ensures var t := Snapshot(s.cells[i := r], s.indexes, after);
      && Sane(t, size)
      && Meaning(t, size) == Meaning(s, size).(sequences := Meaning(s, size).sequences[i := S.View(r, after, size)])
  {
    var t, mine := Snapshot(s.cells[i := r], s.indexes, after), S.Collections(s.cells[i]);
    forall j | 0 <= j < |s.cells| && j != i
      ensures S.Good(s.cells[j], after, size) && S.View(s.cells[j], after, size) == S.View(s.cells[j], s.held, size)
    {
      S.Frame(s.cells[j], s.held, after, size, mine);
    }
    forall k | 0 <= k < |s.indexes|
      ensures M.Good(s.indexes[k], after, size) && M.View(s.indexes[k], after) == M.View(s.indexes[k], s.held)
    {
      M.EntryFrame(s.indexes[k], s.held, after, size, mine);
    }
    assert Sane(t, size);
    assert Meaning(t, size) == Meaning(s, size).(sequences := Meaning(s, size).sequences[i := S.View(r, after, size)]);
  }

  /** Work on one index. */
  lemma MapStep<T>(s: Snapshot<T>, size: T -> nat, k: nat, r: M.Index<T>, after: Held<T>, view: map<Key, T>)
    requires Sane(s, size) && k < |s.indexes| && M.Changed(s.indexes[k], s.held, r, after, size, view)
    ensures var t := Snapshot(s.cells, s.indexes[k := r], after);
      && Sane(t, size) && Meaning(t, size) == Meaning(s, size).(maps := Meaning(s, size).maps[k := view])
  {
    var t, mine := Snapshot(s.cells, s.indexes[k := r], after), {s.indexes[k].collection};
    forall j | 0 <= j < |s.cells|
      ensures S.Good(s.cells[j], after, size) && S.View(s.cells[j], after, size) == S.View(s.cells[j], s.held, size)
    {
      S.Frame(s.cells[j], s.held, after, size, mine);
    }
    forall l | 0 <= l < |s.indexes| && l != k
      ensures M.Good(s.indexes[l], after, size) && M.View(s.indexes[l], after) == M.View(s.indexes[l], s.held)
    {
      M.EntryFrame(s.indexes[l], s.held, after, size, mine);
    }
    assert Sane(t, size);
    assert Meaning(t, size) == Meaning(s, size).(maps := Meaning(s, size).maps[k := view]);
  }

  /** Nothing of any collection changed. */
  lemma NothingTouched<T>(s: Snapshot<T>, size: T -> nat, after: Held<T>)
    requires Sane(s, size) && Untouched(s.held, after, {})
    ensures Sane(s.(held := after), size) && Meaning(s.(held := after), size) == Meaning(s, size)
  {
    hide S.Good, S.View, S.Collections, M.Good, M.View, Untouched;
    var t := s.(held := after);
    forall j | 0 <= j < |s.cells|
      ensures S.Good(s.cells[j], after, size) && S.View(s.cells[j], after, size) == S.View(s.cells[j], s.held, size)
    {
      S.Frame(s.cells[j], s.held, after, size, {});
    }
    forall l | 0 <= l < |s.indexes|
      ensures M.Good(s.indexes[l], after, size) && M.View(s.indexes[l], after) == M.View(s.indexes[l], s.held)
    {
      M.EntryFrame(s.indexes[l], s.held, after, size, {});
    }
    assert Sane(t, size);
    assert Meaning(t, size) == Meaning(s, size);
  }

  /** A collection that exists has a number that was given out. */
  lemma CollectionsBelow<T>(s: Snapshot<T>, size: T -> nat, n: nat)
    requires Sane(s, size) && n >= |s.held.owned|
    ensures forall i :: 0 <= i < |s.cells| ==> n !in S.Collections(s.cells[i])
    ensures forall k :: 0 <= k < |s.indexes| ==> s.indexes[k].collection != n
  {
    forall i | 0 <= i < |s.cells|
      ensures n !in S.Collections(s.cells[i])
    {
      S.CollectionsExist(s.cells[i], s.held, size);
    }
  }

  lemma NewSequenceStep<T>(s: Snapshot<T>, size: T -> nat, r: S.Cells<T>, after: Held<T>)
    requires Sane(s, size) && Untouched(s.held, after, {})
    requires S.Good(r, after, size) && S.View(r, after, size) == [] && S.Collections(r) == {|s.held.owned|}
    ensures var t := Snapshot(s.cells + [r], s.indexes, after);
      && Sane(t, size) && Meaning(t, size) == Meaning(s, size).(sequences := Meaning(s, size).sequences + [[]])
  {
    hide S.Good, S.View, S.Collections, M.Good, M.View, Untouched;
    NothingTouched(s, size, after);
    CollectionsBelow(s, size, |s.held.owned|);
    var t := Snapshot(s.cells + [r], s.indexes, after);
    assert Sane(t, size);
    assert Meaning(t, size) == Meaning(s, size).(sequences := Meaning(s, size).sequences + [[]]);
  }

  lemma NewMapStep<T>(s: Snapshot<T>, size: T -> nat, r: M.Index<T>, after: Held<T>)
    requires Sane(s, size) && Untouched(s.held, after, {})
    requires M.Good(r, after, size) && M.View(r, after) == map[] && r.collection == |s.held.owned|
    ensures var t := Snapshot(s.cells, s.indexes + [r], after);
      && Sane(t, size) && Meaning(t, size) == Meaning(s, size).(maps := Meaning(s, size).maps + [map[]])
  {
    hide S.Good, S.View, S.Collections, M.Good, M.View, Untouched;
    NothingTouched(s, size, after);
    CollectionsBelow(s, size, |s.held.owned|);
    var t := Snapshot(s.cells, s.indexes + [r], after);
    assert Sane(t, size);
    assert Meaning(t, size) == Meaning(s, size).(maps := Meaning(s, size).maps + [map[]]);
  }

  /** One sequence is moved to the end of another. */
  lemma AppendStep<T>(s: Snapshot<T>, size: T -> nat, i: nat, j: nat, r: S.Cells<T>, q: S.Cells<T>, after: Held<T>)
    requires Sane(s, size) && i < |s.cells| && j < |s.cells| && i != j && Untouched(s.held, after, {})
    requires S.Good(r, after, size) && S.Good(q, after, size) && S.Collections(r) !! S.Collections(q)
    requires S.Collections(r) + S.Collections(q) <= S.Collections(s.cells[i]) + S.Collections(s.cells[j]) + {|s.held.owned|}
    requires S.View(r, after, size) == S.View(s.cells[i], s.held, size) + S.View(s.cells[j], s.held, size) && S.View(q, after, size) == []
    ensures var t := Snapshot(s.cells[i := r][j := q], s.indexes, after); var v := Meaning(s, size).sequences;
      && Sane(t, size) && Meaning(t, size) == Meaning(s, size).(sequences := v[i := v[i] + v[j]][j := []])
  {
    hide S.Good, S.View, S.Collections, M.Good, M.View, Untouched;
    NothingTouched(s, size, after);
    CollectionsBelow(s, size, |s.held.owned|);
    var t := Snapshot(s.cells[i := r][j := q], s.indexes, after);
    assert forall a, b :: 0 <= a < |s.cells| && 0 <= b < |s.cells| && a != b ==> S.Collections(s.cells[a]) !! S.Collections(s.cells[b]);
    var v := Meaning(s, size).sequences;
    assert Sane(t, size);
    assert Meaning(t, size).sequences == v[i := v[i] + v[j]][j := []];
    assert Meaning(t, size).maps == Meaning(s, size).maps;
  }

  // ---------------------------------------------------------------- operations

  datatype Op<T> =
    | NewSequence
    | NewMap
    | Push(sequence: nat, value: T)
    | SetAt(sequence: nat, position: nat, value: T)
    | Append(into: nat, from: nat)
    | Insert(index: nat, key: Key, value: T)
    | Remove(index: nat, key: Key)

  /** What an operation does to plain sequences and maps; one that names nothing does
      nothing. */
  function Apply<T>(p: Plain<T>, op: Op<T>): Plain<T> {
    match op
    case NewSequence => p.(sequences := p.sequences + [[]])
    case NewMap => p.(maps := p.maps + [map[]])
    case Push(i, value) => if i < |p.sequences| then p.(sequences := p.sequences[i := p.sequences[i] + [value]]) else p
    case SetAt(i, at, value) =>
      if i < |p.sequences| && at < |p.sequences[i]| then p.(sequences := p.sequences[i := p.sequences[i][at := value]]) else p
    case Append(i, j) =>
      if i < |p.sequences| && j < |p.sequences| && i != j
      then p.(sequences := p.sequences[i := p.sequences[i] + p.sequences[j]][j := []]) else p
    case Insert(k, key, value) => if k < |p.maps| then p.(maps := p.maps[k := p.maps[k][key := value]]) else p
    case Remove(k, key) => if k < |p.maps| then p.(maps := p.maps[k := p.maps[k] - {key}]) else p
  }

  /** The operations that took effect, one after the other. */
  function ApplyAll<T>(p: Plain<T>, ops: seq<Op<T>>, took: seq<bool>): Plain<T>
    requires |took| == |ops|
  {
    if ops == [] then p
    else
      var n := |ops| - 1;
      var before := ApplyAll(p, ops[..n], took[..n]);
      if took[n] then Apply(before, ops[n]) else before
  }

  class Workspace<T(==)> {
    const store: StoreContext<T>
    var sequences: seq<S.Sequence<T>>
    var indexes: seq<M.IndexMap<T>>

    constructor (store: StoreContext<T>)
      requires store.Valid()
      ensures Valid() && this.store == store && Contents() == Plain([], [])
    {
      this.store, sequences, indexes := store, [], [];
    }

    ghost function Members(): set<object>
      reads this
    {
      (set s | s in sequences) + (set m | m in indexes)
    }

    ghost function Now(): Snapshot<T>
      reads this, store, Members()
    {
      Snapshot(seq(|sequences|, i requires 0 <= i < |sequences| reads this, sequences => sequences[i].cells),
               seq(|indexes|, k requires 0 <= k < |indexes| reads this, indexes => indexes[k].index),
               store.Now())
    }

    ghost predicate Shares()
      reads this, Members()
    {
      && (forall i :: 0 <= i < |sequences| ==> sequences[i].store == store)
      && (forall k :: 0 <= k < |indexes| ==> indexes[k].store == store)
      && (forall i, j :: 0 <= i < j < |sequences| ==> sequences[i] != sequences[j])
      && (forall k, l :: 0 <= k < l < |indexes| ==> indexes[k] != indexes[l])
    }

    ghost predicate Valid()
      reads this, store, Members()
    {
      Shares() && store.Valid() && Sane(Now(), store.size)
    }

    ghost function Contents(): Plain<T>
      requires Valid()
      reads this, store, Members()
    {
      Meaning(Now(), store.size)
    }

    /** What one operation did: it took effect or nothing changed; it takes effect whenever the
        store still works afterwards. */
    twostate predicate Performed(op: Op<T>, took: bool)
      requires old(Valid())
      reads this, store, Members()
    {
      && Valid() && Contents() == (if took then Apply(old(Contents()), op) else old(Contents()))
      && (store.failure.Working? ==> took)
      && (!old(store.failure).Working? ==> !store.failure.Working?)
    }

    method PerformPush(i: nat, value: T) returns (took: bool)
      requires Valid() && i < |sequences|
      modifies sequences, store
      ensures sequences == old(sequences) && indexes == old(indexes)
      ensures Performed(Push(i, value), took)
    {
      hide S.Good, S.View, S.Collections, M.Good, M.View, Untouched, S.Length;
      ghost var before := Now();
      var s := sequences[i];
      assert before.cells[i] == s.cells && s.Valid();
      s.Push(value);
      took := store.failure.Working?;
      SequenceStep(before, store.size, i, s.cells, store.Now());
      assert Now() == Snapshot(before.cells[i := s.cells], before.indexes, store.Now());
    }

    method PerformSetAt(i: nat, at: nat, value: T) returns (took: bool)
      requires Valid() && i < |sequences|
      modifies sequences, store
      ensures sequences == old(sequences) && indexes == old(indexes)
      ensures Performed(SetAt(i, at, value), took)
    {
      hide S.Good, S.View, S.Collections, M.Good, M.View, Untouched, S.Length;
      ghost var before := Now();
      var s := sequences[i];
      assert before.cells[i] == s.cells && s.Valid();
      took := at >= S.Length(s.cells);
      var done := s.Edit(at, _ => value);
      took := took || done;
      SequenceStep(before, store.size, i, s.cells, store.Now());
      assert Now() == Snapshot(before.cells[i := s.cells], before.indexes, store.Now());
    }

    method PerformAppend(i: nat, j: nat)
      requires Valid() && i < |sequences| && j < |sequences| && i != j
      modifies sequences, store
      ensures sequences == old(sequences) && indexes == old(indexes)
      ensures Performed(Append(i, j), true)
    {
      hide S.Good, S.View, S.Collections, M.Good, M.View, Untouched, S.Length;
      ghost var before := Now();
      var s, other := sequences[i], sequences[j];
      assert before.cells[i] == s.cells && s.Valid() && before.cells[j] == other.cells && other.Valid();
      assert S.Collections(s.cells) !! S.Collections(other.cells);
      s.Append(other);
      AppendStep(before, store.size, i, j, s.cells, other.cells, store.Now());
      assert Now() == Snapshot(before.cells[i := s.cells][j := other.cells], before.indexes, store.Now());
    }

    method PerformInsert(k: nat, key: Key, value: T) returns (took: bool)
      requires Valid() && k < |indexes|
      modifies indexes, store
      ensures sequences == old(sequences) && indexes == old(indexes)
      ensures Performed(Insert(k, key, value), took)
    {
      ghost var before := Now();
      var m := indexes[k];
      assert before.indexes[k] == m.index && m.Valid();
      ghost var view := M.View(m.index, store.Now());
      var previous := m.Insert(key, value);
      took := store.failure.Working?;
      MapStep(before, store.size, k, m.index, store.Now(), if took then view[key := value] else view);
      assert Now() == Snapshot(before.cells, before.indexes[k := m.index], store.Now());
    }

    method PerformRemove(k: nat, key: Key) returns (took: bool)
      requires Valid() && k < |indexes|
      modifies indexes, store
      ensures sequences == old(sequences) && indexes == old(indexes)
      ensures Performed(Remove(k, key), took)
    {
      ghost var before := Now();
      var m := indexes[k];
      assert before.indexes[k] == m.index && m.Valid();
      ghost var view := M.View(m.index, store.Now());
      var removed := m.Remove(key);
      took := removed.Some? || store.failure.Working?;
      assert key !in view ==> view - {key} == view;
      MapStep(before, store.size, k, m.index, store.Now(), if removed.Some? then view - {key} else view);
      assert Now() == Snapshot(before.cells, before.indexes[k := m.index], store.Now());
    }

    method PerformNewSequence()
      requires Valid()
      modifies this, store
      ensures fresh(Members() - old(Members()))
      ensures Performed(NewSequence, true)
    {
      ghost var before := Now();
      var s := new S.Sequence(store);
      sequences := sequences + [s];
      NewSequenceStep(before, store.size, s.cells, store.Now());
      assert Now() == Snapshot(before.cells + [s.cells], before.indexes, store.Now());
    }

    method PerformNewMap()
      requires Valid()
      modifies this, store
      ensures fresh(Members() - old(Members()))
      ensures Performed(NewMap, true)
    {
      ghost var before := Now();
      var m := new M.IndexMap(store);
      indexes := indexes + [m];
      NewMapStep(before, store.size, m.index, store.Now());
      assert Now() == Snapshot(before.cells, before.indexes + [m.index], store.Now());
    }

    /** One operation on whichever collection it names. */
    method Perform(op: Op<T>) returns (took: bool)
      requires Valid()
      modifies this, sequences, indexes, store
      ensures fresh(Members() - old(Members()))
      ensures Performed(op, took)
    {
      took := true;
      match op
      case NewSequence => PerformNewSequence();
      case NewMap => PerformNewMap();
      case Push(i, value) => if i < |sequences| { took := PerformPush(i, value); }
      case SetAt(i, at, value) => if i < |sequences| { took := PerformSetAt(i, at, value); }
      case Append(i, j) => if i < |sequences| && j < |sequences| && i != j { PerformAppend(i, j); }
      case Insert(k, key, value) => if k < |indexes| { took := PerformInsert(k, key, value); }
      case Remove(k, key) => if k < |indexes| { took := PerformRemove(k, key); }
    }

    /** Any program of operations, on any number of collections, does what it would do to plain
        sequences and maps: each operation takes effect as a whole or not at all, and as long
        as the store works, all of them do. */
    method PerformAll(ops: seq<Op<T>>) returns (took: seq<bool>)
      requires Valid()
      modifies this, sequences, indexes, store
      ensures Valid() && |took| == |ops|
      ensures Contents() == ApplyAll(old(Contents()), ops, took)
      ensures store.failure.Working? ==> forall k :: 0 <= k < |took| ==> took[k]
    {
      took := [];
      for n: nat := 0 to |ops|
        invariant Valid() && |took| == n && fresh(Members() - old(Members()))
        invariant Contents() == ApplyAll(old(Contents()), ops[..n], took)
        invariant store.failure.Working? ==> forall k :: 0 <= k < n ==> took[k]
      {
        label before:
        var done := Perform(ops[n]);
        assert ops[..n + 1][..n] == ops[..n] && (took + [done])[..n] == took;
        took := took + [done];
      }
      assert ops[..|ops|] == ops;
    }
  }
}
