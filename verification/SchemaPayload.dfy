/** Reading the payload of a schema cell into a buffer, within a decoding budget that all cells
    share. */
module SchemaPayload {
  import opened Wrappers
  import opened Bytes
  import opened Control
  import opened ClaimGraph
  import opened Inventory
  import opened FileGeometry
  import opened Inspection
  import opened Reconstruction
  import Overflow
  import SelectedCell
  import Topology

  datatype Error =
    | RecordInvalid
    | PayloadUnavailable
    | WorkBudget
    | DecodeBudget
    | AllocationFailed
    | FileReadFailed
    | OverflowUnavailable
    | ReadCancelled

  /** The page is an overflow page that the settled roles and the relationships bear out. */
  predicate Authorized(r: Result, source: Entity, page: nat) {
    && 1 <= page <= |r.pageRoles| && r.pageRoles[page - 1].Overflow?
    && exists k :: 0 <= k < |r.links| && r.links[k].kind == RelationshipKind.Overflow && r.links[k].source == source && r.links[k].target == page
  }

  /** Where step `k` of a chain comes from. */
  function SourceOf(t: Traversal, k: nat): Entity
    requires k <= |t.prefix|
  {
    if k == 0 then t.origin else Page(t.prefix[k - 1])
  }

  ghost predicate AllAuthorized(r: Result, t: Traversal) {
    forall k :: 0 <= k < |t.prefix| ==> Authorized(r, SourceOf(t, k), t.prefix[k])
  }

  predicate ChainOfCell(t: Traversal, origin: Entity) {
    t.kind.OverflowChain? && t.origin == origin
  }

  /** The cell's chain: the first recorded for it. */
  ghost predicate FirstChain(traversals: seq<Traversal>, origin: Entity, k: nat) {
    k < |traversals| && ChainOfCell(traversals[k], origin) && forall m :: 0 <= m < k ==> !ChainOfCell(traversals[m], origin)
  }

  /** The cell has a complete chain whose every step is authorized. */
  ghost predicate Followable(r: Result, origin: Entity) {
    exists k :: 0 <= k && FirstChain(r.traversals, origin, k) && r.traversals[k].stop.None? && AllAuthorized(r, r.traversals[k])
  }

  /** Looks for the cell's chain; a stop or a failed read ends the search. */
  method FindChain(traversals: seq<Traversal>, origin: Entity, control: WorkControl) returns (k: Option<nat>)
    modifies control`stop, control`failed
    ensures control.Later()
    ensures k.Some? ==> FirstChain(traversals, origin, k.value) && traversals[k.value].stop.None?
    ensures k.None? ==> control.stop || control.failed || forall m :: 0 <= m && FirstChain(traversals, origin, m) ==> traversals[m].stop.Some?
  {
    for n: nat := 0 to |traversals|
      invariant control.Later()
      invariant forall m :: 0 <= m < n ==> !ChainOfCell(traversals[m], origin)
    {
      var read := control.Access();
      if !read {
        return None;
      }
      var stopped := control.Stopped();
      if stopped {
        return None;
      }
      if ChainOfCell(traversals[n], origin) {
        return if traversals[n].stop.None? then Some(n) else None;
      }
    }
    return None;
  }

  lemma NoOtherChain(r: Result, origin: Entity, k: nat, step: nat)
    requires FirstChain(r.traversals, origin, k)
    requires var walk := r.traversals[k]; step < |walk.prefix| && !Authorized(r, SourceOf(walk, step), walk.prefix[step])
    ensures !Followable(r, origin)
  {
  }

  /** The bytes are the payload: the local part and then the pages of the chain, as much of
      the last as the payload needs. */
  ghost predicate IsPayload(file: seq<Byte>, g: Geometry, local: Segment, total: nat, chain: seq<nat>, bytes: seq<Byte>)
    requires g.Valid()
  {
    && |bytes| == total && RealPages(chain)
    && AllInFile(file, PayloadSegments(local, total, chain, g.usableSize - 4, g.pageSize))
    && bytes == Joined(file, PayloadSegments(local, total, chain, g.usableSize - 4, g.pageSize))
  }

  lemma Joins(s: seq<Byte>, cursor: nat, left: seq<Byte>, right: seq<Byte>)
    requires |left| == cursor && cursor + |right| <= |s|
    requires forall i :: 0 <= i < cursor ==> s[i] == left[i]
    requires forall i :: 0 <= i < |right| ==> s[cursor + i] == right[i]
    ensures s[..cursor + |right|] == left + right
  {
  }

  /** The payload bytes that the first `k` pages of a chain hold. */
  function Filled(k: nat, spill: nat, room: nat): nat {
    if k * room < spill then k * room else spill
  }

  ghost predicate ReadSoFar(file: seq<Byte>, g: Geometry, prefix: seq<nat>, k: nat, spill: nat, bytes: seq<Byte>)
    requires g.Valid() && k <= |prefix| && RealPages(prefix)
  {
    var segments := ChainSegments(prefix, k, spill, g.usableSize - 4, g.pageSize);
    AllInFile(file, segments) && bytes == Joined(file, segments)
  }

  /** Every page of a complete chain holds bytes of the payload. */
  lemma NextPage(g: Geometry, prefix: seq<nat>, k: nat, spill: nat)
    requires g.Valid() && k < |prefix| && RealPages(prefix) && Overflow.Fits(g.usableSize - 4, spill, |prefix|, true)
    ensures Filled(k, spill, g.usableSize - 4) < spill
    ensures var filled, room := Filled(k, spill, g.usableSize - 4), g.usableSize - 4;
      var length := if spill - filled < room then spill - filled else room;
      && PageSegment(prefix, k, spill, room, g.pageSize) == Segment(prefix[k], (prefix[k] - 1) * g.pageSize + 4, length)
      && Filled(k + 1, spill, room) == filled + length && length > 0
  {
    MorePagesMoreBytes(k, |prefix| - 1, g.usableSize - 4);
    assert (k + 1) * (g.usableSize - 4) == k * (g.usableSize - 4) + (g.usableSize - 4);
  }

  lemma AllFilled(g: Geometry, prefix: seq<nat>, spill: nat)
    requires g.Valid() && Overflow.Fits(g.usableSize - 4, spill, |prefix|, true)
    ensures Filled(0, spill, g.usableSize - 4) == 0 && Filled(|prefix|, spill, g.usableSize - 4) == spill
  {
  }

  class PayloadReader {
    const file: seq<Byte>
    const control: WorkControl
    /** What is left of the decoding budget. */
    var remaining: nat

    constructor (file: seq<Byte>, control: WorkControl, budget: nat)
      ensures this.file == file && this.control == control && remaining == budget
    {
      this.file, this.control, remaining := file, control, budget;
    }

    /** Fills a part of the buffer from the file. */
    method Fill(buffer: array<Byte>, cursor: nat, source: Segment) returns (filled: bool)
      requires cursor + source.length <= buffer.Length
      modifies buffer
      ensures filled ==> InFile(file, source)
      ensures filled ==> buffer[..cursor + source.length] == old(buffer[..cursor]) + BytesOf(file, source)
      ensures !filled ==> buffer[..] == old(buffer[..])
    {
      var answered: bool := *;
      filled := answered && InFile(file, source);
      if filled {
        forall i | 0 <= i < source.length {
          buffer[cursor + i] := file[source.at + i];
        }
        Joins(buffer[..], cursor, old(buffer[..cursor]), BytesOf(file, source));
      }
    }

    /** Reads a cell's payload on a completed inspection. The payload is charged to the budget
        before it is read, and only if the budget covers it. What is returned is, byte for
        byte, the local part and the pages of the cell's chain. Neither of the two length
        checks behind the chain can fail: an unavailable chain is one that was stopped, is not
        authorized step by step, or could not be looked up. */
    method Read(g: Geometry, ghost o: Observed, ghost limits: Topology.Limits, ghost t: Trace, r: Result, origin: Entity, cell: CellInfo,
                local: Option<Segment>, usableRecord: bool)
      returns (error: Option<Error>, bytes: seq<Byte>, ghost chain: seq<nat>)
      requires g.Valid() && Completed(g, o, limits, t, r)
      requires origin.Cell? && Listed(o.pages, origin.page) && origin.cell < |o.pages[origin.page - 1].cells| && cell == o.pages[origin.page - 1].cells[origin.cell]
      requires local.Some? ==> cell.localLength == Some(local.value.length)
      modifies this`remaining, control`stop, control`failed
      ensures error.None? ==>
        && local.Some? && cell.payloadSize.Some? && usableRecord && old(remaining) >= cell.payloadSize.value
        && IsPayload(file, g, local.value, cell.payloadSize.value, chain, bytes)
      ensures remaining == old(remaining) || (cell.payloadSize.Some? && remaining == old(remaining) - cell.payloadSize.value)
      ensures error.None? ==> remaining == old(remaining) - cell.payloadSize.value
      ensures error == Some(DecodeBudget) ==> cell.payloadSize.Some? && cell.payloadSize.value > old(remaining) && remaining == old(remaining)
      ensures error == Some(WorkBudget) || error == Some(ReadCancelled) ==> control.stop
      ensures error == Some(OverflowUnavailable) ==> control.stop || control.failed || !Followable(r, origin)
    {
      hide Completed, IsPayload, Followable;
      if !usableRecord {
        return Some(Error.RecordInvalid), [], [];
      }
      if local.None? || cell.payloadSize.None? {
        return Some(PayloadUnavailable), [], [];
      }
      var granted := control.ReserveMemory();
      if !granted {
        return Some(WorkBudget), [], [];
      }
      var total := cell.payloadSize.value;
      if total > remaining {
        return Some(DecodeBudget), [], [];
      }
      remaining := remaining - total;
      error, bytes, chain := ReadBytes(g, o, limits, t, r, origin, cell, local.value);
    }

    /** Fills the buffer for a payload that the budget covers. */
    method ReadBytes(g: Geometry, ghost o: Observed, ghost limits: Topology.Limits, ghost t: Trace, r: Result, origin: Entity, cell: CellInfo,
                     local: Segment)
      returns (error: Option<Error>, bytes: seq<Byte>, ghost chain: seq<nat>)
      requires g.Valid() && Completed(g, o, limits, t, r)
      requires origin.Cell? && Listed(o.pages, origin.page) && origin.cell < |o.pages[origin.page - 1].cells| && cell == o.pages[origin.page - 1].cells[origin.cell]
      requires cell.payloadSize.Some? && cell.localLength == Some(local.length)
      modifies control`stop, control`failed
      ensures control.Later()
      ensures error.None? ==> IsPayload(file, g, local, cell.payloadSize.value, chain, bytes)
      ensures error.Some? ==> !error.value.DecodeBudget? && !error.value.WorkBudget?
      ensures error == Some(ReadCancelled) ==> control.stop
      ensures error == Some(OverflowUnavailable) ==> control.stop || control.failed || !Followable(r, origin)
    {
      hide Completed, IsPayload, Followable, ReadSoFar;
      var total, possible: bool := cell.payloadSize.value, *;
      if !possible {
        return Some(AllocationFailed), [], [];
      }
      if local.length > total {
        return Some(Error.RecordInvalid), [], [];
      }
      var buffer := new Byte[total];
      assert buffer[..0] == [];
      var filled := Fill(buffer, 0, local);
      if !filled {
        return Some(FileReadFailed), [], [];
      }
      assert buffer[..local.length] == BytesOf(file, local);
      if local.length == total {
        assert buffer[..total] == buffer[..];
        LocalPayload(file, g, local, buffer[..]);
        return None, buffer[..], [];
      }
      error, chain := ReadChain(g, o, limits, t, r, origin, cell, local, buffer);
      bytes := buffer[..];
      if error.None? {
        WholePayload(file, g, local, total, chain, bytes);
      }
    }

    method ReadChain(g: Geometry, ghost o: Observed, ghost limits: Topology.Limits, ghost t: Trace, r: Result, origin: Entity, cell: CellInfo,
                     local: Segment, buffer: array<Byte>)
      returns (error: Option<Error>, ghost chain: seq<nat>)
      requires g.Valid() && Completed(g, o, limits, t, r)
      requires origin.Cell? && Listed(o.pages, origin.page) && origin.cell < |o.pages[origin.page - 1].cells| && cell == o.pages[origin.page - 1].cells[origin.cell]
      requires cell.payloadSize == Some(buffer.Length) && cell.localLength == Some(local.length) && local.length < buffer.Length
      modifies buffer, control`stop, control`failed
      ensures control.Later()
      ensures error.None? ==>
        && RealPages(chain) && ReadSoFar(file, g, chain, |chain|, buffer.Length - local.length, buffer[local.length..])
        && buffer[..local.length] == old(buffer[..local.length])
      ensures error.Some? ==> error.value.FileReadFailed? || error.value.OverflowUnavailable? || error.value.ReadCancelled?
      ensures error == Some(ReadCancelled) ==> control.stop
      ensures error == Some(OverflowUnavailable) ==> control.stop || control.failed || !Followable(r, origin)
    {
      hide Completed, ReadSoFar, Overflow.Fits, Filled, PageSegment, AllAuthorized, SelectedCell.ChainOf, Inventory.Listed;
      chain := [];
      var found := FindChain(r.traversals, origin, control);
      if found.None? {
        return Some(OverflowUnavailable), [];
      }
      var walk := r.traversals[found.value];
      ghost var spill := buffer.Length - local.length;
      CellsChain(g, o, limits, t, r, origin, found.value);
      AllFilled(g, walk.prefix, spill);
      ghost var first, read := buffer[..local.length], [];
      NothingRead(file, g, walk.prefix, spill);
      var cursor := local.length;
      for k: nat := 0 to |walk.prefix|
        invariant control.Later()
        invariant cursor == local.length + Filled(k, spill, g.usableSize - 4) <= buffer.Length
        invariant ReadSoFar(file, g, walk.prefix, k, spill, read)
        invariant buffer[..cursor] == first + read
      {
        var stopped := control.Stopped();
        if stopped {
          return Some(ReadCancelled), [];
        }
        var linked := control.Access();
        if !linked || !Authorized(r, SourceOf(walk, k), walk.prefix[k]) {
          if linked {
            NoOtherChain(r, origin, found.value, k);
          }
          return Some(OverflowUnavailable), [];
        }
        NextPage(g, walk.prefix, k, spill);
        var left := buffer.Length - cursor;
        var length := if left < g.usableSize - 4 then left else g.usableSize - 4;
        if length == 0 {
          return Some(OverflowUnavailable), [];
        }
        var source := Segment(walk.prefix[k], (walk.prefix[k] - 1) * g.pageSize + 4, length);
        var filled := Fill(buffer, cursor, source);
        if !filled {
          return Some(FileReadFailed), [];
        }
        OnePageMore(file, g, walk.prefix, k, spill, read);
        read, cursor := read + BytesOf(file, source), cursor + length;
      }
      if cursor != buffer.Length {
        return Some(OverflowUnavailable), [];
      }
      Parts(buffer[..], first, read);
      error, chain := None, walk.prefix;
    }
  }

  /** The chain that the inspection shows for a cell, as far as reading it goes. */
  lemma CellsChain(g: Geometry, o: Observed, limits: Topology.Limits, t: Trace, r: Result, origin: Entity, k: nat)
    requires g.Valid() && Completed(g, o, limits, t, r)
    requires k < |r.traversals| && r.traversals[k].origin == origin && origin.Cell? && r.traversals[k].stop.None?
    ensures RealPages(r.traversals[k].prefix)
    ensures Overflow.Fits(g.usableSize - 4, Overflow.Spill(o.pages, origin), |r.traversals[k].prefix|, true)
  {
    hide Completed, SelectedCell.ChainOf, Overflow.Fits;
    SelectedCell.ResultLeavesChain(g, o, limits, t, r, k);
    SelectedCell.ChainFitsCell(o.pages, t.phases.overrides, g.usableSize - 4, r.traversals[k]);
  }

  lemma NothingRead(file: seq<Byte>, g: Geometry, prefix: seq<nat>, spill: nat)
    requires g.Valid() && RealPages(prefix)
    ensures ReadSoFar(file, g, prefix, 0, spill, [])
  {
  }

  lemma OnePageMore(file: seq<Byte>, g: Geometry, prefix: seq<nat>, k: nat, spill: nat, read: seq<Byte>)
    requires g.Valid() && k < |prefix| && RealPages(prefix) && ReadSoFar(file, g, prefix, k, spill, read)
    requires InFile(file, PageSegment(prefix, k, spill, g.usableSize - 4, g.pageSize))
    ensures ReadSoFar(file, g, prefix, k + 1, spill, read + BytesOf(file, PageSegment(prefix, k, spill, g.usableSize - 4, g.pageSize)))
  {
    hide PageSegment, Joined, ChainSegments;
    ChainGrows(file, prefix, k, spill, g.usableSize - 4, g.pageSize);
  }

  lemma Parts(s: seq<Byte>, left: seq<Byte>, right: seq<Byte>)
    requires s == left + right
    ensures s[..|left|] == left && s[|left|..] == right
  {
  }

  lemma LocalPayload(file: seq<Byte>, g: Geometry, local: Segment, bytes: seq<Byte>)
    requires g.Valid() && InFile(file, local) && bytes == BytesOf(file, local)
    ensures IsPayload(file, g, local, local.length, [], bytes)
  {
    LocalJoined(file, local);
    assert bytes == [] || local.length > 0;
  }

  /** The local part and the chain are the whole payload. */
  lemma WholePayload(file: seq<Byte>, g: Geometry, local: Segment, total: nat, chain: seq<nat>, bytes: seq<Byte>)
    requires g.Valid() && InFile(file, local) && local.length < total == |bytes| && RealPages(chain)
    requires ReadSoFar(file, g, chain, |chain|, total - local.length, bytes[local.length..])
    requires bytes[..local.length] == BytesOf(file, local)
    ensures IsPayload(file, g, local, total, chain, bytes)
  {
    hide ChainSegments;
    LocalJoined(file, local);
    JoinedAppend(file, if local.length > 0 then [local] else [], ChainSegments(chain, |chain|, total - local.length, g.usableSize - 4, g.pageSize));
    assert bytes == bytes[..local.length] + bytes[local.length..];
  }
}
