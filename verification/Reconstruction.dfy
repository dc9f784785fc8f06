/** Reconstruction of one selected cell: its payload from the page and the overflow chain, its
    fields, and where in the file each field's bytes stand (sections 1.7 and 2.1 of the
    SQLite file format). */
module Reconstruction {
  import opened Wrappers
  import opened Bytes
  import opened Control
  import G = ClaimGraph
  import Overflow
  import Varints

  const CHUNK: nat := 16 * 1024

  /** Bytes of the file that are evidence for part of the payload. */
  datatype Segment = Segment(page: nat, at: nat, length: nat)

  datatype Outcome =
    | Done
    | Cancelled
    | PayloadBudget
    | PageBudget
    | ValueBudget
    | AllocationLimit
    | ReadFailed
    | RelationshipUnavailable
    | PrefixStopped
    | OverflowLengthMismatch
    | PayloadLengthMismatch
    | RecordInvalid

  predicate InFile(file: seq<Byte>, s: Segment) {
    s.at + s.length <= |file|
  }

  function BytesOf(file: seq<Byte>, s: Segment): seq<Byte>
    requires InFile(file, s)
  {
    file[s.at..s.at + s.length]
  }

  predicate AllInFile(file: seq<Byte>, segments: seq<Segment>) {
    forall k :: 0 <= k < |segments| ==> InFile(file, segments[k])
  }

  /** The bytes that the evidence names, in order. */
  function Joined(file: seq<Byte>, segments: seq<Segment>): seq<Byte>
    requires AllInFile(file, segments)
  {
    if segments == [] then [] else Joined(file, segments[..|segments| - 1]) + BytesOf(file, segments[|segments| - 1])
  }

  /** The payload so far is exactly what the evidence so far names. */
  ghost predicate Faithful(file: seq<Byte>, evidence: seq<Segment>, payload: seq<Byte>) {
    AllInFile(file, evidence) && payload == Joined(file, evidence)
  }

  lemma JoinOne(file: seq<Byte>, evidence: seq<Segment>, payload: seq<Byte>, s: Segment)
    requires Faithful(file, evidence, payload) && InFile(file, s)
    ensures Faithful(file, evidence + [s], payload + BytesOf(file, s))
  {
    assert (evidence + [s])[..|evidence|] == evidence;
  }

  /** The payload bytes on page `k` of a chain that holds `spill` bytes, `room` to a page. */
  function PageSegment(prefix: seq<nat>, k: nat, spill: nat, room: nat, pageSize: nat): Segment
    requires k < |prefix| && prefix[k] >= 1
  {
    Segment(prefix[k], (prefix[k] - 1) * pageSize + 4,
      if k * room >= spill then 0 else if spill - k * room < room then spill - k * room else room)
  }

  predicate RealPages(prefix: seq<nat>) {
    forall k :: 0 <= k < |prefix| ==> prefix[k] >= 1
  }

  /** The payload bytes on the first `n` pages of a chain. */
  function ChainSegments(prefix: seq<nat>, n: nat, spill: nat, room: nat, pageSize: nat): seq<Segment>
    requires n <= |prefix| && RealPages(prefix)
  {
    if n == 0 then [] else ChainSegments(prefix, n - 1, spill, room, pageSize) + [PageSegment(prefix, n - 1, spill, room, pageSize)]
  }

  /** Where the whole payload of a cell stands: on the page itself, then along the chain. */
  function PayloadSegments(local: Segment, total: nat, prefix: seq<nat>, room: nat, pageSize: nat): seq<Segment>
    requires RealPages(prefix)
  {
    (if local.length > 0 then [local] else [])
      + if local.length < total then ChainSegments(prefix, |prefix|, total - local.length, room, pageSize) else []
  }

  /** One page more of the chain was read. */
  lemma ChainGrows(file: seq<Byte>, prefix: seq<nat>, k: nat, spill: nat, room: nat, pageSize: nat)
    requires k < |prefix| && RealPages(prefix) && InFile(file, PageSegment(prefix, k, spill, room, pageSize))
    requires AllInFile(file, ChainSegments(prefix, k, spill, room, pageSize))
    ensures AllInFile(file, ChainSegments(prefix, k + 1, spill, room, pageSize))
    ensures Joined(file, ChainSegments(prefix, k + 1, spill, room, pageSize))
         == Joined(file, ChainSegments(prefix, k, spill, room, pageSize)) + BytesOf(file, PageSegment(prefix, k, spill, room, pageSize))
  {
    var before := ChainSegments(prefix, k, spill, room, pageSize);
    assert (before + [PageSegment(prefix, k, spill, room, pageSize)])[..|before|] == before;
  }

  class Reader {
    const file: seq<Byte>
    const control: WorkControl
    var payload: seq<Byte>
    var evidence: seq<Segment>

    constructor (file: seq<Byte>, control: WorkControl)
      ensures this.file == file && this.control == control && payload == [] && evidence == []
      ensures Valid()
    {
      this.file, this.control := file, control;
      payload, evidence := [], [];
    }

    ghost predicate Valid()
      reads this
    {
      Faithful(file, evidence, payload)
    }

    /** Reads one extent in chunks, and keeps evidence for each chunk. */
    method ReadSegment(source: Segment) returns (outcome: Outcome)
      requires Valid()
      modifies this`payload, this`evidence, control`stop
      ensures Valid() && old(payload) <= payload
      ensures (old(control.stop) ==> control.stop) && (outcome.Cancelled? ==> control.stop)
      ensures outcome.Done? || outcome.Cancelled? || outcome.AllocationLimit? || outcome.ReadFailed?
      ensures outcome.Done? && source.length > 0 ==> InFile(file, source) && payload == old(payload) + BytesOf(file, source)
      ensures outcome.Done? && source.length == 0 ==> payload == old(payload)
      ensures |payload| <= |old(payload)| + source.length
      ensures forall k :: |old(evidence)| <= k < |evidence| ==> evidence[k].length <= CHUNK && evidence[k].page == source.page
    {
      var offset := 0;
      ghost var before := payload;
      hide Joined;
      while offset < source.length
        invariant offset <= source.length && Valid() && (old(control.stop) ==> control.stop)
        invariant offset > 0 ==> source.at + offset <= |file|
        invariant payload == before + (if offset == 0 then [] else file[source.at..source.at + offset])
        invariant forall k :: |old(evidence)| <= k < |evidence| ==> evidence[k].length <= CHUNK && evidence[k].page == source.page
        decreases source.length - offset
      {
        var stopped := control.Stopped();
        if stopped {
          return Cancelled;
        }
        var length := if source.length - offset < CHUNK then source.length - offset else CHUNK;
        var granted: bool := *;
        if !granted {
          return AllocationLimit;
        }
        var chunk := Segment(source.page, source.at + offset, length);
        var answered: bool := *;
        if !answered || !InFile(file, chunk) {
          return ReadFailed;
        }
        JoinOne(file, evidence, payload, chunk);
        payload := payload + BytesOf(file, chunk);
        evidence := evidence + [chunk];
        SliceAppend(file, source.at, source.at + offset, source.at + offset + length);
        offset := offset + length;
      }
      outcome := Done;
    }

    /** Reads the overflow pages of a validated chain. `total` is the payload size and
        `linked` and `role` are what the revision says of each step. A chain has as many
        pages as the payload needs and no more, so no page is left without bytes to read,
        and a chain that was followed to its end yields the whole payload, page by page.
        Every other outcome gives its true cause. */
    method ReadOverflow(prefix: seq<nat>, stop: Option<G.TraversalStop>, total: nat, room: nat, pageSize: nat, maxPages: nat,
                        linked: seq<bool>, role: seq<bool>)
      returns (outcome: Outcome)
      requires Valid() && |payload| < total && room > 0 && |linked| == |role| == |prefix| && RealPages(prefix)
      requires Overflow.Fits(room, total - |payload|, |prefix|, stop.None?)
      modifies this`payload, this`evidence, control`stop
      ensures Valid() && old(payload) <= payload
      ensures old(control.stop) ==> control.stop
      ensures !outcome.OverflowLengthMismatch? && !outcome.PayloadLengthMismatch?
      ensures Explained(outcome, control.stop, |prefix|, maxPages, linked, role, stop)
      ensures outcome.Done? ==> |payload| == total && stop.None?
      ensures outcome.Done? || outcome.PrefixStopped? ==>
        && AllInFile(file, ChainSegments(prefix, |prefix|, total - |old(payload)|, room, pageSize))
        && payload == old(payload) + Joined(file, ChainSegments(prefix, |prefix|, total - |old(payload)|, room, pageSize))
    {
      ghost var before := payload;
      ghost var spill := total - |payload|;
      hide Joined, AllInFile;
      NothingJoined(file, prefix, spill, room, pageSize);
      for k: nat := 0 to |prefix|
        invariant Valid() && before <= payload
        invariant old(control.stop) ==> control.stop
        invariant k <= maxPages && forall m :: 0 <= m < k ==> linked[m] && role[m]
        invariant |payload| == |before| + (if k * room < spill then k * room else spill)
        invariant AllInFile(file, ChainSegments(prefix, k, spill, room, pageSize))
        invariant payload == before + Joined(file, ChainSegments(prefix, k, spill, room, pageSize))
      {
        var stopped := control.Stopped();
        if stopped {
          return Cancelled;
        }
        if k >= maxPages {
          return PageBudget;
        }
        if !role[k] || !linked[k] {
          return RelationshipUnavailable;
        }
        MorePagesMoreBytes(k, |prefix| - 1, room);
        assert k * room < spill;
        var left := total - |payload|;
        var length := if left < room then left else room;
        if length == 0 {
          return OverflowLengthMismatch;
        }
        var source := Segment(prefix[k], (prefix[k] - 1) * pageSize + 4, length);
        assert source == PageSegment(prefix, k, spill, room, pageSize);
        outcome := ReadSegment(source);
        if !outcome.Done? {
          return;
        }
        ChainGrows(file, prefix, k, spill, room, pageSize);
        assert (k + 1) * room == k * room + room;
      }
      outcome := if stop.Some? then PrefixStopped else Done;
    }

    /** The whole payload of a cell: its local part, then its chain. Both length checks that
        guard the result are unreachable, and a payload that is returned is exactly the bytes
        of its segments in the file. */
    method ReadPayload(local: Segment, total: nat, maxPayload: nat, prefix: seq<nat>, stop: Option<G.TraversalStop>, room: nat, pageSize: nat,
                       maxPages: nat, linked: seq<bool>, role: seq<bool>)
      returns (outcome: Outcome)
      requires Valid() && payload == [] && local.length <= total && room > 0 && |linked| == |role| == |prefix| && RealPages(prefix)
      requires local.length < total ==> Overflow.Fits(room, total - local.length, |prefix|, stop.None?)
      modifies this`payload, this`evidence, control`stop
      ensures Valid()
      ensures old(control.stop) ==> control.stop
      ensures !outcome.OverflowLengthMismatch? && !outcome.PayloadLengthMismatch?
      ensures outcome.PayloadBudget? ==> total > maxPayload
      ensures outcome.PayloadBudget? || Explained(outcome, control.stop, |prefix|, maxPages, linked, role, stop)
      ensures outcome.Done? ==> |payload| == total <= maxPayload && (local.length < total ==> stop.None?)
      ensures outcome.Done? ==>
        && AllInFile(file, PayloadSegments(local, total, prefix, room, pageSize))
        && payload == Joined(file, PayloadSegments(local, total, prefix, room, pageSize))
    {
      hide Joined, AllInFile, ChainSegments;
      var stopped := control.Stopped();
      if stopped {
        return Cancelled;
      }
      if total > maxPayload {
        return PayloadBudget;
      }
      outcome := ReadSegment(local);
      if outcome.Done? {
        LocalJoined(file, local);
        ghost var first, chain := if local.length > 0 then [local] else [], [];
        NothingMore(file, first);
        if local.length < total {
          chain := ChainSegments(prefix, |prefix|, total - local.length, room, pageSize);
          outcome := ReadOverflow(prefix, stop, total, room, pageSize, maxPages, linked, role);
        }
        if outcome.Done? {
          JoinedAppend(file, first, chain);
        }
      }
      if outcome.Done? && |payload| != total {
        outcome := PayloadLengthMismatch;
      }
    }
  }

  /** The outcome names something that was really so. */
  predicate Explained(outcome: Outcome, stopped: bool, length: nat, maxPages: nat, linked: seq<bool>, role: seq<bool>, stop: Option<G.TraversalStop>) {
    match outcome
    case Done => true
    case Cancelled => stopped
    case PageBudget => length > maxPages
    case RelationshipUnavailable => false in linked || false in role
    case PrefixStopped => stop.Some? && length <= maxPages && false !in linked && false !in role
    case AllocationLimit => true
    case ReadFailed => true
    case _ => false
  }

  lemma NothingJoined(file: seq<Byte>, prefix: seq<nat>, spill: nat, room: nat, pageSize: nat)
    requires RealPages(prefix)
    ensures AllInFile(file, ChainSegments(prefix, 0, spill, room, pageSize))
    ensures Joined(file, ChainSegments(prefix, 0, spill, room, pageSize)) == []
  {
  }

  lemma LocalJoined(file: seq<Byte>, local: Segment)
    ensures AllInFile(file, []) && Joined(file, []) == []
    ensures InFile(file, local) ==> AllInFile(file, [local]) && Joined(file, [local]) == BytesOf(file, local)
  {
    if InFile(file, local) {
      assert [local][..0] == [];
      assert [] + BytesOf(file, local) == BytesOf(file, local);
    }
  }

  lemma NothingMore(file: seq<Byte>, segments: seq<Segment>)
    requires AllInFile(file, segments)
    ensures segments + [] == segments && Joined(file, segments) + Joined(file, []) == Joined(file, segments)
  {
  }

  lemma MorePagesMoreBytes(k: nat, last: nat, room: nat)
    requires k <= last
    ensures k * room <= last * room
  {
    if k < last {
      MorePagesMoreBytes(k, last - 1, room);
      assert last * room == (last - 1) * room + room;
    }
  }

  // ---------------------------------------------------------------- where a field's bytes stand

  function Length(segments: seq<Segment>): nat {
    if segments == [] then 0 else Length(segments[..|segments| - 1]) + segments[|segments| - 1].length
  }

  lemma {:induction false} JoinedLength(file: seq<Byte>, segments: seq<Segment>)
    requires AllInFile(file, segments)
    ensures |Joined(file, segments)| == Length(segments)
  {
    if segments != [] {
      JoinedLength(file, segments[..|segments| - 1]);
    }
  }

  /** The part of one segment that belongs to the payload bytes from `offset` on; the segment
      itself starts at payload byte `start`. */
  function Part(s: Segment, start: nat, offset: nat, length: nat): seq<Segment> {
    var end := start + s.length;
    var from, upTo := if offset > start then offset else start, if offset + length < end then offset + length else end;
    if from < upTo then [Segment(s.page, s.at + (from - start), upTo - from)] else []
  }

  /** The first `n` segments, cut down to the field. */
  function FieldSource(offset: nat, length: nat, segments: seq<Segment>, n: nat): seq<Segment>
    requires n <= |segments|
  {
    if n == 0 then []
    else FieldSource(offset, length, segments, n - 1) + Part(segments[n - 1], Length(segments[..n - 1]), offset, length)
  }

  /** The bytes from `low` up to `high`, as far as there are any. */
  function Window(bytes: seq<Byte>, low: nat, high: nat): seq<Byte> {
    var from, upTo := if low < |bytes| then low else |bytes|, if high < |bytes| then high else |bytes|;
    if from <= upTo then bytes[from..upTo] else []
  }

  function Less(a: nat, b: nat): nat {
    if a < b then 0 else a - b
  }

  lemma WindowAppend(first: seq<Byte>, second: seq<Byte>, low: nat, high: nat)
    requires low <= high
    ensures Window(first + second, low, high) == Window(first, low, high) + Window(second, Less(low, |first|), Less(high, |first|))
  {
  }

  lemma PartBytes(file: seq<Byte>, s: Segment, start: nat, offset: nat, length: nat)
    requires InFile(file, s)
    ensures AllInFile(file, Part(s, start, offset, length))
    ensures Joined(file, Part(s, start, offset, length)) == Window(BytesOf(file, s), Less(offset, start), Less(offset + length, start))
  {
    var r := Part(s, start, offset, length);
    var low, high := Less(offset, start), Less(offset + length, start);
    if r != [] {
      var upTo := if high < s.length then high else s.length;
      assert r[0] == Segment(s.page, s.at + low, upTo - low) && r[..0] == [];
      assert Joined(file, r) == Joined(file, []) + BytesOf(file, r[0]);
      SliceOfSlice(file, s.at, s.length, low, upTo);
      hide Joined;
      assert Window(BytesOf(file, s), low, high) == BytesOf(file, s)[low..upTo];
    }
  }

  lemma SliceAppend<T>(all: seq<T>, a: nat, b: nat, c: nat)
    requires a <= b <= c <= |all|
    ensures all[a..b] + all[b..c] == all[a..c]
  {
    SliceOfSlice(all, a, c - a, 0, b - a);
    SliceOfSlice(all, a, c - a, b - a, c - a);
    var whole := all[a..c];
    assert whole == whole[0..b - a] + whole[b - a..c - a];
  }

  lemma SliceOfSlice<T>(all: seq<T>, at: nat, length: nat, i: nat, j: nat)
    requires at + length <= |all| && i <= j <= length
    ensures all[at..at + length][i..j] == all[at + i..at + j]
  {
    var part, direct := all[at..at + length][i..j], all[at + i..at + j];
    assert forall k :: 0 <= k < |direct| ==> part[k] == direct[k];
  }

  lemma {:induction false} JoinedAppend(file: seq<Byte>, a: seq<Segment>, b: seq<Segment>)
    requires AllInFile(file, a) && AllInFile(file, b)
    ensures AllInFile(file, a + b) && Joined(file, a + b) == Joined(file, a) + Joined(file, b)
  {
    if b == [] {
      assert a + b == a;
    } else {
      var rest, last := b[..|b| - 1], b[|b| - 1];
      JoinedAppend(file, a, rest);
      assert (a + b)[..|a + b| - 1] == a + rest && (a + b)[|a + b| - 1] == last;
      assert (Joined(file, a) + Joined(file, rest)) + BytesOf(file, last) == Joined(file, a) + (Joined(file, rest) + BytesOf(file, last));
    }
  }

  lemma {:induction false} SourceBytes(file: seq<Byte>, segments: seq<Segment>, offset: nat, length: nat, n: nat)
    requires AllInFile(file, segments) && n <= |segments|
    ensures AllInFile(file, FieldSource(offset, length, segments, n))
    ensures Joined(file, FieldSource(offset, length, segments, n)) == Window(Joined(file, segments[..n]), offset, offset + length)
  {
    if n > 0 {
      SourceBytes(file, segments, offset, length, n - 1);
      assert segments[..n][..n - 1] == segments[..n - 1];
      OneMoreSource(file, segments[..n - 1], segments[n - 1], offset, length, FieldSource(offset, length, segments, n - 1));
    }
  }

  lemma OneMoreSource(file: seq<Byte>, before: seq<Segment>, s: Segment, offset: nat, length: nat, source: seq<Segment>)
    requires AllInFile(file, before) && InFile(file, s) && AllInFile(file, source)
    requires Joined(file, source) == Window(Joined(file, before), offset, offset + length)
    ensures AllInFile(file, source + Part(s, Length(before), offset, length))
    ensures Joined(file, source + Part(s, Length(before), offset, length)) == Window(Joined(file, before) + BytesOf(file, s), offset, offset + length)
  {
    JoinedLength(file, before);
    PartBytes(file, s, Length(before), offset, length);
    JoinedAppend(file, source, Part(s, Length(before), offset, length));
    WindowAppend(Joined(file, before), BytesOf(file, s), offset, offset + length);
  }

  /** Provenance is faithful: the file's bytes at a field's sources, joined in order, are the
      payload bytes of the field. */
  lemma ProvenanceIsFaithful(file: seq<Byte>, evidence: seq<Segment>, payload: seq<Byte>, offset: nat, length: nat)
    requires Faithful(file, evidence, payload) && offset + length <= |payload|
    ensures var source := FieldSource(offset, length, evidence, |evidence|);
      AllInFile(file, source) && Joined(file, source) == payload[offset..offset + length]
  {
    SourceBytes(file, evidence, offset, length, |evidence|);
    assert evidence[..|evidence|] == evidence;
  }

  /** The sources of a field, found in one pass over the evidence. */
  method FindSource(offset: nat, length: nat, evidence: seq<Segment>) returns (source: seq<Segment>)
    ensures source == FieldSource(offset, length, evidence, |evidence|)
  {
    var start := 0;
    source := [];
    for k: nat := 0 to |evidence|
      invariant start == Length(evidence[..k]) && source == FieldSource(offset, length, evidence, k)
    {
      assert evidence[..k + 1][..k] == evidence[..k];
      source := source + Part(evidence[k], start, offset, length);
      start := start + evidence[k].length;
    }
  }

  // ---------------------------------------------------------------- fields

  datatype Field = Field(serial: nat, offset: nat, length: nat, source: seq<Segment>)

  /** The body bytes of a serial type; 10 and 11 are reserved, and the constants 8 and 9 need
      schema format 4. */
  function BodySize(serial: nat, format: nat): Option<nat> {
    if (serial == 8 || serial == 9) && format < 4 then None
    else if serial == 0 || serial == 8 || serial == 9 then Some(0)
    else if serial <= 4 then Some(serial)
    else if serial == 5 then Some(6)
    else if serial <= 7 then Some(8)
    else if serial <= 11 then None
    else Some((serial - 12) / 2)
  }

  /** Where the header stands after these serial types were read from it, if it holds them. */
  function HeaderCursor(bytes: seq<Byte>, cursor: nat, end: nat, serials: seq<nat>): Option<nat>
    requires end <= |bytes|
  {
    if serials == [] then Some(cursor)
    else
      var last := |serials| - 1;
      var before := HeaderCursor(bytes, cursor, end, serials[..last]);
      if before.None? then None
      else
        var r := Varints.Decode(bytes[..end], before.value, 0, 0);
        if r.Some? && r.value.0 == serials[last] then Some(r.value.1) else None
  }

  /** The fields stand one behind the other from `from` up to `upTo`, each as long as its
      serial type says. */
  ghost predicate Laid(fields: seq<Field>, format: nat, from: nat, upTo: nat) {
    if fields == [] then from == upTo
    else
      var last := fields[|fields| - 1];
      && BodySize(last.serial, format) == Some(last.length)
      && last.offset + last.length == upTo
      && Laid(fields[..|fields| - 1], format, from, last.offset)
  }

  function Serials(fields: seq<Field>): seq<nat> {
    seq(|fields|, k requires 0 <= k < |fields| => fields[k].serial)
  }

  /** A decoded record: the header's serial types, then the fields, and nothing left over. */
  ghost predicate Decoded(file: seq<Byte>, bytes: seq<Byte>, format: nat, fields: seq<Field>) {
    var header := Varints.Decode(bytes, 0, 0, 0);
    && header.Some? && header.value.1 <= header.value.0 <= |bytes|
    && HeaderCursor(bytes, header.value.1, header.value.0, Serials(fields)) == Some(header.value.0)
    && Laid(fields, format, header.value.0, |bytes|)
    && Sourced(file, bytes, fields)
  }

  /** Reads the serial types of the header. */
  method ReadSerials(bytes: seq<Byte>, from: nat, end: nat, maxValues: nat, control: WorkControl) returns (serials: seq<nat>, outcome: Outcome)
    requires from <= end <= |bytes|
    modifies control`stop
    ensures outcome.Done? ==> HeaderCursor(bytes, from, end, serials) == Some(end) && |serials| <= maxValues
    ensures !outcome.Done? ==> outcome.Cancelled? || outcome.ValueBudget? || outcome.RecordInvalid?
  {
    var cursor := from;
    serials := [];
    while cursor < end
      invariant from <= cursor <= end && |serials| <= maxValues
      invariant HeaderCursor(bytes, from, end, serials) == Some(cursor)
    {
      var stopped := control.Stopped();
      if stopped {
        return serials, Cancelled;
      }
      if |serials| >= maxValues {
        return serials, ValueBudget;
      }
      var serial, next, ok := Varints.ReadVarint(bytes[..end], cursor);
      if !ok {
        return serials, RecordInvalid;
      }
      Varints.DecodeBounds(bytes[..end], cursor, 0, 0);
      assert (serials + [serial])[..|serials|] == serials;
      serials, cursor := serials + [serial], next;
    }
    outcome := Done;
  }

  /** Cuts the body into fields, each with the place of its bytes in the file. */
  method ReadFields(file: seq<Byte>, evidence: seq<Segment>, bytes: seq<Byte>, serials: seq<nat>, format: nat, from: nat, control: WorkControl)
    returns (fields: seq<Field>, outcome: Outcome)
    requires Faithful(file, evidence, bytes) && from <= |bytes|
    modifies control`stop
    ensures outcome.Done? ==> Serials(fields) == serials && Laid(fields, format, from, |bytes|) && Sourced(file, bytes, fields)
    ensures !outcome.Done? ==> outcome.Cancelled? || outcome.RecordInvalid?
  {
    fields := [];
    var cursor: nat := from;
    assert FieldsRead(file, bytes, format, from, serials, 0, fields, cursor);
    hide FieldsRead, Laid, Sourced, Joined, FieldSource, Faithful;
    for n: nat := 0 to |serials|
      invariant cursor <= |bytes| && FieldsRead(file, bytes, format, from, serials, n, fields, cursor)
    {
      var stopped := control.Stopped();
      if stopped {
        return fields, Cancelled;
      }
      var size := BodySize(serials[n], format);
      if size.None? || cursor + size.value > |bytes| {
        return fields, RecordInvalid;
      }
      var source := FindSource(cursor, size.value, evidence);
      ProvenanceIsFaithful(file, evidence, bytes, cursor, size.value);
      FieldStep(file, bytes, format, from, serials, n, fields, cursor, Field(serials[n], cursor, size.value, source));
      fields, cursor := fields + [Field(serials[n], cursor, size.value, source)], cursor + size.value;
    }
    AllFieldsRead(file, bytes, format, from, serials, fields, cursor);
    outcome := if cursor == |bytes| then Done else RecordInvalid;
  }

  ghost predicate FieldsRead(file: seq<Byte>, bytes: seq<Byte>, format: nat, from: nat, serials: seq<nat>, n: nat, fields: seq<Field>, cursor: nat) {
    n <= |serials| && Laid(fields, format, from, cursor) && Serials(fields) == serials[..n] && Sourced(file, bytes, fields)
  }

  lemma FieldStep(file: seq<Byte>, bytes: seq<Byte>, format: nat, from: nat, serials: seq<nat>, n: nat, fields: seq<Field>, cursor: nat, field: Field)
    requires FieldsRead(file, bytes, format, from, serials, n, fields, cursor) && n < |serials|
    requires field.serial == serials[n] && field.offset == cursor && BodySize(serials[n], format) == Some(field.length)
    requires cursor + field.length <= |bytes| && AllInFile(file, field.source)
    requires Joined(file, field.source) == bytes[cursor..cursor + field.length]
    ensures FieldsRead(file, bytes, format, from, serials, n + 1, fields + [field], cursor + field.length)
  {
    assert (fields + [field])[..|fields|] == fields;
    assert Serials(fields + [field]) == Serials(fields) + [serials[n]];
    assert serials[..n + 1] == serials[..n] + [serials[n]];
  }

  lemma AllFieldsRead(file: seq<Byte>, bytes: seq<Byte>, format: nat, from: nat, serials: seq<nat>, fields: seq<Field>, cursor: nat)
    requires FieldsRead(file, bytes, format, from, serials, |serials|, fields, cursor)
    ensures Laid(fields, format, from, cursor) && Serials(fields) == serials && Sourced(file, bytes, fields)
  {
    assert serials[..|serials|] == serials;
  }

  /** Every field's sources hold its bytes. */
  ghost predicate Sourced(file: seq<Byte>, bytes: seq<Byte>, fields: seq<Field>) {
    forall k :: 0 <= k < |fields| ==>
      && fields[k].offset + fields[k].length <= |bytes| && AllInFile(file, fields[k].source)
      && Joined(file, fields[k].source) == bytes[fields[k].offset..fields[k].offset + fields[k].length]
  }

  /** Decodes a whole record. The fields of a record that is accepted tile its body, and their
      sources hold exactly their bytes. */
  method DecodeRecord(file: seq<Byte>, evidence: seq<Segment>, bytes: seq<Byte>, format: nat, maxValues: nat, control: WorkControl)
    returns (fields: seq<Field>, outcome: Outcome)
    requires Faithful(file, evidence, bytes)
    modifies control`stop
    ensures outcome.Done? ==> Decoded(file, bytes, format, fields) && |fields| <= maxValues && 1 <= format <= 4
  {
    fields := [];
    if !(1 <= format <= 4) {
      return fields, RecordInvalid;
    }
    var header, cursor, ok := Varints.ReadVarint(bytes, 0);
    if !ok || header < cursor || header > |bytes| {
      return fields, RecordInvalid;
    }
    var serials;
    serials, outcome := ReadSerials(bytes, cursor, header, maxValues, control);
    if outcome.Done? {
      fields, outcome := ReadFields(file, evidence, bytes, serials, format, header, control);
    }
  }
}
