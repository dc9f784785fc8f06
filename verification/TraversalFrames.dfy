/** How traversals are framed in the store, so that a window of a long prefix can be read
    without the rest. */
module TraversalFrames {
  import opened Wrappers
  import opened Bytes
  import opened Store
  import opened SpillingSequence
  import opened PageIndex

  const MAX_HEADER: nat := 65536

  type PageNumber = n: nat | n < 0x1_0000_0000

  /** A traversal: what it is, and the pages it validated. */
  datatype Traversal<+K> = Traversal(kind: K, prefix: seq<PageNumber>)

  datatype Header<+K> = Header(position: nat, kind: K, count: nat)

  /** The text form of headers. */
  datatype Codec<!K> = Codec(text: Header<K> -> seq<Byte>, read: seq<Byte> -> Option<Header<K>>)

  ghost predicate Faithful<K(!new)>(codec: Codec<K>) {
    forall h :: codec.read(codec.text(h)) == Some(h)
  }

  // ---------------------------------------------------------------- four-byte steps

  function LittleBytes(n: nat): (r: seq<Byte>)
    requires n < 0x1_0000_0000
    ensures |r| == 4 && Little32(r, 0) == n
  {
    var a := n / 0x100;
    var b := a / 0x100;
    [n % 0x100, a % 0x100, b % 0x100, b / 0x100]
  }

  lemma BytesOfLittle(b: seq<Byte>, at: nat)
    requires at + 4 <= |b|
    ensures LittleBytes(Little32(b, at)) == b[at..at + 4]
  {
    var high := b[at + 2] as int + b[at + 3] as int * 0x100;
    var middle := b[at + 1] as int + high * 0x100;
    assert Little32(b, at) == b[at] as int + middle * 0x100;
    assert Little32(b, at) / 0x100 == middle && middle / 0x100 == high && high / 0x100 == b[at + 3] as int;
  }

  function PageBytes(prefix: seq<PageNumber>): (r: seq<Byte>)
    ensures |r| == 4 * |prefix|
  {
    if prefix == [] then [] else PageBytes(prefix[..|prefix| - 1]) + LittleBytes(prefix[|prefix| - 1])
  }

  /** The pages in a run of bytes, four bytes each. */
  function Pages(bytes: seq<Byte>, count: nat): (r: seq<PageNumber>)
    requires |bytes| == 4 * count
    ensures |r| == count
  {
    seq(count, k requires 0 <= k < count => Little32(bytes, 4 * k))
  }

  lemma {:induction false} PagesOfBytes(prefix: seq<PageNumber>)
    ensures Pages(PageBytes(prefix), |prefix|) == prefix
  {
    if prefix != [] {
      var last := |prefix| - 1;
      PagesOfBytes(prefix[..last]);
      var before, bytes := PageBytes(prefix[..last]), PageBytes(prefix);
      forall k | 0 <= k < |prefix|
        ensures Little32(bytes, 4 * k) == prefix[k]
      {
        if k < last {
          assert Pages(before, last)[k] == prefix[k];
          SameFour(before, 4 * k, bytes, 4 * k);
        } else {
          SameFour(LittleBytes(prefix[last]), 0, bytes, 4 * k);
        }
      }
    }
  }

  lemma SameFour(a: seq<Byte>, i: nat, b: seq<Byte>, j: nat)
    requires i + 4 <= |a| && j + 4 <= |b|
    requires a[i] == b[j] && a[i + 1] == b[j + 1] && a[i + 2] == b[j + 2] && a[i + 3] == b[j + 3]
    ensures Little32(a, i) == Little32(b, j)
  {
  }

  lemma {:induction false} BytesOfPages(bytes: seq<Byte>, count: nat)
    requires |bytes| == 4 * count
    ensures PageBytes(Pages(bytes, count)) == bytes
  {
    if count > 0 {
      var rest := bytes[..|bytes| - 4];
      BytesOfPages(rest, count - 1);
      var pages := Pages(bytes, count);
      forall k | 0 <= k < count - 1
        ensures pages[k] == Pages(rest, count - 1)[k]
      {
        SameFour(bytes, 4 * k, rest, 4 * k);
      }
      assert pages[..count - 1] == Pages(rest, count - 1);
      BytesOfLittle(bytes, |bytes| - 4);
    }
  }

  // ---------------------------------------------------------------- framing

  /** A frame: the length of the header text, the text, and the pages. */
  function Frame(text: seq<Byte>, prefix: seq<PageNumber>): seq<Byte>
    requires |text| < 0x1_0000_0000
  {
    LittleBytes(|text|) + text + PageBytes(prefix)
  }

  function HeaderText<K>(codec: Codec<K>, t: Traversal<K>): seq<Byte> {
    codec.text(Header(0, t.kind, |t.prefix|))
  }

  /** Writes a frame; a header text of four gigabytes has no frame. */
  method Encode<K>(codec: Codec<K>, t: Traversal<K>) returns (r: Option<seq<Byte>>)
    ensures r == FrameOf(codec, t)
  {
    var text := HeaderText(codec, t);
    if |text| >= 0x1_0000_0000 {
      return None;
    }
    var bytes := LittleBytes(|text|) + text;
    for k := 0 to |t.prefix|
      invariant bytes == Frame(text, t.prefix[..k])
    {
      assert t.prefix[..k + 1][..k] == t.prefix[..k];
      bytes := bytes + LittleBytes(t.prefix[k]);
    }
    assert t.prefix[..|t.prefix|] == t.prefix;
    return Some(bytes);
  }

  function FrameOf<K>(codec: Codec<K>, t: Traversal<K>): Option<seq<Byte>> {
    var text := HeaderText(codec, t);
    if |text| >= 0x1_0000_0000 then None else Some(Frame(text, t.prefix))
  }

  function Decode<K>(codec: Codec<K>, bytes: seq<Byte>): Option<Traversal<K>> {
    if |bytes| < 4 then None
    else
      var end := 4 + Little32(bytes, 0);
      if |bytes| < end then None
      else
        var header, rest := codec.read(bytes[4..end]), bytes[end..];
        if header.None? || |rest| % 4 != 0 || |rest| / 4 != header.value.count then None
        else Some(Traversal(header.value.kind, Pages(rest, header.value.count)))
  }

  /** What was framed decodes to the same traversal. */
  lemma DecodeOfFrame<K(!new)>(codec: Codec<K>, t: Traversal<K>)
    requires Faithful(codec) && FrameOf(codec, t).Some?
    ensures Decode(codec, FrameOf(codec, t).value) == Some(t)
  {
    var text, bytes := HeaderText(codec, t), FrameOf(codec, t).value;
    SameFour(LittleBytes(|text|), 0, bytes, 0);
    var end := 4 + |text|;
    assert bytes[4..end] == text && bytes[end..] == PageBytes(t.prefix);
    PagesOfBytes(t.prefix);
  }

  /** Only frames decode: the bytes are those of a header text that names the traversal and
      counts its pages, followed by the pages and nothing else. */
  lemma DecodedIsFrame<K>(codec: Codec<K>, bytes: seq<Byte>) returns (text: seq<Byte>)
    requires Decode(codec, bytes).Some?
    ensures var t := Decode(codec, bytes).value;
      && |text| < 0x1_0000_0000 && bytes == Frame(text, t.prefix)
      && codec.read(text).Some? && codec.read(text).value.kind == t.kind && codec.read(text).value.count == |t.prefix|
  {
    var end := 4 + Little32(bytes, 0);
    text := bytes[4..end];
    var rest := bytes[end..];
    BytesOfPages(rest, codec.read(text).value.count);
    BytesOfLittle(bytes, 0);
    assert bytes == bytes[..4] + text + rest;
  }

  // ---------------------------------------------------------------- reading a window

  /** Reads the header and a part of the prefix from a stored frame. It answers what decoding
      the whole frame would, except that a header text over the ceiling is refused. */
  method ReadBlob<K>(codec: Codec<K>, blob: seq<Byte>, position: nat, offset: nat, limit: nat)
    returns (r: Option<(Header<K>, seq<PageNumber>)>)
    ensures var t := Decode(codec, blob);
      r == if t.None? || Little32(blob, 0) > MAX_HEADER then None
      else Some((Header(position, t.value.kind, |t.value.prefix|), Slice(t.value.prefix, offset, limit)))
  {
    if |blob| < 4 {
      return None;
    }
    var length := Little32(blob, 0);
    if length > MAX_HEADER || |blob| < 4 + length {
      return None;
    }
    var header := codec.read(blob[4..4 + length]);
    if header.None? {
      return None;
    }
    var start, total := 4 + length, header.value.count;
    if total * 4 + start != |blob| {
      return None;
    }
    var left := if offset < total then total - offset else 0;
    var count := if left < limit then left else limit;
    var bytes := [];
    if count > 0 {
      bytes := blob[start + offset * 4..start + offset * 4 + count * 4];
    }
    WindowOfPages(blob[start..], total, offset, limit, bytes, count);
    return Some((header.value.(position := position), Pages(bytes, count)));
  }

  lemma WindowOfPages(rest: seq<Byte>, total: nat, offset: nat, limit: nat, bytes: seq<Byte>, count: nat)
    requires |rest| == 4 * total && |bytes| == 4 * count
    requires count == var left := if offset < total then total - offset else 0; if left < limit then left else limit
    requires count > 0 ==> bytes == rest[4 * offset..4 * offset + 4 * count]
    ensures Pages(bytes, count) == Slice(Pages(rest, total), offset, limit)
  {
    var window, whole := Pages(bytes, count), Pages(rest, total);
    forall k | 0 <= k < count
      ensures window[k] == whole[offset + k]
    {
      SameFour(bytes, 4 * k, rest, 4 * (offset + k));
    }
    assert |window| == |Slice(whole, offset, limit)|;
  }

  /** Reads the header of a stored traversal and a part of its prefix, wherever it is kept. */
  method TraversalWindow<K(!new, ==)>(codec: Codec<K>, store: StoreContext<Traversal<K>>, c: Cells<Traversal<K>>, position: nat, offset: nat, limit: nat)
    returns (answered: bool, header: Option<Header<K>>, steps: seq<PageNumber>)
    requires store.Valid() && Good(c, store.Now(), store.size) && Faithful(codec)
    modifies store`failure
    ensures answered ==> position < Length(c) && IsWindowOf(View(c, store.Now(), store.size)[position], position, offset, limit, header, steps)
    ensures answered ==> store.failure == old(store.failure)
    ensures !answered ==> position >= Length(c) || !store.failure.Working?
    ensures !old(store.failure).Working? ==> !answered
    decreases c, 1
  {
    ghost var h := store.Now();
    Parts(c, h, store.size);
    hide Good, LocalGood, AllGood, View, Views, LocalView, Length, Lengths, IsWindowOf, Faithful;
    answered, header, steps := false, None, [];
    if store.failure.Working? {
      if position < c.length {
        answered, header, steps := LocalWindow(codec, store, c, position, offset, limit);
      } else if position < Length(c) {
        answered, header, steps := SegmentWindow(codec, store, c, position, offset, limit);
      }
    }
  }

  method SegmentWindow<K(!new, ==)>(codec: Codec<K>, store: StoreContext<Traversal<K>>, c: Cells<Traversal<K>>, position: nat, offset: nat, limit: nat)
    returns (answered: bool, header: Option<Header<K>>, steps: seq<PageNumber>)
    requires store.Valid() && AllGood(c.segments, store.Now(), store.size) && Faithful(codec) && store.failure.Working?
    requires c.length <= position < c.length + Lengths(c.segments)
    modifies store`failure
    ensures answered ==> IsWindowOf(Views(c.segments, store.Now(), store.size)[position - c.length], position, offset, limit, header, steps)
    ensures answered ==> store.failure == old(store.failure)
    ensures !answered ==> !store.failure.Working?
    decreases c, 0
  {
    ghost var h := store.Now();
    assert c.segments != [];
    hide Good, LocalGood, AllGood, View, Views, LocalView, Length, Lengths, IsWindowOf, Faithful;
    var k, remaining := FindSegment(c.segments, position - c.length);
    SegmentGood(c.segments, h, store.size, k);
    SegmentReads(c.segments, h, store.size, k, remaining);
    ghost var t := View(c.segments[k], h, store.size)[remaining];
    answered, header, steps := TraversalWindow(codec, store, c.segments[k], remaining, offset, limit);
    if answered {
      header := Moved(t, header, steps, remaining, offset, limit, position);
    }
  }

  method Moved<K>(ghost t: Traversal<K>, header: Option<Header<K>>, ghost steps: seq<PageNumber>, ghost from: nat, ghost offset: nat, ghost limit: nat, position: nat)
    returns (r: Option<Header<K>>)
    requires IsWindowOf(t, from, offset, limit, header, steps)
    ensures IsWindowOf(t, position, offset, limit, r, steps)
  {
    r := Some(header.value.(position := position));
  }

  /** The same, for a position of the sequence's own part. */
  method LocalWindow<K(!new, ==)>(codec: Codec<K>, store: StoreContext<Traversal<K>>, c: Cells<Traversal<K>>, position: nat, offset: nat, limit: nat)
    returns (answered: bool, header: Option<Header<K>>, steps: seq<PageNumber>)
    requires LocalGood(c, store.Now(), store.size) && position < c.length && Faithful(codec)
    modifies store`failure
    ensures answered ==> IsWindowOf(LocalView(c, store.Now(), store.size)[position], position, offset, limit, header, steps)
    ensures answered ==> store.failure == old(store.failure)
    ensures !answered ==> !store.failure.Working?
  {
    if position in c.memory {
      var t := c.memory[position];
      return true, Some(Header(position, t.kind, |t.prefix|)), Slice(t.prefix, offset, limit);
    }
    var record := store.records[(c.collection, position)];
    assert record == LocalView(c, store.Now(), store.size)[position];
    hide LocalGood, LocalView, IsWindowOf;
    answered, header, steps := false, None, [];
    var error := store.DiskAnswers();
    if error.Working? {
      answered, header, steps := ReadStored(codec, record, position, offset, limit);
      error := if answered then Working else Unavailable;
    }
    store.RecordError(error);
  }

  ghost predicate IsWindowOf<K>(t: Traversal<K>, position: nat, offset: nat, limit: nat, header: Option<Header<K>>, steps: seq<PageNumber>) {
    header == Some(Header(position, t.kind, |t.prefix|)) && steps == Slice(t.prefix, offset, limit)
  }

  /** Reads a window of a record of the table, which is kept as a frame. */
  method ReadStored<K(!new, ==)>(codec: Codec<K>, t: Traversal<K>, position: nat, offset: nat, limit: nat)
    returns (answered: bool, header: Option<Header<K>>, steps: seq<PageNumber>)
    requires Faithful(codec)
    ensures answered <==> |HeaderText(codec, t)| <= MAX_HEADER
    ensures answered ==> IsWindowOf(t, position, offset, limit, header, steps)
  {
    answered, header, steps := false, None, [];
    var frame := Encode(codec, t);
    if frame.Some? {
      DecodeOfFrame(codec, t);
      SameFour(LittleBytes(|HeaderText(codec, t)|), 0, frame.value, 0);
      var window := ReadBlob(codec, frame.value, position, offset, limit);
      if window.Some? {
        answered, header, steps := true, Some(window.value.0), window.value.1;
      }
    }
  }
}
