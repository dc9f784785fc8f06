/** SQLite's variable-length integers: up to eight bytes of seven bits, and a ninth byte of
    eight (section 1.6 of the SQLite file format). */
module Varints {
  import opened Wrappers
  import opened Bytes

  predicate More(b: Byte) {
    b >= 128
  }

  function Low(b: Byte): nat {
    b as int % 128
  }

  /** The value of seven-bit groups, continued from `value`. */
  function Fold(value: nat, groups: seq<Byte>): nat {
    if groups == [] then value else Fold(value, groups[..|groups| - 1]) * 128 + Low(groups[|groups| - 1])
  }

  /** What reading from `cursor` yields: the value and the cursor behind it, or nothing when
      the bytes end too early. `n` bytes have been read and amount to `value`. */
  function Decode(bytes: seq<Byte>, cursor: nat, n: nat, value: nat): Option<(nat, nat)>
    requires n <= 8
    decreases 8 - n
  {
    if cursor >= |bytes| then None
    else if n == 8 then Some((value * 256 + bytes[cursor] as int, cursor + 1))
    else
      var next := value * 128 + Low(bytes[cursor]);
      if More(bytes[cursor]) then Decode(bytes, cursor + 1, n + 1, next) else Some((next, cursor + 1))
  }

  function Power128(n: nat): (p: nat)
    ensures p > 0
  {
    if n == 0 then 1 else 128 * Power128(n - 1)
  }

  /** A varint takes one to nine bytes, all inside the buffer, and fits 64 bits. */
  lemma {:induction false} DecodeBounds(bytes: seq<Byte>, cursor: nat, n: nat, value: nat)
    requires n <= 8 && value < Power128(n)
    ensures var r := Decode(bytes, cursor, n, value);
      r.Some? ==> cursor < r.value.1 <= cursor + 9 - n && r.value.1 <= |bytes| && r.value.0 < 0x1_0000_0000_0000_0000
    decreases 8 - n
  {
    assert Power128(8) == 0x100_0000_0000_0000;
    if cursor < |bytes| && n < 8 {
      PowerGrows(n + 1, 8);
      if More(bytes[cursor]) {
        DecodeBounds(bytes, cursor + 1, n + 1, value * 128 + Low(bytes[cursor]));
      }
    }
  }

  lemma {:induction false} PowerGrows(m: nat, n: nat)
    requires m <= n
    ensures Power128(m) <= Power128(n)
  {
    if m < n {
      PowerGrows(m, n - 1);
    }
  }

  /** Reads a varint as the page decoder does, byte by byte. */
  method ReadVarint(bytes: seq<Byte>, cursor0: nat) returns (value: nat, cursor: nat, ok: bool)
    ensures ok <==> Decode(bytes, cursor0, 0, 0).Some?
    ensures ok ==> Decode(bytes, cursor0, 0, 0) == Some((value, cursor))
  {
    value, cursor := 0, cursor0;
    var index := 0;
    while index < 9
      invariant index <= 8
      invariant Decode(bytes, cursor0, 0, 0) == Decode(bytes, cursor, index, value)
      decreases 9 - index
    {
      if cursor >= |bytes| {
        return value, cursor, false;
      }
      var byte := bytes[cursor];
      cursor := cursor + 1;
      if index == 8 {
        return value * 256 + byte as int, cursor, true;
      }
      value := value * 128 + Low(byte);
      if !More(byte) {
        return value, cursor, true;
      }
      index := index + 1;
    }
  }

  // ---------------------------------------------------------------- SQLite's encoding

  /** Seven-bit groups of a number, as many as it needs; all but the very last one carry the
      continuation bit. */
  function Groups(v: nat, more: bool): seq<Byte> {
    var last := (v % 128 + if more then 128 else 0) as Byte;
    if v < 128 then [last] else Groups(v / 128, true) + [last]
  }

  /** Exactly `n` groups, each with the continuation bit. */
  function FixedGroups(v: nat, n: nat): seq<Byte> {
    if n == 0 then [] else FixedGroups(v / 128, n - 1) + [(v % 128 + 128) as Byte]
  }

  function Encode(v: nat): seq<Byte> {
    if v < 0x100_0000_0000_0000 then Groups(v, false) else FixedGroups(v / 256, 8) + [(v % 256) as Byte]
  }

  ghost predicate Continued(groups: seq<Byte>) {
    forall k :: 0 <= k < |groups| ==> More(groups[k])
  }

  /** Reading past continued groups. */
  lemma {:induction false} ReadGroups(bytes: seq<Byte>, cursor: nat, k: nat, n: nat, value: nat)
    requires cursor + k <= |bytes| && Continued(bytes[cursor..cursor + k]) && n + k <= 8
    ensures Decode(bytes, cursor, n, value) == Decode(bytes, cursor + k, n + k, Fold(value, bytes[cursor..cursor + k]))
  {
    if k > 0 {
      var part, shorter := bytes[cursor..cursor + k], bytes[cursor..cursor + k - 1];
      assert part[..k - 1] == shorter;
      assert forall m :: 0 <= m < k - 1 ==> shorter[m] == part[m];
      ReadGroups(bytes, cursor, k - 1, n, value);
      assert More(part[k - 1]);
    }
  }

  lemma {:induction false} GroupsMeaning(v: nat, more: bool, n: nat)
    requires v < Power128(n) && n > 0
    ensures Fold(0, Groups(v, more)) == v && 1 <= |Groups(v, more)| <= n
    ensures Continued(Groups(v, more)[..|Groups(v, more)| - 1]) && (More(Groups(v, more)[|Groups(v, more)| - 1]) <==> more)
  {
    var all := Groups(v, more);
    if v >= 128 {
      assert n > 1;
      GroupsMeaning(v / 128, true, n - 1);
      assert all[..|all| - 1] == Groups(v / 128, true);
      var rest := Groups(v / 128, true);
      forall k | 0 <= k < |rest|
        ensures More(rest[k])
      {
        assert k < |rest| - 1 ==> rest[k] == rest[..|rest| - 1][k];
      }
    }
  }

  lemma {:induction false} FixedMeaning(v: nat, n: nat)
    requires v < Power128(n)
    ensures Fold(0, FixedGroups(v, n)) == v && |FixedGroups(v, n)| == n && Continued(FixedGroups(v, n))
  {
    if n > 0 {
      FixedMeaning(v / 128, n - 1);
      assert FixedGroups(v, n)[..n - 1] == FixedGroups(v / 128, n - 1);
    }
  }

  /** Decoding what SQLite encodes gives the number back, whatever follows it. */
  lemma RoundTrip(v: nat, rest: seq<Byte>)
    requires v < 0x1_0000_0000_0000_0000
    ensures 1 <= |Encode(v)| <= 9
    ensures Decode(Encode(v) + rest, 0, 0, 0) == Some((v, |Encode(v)|))
  {
    assert Power128(8) == 0x100_0000_0000_0000;
    if v < 0x100_0000_0000_0000 {
      ShortRoundTrip(v, rest);
    } else {
      LongRoundTrip(v, rest);
    }
  }

  lemma ShortRoundTrip(v: nat, rest: seq<Byte>)
    requires v < Power128(8)
    ensures 1 <= |Groups(v, false)| <= 8
    ensures Decode(Groups(v, false) + rest, 0, 0, 0) == Some((v, |Groups(v, false)|))
  {
    var g := Groups(v, false);
    GroupsMeaning(v, false, 8);
    hide Power128, Groups;
    var bytes, k := g + rest, |g| - 1;
    assert bytes[0..k] == g[..k] && bytes[k] == g[k];
    ReadGroups(bytes, 0, k, 0, 0);
  }

  lemma LongRoundTrip(v: nat, rest: seq<Byte>)
    requires v / 256 < Power128(8)
    ensures Decode(FixedGroups(v / 256, 8) + [(v % 256) as Byte] + rest, 0, 0, 0) == Some((v, 9))
    ensures |FixedGroups(v / 256, 8)| == 8
  {
    var g := FixedGroups(v / 256, 8);
    FixedMeaning(v / 256, 8);
    hide Power128, FixedGroups, Fold;
    var bytes := g + [(v % 256) as Byte] + rest;
    assert bytes[0..8] == g && bytes[8] as int == v % 256;
    ReadGroups(bytes, 0, 8, 0, 0);
  }
}
