/** Index keys as they are written to the private file: fixed-width big-endian numbers, so
    that the file's byte order is the order of the keys. */
module KeyCodec {
  import opened Wrappers
  import opened Bytes
  import opened Store

  /** Byte order: the first difference decides, and a prefix comes first. */
  predicate Less(a: Key, b: Key) {
    if b == [] then false
    else if a == [] then true
    else if a[0] != b[0] then a[0] < b[0]
    else Less(a[1..], b[1..])
  }

  lemma {:induction false} LessTotal(a: Key, b: Key)
    ensures !Less(a, a)
    ensures a == b || Less(a, b) || Less(b, a)
  {
    if a != [] {
      LessTotal(a[1..], a[1..]);
    }
    if a != [] && b != [] && a[0] == b[0] {
      LessTotal(a[1..], b[1..]);
      assert a == [a[0]] + a[1..] && b == [b[0]] + b[1..];
    }
  }

  lemma {:induction false} LessTransitive(a: Key, b: Key, c: Key)
    requires Less(a, b) && Less(b, c)
    ensures Less(a, c)
  {
    if a != [] && a[0] == b[0] && b[0] == c[0] {
      LessTransitive(a[1..], b[1..], c[1..]);
    }
  }

  // ---------------------------------------------------------------- numbers

  function Power(width: nat): (p: nat)
    ensures p > 0
  {
    if width == 0 then 1 else 256 * Power(width - 1)
  }

  function Encode(n: nat, width: nat): (key: Key)
    ensures |key| == width
  {
    if width == 0 then [] else Encode(n / 256, width - 1) + [(n % 256) as Byte]
  }

  function Decode(key: Key): nat {
    if key == [] then 0 else Decode(key[..|key| - 1]) * 256 + key[|key| - 1] as nat
  }

  lemma {:induction false} DecodeEncode(n: nat, width: nat)
    requires n < Power(width)
    ensures Decode(Encode(n, width)) == n
  {
    if width > 0 {
      DecodeEncode(n / 256, width - 1);
      assert Encode(n, width)[..width - 1] == Encode(n / 256, width - 1);
    }
  }

  lemma {:induction false} LessAppend(a: Key, b: Key, c: Key, d: Key)
    requires |a| == |b|
    ensures Less(a + c, b + d) <==> Less(a, b) || (a == b && Less(c, d))
  {
    if a == [] {
      assert a + c == c && b + d == d;
    } else {
      assert (a + c)[1..] == a[1..] + c && (b + d)[1..] == b[1..] + d;
      LessAppend(a[1..], b[1..], c, d);
      assert a == [a[0]] + a[1..] && b == [b[0]] + b[1..];
    }
  }

  /** The byte order of encoded numbers is their numeric order. */
  lemma {:induction false} EncodeOrder(m: nat, n: nat, width: nat)
    requires m < Power(width) && n < Power(width)
    ensures Less(Encode(m, width), Encode(n, width)) <==> m < n
    ensures Encode(m, width) == Encode(n, width) <==> m == n
  {
    DecodeEncode(m, width);
    DecodeEncode(n, width);
    if width > 0 {
      EncodeOrder(m / 256, n / 256, width - 1);
      LessAppend(Encode(m / 256, width - 1), Encode(n / 256, width - 1), [(m % 256) as Byte], [(n % 256) as Byte]);
    }
  }

  /** Two numbers side by side: the first decides before the second. A page number takes four
      bytes and a position takes eight. */
  function EncodePair(first: nat, second: nat, width: nat): Key {
    Encode(first, 4) + Encode(second, width)
  }

  /** A key of the wrong length is no pair. */
  function DecodePair(key: Key, width: nat): Option<(nat, nat)> {
    if |key| != 4 + width then None else Some((Decode(key[..4]), Decode(key[4..])))
  }

  lemma PairOrder(a: nat, b: nat, c: nat, d: nat, width: nat)
    requires a < Power(4) && c < Power(4) && b < Power(width) && d < Power(width)
    ensures Less(EncodePair(a, b, width), EncodePair(c, d, width)) <==> a < c || (a == c && b < d)
    ensures DecodePair(EncodePair(a, b, width), width) == Some((a, b))
  {
    LessAppend(Encode(a, 4), Encode(c, 4), Encode(b, width), Encode(d, width));
    EncodeOrder(a, c, 4);
    EncodeOrder(b, d, width);
    DecodeEncode(a, 4);
    DecodeEncode(b, width);
    var key := EncodePair(a, b, width);
    assert key[..4] == Encode(a, 4) && key[4..] == Encode(b, width);
  }

  // ---------------------------------------------------------------- smallest keys

  predicate Least(keys: set<Key>, key: Key) {
    key in keys && forall other :: other in keys && other != key ==> Less(key, other)
  }

  lemma {:induction false} LeastExists(keys: set<Key>) returns (key: Key)
    requires keys != {}
    ensures Least(keys, key)
    decreases |keys|
  {
    key :| key in keys;
    var rest := keys - {key};
    assert keys == rest + {key};
    if rest != {} {
      var least := LeastExists(rest);
      LessTotal(key, least);
      if Less(least, key) {
        key := least;
      } else {
        forall other | other in rest
          ensures Less(key, other)
        {
          if other != least {
            LessTransitive(key, least, other);
          }
        }
      }
    }
  }
}
