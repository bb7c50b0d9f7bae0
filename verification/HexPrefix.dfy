/** Nibbles and the hex-prefix path encoding (Appendix C of the Ethereum Yellow Paper). */
module HexPrefix {
  import opened Basics

  /** The path of a leaf or an extension as it is stored: a flag byte and packed nibbles. */
  type Path = p: Bytes | |p| > 0 witness [0]

  function High(b: byte): nibble {
    (b / 0x10) as nibble
  }

  function Low(b: byte): nibble {
    (b % 0x10) as nibble
  }

  function Pack(hi: nibble, lo: nibble): (b: byte)
    ensures High(b) == hi && Low(b) == lo
  {
    hi as byte * 0x10 + lo as byte
  }

  /** Splits every byte into two nibbles. */
  function ToNibs(s: Bytes): (r: Nibbles)
    ensures |r| == 2 * |s|
  {
    if s == [] then [] else [High(s[0]), Low(s[0])] + ToNibs(s[1..])
  }

  function PackPairs(nibs: Nibbles): (r: Bytes)
    requires |nibs| % 2 == 0
    ensures ToNibs(r) == nibs && 2 * |r| == |nibs|
  {
    if nibs == [] then [] else
    var r := [Pack(nibs[0], nibs[1])] + PackPairs(nibs[2..]);
    assert r[1..] == PackPairs(nibs[2..]);
    assert ToNibs(r) == [nibs[0], nibs[1]] + nibs[2..];
    r
  }

  /** The flag bit that tells a leaf from an extension. */
  predicate LeafFlag(p: Path) {
    (p[0] / 0x20) % 2 == 1
  }

  predicate OddFlag(p: Path) {
    (p[0] / 0x10) % 2 == 1
  }

  function PrefixNibs(p: Path): Nibbles {
    (if OddFlag(p) then [Low(p[0])] else []) + ToNibs(p[1..])
  }

  /** The first byte of an encoded path. */
  function Flag(isLeaf: bool, isOdd: bool, first: nibble): (b: byte)
    ensures (b / 0x20) % 2 == 1 <==> isLeaf
    ensures (b / 0x10) % 2 == 1 <==> isOdd
    ensures Low(b) == first
    ensures b < 0x40
  {
    (if isLeaf then 0x20 else 0) + (if isOdd then 0x10 else 0) + first as byte
  }

  function Flagged(flag: byte, nibs: Nibbles): (p: Path)
    requires |nibs| % 2 == 0
    ensures p[0] == flag && ToNibs(p[1..]) == nibs && |p| == 1 + |nibs| / 2
  {
    var p := [flag] + PackPairs(nibs);
    assert p[1..] == PackPairs(nibs);
    p
  }

  function ToEncodedPath(nibs: Nibbles, isLeaf: bool): (p: Path)
    ensures PrefixNibs(p) == nibs
    ensures LeafFlag(p) == isLeaf
    ensures |p| == 1 + |nibs| / 2 && p[0] < 0x40
  {
    if |nibs| % 2 != 0 then Flagged(Flag(isLeaf, true, nibs[0]), nibs[1..])
    else Flagged(Flag(isLeaf, false, 0), nibs)
  }

  /** A path as the program writes it, for a leaf or for an extension. */
  predicate Canonical(p: Path, isLeaf: bool) {
    p == ToEncodedPath(PrefixNibs(p), isLeaf)
  }

  /** The encoded paths are those below 0x40 with the right flag and nothing in an unused nibble. */
  lemma CanonicalPaths(p: Path, isLeaf: bool)
    ensures Canonical(p, isLeaf) <==>
      p[0] < 0x40 && LeafFlag(p) == isLeaf && (!OddFlag(p) ==> Low(p[0]) == 0)
  {
    var q := ToEncodedPath(PrefixNibs(p), isLeaf);
    if p[0] < 0x40 && LeafFlag(p) == isLeaf && (!OddFlag(p) ==> Low(p[0]) == 0) {
      assert |PrefixNibs(p)| == (if OddFlag(p) then 1 else 0) + 2 * |p[1..]|;
      SameFlag(p[0], isLeaf, OddFlag(p), Low(p[0]));
      NibsInjective(p[1..], q[1..]);
      assert p == [p[0]] + p[1..] && q == [q[0]] + q[1..];
    }
  }

  lemma SameFlag(b: byte, isLeaf: bool, isOdd: bool, first: nibble)
    requires b < 0x40 && ((b / 0x20) % 2 == 1 <==> isLeaf) && ((b / 0x10) % 2 == 1 <==> isOdd) && Low(b) == first
    ensures b == Flag(isLeaf, isOdd, first)
  {
  }

  /** A byte string is determined by its nibbles. */
  lemma {:induction false} NibsInjective(a: Bytes, b: Bytes)
    requires ToNibs(a) == ToNibs(b)
    ensures a == b
  {
    if a != [] && b != [] {
      assert ToNibs(a)[2..] == ToNibs(a[1..]) && ToNibs(b)[2..] == ToNibs(b[1..]);
      assert ToNibs(a)[0] == High(a[0]) && ToNibs(a)[1] == Low(a[0]);
      assert ToNibs(b)[0] == High(b[0]) && ToNibs(b)[1] == Low(b[0]);
      NibsInjective(a[1..], b[1..]);
      assert a == [a[0]] + a[1..] && b == [b[0]] + b[1..];
    }
  }

  /** The hex-prefix code loses nothing: the nibbles and the flag are read back, so no two paths with
      different nibbles or flags share a code. */
  lemma HexPrefixRoundTrip(nibs: Nibbles, isLeaf: bool, nibs': Nibbles, isLeaf': bool)
    ensures PrefixNibs(ToEncodedPath(nibs, isLeaf)) == nibs && LeafFlag(ToEncodedPath(nibs, isLeaf)) == isLeaf
    ensures ToEncodedPath(nibs, isLeaf) == ToEncodedPath(nibs', isLeaf') <==> nibs == nibs' && isLeaf == isLeaf'
  {
    assert PrefixNibs(ToEncodedPath(nibs, isLeaf)) == nibs;
    assert PrefixNibs(ToEncodedPath(nibs', isLeaf')) == nibs';
  }

  // The loops of the program.

  method SplitNibs(slice: Bytes) returns (result: Nibbles)
    ensures result == ToNibs(slice)
  {
    result := [];
    for i := 0 to |slice|
      invariant result + ToNibs(slice[i..]) == ToNibs(slice)
    {
      assert slice[i..][1..] == slice[i + 1..];
      result := result + [High(slice[i])];
      result := result + [Low(slice[i])];
    }
  }

  method ReadPrefixNibs(prefix: Path) returns (result: Nibbles)
    ensures result == PrefixNibs(prefix)
  {
    var first, tail := prefix[0], prefix[1..];
    result := [];
    if OddFlag(prefix) {
      result := result + [Low(first)];
    }
    for i := 0 to |tail|
      invariant result + ToNibs(tail[i..]) == PrefixNibs(prefix)
    {
      assert tail[i..][1..] == tail[i + 1..];
      result := result + [High(tail[i])];
      result := result + [Low(tail[i])];
    }
  }
}
