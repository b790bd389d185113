/** Hex-prefix notation (Appendix C of the Yellow Paper). */
module HexPrefix {
  import opened Bytes

  /** Packs nibbles two to a byte, with a zero for a missing last one. */
  function Pack(ns: Nibbles): (r: ByteString)
    ensures |r| == (|ns| + 1) / 2
  {
    if ns == [] then []
    else if |ns| == 1 then [(ns[0] as int) * 16]
    else [(ns[0] as int) * 16 + ns[1]] + Pack(ns[2..])
  }

  /** The first nibble holds the flags: 1 for odd length, 2 for a leaf. */
  function Flag(leaf: bool, odd: bool): nibble {
    (if leaf then 2 else 0) + (if odd then 1 else 0)
  }

  /** The flag nibble and, for an even length, a zero. */
  function Prefix(leaf: bool, odd: bool): Nibbles {
    if odd then [Flag(leaf, odd)] else [Flag(leaf, odd), 0]
  }

  function Encode(ns: Nibbles, leaf: bool): ByteString {
    Pack(Prefix(leaf, |ns| % 2 == 1) + ns)
  }

  /** Packing is undone by reading the nibbles. */
  lemma {:induction false} PackNibbles(ns: Nibbles)
    requires |ns| % 2 == 0
    ensures AsNibbles(Pack(ns)) == ns
  {
    if ns != [] {
      var b, rest := (ns[0] as int) * 16 + ns[1], Pack(ns[2..]);
      PackNibbles(ns[2..]);
      assert b / 16 == ns[0] && b % 16 == ns[1];
      assert Pack(ns)[1..] == rest;
      assert ns == [ns[0], ns[1]] + ns[2..];
    }
  }

  /** `keyOf`: the nibbles after the flag. */
  function KeyOf(hpe: ByteString): Nibbles {
    if hpe == [] then []
    else if hpe[0] / 16 % 2 == 1 then AsNibbles(hpe)[1..]
    else AsNibbles(hpe)[2..]
  }

  /** `isLeaf`: bit 0x20 of the first byte. */
  predicate IsLeaf(hpe: ByteString)
    requires hpe != []
  {
    hpe[0] / 32 % 2 == 1
  }

  /** The encoding recovers both the nibbles and the flag. */
  lemma Recovered(ns: Nibbles, leaf: bool)
    ensures Encode(ns, leaf) != [] && KeyOf(Encode(ns, leaf)) == ns && IsLeaf(Encode(ns, leaf)) == leaf
  {
    var odd := |ns| % 2 == 1;
    var all := Prefix(leaf, odd) + ns;
    PackNibbles(all);
    var e := Encode(ns, leaf);
    assert e[0] / 16 == AsNibbles(e)[0] == all[0] == Flag(leaf, odd);
    assert all[|Prefix(leaf, odd)|..] == ns;
  }

  /** The nibbles of the encoding: 2 for a leaf and 1 for an odd length in the first, a zero to make the number
      even, and the nibbles given. */
  lemma EncodedNibbles(ns: Nibbles, leaf: bool)
    ensures AsNibbles(Encode(ns, leaf)) ==
            (if |ns| % 2 == 1 then [if leaf then 3 else 1] else [if leaf then 2 else 0, 0]) + ns
  {
    PackNibbles(Prefix(leaf, |ns| % 2 == 1) + ns);
  }

  /** Of any string, the flags are bits 0x20 and 0x10 of the first byte. */
  lemma FlagsRead(hpe: ByteString)
    requires hpe != []
    ensures IsLeaf(hpe) <==> hpe[0] % 64 >= 32
    ensures KeyOf(hpe) == AsNibbles(hpe)[if hpe[0] % 32 >= 16 then 1 else 2..]
  {
    var x: nat := hpe[0];
    BitOf(x, 32);
    BitOf(x, 16);
  }

  lemma BitOf(x: nat, p: nat)
    requires p == 16 || p == 32
    ensures x % (2 * p) >= p <==> x / p % 2 == 1
  {
    var y, z := x / p, x % p;
    DivisionIs(x, 2 * p, y / 2, y % 2 * p + z);
  }

  /** One more nibble fills the empty half of the last byte, or starts a new byte. */
  lemma {:induction false} PackSnoc(ns: Nibbles, n: nibble)
    ensures |ns| % 2 == 1 ==> Pack(ns) != [] && var p := Pack(ns); var last := p[|p| - 1];
              last + n < 256 && Pack(ns + [n]) == p[|p| - 1 := last + n]
    ensures |ns| % 2 == 0 ==> Pack(ns + [n]) == Pack(ns) + [(n as int) * 16]
  {
    hide Pack;
    if |ns| % 2 == 1 {
      PackSnocOdd(ns, |ns| / 2, n);
    } else {
      PackSnocEven(ns, |ns| / 2, n);
    }
  }

  lemma {:induction false} PackSnocEven(ns: Nibbles, half: nat, n: nibble)
    requires |ns| == 2 * half
    ensures Pack(ns + [n]) == Pack(ns) + [(n as int) * 16]
  {
    if half == 0 {
      assert ns + [n] == [n];
    } else {
      assert (ns + [n])[2..] == ns[2..] + [n];
      PackSnocEven(ns[2..], half - 1, n);
    }
  }

  lemma {:induction false} PackSnocOdd(ns: Nibbles, half: nat, n: nibble)
    requires |ns| == 2 * half + 1
    ensures Pack(ns) != [] && var p := Pack(ns); var last := p[|p| - 1];
              last + n < 256 && Pack(ns + [n]) == p[|p| - 1 := last + n]
  {
    if half == 0 {
      assert Pack(ns + [n]) == [(ns[0] as int) * 16 + n];
    } else {
      assert (ns + [n])[2..] == ns[2..] + [n];
      PackSnocOdd(ns[2..], half - 1, n);
    }
  }

  lemma PackPair(ns: Nibbles, half: nat, a: nibble, b: nibble)
    requires |ns| == 2 * half
    ensures Pack(ns + [a] + [b]) == Pack(ns) + [(a as int) * 16 + b]
  {
    hide Pack;
    PackSnoc(ns, a);
    PackSnoc(ns + [a], b);
  }

  lemma PackNextPair(before: Nibbles, half: nat, hex: Nibbles, begin: nat, i: nat, j: nat)
    requires |before| == 2 * half && i == begin + 2 * j && i + 1 < |hex|
    ensures Pack(before + hex[begin..i + 2]) == Pack(before + hex[begin..i]) + [(hex[i] as int) * 16 + hex[i + 1]]
  {
    hide Pack;
    var ns := before + hex[begin..i];
    assert before + hex[begin..i + 2] == ns + [hex[i]] + [hex[i + 1]];
    PackPair(ns, half + j, hex[i], hex[i + 1]);
  }

  lemma PackPrefix(leaf: bool, odd: bool)
    ensures Pack(Prefix(leaf, odd)) == [(Flag(leaf, odd) as int) * 16]
    ensures |Prefix(leaf, odd)| == if odd then 1 else 2
  {
  }

  lemma PackPrefixOdd(leaf: bool, n: nibble)
    ensures Pack(Prefix(leaf, true) + [n]) == [(Flag(leaf, true) as int) * 16 + n]
  {
  }

  /** `nibble`: one half of a byte. */
  function Nibble(data: ByteString, i: nat): nibble
    requires i < 2 * |data|
  {
    if i % 2 == 1 then data[i / 2] % 16 else data[i / 2] / 16
  }

  lemma {:induction false} NibbleIs(data: ByteString, i: nat)
    requires i < 2 * |data|
    ensures Nibble(data, i) == AsNibbles(data)[i]
  {
    if i >= 2 {
      NibbleIs(data[1..], i - 2);
      assert data[1..][(i - 2) / 2] == data[i / 2];
      assert AsNibbles(data)[2..] == AsNibbles(data[1..]);
    }
  }

  /** The loop that packs two nibbles at a time. */
  method ExtendPairs(ret0: ByteString, hex: Nibbles, begin: nat, end: nat, ghost before: Nibbles, ghost half: nat, ghost pairs: nat)
    returns (ret: ByteString)
    requires end == begin + 2 * pairs <= |hex| && |before| == 2 * half && ret0 == Pack(before)
    ensures ret == Pack(before + hex[begin..end])
  {
    hide Pack;
    ret := ret0;
    assert before + hex[begin..begin] == before;
    var i := begin;
    ghost var j := 0;
    while i < end
      invariant j <= pairs && i == begin + 2 * j && ret == Pack(before + hex[begin..i])
    {
      PackNextPair(before, half, hex, begin, i, j);
      ret := ret + [(hex[i] as int) * 16 + hex[i + 1]];
      i := i + 2;
      j := j + 1;
    }
  }

  /** The encoder over a vector of nibbles; a negative end counts from the back. */
  method EncodeVector(hex: Nibbles, leaf: bool, begin: nat, end: int) returns (ret: ByteString)
    requires var e := if end < 0 then |hex| + 1 + end else end; begin <= e <= |hex|
    ensures var e := if end < 0 then |hex| + 1 + end else end; ret == Encode(hex[begin..e], leaf)
  {
    hide Pack;
    var e := if end < 0 then |hex| + 1 + end else end;
    var odd := (e - begin) % 2 != 0;
    ghost var prefix := Prefix(leaf, odd);
    PackPrefix(leaf, odd);
    ret := [(Flag(leaf, odd) as int) * 16];
    if odd {
      PackPrefixOdd(leaf, hex[begin]);
      ret := [ret[0] + hex[begin]];
      ret := ExtendPairs(ret, hex, begin + 1, e, prefix + [hex[begin]], 1, (e - begin - 1) / 2);
      assert prefix + [hex[begin]] + hex[begin + 1..e] == prefix + hex[begin..e];
    } else {
      ret := ExtendPairs(ret, hex, begin, e, prefix, 1, (e - begin) / 2);
    }
  }

  /** The loop over nibbles i to end of a slice: odd places go to the back, even places are pushed. */
  method Extend(ret0: ByteString, d0: nat, data: ByteString, begin: nat, end: nat, ghost before: Nibbles)
    returns (ret: ByteString, d: nat)
    requires begin <= end <= 2 * |data| && ret0 == Pack(before) && d0 == |before|
    ensures ret == Pack(before + AsNibbles(data)[begin..end]) && d == d0 + (end - begin)
  {
    hide Pack; hide Nibble;
    ret, d := ret0, d0;
    ghost var ns := AsNibbles(data);
    assert before + ns[begin..begin] == before;
    for i := begin to end
      invariant d == d0 + (i - begin) && ret == Pack(before + ns[begin..i])
    {
      NibbleIs(data, i);
      var n := Nibble(data, i);
      PackSnoc(before + ns[begin..i], n);
      assert before + ns[begin..i + 1] == before + ns[begin..i] + [n];
      if d % 2 == 1 {
        ret := ret[|ret| - 1 := ret[|ret| - 1] + n];
      } else {
        ret := ret + [(n as int) * 16];
      }
      d := d + 1;
    }
  }

  /** The encoder over a byte slice from a nibble offset. */
  method EncodeSlice(data: ByteString, leaf: bool, beginNibble: nat, endNibble: int, offset: nat) returns (ret: ByteString)
    requires offset <= 2 * |data|
    requires var e := if endNibble < 0 then 2 * |data| - offset + 1 + endNibble else endNibble;
             beginNibble <= e <= 2 * |data| - offset
    ensures var e := if endNibble < 0 then 2 * |data| - offset + 1 + endNibble else endNibble;
            ret == Encode(AsNibbles(data)[offset..][beginNibble..e], leaf)
  {
    var begin := beginNibble + offset;
    var end := (if endNibble < 0 then 2 * |data| - offset + 1 + endNibble else endNibble) + offset;
    var odd := (end - begin) % 2 == 1;
    ghost var ns := AsNibbles(data)[begin..end];
    assert AsNibbles(data)[offset..][beginNibble..end - offset] == ns;
    hide Pack;
    PackPrefix(leaf, odd);
    var d;
    ret, d := Extend([(Flag(leaf, odd) as int) * 16], if odd then 1 else 2, data, begin, end, Prefix(leaf, odd));
  }

  lemma ToTheEnd(ns: Nibbles, o: nat)
    requires o <= |ns|
    ensures ns[o..|ns|] == ns[o..]
  {
  }

  /** The encoder over two slices encodes their concatenation, whatever their parities. */
  method EncodeTwo(d1: ByteString, o1: nat, d2: ByteString, o2: nat, leaf: bool) returns (ret: ByteString)
    requires o1 <= 2 * |d1| && o2 <= 2 * |d2|
    ensures ret == Encode(AsNibbles(d1)[o1..] + AsNibbles(d2)[o2..], leaf)
  {
    var odd := (2 * |d1| - o1 + 2 * |d2| - o2) % 2 == 1;
    ghost var a, b, prefix := AsNibbles(d1)[o1..], AsNibbles(d2)[o2..], Prefix(leaf, odd);
    hide Pack; hide AsNibbles;
    PackPrefix(leaf, odd);
    ToTheEnd(AsNibbles(d1), o1);
    ToTheEnd(AsNibbles(d2), o2);
    var d;
    ret, d := Extend([(Flag(leaf, odd) as int) * 16], if odd then 1 else 2, d1, o1, 2 * |d1|, prefix);
    ret, d := Extend(ret, d, d2, o2, 2 * |d2|, prefix + a);
    assert prefix + a + b == prefix + (a + b);
  }
}
