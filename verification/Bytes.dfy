/** Bytes, nibbles and the key order they induce. */
module Bytes {

  type byte = x: int | 0 <= x < 256
  type nibble = x: int | 0 <= x < 16

  type ByteString = seq<byte>
  type Nibbles = seq<nibble>

  /** Dividing twice is dividing by the product. */
  lemma DivideTwice(x: nat, a: nat, p: nat)
    requires a > 0 && p > 0
    ensures a * p > 0 && x / a / p == x / (a * p)
  {
    var y := x / a;
    var q, s := y / p, y % p;
    var r := Recombined(a, p, q, s, x % a);
    DivisionIs(x, a * p, q, r);
  }

  lemma Recombined(a: nat, p: nat, q: int, s: nat, t: nat) returns (r: nat)
    requires s < p && t < a
    ensures a * (p * q + s) + t == a * p * q + r && r < a * p
  {
    r := a * s + t;
    Distributes(a, p * q, s);
    Associates(a, p, q);
    Distributes(a, s, p - 1 - s);
    Distributes(a, p - 1, 1);
    NotNegative(a, p - 1 - s);
  }

  lemma Distributes(a: int, x: int, y: int)
    ensures a * (x + y) == a * x + a * y
  {
  }

  lemma Associates(a: int, x: int, y: int)
    ensures a * (x * y) == a * x * y
  {
  }

  lemma NotNegative(a: nat, x: nat)
    ensures a * x >= 0
  {
  }

  lemma DivisionIs(x: nat, d: nat, q: int, r: nat)
    requires x == d * q + r && r < d
    ensures x / d == q && x % d == r
  {
    var k := x / d;
    assert k > q ==> d * k >= d * (q + 1);
    assert k < q ==> d * k <= d * (q - 1);
  }

  function Zeros(n: nat): (r: ByteString)
    ensures |r| == n
  {
    seq(n, _ => 0)
  }

  /** The nibbles of a byte string, high half first (`asNibbles`, and what a NibbleSlice over it views). */
  function AsNibbles(s: ByteString): (r: Nibbles)
    ensures |r| == 2 * |s|
  {
    if s == [] then [] else [s[0] / 16, s[0] % 16] + AsNibbles(s[1..])
  }

  /** Nibble i is the high half of a byte for even i, and the low half for odd i. */
  lemma {:induction false} AsNibblesAt(s: ByteString, i: nat)
    requires i < 2 * |s|
    ensures AsNibbles(s)[i] == if i % 2 == 0 then s[i / 2] / 16 else s[i / 2] % 16
  {
    if i >= 2 {
      AsNibblesAt(s[1..], i - 2);
      assert s[1..][(i - 2) / 2] == s[i / 2];
    }
  }

  lemma {:induction false} AsNibblesInjective(s: ByteString, t: ByteString)
    requires AsNibbles(s) == AsNibbles(t)
    ensures s == t
  {
    if s != [] && t != [] {
      var a, b := AsNibbles(s), AsNibbles(t);
      assert a[0] == s[0] / 16 && a[1] == s[0] % 16;
      assert b[0] == t[0] / 16 && b[1] == t[0] % 16;
      assert s[0] == t[0];
      assert a[2..] == AsNibbles(s[1..]) && b[2..] == AsNibbles(t[1..]);
      AsNibblesInjective(s[1..], t[1..]);
      assert s == [s[0]] + s[1..] && t == [t[0]] + t[1..];
    }
  }

  /** Length of the longest common prefix (`NibbleSlice::shared`). */
  function Shared(a: Nibbles, b: Nibbles): (n: nat)
    ensures n <= |a| && n <= |b| && a[..n] == b[..n]
    ensures n < |a| && n < |b| ==> a[n] != b[n]
  {
    if a == [] || b == [] || a[0] != b[0] then 0
    else
      var n := Shared(a[1..], b[1..]);
      assert a[..n + 1] == [a[0]] + a[1..][..n] && b[..n + 1] == [b[0]] + b[1..][..n];
      n + 1
  }

  lemma SharedIsPrefix(a: Nibbles, b: Nibbles)
    ensures Shared(a, b) == |b| <==> b <= a
  {
    assert a[..Shared(a, b)] == b[..Shared(a, b)];
  }

  /** Lexicographic order: a proper prefix comes first. */
  predicate Less(a: Nibbles, b: Nibbles) {
    if b == [] then false
    else if a == [] then true
    else a[0] < b[0] || (a[0] == b[0] && Less(a[1..], b[1..]))
  }

  /** Either a is a proper prefix of b, or it is smaller in the first nibble in which they differ. */
  lemma {:induction false} LessIff(a: Nibbles, b: Nibbles)
    ensures Less(a, b) <==> var n := Shared(a, b); n < |b| && (n == |a| || a[n] < b[n])
  {
    if a != [] && b != [] && a[0] == b[0] {
      LessIff(a[1..], b[1..]);
    }
  }

  lemma {:induction false} LessTransitive(a: Nibbles, b: Nibbles, c: Nibbles)
    requires Less(a, b) && Less(b, c)
    ensures Less(a, c)
  {
    if a != [] && a[0] == b[0] == c[0] {
      LessTransitive(a[1..], b[1..], c[1..]);
    }
  }

  lemma {:induction false} LessTotal(a: Nibbles, b: Nibbles)
    ensures a == b || Less(a, b) || Less(b, a)
    ensures !(Less(a, b) && Less(b, a))
    ensures a == b ==> !Less(a, b)
  {
    if a != [] && b != [] && a[0] == b[0] {
      LessTotal(a[1..], b[1..]);
      assert a == [a[0]] + a[1..] && b == [b[0]] + b[1..];
    }
  }

  /** A common prefix does not affect the order. */
  lemma {:induction false} LessCommonPrefix(p: Nibbles, a: Nibbles, b: Nibbles)
    ensures Less(p + a, p + b) <==> Less(a, b)
  {
    if p == [] {
      assert p + a == a && p + b == b;
    } else {
      assert (p + a)[1..] == p[1..] + a && (p + b)[1..] == p[1..] + b;
      LessCommonPrefix(p[1..], a, b);
    }
  }
}
