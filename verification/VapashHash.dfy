/** Vapash proof of work (`libvapash/internal.c`; Appendix J of the Yellow Paper) on a little-endian host.
    The Keccak functions are arbitrary functions of the right widths. */
module VapashHash {
  import opened Options
  import opened Bits
  import opened Bytes
  import opened Rlp

  const NODE_WORDS := 16
  const MIX_WORDS := 32
  const DATASET_PARENTS := 256
  const CACHE_ROUNDS := 3
  const ACCESSES := 64
  const PAGE := 128
  const FNV_PRIME := 0x01000193
  const EPOCH_LENGTH := 30000

  type Node = s: seq<word> | |s| == NODE_WORDS witness seq(NODE_WORDS, _ => 0)

  datatype Hashes = Hashes(keccak512: ByteString -> ByteString, keccak256: ByteString -> ByteString)

  ghost predicate Sound(h: Hashes) {
    (forall s :: |h.keccak512(s)| == 64) && (forall s :: |h.keccak256(s)| == 32)
  }

  lemma SomeHashes() returns (h: Hashes)
    ensures Sound(h)
  {
    h := Hashes(_ => seq(64, _ => 0), _ => seq(32, _ => 0));
  }

  // Words in memory

  function WordBytes(w: word): (r: ByteString)
    ensures |r| == 4
  {
    [w % 256, w / 256 % 256, w / 256 / 256 % 256, w / 256 / 256 / 256]
  }

  function WordOf(a: byte, b: byte, c: byte, d: byte): word {
    a + 256 * (b + 256 * (c + 256 * d))
  }

  lemma WordOfBytes(a: byte, b: byte, c: byte, d: byte)
    ensures WordBytes(WordOf(a, b, c, d)) == [a, b, c, d]
  {
    Divide(a, b + 256 * (c + 256 * d));
    Divide(b, c + 256 * d);
    Divide(c, d);
  }

  lemma Divide(low: byte, high: nat)
    ensures (low + 256 * high) % 256 == low && (low + 256 * high) / 256 == high
  {
  }

  function BytesOf(ws: seq<word>): (r: ByteString)
    ensures |r| == 4 * |ws|
  {
    if ws == [] then [] else WordBytes(ws[0]) + BytesOf(ws[1..])
  }

  function Words(b: ByteString, n: nat): (r: seq<word>)
    requires |b| == 4 * n
    ensures |r| == n
  {
    if n == 0 then [] else [WordOf(b[0], b[1], b[2], b[3])] + Words(b[4..], n - 1)
  }

  /** Reading words from memory and writing them back changes nothing. */
  lemma {:induction false} BytesOfWords(b: ByteString, n: nat)
    requires |b| == 4 * n
    ensures BytesOf(Words(b, n)) == b
  {
    if n > 0 {
      var ws := Words(b, n);
      hide WordOf; hide WordBytes;
      WordOfBytes(b[0], b[1], b[2], b[3]);
      BytesOfWords(b[4..], n - 1);
      assert ws[1..] == Words(b[4..], n - 1);
      assert b == [b[0], b[1], b[2], b[3]] + b[4..];
    }
  }

  // The cache

  ghost function HashedNode(h: Hashes, n: Node): Node
    requires Sound(h)
  {
    Words(h.keccak512(BytesOf(n)), NODE_WORDS)
  }

  function XorNodes(a: Node, b: Node): (r: Node) {
    seq(NODE_WORDS, w requires 0 <= w < NODE_WORDS => Xor32(a[w], b[w]))
  }

  function FirstNode(h: Hashes, seed: ByteString): Node
    requires Sound(h)
  {
    Words(h.keccak512(seed), NODE_WORDS)
  }

  /** Each node is the hash of the one before. */
  ghost predicate Chain(h: Hashes, seed: ByteString, nodes: seq<Node>)
    requires Sound(h)
  {
    && (nodes != [] ==> nodes[0] == FirstNode(h, seed))
    && (forall i :: 1 <= i < |nodes| ==> nodes[i] == HashedNode(h, nodes[i - 1]))
  }

  function Pick(node: Node, n: nat): (r: nat)
    requires n > 0
    ensures r < n
  {
    node[0] % n
  }

  function Before(i: nat, n: nat): (r: nat)
    requires i < n
    ensures r == if i == 0 then n - 1 else i - 1
  {
    Wrap(if i == 0 then n - 1 else i - 1, n);
    (n - 1 + i) % n
  }

  lemma Wrap(x: nat, n: nat)
    requires x < n
    ensures x % n == (n + x) % n == x
  {
    DivisionIs(x, n, 0, x);
    DivisionIs(n + x, n, 1, x);
  }

  /** Node i of a round: the node before it, already of this round unless it is the last one of the round
      before, and a node chosen by the first word of its old self, of this round if it comes earlier. */
  ghost function RoundNode(h: Hashes, was: seq<Node>, now: seq<Node>, i: nat): Node
    requires Sound(h) && i < |was| && i <= |now|
  {
    var n := |was|;
    var pick := Pick(was[i], n);
    HashedNode(h, XorNodes(if i == 0 then was[n - 1] else now[i - 1], if pick < i then now[pick] else was[pick]))
  }

  ghost predicate Round(h: Hashes, was: seq<Node>, now: seq<Node>)
    requires Sound(h)
  {
    |was| == |now| && forall i :: 0 <= i < |now| ==> now[i] == RoundNode(h, was, now, i)
  }

  /** The seed determines the cache. */
  ghost predicate CacheFrom(h: Hashes, seed: ByteString, rounds: seq<seq<Node>>)
    requires Sound(h)
  {
    |rounds| == CACHE_ROUNDS + 1 && Chain(h, seed, rounds[0]) &&
    forall j :: 1 <= j < |rounds| ==> Round(h, rounds[j - 1], rounds[j])
  }

  lemma {:induction false} ChainUnique(h: Hashes, seed: ByteString, a: seq<Node>, b: seq<Node>, k: nat)
    requires Sound(h) && Chain(h, seed, a) && Chain(h, seed, b) && k <= |a| && k <= |b|
    ensures a[..k] == b[..k]
  {
    hide HashedNode; hide Sound;
    if k > 1 {
      ChainUnique(h, seed, a, b, k - 1);
      assert a[k - 2] == a[..k - 1][k - 2] && b[k - 2] == b[..k - 1][k - 2];
    }
    if k > 0 {
      assert a[..k] == a[..k - 1] + [a[k - 1]] && b[..k] == b[..k - 1] + [b[k - 1]];
    }
  }

  lemma {:induction false} RoundUnique(h: Hashes, was: seq<Node>, a: seq<Node>, b: seq<Node>, k: nat)
    requires Sound(h) && Round(h, was, a) && Round(h, was, b) && k <= |was|
    ensures a[..k] == b[..k]
  {
    hide RoundNode; hide Sound;
    if k > 0 {
      RoundUnique(h, was, a, b, k - 1);
      Later(h, was, a[..k - 1], a, k - 1);
      Later(h, was, a[..k - 1], b, k - 1);
      assert a[k - 1] == b[k - 1];
      assert a[..k] == a[..k - 1] + [a[k - 1]] && b[..k] == b[..k - 1] + [b[k - 1]];
    }
  }

  lemma {:induction false} CacheUnique(h: Hashes, seed: ByteString, a: seq<seq<Node>>, b: seq<seq<Node>>, j: nat)
    requires Sound(h) && CacheFrom(h, seed, a) && CacheFrom(h, seed, b) && |a[0]| == |b[0]| && j <= CACHE_ROUNDS
    ensures a[j] == b[j]
  {
    hide Sound; hide Chain; hide Round;
    if j == 0 {
      ChainUnique(h, seed, a[0], b[0], |a[0]|);
      assert a[0][..|a[0]|] == a[0] && b[0][..|b[0]|] == b[0];
    } else {
      CacheUnique(h, seed, a, b, j - 1);
      assert Round(h, a[j - 1], a[j]) && Round(h, a[j - 1], b[j]);
      RoundLength(h, a[j - 1], a[j]);
      RoundLength(h, a[j - 1], b[j]);
      RoundUnique(h, a[j - 1], a[j], b[j], |a[j]|);
      assert a[j][..|a[j]|] == a[j] && b[j][..|b[j]|] == b[j];
    }
  }

  lemma RoundLength(h: Hashes, was: seq<Node>, now: seq<Node>)
    requires Sound(h) && Round(h, was, now)
    ensures |was| == |now|
  {
  }

  /** One round, in place. */
  method CacheRound(h: Hashes, nodes: array<Node>)
    requires Sound(h) && 0 < nodes.Length < WORD / 2
    modifies nodes
    ensures Round(h, old(nodes[..]), nodes[..])
  {
    hide HashedNode; hide XorNodes; hide Sound; hide RoundNode; hide Pick; hide Before;
    var n := nodes.Length;
    ghost var was := nodes[..];
    for i := 0 to n
      invariant forall j :: i <= j < n ==> nodes[j] == was[j]
      invariant forall j :: 0 <= j < i ==> nodes[j] == RoundNode(h, was, nodes[..i], j)
    {
      ghost var done := nodes[..i];
      var idx := Pick(nodes[i], n);
      var data := XorNodes(nodes[Before(i, n)], nodes[idx]);
      var hashed := NodeHash(h, data);
      RoundNodeIs(h, was, done, i, nodes[Before(i, n)], nodes[idx]);
      nodes[i] := hashed;
      assert nodes[..i + 1][..i] == done;
      forall j | 0 <= j <= i
        ensures nodes[j] == RoundNode(h, was, nodes[..i + 1], j)
      {
        Later(h, was, done, nodes[..i + 1], j);
      }
    }
    assert nodes[..n] == nodes[..];
  }

  /** Node j of a round depends on the nodes before it only. */
  lemma Later(h: Hashes, was: seq<Node>, a: seq<Node>, b: seq<Node>, j: nat)
    requires Sound(h) && j < |was| && j <= |a| && |a| <= |b| && b[..|a|] == a
    ensures RoundNode(h, was, a, j) == RoundNode(h, was, b, j)
  {
    hide HashedNode; hide XorNodes; hide Sound;
    assert forall i :: 0 <= i < |a| ==> a[i] == b[..|a|][i];
  }

  lemma RoundNodeIs(h: Hashes, was: seq<Node>, now: seq<Node>, i: nat, before: Node, pick: Node)
    requires Sound(h) && i < |was| && i == |now|
    requires before == if i == 0 then was[|was| - 1] else now[i - 1]
    requires var p := Pick(was[i], |was|); pick == if p < i then now[p] else was[p]
    ensures RoundNode(h, was, now, i) == HashedNode(h, XorNodes(before, pick))
  {
    hide HashedNode; hide XorNodes; hide Sound;
  }

  method NodeHash(h: Hashes, n: Node) returns (r: Node)
    requires Sound(h)
    ensures r == HashedNode(h, n)
  {
    r := Words(h.keccak512(BytesOf(n)), NODE_WORDS);
  }

  /** `vapash_compute_cache_nodes`: fails exactly on a size that is not whole nodes. */
  method ComputeCacheNodes(h: Hashes, nodes: array<Node>, cacheSize: nat, seed: ByteString)
    returns (ok: bool, ghost rounds: seq<seq<Node>>)
    requires Sound(h) && 0 < nodes.Length < WORD / 2 && cacheSize / 64 == nodes.Length && |seed| == 32
    modifies nodes
    ensures ok <==> cacheSize % 64 == 0
    ensures ok ==> CacheFrom(h, seed, rounds) && nodes[..] == rounds[CACHE_ROUNDS]
    ensures !ok ==> nodes[..] == old(nodes[..])
  {
    hide HashedNode; hide FirstNode; hide Sound; hide Round;
    ok, rounds := false, [];
    if cacheSize % 64 != 0 {
      return;
    }
    ok := true;
    nodes[0] := FirstNode(h, seed);
    for i := 1 to nodes.Length
      invariant Chain(h, seed, nodes[..i])
    {
      var hashed := NodeHash(h, nodes[i - 1]);
      nodes[i] := hashed;
    }
    rounds := [nodes[..]];
    assert nodes[..nodes.Length] == nodes[..];
    for j := 0 to CACHE_ROUNDS
      invariant |rounds| == j + 1 && rounds[j] == nodes[..] && Chain(h, seed, rounds[0])
      invariant forall k :: 1 <= k < |rounds| ==> Round(h, rounds[k - 1], rounds[k])
    {
      CacheRound(h, nodes);
      rounds := rounds + [nodes[..]];
    }
  }

  // The data set

  function Fnv(x: word, y: word): word {
    Xor32(x * FNV_PRIME % WORD, y)
  }

  function FnvAll(a: Node, b: Node): (r: Node) {
    seq(NODE_WORDS, i requires 0 <= i < NODE_WORDS => Fnv(a[i], b[i]))
  }

  /** An item of the data set after some rounds of mixing parents into it. */
  ghost function DagMixed(h: Hashes, cache: seq<Node>, i: word, rounds: nat): Node
    requires Sound(h) && 0 < |cache| < WORD && rounds < WORD
  {
    if rounds == 0 then
      var init := cache[i % |cache|];
      HashedNode(h, init[0 := Xor32(init[0], i)])
    else
      var m := DagMixed(h, cache, i, rounds - 1);
      FnvAll(m, cache[Fnv(Xor32(i, rounds - 1), m[(rounds - 1) % NODE_WORDS]) % |cache|])
  }

  ghost function DagItem(h: Hashes, cache: seq<Node>, i: word): Node
    requires Sound(h) && 0 < |cache| < WORD
  {
    HashedNode(h, DagMixed(h, cache, i, DATASET_PARENTS))
  }

  /** Mixes a node into sixteen words of a buffer, in place. */
  method MixInto(buf: array<word>, at: nat, other: Node)
    requires at + NODE_WORDS <= buf.Length
    modifies buf
    ensures buf[at..at + NODE_WORDS] == FnvAll(old(buf[at..at + NODE_WORDS]), other)
    ensures buf[..at] == old(buf[..at]) && buf[at + NODE_WORDS..] == old(buf[at + NODE_WORDS..])
  {
    hide Fnv;
    for w := 0 to NODE_WORDS
      invariant forall j :: 0 <= j < at || at + w <= j < buf.Length ==> buf[j] == old(buf[j])
      invariant forall j :: at <= j < at + w ==> buf[j] == Fnv(old(buf[j]), other[j - at])
    {
      buf[at + w] := Fnv(buf[at + w], other[w]);
    }
  }

  method HashInPlace(h: Hashes, buf: array<word>)
    requires Sound(h) && buf.Length == NODE_WORDS
    modifies buf
    ensures buf[..] == HashedNode(h, old(buf[..]))
  {
    hide Words; hide BytesOf;
    var r := Words(h.keccak512(BytesOf(buf[..])), NODE_WORDS);
    for w := 0 to NODE_WORDS
      invariant buf[..w] == r[..w]
    {
      buf[w] := r[w];
    }
  }

  /** `vapash_calculate_dag_item`. */
  method CalculateDagItem(h: Hashes, cache: seq<Node>, index: word) returns (r: Node)
    requires Sound(h) && 0 < |cache| < WORD
    ensures r == DagItem(h, cache, index)
  {
    hide Fnv; hide FnvAll; hide Xor32; hide HashedNode; hide Sound;
    var init := cache[index % |cache|];
    var ret := new word[NODE_WORDS](i requires 0 <= i < NODE_WORDS => init[i]);
    assert ret[..] == init;
    ret[0] := Xor32(ret[0], index);
    assert ret[..] == init[0 := Xor32(init[0], index)];
    HashInPlace(h, ret);
    for i := 0 to DATASET_PARENTS
      invariant ret[..] == DagMixed(h, cache, index, i)
    {
      var parent := Fnv(Xor32(index, i), ret[i % NODE_WORDS]) % |cache|;
      ghost var m := ret[..];
      MixInto(ret, 0, cache[parent]);
      assert ret[..] == ret[0..NODE_WORDS];
      assert m[0..NODE_WORDS] == m;
    }
    HashInPlace(h, ret);
    r := ret[..];
  }

  ghost predicate Filled(h: Hashes, cache: seq<Node>, full: seq<Node>)
    requires Sound(h) && 0 < |cache| < WORD
  {
    forall n :: 0 <= n < |full| && n < WORD ==> full[n] == DagItem(h, cache, n)
  }

  /** `vapash_compute_full_data`: fails exactly on a size that is not whole pages. */
  method ComputeFullData(h: Hashes, cache: seq<Node>, mem: array<Node>, fullSize: nat) returns (ok: bool)
    requires Sound(h) && 0 < |cache| < WORD && fullSize == mem.Length * 64 < 64 * WORD
    modifies mem
    ensures ok <==> fullSize % PAGE == 0
    ensures ok ==> Filled(h, cache, mem[..])
    ensures !ok ==> mem[..] == old(mem[..])
  {
    hide Sound; hide DagItem;
    if fullSize % (4 * MIX_WORDS) != 0 || fullSize % 64 != 0 {
      return false;
    }
    for n := 0 to mem.Length
      invariant forall j :: 0 <= j < n ==> mem[j] == DagItem(h, cache, j)
    {
      mem[n] := CalculateDagItem(h, cache, n);
    }
    ok := true;
  }

  // Evaluation

  type Mix = s: seq<word> | |s| == MIX_WORDS witness seq(MIX_WORDS, _ => 0)

  function NonceBytes(nonce: nat): (r: ByteString)
    requires nonce < WORD * WORD
    ensures |r| == 8
  {
    WordBytes(nonce % WORD) + WordBytes(nonce / WORD)
  }

  /** Hash of header and nonce, from which both the mix and the final hash start. */
  ghost function Start(h: Hashes, header: ByteString, nonce: nat): (r: ByteString)
    requires Sound(h) && nonce < WORD * WORD
    ensures |r| == 64
  {
    h.keccak512(header + NonceBytes(nonce))
  }

  function PageIndex(s: Node, mix: Mix, i: word, pages: nat): (r: nat)
    requires pages > 0
    ensures r < pages
  {
    Fnv(Xor32(s[0], i), mix[i % MIX_WORDS]) % pages
  }

  function MixPage(mix: Mix, a: Node, b: Node): (r: Mix) {
    FnvAll(mix[..NODE_WORDS], a) + FnvAll(mix[NODE_WORDS..], b)
  }

  /** The mix after some accesses to the data set derived from the cache. */
  ghost function MixAfter(h: Hashes, cache: seq<Node>, s: Node, pages: nat, accesses: nat): Mix
    requires Sound(h) && 0 < |cache| < WORD && 0 < pages && 2 * pages <= WORD && accesses < WORD
  {
    if accesses == 0 then s + s
    else
      var mix := MixAfter(h, cache, s, pages, accesses - 1);
      var i := PageIndex(s, mix, accesses - 1, pages);
      MixPage(mix, DagItem(h, cache, 2 * i), DagItem(h, cache, 2 * i + 1))
  }

  /** The mix compressed, word by word from separate words. */
  function Compressed(m: Mix): (r: seq<word>)
    ensures |r| == 8
  {
    seq(8, k requires 0 <= k < 8 => Fnv(Fnv(Fnv(m[4 * k], m[4 * k + 1]), m[4 * k + 2]), m[4 * k + 3]))
  }

  datatype Evaluation = Evaluation(mixHash: ByteString, result: ByteString)

  ghost function Evaluated(h: Hashes, cache: seq<Node>, pages: nat, header: ByteString, nonce: nat): Evaluation
    requires Sound(h) && 0 < |cache| < WORD && 0 < pages && 2 * pages <= WORD && nonce < WORD * WORD
  {
    var start := Start(h, header, nonce);
    var mix := MixAfter(h, cache, Words(start, NODE_WORDS), pages, ACCESSES);
    var mixHash := BytesOf(Compressed(mix));
    Evaluation(mixHash, h.keccak256(start + mixHash))
  }

  lemma CompressedAt(m: Mix, k: nat, w: nat)
    requires k < 8 && w == 4 * k
    ensures Compressed(m)[k] == Fnv(Fnv(Fnv(m[w], m[w + 1]), m[w + 2]), m[w + 3])
  {
    hide Fnv;
  }

  /** The in-place compression: each word written is no longer needed. */
  method Compress(mix: array<word>)
    requires mix.Length == MIX_WORDS
    modifies mix
    ensures mix[..8] == Compressed(old(mix[..]))
  {
    hide Fnv; hide Compressed;
    ghost var m := mix[..];
    ghost var k := 0;
    var w := 0;
    while w != MIX_WORDS
      invariant w == 4 * k && k <= 8
      invariant forall j :: w <= j < MIX_WORDS ==> mix[j] == m[j]
      invariant forall j :: 0 <= j < k ==> mix[j] == Compressed(m)[j]
      decreases MIX_WORDS - w
    {
      var reduction := mix[w];
      reduction := Fnv(reduction, mix[w + 1]);
      reduction := Fnv(reduction, mix[w + 2]);
      reduction := Fnv(reduction, mix[w + 3]);
      CompressedAt(m, k, w);
      assert w / 4 == k;
      mix[w / 4] := reduction;
      w := w + 4;
      k := k + 1;
    }
    assert mix[..8] == Compressed(m);
  }

  /** `vapash_hash`: with the full data set or from the cache alone, the same evaluation. */
  method Hash(h: Hashes, full: Option<array<Node>>, cache: seq<Node>, fullSize: nat, header: ByteString, nonce: nat)
    returns (r: Option<Evaluation>)
    requires Sound(h) && 0 < |cache| < WORD && PAGE <= fullSize < 64 * WORD && |header| == 32 && nonce < WORD * WORD
    requires full.Some? ==> full.value.Length * 64 == fullSize && Filled(h, cache, full.value[..])
    ensures r.Some? <==> fullSize % MIX_WORDS == 0
    ensures r.Some? ==> r.value == Evaluated(h, cache, fullSize / PAGE, header, nonce)
  {
    hide Fnv; hide Xor32; hide Sound; hide Words; hide BytesOf; hide DagItem; hide FnvAll; hide Compressed; hide Filled;
    hide NonceBytes; hide MixAfter;
    if fullSize % MIX_WORDS != 0 {
      return None;
    }
    var start := StartHash(h, header, nonce);
    var s := Words(start, NODE_WORDS);
    var mix := new word[MIX_WORDS](w requires 0 <= w < MIX_WORDS => s[w % NODE_WORDS]);
    assert mix[..] == s + s;
    var pages := fullSize / PAGE;
    MixStart(h, cache, s, pages);
    for i := 0 to ACCESSES
      invariant mix[..] == MixAfter(h, cache, s, pages, i)
    {
      Access(h, full, cache, s, pages, i, mix);
    }
    Compress(mix);
    var mixHash := BytesOf(mix[..8]);
    BytesOfWords(start, NODE_WORDS);
    var result := h.keccak256(BytesOf(s) + mixHash);
    r := Some(Evaluation(mixHash, result));
  }

  method StartHash(h: Hashes, header: ByteString, nonce: nat) returns (r: ByteString)
    requires Sound(h) && nonce < WORD * WORD
    ensures r == Start(h, header, nonce)
  {
    r := h.keccak512(header + NonceBytes(nonce));
  }

  lemma MixStart(h: Hashes, cache: seq<Node>, s: Node, pages: nat)
    requires Sound(h) && 0 < |cache| < WORD && 0 < pages && 2 * pages <= WORD
    ensures MixAfter(h, cache, s, pages, 0) == s + s
  {
  }

  /** One access: two nodes of one page, each mixed into its half. */
  method Access(h: Hashes, full: Option<array<Node>>, cache: seq<Node>, s: Node, pages: nat, i: word, mix: array<word>)
    requires Sound(h) && 0 < |cache| < WORD && 0 < pages && 2 * pages <= WORD && i + 1 < WORD && mix.Length == MIX_WORDS
    requires full.Some? ==> full.value.Length >= 2 * pages && Filled(h, cache, full.value[..])
    requires mix[..] == MixAfter(h, cache, s, pages, i)
    modifies mix
    ensures mix[..] == MixAfter(h, cache, s, pages, i + 1)
  {
    hide Fnv; hide Xor32; hide Sound; hide DagItem; hide FnvAll;
    ghost var m := mix[..];
    var index := PageIndex(s, mix[..], i, pages);
    var a := Fetch(h, full, cache, 2 * index);
    MixInto(mix, 0, a);
    assert mix[0..16] == mix[..16] && m[0..16] == m[..16];
    var b := Fetch(h, full, cache, 2 * index + 1);
    assert mix[16..32] == mix[16..] == m[16..];
    ghost var first := mix[..16];
    MixInto(mix, 16, b);
    assert mix[..] == mix[..16] + mix[16..32];
    assert mix[..] == MixPage(m, a, b);
  }

  /** A node of the data set, stored or calculated; the index is in range. */
  method Fetch(h: Hashes, full: Option<array<Node>>, cache: seq<Node>, n: word) returns (r: Node)
    requires Sound(h) && 0 < |cache| < WORD
    requires full.Some? ==> n < full.value.Length && Filled(h, cache, full.value[..])
    ensures r == DagItem(h, cache, n)
  {
    hide Sound; hide DagItem;
    if full.Some? {
      r := full.value[n];
      assert r == full.value[..][n];
    } else {
      r := CalculateDagItem(h, cache, n);
    }
  }

  /** Full and light evaluation agree on every header and nonce. */
  method FullAndLight(h: Hashes, cache: seq<Node>, mem: array<Node>, fullSize: nat, header: ByteString, nonce: nat)
    returns (ok: bool, full: Option<Evaluation>, light: Option<Evaluation>)
    requires Sound(h) && 0 < |cache| < WORD && PAGE <= fullSize == mem.Length * 64 < 64 * WORD
    requires |header| == 32 && nonce < WORD * WORD
    modifies mem
    ensures ok <==> fullSize % PAGE == 0
    ensures ok ==> full.Some? && full == light
  {
    full, light := None, None;
    ok := ComputeFullData(h, cache, mem, fullSize);
    if ok {
      full := Hash(h, Some(mem), cache, fullSize, header, nonce);
      light := Hash(h, None, cache, fullSize, header, nonce);
    }
  }

  // Seals

  /** The first byte in which two numbers differ decides. */
  lemma {:induction false} FirstDifference(a: ByteString, b: ByteString, i: nat)
    requires |a| == |b| && i < |a| && a[..i] == b[..i] && a[i] < b[i]
    ensures FromBigEndian(a) < FromBigEndian(b)
  {
    var m := |a| - 1;
    var a', b' := a[..m], b[..m];
    if i == m {
      assert a' == b';
    } else {
      assert a'[..i] == a[..i] && b'[..i] == b[..i];
      FirstDifference(a', b', i);
    }
  }

  /** `vapash_check_difficulty` is comparison of big-endian numbers. */
  method CheckDifficulty(hash: ByteString, boundary: ByteString) returns (r: bool)
    requires |hash| == |boundary| == 32
    ensures r <==> FromBigEndian(hash) <= FromBigEndian(boundary)
  {
    hide FromBigEndian;
    for i := 0 to 32
      invariant hash[..i] == boundary[..i]
    {
      if hash[i] != boundary[i] {
        if hash[i] < boundary[i] {
          FirstDifference(hash, boundary, i);
        } else {
          FirstDifference(boundary, hash, i);
        }
        return hash[i] < boundary[i];
      }
    }
    assert hash == boundary;
    r := true;
  }

  /** `vapash_quick_hash`: given the mix hash of the evaluation, its result. */
  method QuickHash(h: Hashes, header: ByteString, nonce: nat, mixHash: ByteString) returns (r: ByteString)
    requires Sound(h) && nonce < WORD * WORD
    ensures |r| == 32 && r == h.keccak256(Start(h, header, nonce) + mixHash)
    ensures forall cache: seq<Node>, pages: nat | 0 < |cache| < WORD && 0 < pages && 2 * pages <= WORD ::
              Evaluated(h, cache, pages, header, nonce).mixHash == mixHash ==>
                Evaluated(h, cache, pages, header, nonce).result == r
  {
    var start := StartHash(h, header, nonce);
    r := h.keccak256(start + mixHash);
  }

  /** What a header's seal is checked against. */
  datatype Seal = Seal(number: nat, header: ByteString, nonce: nat, mixHash: ByteString, boundary: ByteString)

  predicate WellTyped(s: Seal) {
    |s.header| == 32 && s.nonce < WORD * WORD && |s.mixHash| == 32 && |s.boundary| == 32
  }

  predicate InTable(s: Seal) {
    s.number < EPOCH_LENGTH * 2048
  }

  /** The seal as the full evaluation judges it. */
  ghost predicate Sealed(h: Hashes, cache: seq<Node>, pages: nat, s: Seal)
    requires Sound(h) && 0 < |cache| < WORD && 0 < pages && 2 * pages <= WORD && WellTyped(s)
  {
    var e := Evaluated(h, cache, pages, s.header, s.nonce);
    FromBigEndian(e.result) <= FromBigEndian(s.boundary) && e.mixHash == s.mixHash
  }

  /** `quickVerifySeal`: refuses blocks beyond the epoch table; within it, accepts every sealed header,
      whatever the data set. */
  method QuickVerifySeal(h: Hashes, s: Seal) returns (r: bool)
    requires Sound(h) && WellTyped(s)
    ensures r <==> InTable(s) && FromBigEndian(h.keccak256(Start(h, s.header, s.nonce) + s.mixHash)) <= FromBigEndian(s.boundary)
    ensures forall cache: seq<Node>, pages: nat | 0 < |cache| < WORD && 0 < pages && 2 * pages <= WORD ::
              s.number < 61440000 && Sealed(h, cache, pages, s) ==> r
    ensures s.number >= 61440000 ==> !r
  {
    hide Sound; hide FromBigEndian; hide MixAfter; hide BytesOf; hide Start;
    if s.number >= EPOCH_LENGTH * 2048 {
      return false;
    }
    var quick := QuickHash(h, s.header, s.nonce, s.mixHash);
    r := CheckDifficulty(quick, s.boundary);
  }

  /** `verifySeal`: the quick check first makes no difference within the epoch table. */
  method VerifySeal(h: Hashes, full: Option<array<Node>>, cache: seq<Node>, fullSize: nat, s: Seal) returns (r: bool)
    requires Sound(h) && WellTyped(s) && 0 < |cache| < WORD && PAGE <= fullSize < 64 * WORD && fullSize % PAGE == 0
    requires full.Some? ==> full.value.Length * 64 == fullSize && Filled(h, cache, full.value[..])
    ensures r <==> InTable(s) && Sealed(h, cache, fullSize / PAGE, s)
  {
    hide Sound; hide FromBigEndian; hide Filled; hide Evaluated;
    var pre := QuickVerifySeal(h, s);
    if !pre {
      return false;
    }
    var e := Hash(h, full, cache, fullSize, s.header, s.nonce);
    r := FromBigEndian(e.value.result) <= FromBigEndian(s.boundary) && e.value.mixHash == s.mixHash;
  }

  // What is computed, with nothing but keccak, exclusive or and arithmetic

  function Scaled(x: word): word {
    x * 0x01000193 % 0x1_0000_0000
  }

  lemma FnvIs(x: word, y: word)
    ensures Xor32(Fnv(x, y), y) == Scaled(x) == x * 0x01000193 % 0x1_0000_0000
  {
    Xor32Twice(x * 0x01000193 % 0x1_0000_0000, y);
  }

  /** Words and nonces are little-endian. */
  function Little(b: ByteString): nat
    requires |b| == 4
  {
    var b0: nat, b1: nat, b2: nat, b3: nat := b[0], b[1], b[2], b[3];
    b0 + 0x100 * b1 + 0x1_0000 * b2 + 0x100_0000 * b3
  }

  lemma WordBytesIs(w: word)
    ensures Little(WordBytes(w)) == w
  {
  }

  lemma {:induction false} WordsAt(b: ByteString, n: nat, i: nat)
    requires |b| == 4 * n && i < n
    ensures Words(b, n)[i] == Little(b[4 * i..4 * i + 4])
  {
    if i > 0 {
      WordsAt(b[4..], n - 1, i - 1);
      assert b[4..][4 * (i - 1)..4 * (i - 1) + 4] == b[4 * i..4 * i + 4];
    }
  }

  lemma NonceBytesIs(nonce: nat)
    requires nonce < 0x1_0000_0000_0000_0000
    ensures nonce == Little(NonceBytes(nonce)[..4]) + 0x1_0000_0000 * Little(NonceBytes(nonce)[4..])
  {
    hide WordBytes;
    var low, high := WordBytes(nonce % WORD), WordBytes(nonce / WORD);
    WordBytesIs(nonce % WORD);
    WordBytesIs(nonce / WORD);
    assert NonceBytes(nonce)[..4] == low && NonceBytes(nonce)[4..] == high;
  }

  /** A node is hashed as its bytes, and the hash read as a node again. */
  lemma NodeHashed(h: Hashes, n: Node)
    requires Sound(h)
    ensures BytesOf(HashedNode(h, n)) == h.keccak512(BytesOf(n))
  {
    BytesOfWords(h.keccak512(BytesOf(n)), NODE_WORDS);
  }

  lemma PickIs(node: Node, n: nat)
    requires n > 0
    ensures Pick(node, n) == Little(BytesOf(node)[..4]) % n
  {
    hide WordBytes;
    assert BytesOf(node) == WordBytes(node[0]) + BytesOf(node[1..]);
    assert BytesOf(node)[..4] == WordBytes(node[0]);
    WordBytesIs(node[0]);
  }

  lemma PageIndexIs(s: Node, mix: Mix, i: word, pages: nat) returns (choice: word)
    requires pages > 0
    ensures Xor32(choice, mix[i % 32]) == Scaled(Xor32(s[0], i))
    ensures PageIndex(s, mix, i, pages) == choice % pages
  {
    hide Xor32;
    choice := Fnv(Xor32(s[0], i), mix[i % 32]);
    FnvIs(Xor32(s[0], i), mix[i % 32]);
  }

  /** Words of b were mixed into a. */
  ghost predicate MixedWords(a: seq<word>, b: seq<word>, r: seq<word>)
    requires |a| == |b| == |r|
  {
    forall w :: 0 <= w < |a| ==> Xor32(r[w], b[w]) == Scaled(a[w])
  }

  lemma FnvAllIs(a: Node, b: Node)
    ensures MixedWords(a, b, FnvAll(a, b))
  {
    hide Fnv; hide Xor32;
    forall w | 0 <= w < 16
      ensures Xor32(FnvAll(a, b)[w], b[w]) == Scaled(a[w])
    {
      FnvIs(a[w], b[w]);
    }
  }

  /** The chain that the cache starts from. */
  lemma CacheChain(h: Hashes, seed: ByteString, rounds: seq<seq<Node>>, i: nat)
    requires Sound(h) && CacheFrom(h, seed, rounds) && i < |rounds[0]|
    ensures BytesOf(rounds[0][i]) == h.keccak512(if i == 0 then seed else BytesOf(rounds[0][i - 1]))
  {
    assert Chain(h, seed, rounds[0]);
    hide BytesOf; hide Words; hide Round;
    if i == 0 {
      BytesOfWords(h.keccak512(seed), NODE_WORDS);
    } else {
      NodeHashed(h, rounds[0][i - 1]);
    }
  }

  /** Node i of one of the three rounds: the node before it and the one it picks, combined word by word and hashed. */
  lemma CacheNode(h: Hashes, seed: ByteString, rounds: seq<seq<Node>>, j: nat, i: nat) returns (data: Node)
    requires Sound(h) && CacheFrom(h, seed, rounds) && 1 <= j <= 3 && i < |rounds[0]|
    ensures |rounds| == 4 && |rounds[j - 1]| == |rounds[j]| == |rounds[0]|
    ensures BytesOf(rounds[j][i]) == h.keccak512(BytesOf(data))
    ensures var was, now, n := rounds[j - 1], rounds[j], |rounds[j]|;
            var pick := was[i][0] % n;
            Combined(data, if i == 0 then was[n - 1] else now[i - 1], if pick < i then now[pick] else was[pick])
  {
    hide Sound; hide BytesOf; hide Combined; hide XorNodes; hide HashedNode; hide Chain;
    RoundLengths(h, seed, rounds, j);
    RoundLengths(h, seed, rounds, j - 1);
    var was, now, n := rounds[j - 1], rounds[j], |rounds[j]|;
    assert Round(h, was, now);
    var pick := Pick(was[i], n);
    var a, b := if i == 0 then was[n - 1] else now[i - 1], if pick < i then now[pick] else was[pick];
    data := XorNodes(a, b);
    assert now[i] == HashedNode(h, data);
    NodeHashed(h, data);
    XorNodesIs(a, b);
  }

  /** With b taken off, data is a. */
  ghost predicate Combined(data: Node, a: Node, b: Node) {
    forall w :: 0 <= w < 16 ==> Xor32(data[w], b[w]) == a[w]
  }

  lemma XorNodesIs(a: Node, b: Node)
    ensures Combined(XorNodes(a, b), a, b)
  {
    hide Xor32;
    forall w | 0 <= w < 16
      ensures Xor32(XorNodes(a, b)[w], b[w]) == a[w]
    {
      Xor32Twice(a[w], b[w]);
    }
  }

  lemma {:induction false} RoundLengths(h: Hashes, seed: ByteString, rounds: seq<seq<Node>>, j: nat)
    requires Sound(h) && CacheFrom(h, seed, rounds) && j <= 3
    ensures |rounds| == 4 && |rounds[j]| == |rounds[0]|
  {
    hide Sound; hide Chain; hide Round;
    if j > 0 {
      RoundLengths(h, seed, rounds, j - 1);
      RoundLength(h, rounds[j - 1], rounds[j]);
    }
  }

  /** Round j of an item of the data set mixes one parent in. */
  ghost predicate ParentMixed(cache: seq<Node>, i: word, j: word, m: Node, next: Node)
    requires cache != []
  {
    var choice := Xor32(Scaled(Xor32(i, j)), m[j % 16]);
    MixedWords(m, cache[choice % |cache|], next)
  }

  /** An item of the data set: a node of the cache with the index in it, hashed; 256 parents; hashed again. */
  lemma DagSteps(h: Hashes, cache: seq<Node>, i: word) returns (ms: seq<Node>)
    requires Sound(h) && 0 < |cache| < WORD
    ensures |ms| == 257 && forall j :: 0 <= j < 256 ==> ParentMixed(cache, i, j, ms[j], ms[j + 1])
    ensures var init := cache[i % |cache|];
            BytesOf(ms[0]) == h.keccak512(BytesOf([Xor32(init[0], i)] + init[1..]))
    ensures BytesOf(DagItem(h, cache, i)) == h.keccak512(BytesOf(ms[256]))
  {
    hide Xor32; hide Sound; hide BytesOf; hide HashedNode; hide FnvAll; hide ParentMixed;
    var init := cache[i % |cache|];
    assert [Xor32(init[0], i)] + init[1..] == init[0 := Xor32(init[0], i)];
    NodeHashed(h, init[0 := Xor32(init[0], i)]);
    NodeHashed(h, DagMixed(h, cache, i, 256));
    ms := [DagMixed(h, cache, i, 0)];
    for k := 0 to 256
      invariant |ms| == k + 1 && ms[0] == DagMixed(h, cache, i, 0) && ms[k] == DagMixed(h, cache, i, k)
      invariant forall j :: 0 <= j < k ==> ParentMixed(cache, i, j, ms[j], ms[j + 1])
    {
      DagStep(h, cache, i, k);
      ms := ms + [DagMixed(h, cache, i, k + 1)];
    }
  }

  lemma DagStep(h: Hashes, cache: seq<Node>, i: word, k: nat)
    requires Sound(h) && 0 < |cache| < WORD && k < 256
    ensures ParentMixed(cache, i, k, DagMixed(h, cache, i, k), DagMixed(h, cache, i, k + 1))
  {
    hide Xor32; hide Sound; hide HashedNode; hide MixedWords;
    var m := DagMixed(h, cache, i, k);
    FnvAllIs(m, cache[Fnv(Xor32(i, k), m[k % 16]) % |cache|]);
  }

  /** Access j of an evaluation mixes a page of two items in. */
  ghost predicate PageMixed(h: Hashes, cache: seq<Node>, s: Node, pages: nat, j: word, m: Mix, next: Mix)
    requires Sound(h) && 0 < |cache| < WORD && 0 < pages && 2 * pages <= WORD
  {
    var page := Xor32(Scaled(Xor32(s[0], j)), m[j % 32]) % pages;
    && MixedWords(m[..16], DagItem(h, cache, 2 * page), next[..16])
    && MixedWords(m[16..], DagItem(h, cache, 2 * page + 1), next[16..])
  }

  /** An evaluation: the hash of header and nonce twice over, 64 accesses, every four words compressed to one, and
      the hash of it all. */
  lemma EvaluationSteps(h: Hashes, cache: seq<Node>, pages: nat, header: ByteString, nonce: nat)
    returns (s: Node, ms: seq<Mix>, c: seq<word>)
    requires Sound(h) && 0 < |cache| < WORD && 0 < pages && 2 * pages <= WORD && nonce < WORD * WORD
    ensures BytesOf(s) == h.keccak512(header + NonceBytes(nonce))
    ensures |ms| == 65 && ms[0] == s + s
    ensures forall j :: 0 <= j < 64 ==> PageMixed(h, cache, s, pages, j, ms[j], ms[j + 1])
    ensures |c| == 8 && forall k :: 0 <= k < 8 ==> QuadCompressed(ms[64][4 * k..4 * k + 4], c[k])
    ensures var e := Evaluated(h, cache, pages, header, nonce);
            e.mixHash == BytesOf(c) && e.result == h.keccak256(BytesOf(s) + BytesOf(c))
  {
    hide Xor32; hide Sound; hide BytesOf; hide Words; hide DagItem; hide PageMixed; hide Compressed; hide QuadCompressed;
    var start := Start(h, header, nonce);
    s := Words(start, NODE_WORDS);
    BytesOfWords(start, NODE_WORDS);
    ms := [MixAfter(h, cache, s, pages, 0)];
    for k := 0 to 64
      invariant |ms| == k + 1 && ms[0] == s + s && ms[k] == MixAfter(h, cache, s, pages, k)
      invariant forall j :: 0 <= j < k ==> PageMixed(h, cache, s, pages, j, ms[j], ms[j + 1])
    {
      AccessStep(h, cache, s, pages, k);
      ms := ms + [MixAfter(h, cache, s, pages, k + 1)];
    }
    c := Compressed(ms[64]);
    forall k | 0 <= k < 8
      ensures QuadCompressed(ms[64][4 * k..4 * k + 4], c[k])
    {
      CompressedIs(ms[64], k);
    }
  }

  lemma AccessStep(h: Hashes, cache: seq<Node>, s: Node, pages: nat, k: nat)
    requires Sound(h) && 0 < |cache| < WORD && 0 < pages && 2 * pages <= WORD && k < 64
    ensures PageMixed(h, cache, s, pages, k, MixAfter(h, cache, s, pages, k), MixAfter(h, cache, s, pages, k + 1))
  {
    hide Xor32; hide Sound; hide DagItem; hide MixedWords; hide FnvAll;
    var m, next := MixAfter(h, cache, s, pages, k), MixAfter(h, cache, s, pages, k + 1);
    var i := PageIndex(s, m, k, pages);
    var a, b := DagItem(h, cache, 2 * i), DagItem(h, cache, 2 * i + 1);
    assert next[..16] == FnvAll(m[..16], a) && next[16..] == FnvAll(m[16..], b);
    FnvAllIs(m[..16], a);
    FnvAllIs(m[16..], b);
  }

  /** Four words in one. */
  predicate QuadCompressed(q: seq<word>, r: word)
    requires |q| == 4
  {
    var a := Xor32(Scaled(q[0]), q[1]);
    var b := Xor32(Scaled(a), q[2]);
    Xor32(r, q[3]) == Scaled(b)
  }

  lemma CompressedIs(m: Mix, k: nat)
    requires k < 8
    ensures QuadCompressed(m[4 * k..4 * k + 4], Compressed(m)[k])
  {
    hide Xor32;
    CompressedAt(m, k, 4 * k);
    FnvIs(Fnv(Fnv(m[4 * k], m[4 * k + 1]), m[4 * k + 2]), m[4 * k + 3]);
  }
}
