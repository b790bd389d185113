/** The reference-counted node database: an in-memory layer (`MemoryDB`) over an optional disk (`OverlayDB`).
    Without a disk it is a plain `MemoryDB`. */
module NodeStore {
  import opened Options
  import opened TrieNode

  /** A stored node and its reference count. */
  datatype Entry = Entry(node: Node, refs: nat)

  function CountIn(main: map<Hash, Entry>, h: Hash): nat {
    if h in main then main[h].refs else 0
  }

  /** Entries are filed under their own hash, and the count of every node that is not on disk is the
      number of its live insertions. The count of a node on disk may be lower: killing one that is not
      held in memory is a no-op. */
  ghost predicate WellKept(main: map<Hash, Entry>, disk: map<Hash, Node>, ledger: multiset<Hash>) {
    && (forall h :: h in main ==> main[h].node == h.preimage)
    && (forall h :: h in disk ==> disk[h] == h.preimage)
    && (forall h :: CountIn(main, h) <= ledger[h] && (h !in disk ==> CountIn(main, h) == ledger[h]))
  }

  ghost function OneMore(ledger: multiset<Hash>, h: Hash): (r: multiset<Hash>)
    ensures forall x :: r[x] == ledger[x] + if x == h then 1 else 0
  {
    ledger[h := ledger[h] + 1]
  }

  /** One count higher, from zero if the node is new. */
  function Raised(main: map<Hash, Entry>, h: Hash, n: Node): (r: map<Hash, Entry>)
    ensures r == main[h := Entry(n, CountIn(main, h) + 1)]
  {
    if h in main then main[h := Entry(n, main[h].refs + 1)] else main[h := Entry(n, 1)]
  }

  lemma InsertKeeps(main: map<Hash, Entry>, disk: map<Hash, Node>, ledger: multiset<Hash>, h: Hash, n: Node)
    requires WellKept(main, disk, ledger) && h == Sha3(n)
    ensures WellKept(Raised(main, h, n), disk, OneMore(ledger, h))
  {
    var main', ledger' := Raised(main, h, n), OneMore(ledger, h);
    forall x
      ensures CountIn(main', x) <= ledger'[x] && (x !in disk ==> CountIn(main', x) == ledger'[x])
    {
      assert CountIn(main, x) <= ledger[x] && (x !in disk ==> CountIn(main, x) == ledger[x]);
    }
  }

  /** One count lower, unless it is zero. */
  function Lowered(main: map<Hash, Entry>, h: Hash): (r: map<Hash, Entry>)
    ensures r.Keys == main.Keys
    ensures forall x :: CountIn(r, x) == if x == h && CountIn(main, h) > 0 then CountIn(main, h) - 1 else CountIn(main, x)
  {
    if h in main && main[h].refs > 0 then main[h := Entry(main[h].node, main[h].refs - 1)] else main
  }

  ghost function Paid(ledger: multiset<Hash>, h: Hash): (r: multiset<Hash>)
    ensures forall x :: r[x] == if x == h && x in ledger then ledger[x] - 1 else ledger[x]
  {
    if h in ledger then ledger[h := ledger[h] - 1] else ledger
  }

  lemma KillKeeps(main: map<Hash, Entry>, disk: map<Hash, Node>, ledger: multiset<Hash>, h: Hash)
    requires WellKept(main, disk, ledger)
    ensures WellKept(Lowered(main, h), disk, Paid(ledger, h))
  {
    var main', ledger' := Lowered(main, h), Paid(ledger, h);
    forall x
      ensures CountIn(main', x) <= ledger'[x] && (x !in disk ==> CountIn(main', x) == ledger'[x])
    {
      assert CountIn(main, x) <= ledger[x] && (x !in disk ==> CountIn(main, x) == ledger[x]);
    }
  }

  /** In memory, alive if references are enforced, or on disk. */
  predicate Found(main: map<Hash, Entry>, disk: map<Hash, Node>, hasDisk: bool, enforceRefs: bool, h: Hash) {
    (h in main && (!enforceRefs || main[h].refs > 0)) || (hasDisk && h in disk)
  }

  ghost function AllFound(main: map<Hash, Entry>, disk: map<Hash, Node>, hasDisk: bool, enforceRefs: bool): set<Hash> {
    set h | h in main.Keys + disk.Keys && Found(main, disk, hasDisk, enforceRefs, h)
  }

  lemma KilledFewer(main: map<Hash, Entry>, h: Hash, disk: map<Hash, Node>, hasDisk: bool, enforceRefs: bool)
    ensures Fewer(AllFound(main, disk, hasDisk, enforceRefs), AllFound(Lowered(main, h), disk, hasDisk, enforceRefs), enforceRefs)
  {
  }

  /** Killing forgets nothing, unless references are enforced. */
  ghost predicate Fewer(before: set<Hash>, after: set<Hash>, enforceRefs: bool) {
    after <= before && (!enforceRefs ==> after == before)
  }

  class OverlayDB {
    var main: map<Hash, Entry>
    var enforceRefs: bool
    const hasDisk: bool
    var disk: map<Hash, Node>

    /** Insertions not yet matched by a kill. */
    ghost var ledger: multiset<Hash>

    ghost predicate Valid()
      reads this
    {
      WellKept(main, disk, ledger) && (!hasDisk ==> disk == map[])
    }

    function Count(h: Hash): nat
      reads this
    {
      CountIn(main, h)
    }

    constructor (hasDisk: bool, disk: map<Hash, Node>)
      requires forall h :: h in disk ==> disk[h] == h.preimage
      requires !hasDisk ==> disk == map[]
      ensures Valid() && fresh(this) && ledger == multiset{} && main == map[]
      ensures this.hasDisk == hasDisk && this.disk == disk && !enforceRefs
    {
      this.hasDisk, this.disk := hasDisk, disk;
      main, enforceRefs, ledger := map[], false, multiset{};
    }

    /** `MemoryDB::lookup`: a dead entry is still found unless references are enforced. */
    function MemoryLookup(h: Hash): Option<Node>
      reads this
    {
      if h in main && (!enforceRefs || main[h].refs > 0) then Some(main[h].node) else None
    }

    /** Every live node is found, and whatever is found is the node that was hashed. */
    function Lookup(h: Hash): (r: Option<Node>)
      reads this
      ensures Valid() && h in ledger ==> r == Some(h.preimage)
      ensures Valid() && h in disk ==> r == Some(h.preimage)
      ensures Valid() && r.Some? ==> r.value == h.preimage
    {
      var r := MemoryLookup(h);
      if r.None? && hasDisk && h in disk then Some(disk[h]) else r
    }

    predicate Exists(h: Hash)
      reads this
    {
      Found(main, disk, hasDisk, enforceRefs, h)
    }

    /** The hashes under which a node is found. */
    ghost function Known(): set<Hash>
      reads this
    {
      AllFound(main, disk, hasDisk, enforceRefs)
    }

    method Insert(h: Hash, n: Node)
      requires Valid() && h == Sha3(n)
      modifies this`main, this`ledger
      ensures Valid() && forall x :: ledger[x] == old(ledger)[x] + if x == h then 1 else 0
      ensures main == old(main)[h := Entry(n, old(Count(h)) + 1)]
    {
      hide WellKept; hide Raised; hide OneMore; hide CountIn;
      InsertKeeps(main, disk, ledger, h, n);
      main := Raised(main, h, n);
      ledger := OneMore(ledger, h);
    }

    /** One reference fewer, or nothing at all for a node not held in memory. */
    method Kill(h: Hash)
      requires Valid()
      modifies this`main, this`ledger
      ensures Valid() && forall x :: ledger[x] == if x == h && x in old(ledger) then old(ledger)[x] - 1 else old(ledger)[x]
      ensures main == Lowered(old(main), h) && Fewer(old(Known()), Known(), enforceRefs)
    {
      hide WellKept; hide Lowered; hide Paid; hide AllFound; hide Fewer;
      KillKeeps(main, disk, ledger, h);
      KilledFewer(main, h, disk, hasDisk, enforceRefs);
      main := Lowered(main, h);
      ledger := Paid(ledger, h);
    }

    /** Drops dead entries; no live node is lost. */
    method Purge()
      requires Valid()
      modifies this`main
      ensures Valid()
      ensures forall h :: Count(h) == old(Count(h))
      ensures forall h :: h in main <==> h in old(main) && old(main)[h].refs > 0
    {
      main := map h | h in main && main[h].refs > 0 :: main[h];
    }

    /** The hashes with a live count. */
    method Keys() returns (ks: set<Hash>)
      ensures forall h :: h in ks <==> Count(h) > 0
    {
      ks := set h | h in main && main[h].refs > 0;
    }

    /** The nodes with a live count. */
    function Live(): map<Hash, Node>
      reads this
    {
      map h | h in main && main[h].refs > 0 :: main[h].node
    }

    /** Writes every live node to disk and empties the memory layer. */
    method Commit()
      requires Valid()
      modifies this`main, this`disk
      ensures Valid()
      ensures !hasDisk ==> main == old(main) && disk == old(disk)
      ensures hasDisk ==> main == map[] && disk == old(disk) + old(Live())
      ensures hasDisk ==> forall h :: h in disk <==> h in old(disk) || old(Count(h)) > 0
      ensures hasDisk ==> forall h :: h in ledger ==> h in disk
    {
      if hasDisk {
        disk := disk + Live();
        main := map[];
      }
    }

    /** Forgets everything since the last commit. */
    method Rollback()
      requires Valid()
      modifies this`main, this`ledger
      ensures Valid() && main == map[] && ledger == multiset{}
    {
      main := map[];
      ledger := multiset{};
    }

    /** Starts accounting for a trie that is already stored. */
    ghost method Open(h: Hash)
      modifies this`ledger
      ensures forall x :: ledger[x] == old(ledger)[x] + (if x == h then 1 else 0) + Occurs(h.preimage, x)
    {
      ledger := ledger + multiset{h} + Hashes(h.preimage);
      forall x
        ensures Hashes(h.preimage)[x] == Occurs(h.preimage, x)
      {
        HashesCount(h.preimage, x);
      }
    }
  }
}
