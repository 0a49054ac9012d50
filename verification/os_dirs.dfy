/*
 * The table of canonical directories of src/os/pl-os.c (1039-1130): a hash
 * table of OS_DIR_TABLE_SIZE chains, keyed on the directory's name, that
 * remembers for each directory seen its canonical name and its device and
 * inode.  A chain is modelled as the sequence of its nodes, head first.
 */
module OsDirs {

  import opened Seqs

  /** OS_DIR_TABLE_SIZE. */
  const TABLE_SIZE: nat := 32

  /** struct canonical_dir without its `next` link: fixed once created. */
  class CanonicalDir {
    const name: string
    const canonical: string
    const device: nat
    const inode: nat

    constructor (name: string, canonical: string, device: nat, inode: nat)
      ensures this.name == name && this.canonical == canonical
      ensures this.device == device && this.inode == inode
    {
      this.name := name;
      this.canonical := canonical;
      this.device := device;
      this.inode := inode;
    }
  }

  /** The first node of a chain with this name, following `next` from the head. */
  function FirstNamed(chain: seq<CanonicalDir>, name: string): (cd: CanonicalDir?)
    ensures cd != null ==> cd in chain && cd.name == name
    ensures cd == null <==> forall j :: 0 <= j < |chain| ==> chain[j].name != name
  {
    if chain == [] then null
    else if chain[0].name == name then chain[0]
    else FirstNamed(chain[1..], name)
  }

  /** The first node with this device and inode, bucket by bucket and each chain from its head. */
  function FirstWithId(chains: seq<seq<CanonicalDir>>, device: nat, inode: nat): (cd: CanonicalDir?)
    ensures cd != null ==> cd.device == device && cd.inode == inode
    ensures cd != null ==> exists b :: 0 <= b < |chains| && cd in chains[b]
    ensures cd == null <==> forall b, j :: 0 <= b < |chains| && 0 <= j < |chains[b]| ==>
                              !(chains[b][j].inode == inode && chains[b][j].device == device)
  {
    if chains == [] then null
    else
      var cd := FirstInChain(chains[0], device, inode);
      if cd != null then cd
      else
        var rest := FirstWithId(chains[1..], device, inode);
        assert forall b :: 1 <= b < |chains| ==> chains[b] == chains[1..][b - 1];
        rest
  }

  /** The first node of one chain with this device and inode. */
  function FirstInChain(chain: seq<CanonicalDir>, device: nat, inode: nat): (cd: CanonicalDir?)
    ensures cd != null ==> cd in chain && cd.device == device && cd.inode == inode
    ensures cd == null <==> forall j :: 0 <= j < |chain| ==>
                              !(chain[j].inode == inode && chain[j].device == device)
  {
    if chain == [] then null
    else if chain[0].inode == inode && chain[0].device == device then chain[0]
    else FirstInChain(chain[1..], device, inode)
  }

  /** No node occurs twice. */
  predicate Distinct(chain: seq<CanonicalDir>) {
    forall i, j :: 0 <= i < j < |chain| ==> chain[i] != chain[j]
  }

  /** GD->os.dir_table: no array until the first node is created. */
  class DirTable {
    var entries: array?<seq<CanonicalDir>>
    var size: nat
    /** MurmurHashAligned2() of the name with MURMUR_SEED; the hash itself is not part of this model. */
    const hash: string -> nat

    /** dir_key(): the hash masked with size-1, which for a power-of-two size is the remainder. */
    function Key(name: string): (k: nat)
      reads this
      requires size > 0
      ensures k < size
    {
      hash(name) % size
    }

    /**
     * The array exists exactly when size is set, every node sits in the
     * chain of its name's key, and no node is linked twice into a chain.
     */
    ghost predicate Valid()
      reads this, entries
    {
      (entries == null <==> size == 0)
      && (entries != null ==>
            size == TABLE_SIZE && entries.Length == size
            && (forall b, j :: 0 <= b < entries.Length && 0 <= j < |entries[b]| ==>
                  Key(entries[b][j].name) == b)
            && forall b :: 0 <= b < entries.Length ==> Distinct(entries[b]))
    }

    constructor (h: string -> nat)
      ensures Valid() && entries == null && hash == h
    {
      entries := null;
      size := 0;
      hash := h;
    }

    /**
     * lookupCanonicalDir(): the first node with this name in the chain of
     * its key; NULL means no node in the whole table has the name.
     */
    method Lookup(name: string) returns (cd: CanonicalDir?)
      requires Valid()
      ensures cd == (if size == 0 then null else FirstNamed(entries[Key(name)], name))
      ensures cd != null ==> cd.name == name
      ensures cd == null && entries != null ==>
                forall b, j :: 0 <= b < entries.Length && 0 <= j < |entries[b]| ==> entries[b][j].name != name
    {
      if size == 0 {
        return null;
      }
      var k := Key(name);
      var chain := entries[k];
      var i := 0;
      while i < |chain|
        invariant i <= |chain|
        invariant FirstNamed(chain, name) == FirstNamed(chain[i..], name)
      {
        if chain[i].name == name {
          return chain[i];
        }
        assert chain[i..][1..] == chain[i + 1..];
        i := i + 1;
      }
      cd := null;
    }

    /**
     * lookupCanonicalDirFromId(): the first node with the device and inode
     * of a stat() result, scanning the buckets in order.
     */
    method LookupFromId(device: nat, inode: nat) returns (cd: CanonicalDir?)
      requires Valid()
      ensures cd == (if size == 0 then null else FirstWithId(entries[..], device, inode))
    {
      if size == 0 {
        return null;
      }
      var i := 0;
      while i < size
        invariant i <= size
        invariant FirstWithId(entries[..], device, inode) == FirstWithId(entries[i..], device, inode)
      {
        var dn := FirstInChainScan(entries[i], device, inode);
        if dn != null {
          return dn;
        }
        assert entries[i..][1..] == entries[i + 1..];
        i := i + 1;
      }
      cd := null;
    }

    /**
     * createCanonicalDir(): allocates the 32 empty chains on first use and
     * pushes a new node on the front of its name's chain, so that a lookup
     * of the name then finds it; no other chain changes.
     */
    method Create(name: string, canonical: string, device: nat, inode: nat) returns (cd: CanonicalDir)
      requires Valid()
      modifies this, entries
      ensures Valid() && fresh(cd) && entries != null
      ensures cd.name == name && cd.canonical == canonical && cd.device == device && cd.inode == inode
      ensures entries[Key(name)] == [cd] + (if old(entries) == null then [] else old(entries[Key(name)]))
      ensures forall b :: 0 <= b < entries.Length && b != Key(name) ==>
                entries[b] == (if old(entries) == null then [] else old(entries[b]))
      ensures FirstNamed(entries[Key(name)], name) == cd
    {
      if entries == null {
        entries := new seq<CanonicalDir>[TABLE_SIZE](_ => []);
        size := TABLE_SIZE;
      }
      var k := Key(name);
      cd := new CanonicalDir(name, canonical, device, inode);
      entries[k] := [cd] + entries[k];
    }

    /**
     * deleteCanonicalDir(): unlinks the node from its chain, the head
     * directly and otherwise after the node whose `next` it is; the node
     * must be in the table (the source asserts it).
     */
    method Delete(d: CanonicalDir)
      requires Valid() && size > 0 && d in entries[Key(d.name)]
      modifies entries
      ensures Valid() && d !in entries[Key(d.name)]
      ensures entries[Key(d.name)] == RemoveFirst(old(entries[Key(d.name)]), d)
      ensures forall x :: x != d ==> (x in entries[Key(d.name)] <==> x in old(entries[Key(d.name)]))
      ensures forall b :: 0 <= b < entries.Length && b != Key(d.name) ==> entries[b] == old(entries[b])
    {
      var k := Key(d.name);
      var chain := entries[k];
      forall x | x != d
        ensures x in RemoveFirst(chain, d) <==> x in chain
      {
        RemoveFirstKeepsOthers(chain, d, x);
      }
      if d == chain[0] {
        entries[k] := chain[1..];
        return;
      }
      var i := UnlinkAt(chain, d);
      entries[k] := chain[..i] + chain[i + 1..];
      assert forall j :: 0 <= j < i ==> chain[j] != d by {
        forall j | 0 <= j < i ensures chain[j] != d { assert chain[j] in chain[..i]; }
      }
      RemoveFirstSplit(chain, d, i);
      assert forall j :: 0 <= j < i ==> entries[k][j] == chain[j];
      assert forall j :: i <= j < |entries[k]| ==> entries[k][j] == chain[j + 1];
    }
  }

  /** The inner `for( ; dn; dn = dn->next )` of lookupCanonicalDirFromId(). */
  method FirstInChainScan(chain: seq<CanonicalDir>, device: nat, inode: nat) returns (cd: CanonicalDir?)
    ensures cd == FirstInChain(chain, device, inode)
  {
    var j := 0;
    while j < |chain|
      invariant j <= |chain|
      invariant FirstInChain(chain, device, inode) == FirstInChain(chain[j..], device, inode)
    {
      if chain[j].inode == inode && chain[j].device == device {
        return chain[j];
      }
      assert chain[j..][1..] == chain[j + 1..];
      j := j + 1;
    }
    cd := null;
  }

  /** The search of deleteCanonicalDir() for the node whose `next` is d: d's position in the chain. */
  method UnlinkAt(chain: seq<CanonicalDir>, d: CanonicalDir) returns (i: nat)
    requires d in chain && chain[0] != d
    ensures 0 < i < |chain| && chain[i] == d && d !in chain[..i]
  {
    var cd := 0;
    while chain[cd + 1] != d
      invariant cd + 1 < |chain| && d !in chain[..cd + 1]
      invariant d in chain[cd + 1..]
      decreases |chain| - cd
    {
      cd := cd + 1;
    }
    i := cd + 1;
  }
}
