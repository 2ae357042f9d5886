/** Directories: entries in the slots of blocks, refining a map from names to nodes. */
module Directories {
  import opened Common
  import opened BlockTree
  import opened DataNodes
  import opened NodeLifetime

  const ENTRIES_PER_BLOCK: nat := 128

  datatype Status = Success | InvalidParameter | NotFound | AlreadyExists | Unavailable | DeviceError | Faulted

  datatype FileType = FILE | DIRECTORY | OTHER   // any other value of the type

  /** A slot of a block.  The name of a free slot is empty. */
  datatype Entry = Entry(node: IFNode?, name: string)

  const FREE_ENTRY := Entry(null, "")

  // ---------- the slots of a directory, in order ----------

  /** Every used slot is the one its name is indexed at, and every indexed name is there. */
  ghost predicate Indexed(slots: seq<Entry>, index: map<string, nat>) {
    && (forall k: nat :: k < |slots| && slots[k].name != "" ==> slots[k].node != null && slots[k].name in index && index[slots[k].name] == k)
    && (forall name :: name in index ==> name != "" && index[name] < |slots| && slots[index[name]].name == name)
  }

  /** The names from slot k on. */
  function Names(slots: seq<Entry>, k: nat): seq<string>
    decreases |slots| - k
  {
    if k >= |slots| then []
    else (if slots[k].name != "" then [slots[k].name] else []) + Names(slots, k + 1)
  }

  lemma {:induction false} NamesAre(slots: seq<Entry>, k: nat, name: string)
    ensures name in Names(slots, k) <==> name != "" && exists j: nat :: k <= j < |slots| && slots[j].name == name
    decreases |slots| - k
  {
    if k < |slots| {
      NamesAre(slots, k + 1, name);
      assert name in Names(slots, k) <==> (name != "" && name == slots[k].name) || name in Names(slots, k + 1);
      if name != "" && exists j: nat :: k <= j < |slots| && slots[j].name == name {
        var j: nat :| k <= j < |slots| && slots[j].name == name;
        assert j == k || k + 1 <= j;
      }
    }
  }

  /** Listing a whole directory gives each of its names once. */
  lemma {:induction false} NamesDistinct(slots: seq<Entry>, index: map<string, nat>, k: nat)
    requires Indexed(slots, index)
    ensures Distinct(Names(slots, k))
    decreases |slots| - k
  {
    if k < |slots| {
      NamesDistinct(slots, index, k + 1);
      if slots[k].name != "" {
        NamesAre(slots, k + 1, slots[k].name);
        assert slots[k].name !in Names(slots, k + 1);
      }
    }
  }

  lemma ListsEveryNameOnce(slots: seq<Entry>, index: map<string, nat>)
    requires Indexed(slots, index)
    ensures Distinct(Names(slots, 0)) && forall name :: name in Names(slots, 0) <==> name in index
  {
    NamesDistinct(slots, index, 0);
    forall name
      ensures name in Names(slots, 0) <==> name in index
    {
      NamesAre(slots, 0, name);
    }
  }

  // ---------- changing a slot ----------

  /** The map from names to nodes that the slots stand for. */
  ghost function Entries(slots: seq<Entry>, index: map<string, nat>): (m: map<string, IFNode>)
    requires Indexed(slots, index)
    ensures m.Keys == index.Keys
  {
    map name | name in index :: slots[index[name]].node
  }

  lemma EntryAdded(slots: seq<Entry>, index: map<string, nat>, k: nat, e: Entry)
    requires Indexed(slots, index) && k < |slots| && slots[k].name == "" && e.name != "" && e.node != null && e.name !in index
    ensures Indexed(slots[k := e], index[e.name := k])
    ensures Entries(slots[k := e], index[e.name := k]) == Entries(slots, index)[e.name := e.node]
  {
  }

  lemma EntryRemoved(slots: seq<Entry>, index: map<string, nat>, name: string)
    requires Indexed(slots, index) && name in index
    ensures Indexed(slots[index[name] := FREE_ENTRY], index - {name})
    ensures Entries(slots[index[name] := FREE_ENTRY], index - {name}) == Entries(slots, index) - {name}
  {
  }

  lemma BlockAdded(slots: seq<Entry>, index: map<string, nat>, empty: seq<Entry>)
    requires Indexed(slots, index) && forall i :: 0 <= i < |empty| ==> empty[i].name == ""
    ensures Indexed(slots + empty, index) && Entries(slots + empty, index) == Entries(slots, index)
  {
  }

  // ---------- the blocks of a directory ----------

  type Blocks = map<Address, seq<Entry>>

  /** Block id, at address a, holds the slots from id * 128 on. */
  ghost predicate BlockFits(blocks: Blocks, a: Address, slots: seq<Entry>, id: nat) {
    && a in blocks && |blocks[a]| == ENTRIES_PER_BLOCK && (id + 1) * ENTRIES_PER_BLOCK <= |slots|
    && forall k :: id * ENTRIES_PER_BLOCK <= k < (id + 1) * ENTRIES_PER_BLOCK ==> slots[k] == blocks[a][k - id * ENTRIES_PER_BLOCK]
  }

  /** The blocks at the addresses hold the slots, one block after the other. */
  ghost predicate Holds(blocks: Blocks, addresses: seq<Address>, slots: seq<Entry>) {
    && |slots| == |addresses| * ENTRIES_PER_BLOCK && Distinct(addresses)
    && forall id: nat :: id < |addresses| ==> BlockFits(blocks, addresses[id], slots, id)
  }

  lemma SlotWritten(blocks: Blocks, addresses: seq<Address>, slots: seq<Entry>, id: nat, j: nat, e: Entry)
    requires Holds(blocks, addresses, slots) && id < |addresses| && j < ENTRIES_PER_BLOCK && BlockFits(blocks, addresses[id], slots, id)
    ensures Holds(blocks[addresses[id] := blocks[addresses[id]][j := e]], addresses, slots[id * ENTRIES_PER_BLOCK + j := e])
  {
    var blocks', slots' := blocks[addresses[id] := blocks[addresses[id]][j := e]], slots[id * ENTRIES_PER_BLOCK + j := e];
    forall other: nat | other < |addresses|
      ensures BlockFits(blocks', addresses[other], slots', other)
    {
      assert BlockFits(blocks, addresses[other], slots, other);
      assert other != id ==> addresses[other] != addresses[id];
    }
  }

  function EmptyBlock(): (b: seq<Entry>)
    ensures |b| == ENTRIES_PER_BLOCK && forall j :: 0 <= j < |b| ==> b[j] == FREE_ENTRY
  {
    seq(ENTRIES_PER_BLOCK, _ => FREE_ENTRY)
  }

  lemma BlockAppended(blocks: Blocks, addresses: seq<Address>, slots: seq<Entry>, a: Address)
    requires Holds(blocks, addresses, slots) && a !in addresses
    ensures Holds(blocks[a := EmptyBlock()], addresses + [a], slots + EmptyBlock())
  {
    var blocks', addresses', slots' := blocks[a := EmptyBlock()], addresses + [a], slots + EmptyBlock();
    forall id: nat | id < |addresses'|
      ensures BlockFits(blocks', addresses'[id], slots', id)
    {
      if id < |addresses| {
        assert BlockFits(blocks, addresses[id], slots, id);
      }
    }
  }

  class Directory {
    const node: DataNode

    // what the blocks hold
    var blocks: Blocks

    ghost var addresses: seq<Address>
    ghost var slots: seq<Entry>
    ghost var index: map<string, nat>

    /** The blocks 0, 1, ... of the tree are those at the addresses, and there are no others. */
    ghost predicate Contiguous()
      reads this`addresses, node
    {
      && node.Valid() && node.Depth() <= MAX_DEPTH && 0 !in addresses
      && forall id: nat :: node.Lookup(id) == if id < |addresses| then addresses[id] else 0
    }

    ghost predicate Valid()
      reads this, node
    {
      Contiguous() && Holds(blocks, addresses, slots) && Indexed(slots, index)
    }

    /** The map that the directory stands for. */
    ghost function Map(): map<string, IFNode>
      requires Valid()
      reads this, node
    {
      Entries(slots, index)
    }

    /** Directory::Construct: no block yet. */
    constructor (supply: seq<Address>)
      requires supply != [] && supply[0] != 0
      requires forall i, j :: 0 <= i < j < |supply| && supply[i] != 0 ==> supply[i] != supply[j]
      ensures Valid() && Map() == map[] && fresh(node)
    {
      node := new DataNode(supply);
      blocks := map[];
      addresses, slots, index := [], [], map[];
    }

    // ---------- scanning ----------

    /** The slot of a block that has the name, or the number of slots. */
    method FindInBlock(block: Address, name: string, ghost id: nat) returns (j: nat)
      requires BlockFits(blocks, block, slots, id)
      ensures j <= ENTRIES_PER_BLOCK
      ensures j < ENTRIES_PER_BLOCK ==> slots[id * ENTRIES_PER_BLOCK + j].name == name
      ensures forall k :: id * ENTRIES_PER_BLOCK <= k < id * ENTRIES_PER_BLOCK + j ==> slots[k].name != name
    {
      j := 0;
      while j < ENTRIES_PER_BLOCK
        invariant j <= ENTRIES_PER_BLOCK
        invariant forall k :: id * ENTRIES_PER_BLOCK <= k < id * ENTRIES_PER_BLOCK + j ==> slots[k].name != name
      {
        assert slots[id * ENTRIES_PER_BLOCK + j] == blocks[block][j];
        if |blocks[block][j].name| == |name| {
          if blocks[block][j].name == name {
            return;
          }
        }
        j := j + 1;
      }
    }

    /** The first slot with the name, as block and position: used for a name, and with the empty name
        for a free slot.  If there is none, i is the number of blocks. */
    method Scan(name: string) returns (i: nat, block: Address, j: nat)
      requires Valid()
      ensures i <= |addresses| && (block == 0 <==> i == |addresses|)
      ensures block != 0 ==> block == addresses[i] && j < ENTRIES_PER_BLOCK
                             && i * ENTRIES_PER_BLOCK + j < |slots| && slots[i * ENTRIES_PER_BLOCK + j].name == name
      ensures block == 0 ==> forall k :: 0 <= k < |slots| ==> slots[k].name != name
    {
      hide DataNode.Valid, DataNode.Lookup, DataNode.Depth, BlockFits, Indexed, Distinct, Answers;
      i, j := 0, 0;
      var fault;
      block, fault := node.GetWeakBlock(0);
      while block != 0
        invariant i <= |addresses| && block == node.Lookup(i)
        invariant forall k :: 0 <= k < i * ENTRIES_PER_BLOCK ==> slots[k].name != name
        decreases |addresses| - i
      {
        j := FindInBlock(block, name, i);
        if j < ENTRIES_PER_BLOCK {
          return;
        }
        i := i + 1;
        block, fault := node.GetWeakBlock(i);
      }
    }

    // ---------- the operations ----------

    /** The slot of a name. */
    method FindEntry(name: Option<string>) returns (status: Status, block: Address, j: nat, ghost i: nat)
      requires Valid()
      ensures status == (if name.None? || name.value == "" then InvalidParameter else if name.value in Map() then Success else NotFound)
      ensures status == Success ==>
                && i < |addresses| && block == addresses[i] && j < ENTRIES_PER_BLOCK && i * ENTRIES_PER_BLOCK + j == index[name.value]
                && block in blocks && j < |blocks[block]| && blocks[block][j] == slots[index[name.value]]
    {
      i, block, j := 0, 0, 0;
      if name.None? || name.value == "" {
        return InvalidParameter, 0, 0, 0;
      }
      hide Contiguous;
      i, block, j := Scan(name.value);
      if block != 0 {
        assert BlockFits(blocks, addresses[i], slots, i);
        assert slots[i * ENTRIES_PER_BLOCK + j] == blocks[block][j];
        return Success, block, j, i;
      }
      status := NotFound;
    }

    /** Puts an entry in the first free slot, or in a new block if there is none.  When the divisor of
        the block tree wraps to zero, the processor faults. */
    method CreateEntry(entry: Entry) returns (status: Status)
      requires Valid() && entry.node != null
      modifies this, node
      ensures status == Success ==> Valid() && entry.name != "" && Map() == old(Map())[entry.name := entry.node]
      ensures status == InvalidParameter <==> entry.name == ""
      ensures status == AlreadyExists <==> entry.name != "" && entry.name in old(Map())
      ensures status in {Success, InvalidParameter, AlreadyExists, DeviceError, Faulted}
      ensures status == Faulted ==> node.Valid() && node.Depth() > MAX_DEPTH
      ensures status in {InvalidParameter, AlreadyExists, DeviceError} ==> Valid() && Map() == old(Map())
      ensures status == DeviceError ==> node.refusals > old(node.refusals)
    {
      hide Contiguous, Holds, Indexed, Entries, DataNode.Valid, DataNode.Depth;
      var found, b, j0, i0 := FindEntry(Some(entry.name));
      if found == Success {
        return AlreadyExists;
      } else if found != NotFound {
        return found;
      }
      var i, block, j := Scan("");
      if block != 0 {
        status := PutEntry(entry, block, j, i);
        return;
      }
      status, block := AppendBlock(i);
      if status == Success {
        status := PutEntry(entry, block, 0, i);
      }
    }

    /** Fills a free slot. */
    method PutEntry(entry: Entry, block: Address, j: nat, ghost i: nat) returns (status: Status)
      requires Valid() && entry.node != null && entry.name != "" && entry.name !in Map()
      requires i < |addresses| && block == addresses[i] && j < ENTRIES_PER_BLOCK
      requires i * ENTRIES_PER_BLOCK + j < |slots| && slots[i * ENTRIES_PER_BLOCK + j].name == ""
      modifies this
      ensures status == Success && Valid() && Map() == old(Map())[entry.name := entry.node]
    {
      assert BlockFits(blocks, addresses[i], slots, i);
      hide Contiguous, Holds, Indexed, Entries;
      EntryAdded(slots, index, i * ENTRIES_PER_BLOCK + j, entry);
      SlotWritten(blocks, addresses, slots, i, j, entry);
      blocks := blocks[block := blocks[block][j := entry]];
      slots := slots[i * ENTRIES_PER_BLOCK + j := entry];
      index := index[entry.name := i * ENTRIES_PER_BLOCK + j];
      status := Success;
    }

    /** A new block of free slots behind the last one. */
    method AppendBlock(i: nat) returns (status: Status, block: Address)
      requires Valid() && i == |addresses|
      modifies this`blocks, this`addresses, this`slots, node
      ensures status in {Success, DeviceError, Faulted}
      ensures status == Faulted ==> node.Valid() && node.Depth() > MAX_DEPTH
      ensures status == DeviceError ==> Valid() && Map() == old(Map()) && node.refusals > old(node.refusals)
      ensures status == Success ==>
                && Valid() && Map() == old(Map()) && |addresses| == i + 1 && block == addresses[i]
                && |slots| == (i + 1) * ENTRIES_PER_BLOCK && slots[i * ENTRIES_PER_BLOCK].name == ""
    {
      assert |slots| == i * ENTRIES_PER_BLOCK;
      AppendFits();
      hide Holds, Indexed, Entries, DataNode.Valid, DataNode.Lookup, DataNode.Depth, Power, EmptyBlock;
      block := 0;
      var outcome := node.GetBlock(i);
      if outcome == Null {
        return DeviceError, 0;
      } else if outcome == Fault {
        return Faulted, 0;
      }
      block := outcome.block;
      NewAddress(block);
      BlockAppended(blocks, addresses, slots, block);
      BlockAdded(slots, index, EmptyBlock());
      blocks := blocks[block := EmptyBlock()];
      slots := slots + EmptyBlock();
      addresses := addresses + [block];
      status := Success;
    }

    /** The number of blocks is one that the block tree can reach by growing. */
    lemma AppendFits()
      requires Valid()
      ensures |addresses| < Power(node.Depth() + 4)
    {
      var level := node.Depth();
      assert Power(level + 4) == JUNCTION_SIZE * Power(level + 3) && Power(level + 3) == JUNCTION_SIZE * Power(level + 2);
      PowerGrows(level, level + 2);
      hide DataNode.Valid, DataNode.Lookup, DataNode.Depth, Holds, Indexed, Power;
      if |addresses| > Power(level) {
        assert node.Lookup(|addresses| - 1) == addresses[|addresses| - 1];
        node.LookupBounded(|addresses| - 1);
      }
    }

    lemma NewAddress(block: Address)
      requires node.Valid() && block != 0 && node.Lookup(|addresses|) == block
      requires forall id: nat :: id < |addresses| ==> node.Lookup(id) == addresses[id]
      ensures block !in addresses
    {
      forall id: nat | id < |addresses|
        ensures addresses[id] != block
      {
        if node.Lookup(id) == block {
          node.BlocksDiffer(id, |addresses|);
        }
      }
    }

    /** Adds a node under a name; nameCopied tells whether the heap had room for a copy of the name. */
    method AddNode(name: Option<string>, added: IFNode, nameCopied: bool) returns (status: Status)
      requires Valid()
      modifies this, node
      ensures status == Success ==> Valid() && name.Some? && name.value != "" && Map() == old(Map())[name.value := added]
      ensures status == InvalidParameter <==> name.None? || (nameCopied && name.value == "")
      ensures status == AlreadyExists <==> nameCopied && name.Some? && name.value != "" && name.value in old(Map())
      ensures status in {Success, InvalidParameter, AlreadyExists, DeviceError, Faulted}
      ensures status == Faulted ==> node.Valid() && node.Depth() > MAX_DEPTH
      ensures status in {InvalidParameter, AlreadyExists, DeviceError} ==> Valid() && Map() == old(Map())
      ensures status == DeviceError ==> !nameCopied || node.refusals > old(node.refusals)
    {
      if name.None? {
        return InvalidParameter;
      }
      if !nameCopied {
        return DeviceError;
      }
      status := CreateEntry(Entry(added, name.value));
    }

    /** Creates a file or directory under a name; constructed tells whether the heap had room for it.
        Any other type of file is refused, after the name has been copied. */
    method Create(name: Option<string>, fileType: FileType, nameCopied: bool, constructed: bool) returns (status: Status, created: IFNode?)
      requires Valid()
      modifies this, node
      ensures status == Success ==>
                && Valid() && fileType != OTHER && name.Some? && name.value != "" && created != null
                && Map() == old(Map())[name.value := created]
                && fresh(created) && created.State() == NEW_NODE && created.isDirectory == (fileType == DIRECTORY)
      ensures status == InvalidParameter <==>
                name.None? || (nameCopied && (fileType == OTHER || (constructed && name.value == "")))
      ensures status == AlreadyExists <==>
                nameCopied && fileType != OTHER && constructed && name.Some? && name.value != "" && name.value in old(Map())
      ensures status in {Success, InvalidParameter, AlreadyExists, DeviceError, Faulted}
      ensures status == Faulted ==> node.Valid() && node.Depth() > MAX_DEPTH
      ensures status in {InvalidParameter, AlreadyExists, DeviceError} ==> Valid() && Map() == old(Map())
      ensures status == DeviceError ==> !nameCopied || !constructed || node.refusals > old(node.refusals)
    {
      created := null;
      if name.None? {
        return InvalidParameter, null;
      }
      if !nameCopied {
        return DeviceError, null;
      }
      if fileType == OTHER {
        return InvalidParameter, null;
      }
      if !constructed {
        return DeviceError, null;
      }
      hide Contiguous, Holds, Indexed, Entries, DataNode.Valid, DataNode.Depth;
      created := new IFNode(fileType == DIRECTORY);
      status := CreateEntry(Entry(created, name.value));
    }

    /** Opens the node of a name. */
    method Find(name: Option<string>) returns (status: Status, found: IFNode?)
      requires Valid()
      modifies Map().Values
      ensures Valid() && Map() == old(Map())
      ensures status == (if name.None? || name.value == "" then InvalidParameter else if name.value !in Map() then NotFound
                         else if old(Map()[name.value].removed) then Unavailable else Success)
      ensures status == Success ==> found == Map()[name.value]
      ensures name.Some? && name.value in Map() ==> Map()[name.value].State() == Step(old(Map()[name.value].State()), OpenNode)
      ensures forall n :: n in Map().Values && !(name.Some? && name.value in Map() && n == Map()[name.value]) ==> unchanged(n)
    {
      var block, j;
      ghost var i;
      status, block, j, i := FindEntry(name);
      if status != Success {
        return status, null;
      }
      hide Contiguous, Holds, DataNode.Valid, DataNode.Depth;
      found := blocks[block][j].node;
      assert found == Map()[name.value];
      var ok := found.Open();
      if !ok {
        return Unavailable, null;
      }
    }

    /** Removes a name: the node is marked, and destroyed at once if nobody holds it.  The entry of a
        node that has already been removed stays. */
    method Remove(name: Option<string>) returns (status: Status)
      requires Valid() && forall n :: n in Map().Values ==> Sound(n.State())
      modifies this, Map().Values
      ensures Valid()
      ensures status == (if name.None? || name.value == "" then InvalidParameter else if name.value !in old(Map()) then NotFound else Success)
      ensures Map() == if status == Success && !old(Map()[name.value].removed) then old(Map()) - {name.value} else old(Map())
      ensures status == Success ==>
                var n := old(Map())[name.value];
                && n.removed && n.openReferences == old(n.openReferences) && Sound(n.State())
                && (n.destroyed > old(n.destroyed) <==> !old(n.removed) && old(n.openReferences) == 0)
      ensures forall n :: n in old(Map()).Values && !(status == Success && n == old(Map())[name.value]) ==> unchanged(n)
    {
      var block, j;
      ghost var i;
      status, block, j, i := FindEntry(name);
      if status != Success {
        return;
      }
      var target := blocks[block][j].node;
      assert target == Map()[name.value];
      assert target in Map().Values;
      if !target.removed {
        MarkedWhileOpen(target.State());
      }
      hide Contiguous, Holds, DataNode.Valid, DataNode.Depth, Step;
      var ok := target.Open();
      if !ok {
        return;
      }
      target.MarkForRemoval();
      ClearEntry(name.value, block, j, i);
      target.Close();
    }

    method ClearEntry(name: string, block: Address, j: nat, ghost i: nat)
      requires Valid() && name in Map() && i < |addresses| && block == addresses[i] && j < ENTRIES_PER_BLOCK
      requires i * ENTRIES_PER_BLOCK + j == index[name] && block in blocks && j < |blocks[block]|
      modifies this
      ensures Valid() && Map() == old(Map()) - {name}
    {
      assert BlockFits(blocks, addresses[i], slots, i);
      hide Contiguous, Holds, Indexed, Entries;
      EntryRemoved(slots, index, name);
      SlotWritten(blocks, addresses, slots, i, j, FREE_ENTRY);
      blocks := blocks[block := blocks[block][j := FREE_ENTRY]];
      slots := slots[index[name] := FREE_ENTRY];
      index := index - {name};
    }

    /** The names in the slots from a position on, as many as there is room for. */
    method List(length: nat, from: nat) returns (list: seq<string>)
      requires Valid()
      ensures list == Take(Names(slots, from), length)
      ensures list == if length <= |Names(slots, from)| then Names(slots, from)[..length] else Names(slots, from)
    {
      hide DataNode.Valid, DataNode.Lookup, DataNode.Depth, BlockFits, Indexed, Distinct, Answers, Names;
      list := [];
      var blockId: nat, entryId: nat := from / ENTRIES_PER_BLOCK, from % ENTRIES_PER_BLOCK;
      var remaining := length;
      var blk, fault := node.GetWeakBlock(blockId);
      BeyondNames(slots, blockId * ENTRIES_PER_BLOCK + entryId);
      while blk != 0
        invariant blk == node.Lookup(blockId) && entryId < ENTRIES_PER_BLOCK && remaining == length - |list|
        invariant list + Take(Names(slots, blockId * ENTRIES_PER_BLOCK + entryId), remaining) == Take(Names(slots, from), length)
        invariant blk == 0 ==> Names(slots, blockId * ENTRIES_PER_BLOCK + entryId) == []
        decreases |addresses| - blockId
      {
        list, remaining := ListBlock(blk, blockId, entryId, list, remaining, Take(Names(slots, from), length));
        blockId := blockId + 1;
        entryId := 0;
        blk, fault := node.GetWeakBlock(blockId);
        BeyondNames(slots, blockId * ENTRIES_PER_BLOCK);
      }
    }

    method ListBlock(blk: Address, blockId: nat, from: nat, list0: seq<string>, remaining0: nat, ghost all: seq<string>) returns (list: seq<string>, remaining: nat)
      requires BlockFits(blocks, blk, slots, blockId) && from < ENTRIES_PER_BLOCK
      requires list0 + Take(Names(slots, blockId * ENTRIES_PER_BLOCK + from), remaining0) == all
      ensures list + Take(Names(slots, (blockId + 1) * ENTRIES_PER_BLOCK), remaining) == all
      ensures |list| + remaining == |list0| + remaining0
    {
      list, remaining := list0, remaining0;
      var entryId := from;
      hide Names;
      while entryId < ENTRIES_PER_BLOCK && remaining > 0
        invariant from <= entryId <= ENTRIES_PER_BLOCK && |list| + remaining == |list0| + remaining0
        invariant list + Take(Names(slots, blockId * ENTRIES_PER_BLOCK + entryId), remaining) == all
      {
        var e := blocks[blk][entryId];
        assert e == slots[blockId * ENTRIES_PER_BLOCK + entryId];
        NamesStep(slots, blockId * ENTRIES_PER_BLOCK + entryId, remaining);
        if |e.name| != 0 {
          list := list + [e.name];
          remaining := remaining - 1;
        }
        entryId := entryId + 1;
      }
    }
  }

  function Take(names: seq<string>, n: nat): seq<string> {
    if n <= |names| then names[..n] else names
  }

  lemma BeyondNames(slots: seq<Entry>, k: nat)
    ensures k >= |slots| ==> Names(slots, k) == []
  {
  }

  lemma NamesStep(slots: seq<Entry>, k: nat, n: nat)
    requires k < |slots| && n > 0
    ensures Take(Names(slots, k), n) == if slots[k].name != "" then [slots[k].name] + Take(Names(slots, k + 1), n - 1) else Take(Names(slots, k + 1), n)
  {
  }
}
