/** Slot ownership: the map from slots to nodes, and every node's own list of slots. */
module Slots {
  import opened Seqs

  const LAST_SLOT: int := 16383

  type Name = string

  /**
   * A node object. This node's own object outlives its entry in the node table;
   * every other object is gone once it is removed from it. A node that is added
   * under this node's name later is another object.
   */
  datatype Node = Mine | Other(name: Name)

  /** `a` without every occurrence of `x`. */
  function WithoutAll(a: seq<int>, x: int): (r: seq<int>)
    ensures forall y :: y in r <==> y in a && y != x
    ensures NoDup(a) ==> NoDup(r)
  {
    if a == [] then [] else
      assert NoDup(a) ==> NoDup(a[1..]) && a[0] !in a[1..];
      if a[0] == x then WithoutAll(a[1..], x) else [a[0]] + WithoutAll(a[1..], x)
  }

  /** The two directions say the same: node `n` owns slot `s` exactly when its list has it, once. */
  ghost predicate Agree(owner: map<int, Node>, lists: map<Node, seq<int>>) {
    && (forall s | s in owner :: owner[s] in lists && s in lists[owner[s]])
    && (forall n, s | n in lists && s in lists[n] :: s in owner && owner[s] == n)
    && (forall n | n in lists :: NoDup(lists[n]))
  }

  /** So no two nodes ever claim the same slot. */
  lemma OneOwner(owner: map<int, Node>, lists: map<Node, seq<int>>, s: int, m: Node, n: Node)
    requires Agree(owner, lists) && m in lists && n in lists && s in lists[m] && s in lists[n]
    ensures m == n
  {
    assert owner[s] == m;
  }

  lemma Assigned(owner: map<int, Node>, lists: map<Node, seq<int>>, s: int, n: Node)
    requires Agree(owner, lists) && s !in owner && n in lists
    ensures Agree(owner[s := n], lists[n := lists[n] + [s]])
  {
  }

  lemma Released(owner: map<int, Node>, lists: map<Node, seq<int>>, s: int, n: Node)
    requires Agree(owner, lists) && s in owner && owner[s] == n
    ensures Agree(owner - {s}, lists[n := WithoutAll(lists[n], s)])
  {
  }

  /** The first of the slots that somebody else owns; their number when nobody does. */
  function FirstTaken(owner: map<int, Node>, slots: seq<int>, me: Node): (k: nat)
    ensures k <= |slots|
    ensures forall j | 0 <= j < k :: slots[j] in owner ==> owner[slots[j]] == me
    ensures k < |slots| ==> slots[k] in owner && owner[slots[k]] != me
  {
    if slots == [] || (slots[0] in owner && owner[slots[0]] != me) then 0 else 1 + FirstTaken(owner, slots[1..], me)
  }

  /** The map with the free ones of the slots given to `me`. */
  function Claimed(owner: map<int, Node>, slots: seq<int>, me: Node): map<int, Node> {
    map s | s in owner.Keys + (set t | t in slots) :: if s in owner then owner[s] else me
  }

  lemma ClaimedMeans(owner: map<int, Node>, slots: seq<int>, me: Node)
    ensures forall s :: s in Claimed(owner, slots, me) <==> s in owner || s in slots
    ensures forall s | s in Claimed(owner, slots, me) :: Claimed(owner, slots, me)[s] == if s in owner then owner[s] else me
  {
  }

  lemma NoneInTheWay(owner: map<int, Node>, slots: seq<int>, me: Node)
    ensures FirstTaken(owner, slots, me) == |slots| <==> forall s | s in slots && s in owner :: owner[s] == me
  {
    var k := FirstTaken(owner, slots, me);
    if k < |slots| {
      var s := slots[k];
      assert s in slots && s in owner && owner[s] != me;
    }
  }

  lemma InRangeMeans(slots: seq<int>)
    ensures InRange(slots) <==> forall s | s in slots :: 0 <= s <= 16383
  {
  }

  lemma NothingClaimed(owner: map<int, Node>, me: Node)
    ensures Claimed(owner, [], me) == owner
  {
  }

  /** Only slots that were free change hands, so who stands in the way can be read off at any time. */
  lemma OneClaimed(owner: map<int, Node>, slots: seq<int>, i: nat, me: Node)
    requires i < |slots|
    ensures var now, slot := Claimed(owner, slots[..i], me), slots[i];
            && (slot in now && now[slot] != me <==> slot in owner && owner[slot] != me)
            && Claimed(owner, slots[..i + 1], me) == if slot in now then now else now[slot := me]
  {
    assert slots[..i + 1] == slots[..i] + [slots[i]];
  }

  lemma MineListed(owner: map<int, Node>, lists: map<Node, seq<int>>, s: int, n: Node)
    requires Agree(owner, lists) && n in lists
    ensures s in lists[n] <==> s in owner && owner[s] == n
  {
  }

  /** The map without the slots of `n`. */
  function Freed(owner: map<int, Node>, n: Node): map<int, Node> {
    map s | s in owner && owner[s] != n :: owner[s]
  }

  lemma FreedAgrees(owner: map<int, Node>, lists: map<Node, seq<int>>, n: Node)
    requires Agree(owner, lists) && n in lists
    ensures Agree(Freed(owner, n), lists - {n})
    ensures Agree(Freed(owner, n), lists) <==> lists[n] == []
    ensures forall s | s in owner && owner[s] == n :: s in lists[n]
  {
    if lists[n] != [] {
      var x := lists[n][0];
      assert x in lists[n] && x !in Freed(owner, n);
    } else {
      assert forall s | s in owner :: owner[s] != n;
      assert Freed(owner, n) == owner;
    }
  }

  lemma IsFreed(after: map<int, Node>, before: map<int, Node>, n: Node)
    requires forall s | s in after :: s in before && after[s] == before[s] && after[s] != n
    requires forall s | s in before && s !in after :: before[s] == n
    ensures after == Freed(before, n)
  {
    var freed := Freed(before, n);
    assert forall s | s in after :: s in freed && freed[s] == after[s];
    assert forall s | s in freed :: s in after;
    assert after == freed;
  }

  lemma NobodyIn(a: seq<int>)
    requires forall s :: s !in a
    ensures a == []
  {
    var x := if a == [] then 0 else a[0];
    assert a != [] ==> x in a;
  }

  datatype Op =
    | AddNode(name: Name)
    | DelNode(name: Name)
    | AddSlots(slots: seq<int>)
    | DelSlots(slots: seq<int>)
    | SetSlotNode(slot: int, name: Name)
    | CompleteFailover(master: Node)

  predicate InRange(slots: seq<int>) {
    forall s | s in slots :: 0 <= s <= LAST_SLOT
  }

  /** Names lead to their objects, and only this node's name can lead to its own. */
  ghost predicate Named(table: map<Name, Node>, me: Name) {
    forall n | n in table :: table[n] == Other(n) || (n == me && table[n] == Mine)
  }

  /** The node objects: those of the table, and this node's own. */
  ghost predicate Keyed(table: map<Name, Node>, nodes: set<Node>, me: Name) {
    Named(table, me) && nodes == table.Values + {Mine}
  }

  /** Changing the list of a node object leaves the objects as they are. */
  lemma KeysKept(table: map<Name, Node>, lists: map<Node, seq<int>>, me: Name, node: Node, slots: seq<int>)
    requires Keyed(table, lists.Keys, me)
    ensures Mine in lists && (node in lists ==> lists[node := slots].Keys == lists.Keys)
  {
  }

  lemma NodeOf(table: map<Name, Node>, nodes: set<Node>, me: Name, name: Name)
    requires Keyed(table, nodes, me)
    ensures Mine in nodes && (name in table ==> table[name] in nodes)
  {
  }

  /** The operations after which map and lists disagree, though they agreed before. */
  predicate Breaks(op: Op, me: Name, table: map<Name, Node>, lists: map<Node, seq<int>>) {
    match op
    case DelNode(name) => name in table && table[name] == Mine && Mine in lists && lists[Mine] != []
    case CompleteFailover(master) => me !in table && master in lists && lists[master] != []
    case _ => false
  }

  class ClusterState {
    const me: Name
    var table: map<Name, Node>
    /** The slot list of every node object. */
    var lists: map<Node, seq<int>>
    var owner: map<int, Node>

    ghost predicate Valid()
      reads this
    {
      Shaped() && Agree(owner, lists)
    }

    ghost predicate Shaped()
      reads this
    {
      Keyed(table, lists.Keys, me)
    }

    constructor (me: Name)
      ensures Valid() && owner == map[] && this.me == me && table == map[me := Mine] && lists == map[Mine := []]
    {
      this.me := me;
      table, lists, owner := map[me := Mine], map[Mine := []], map[];
    }

    /** A new object, unless the name is known. */
    method AddNode(name: Name)
      requires Valid()
      modifies this
      ensures Valid() && owner == old(owner)
      ensures table == if name in old(table) then old(table) else old(table)[name := Other(name)]
      ensures lists == if name in old(table) then old(lists) else old(lists)[Other(name) := []]
    {
      hide Agree, Keyed;
      if name !in table {
        NewNode(table, lists, me, name);
        AgreeWithNew(owner, lists, Other(name));
        table, lists := table[name := Other(name)], lists[Other(name) := []];
      }
    }

    /** Removing another node frees its slots. Removing this node's object leaves its list behind. */
    method DelNode(name: Name)
      requires Valid()
      modifies this
      ensures table == old(table) - {name} && Shaped()
      ensures name !in old(table) ==> owner == old(owner) && lists == old(lists)
      ensures name in old(table) ==>
                var node := old(table)[name];
                owner == Freed(old(owner), node) && lists == if node == Mine then old(lists) else old(lists) - {node}
      ensures Valid() <==> !Breaks(Op.DelNode(name), me, old(table), old(lists))
    {
      if name !in table {
        assert table - {name} == table;
        return;
      }
      hide Agree, Keyed;
      var node := table[name];
      NodeOf(table, lists.Keys, me, name);
      NodeGone(table, lists, me, name);
      FreedAgrees(owner, lists, node);
      FreeSlots(lists[node], node);
      table := table - {name};
      if node != Mine {
        lists := lists - {node};
      }
    }

    /** Takes the slots of a node out of the map, as far as they are still its own. */
    method FreeSlots(slots: seq<int>, node: Node)
      requires forall s | s in owner && owner[s] == node :: s in slots
      modifies this`owner
      ensures owner == Freed(old(owner), node)
    {
      var i := 0;
      while i < |slots|
        invariant 0 <= i <= |slots|
        invariant forall s | s in owner :: s in old(owner) && owner[s] == old(owner)[s]
        invariant forall s | s in old(owner) && s !in owner :: old(owner)[s] == node
        invariant forall j | 0 <= j < i :: slots[j] !in owner || owner[slots[j]] != node
      {
        if slots[i] in owner && owner[slots[i]] == node {
          owner := owner - {slots[i]};
        }
        i := i + 1;
      }
      forall s | s in owner
        ensures owner[s] != node
      {
        assert owner[s] == node ==> s in slots;
      }
      IsFreed(owner, old(owner), node);
    }

    /** ADDSLOTS: up to the first slot another node owns, every free slot becomes this node's. */
    method AddSlots(slots: seq<int>) returns (ok: bool)
      requires Valid()
      modifies this
      ensures Valid() && table == old(table)
      ensures ok <==> slots != [] && InRange(slots) && FirstTaken(old(owner), slots, Mine) == |slots|
      ensures ok <==> && slots != [] && (forall s | s in slots :: 0 <= s <= 16383)
                      && (forall s | s in slots && s in old(owner) :: old(owner)[s] == Mine)
      ensures ok ==> forall s :: s in owner <==> s in old(owner) || s in slots
      ensures forall s | s in owner :: owner[s] == if s in old(owner) then old(owner)[s] else Mine
      ensures InRange(slots) ==> owner == Claimed(old(owner), slots[..FirstTaken(old(owner), slots, Mine)], Mine)
      ensures !InRange(slots) ==> owner == old(owner)
    {
      hide Agree, Claimed, InRange, NoDup, Keyed;
      InRangeMeans(slots);
      ClaimedMeans(owner, slots[..FirstTaken(owner, slots, Mine)], Mine);
      NoneInTheWay(owner, slots, Mine);
      NothingClaimed(owner, Mine);
      assert slots[..0] == [];
      if slots == [] || !InRange(slots) {
        return false;
      }
      ghost var taken := FirstTaken(owner, slots, Mine);
      var i := 0;
      while i < |slots|
        invariant 0 <= i <= taken && Valid() && table == old(table)
        invariant owner == Claimed(old(owner), slots[..i], Mine)
      {
        var slot := slots[i];
        OneClaimed(old(owner), slots, i, Mine);
        if slot in owner && owner[slot] != Mine {
          return false;
        }
        NodeOf(table, lists.Keys, me, me);
        MineListed(owner, lists, slot, Mine);
        if slot !in lists[Mine] {
          KeysKept(table, lists, me, Mine, lists[Mine] + [slot]);
          Assigned(owner, lists, slot, Mine);
          lists := lists[Mine := lists[Mine] + [slot]];
          owner := owner[slot := Mine];
        }
        i := i + 1;
      }
      assert slots[..i] == slots;
      ok := true;
    }

    /** DELSLOTS: of the given slots, exactly those this node owns are freed. */
    method DelSlots(slots: seq<int>) returns (ok: bool)
      requires Valid()
      modifies this
      ensures Valid() && table == old(table) && (ok <==> slots != [] && forall s | s in slots :: 0 <= s <= 16383)
      ensures !ok ==> owner == old(owner)
      ensures ok ==> forall s :: s in owner <==> s in old(owner) && !(s in slots && old(owner)[s] == Mine)
      ensures forall s | s in owner :: owner[s] == old(owner)[s]
    {
      hide Agree, Keyed;
      if slots == [] || !(forall s | s in slots :: 0 <= s <= LAST_SLOT) {
        return false;
      }
      var i := 0;
      while i < |slots|
        invariant 0 <= i <= |slots| && Valid() && table == old(table)
        invariant forall s :: s in owner <==> s in old(owner) && !(s in slots[..i] && old(owner)[s] == Mine)
        invariant forall s | s in owner :: owner[s] == old(owner)[s]
      {
        var slot := slots[i];
        assert slots[..i + 1] == slots[..i] + [slot];
        NodeOf(table, lists.Keys, me, me);
        MineListed(owner, lists, slot, Mine);
        if slot in lists[Mine] {
          KeysKept(table, lists, me, Mine, WithoutAll(lists[Mine], slot));
          Released(owner, lists, slot, Mine);
          lists := lists[Mine := WithoutAll(lists[Mine], slot)];
          owner := owner - {slot};
        }
        i := i + 1;
      }
      assert slots[..i] == slots;
      ok := true;
    }

    /** `setSlotOwner`: nothing for an unknown name, and right only for a slot nobody else lists. */
    method SetSlotOwner(slot: int, name: Name)
      requires Shaped()
      modifies this`owner, this`lists
      ensures Shaped()
      ensures name !in table ==> owner == old(owner) && lists == old(lists)
      ensures name in table ==>
                var node, list := table[name], old(lists)[table[name]];
                && owner == old(owner)[slot := node]
                && lists == old(lists)[node := if slot in list then list else list + [slot]]
    {
      if name !in table {
        return;
      }
      hide Keyed;
      var node := table[name];
      NodeOf(table, lists.Keys, me, name);
      owner := owner[slot := node];
      if slot !in lists[node] {
        KeysKept(table, lists, me, node, lists[node] + [slot]);
        lists := lists[node := lists[node] + [slot]];
      }
    }

    /** SETSLOT NODE: the slot moves, and nothing else does. */
    method SetSlotNode(slot: int, name: Name) returns (ok: bool)
      requires Valid()
      modifies this
      ensures Valid() && table == old(table)
      ensures ok <==> 0 <= slot <= 16383 && name in table
      ensures owner == if ok then old(owner)[slot := table[name]] else old(owner)
    {
      if !(0 <= slot <= LAST_SLOT) || name !in table {
        return false;
      }
      hide Agree, NoDup, Keyed;
      var node := table[name];
      NodeOf(table, lists.Keys, me, name);
      Moved(owner, lists, slot, node);
      if slot in owner && owner[slot] != node {
        OwnerListed(owner, lists, slot);
        KeysKept(table, lists, me, owner[slot], WithoutAll(lists[owner[slot]], slot));
        lists := lists[owner[slot] := WithoutAll(lists[owner[slot]], slot)];
      }
      SetSlotOwner(slot, name);
      ok := true;
    }

    /**
     * A completed failover: while this node's name is known, every slot of the
     * old master goes to the node of that name, and nothing else changes.
     * Otherwise the master's list is emptied and the map stays.
     */
    method CompleteFailover(master: Node)
      requires Valid() && master in lists
      modifies this
      ensures Shaped() && table == old(table)
      ensures me in table ==>
                && (forall s :: s in owner <==> s in old(owner))
                && (forall s | s in owner :: owner[s] == if old(owner)[s] == master then table[me] else old(owner)[s])
      ensures me !in table ==> owner == old(owner) && lists == old(lists)[master := []]
      ensures Valid() <==> !Breaks(Op.CompleteFailover(master), me, old(table), old(lists))
    {
      hide Agree, AgreeBut, NoDup, Keyed;
      ListEmptied(owner, lists, lists[master := []], master);
      KeysKept(table, lists, me, master, []);
      var slots := lists[master];
      EmptyList(master);
      TakeOver(slots);
    }

    /** The first loop of a failover: one slot after the other leaves the list. */
    method EmptyList(master: Node)
      requires master in lists
      modifies this`lists
      ensures lists == old(lists)[master := []]
    {
      hide NoDup;
      var slots := lists[master];
      var i := 0;
      while i < |slots|
        invariant 0 <= i <= |slots| && master in lists && lists == old(lists)[master := lists[master]]
        invariant forall s :: s in lists[master] <==> s in slots && s !in slots[..i]
      {
        assert slots[..i + 1] == slots[..i] + [slots[i]];
        lists := lists[master := WithoutAll(lists[master], slots[i])];
        i := i + 1;
      }
      assert slots[..i] == slots;
      NobodyIn(lists[master]);
    }

    /** The second loop of a failover. */
    method TakeOver(slots: seq<int>)
      requires Shaped() && NoDup(slots) && AgreeBut(owner, lists, slots)
      modifies this`owner, this`lists
      ensures Shaped()
      ensures me !in table ==> owner == old(owner) && lists == old(lists)
      ensures me in table ==>
                && Valid() && (forall s :: s in owner <==> s in old(owner))
                && (forall s | s in owner :: owner[s] == if s in slots then table[me] else old(owner)[s])
    {
      hide Agree, AgreeBut, Keyed;
      var i := 0;
      assert slots[0..] == slots;
      ghost var node := if me in table then table[me] else Mine;
      while i < |slots|
        invariant 0 <= i <= |slots| && Shaped()
        invariant me !in table ==> owner == old(owner) && lists == old(lists)
        invariant me in table ==> AgreeBut(owner, lists, slots[i..]) && (forall s :: s in owner <==> s in old(owner))
        invariant me in table ==> forall s | s in owner :: owner[s] == if s in slots[..i] then node else old(owner)[s]
      {
        assert slots[..i + 1] == slots[..i] + [slots[i]] && slots[i..][0] == slots[i] && slots[i..][1..] == slots[i + 1..];
        NodeOf(table, lists.Keys, me, me);
        if me in table {
          OneTaken(owner, lists, slots[i..], node);
        }
        SetSlotOwner(slots[i], me);
        i := i + 1;
      }
      assert slots[..i] == slots && slots[i..] == [];
      if me in table {
        NothingLeft(owner, lists);
      }
    }

    /** One operation; map and lists agree afterwards exactly when it is not one of those that break it. */
    method Step(op: Op)
      requires Valid()
      modifies this
      ensures Valid() <==> !Breaks(op, me, old(table), old(lists))
    {
      hide Agree, Keyed;
      match op
      case AddNode(name) => AddNode(name);
      case DelNode(name) => DelNode(name);
      case AddSlots(slots) => var ok := AddSlots(slots);
      case DelSlots(slots) => var ok := DelSlots(slots);
      case SetSlotNode(slot, name) => var ok := SetSlotNode(slot, name);
      case CompleteFailover(master) =>
        if master in lists {
          CompleteFailover(master);
        }
    }
  }

  lemma NewNode(table: map<Name, Node>, lists: map<Node, seq<int>>, me: Name, name: Name)
    requires Keyed(table, lists.Keys, me) && name !in table
    ensures Other(name) !in lists && Keyed(table[name := Other(name)], lists[Other(name) := []].Keys, me)
  {
    var table' := table[name := Other(name)];
    assert table'[name] in table'.Values;
    forall node | node in table.Values
      ensures node in table'.Values && node != Other(name)
    {
      var n :| n in table && table[n] == node;
      assert table'[n] == node;
    }
  }

  lemma OwnerListed(owner: map<int, Node>, lists: map<Node, seq<int>>, s: int)
    requires Agree(owner, lists) && s in owner
    ensures owner[s] in lists && s in lists[owner[s]]
  {
  }

  lemma ListedIsOwned(owner: map<int, Node>, lists: map<Node, seq<int>>, n: Node, s: int)
    requires Agree(owner, lists) && n in lists && s in lists[n]
    ensures s in owner && owner[s] == n
  {
  }

  lemma AgreeWithNew(owner: map<int, Node>, lists: map<Node, seq<int>>, node: Node)
    requires Agree(owner, lists) && node !in lists
    ensures Agree(owner, lists[node := []])
  {
  }

  lemma NodeGone(table: map<Name, Node>, lists: map<Node, seq<int>>, me: Name, name: Name)
    requires Keyed(table, lists.Keys, me) && name in table
    ensures Keyed(table - {name}, (if table[name] == Mine then lists else lists - {table[name]}).Keys, me)
  {
    var table', node := table - {name}, table[name];
    forall other | other in table'.Values
      ensures other in table.Values && other != node
    {
      var n :| n in table' && table'[n] == other;
      assert table[n] == other;
    }
    forall other | other in table.Values && other != node
      ensures other in table'.Values
    {
      var n :| n in table && table[n] == other;
      assert table'[n] == other;
    }
  }

  /** Map and lists agree, but for the slots `todo` the map still names an owner that no longer lists them. */
  ghost predicate AgreeBut(owner: map<int, Node>, lists: map<Node, seq<int>>, todo: seq<int>) {
    && (forall s | s in owner && s !in todo :: owner[s] in lists && s in lists[owner[s]])
    && (forall s | s in todo :: s in owner)
    && (forall n, s | n in lists && s in lists[n] :: s in owner && owner[s] == n && s !in todo)
    && (forall n | n in lists :: NoDup(lists[n]))
  }

  lemma OneTaken(owner: map<int, Node>, lists: map<Node, seq<int>>, todo: seq<int>, me: Node)
    requires AgreeBut(owner, lists, todo) && todo != [] && me in lists && NoDup(todo)
    ensures todo[0] in owner && todo[0] !in lists[me]
    ensures AgreeBut(owner[todo[0] := me], lists[me := lists[me] + [todo[0]]], todo[1..])
  {
    var slot, rest := todo[0], todo[1..];
    assert slot in todo && slot !in rest;
    assert forall s :: s in todo <==> s == slot || s in rest;
    var list := lists[me] + [slot];
    assert forall s :: s in list <==> s in lists[me] || s == slot;
    assert NoDup(list);
  }

  lemma NothingLeft(owner: map<int, Node>, lists: map<Node, seq<int>>)
    requires AgreeBut(owner, lists, [])
    ensures Agree(owner, lists)
  {
  }

  lemma ListEmptied(owner: map<int, Node>, lists: map<Node, seq<int>>, after: map<Node, seq<int>>, master: Node)
    requires Agree(owner, lists) && master in lists && after == lists[master := []]
    ensures AgreeBut(owner, after, lists[master]) && NoDup(lists[master])
    ensures forall s | s in owner :: s in lists[master] <==> owner[s] == master
    ensures Agree(owner, after) <==> lists[master] == []
  {
    if lists[master] != [] {
      var x := lists[master][0];
      assert x in lists[master] && owner[x] == master && x !in after[master];
    } else {
      assert after == lists;
    }
  }

  lemma Moved(owner: map<int, Node>, lists: map<Node, seq<int>>, s: int, n: Node)
    requires Agree(owner, lists) && n in lists
    ensures var fewer := if s in owner && owner[s] != n then lists[owner[s] := WithoutAll(lists[owner[s]], s)] else lists;
            && (forall m | m in fewer :: NoDup(fewer[m])) && fewer.Keys == lists.Keys
            && Agree(owner[s := n], fewer[n := if s in fewer[n] then fewer[n] else fewer[n] + [s]])
  {
    if s !in owner {
      Assigned(owner, lists, s, n);
    } else if owner[s] == n {
      assert owner[s := n] == owner && lists[n := lists[n]] == lists;
    } else {
      var fewer := lists[owner[s] := WithoutAll(lists[owner[s]], s)];
      Released(owner, lists, s, owner[s]);
      Assigned(owner - {s}, fewer, s, n);
      assert (owner - {s})[s := n] == owner[s := n];
      assert s !in fewer[n] && fewer.Keys == lists.Keys;
    }
  }

  /**
   * Over every run map and lists agree, up to the first operation that breaks
   * it: this node's object is removed while it has slots, or a failover empties
   * its master's list while this node's name is unknown.
   */
  method Run(state: ClusterState, ops: seq<Op>) returns (done: nat)
    requires state.Valid()
    modifies state
    ensures state.Valid() && done <= |ops|
    ensures done < |ops| ==> Breaks(ops[done], state.me, state.table, state.lists)
  {
    hide Agree, Keyed, Breaks;
    done := 0;
    while done < |ops| && !Breaks(ops[done], state.me, state.table, state.lists)
      invariant done <= |ops| && state.Valid()
    {
      state.Step(ops[done]);
      done := done + 1;
    }
  }

  lemma OneSlotTaken()
    ensures FirstTaken(map[], [0], Mine) == 1 && Claimed(map[], [0][..1], Mine) == map[0 := Mine]
    ensures Freed(map[0 := Mine], Mine) == map[]
  {
    assert [0][..1] == [0];
    assert Claimed(map[], [0], Mine).Keys == {0};
  }

  /** A node that owns a slot and removes itself: the map has no owner, its list still has the slot. */
  method RemovesItself(me: Name) returns (owner: map<int, Node>, lists: map<Node, seq<int>>)
    ensures owner == map[] && Mine in lists && 0 in lists[Mine] && !Agree(owner, lists)
  {
    var state := new ClusterState(me);
    var ok := state.AddSlots([0]);
    OneSlotTaken();
    state.DelNode(me);
    owner, lists := state.owner, state.lists;
  }

  /**
   * A node that has removed itself and then takes over its master: the map still
   * names the master, and nobody lists the slot.
   */
  method FailsOverUnknown(me: Name, m: Name) returns (owner: map<int, Node>, lists: map<Node, seq<int>>)
    requires m != me
    ensures owner == map[0 := Other(m)] && (forall n | n in lists :: lists[n] == []) && !Agree(owner, lists)
  {
    hide Agree, Keyed;
    var state := new ClusterState(me);
    state.AddNode(m);
    var ok := state.SetSlotNode(0, m);
    OneSlotOwned(state.owner, state.lists, Other(m));
    state.DelNode(me);
    state.CompleteFailover(Other(m));
    owner, lists := state.owner, state.lists;
  }

  lemma OneSlotOwned(owner: map<int, Node>, lists: map<Node, seq<int>>, node: Node)
    requires Agree(owner, lists) && owner == map[0 := node] && node != Mine
    ensures node in lists && lists[node] != [] && forall n | n in lists && n != node :: lists[n] == []
    ensures Freed(owner, Mine) == owner
  {
    assert 0 in owner;
    forall n | n in lists && n != node
      ensures lists[n] == []
    {
      forall s | s in lists[n]
        ensures false
      {
        ListedIsOwned(owner, lists, n, s);
      }
      NobodyIn(lists[n]);
    }
  }
}
