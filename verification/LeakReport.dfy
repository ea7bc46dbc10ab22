// The two reports of examples/memleak_bcc_dwunw/memleak_dwunw_user.c: one groups
// the live allocations by stack, the other reads the packed summaries.
//
// A map is walked with `bpf_map_get_next_key`, starting from key 0; `order` is the
// order in which the map yields its keys. `qsort` is any function that permutes a
// sequence into descending order.
module LeakReport {
  import opened Machine
  import opened Packed
  import opened LeakCounters

  /** One allocation in the list kept for `--show-allocs`. */
  datatype Node = Node(address: u64, size: u64)

  /** `struct allocation`; `nodes` is its linked list from the head on. */
  datatype Allocation = Allocation(stackId: u64, size: u64, count: u64, nodes: seq<Node>)

  // ---------------------------------------------------------------------
  // Walking a map

  /** `order` yields each key of the map once. */
  ghost predicate Enumerates<V>(order: seq<u64>, m: map<u64, V>) {
    && (forall i :: 0 <= i < |order| ==> order[i] in m)
    && (forall k :: k in m ==> k in order)
    && (forall i, j :: 0 <= i < j < |order| ==> order[i] != order[j])
  }

  function IndexOf(order: seq<u64>, key: u64): (i: nat)
    ensures i <= |order|
    ensures i < |order| ==> order[i] == key
    ensures forall j :: 0 <= j < i ==> order[j] != key
  {
    if order == [] || order[0] == key then 0 else 1 + IndexOf(order[1..], key)
  }

  /** `bpf_map_get_next_key`: the key after `prev`, or the first when `prev` is no
      key of the map. */
  function NextKey(order: seq<u64>, prev: u64): Option<u64> {
    var i := IndexOf(order, prev);
    if i == |order| then (if order == [] then None else Some(order[0]))
    else if i + 1 < |order| then Some(order[i + 1])
    else None
  }

  /** The keys a walk from 0 reaches. */
  function Visited(order: seq<u64>): seq<u64> {
    var i := IndexOf(order, 0);
    if i == |order| then order else order[i + 1..]
  }

  /** A walk reaches every key exactly when 0 is not one of them. */
  lemma VisitsAllIffNoZero(order: seq<u64>)
    ensures Visited(order) == order <==> 0 !in order
  {
    var i := IndexOf(order, 0);
    if i < |order| {
      assert |Visited(order)| < |order|;
    }
  }

  /** From key 0, if it is one, a walk reaches exactly the keys behind it. */
  lemma VisitedBehindZero(order: seq<u64>, i: nat)
    requires i < |order| && order[i] == 0 && forall j, k :: 0 <= j < k < |order| ==> order[j] != order[k]
    ensures Visited(order) == order[i + 1..]
  {
    IndexIs(order, i);
  }

  lemma NextAfter(order: seq<u64>, i: nat)
    requires i < |order| && forall j, k :: 0 <= j < k < |order| ==> order[j] != order[k]
    ensures NextKey(order, order[i]) == if i + 1 < |order| then Some(order[i + 1]) else None
  {
    IndexIs(order, i);
  }

  // ---------------------------------------------------------------------
  // Grouping by stack

  /** The list of a single allocation; without `--show-allocs` none is kept. */
  function Noted(address: u64, info: Info, show: bool): seq<Node> {
    if show then [Node(address, info.size)] else []
  }

  /** An entry with one more allocation. */
  function More(entry: Allocation, address: u64, info: Info, show: bool): Allocation {
    entry.(size := Wrap(entry.size + info.size), count := Wrap(entry.count + 1),
           nodes := Noted(address, info, show) + entry.nodes)
  }

  /** Adds one allocation to its stack's entry, or a new entry at the end. */
  function AddTo(table: seq<Allocation>, address: u64, info: Info, show: bool): seq<Allocation>
    requires info.stackId >= 0
  {
    if table == [] then [Allocation(info.stackId, info.size, 1, Noted(address, info, show))]
    else if table[0].stackId == info.stackId then [More(table[0], address, info, show)] + table[1..]
    else [table[0]] + AddTo(table[1..], address, info, show)
  }

  /** The filters: entries younger than the age limit and entries without a stack
      are skipped. */
  predicate Kept(info: Info, now: u64, minAge: u64) {
    Wrap(now - minAge) >= info.timestamp && info.stackId >= 0
  }

  /** The table after visiting `keys`; `now` is the clock at each visit. */
  function Grouped(keys: seq<u64>, allocs: map<u64, Info>, now: nat -> u64, minAge: u64, show: bool): seq<Allocation>
    requires forall i :: 0 <= i < |keys| ==> keys[i] in allocs
  {
    if keys == [] then []
    else
      var n := |keys| - 1;
      var info := allocs[keys[n]];
      var before := Grouped(keys[..n], allocs, now, minAge, show);
      if Kept(info, now(n), minAge) then AddTo(before, keys[n], info, show) else before
  }

  /** Sum of sizes and number of the kept allocations of one stack. */
  function StackSize(keys: seq<u64>, allocs: map<u64, Info>, now: nat -> u64, minAge: u64, stack: u64): nat
    requires forall i :: 0 <= i < |keys| ==> keys[i] in allocs
  {
    if keys == [] then 0
    else
      var n := |keys| - 1;
      var info := allocs[keys[n]];
      StackSize(keys[..n], allocs, now, minAge, stack)
      + if Kept(info, now(n), minAge) && info.stackId == stack then info.size else 0
  }

  function StackCount(keys: seq<u64>, allocs: map<u64, Info>, now: nat -> u64, minAge: u64, stack: u64): nat
    requires forall i :: 0 <= i < |keys| ==> keys[i] in allocs
  {
    if keys == [] then 0
    else
      var n := |keys| - 1;
      var info := allocs[keys[n]];
      StackCount(keys[..n], allocs, now, minAge, stack)
      + if Kept(info, now(n), minAge) && info.stackId == stack then 1 else 0
  }

  /** The kept allocations of one stack, the last visited first. */
  function StackNodes(keys: seq<u64>, allocs: map<u64, Info>, now: nat -> u64, minAge: u64, stack: u64): seq<Node>
    requires forall i :: 0 <= i < |keys| ==> keys[i] in allocs
  {
    if keys == [] then []
    else
      var n := |keys| - 1;
      var info := allocs[keys[n]];
      (if Kept(info, now(n), minAge) && info.stackId == stack then [Node(keys[n], info.size)] else [])
      + StackNodes(keys[..n], allocs, now, minAge, stack)
  }

  /** An allocation of `stack` made at `timestamp` is reported at `now`: it is at least
      as old as the limit asks. When the limit is longer than the clock has run, the
      difference wraps, and every allocation of a time before it is. */
  ghost predicate Reported(info: Info, now: u64, minAge: u64, stack: u64) {
    && info.stackId >= 0 && info.stackId == stack
    && if minAge <= now then info.timestamp + minAge <= now
       else info.timestamp <= now + 0x1_0000_0000_0000_0000 - minAge
  }

  lemma KeptIffReported(info: Info, now: u64, minAge: u64, stack: u64)
    ensures Kept(info, now, minAge) && info.stackId == stack <==> Reported(info, now, minAge, stack)
  {
  }

  /** The list of a stack holds exactly the reported ones of its allocations, each once,
      whatever the order of the keys. */
  lemma {:induction false} NodesAreReported(keys: seq<u64>, allocs: map<u64, Info>, now: nat -> u64, minAge: u64,
                                           stack: u64)
    requires forall i :: 0 <= i < |keys| ==> keys[i] in allocs
    requires forall i, j :: 0 <= i < j < |keys| ==> keys[i] != keys[j]
    ensures ListsReported(StackNodes(keys, allocs, now, minAge, stack), keys, allocs, now, minAge, stack)
    decreases |keys|
  {
    hide Kept, Reported, ListsReported;
    if keys == [] {
      NoneToList(allocs, now, minAge, stack);
    } else {
      var n := |keys| - 1;
      NodesAreReported(keys[..n], allocs, now, minAge, stack);
      KeptIffReported(allocs[keys[n]], now(n), minAge, stack);
      var before := StackNodes(keys[..n], allocs, now, minAge, stack);
      ListsNext(before, keys, allocs, now, minAge, stack);
      assert [] + before == before;
    }
  }

  /** `nodes` are exactly the reported allocations of the stack, each once. */
  ghost predicate ListsReported(nodes: seq<Node>, keys: seq<u64>, allocs: map<u64, Info>, now: nat -> u64, minAge: u64,
                                stack: u64)
    requires forall i :: 0 <= i < |keys| ==> keys[i] in allocs
  {
    && (forall i :: 0 <= i < |keys| ==>
          (Node(keys[i], allocs[keys[i]].size) in nodes <==> Reported(allocs[keys[i]], now(i), minAge, stack)))
    && (forall a :: 0 <= a < |nodes| ==>
          nodes[a].address in keys && nodes[a].size == allocs[nodes[a].address].size)
    && forall a, b :: 0 <= a < b < |nodes| ==> nodes[a].address != nodes[b].address
  }

  lemma NoneToList(allocs: map<u64, Info>, now: nat -> u64, minAge: u64, stack: u64)
    ensures ListsReported([], [], allocs, now, minAge, stack)
  {
  }

  lemma ListsNext(before: seq<Node>, keys: seq<u64>, allocs: map<u64, Info>, now: nat -> u64, minAge: u64, stack: u64)
    requires keys != [] && forall i :: 0 <= i < |keys| ==> keys[i] in allocs
    requires forall i, j :: 0 <= i < j < |keys| ==> keys[i] != keys[j]
    requires ListsReported(before, keys[..|keys| - 1], allocs, now, minAge, stack)
    ensures var n := |keys| - 1;
            var node := Node(keys[n], allocs[keys[n]].size);
            var nodes := if Reported(allocs[keys[n]], now(n), minAge, stack) then [node] + before else before;
            ListsReported(nodes, keys, allocs, now, minAge, stack)
  {
    hide Reported;
    var n := |keys| - 1;
    var prefix, node := keys[..n], Node(keys[n], allocs[keys[n]].size);
    var nodes := if Reported(allocs[keys[n]], now(n), minAge, stack) then [node] + before else before;
    assert forall a :: 0 <= a < |before| ==> before[a].address in prefix && before[a].address != keys[n];
    forall i | 0 <= i < |keys|
      ensures Node(keys[i], allocs[keys[i]].size) in nodes <==> Reported(allocs[keys[i]], now(i), minAge, stack)
    {
      if i < n {
        assert keys[i] == prefix[i] && keys[i] != keys[n];
        assert Node(keys[i], allocs[keys[i]].size) in before <==> Reported(allocs[keys[i]], now(i), minAge, stack);
      }
    }
    KeepsListed(before, node, keys, allocs);
  }

  lemma KeepsListed(before: seq<Node>, node: Node, keys: seq<u64>, allocs: map<u64, Info>)
    requires node.address in keys && forall i :: 0 <= i < |keys| ==> keys[i] in allocs
    requires forall a :: 0 <= a < |before| ==>
               before[a].address in keys && before[a].size == allocs[before[a].address].size
               && before[a].address != node.address
    requires forall a, b :: 0 <= a < b < |before| ==> before[a].address != before[b].address
    requires node.size == allocs[node.address].size
    ensures var nodes := [node] + before;
            && (forall a :: 0 <= a < |nodes| ==>
                  nodes[a].address in keys && nodes[a].size == allocs[nodes[a].address].size)
            && forall a, b :: 0 <= a < b < |nodes| ==> nodes[a].address != nodes[b].address
  {
  }

  function NodeSizes(nodes: seq<Node>): nat {
    if nodes == [] then 0 else nodes[0].size + NodeSizes(nodes[1..])
  }

  /** The list of a stack holds its allocations: as many as counted, with sizes that
      add up to its total, each a live allocation of that stack. */
  lemma {:induction false} NodesAreAllocations(keys: seq<u64>, allocs: map<u64, Info>, now: nat -> u64, minAge: u64,
                                              stack: u64)
    requires forall i :: 0 <= i < |keys| ==> keys[i] in allocs
    ensures var nodes := StackNodes(keys, allocs, now, minAge, stack);
            && |nodes| == StackCount(keys, allocs, now, minAge, stack)
            && NodeSizes(nodes) == StackSize(keys, allocs, now, minAge, stack)
            && forall x :: x in nodes ==>
                 x.address in keys && allocs[x.address].size == x.size && allocs[x.address].stackId == stack
    decreases |keys|
  {
    hide Kept;
    if keys != [] {
      var n := |keys| - 1;
      NodesAreAllocations(keys[..n], allocs, now, minAge, stack);
      var rest := StackNodes(keys[..n], allocs, now, minAge, stack);
      var nodes := StackNodes(keys, allocs, now, minAge, stack);
      if Kept(allocs[keys[n]], now(n), minAge) && allocs[keys[n]].stackId == stack {
        assert nodes[1..] == rest;
      } else {
        assert nodes == rest;
      }
    }
  }

  /** One entry per stack. */
  ghost predicate OnePerStack(table: seq<Allocation>) {
    forall i, j :: 0 <= i < j < |table| ==> table[i].stackId != table[j].stackId
  }

  /** The entry of a stack, if it has one. */
  function EntryFor(table: seq<Allocation>, stack: u64): (r: Option<Allocation>)
    ensures r.Some? ==> r.value in table && r.value.stackId == stack
    ensures r.None? ==> forall i :: 0 <= i < |table| ==> table[i].stackId != stack
  {
    if table == [] then None
    else if table[0].stackId == stack then Some(table[0])
    else EntryFor(table[1..], stack)
  }

  lemma {:induction false} AddToEntries(table: seq<Allocation>, address: u64, info: Info, show: bool, stack: u64)
    requires info.stackId >= 0
    ensures var was := EntryFor(table, stack);
            EntryFor(AddTo(table, address, info, show), stack)
            == if stack != info.stackId then was
               else if was.None? then Some(Allocation(stack, info.size, 1, Noted(address, info, show)))
               else Some(More(was.value, address, info, show))
  {
    hide Wrap, Noted;
    if table != [] {
      AddToEntries(table[1..], address, info, show, stack);
      if table[0].stackId != info.stackId {
        assert AddTo(table, address, info, show)[1..] == AddTo(table[1..], address, info, show);
      } else {
        assert AddTo(table, address, info, show)[1..] == table[1..];
      }
    }
  }

  lemma AddToKeepsOnePerStack(table: seq<Allocation>, address: u64, info: Info, show: bool)
    requires info.stackId >= 0 && OnePerStack(table)
    ensures OnePerStack(AddTo(table, address, info, show)) && |AddTo(table, address, info, show)| <= |table| + 1
  {
    hide AddTo, Noted;
    if i :| 0 <= i < |table| && table[i].stackId == info.stackId {
      AddToAt(table, address, info, show, i);
    } else {
      AddToEnd(table, address, info, show);
    }
  }

  lemma {:induction false} GroupedShape(keys: seq<u64>, allocs: map<u64, Info>, now: nat -> u64, minAge: u64,
                                       show: bool)
    requires forall i :: 0 <= i < |keys| ==> keys[i] in allocs
    ensures OnePerStack(Grouped(keys, allocs, now, minAge, show))
    ensures |Grouped(keys, allocs, now, minAge, show)| <= |keys|
    decreases |keys|
  {
    hide AddTo, OnePerStack, Kept;
    if keys == [] {
      EmptyTable();
    } else {
      var n := |keys| - 1;
      var info := allocs[keys[n]];
      GroupedShape(keys[..n], allocs, now, minAge, show);
      KeptHasStack(info, now(n), minAge);
      if Kept(info, now(n), minAge) {
        AddToKeepsOnePerStack(Grouped(keys[..n], allocs, now, minAge, show), keys[n], info, show);
      }
    }
  }

  lemma EmptyTable()
    ensures OnePerStack([])
  {
  }

  lemma KeptHasStack(info: Info, now: u64, minAge: u64)
    ensures Kept(info, now, minAge) ==> info.stackId >= 0
  {
  }

  /** The entry of a stack in the grouped table: none when it has no reported allocation,
      and otherwise their number, their total size modulo 2^64, and with `--show-allocs`
      the allocations themselves. */
  lemma GroupedIsReported(keys: seq<u64>, allocs: map<u64, Info>, now: nat -> u64, minAge: u64, show: bool, stack: u64)
    returns (nodes: seq<Node>)
    requires forall i :: 0 <= i < |keys| ==> keys[i] in allocs
    requires forall i, j :: 0 <= i < j < |keys| ==> keys[i] != keys[j]
    requires |keys| <= ALLOCS_MAX
    ensures ListsReported(nodes, keys, allocs, now, minAge, stack) && |nodes| <= |keys|
    ensures EntryFor(Grouped(keys, allocs, now, minAge, show), stack)
         == if nodes == [] then None
            else Some(Allocation(stack, NodeSizes(nodes) % 0x1_0000_0000_0000_0000, |nodes|,
                                 if show then nodes else []))
  {
    hide ListsReported, EntryFor, Grouped, StackNodes, StackCount, StackSize, OnePerStack, Kept;
    nodes := StackNodes(keys, allocs, now, minAge, stack);
    NodesAreReported(keys, allocs, now, minAge, stack);
    NodesAreAllocations(keys, allocs, now, minAge, stack);
    GroupedIsSum(keys, allocs, now, minAge, show, stack);
  }

  /** The entry of a stack with the given totals, if it has any allocation. */
  function EntryOf(stack: u64, size: nat, count: u64, nodes: seq<Node>): Option<Allocation> {
    if count == 0 then None else Some(Allocation(stack, Wrap(size), count, nodes))
  }

  lemma EntryGrows(table: seq<Allocation>, address: u64, info: Info, show: bool, stack: u64, size: nat, count: nat,
                   nodes: seq<Node>)
    requires info.stackId == stack && count < U64_MAX
    requires EntryFor(table, stack) == EntryOf(stack, size, count, nodes)
    requires count == 0 ==> size == 0 && nodes == []
    ensures EntryFor(AddTo(table, address, info, show), stack)
         == EntryOf(stack, size + info.size, count + 1, Noted(address, info, show) + nodes)
  {
    hide AddTo, EntryFor, Wrap, Noted;
    AddToEntries(table, address, info, show, stack);
    WrapAdd(size, info.size);
    WrapSmall(info.size);
    WrapSmall(count + 1);
    assert nodes == [] ==> Noted(address, info, show) + nodes == Noted(address, info, show);
  }

  /** What the list of a stack's entry holds. */
  function ListedNodes(keys: seq<u64>, allocs: map<u64, Info>, now: nat -> u64, minAge: u64, show: bool, stack: u64)
    : seq<Node>
    requires forall i :: 0 <= i < |keys| ==> keys[i] in allocs
  {
    if show then StackNodes(keys, allocs, now, minAge, stack) else []
  }

  lemma ListedSnoc(keys: seq<u64>, allocs: map<u64, Info>, now: nat -> u64, minAge: u64, show: bool, stack: u64)
    requires forall i :: 0 <= i < |keys| ==> keys[i] in allocs
    requires keys != []
    ensures var n := |keys| - 1;
            var info, before := allocs[keys[n]], ListedNodes(keys[..n], allocs, now, minAge, show, stack);
            ListedNodes(keys, allocs, now, minAge, show, stack)
            == if Kept(info, now(n), minAge) && info.stackId == stack then Noted(keys[n], info, show) + before
               else before
  {
    hide Kept;
  }

  /** The grouped table has one entry for each stack with a kept allocation, holding
      their exact size, modulo 2^64, their number, and with `--show-allocs` all of them. */
  lemma {:induction false} GroupedIsSum(keys: seq<u64>, allocs: map<u64, Info>, now: nat -> u64, minAge: u64,
                                       show: bool, stack: u64)
    requires forall i :: 0 <= i < |keys| ==> keys[i] in allocs
    requires |keys| <= ALLOCS_MAX
    ensures var t := Grouped(keys, allocs, now, minAge, show);
            var size := StackSize(keys, allocs, now, minAge, stack);
            var count := StackCount(keys, allocs, now, minAge, stack);
            var nodes := ListedNodes(keys, allocs, now, minAge, show, stack);
            && OnePerStack(t)
            && count <= |keys|
            && (count == 0 ==> size == 0 && nodes == [])
            && EntryFor(t, stack) == EntryOf(stack, size, count, nodes)
    decreases |keys|
  {
    hide AddTo, OnePerStack, Kept, Wrap, EntryFor, EntryOf, ListedNodes, Noted;
    GroupedShape(keys, allocs, now, minAge, show);
    if keys == [] {
      NoEntry(allocs, now, minAge, show, stack);
    } else {
      var n := |keys| - 1;
      var info := allocs[keys[n]];
      GroupedIsSum(keys[..n], allocs, now, minAge, show, stack);
      KeptHasStack(info, now(n), minAge);
      ListedSnoc(keys, allocs, now, minAge, show, stack);
      if Kept(info, now(n), minAge) {
        var before := Grouped(keys[..n], allocs, now, minAge, show);
        if info.stackId == stack {
          EntryGrows(before, keys[n], info, show, stack, StackSize(keys[..n], allocs, now, minAge, stack),
                     StackCount(keys[..n], allocs, now, minAge, stack),
                     ListedNodes(keys[..n], allocs, now, minAge, show, stack));
        } else {
          AddToEntries(before, keys[n], info, show, stack);
        }
      }
    }
  }

  lemma NoEntry(allocs: map<u64, Info>, now: nat -> u64, minAge: u64, show: bool, stack: u64)
    ensures ListedNodes([], allocs, now, minAge, show, stack) == []
    ensures EntryFor([], stack) == EntryOf(stack, 0, 0, [])
  {
  }

  lemma WrapSmall(x: int)
    requires 0 <= x <= U64_MAX
    ensures Wrap(x) == x
  {
  }

  // ---------------------------------------------------------------------
  // Sorting and cutting

  ghost predicate Descending(s: seq<Allocation>) {
    forall i, j :: 0 <= i < j < |s| ==> s[i].size >= s[j].size
  }

  /** `qsort` with `alloc_size_compare`: any descending permutation. */
  ghost predicate IsSort(sort: seq<Allocation> -> seq<Allocation>) {
    forall s :: multiset(sort(s)) == multiset(s) && Descending(sort(s))
  }

  /** `clamp_to_top_stacks`. */
  function Clamp(count: nat, topStacks: int): (n: nat)
    ensures n <= count
    ensures topStacks <= 0 ==> n == 0
    ensures topStacks > 0 ==> n <= topStacks && (n < count ==> n == topStacks)
  {
    if topStacks <= 0 then 0 else if count < topStacks then count else topStacks
  }

  function Shown(sort: seq<Allocation> -> seq<Allocation>, table: seq<Allocation>, topStacks: int): seq<Allocation>
  {
    var sorted := sort(table);
    sorted[..Clamp(|sorted|, topStacks)]
  }

  /** What is shown are top entries of the table: none left out is larger. */
  lemma ShownAreLargest(sort: seq<Allocation> -> seq<Allocation>, table: seq<Allocation>, topStacks: int)
    requires IsSort(sort)
    ensures var shown := Shown(sort, table, topStacks);
            && multiset(shown) <= multiset(table)
            && |shown| == (if topStacks <= 0 then 0 else if |table| < topStacks then |table| else topStacks)
            && Descending(shown)
            && forall x, y :: x in shown && y in multiset(table) - multiset(shown) ==> x.size >= y.size
  {
    var sorted := sort(table);
    var n := Clamp(|sorted|, topStacks);
    assert |multiset(sorted)| == |multiset(table)|;
    assert sorted == sorted[..n] + sorted[n..];
    assert multiset(table) - multiset(sorted[..n]) == multiset(sorted[n..]);
    TopOfSorted(sorted, n);
    hide IsSort, Descending;
    assert forall y :: y in multiset(sorted[n..]) ==> y in sorted[n..];
  }

  lemma TopOfSorted(sorted: seq<Allocation>, n: nat)
    requires Descending(sorted) && n <= |sorted|
    ensures forall x, y :: x in sorted[..n] && y in sorted[n..] ==> x.size >= y.size
    ensures Descending(sorted[..n])
  {
    forall x, y | x in sorted[..n] && y in sorted[n..] ensures x.size >= y.size {
      var i :| 0 <= i < n && sorted[i] == x;
      var j :| 0 <= j < |sorted| - n && sorted[n..][j] == y;
      assert sorted[n + j] == y;
    }
  }

  /** An entry after the report: its stack forgotten and its list freed. */
  function Reset(entry: Allocation, show: bool): Allocation {
    entry.(stackId := 0, nodes := if show then [] else entry.nodes)
  }

  /** `qsort` of the first `n` entries in place. */
  method SortTable(table: array<Allocation>, n: nat, sort: seq<Allocation> -> seq<Allocation>)
    requires n <= table.Length && IsSort(sort)
    modifies table
    ensures |sort(old(table[..n]))| == n
    ensures table[..] == sort(old(table[..n])) + old(table[n..])
  {
    var sorted := sort(table[..n]);
    assert |multiset(sorted)| == |multiset(table[..n])|;
    forall i | 0 <= i < n {
      table[i] := sorted[i];
    }
    assert table[n..] == old(table[n..]);
  }

  /** The loop that resets the entries of the finished report. */
  method ResetTable(table: array<Allocation>, n: nat, show: bool)
    requires n <= table.Length
    modifies table
    ensures forall i :: 0 <= i < n ==> table[i] == Reset(old(table[i]), show)
    ensures forall i :: n <= i < table.Length ==> table[i] == old(table[i])
  {
    for i := 0 to n
      invariant forall j :: 0 <= j < i ==> table[j] == Reset(old(table[j]), show)
      invariant forall j :: i <= j < table.Length ==> table[j] == old(table[j])
    {
      table[i] := table[i].(stackId := 0);
      if show {
        table[i] := table[i].(nodes := []);
      }
    }
  }

  /** `print_outstanding_allocs`, up to what it prints for each stack. */
  method OutstandingAllocs(order: seq<u64>, allocs: map<u64, Info>, now: nat -> u64, minAge: u64, show: bool,
                           topStacks: int, table: array<Allocation>, sort: seq<Allocation> -> seq<Allocation>)
    returns (shown: seq<Allocation>)
    requires Enumerates(order, allocs) && |order| <= table.Length && |order| <= ALLOCS_MAX
    requires IsSort(sort)
    modifies table
    ensures forall i :: 0 <= i < |Visited(order)| ==> Visited(order)[i] in allocs
    ensures var groups := Grouped(Visited(order), allocs, now, minAge, show);
            && shown == Shown(sort, groups, topStacks)
            && |sort(groups)| == |groups| <= table.Length
            && (forall i :: 0 <= i < |groups| ==>
                  table[i] == sort(groups)[i].(stackId := 0, nodes := if show then [] else sort(groups)[i].nodes))
            && forall i :: |groups| <= i < table.Length ==> table[i] == old(table[i])
  {
    hide Visited, Grouped, IsSort;
    var nrAllocs := GroupLive(order, allocs, now, minAge, show, table);
    ghost var groups := table[..nrAllocs];
    assert groups == Grouped(Visited(order), allocs, now, minAge, show);
    SortTable(table, nrAllocs, sort);
    assert table[..nrAllocs] == sort(groups);
    shown := table[..Clamp(nrAllocs, topStacks)];
    assert shown == sort(groups)[..Clamp(nrAllocs, topStacks)];
    ResetTable(table, nrAllocs, show);
  }

  /** The walk over the live allocations, which fills the table. */
  method GroupLive(order: seq<u64>, allocs: map<u64, Info>, now: nat -> u64, minAge: u64, show: bool,
                   table: array<Allocation>)
    returns (nrAllocs: nat)
    requires Enumerates(order, allocs) && |order| <= table.Length && |order| <= ALLOCS_MAX
    modifies table
    ensures forall i :: 0 <= i < |Visited(order)| ==> Visited(order)[i] in allocs
    ensures nrAllocs <= table.Length && table[..nrAllocs] == Grouped(Visited(order), allocs, now, minAge, show)
    ensures forall i :: nrAllocs <= i < table.Length ==> table[i] == old(table[i])
  {
    hide Visited, NextKey, Grouped, AddTo, VisitNumber;
    nrAllocs := 0;
    var prev: u64 := 0;
    ghost var keys := Visited(order);
    ghost var done := 0;
    VisitStart(order);
    NothingGrouped(allocs, now, minAge, show);
    while true
      invariant done <= |keys| <= |order| && nrAllocs <= done
      invariant forall i :: 0 <= i < |keys| ==> keys[i] in allocs
      invariant NextKey(order, prev) == if done < |keys| then Some(keys[done]) else None
      invariant table[..nrAllocs] == Grouped(keys[..done], allocs, now, minAge, show)
      invariant forall i :: nrAllocs <= i < table.Length ==> table[i] == old(table[i])
      decreases |keys| - done
    {
      var next := NextKey(order, prev);
      if next.None? {
        break;
      }
      var info := allocs[next.value];
      VisitStep(order, done);
      GroupedSnoc(keys, allocs, now, minAge, show, done);
      if Wrap(now(VisitNumber(order, next.value)) - minAge) >= info.timestamp && info.stackId >= 0 {
        nrAllocs := AddAllocation(table, nrAllocs, next.value, info, show);
      }
      prev := next.value;
      done := done + 1;
    }
    assert keys[..done] == keys;
  }

  /** With or without `--show-allocs`, a finished report leaves no list behind. */
  lemma ReportLeavesNoLists(keys: seq<u64>, allocs: map<u64, Info>, now: nat -> u64, minAge: u64, show: bool,
                            sort: seq<Allocation> -> seq<Allocation>, i: nat)
    requires forall i :: 0 <= i < |keys| ==> keys[i] in allocs
    requires IsSort(sort) && i < |sort(Grouped(keys, allocs, now, minAge, show))|
    ensures Reset(sort(Grouped(keys, allocs, now, minAge, show))[i], show).nodes == []
  {
    var groups := Grouped(keys, allocs, now, minAge, show);
    if !show {
      NoneNoted(keys, allocs, now, minAge);
      assert sort(groups)[i] in multiset(groups);
    }
  }

  lemma {:induction false} NoneNoted(keys: seq<u64>, allocs: map<u64, Info>, now: nat -> u64, minAge: u64)
    requires forall i :: 0 <= i < |keys| ==> keys[i] in allocs
    ensures forall x :: x in Grouped(keys, allocs, now, minAge, false) ==> x.nodes == []
    decreases |keys|
  {
    hide Kept, AddTo;
    if keys != [] {
      var n := |keys| - 1;
      NoneNoted(keys[..n], allocs, now, minAge);
      KeptHasStack(allocs[keys[n]], now(n), minAge);
      if Kept(allocs[keys[n]], now(n), minAge) {
        AddToNotesNone(Grouped(keys[..n], allocs, now, minAge, false), keys[n], allocs[keys[n]]);
      }
    }
  }

  lemma {:induction false} AddToNotesNone(table: seq<Allocation>, address: u64, info: Info)
    requires info.stackId >= 0 && forall x :: x in table ==> x.nodes == []
    ensures forall x :: x in AddTo(table, address, info, false) ==> x.nodes == []
  {
    if table != [] {
      AddToNotesNone(table[1..], address, info);
    }
  }

  lemma NothingGrouped(allocs: map<u64, Info>, now: nat -> u64, minAge: u64, show: bool)
    ensures Grouped([], allocs, now, minAge, show) == []
  {
  }

  lemma GroupedSnoc(keys: seq<u64>, allocs: map<u64, Info>, now: nat -> u64, minAge: u64, show: bool, n: nat)
    requires n < |keys| && forall i :: 0 <= i < |keys| ==> keys[i] in allocs
    ensures var before, info := Grouped(keys[..n], allocs, now, minAge, show), allocs[keys[n]];
            Grouped(keys[..n + 1], allocs, now, minAge, show)
            == if Kept(info, now(n), minAge) then AddTo(before, keys[n], info, show) else before
  {
    assert keys[..n + 1][..n] == keys[..n];
  }

  /** How many keys the walk has passed before reaching `key`. */
  function VisitNumber(order: seq<u64>, key: u64): nat {
    IndexOf(Visited(order), key)
  }

  lemma VisitStart(order: seq<u64>)
    requires forall j, k :: 0 <= j < k < |order| ==> order[j] != order[k]
    ensures NextKey(order, 0) == if Visited(order) == [] then None else Some(Visited(order)[0])
    ensures |Visited(order)| <= |order|
    ensures forall i :: 0 <= i < |Visited(order)| ==> Visited(order)[i] in order
  {
  }

  lemma IndexIs(order: seq<u64>, i: nat)
    requires i < |order| && forall j :: 0 <= j < i ==> order[j] != order[i]
    ensures IndexOf(order, order[i]) == i
  {
    var k := IndexOf(order, order[i]);
  }

  /** A walk reaches the keys from some place on. */
  lemma VisitedIsSuffix(order: seq<u64>) returns (z: nat)
    ensures z <= |order| && Visited(order) == order[z..]
  {
    var i := IndexOf(order, 0);
    z := if i == |order| then 0 else i + 1;
    assert order[0..] == order;
  }

  lemma VisitStep(order: seq<u64>, i: nat)
    requires forall j, k :: 0 <= j < k < |order| ==> order[j] != order[k]
    requires i < |Visited(order)|
    ensures VisitNumber(order, Visited(order)[i]) == i
    ensures NextKey(order, Visited(order)[i]) == if i + 1 < |Visited(order)| then Some(Visited(order)[i + 1]) else None
  {
    hide Visited, IndexOf, NextKey;
    var z := VisitedIsSuffix(order);
    var v := Visited(order);
    NextAfter(order, z + i);
    assert forall j :: 0 <= j < i ==> v[j] == order[z + j];
    IndexIs(v, i);
  }

  /** The inner loop: find the stack's entry and add to it, or append one. */
  method AddAllocation(table: array<Allocation>, nrAllocs: nat, address: u64, info: Info, show: bool) returns (n: nat)
    requires nrAllocs < table.Length && info.stackId >= 0
    modifies table
    ensures nrAllocs <= n <= nrAllocs + 1
    ensures table[..n] == AddTo(old(table[..nrAllocs]), address, info, show)
    ensures forall i :: n <= i < table.Length ==> table[i] == old(table[i])
  {
    hide More;
    var i := 0;
    while i < nrAllocs
      invariant i <= nrAllocs && table[..] == old(table[..])
      invariant forall j :: 0 <= j < i ==> table[j].stackId != info.stackId
    {
      if table[i].stackId == info.stackId {
        AddToAt(table[..nrAllocs], address, info, show, i);
        Enlarge(table, i, address, info, show);
        return nrAllocs;
      }
      i := i + 1;
    }
    AddToEnd(table[..nrAllocs], address, info, show);
    table[nrAllocs] := Allocation(info.stackId, info.size, 1, if show then [Node(address, info.size)] else []);
    n := nrAllocs + 1;
  }

  /** An existing entry grows, its list from the front. */
  method Enlarge(table: array<Allocation>, i: nat, address: u64, info: Info, show: bool)
    requires i < table.Length
    modifies table
    ensures table[..] == old(table[..])[i := More(old(table[i]), address, info, show)]
  {
    assert [] + table[i].nodes == table[i].nodes;
    table[i] := table[i].(size := Wrap(table[i].size + info.size), count := Wrap(table[i].count + 1));
    if show {
      table[i] := table[i].(nodes := [Node(address, info.size)] + table[i].nodes);
    }
  }

  lemma {:induction false} AddToAt(table: seq<Allocation>, address: u64, info: Info, show: bool, i: nat)
    requires info.stackId >= 0 && i < |table| && table[i].stackId == info.stackId
    requires forall j :: 0 <= j < i ==> table[j].stackId != info.stackId
    ensures AddTo(table, address, info, show) == table[i := More(table[i], address, info, show)]
  {
    hide More;
    if i > 0 {
      assert table[1..][i - 1] == table[i];
      AddToAt(table[1..], address, info, show, i - 1);
    }
  }

  lemma {:induction false} AddToEnd(table: seq<Allocation>, address: u64, info: Info, show: bool)
    requires info.stackId >= 0
    requires forall j :: 0 <= j < |table| ==> table[j].stackId != info.stackId
    ensures AddTo(table, address, info, show)
         == table + [Allocation(info.stackId, info.size, 1, Noted(address, info, show))]
  {
    if table != [] {
      AddToEnd(table[1..], address, info, show);
    }
  }

  // ---------------------------------------------------------------------
  // The combined report

  function Unpacked(key: u64, bits: u64): Allocation {
    Allocation(key, SizeOf(bits), CountOf(bits), [])
  }

  /** One entry for each visited summary. */
  function Combined(keys: seq<u64>, combined: map<u64, u64>): (t: seq<Allocation>)
    requires forall i :: 0 <= i < |keys| ==> keys[i] in combined
    ensures |t| == |keys|
    ensures forall i :: 0 <= i < |keys| ==> t[i] == Unpacked(keys[i], combined[keys[i]])
  {
    seq(|keys|, i requires 0 <= i < |keys| => Unpacked(keys[i], combined[keys[i]]))
  }

  lemma CombinedSnoc(keys: seq<u64>, combined: map<u64, u64>, n: nat)
    requires n < |keys| && forall i :: 0 <= i < |keys| ==> keys[i] in combined
    ensures Combined(keys[..n + 1], combined)
         == Combined(keys[..n], combined) + [Unpacked(keys[n], combined[keys[n]])]
  {
  }

  /** The walk over the summaries, which fills the table. */
  method ListSummaries(order: seq<u64>, combined: map<u64, u64>, table: array<Allocation>) returns (nrAllocs: nat)
    requires Enumerates(order, combined) && |order| <= table.Length
    modifies table
    ensures forall i :: 0 <= i < |Visited(order)| ==> Visited(order)[i] in combined
    ensures nrAllocs <= table.Length && table[..nrAllocs] == Combined(Visited(order), combined)
    ensures table[nrAllocs..] == old(table[nrAllocs..])
  {
    hide Visited, NextKey, VisitNumber, Unpacked;
    nrAllocs := 0;
    var prev: u64 := 0;
    ghost var keys := Visited(order);
    VisitStart(order);
    while true
      invariant nrAllocs <= |keys| <= table.Length
      invariant forall i :: 0 <= i < |keys| ==> keys[i] in combined
      invariant NextKey(order, prev) == if nrAllocs < |keys| then Some(keys[nrAllocs]) else None
      invariant table[..nrAllocs] == Combined(keys[..nrAllocs], combined)
      invariant forall i :: nrAllocs <= i < table.Length ==> table[i] == old(table[i])
      decreases |keys| - nrAllocs
    {
      var next := NextKey(order, prev);
      if next.None? {
        break;
      }
      VisitStep(order, nrAllocs);
      CombinedSnoc(keys, combined, nrAllocs);
      table[nrAllocs] := Unpacked(next.value, combined[next.value]);
      assert table[..nrAllocs + 1] == table[..nrAllocs] + [table[nrAllocs]];
      prev := next.value;
      nrAllocs := nrAllocs + 1;
    }
    assert keys[..nrAllocs] == keys;
  }

  /** `print_outstanding_combined_allocs`, up to what it prints for each stack; this
      report leaves its sorted entries in the table. */
  method OutstandingCombined(order: seq<u64>, combined: map<u64, u64>, topStacks: int, table: array<Allocation>,
                             sort: seq<Allocation> -> seq<Allocation>)
    returns (shown: seq<Allocation>)
    requires Enumerates(order, combined) && |order| <= table.Length
    requires IsSort(sort)
    modifies table
    ensures forall i :: 0 <= i < |Visited(order)| ==> Visited(order)[i] in combined
    ensures var summaries := Combined(Visited(order), combined);
            && shown == Shown(sort, summaries, topStacks)
            && |sort(summaries)| == |summaries| <= table.Length
            && table[..] == sort(summaries) + old(table[|summaries|..])
  {
    hide Visited, Combined, IsSort, Enumerates;
    var nrAllocs := ListSummaries(order, combined, table);
    ghost var summaries := table[..nrAllocs];
    assert summaries == Combined(Visited(order), combined);
    SortTable(table, nrAllocs, sort);
    assert table[..nrAllocs] == sort(summaries);
    shown := table[..Clamp(nrAllocs, topStacks)];
    assert shown == sort(summaries)[..Clamp(nrAllocs, topStacks)];
  }

  // ---------------------------------------------------------------------
  // The two reports agree

  /** No entry is too young, and every allocation has a stack. */
  ghost predicate NoneFiltered(order: seq<u64>, allocs: map<u64, Info>, now: nat -> u64, minAge: u64) {
    forall i, k :: 0 <= i < |order| && k in allocs ==> Kept(allocs[k], now(i), minAge)
  }

  /** The packed sum over a map is the packed sum of what the walk groups. */
  lemma {:induction false} LiveIsStackTotals(order: seq<u64>, allocs: map<u64, Info>, now: nat -> u64, minAge: u64,
                                            key: u64)
    requires Enumerates(order, allocs) && NoneFiltered(order, allocs, now, minAge)
    requires StackSize(order, allocs, now, minAge, key) < SIZE_LIMIT
    ensures Total(allocs, LiveWeight(key))
         == StackSize(order, allocs, now, minAge, key) + 0x100_0000_0000 * StackCount(order, allocs, now, minAge, key)
    decreases |order|
  {
    hide Total;
    if order == [] {
      TotalEmpty(allocs, LiveWeight(key));
    } else {
      var n := |order| - 1;
      var last := order[n];
      var rest := allocs - {last};
      TotalRemove(allocs, LiveWeight(key), last);
      assert Enumerates(order[..n], rest);
      SameTotals(order[..n], allocs, rest, now, minAge, key);
      LiveIsStackTotals(order[..n], rest, now, minAge, key);
      assert allocs[last].stackId >= 0 by {
        assert Kept(allocs[last], now(n), minAge);
      }
    }
  }

  lemma {:induction false} SameTotals(keys: seq<u64>, allocs: map<u64, Info>, allocs': map<u64, Info>, now: nat -> u64,
                                     minAge: u64, stack: u64)
    requires forall i :: 0 <= i < |keys| ==>
               keys[i] in allocs && keys[i] in allocs' && allocs[keys[i]] == allocs'[keys[i]]
    ensures StackSize(keys, allocs, now, minAge, stack) == StackSize(keys, allocs', now, minAge, stack)
    ensures StackCount(keys, allocs, now, minAge, stack) == StackCount(keys, allocs', now, minAge, stack)
    decreases |keys|
  {
    if keys != [] {
      SameTotals(keys[..|keys| - 1], allocs, allocs', now, minAge, stack);
    }
  }

  /** The two reports' entries of a stack agree: same size and number, or no
      allocation at all. */
  predicate SameEntry(grouped: Option<Allocation>, summary: Option<Allocation>, stack: u64) {
    match grouped
    case Some(e) => summary == Some(e.(nodes := []))
    case None => summary.None? || summary == Some(Allocation(stack, 0, 0, []))
  }

  /** With nothing filtered by a limit the clock has reached, no allocation is younger
      than it and none without a stack. */
  lemma NoneFilteredIff(order: seq<u64>, allocs: map<u64, Info>, now: nat -> u64, minAge: u64)
    requires forall i :: 0 <= i < |order| ==> minAge <= now(i)
    ensures NoneFiltered(order, allocs, now, minAge)
       <==> forall i, k :: 0 <= i < |order| && k in allocs ==>
              allocs[k].stackId >= 0 && allocs[k].timestamp + minAge <= now(i)
  {
  }

  /** When no handler is under way, nothing is filtered, 0 is no key of either map
      and the totals fit their fields, both reports hold the same entry for every
      stack that still has allocations, and the summaries' others count none. */
  lemma ReportsAgree(steps: seq<Step>, allocOrder: seq<u64>, stackOrder: seq<u64>, now: nat -> u64, minAge: u64,
                     show: bool, stack: u64)
    requires Guarded(START, steps) && Run(START, steps).pending == map[]
    requires var s := Run(START, steps);
             && Enumerates(allocOrder, s.allocs) && Enumerates(stackOrder, s.combined)
             && NoneFiltered(allocOrder, s.allocs, now, minAge)
             && 0 !in s.combined
             && StackSize(allocOrder, s.allocs, now, minAge, stack) < SIZE_LIMIT
    ensures var s := Run(START, steps);
            var groups, summaries := Grouped(Visited(allocOrder), s.allocs, now, minAge, show),
                                     Combined(Visited(stackOrder), s.combined);
            SameEntry(EntryFor(groups, stack), EntryFor(summaries, stack), stack)
  {
    hide Guarded, Run, Visited, Enumerates, NoneFiltered, Grouped, Combined, StackSize, EntryFor;
    RunKeepsBounds(START, steps);
    OrderLength(allocOrder, Run(START, steps).allocs);
    SummariesAgreeWhenIdle(steps, stack);
    VisitedAll(allocOrder, Run(START, steps).allocs);
    VisitedAll(stackOrder, Run(START, steps).combined);
    StackAgrees(Run(START, steps), allocOrder, stackOrder, now, minAge, show, stack);
  }

  /** An enumeration is as long as its map. */
  lemma {:induction false} OrderLength<V>(order: seq<u64>, m: map<u64, V>)
    requires Enumerates(order, m)
    ensures |order| == |m|
    decreases |order|
  {
    if order == [] {
      assert m.Keys == {};
    } else {
      var n := |order| - 1;
      var rest := m - {order[n]};
      assert Enumerates(order[..n], rest);
      OrderLength(order[..n], rest);
      assert m.Keys == rest.Keys + {order[n]};
    }
  }

  lemma VisitedAll<V>(order: seq<u64>, m: map<u64, V>)
    requires Enumerates(order, m) && 0 !in m
    ensures Visited(order) == order
    ensures forall i :: 0 <= i < |order| ==> order[i] in m
  {
    VisitsAllIffNoZero(order);
  }

  /** The two entries of one stack, when its summary is its packed live sum. */
  lemma StackAgrees(s: State, allocOrder: seq<u64>, stackOrder: seq<u64>, now: nat -> u64, minAge: u64, show: bool,
                    stack: u64)
    requires Enumerates(allocOrder, s.allocs) && Enumerates(stackOrder, s.combined)
    requires NoneFiltered(allocOrder, s.allocs, now, minAge) && |allocOrder| <= ALLOCS_MAX
    requires StackSize(allocOrder, s.allocs, now, minAge, stack) < SIZE_LIMIT
    requires Summary(s, stack) == Wrap(Live(s, stack))
    ensures SameEntry(EntryFor(Grouped(allocOrder, s.allocs, now, minAge, show), stack),
                      EntryFor(Combined(stackOrder, s.combined), stack), stack)
  {
    AllKeys(allocOrder, s.allocs);
    AllKeys(stackOrder, s.combined);
    hide NoneFiltered, Grouped, Combined, StackSize, EntryFor, Enumerates;
    hide Unpacked, Summary, Live, Wrap, SameEntry;
    var grouped := GroupAgrees(s, allocOrder, now, minAge, show, stack);
    SummaryEntry(stackOrder, s, stack);
  }

  /** The grouped entry agrees with the unpacked summary, if there is one. */
  lemma GroupAgrees(s: State, order: seq<u64>, now: nat -> u64, minAge: u64, show: bool, stack: u64)
    returns (grouped: Option<Allocation>)
    requires Enumerates(order, s.allocs)
    requires forall i :: 0 <= i < |order| ==> order[i] in s.allocs
    requires NoneFiltered(order, s.allocs, now, minAge) && |order| <= ALLOCS_MAX
    requires StackSize(order, s.allocs, now, minAge, stack) < SIZE_LIMIT
    requires Summary(s, stack) == Wrap(Live(s, stack))
    ensures grouped == EntryFor(Grouped(order, s.allocs, now, minAge, show), stack)
    ensures SameEntry(grouped, Some(Unpacked(stack, Summary(s, stack))), stack)
    ensures Summary(s, stack) == 0 ==> SameEntry(grouped, None, stack)
  {
    hide NoneFiltered, Grouped, StackSize, StackCount, ListedNodes, EntryFor, EntryOf, Enumerates, OnePerStack;
    hide Unpacked, Summary, Live, Wrap, Kept, SameEntry;
    SummaryIsTotals(s, order, now, minAge, stack);
    GroupedIsSum(order, s.allocs, now, minAge, show, stack);
    var size, count := StackSize(order, s.allocs, now, minAge, stack), StackCount(order, s.allocs, now, minAge, stack);
    var nodes := ListedNodes(order, s.allocs, now, minAge, show, stack);
    grouped := EntryOf(stack, size, count, nodes);
    WordAgrees(Summary(s, stack), size, count, stack, nodes);
  }

  lemma SummaryIsTotals(s: State, order: seq<u64>, now: nat -> u64, minAge: u64, stack: u64)
    requires Enumerates(order, s.allocs) && NoneFiltered(order, s.allocs, now, minAge)
    requires StackSize(order, s.allocs, now, minAge, stack) < SIZE_LIMIT
    requires Summary(s, stack) == Wrap(Live(s, stack))
    ensures Summary(s, stack) == Wrap(StackSize(order, s.allocs, now, minAge, stack)
                                      + 0x100_0000_0000 * StackCount(order, s.allocs, now, minAge, stack))
  {
    hide Total, Summary, Wrap, NoneFiltered, StackSize, StackCount;
    LiveIsStackTotals(order, s.allocs, now, minAge, stack);
  }

  lemma AllKeys<V>(order: seq<u64>, m: map<u64, V>)
    requires Enumerates(order, m)
    ensures forall i :: 0 <= i < |order| ==> order[i] in m
  {
  }

  /** A word that packs a stack's totals unpacks to its group entry, lists aside. */
  lemma WordAgrees(word: u64, size: nat, count: nat, stack: u64, nodes: seq<Node>)
    requires word == Wrap(size + 0x100_0000_0000 * count) && size < SIZE_LIMIT && count <= ALLOCS_MAX
    requires count == 0 ==> size == 0
    ensures SameEntry(EntryOf(stack, size, count, nodes), Some(Unpacked(stack, word)), stack)
    ensures word == 0 ==> SameEntry(EntryOf(stack, size, count, nodes), None, stack)
  {
    UnpackExact(size, count);
    WrapSmall(size);
    WrapSmall(size + 0x100_0000_0000 * count);
  }

  /** The summaries' entry of a stack unpacks its word. */
  lemma SummaryEntry(order: seq<u64>, s: State, stack: u64)
    requires Enumerates(order, s.combined)
    ensures EntryFor(Combined(order, s.combined), stack)
         == if stack in s.combined then Some(Unpacked(stack, Summary(s, stack))) else None
    ensures stack !in s.combined ==> Summary(s, stack) == 0
  {
    var t := Combined(order, s.combined);
    if stack in s.combined {
      var i :| 0 <= i < |order| && order[i] == stack;
      assert t[i].stackId == stack;
    }
  }
}
