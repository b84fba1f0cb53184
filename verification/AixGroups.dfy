/** Native event tables and group allocation of src/aix.c.  A POWER processor counts
    in groups: a group fixes one event for each counter, and events can be counted
    together only if one group has them all. */
module AixGroups {
  import opened Codes
  import opened Words

  // -------------------------------------------------------------- what is described

  /** An entry of the list of one counter, as the performance library gives it. */
  datatype Pmevent = Pmevent(name: string, id: int)

  /** A group and the event id it counts on each counter. */
  datatype Group = Group(id: nat, events: seq<int>)

  /** An entry of native_table; selector holds the counters the event can use,
      counterCmd its id on each, -1 elsewhere, and groups its bitmap of group ids. */
  datatype Native = Native(name: string, selector: set<nat>, counterCmd: seq<int>, groups: seq<Word32>)

  ghost predicate Named(list: seq<Pmevent>, name: string) {
    exists e :: 0 <= e < |list| && list[e].name == name
  }

  /** The id of the last entry with the name, -1 if there is none. */
  function IdIn(list: seq<Pmevent>, name: string): (id: int)
    ensures !Named(list, name) ==> id == -1
    ensures Named(list, name) ==>
      exists e ::
        && 0 <= e < |list| && list[e] == Pmevent(name, id)
        && forall f :: e < f < |list| ==> list[f].name != name
  {
    if list == [] then -1
    else
      var last := list[|list| - 1];
      if last.name == name then last.id else IdIn(list[..|list| - 1], name)
  }

  function CommandOf(lists: seq<seq<Pmevent>>, j: nat, name: string): int {
    if j < |lists| then IdIn(lists[j], name) else -1
  }

  ghost predicate NamedOn(lists: seq<seq<Pmevent>>, j: nat, name: string) {
    j < |lists| && Named(lists[j], name)
  }

  /** The entry says of every counter what the lists say of its name. */
  ghost predicate Describes(n: Native, lists: seq<seq<Pmevent>>, counters: nat) {
    && |n.counterCmd| == counters
    && (forall j :: 0 <= j < counters ==> n.counterCmd[j] == CommandOf(lists, j, n.name))
    && (forall j: nat :: j in n.selector <==> NamedOn(lists, j, n.name))
  }

  ghost predicate Covered(t: seq<Native>, name: string) {
    exists i :: 0 <= i < |t| && t[i].name == name
  }

  /** One entry for each name in the lists. */
  ghost predicate IsTable(t: seq<Native>, lists: seq<seq<Pmevent>>, counters: nat) {
    && (forall i, k :: 0 <= i < k < |t| ==> t[i].name != t[k].name)
    && (forall i :: 0 <= i < |t| ==> Describes(t[i], lists, counters))
    && (forall j: nat, name :: NamedOn(lists, j, name) ==> Covered(t, name))
  }

  // --------------------------------------------------------------- building the table

  /** The lists with one more entry for the last counter. */
  function Extended(lists: seq<seq<Pmevent>>, ev: Pmevent): (r: seq<seq<Pmevent>>)
    requires lists != []
  {
    lists[|lists| - 1 := lists[|lists| - 1] + [ev]]
  }

  lemma ExtendedNames(lists: seq<seq<Pmevent>>, ev: Pmevent, j: nat, name: string)
    requires lists != []
    ensures NamedOn(Extended(lists, ev), j, name)
       <==> NamedOn(lists, j, name) || (j == |lists| - 1 && name == ev.name)
    ensures CommandOf(Extended(lists, ev), j, name)
         == if j == |lists| - 1 && name == ev.name then ev.id else CommandOf(lists, j, name)
  {
    if j == |lists| - 1 {
      var l, l' := lists[j], lists[j] + [ev];
      assert l'[..|l'| - 1] == l && l'[|l'| - 1] == ev;
      if Named(l, name) {
        var e :| 0 <= e < |l| && l[e].name == name;
        assert l'[e].name == name;
      }
    }
  }

  function Blank(counters: nat): (c: seq<int>)
    ensures |c| == counters && forall j :: 0 <= j < counters ==> c[j] == -1
  {
    seq(counters, _ => -1)
  }

  function NoGroups(groupInts: nat): (m: seq<Word32>)
    ensures |m| == groupInts && forall i :: 0 <= i < groupInts ==> m[i] == {}
  {
    seq(groupInts, _ => {})
  }

  function WithCounter(n: Native, pmc: nat, id: int): Native
    requires pmc < |n.counterCmd|
  {
    n.(selector := n.selector + {pmc}, counterCmd := n.counterCmd[pmc := id])
  }

  /** An entry of the right name learns about the new list entry. */
  lemma DescribesMore(n: Native, lists: seq<seq<Pmevent>>, counters: nat, ev: Pmevent)
    requires lists != [] && |lists| <= counters && Describes(n, lists, counters) && n.name == ev.name
    ensures Describes(WithCounter(n, |lists| - 1, ev.id), Extended(lists, ev), counters)
  {
    forall j: nat ensures NamedOn(Extended(lists, ev), j, n.name) <==> j in n.selector || j == |lists| - 1 {
      ExtendedNames(lists, ev, j, n.name);
    }
    forall j | 0 <= j < counters
      ensures CommandOf(Extended(lists, ev), j, n.name) == n.counterCmd[|lists| - 1 := ev.id][j]
    {
      ExtendedNames(lists, ev, j, n.name);
    }
  }

  lemma DescribesStill(n: Native, lists: seq<seq<Pmevent>>, counters: nat, ev: Pmevent)
    requires lists != [] && Describes(n, lists, counters) && n.name != ev.name
    ensures Describes(n, Extended(lists, ev), counters)
  {
    forall j: nat ensures NamedOn(Extended(lists, ev), j, n.name) <==> NamedOn(lists, j, n.name) {
      ExtendedNames(lists, ev, j, n.name);
    }
    forall j | 0 <= j < counters
      ensures CommandOf(Extended(lists, ev), j, n.name) == CommandOf(lists, j, n.name)
    {
      ExtendedNames(lists, ev, j, n.name);
    }
  }

  /** A name seen before: its entry is updated. */
  lemma KnownName(t: seq<Native>, lists: seq<seq<Pmevent>>, counters: nat, ev: Pmevent, i: nat)
    requires lists != [] && |lists| <= counters && IsTable(t, lists, counters)
    requires i < |t| && t[i].name == ev.name
    ensures IsTable(t[i := WithCounter(t[i], |lists| - 1, ev.id)], Extended(lists, ev), counters)
  {
    var t' := t[i := WithCounter(t[i], |lists| - 1, ev.id)];
    DescribesMore(t[i], lists, counters, ev);
    forall k | 0 <= k < |t'| ensures Describes(t'[k], Extended(lists, ev), counters) {
      if k != i {
        DescribesStill(t[k], lists, counters, ev);
      }
    }
    forall j: nat, name | NamedOn(Extended(lists, ev), j, name) ensures Covered(t', name) {
      ExtendedNames(lists, ev, j, name);
      StillCovered(t, t', name, ev.name, i);
    }
  }

  lemma StillCovered(t: seq<Native>, t': seq<Native>, name: string, added: string, i: nat)
    requires |t| <= |t'| && i < |t'| && t'[i].name == added
    requires forall k :: 0 <= k < |t| ==> t'[k].name == t[k].name
    requires Covered(t, name) || name == added
    ensures Covered(t', name)
  {
    if Covered(t, name) {
      var k :| 0 <= k < |t| && t[k].name == name;
      assert t'[k].name == name;
    }
  }

  function Fresh(ev: Pmevent, pmc: nat, counters: nat, groupInts: nat): Native
    requires pmc < counters
  {
    Native(ev.name, {pmc}, Blank(counters)[pmc := ev.id], NoGroups(groupInts))
  }

  /** A new name: an entry is added. */
  lemma NewName(t: seq<Native>, lists: seq<seq<Pmevent>>, counters: nat, ev: Pmevent, groupInts: nat)
    requires lists != [] && |lists| <= counters && IsTable(t, lists, counters)
    requires forall i :: 0 <= i < |t| ==> t[i].name != ev.name
    ensures IsTable(t + [Fresh(ev, |lists| - 1, counters, groupInts)], Extended(lists, ev), counters)
  {
    var blank := Native(ev.name, {}, Blank(counters), NoGroups(groupInts));
    assert !Covered(t, ev.name);
    forall j: nat ensures !NamedOn(lists, j, ev.name) && CommandOf(lists, j, ev.name) == -1 {
    }
    assert Describes(blank, lists, counters);
    DescribesMore(blank, lists, counters, ev);
    var entry := Fresh(ev, |lists| - 1, counters, groupInts);
    assert WithCounter(blank, |lists| - 1, ev.id) == entry;
    var t' := t + [entry];
    forall k | 0 <= k < |t'| ensures Describes(t'[k], Extended(lists, ev), counters) {
      if k < |t| {
        DescribesStill(t[k], lists, counters, ev);
      }
    }
    forall j: nat, name | NamedOn(Extended(lists, ev), j, name) ensures Covered(t', name) {
      ExtendedNames(lists, ev, j, name);
      StillCovered(t, t', name, ev.name, |t|);
    }
  }

  /** All names of the lists. */
  ghost function Names(lists: seq<seq<Pmevent>>): set<string> {
    set j, e | 0 <= j < |lists| && 0 <= e < |lists[j]| :: lists[j][e].name
  }

  lemma {:induction false} DistinctNamesFit(t: seq<Native>, names: set<string>)
    requires forall i, k :: 0 <= i < k < |t| ==> t[i].name != t[k].name
    requires forall i :: 0 <= i < |t| ==> t[i].name in names
    ensures |t| <= |names|
  {
    if t != [] {
      var last := t[|t| - 1].name;
      DistinctNamesFit(t[..|t| - 1], names - {last});
    }
  }

  // ------------------------------------------------------------------------- bitmaps

  predicate InMap(m: seq<Word32>, g: nat) {
    g / 32 < |m| && g % 32 in m[g / 32]
  }

  /** m[g / 32] |= 1 << (g % 32) */
  function WithBit(m: seq<Word32>, g: nat): seq<Word32>
    requires g / 32 < |m|
  {
    m[g / 32 := m[g / 32] + {g % 32}]
  }

  lemma WithBitMembers(m: seq<Word32>, g: nat, x: nat)
    requires g / 32 < |m|
    ensures InMap(WithBit(m, g), x) <==> x == g || InMap(m, x)
  {
    assert x == 32 * (x / 32) + x % 32 && g == 32 * (g / 32) + g % 32;
  }

  /** Group g counts the event on counter j. */
  predicate Counts(n: Native, g: Group, j: int) {
    0 <= j < |n.counterCmd| == |g.events| && j in n.selector && n.counterCmd[j] == g.events[j]
  }

  /** ... on some counter below j. */
  ghost predicate CountsBelow(n: Native, g: Group, j: nat) {
    exists k :: k < j && Counts(n, g, k)
  }

  /** The ids found after all counters below j, and for the groups below done also j. */
  ghost predicate Marked(n: Native, groups: seq<Group>, j: nat, done: nat, x: nat) {
    exists g :: 0 <= g < |groups| && groups[g].id == x && CountsBelow(n, groups[g], if g < done then j + 1 else j)
  }

  ghost predicate MarkedSoFar(m: seq<Word32>, n: Native, groups: seq<Group>, j: nat, done: nat) {
    |m| == |n.groups| && forall x: nat :: InMap(m, x) <==> InMap(n.groups, x) || Marked(n, groups, j, done, x)
  }

  lemma MarkStep(m: seq<Word32>, n: Native, groups: seq<Group>, j: nat, done: nat)
    requires MarkedSoFar(m, n, groups, j, done) && done < |groups| && groups[done].id / 32 < |m|
    ensures MarkedSoFar(if Counts(n, groups[done], j) then WithBit(m, groups[done].id) else m, n, groups, j, done + 1)
  {
    var g := groups[done];
    var m' := if Counts(n, g, j) then WithBit(m, g.id) else m;
    forall x: nat
      ensures InMap(m', x) <==> InMap(n.groups, x) || Marked(n, groups, j, done + 1, x)
    {
      WithBitMembers(m, g.id, x);
      MarkedNext(n, groups, j, done, x);
    }
  }

  lemma MarkedNext(n: Native, groups: seq<Group>, j: nat, done: nat, x: nat)
    requires done < |groups|
    ensures Marked(n, groups, j, done + 1, x)
       <==> Marked(n, groups, j, done, x) || (groups[done].id == x && Counts(n, groups[done], j))
  {
    assert CountsBelow(n, groups[done], j + 1) <==> CountsBelow(n, groups[done], j) || Counts(n, groups[done], j);
    if Marked(n, groups, j, done + 1, x) {
      var g :| 0 <= g < |groups| && groups[g].id == x
        && CountsBelow(n, groups[g], if g < done + 1 then j + 1 else j);
      assert g != done ==> CountsBelow(n, groups[g], if g < done then j + 1 else j);
    }
    if Marked(n, groups, j, done, x) {
      var g :| 0 <= g < |groups| && groups[g].id == x && CountsBelow(n, groups[g], if g < done then j + 1 else j);
      assert CountsBelow(n, groups[g], if g < done + 1 then j + 1 else j);
    }
  }

  lemma MarkRow(m: seq<Word32>, n: Native, groups: seq<Group>, j: nat)
    requires MarkedSoFar(m, n, groups, j, |groups|)
    ensures MarkedSoFar(m, n, groups, j + 1, 0)
  {
    forall x: nat ensures Marked(n, groups, j, |groups|, x) <==> Marked(n, groups, j + 1, 0, x) {
      if Marked(n, groups, j, |groups|, x) {
        var g :| 0 <= g < |groups| && groups[g].id == x && CountsBelow(n, groups[g], j + 1);
      }
    }
  }

  // -------------------------------------------------------------------- the tables

  /** What the setup leaves: an entry for each name, its bitmap the ids of the groups
      that count it. */
  ghost predicate HasGroups(n: Native, groups: seq<Group>, counters: nat) {
    forall x: nat :: InMap(n.groups, x) <==>
      exists g :: 0 <= g < |groups| && groups[g].id == x && CountsBelow(n, groups[g], counters)
  }

  /** Bitmaps of unused entries are empty. */
  ghost predicate NoBits(n: Native) {
    forall x: nat :: !InMap(n.groups, x)
  }

  ghost predicate Fit(groups: seq<Group>, counters: nat, groupInts: nat) {
    forall g :: 0 <= g < |groups| ==> groups[g].id < 32 * groupInts && |groups[g].events| == counters
  }

  class Tables {
    const counters: nat
    const groupInts: nat
    /** native_table, native_name_map[].index and group_map[].counter_cmd */
    const native: array<Native>
    const index: array<int>
    const groupMap: array<seq<int>>

    ghost predicate Sized()
      reads native, index, groupMap
    {
      && native.Length == index.Length && groupMap.Length == 32 * groupInts
      && (forall i :: 0 <= i < native.Length ==>
            |native[i].counterCmd| == counters && |native[i].groups| == groupInts)
      && (forall g :: 0 <= g < groupMap.Length ==> |groupMap[g]| == counters)
    }

    constructor (counters: nat, groupInts: nat, maxNativeEvents: nat)
      ensures Sized() && this.counters == counters && this.groupInts == groupInts
      ensures native.Length == maxNativeEvents
      ensures fresh(native) && fresh(index) && fresh(groupMap)
    {
      this.counters, this.groupInts := counters, groupInts;
      native := new Native[maxNativeEvents](_ => Native("", {}, Blank(counters), NoGroups(groupInts)));
      index := new int[maxNativeEvents](_ => -1);
      groupMap := new seq<int>[32 * groupInts](_ => Blank(counters));
    }

    /** The first `total` entries are the table for these lists, the bitmaps still
        empty, and the name map knows exactly them; `all` limits the names. */
    ghost predicate Holds(lists: seq<seq<Pmevent>>, total: nat, all: set<string>)
      reads native, index
    {
      && (forall i :: 0 <= i < total <= native.Length ==> native[i].name in all)
      && total <= native.Length == index.Length
      && IsTable(native[..total], lists, counters)
      && (forall i :: 0 <= i < index.Length ==> index[i] == if i < total then i else -1)
      && (forall i :: 0 <= i < total ==> |native[i].groups| == groupInts && NoBits(native[i]))
    }

    /** aix_initialize_native_table */
    method Initialize()
      requires native.Length == index.Length
      modifies native, index
      ensures Holds([], 0, {})
    {
      for i := 0 to native.Length
        invariant forall k :: 0 <= k < i ==> index[k] == -1
      {
        native[i] := Native("", {}, Blank(counters), NoGroups(groupInts));
        index[i] := -1;
      }
    }

    /** The inner part of aix_ppc64_setup_native_table: one list entry. */
    method Record(ghost lists: seq<seq<Pmevent>>, pmc: nat, ev: Pmevent, total: nat, ghost all: set<string>)
      returns (newTotal: nat)
      requires Holds(lists, total, all) && |lists| == pmc + 1 && pmc < counters
      requires ev.name in all && |all| <= native.Length
      modifies native, index
      ensures Holds(Extended(lists, ev), newTotal, all)
    {
      ghost var t := native[..total];
      var i := FindName(ev.name, total);
      if i < total {
        native[i] := WithCounter(native[i], pmc, ev.id);
        KnownName(t, lists, counters, ev, i);
        assert native[..total] == t[i := WithCounter(t[i], pmc, ev.id)];
        newTotal := total;
      } else {
        DistinctNamesFit(t + [Fresh(ev, pmc, counters, groupInts)], all);
        native[i] := Fresh(ev, pmc, counters, groupInts);
        index[i] := i;
        NewName(t, lists, counters, ev, groupInts);
        assert native[..total + 1] == t + [Fresh(ev, pmc, counters, groupInts)];
        newTotal := total + 1;
      }
    }

    /** The list of one counter. */
    method RecordList(ghost lists: seq<seq<Pmevent>>, pmc: nat, list: seq<Pmevent>, total: nat, ghost all: set<string>)
      returns (newTotal: nat)
      requires Holds(lists, total, all) && |lists| == pmc && pmc < counters
      requires |all| <= native.Length && forall ev :: 0 <= ev < |list| ==> list[ev].name in all
      modifies native, index
      ensures Holds(lists + [list], newTotal, all)
    {
      newTotal := total;
      EmptyList(native[..total], lists, counters);
      assert list[..0] == [];
      for ev := 0 to |list|
        invariant Holds(lists + [list[..ev]], newTotal, all)
      {
        newTotal := Record(lists + [list[..ev]], pmc, list[ev], newTotal, all);
        assert list[..ev + 1] == list[..ev] + [list[ev]];
        assert Extended(lists + [list[..ev]], list[ev]) == lists + [list[..ev + 1]];
      }
      assert list[..|list|] == list;
    }

    /** The loops of aix_ppc64_setup_native_table. */
    method RecordLists(lists: seq<seq<Pmevent>>) returns (total: nat)
      requires |lists| <= counters && native.Length == index.Length && |Names(lists)| <= native.Length
      modifies native, index
      ensures Holds(lists, total, Names(lists))
    {
      Initialize();
      total := 0;
      for pmc := 0 to |lists|
        invariant Holds(lists[..pmc], total, Names(lists))
      {
        assert forall ev :: 0 <= ev < |lists[pmc]| ==> lists[pmc][ev].name in Names(lists);
        total := RecordList(lists[..pmc], pmc, lists[pmc], total, Names(lists));
        assert lists[..pmc] + [lists[pmc]] == lists[..pmc + 1];
      }
      assert lists[..|lists|] == lists;
    }

    method FindName(name: string, total: nat) returns (i: nat)
      requires total <= native.Length
      ensures i <= total && (i < total ==> native[i].name == name)
      ensures forall k :: 0 <= k < i ==> native[k].name != name
      ensures i == total ==> !Covered(native[..total], name)
    {
      i := 0;
      while i < total && native[i].name != name
        invariant i <= total
        invariant forall k :: 0 <= k < i ==> native[k].name != name
      {
        i := i + 1;
      }
    }

    /** The bitmap of one entry, in aix_ppc64_setup_gps. */
    method MarkGroups(n: Native, groups: seq<Group>) returns (m: seq<Word32>)
      requires |n.counterCmd| == counters && |n.groups| == groupInts && NoBits(n)
      requires Fit(groups, counters, groupInts)
      ensures |m| == groupInts && HasGroups(n.(groups := m), groups, counters)
    {
      m := n.groups;
      for j := 0 to counters
        invariant MarkedSoFar(m, n, groups, j, 0)
      {
        for gnum := 0 to |groups|
          invariant MarkedSoFar(m, n, groups, j, gnum)
        {
          MarkStep(m, n, groups, j, gnum);
          if j in n.selector && n.counterCmd[j] == groups[gnum].events[j] {
            m := WithBit(m, groups[gnum].id);
          }
        }
        MarkRow(m, n, groups, j);
      }
      MarkedAll(m, n, groups, counters);
    }

    /** The tables after aix_ppc64_setup_native_table. */
    ghost predicate Ready(lists: seq<seq<Pmevent>>, groups: seq<Group>, total: nat)
      reads native, index, groupMap
    {
      && total <= native.Length == index.Length && groupMap.Length == 32 * groupInts
      && IsTable(native[..total], lists, counters)
      && (forall i :: 0 <= i < index.Length ==> index[i] == if i < total then i else -1)
      && (forall i :: 0 <= i < total ==> |native[i].groups| == groupInts && HasGroups(native[i], groups, counters))
      && (forall g :: 0 <= g < |groups| ==>
            groups[g].id < groupMap.Length && groupMap[groups[g].id] == groups[g].events)
    }

    /** The first loop of aix_ppc64_setup_gps. */
    method MarkAll(ghost lists: seq<seq<Pmevent>>, groups: seq<Group>, total: nat, ghost all: set<string>)
      requires Holds(lists, total, all) && Fit(groups, counters, groupInts)
      modifies native
      ensures IsTable(native[..total], lists, counters)
      ensures forall i :: 0 <= i < total ==>
        |native[i].groups| == groupInts && HasGroups(native[i], groups, counters)
    {
      ghost var t := native[..total];
      for i := 0 to total
        invariant forall k :: 0 <= k < i ==>
          |native[k].groups| == groupInts && HasGroups(native[k], groups, counters)
        invariant forall k :: i <= k < total ==> native[k] == t[k]
        invariant forall k :: 0 <= k < total ==> native[k] == t[k].(groups := native[k].groups)
      {
        var m := MarkGroups(native[i], groups);
        native[i] := native[i].(groups := m);
      }
      OnlyGroups(t, native[..total], lists, counters);
    }

    /** The row of one group in the second loop of aix_ppc64_setup_gps. */
    method StoreRow(g: Group)
      requires g.id < groupMap.Length && |groupMap[g.id]| == |g.events| == counters
      modifies groupMap
      ensures groupMap[..] == old(groupMap[..])[g.id := g.events]
    {
      for i := 0 to counters
        invariant |groupMap[g.id]| == counters && groupMap[g.id][..i] == g.events[..i]
        invariant groupMap[..] == old(groupMap[..])[g.id := groupMap[g.id]]
      {
        ghost var row := groupMap[g.id];
        groupMap[g.id] := groupMap[g.id][i := g.events[i]];
        assert groupMap[g.id][..i + 1] == row[..i] + [g.events[i]];
        assert g.events[..i + 1] == g.events[..i] + [g.events[i]];
      }
      assert groupMap[g.id][..counters] == groupMap[g.id] && g.events[..counters] == g.events;
    }

    /** The second loop of aix_ppc64_setup_gps. */
    method StoreRows(groups: seq<Group>)
      requires groupMap.Length == 32 * groupInts && Fit(groups, counters, groupInts)
      requires forall g :: 0 <= g < groupMap.Length ==> |groupMap[g]| == counters
      requires forall g, h :: 0 <= g < h < |groups| ==> groups[g].id != groups[h].id
      modifies groupMap
      ensures forall g :: 0 <= g < |groups| ==> groupMap[groups[g].id] == groups[g].events
    {
      for gnum := 0 to |groups|
        invariant forall g :: 0 <= g < groupMap.Length ==> |groupMap[g]| == counters
        invariant forall g :: 0 <= g < gnum ==> groupMap[groups[g].id] == groups[g].events
      {
        ghost var before := groupMap[..];
        StoreRow(groups[gnum]);
        assert forall k :: 0 <= k < groupMap.Length ==> groupMap[k] == groupMap[..][k];
      }
    }

    /** aix_ppc64_setup_native_table */
    method Setup(lists: seq<seq<Pmevent>>, groups: seq<Group>) returns (total: nat)
      requires Sized() && |lists| <= counters && |Names(lists)| <= native.Length
      requires Fit(groups, counters, groupInts)
      requires forall g, h :: 0 <= g < h < |groups| ==> groups[g].id != groups[h].id
      modifies native, index, groupMap
      ensures Ready(lists, groups, total)
    {
      total := RecordLists(lists);
      MarkAll(lists, groups, total, Names(lists));
      StoreRows(groups);
    }

    /** do_counter_allocation */
    method DoCounterAllocation(eventList: array<Reg>, size: nat) returns (group: int)
      requires Sized() && 1 <= size <= eventList.Length
      requires forall i :: 0 <= i < size ==>
        |eventList[i].groups| == groupInts && |eventList[i].counterCmd| == counters
      modifies eventList
      ensures LowestCommon(old(eventList[..size]), group) && group < groupMap.Length
      ensures group >= 0 ==> Placed(eventList[..size], old(eventList[..size]), groupMap[group])
    {
      ghost var regs := eventList[..size];
      var m := CommonGroups(eventList, size, groupInts);
      assert forall x: nat :: InMap(m, x) <==> InAll(regs, x);
      group := LowestGroup(m);
      assert LowestCommon(regs, group);
      if group >= 0 {
        assert InMap(m, group);
        Place(eventList, size, groupMap[group]);
      }
    }

    /** The first loop of _aix_allocate_registers; fails for an event without entry. */
    method FillEventList(events: seq<nat>, eventList: array<Reg>, ghost total: nat) returns (ok: bool)
      requires |events| <= eventList.Length && total <= native.Length == index.Length
      requires forall i :: 0 <= i < index.Length ==> index[i] == if i < total then i else -1
      requires forall i :: 0 <= i < |events| ==> events[i] < index.Length
      modifies eventList
      ensures ok <==> forall i :: 0 <= i < |events| ==> events[i] < total
      ensures ok ==> forall i :: 0 <= i < |events| ==>
        eventList[i] == Reg(-1, native[events[i]].groups, native[events[i]].counterCmd)
    {
      for i := 0 to |events|
        invariant forall k :: 0 <= k < i ==> events[k] < total
        invariant forall k :: 0 <= k < i ==>
          eventList[k] == Reg(-1, native[events[k]].groups, native[events[k]].counterCmd)
      {
        var at := index[events[i]];
        if at < 0 {
          return false;
        }
        eventList[i] := Reg(-1, native[at].groups, native[at].counterCmd);
      }
      ok := true;
    }

    /** _aix_allocate_registers.  It succeeds exactly if all events have entries and
        some group counts them all; then it takes the group of the lowest id, and every
        event gets a position at which that group counts it, no two the same. */
    method AllocateRegisters(events: seq<nat>, positions: array<int>, eventList: array<Reg>,
                             ghost lists: seq<seq<Pmevent>>, ghost groups: seq<Group>, ghost total: nat)
      returns (ret: int, groupId: int)
      requires Sized() && Ready(lists, groups, total) && WellNumbered(lists, groups)
      requires Fit(groups, counters, groupInts)
      requires 1 <= |events| <= positions.Length && |events| <= eventList.Length && positions != index
      requires forall i :: 0 <= i < |events| ==> events[i] < index.Length
      modifies positions, eventList
      ensures ret == PAPI_OK || ret == PAPI_ECNFLCT
      ensures ret == PAPI_OK <==>
        && (forall i :: 0 <= i < |events| ==> events[i] < total)
        && exists g :: 0 <= g < |groups| && CountsAll(native[..total], events, groups[g], counters)
      ensures ret == PAPI_OK ==> exists g ::
        && 0 <= g < |groups| && groups[g].id == groupId
        && Allocated(native[..total], events, groups, g, counters, positions[..|events|])
      ensures positions[|events|..] == old(positions[|events|..])
      ensures ret != PAPI_OK ==> positions[..] == old(positions[..])
    {
      groupId := -1;
      ghost var t := native[..total];
      var known := FillEventList(events, eventList, total);
      if !known {
        return PAPI_ECNFLCT, -1;
      }
      ghost var regs := eventList[..|events|];
      groupId := DoCounterAllocation(eventList, |events|);
      ghost var g := LowestCounts(regs, t, events, groups, counters, groupId);
      if groupId < 0 {
        return PAPI_ECNFLCT, groupId;
      }
      CopyPositions(eventList, |events|, positions);
      PlacedIsAllocated(eventList[..|events|], regs, t, events, lists, groups, g, counters, positions[..|events|]);
      ret := PAPI_OK;
    }
  }

  /** The copy into NativeInfoArray. */
  method CopyPositions(eventList: array<Reg>, n: nat, positions: array<int>)
    requires n <= eventList.Length && n <= positions.Length
    modifies positions
    ensures forall k :: 0 <= k < n ==> positions[k] == eventList[k].position
    ensures positions[n..] == old(positions[n..])
  {
    for i := 0 to n
      invariant forall k :: 0 <= k < i ==> positions[k] == eventList[k].position
      invariant positions[n..] == old(positions[n..])
    {
      positions[i] := eventList[i].position;
    }
  }

  /** Ids on a counter are distinct and not negative, and so are group ids. */
  ghost predicate WellNumbered(lists: seq<seq<Pmevent>>, groups: seq<Group>) {
    && (forall j, e :: 0 <= j < |lists| && 0 <= e < |lists[j]| ==> lists[j][e].id >= 0)
    && (forall j, d, e :: 0 <= j < |lists| && 0 <= d < e < |lists[j]| ==> lists[j][d].id != lists[j][e].id)
    && (forall g, h :: 0 <= g < h < |groups| ==> groups[g].id != groups[h].id)
  }

  /** The group counts all requested events. */
  ghost predicate CountsAll(t: seq<Native>, events: seq<nat>, g: Group, counters: nat) {
    forall i :: 0 <= i < |events| ==> events[i] < |t| && CountsBelow(t[events[i]], g, counters)
  }

  /** Group g is the lowest that counts all events; each is counted at its position. */
  ghost predicate Allocated(t: seq<Native>, events: seq<nat>, groups: seq<Group>, g: nat, counters: nat, positions: seq<int>) {
    && g < |groups| && |positions| == |events| && CountsAll(t, events, groups[g], counters)
    && (forall h :: 0 <= h < |groups| && CountsAll(t, events, groups[h], counters) ==> groups[g].id <= groups[h].id)
    && (forall i :: 0 <= i < |events| ==> Counts(t[events[i]], groups[g], positions[i]))
    && (forall i, k :: 0 <= i < k < |events| && events[i] != events[k] ==> positions[i] != positions[k])
  }

  lemma MatchIsCount(n: Native, lists: seq<seq<Pmevent>>, groups: seq<Group>, counters: nat, g: Group, j: int)
    requires Describes(n, lists, counters) && WellNumbered(lists, groups) && |g.events| == counters
    ensures Matches(n.counterCmd, g.events, j) <==> Counts(n, g, j)
  {
    if 0 <= j < counters {
      assert j in n.selector <==> NamedOn(lists, j, n.name);
      assert j < |lists| ==> n.counterCmd[j] == IdIn(lists[j], n.name);
    }
  }

  /** Two events are never counted at the same position of a group. */
  lemma OneEventPerPosition(m: Native, n: Native, lists: seq<seq<Pmevent>>, groups: seq<Group>, counters: nat, g: Group, j: nat)
    requires Describes(m, lists, counters) && Describes(n, lists, counters) && WellNumbered(lists, groups)
    requires Counts(m, g, j) && Counts(n, g, j)
    ensures m.name == n.name
  {
    assert NamedOn(lists, j, m.name) && NamedOn(lists, j, n.name);
    var d :| 0 <= d < |lists[j]| && lists[j][d] == Pmevent(m.name, m.counterCmd[j]);
    var e :| 0 <= e < |lists[j]| && lists[j][e] == Pmevent(n.name, n.counterCmd[j]);
  }

  ghost predicate FromTable(regs: seq<Reg>, t: seq<Native>, events: seq<nat>) {
    && |regs| == |events|
    && forall i :: 0 <= i < |events| ==>
         events[i] < |t| && regs[i] == Reg(-1, t[events[i]].groups, t[events[i]].counterCmd)
  }

  /** The ids common to all bitmaps are those of the groups that count all events. */
  lemma CommonIds(regs: seq<Reg>, t: seq<Native>, events: seq<nat>, groups: seq<Group>, counters: nat, x: nat)
    requires FromTable(regs, t, events) && events != []
    requires forall i :: 0 <= i < |t| ==> HasGroups(t[i], groups, counters)
    requires forall g, h :: 0 <= g < h < |groups| ==> groups[g].id != groups[h].id
    ensures InAll(regs, x) <==>
      exists g :: 0 <= g < |groups| && groups[g].id == x && CountsAll(t, events, groups[g], counters)
  {
    if InAll(regs, x) {
      assert InMap(t[events[0]].groups, x);
      var g :| 0 <= g < |groups| && groups[g].id == x && CountsBelow(t[events[0]], groups[g], counters);
      forall i | 0 <= i < |events| ensures CountsBelow(t[events[i]], groups[g], counters) {
        assert InMap(regs[i].groups, x);
        assert HasGroups(t[events[i]], groups, counters);
      }
    }
  }

  /** group is the lowest id in all bitmaps, or -1 if they have none in common. */
  ghost predicate LowestCommon(regs: seq<Reg>, group: int) {
    && group >= -1 && (group == -1 <==> forall x: nat :: !InAll(regs, x))
    && (group >= 0 ==> InAll(regs, group) && forall x: nat :: InAll(regs, x) ==> group <= x)
  }

  /** The lowest common id belongs to the lowest group that counts all events. */
  lemma LowestCounts(regs: seq<Reg>, t: seq<Native>, events: seq<nat>, groups: seq<Group>, counters: nat, group: int)
    returns (g: nat)
    requires FromTable(regs, t, events) && events != [] && LowestCommon(regs, group)
    requires forall i :: 0 <= i < |t| ==> HasGroups(t[i], groups, counters)
    requires forall g, h :: 0 <= g < h < |groups| ==> groups[g].id != groups[h].id
    ensures group < 0 ==> forall h :: 0 <= h < |groups| ==> !CountsAll(t, events, groups[h], counters)
    ensures group >= 0 ==>
      g < |groups| && groups[g].id == group && CountsAll(t, events, groups[g], counters)
    ensures group >= 0 ==>
      forall h :: 0 <= h < |groups| && CountsAll(t, events, groups[h], counters) ==> group <= groups[h].id
  {
    forall h | 0 <= h < |groups| && CountsAll(t, events, groups[h], counters)
      ensures InAll(regs, groups[h].id)
    {
      CommonIds(regs, t, events, groups, counters, groups[h].id);
    }
    g := 0;
    if group >= 0 {
      CommonIds(regs, t, events, groups, counters, group);
      g :| 0 <= g < |groups| && groups[g].id == group && CountsAll(t, events, groups[g], counters);
    }
  }

  /** What do_counter_allocation leaves is an allocation. */
  lemma PlacedIsAllocated(now: seq<Reg>, was: seq<Reg>, t: seq<Native>, events: seq<nat>, lists: seq<seq<Pmevent>>,
                          groups: seq<Group>, g: nat, counters: nat, positions: seq<int>)
    requires FromTable(was, t, events) && IsTable(t, lists, counters) && WellNumbered(lists, groups)
    requires g < |groups| && |groups[g].events| == counters && Placed(now, was, groups[g].events)
    requires CountsAll(t, events, groups[g], counters)
    requires forall h :: 0 <= h < |groups| && CountsAll(t, events, groups[h], counters) ==> groups[g].id <= groups[h].id
    requires |positions| == |events| && forall i :: 0 <= i < |events| ==> positions[i] == now[i].position
    ensures Allocated(t, events, groups, g, counters, positions)
  {
    forall i | 0 <= i < |events| ensures Counts(t[events[i]], groups[g], positions[i]) {
      var n := t[events[i]];
      var k: nat :| k < counters && Counts(n, groups[g], k);
      MatchIsCount(n, lists, groups, counters, groups[g], k);
      MatchIsCount(n, lists, groups, counters, groups[g], positions[i]);
    }
    forall i, k | 0 <= i < k < |events| && events[i] != events[k] ensures positions[i] != positions[k] {
      if positions[i] == positions[k] {
        OneEventPerPosition(t[events[i]], t[events[k]], lists, groups, counters, groups[g], positions[i]);
      }
    }
  }

  // -------------------------------------------------------------------- allocation

  /** An element of event_list, ppc64_reg_alloc_t. */
  datatype Reg = Reg(position: int, groups: seq<Word32>, counterCmd: seq<int>)

  ghost predicate InAll(regs: seq<Reg>, x: nat) {
    forall i :: 0 <= i < |regs| ==> InMap(regs[i].groups, x)
  }

  /** The bitmap of the groups all events are in. */
  method CommonGroups(eventList: array<Reg>, size: nat, groupInts: nat) returns (m: seq<Word32>)
    requires 1 <= size <= eventList.Length
    requires forall i :: 0 <= i < size ==> |eventList[i].groups| == groupInts
    ensures |m| == groupInts && forall x: nat :: InMap(m, x) <==> InAll(eventList[..size], x)
  {
    m := eventList[0].groups;
    assert forall x: nat :: InMap(m, x) <==> InAll(eventList[..1], x);
    for i := 1 to size
      invariant |m| == groupInts && forall x: nat :: InMap(m, x) <==> InAll(eventList[..i], x)
    {
      ghost var before := m;
      m := And(m, eventList[i].groups);
      forall x: nat ensures InMap(m, x) <==> InAll(eventList[..i + 1], x) {
        InAllNext(eventList[..i + 1], x);
        assert eventList[..i + 1][..i] == eventList[..i];
        assert InMap(m, x) <==> InMap(before, x) && InMap(eventList[i].groups, x);
      }
    }
  }

  lemma InAllNext(regs: seq<Reg>, x: nat)
    requires regs != []
    ensures InAll(regs, x) <==> InAll(regs[..|regs| - 1], x) && InMap(regs[|regs| - 1].groups, x)
  {
  }

  method And(a: seq<Word32>, b: seq<Word32>) returns (m: seq<Word32>)
    requires |a| == |b|
    ensures |m| == |a| && forall x: nat :: InMap(m, x) <==> InMap(a, x) && InMap(b, x)
  {
    m := a;
    for j := 0 to |a|
      invariant |m| == |a|
      invariant forall k :: 0 <= k < |a| ==> m[k] == if k < j then a[k] * b[k] else a[k]
    {
      m := m[j := m[j] * b[j]];
    }
  }

  /** The lowest group of a bitmap, -1 if it is empty. */
  method LowestGroup(m: seq<Word32>) returns (group: int)
    ensures group >= -1 && (group == -1 <==> forall x: nat :: !InMap(m, x))
    ensures group >= 0 ==> InMap(m, group) && forall x: nat :: InMap(m, x) ==> group <= x
  {
    for i := 0 to |m|
      invariant forall k :: 0 <= k < i ==> m[k] == {}
    {
      if m[i] != {} {
        group := Ffs(m[i]) - 1 + i * 32;
        Lowest(m, i);
        return;
      }
    }
    group := -1;
  }

  lemma Lowest(m: seq<Word32>, i: nat)
    requires i < |m| && m[i] != {} && forall k :: 0 <= k < i ==> m[k] == {}
    ensures InMap(m, Ffs(m[i]) - 1 + i * 32) && forall x: nat :: InMap(m, x) ==> Ffs(m[i]) - 1 + i * 32 <= x
  {
    var b := Ffs(m[i]) - 1;
    assert b in m[i];
    assert (b + i * 32) / 32 == i && (b + i * 32) % 32 == b;
    forall x: nat | InMap(m, x) ensures b + i * 32 <= x {
      assert x == 32 * (x / 32) + x % 32 && x / 32 >= i;
    }
  }

  /** The group counts the event on counter j, as do_counter_allocation looks. */
  predicate Matches(counterCmd: seq<int>, row: seq<int>, j: int) {
    0 <= j < |counterCmd| == |row| && counterCmd[j] >= 0 && counterCmd[j] == row[j]
  }

  /** The last counter below j that matches, or else was. */
  function LastMatch(counterCmd: seq<int>, row: seq<int>, j: nat, was: int): (r: int)
    ensures r == was || Matches(counterCmd, row, r)
    ensures forall k :: 0 <= k < j && Matches(counterCmd, row, k) ==> r >= k && Matches(counterCmd, row, r)
  {
    if j == 0 then was
    else if Matches(counterCmd, row, j - 1) then j - 1
    else LastMatch(counterCmd, row, j - 1, was)
  }

  ghost predicate Placed(now: seq<Reg>, was: seq<Reg>, row: seq<int>) {
    && |now| == |was|
    && forall i :: 0 <= i < |now| ==>
         now[i] == was[i].(position := LastMatch(was[i].counterCmd, row, |row|, was[i].position))
  }

  /** The positions of the events in a group. */
  method Place(eventList: array<Reg>, size: nat, row: seq<int>)
    requires size <= eventList.Length
    requires forall i :: 0 <= i < size ==> |eventList[i].counterCmd| == |row|
    modifies eventList
    ensures Placed(eventList[..size], old(eventList[..size]), row)
  {
    ghost var was := eventList[..size];
    for i := 0 to size
      invariant Placed(eventList[..i], was[..i], row)
      invariant forall k :: i <= k < size ==> eventList[k] == was[k]
    {
      ghost var done := eventList[..i];
      for j := 0 to |row|
        invariant eventList[..i] == done
        invariant eventList[i] == was[i].(position := LastMatch(was[i].counterCmd, row, j, was[i].position))
        invariant forall k :: i < k < size ==> eventList[k] == was[k]
      {
        if eventList[i].counterCmd[j] >= 0 && eventList[i].counterCmd[j] == row[j] {
          eventList[i] := eventList[i].(position := j);
        }
      }
      assert eventList[..i + 1] == done + [eventList[i]];
      assert was[..i + 1] == was[..i] + [was[i]];
    }
    assert was[..size] == was;
  }

  lemma EmptyList(t: seq<Native>, lists: seq<seq<Pmevent>>, counters: nat)
    requires IsTable(t, lists, counters)
    ensures IsTable(t, lists + [[]], counters)
  {
    forall j: nat, name
      ensures NamedOn(lists + [[]], j, name) <==> NamedOn(lists, j, name)
      ensures CommandOf(lists + [[]], j, name) == CommandOf(lists, j, name)
    {
    }
  }

  lemma OnlyGroups(t: seq<Native>, t': seq<Native>, lists: seq<seq<Pmevent>>, counters: nat)
    requires IsTable(t, lists, counters) && |t'| == |t|
    requires forall k :: 0 <= k < |t| ==> t'[k] == t[k].(groups := t'[k].groups)
    ensures IsTable(t', lists, counters)
  {
    forall j: nat, name | NamedOn(lists, j, name) ensures Covered(t', name) {
      var k :| 0 <= k < |t| && t[k].name == name;
      assert t'[k].name == name;
    }
  }

  lemma MarkedAll(m: seq<Word32>, n: Native, groups: seq<Group>, counters: nat)
    requires MarkedSoFar(m, n, groups, counters, 0) && NoBits(n)
    ensures HasGroups(n.(groups := m), groups, counters)
  {
    var n' := n.(groups := m);
    forall x: nat
      ensures InMap(m, x) <==>
        exists g :: 0 <= g < |groups| && groups[g].id == x && CountsBelow(n', groups[g], counters)
    {
      forall g | 0 <= g < |groups|
        ensures CountsBelow(n', groups[g], counters) <==> CountsBelow(n, groups[g], counters)
      {
        SameCounting(n, n', groups[g], counters);
      }
    }
  }

  lemma SameCounting(n: Native, n': Native, g: Group, counters: nat)
    requires n'.selector == n.selector && n'.counterCmd == n.counterCmd
    ensures CountsBelow(n', g, counters) <==> CountsBelow(n, g, counters)
  {
    assert forall k :: Counts(n', g, k) <==> Counts(n, g, k);
  }
}
