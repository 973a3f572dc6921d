/** The members of a JSON object: an array, and an index by name kept beside it. */
module Members {
  import opened Json

  /** A node of the multimap: a name and the position of its member. */
  datatype Node = Node(name: string, index: nat)

  function NameOf(m: Member): string
    requires m.name.Str?
  {
    m.name.chars
  }

  ghost predicate Named(ms: seq<Member>) { forall i :: 0 <= i < |ms| ==> ms[i].name.Str? }

  /** No name occurs twice. */
  ghost predicate DistinctNames(ms: seq<Member>)
    requires Named(ms)
  {
    forall i, j :: 0 <= i < j < |ms| ==> NameOf(ms[i]) != NameOf(ms[j])
  }

  /** The search of the build without a map: the first member with the name, or the end. */
  method FindInArray(ms: seq<Member>, name: string) returns (r: nat)
    requires Named(ms)
    ensures r == FirstWith(ms, name)
  {
    r := 0;
    while r < |ms|
      invariant r <= |ms| && FirstWith(ms, name) == r + FirstWith(ms[r..], name)
    {
      if NameOf(ms[r]) == name { return; }
      assert ms[r..][1..] == ms[r + 1..];
      r := r + 1;
    }
  }

  function FirstWith(ms: seq<Member>, name: string): (r: nat)
    requires Named(ms)
    ensures r <= |ms| && (r < |ms| ==> NameOf(ms[r]) == name)
    ensures forall i :: 0 <= i < r ==> NameOf(ms[i]) != name
  {
    if ms == [] || NameOf(ms[0]) == name then 0 else 1 + FirstWith(ms[1..], name)
  }

  /** Removing a member moves the last one into its place. */
  function WithoutMember(ms: seq<Member>, pos: nat): seq<Member>
    requires pos < |ms|
  {
    ms[pos := ms[|ms| - 1]][..|ms| - 1]
  }

  class ObjectMembers {
    var members: seq<Member>       // in use: size of them
    var capacity: nat
    var iterators: seq<nat>        // of each member, the node of the map
    var nodes: map<nat, Node>      // the multimap; a node keeps its identity until it is erased
    var nextNode: nat

    constructor ()
      ensures Valid() && members == [] && capacity == 0
    {
      members, capacity, iterators, nodes, nextNode := [], 0, [], map[], 0;
    }

    /** Iterators and members correspond one to one: each iterator is at a node with the member's name and position. */
    ghost predicate Valid()
      reads this
    {
      Index(members, iterators, nodes) && |members| <= capacity && forall n :: n in nodes ==> n < nextNode
    }

    /** map->insert for the member behind the last one: an iterator that no member has, under which that member will be
        indexed; the members before it stay indexed as they are. */
    method Insert(m: Member) returns (n: nat)
      requires Valid() && m.name.Str?
      modifies this`nodes, this`nextNode
      ensures Index(members + [m], iterators + [n], nodes) && n !in old(nodes) && old(nodes) == nodes - {n}
      ensures forall k :: k in nodes ==> k < nextNode
    {
      n := nextNode;
      nodes, nextNode := nodes[n := Node(NameOf(m), |members|)], nextNode + 1;
    }

    /** map->find: some node with the name, unless there is none. */
    method FindNode(name: string) returns (found: bool, n: nat)
      ensures found <==> exists k :: k in nodes && nodes[k].name == name
      ensures found ==> n in nodes && nodes[n].name == name
    {
      found, n := false, 0;
      var keys := nodes.Keys;
      while keys != {}
        invariant keys <= nodes.Keys && !found
        invariant forall k :: k in nodes && k !in keys ==> nodes[k].name != name
        decreases keys
      {
        var k :| k in keys;
        if nodes[k].name == name { return true, k; }
        keys := keys - {k};
      }
    }

    /** DoFindMember */
    method FindMember(name: string) returns (r: nat)
      requires Valid()
      ensures r <= |members| && (r < |members| ==> NameOf(members[r]) == name)
      ensures r == |members| <==> forall i :: 0 <= i < |members| ==> NameOf(members[i]) != name
      ensures DistinctNames(members) ==> r == FirstWith(members, name)
    {
      var found, n := FindNode(name);
      r := if found then nodes[n].index else |members|;
      if found {
        assert iterators[r] == n;
      } else {
        forall i | 0 <= i < |members| ensures NameOf(members[i]) != name { assert iterators[i] in nodes; }
      }
    }

    /** DoReserveMembers: as many members and iterators move as the map has nodes, which are all of them. */
    method Reserve(newCapacity: nat)
      requires Valid()
      modifies this`members, this`iterators, this`capacity
      ensures Valid() && members == old(members) && iterators == old(iterators)
      ensures capacity == if newCapacity > old(capacity) then newCapacity else old(capacity)
    {
      if newCapacity > capacity {
        NodeCount(members, iterators, nodes);
        var count := |nodes|;
        var newMembers, newIterators := members[..count], [];
        while count > 0
          invariant 0 <= count <= |iterators| && newIterators == iterators[count..]
        {
          count := count - 1;
          newIterators := [iterators[count]] + newIterators;
        }
        members, iterators, capacity := newMembers, newIterators, newCapacity;
      }
    }

    /** DoAddMember; a full array grows by half. */
    method AddMember(m: Member)
      requires Valid() && m.name.Str?
      modifies this
      ensures Valid() && members == old(members) + [m]
      ensures |old(members)| < old(capacity) ==> capacity == old(capacity)
      ensures |old(members)| == old(capacity) > 0 ==> 3 * old(capacity) <= 2 * capacity <= 3 * old(capacity) + 1
      ensures old(capacity) == 0 ==> capacity == 16
    {
      if |members| >= capacity {
        Reserve(if capacity != 0 then capacity + (capacity + 1) / 2 else 16);
      }
      var n := Insert(m);
      iterators := iterators + [n];
      members := members + [m];
    }

    /** DoRemoveMember: the last member and its iterator take the place of the removed ones. */
    method RemoveMember(pos: nat)
      requires Valid() && pos < |members|
      modifies this
      ensures Valid() && members == WithoutMember(old(members), pos) && capacity == old(capacity)
      ensures |members| == |old(members)| - 1
      ensures forall k :: 0 <= k < |members| ==> members[k] == old(members)[if k == pos then |members| else k]
    {
      var last := |members| - 1;
      IndexWithout(members, iterators, nodes, pos);
      nodes := nodes - {iterators[pos]};
      if |members| > 1 && pos != last {
        iterators := iterators[pos := iterators[last]];
        nodes := nodes[iterators[pos] := nodes[iterators[pos]].(index := pos)];
        members := members[pos := members[last]];
      }
      members, iterators := members[..last], iterators[..last];
    }

    /** DoClearMembers */
    method ClearMembers()
      requires Valid()
      modifies this
      ensures Valid() && members == [] && capacity == old(capacity) && nodes == map[]
    {
      for i := 0 to |members|
        invariant Valid0(i) && members == old(members) && iterators == old(iterators) && capacity == old(capacity)
      {
        nodes := nodes - {iterators[i]};
      }
      members, iterators := [], [];
    }

    /** The nodes of the first i members are erased. */
    ghost predicate Valid0(i: nat)
      reads this
    {
      && Named(members) && |iterators| == |members| <= capacity
      && (forall k :: i <= k < |members| ==> iterators[k] in nodes && nodes[iterators[k]] == Node(NameOf(members[k]), k))
      && (forall n :: n in nodes ==> i <= nodes[n].index < |members| && iterators[nodes[n].index] == n)
    }

    /** DoEraseMembers: the nodes of [first, last) are erased, then the members behind move down with their iterators. */
    method EraseMembers(first: nat, last: nat)
      requires Valid() && first <= last <= |members|
      modifies this
      ensures Valid() && members == old(members)[..first] + old(members)[last..] && capacity == old(capacity)
    {
      EraseNodes(first, last);
      if first != last { MoveMembers(first, last, old(nodes)); }
      IndexedAgain(old(members), old(iterators), old(nodes), nodes, first, last);
      NoNewNodes(old(iterators), old(nodes), nodes, first, last);
      if first == last {
        assert members == members[..first] + members[last..];
        assert iterators == iterators[..first] + iterators[last..];
      }
    }

    /** One member, its iterator and its position in the map: one more has moved down. */
    method MoveMember(itr: nat, next: nat, ghost ms0: seq<Member>, ghost its0: seq<nat>, ghost nodes0: map<nat, Node>,
                      ghost first: nat, ghost last: nat)
      requires first < last <= next < |members| && itr == next - (last - first) && Index(ms0, its0, nodes0)
      requires Shifting(ms0, its0, nodes0, members, iterators, nodes, first, last, next)
      modifies this`members, this`iterators, this`nodes
      ensures Shifting(ms0, its0, nodes0, members, iterators, nodes, first, last, next + 1)
    {
      ShiftOne(ms0, its0, nodes0, members, iterators, nodes, first, last, next);
      var n := iterators[next];
      members := members[itr := members[next]];
      iterators := iterators[itr := n];
      nodes := nodes[n := nodes[n].(index := itr)];
    }

    /** The loop that moves the members behind last, their iterators and their positions in the map. */
    method MoveMembers(first: nat, last: nat, ghost nodes0: map<nat, Node>)
      requires first < last <= |members| && Index(members, iterators, nodes0)
      requires Indexed(iterators, nodes0, nodes, first, last, last)
      modifies this`members, this`iterators, this`nodes
      ensures members == old(members)[..first] + old(members)[last..]
      ensures iterators == old(iterators)[..first] + old(iterators)[last..]
      ensures Indexed(old(iterators), nodes0, nodes, first, last, |old(iterators)|)
    {
      var itr, next := first, last;
      while next != |members|
        invariant itr == next - (last - first)
        invariant Shifting(old(members), old(iterators), nodes0, members, iterators, nodes, first, last, next)
        decreases |members| - next
      {
        MoveMember(itr, next, old(members), old(iterators), nodes0, first, last);
        itr, next := itr + 1, next + 1;
      }
      var size := |members| - (last - first);
      ShiftedAll(old(members), old(iterators), nodes0, members, iterators, nodes, first, last);
      members, iterators := members[..size], iterators[..size];
    }

    method EraseNodes(first: nat, last: nat)
      requires Valid() && first <= last <= |members|
      modifies this`nodes
      ensures Indexed(iterators, old(nodes), nodes, first, last, last)
    {
      for i := first to last
        invariant Indexed(iterators, old(nodes), nodes, first, i, i)
      {
        nodes := nodes - {iterators[i]};
      }
    }
  }

  /** s0 with the elements [last, next) moved down to first; what is behind has not been touched. */
  ghost predicate MovedDown<T>(s0: seq<T>, s: seq<T>, first: nat, last: nat, next: nat)
    requires first <= last <= next <= |s0| == |s|
  {
    && (forall k :: 0 <= k < first ==> s[k] == s0[k])
    && (forall k :: last <= k < next ==> s[k - (last - first)] == s0[k])
    && (forall k :: next <= k < |s0| ==> s[k] == s0[k])
  }

  /** Where a position that is kept is after the members [last, next) have moved down. */
  function NewPosition(q: nat, first: nat, last: nat, next: nat): nat
    requires first <= last
  {
    if last <= q < next then q - (last - first) else q
  }

  /** The nodes of [first, last) are gone; the others know the position their member has now. */
  ghost predicate Indexed(its0: seq<nat>, nodes0: map<nat, Node>, nodes: map<nat, Node>, first: nat, last: nat, next: nat)
    requires first <= last <= next <= |its0|
  {
    && (forall q :: 0 <= q < |its0| && !(first <= q < last) ==> its0[q] in nodes)
    && (forall n :: n in nodes ==> Repositioned(n, nodes0, nodes, first, last, next))
  }

  ghost predicate Repositioned(n: nat, nodes0: map<nat, Node>, nodes: map<nat, Node>, first: nat, last: nat, next: nat)
    requires n in nodes && first <= last
  {
    && n in nodes0 && !(first <= nodes0[n].index < last)
    && nodes[n] == nodes0[n].(index := NewPosition(nodes0[n].index, first, last, next))
  }

  /** The index after one member is removed. */
  lemma IndexWithout(ms: seq<Member>, its: seq<nat>, nodes: map<nat, Node>, pos: nat)
    requires Index(ms, its, nodes) && pos < |ms|
    ensures var last, rest := |ms| - 1, nodes - {its[pos]};
      && (pos == last ==> Index(ms[..last], its[..last], rest))
      && (pos < last ==> its[last] in rest && Index(WithoutMember(ms, pos), its[pos := its[last]][..last],
                                                    rest[its[last] := rest[its[last]].(index := pos)]))
  {
    var last, rest := |ms| - 1, nodes - {its[pos]};
    if pos != last {
      var ms1, its1 := WithoutMember(ms, pos), its[pos := its[last]][..last];
      var nodes1 := rest[its[last] := rest[its[last]].(index := pos)];
      forall i | 0 <= i < |ms1| ensures its1[i] in nodes1 && nodes1[its1[i]] == Node(NameOf(ms1[i]), i) {
        if i != pos { assert its1[i] == its[i] && ms1[i] == ms[i]; }
      }
    }
  }

  lemma NoNewNodes(its0: seq<nat>, nodes0: map<nat, Node>, nodes: map<nat, Node>, first: nat, last: nat)
    requires first <= last <= |its0| && Indexed(its0, nodes0, nodes, first, last, |its0|)
    ensures forall n :: n in nodes ==> n in nodes0
  {
    forall n | n in nodes ensures n in nodes0 { assert Repositioned(n, nodes0, nodes, first, last, |its0|); }
  }

  lemma MoveOne<T>(s0: seq<T>, s: seq<T>, first: nat, last: nat, next: nat)
    requires first < last <= next < |s0| == |s| && MovedDown(s0, s, first, last, next)
    ensures MovedDown(s0, s[next - (last - first) := s[next]], first, last, next + 1)
  {
  }

  lemma AllMoved<T>(s0: seq<T>, s: seq<T>, first: nat, last: nat)
    requires first <= last <= |s0| == |s| && MovedDown(s0, s, first, last, |s0|)
    ensures s[..|s0| - (last - first)] == s0[..first] + s0[last..]
  {
    var d := last - first;
    forall i | first <= i < |s0| - d ensures s[i] == s0[i + d] { assert s[(i + d) - d] == s0[i + d]; }
  }

  /** Iterators and members correspond one to one. */
  ghost predicate Index(ms: seq<Member>, its: seq<nat>, nodes: map<nat, Node>) {
    && Named(ms) && |its| == |ms|
    && (forall i :: 0 <= i < |ms| ==> its[i] in nodes && nodes[its[i]] == Node(NameOf(ms[i]), i))
    && (forall n :: n in nodes ==> nodes[n].index < |ms| && its[nodes[n].index] == n)
  }

  /** The map has one node for each member. */
  lemma NodeCount(ms: seq<Member>, its: seq<nat>, nodes: map<nat, Node>)
    requires Index(ms, its, nodes)
    ensures |nodes| == |ms|
  {
    DistinctCount(its);
    assert nodes.Keys == Elements(its) by {
      forall n | n in nodes.Keys ensures n in its { assert its[nodes[n].index] == n; }
    }
  }

  function Elements(s: seq<nat>): set<nat> { set n | n in s }

  lemma {:induction false} DistinctCount(s: seq<nat>)
    requires forall i, j :: 0 <= i < j < |s| ==> s[i] != s[j]
    ensures |Elements(s)| == |s|
  {
    if |s| > 0 {
      var last := |s| - 1;
      DistinctCount(s[..last]);
      assert s == s[..last] + [s[last]];
      assert Elements(s) == Elements(s[..last]) + {s[last]};
      assert s[last] !in Elements(s[..last]);
    }
  }

  lemma MoveIndex(its0: seq<nat>, nodes0: map<nat, Node>, nodes: map<nat, Node>, first: nat, last: nat, next: nat,
                  ms0: seq<Member>)
    requires first < last <= next < |its0| && Index(ms0, its0, nodes0) && Indexed(its0, nodes0, nodes, first, last, next)
    ensures its0[next] in nodes
    ensures Indexed(its0, nodes0, nodes[its0[next] := nodes[its0[next]].(index := next - (last - first))], first, last, next + 1)
  {
    var n := its0[next];
    var after := nodes[n := nodes[n].(index := next - (last - first))];
    forall k | k in after ensures Repositioned(k, nodes0, after, first, last, next + 1) {
      assert Repositioned(k, nodes0, nodes, first, last, next);
    }
  }

  /** The members [last, next) have moved down, in the array, among the iterators and in the map. */
  ghost predicate Shifting(ms0: seq<Member>, its0: seq<nat>, nodes0: map<nat, Node>,
                           ms: seq<Member>, its: seq<nat>, nodes: map<nat, Node>, first: nat, last: nat, next: nat)
  {
    && first < last <= next <= |ms0| == |its0| == |ms| == |its| && MovedDown(ms0, ms, first, last, next)
    && MovedDown(its0, its, first, last, next) && Indexed(its0, nodes0, nodes, first, last, next)
  }

  lemma ShiftOne(ms0: seq<Member>, its0: seq<nat>, nodes0: map<nat, Node>,
                 ms: seq<Member>, its: seq<nat>, nodes: map<nat, Node>, first: nat, last: nat, next: nat)
    requires Shifting(ms0, its0, nodes0, ms, its, nodes, first, last, next) && next < |ms0| && Index(ms0, its0, nodes0)
    ensures var itr, n := next - (last - first), its[next];
      && n in nodes
      && Shifting(ms0, its0, nodes0, ms[itr := ms[next]], its[itr := n], nodes[n := nodes[n].(index := itr)],
                  first, last, next + 1)
  {
    MoveOne(ms0, ms, first, last, next);
    MoveOne(its0, its, first, last, next);
    MoveIndex(its0, nodes0, nodes, first, last, next, ms0);
  }

  lemma ShiftedAll(ms0: seq<Member>, its0: seq<nat>, nodes0: map<nat, Node>,
                   ms: seq<Member>, its: seq<nat>, nodes: map<nat, Node>, first: nat, last: nat)
    requires Shifting(ms0, its0, nodes0, ms, its, nodes, first, last, |ms0|)
    ensures ms[..|ms0| - (last - first)] == ms0[..first] + ms0[last..]
    ensures its[..|ms0| - (last - first)] == its0[..first] + its0[last..]
    ensures Indexed(its0, nodes0, nodes, first, last, |its0|)
  {
    AllMoved(ms0, ms, first, last);
    AllMoved(its0, its, first, last);
  }

  /** What is left is indexed again. */
  lemma IndexedAgain(ms0: seq<Member>, its0: seq<nat>, nodes0: map<nat, Node>, nodes: map<nat, Node>, first: nat, last: nat)
    requires first <= last <= |its0| && Index(ms0, its0, nodes0) && Indexed(its0, nodes0, nodes, first, last, |its0|)
    ensures Index(ms0[..first] + ms0[last..], its0[..first] + its0[last..], nodes)
  {
    var ms, its, d := ms0[..first] + ms0[last..], its0[..first] + its0[last..], last - first;
    forall i | 0 <= i < |ms| ensures its[i] in nodes && nodes[its[i]] == Node(NameOf(ms[i]), i) {
      var q := if i < first then i else i + d;
      assert its[i] == its0[q] && ms[i] == ms0[q];
      assert Repositioned(its0[q], nodes0, nodes, first, last, |its0|);
    }
    forall n | n in nodes ensures nodes[n].index < |ms| && its[nodes[n].index] == n {
      assert Repositioned(n, nodes0, nodes, first, last, |its0|);
    }
  }
}
