/** The linked free-region list of src/mm-vm.c: nodes changed in place through pointers.

    `free` is modelled as leaving the node's memory as it was, so a dropped node stays readable; `nodes`
    is the ghost sequence of the nodes that the list still reaches, and `freed` the set of those given to `free`.
 */
module RegionList {
  import opened Regions

  class RgNode {
    var start: nat
    var end: nat
    var next: RgNode?

    constructor (start: nat, end: nat, next: RgNode?)
      ensures this.start == start && this.end == end && this.next == next
    {
      this.start, this.end, this.next := start, end, next;
    }

    /** delete_vm_rg_node: overwrite this node with its successor and unlink the successor. */
    method DeleteSelf()
      modifies this
      ensures old(next) != null ==> start == old(next.start) && end == old(next.end) && next == old(next.next)
      ensures old(next) == null ==> start == end == old(end) && next == null
    {
      if next != null {
        start, end, next := next.start, next.end, next.next;
      } else {
        start := end;
        next := null;
      }
    }
  }

  ghost predicate Distinct(ns: seq<RgNode>) {
    forall i, j :: 0 <= i < j < |ns| ==> ns[i] != ns[j]
  }

  /** Each node points to the next one, the last to null. */
  ghost predicate Linked(ns: seq<RgNode>)
    reads ns
  {
    forall i {:trigger ns[i].next} :: 0 <= i < |ns| ==> ns[i].next == if i + 1 < |ns| then ns[i + 1] else null
  }

  ghost function Regs(ns: seq<RgNode>): (l: seq<Region>)
    reads ns
    ensures |l| == |ns|
    ensures forall i :: 0 <= i < |l| ==> l[i] == Region(ns[i].start, ns[i].end)
  {
    seq(|ns|, i requires 0 <= i < |ns| reads ns => Region(ns[i].start, ns[i].end))
  }

  /** The sequence without the node after i. */
  ghost function DropNext(ns: seq<RgNode>, i: nat): (ms: seq<RgNode>)
    requires i < |ns|
    ensures |ms| == if i + 1 < |ns| then |ns| - 1 else |ns|
    ensures forall j :: 0 <= j <= i ==> ms[j] == ns[j]
    ensures forall j :: i < j < |ms| ==> ms[j] == ns[j + 1]
    ensures Distinct(ns) ==> Distinct(ms)
    ensures forall n :: n in ms ==> n in ns
  {
    if i + 1 < |ns| then ns[..i + 1] + ns[i + 2..] else ns
  }

  lemma DropNextIs(ns: seq<RgNode>, i: nat, l: seq<Region>)
    requires i < |ns| && |l| == |ns|
    requires forall j :: 0 <= j < |ns| && j != i ==> Region(ns[j].start, ns[j].end) == l[j]
    requires forall j {:trigger ns[j].next} :: 0 <= j < |ns| && j != i ==>
               ns[j].next == if j + 1 < |ns| then ns[j + 1] else null
    requires i + 1 < |ns| ==> Region(ns[i].start, ns[i].end) == l[i + 1]
    requires i + 1 == |ns| ==> ns[i].start == ns[i].end == l[i].end
    requires ns[i].next == if i + 2 < |ns| then ns[i + 2] else null
    ensures Linked(DropNext(ns, i)) && Regs(DropNext(ns, i)) == Delete(l, i)
  {
    var ms := DropNext(ns, i);
    forall j {:trigger ms[j].next} | 0 <= j < |ms| ensures ms[j].next == if j + 1 < |ms| then ms[j + 1] else null {
      assert ms[j] == if j <= i then ns[j] else ns[j + 1];
    }
    var regs := Regs(ms);
    forall j | 0 <= j < |ms| ensures regs[j] == Delete(l, i)[j] {
      assert ms[j] == if j <= i then ns[j] else ns[j + 1];
    }
  }

  lemma DropNextSkips(ns: seq<RgNode>, i: nat)
    requires Distinct(ns) && i + 1 < |ns|
    ensures ns[i + 1] !in DropNext(ns, i)
  {
  }

  /** The walk has passed k nodes, none of them (0,0), and u is the last of them that starts at a (|l| if none). */
  ghost predicate UpSoFar(l: seq<Region>, a: nat, k: nat, u: nat)
    requires k <= |l|
  {
    var r := LastStartingAt(l[k..], a);
    LastStartingAt(l, a) == if r < |l| - k then k + r else u
  }

  ghost predicate DownSoFar(l: seq<Region>, a: nat, k: nat, d: nat)
    requires k <= |l|
  {
    var r := LastEndingAt(l[k..], a);
    LastEndingAt(l, a) == if r < |l| - k then k + r else d
  }

  lemma WalkStep(l: seq<Region>, rg: Region, k: nat, u: nat, d: nat)
    requires k < |l| && l[k] != SENTINEL
    requires UpSoFar(l, rg.end, k, u) && DownSoFar(l, rg.start, k, d)
    ensures UpSoFar(l, rg.end, k + 1, if rg.end == l[k].start then k else u)
    ensures DownSoFar(l, rg.start, k + 1, if rg.start == l[k].end then k else d)
  {
    assert l[k..][1..] == l[k + 1..] && l[k..][0] == l[k];
  }

  /** Of n nodes, d directly follows u and is not the last. */
  predicate BadPair(u: nat, d: nat, n: nat) { u < n && d == u + 1 < n - 1 }

  /** Once the walk has found neighbours u and d. */
  lemma EnlistIs(l: seq<Region>, rg: Region, u: nat, d: nat)
    requires rg.start < rg.end && u == LastStartingAt(l, rg.end) && d == LastEndingAt(l, rg.start)
    ensures Enlist(l, rg) == EnlistAt(l, rg, u, d)
    ensures ListOk(l) ==> (BadOrder(l, rg) <==> BadPair(u, d, |l|))
    ensures ListOk(l) ==> (BadPair(u, d, |l|) <==> u < |l| && d == u + 1)
  {
    if ListOk(l) {
      UpIsProper(l, rg.start);
      UpIsProper(l, rg.end);
    }
  }

  class FreeList {
    var head: RgNode?
    ghost var nodes: seq<RgNode>
    /** Every node ever allocated for the list, dropped ones included. */
    ghost var repr: set<RgNode>
    ghost var freed: set<RgNode>

    ghost predicate Valid()
      reads this, repr, nodes
    {
      && |nodes| > 0
      && head == nodes[0]
      && (forall n :: n in nodes ==> n in repr)
      && Distinct(nodes)
      && Linked(nodes)
    }

    /** The list reaches no node that was freed. */
    ghost predicate Clean()
      reads this
    {
      freed <= repr && forall n :: n in nodes ==> n !in freed
    }

    /** The list as the sequence of its regions. */
    ghost function Contents(): (l: seq<Region>)
      reads this, nodes
    {
      Regs(nodes)
    }

    /** init_mm: a list that holds only the dummy node. */
    constructor ()
      ensures Valid() && Clean() && fresh(repr) && Contents() == [SENTINEL]
    {
      var first := new RgNode(0, 0, null);
      head := first;
      nodes := [first];
      repr := {first};
      freed := {};
    }

    /** delete_vm_rg_node: on node i of the list it is removal from the sequence; on a node that the list no
        longer reaches (i == |nodes|) it leaves the list as it is. Either way the target's successor is freed. */
    method DeleteNode(target: RgNode, ghost i: nat)
      requires Valid() && i <= |nodes|
      requires if i < |nodes| then target == nodes[i] else target !in nodes
      modifies this`nodes, this`freed, target
      ensures Valid() && nodes == if i < |old(nodes)| then DropNext(old(nodes), i) else old(nodes)
      ensures freed == old(freed) + if old(target.next) == null then {} else {old(target.next)}
      ensures i < |old(nodes)| && old(Clean()) ==> Clean()
      ensures Contents() == if i < |old(nodes)| then Delete(old(Contents()), i) else old(Contents())
    {
      ghost var l, was := Contents(), nodes;
      freed := freed + if target.next == null then {} else {target.next};
      target.DeleteSelf();
      if i < |was| {
        nodes := DropNext(was, i);
        DropNextIs(was, i, l);
        if i + 1 < |was| {
          DropNextSkips(was, i);
        }
      } else {
        assert Contents() == l;
      }
    }

    method PushFront(start: nat, end: nat)
      requires Valid()
      modifies this
      ensures Valid() && fresh(repr - old(repr)) && old(repr) <= repr && nodes == [head] + old(nodes)
      ensures freed == old(freed) && (old(Clean()) ==> Clean()) && head in repr - old(repr)
      ensures Contents() == [Region(start, end)] + old(Contents())
    {
      ghost var was, l := nodes, Contents();
      var node := new RgNode(start, end, head);
      assert node !in was;
      head := node;
      nodes := [node] + was;
      repr := repr + {node};
      forall i {:trigger nodes[i].next} | 0 <= i < |nodes|
        ensures nodes[i].next == if i + 1 < |nodes| then nodes[i + 1] else null
      {
        assert i > 0 ==> nodes[i] == was[i - 1];
      }
      assert Regs(was) == l;
      assert Regs(nodes) == [Region(start, end)] + l;
    }

    /** The walk of get_free_vmrg_area: the first node with room, or null. */
    method FindFit(size: nat) returns (rgit: RgNode?, ghost k: nat)
      requires Valid()
      ensures k == FirstFit(Contents(), size)
      ensures rgit == (if k < |nodes| then nodes[k] else null)
    {
      ghost var l := Contents();
      k, rgit := 0, head;
      while rgit != null && rgit.start + size > rgit.end
        invariant k <= |nodes| && rgit == (if k < |nodes| then nodes[k] else null)
        invariant FirstFit(l, size) == k + FirstFit(l[k..], size)
        decreases |nodes| - k
      {
        assert l[k..][1..] == l[k + 1..];
        rgit := rgit.next;
        k := k + 1;
      }
    }

    /** Moving the bounds of a node in place. */
    method Resize(target: RgNode, start: nat, end: nat, ghost i: nat)
      requires Valid() && i < |nodes| && target == nodes[i]
      modifies target`start, target`end
      ensures Valid() && Contents() == old(Contents())[i := Region(start, end)]
    {
      target.start, target.end := start, end;
    }

    /** get_free_vmrg_area once the walk has stopped: cut the region off the front of the node found. */
    method Cut(rgit: RgNode, size: nat, ghost k: nat) returns (rg: Region)
      requires Valid() && k < |nodes| && rgit == nodes[k]
      modifies this`nodes, this`freed, rgit
      ensures Valid() && (old(Clean()) ==> Clean()) && rg == Region(old(rgit.start), old(rgit.start) + size)
      ensures Contents() == TakeFrom(old(Contents()), k, size)
    {
      rg := Region(rgit.start, rgit.start + size);
      if rgit.start + size < rgit.end {
        Resize(rgit, rgit.start + size, rgit.end, k);
      } else {
        DeleteNode(rgit, k);
      }
    }

    method TakeFree(size: nat) returns (found: bool, rg: Region, ghost k: nat)
      requires Valid()
      modifies this`nodes, this`freed, repr
      ensures Valid() && (old(Clean()) ==> Clean())
      ensures k == FirstFit(old(Contents()), size) && (found <==> k < |old(Contents())|)
      ensures !found ==> Contents() == old(Contents())
      ensures found ==> var s := old(Contents())[k].start;
                        rg == Region(s, s + size) && Contents() == TakeFrom(old(Contents()), k, size)
    {
      var rgit;
      rgit, k := FindFit(size);
      if rgit == null {
        return false, SENTINEL, k;
      }
      found := true;
      rg := Cut(rgit, size, k);
    }

    /** The walk of enlist_vm_freerg_list up to the first (0,0) node: the last nodes that start where rg ends
        and end where it starts. */
    method FindNeighbours(rg: Region) returns (up: RgNode?, down: RgNode?, ghost u: nat, ghost d: nat)
      requires Valid()
      ensures u == LastStartingAt(Contents(), rg.end) && up == (if u < |nodes| then nodes[u] else null)
      ensures d == LastEndingAt(Contents(), rg.start) && down == (if d < |nodes| then nodes[d] else null)
    {
      ghost var l := Contents();
      up, down, u, d := null, null, |nodes|, |nodes|;
      var walk := head;
      ghost var k := 0;
      while walk != null && !(walk.start == 0 && walk.end == 0)
        invariant k <= |nodes| && walk == (if k < |nodes| then nodes[k] else null)
        invariant u <= |nodes| && up == (if u < |nodes| then nodes[u] else null)
        invariant d <= |nodes| && down == (if d < |nodes| then nodes[d] else null)
        invariant UpSoFar(l, rg.end, k, u) && DownSoFar(l, rg.start, k, d)
        decreases |nodes| - k
      {
        WalkStep(l, rg, k, u, d);
        if rg.end == walk.start {
          up, u := walk, k;
        }
        if rg.start == walk.end {
          down, d := walk, k;
        }
        walk := walk.next;
        k := k + 1;
      }
    }

    /** The deletions of the two-sided merge. When the lower neighbour directly follows the upper one, the first
        deletion unlinks the lower node and the second works on memory that the list has let go of: it frees the node behind
        the lower one, which the list still reaches. */
    method DeleteBothNodes(up: RgNode, down: RgNode, ghost u: nat, ghost d: nat)
      requires Valid() && u < |nodes| && d < |nodes| && up == nodes[u] && down == nodes[d]
      modifies this`nodes, this`freed, up, down
      ensures Valid() && Contents() == DeleteBoth(old(Contents()), u, d)
      ensures d != u + 1 && old(Clean()) ==> Clean()
      ensures d == u + 1 < |old(nodes)| - 1 ==> old(nodes)[d + 1] in nodes && old(nodes)[d + 1] in freed
    {
      ghost var was := nodes;
      DeleteNode(up, u);
      if d == u + 1 {
        DropNextSkips(was, u);
        if d + 1 < |was| {
          assert nodes[d] == was[d + 1];
          assert down.next == was[d + 1];
        }
      } else {
        assert down == nodes[if d <= u then d else d - 1];
      }
      DeleteNode(down, if d == u + 1 then |nodes| else if d <= u then d else d - 1);
    }

    /** enlist_vm_freerg_list once the walk is over. */
    method EnlistFound(rg: Region, up: RgNode?, down: RgNode?, ghost u: nat, ghost d: nat) returns (code: int)
      requires Valid() && u <= |nodes| && d <= |nodes|
      requires up == if u < |nodes| then nodes[u] else null
      requires down == if d < |nodes| then nodes[d] else null
      modifies this, repr
      ensures Valid() && fresh(repr - old(repr)) && old(repr) <= repr
      ensures Contents() == EnlistAt(old(Contents()), rg, u, d)
      ensures code == if (up == null) == (down == null) then 0 else 1
      ensures BadPair(u, d, |old(nodes)|) ==> !Clean()
      ensures !(u < |old(nodes)| && d == u + 1) && old(Clean()) ==> Clean()
    {
      if up != null && down == null {
        Resize(up, rg.start, up.end, u);
        return 1;
      } else if up == null && down != null {
        Resize(down, down.start, rg.end, d);
        return 1;
      } else if up != null && down != null {
        var start, end := down.start, up.end;
        DeleteBothNodes(up, down, u, d);
        PushFront(start, end);
      } else {
        PushFront(rg.start, rg.end);
      }
      code := 0;
    }

    /** enlist_vm_freerg_list on a region that is not empty. */
    method EnlistProper(rg: Region) returns (code: int, ghost u: nat, ghost d: nat)
      requires Valid() && rg.start < rg.end
      modifies this, repr
      ensures Valid() && fresh(repr - old(repr)) && old(repr) <= repr
      ensures u == LastStartingAt(old(Contents()), rg.end) && d == LastEndingAt(old(Contents()), rg.start)
      ensures Contents() == EnlistAt(old(Contents()), rg, u, d)
      ensures code == if (u < |old(nodes)|) == (d < |old(nodes)|) then 0 else 1
      ensures BadPair(u, d, |old(nodes)|) ==> !Clean()
      ensures !(u < |old(nodes)| && d == u + 1) && old(Clean()) ==> Clean()
    {
      var up, down;
      up, down, u, d := FindNeighbours(rg);
      code := EnlistFound(rg, up, down, u, d);
    }

    /** enlist_vm_freerg_list */
    method EnlistRegion(rg: Region) returns (code: int)
      requires Valid()
      modifies this, repr
      ensures Valid() && fresh(repr - old(repr)) && old(repr) <= repr
      ensures Contents() == Enlist(old(Contents()), rg)
      ensures var l := old(Contents());
              code == if rg.start >= rg.end then -1
                      else if (LastStartingAt(l, rg.end) < |l|) == (LastEndingAt(l, rg.start) < |l|) then 0
                      else 1
      ensures old(Clean()) && ListOk(old(Contents())) ==> (Clean() <==> !BadOrder(old(Contents()), rg))
    {
      if rg.start >= rg.end {
        return -1;
      }
      ghost var l, u, d := Contents(), 0, 0;
      code, u, d := EnlistProper(rg);
      EnlistIs(l, rg, u, d);
    }
  }
}
