/** The frame lists of one device under any interleaving of the threads that take frames (src/mm-memphy.c, src/mm.c).

    alloc_pages_range takes a frame under the lock with MEMPHY_get_freefp and enters it in the used list under the lock again
    with MEMPHY_put_usedfp; in between the frame is in the hands of the thread.
 */
module FrameLists {
  import opened Counting
  import Paging

  /** The frame a thread is carrying from one list to the other, if any. */
  datatype Hand = Idle | Carrying(fpn: nat)

  datatype Lists = Lists(free: seq<nat>, used: seq<nat>, hands: seq<Hand>)

  datatype Action = TakeFree(t: nat) | PutUsed(t: nat)

  predicate Enabled(l: Lists, a: Action) {
    a.t < |l.hands| && if a.TakeFree? then l.hands[a.t] == Idle else l.hands[a.t].Carrying?
  }

  /** TakeFree finds the list empty or pops its head; PutUsed pushes the frame. */
  function Step(l: Lists, a: Action): Lists
    requires Enabled(l, a)
  {
    match a
    case TakeFree(t) =>
      if l.free == [] then l else Lists(l.free[1..], l.used, l.hands[t := Carrying(l.free[0])])
    case PutUsed(t) => Lists(l.free, [l.hands[t].fpn] + l.used, l.hands[t := Idle])
  }

  function Carried(hands: seq<Hand>, f: nat): nat {
    if hands == [] then 0 else One(hands[0] == Carrying(f)) + Carried(hands[1..], f)
  }

  /** Every frame of the device is in exactly one of: the free list, the used list, one thread's hand. */
  ghost predicate Tracked(l: Lists, n: nat) {
    forall f: nat :: multiset(l.free)[f] + multiset(l.used)[f] + Carried(l.hands, f) == One(f < n)
  }

  /** With nothing in transit this is the conservation of a device's frames. */
  lemma IdleIsConserved(d: Paging.Device, hands: seq<Hand>)
    requires forall t :: 0 <= t < |hands| ==> hands[t] == Idle
    ensures Tracked(Lists(d.free, d.used, hands), |d.frames|) <==> Paging.Conserved(d)
  {
    forall f: nat ensures Carried(hands, f) == 0 {
      NoneCarried(hands, f);
    }
    if Tracked(Lists(d.free, d.used, hands), |d.frames|) {
      forall f: nat ensures multiset(d.free)[f] + multiset(d.used)[f] == One(f < |d.frames|) {
        assert Carried(hands, f) == 0;
      }
    }
  }

  lemma {:induction false} CarriedUpdate(hands: seq<Hand>, t: nat, h: Hand, f: nat)
    requires t < |hands|
    ensures Carried(hands[t := h], f) == Carried(hands, f) - One(hands[t] == Carrying(f)) + One(h == Carrying(f))
  {
    if t > 0 {
      assert hands[t := h][1..] == hands[1..][t - 1 := h];
      CarriedUpdate(hands[1..], t - 1, h, f);
    }
  }

  lemma StepTracked(l: Lists, a: Action, n: nat)
    requires Tracked(l, n) && Enabled(l, a)
    ensures Tracked(Step(l, a), n)
  {
    var l' := Step(l, a);
    forall f: nat ensures multiset(l'.free)[f] + multiset(l'.used)[f] + Carried(l'.hands, f) == One(f < n) {
      CarriedUpdate(l.hands, a.t, l'.hands[a.t], f);
      if a.TakeFree? && l.free != [] {
        assert l.free == [l.free[0]] + l.free[1..];
      }
    }
  }

  ghost predicate Trace(l: Lists, actions: seq<Action>)
    decreases |actions|
  {
    actions == [] || (Enabled(l, actions[0]) && Trace(Step(l, actions[0]), actions[1..]))
  }

  ghost function After(l: Lists, actions: seq<Action>): Lists
    requires Trace(l, actions)
    decreases |actions|
  {
    if actions == [] then l else After(Step(l, actions[0]), actions[1..])
  }

  /** Over every interleaving no frame is lost or handed out twice, also while frames are in transit or run out. */
  lemma {:induction false} RunTracked(l: Lists, actions: seq<Action>, n: nat)
    requires Tracked(l, n) && Trace(l, actions)
    ensures Tracked(After(l, actions), n)
    decreases |actions|
  {
    if actions != [] {
      StepTracked(l, actions[0], n);
      RunTracked(Step(l, actions[0]), actions[1..], n);
    }
  }

  lemma {:induction false} NoneCarried(hands: seq<Hand>, f: nat)
    requires forall t :: 0 <= t < |hands| ==> hands[t] == Idle
    ensures Carried(hands, f) == 0
  {
    if hands != [] {
      NoneCarried(hands[1..], f);
    }
  }

  /** MEMPHY_format lists every frame as free, in order. */
  lemma FormattedTracked(n: nat, threads: nat)
    ensures Tracked(Lists(Upto(n), [], seq(threads, _ => Idle)), n)
  {
    UptoIs(n);
    forall f: nat ensures multiset(Upto(n))[f] + Carried(seq(threads, _ => Idle), f) == One(f < n) {
      NoneCarried(seq(threads, _ => Idle), f);
    }
  }
}
