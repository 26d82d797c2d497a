/** The single-threaded token propagation and firing core: counters of one
 *  running instance ("colour") over a shared topology, the plain forms of
 *  the counter primitives, the wrap-around traversal of a place's
 *  followers, and mark / unmark / try-fire.
 */
module Runtime {
  import opened PetriNet

  /** What an action reports, and what an attempt to fire returns: success,
   *  failure, or a deferral by `delay` time units. */
  datatype RetCode = Success | Failure | Defer(delay: nat)

  /** The action registered on each transition, as a function of the
   *  transition reference.  It runs quickly and cannot re-enter the engine. */
  type Action = nat -> RetCode

  /** Compare-and-swap on one counter: stores `desired` only when the counter
   *  holds `expected`, and always returns what it held before. */
  method Cas<T(==)>(a: array<T>, i: nat, expected: T, desired: T) returns (prior: T)
    requires i < a.Length
    modifies a
    ensures prior == old(a[i])
    ensures a[..] == if old(a[i]) == expected then old(a[..])[i := desired] else old(a[..])
  {
    prior := a[i];
    if prior == expected {
      a[i] := desired;
    }
  }

  /** Swap: stores `desired` and returns the previous value. */
  method Xcg<T>(a: array<T>, i: nat, desired: T) returns (prior: T)
    requires i < a.Length
    modifies a
    ensures prior == old(a[i]) && a[..] == old(a[..])[i := desired]
  {
    prior := a[i];
    a[i] := desired;
  }

  /** The read / compute / compare-and-swap retry loop every counter update
   *  goes through.  With a single thread the first round always succeeds. */
  method FetchAdd(a: array<nat>, i: nat, delta: int) returns (prior: nat)
    requires i < a.Length && a[i] + delta >= 0
    modifies a
    ensures prior == old(a[i]) && a[..] == old(a[..])[i := prior + delta]
  {
    prior := a[i];
    var done := false;
    while !done
      invariant !done ==> a[..] == old(a[..])
      invariant done ==> prior == old(a[i]) && a[..] == old(a[..])[i := prior + delta]
      decreases if done then 0 else 1
    {
      prior := a[i];
      var seen := Cas(a, i, prior, prior + delta);
      done := seen == prior;
    }
  }

  /** The entries of s in reverse order. */
  function Rev(s: seq<nat>): (r: seq<nat>)
    ensures |r| == |s|
  {
    if s == [] then [] else Rev(s[1..]) + [s[0]]
  }

  /** Reversal keeps every entry exactly as often as it was. */
  lemma {:induction false} RevCounts(s: seq<nat>)
    ensures multiset(Rev(s)) == multiset(s)
  {
    if s != [] {
      RevCounts(s[1..]);
      assert s == [s[0]] + s[1..];
    }
  }

  /** Walking a suffix of s downwards one more step takes in s[lo - 1]. */
  lemma RevStep(s: seq<nat>, lo: nat, hi: nat)
    requires 1 <= lo <= hi <= |s|
    ensures Rev(s[lo - 1..hi]) == Rev(s[lo..hi]) + [s[lo - 1]]
  {
    assert s[lo - 1..hi][1..] == s[lo..hi];
  }

  /** The order in which mark_place offers a token to the entries of a
   *  length-prefixed list, starting at entry `start`: from entry start down
   *  to the first, then from the last entry down to start, exclusive. */
  function Rotation(list: seq<nat>, start: nat): (r: seq<nat>)
    requires |list| >= 1 && start < |list|
    ensures |r| == |list| - 1
  {
    Rev(list[1..][..start]) + Rev(list[1..][start..])
  }

  /** The wrap-around walk offers every entry of the list, and each exactly
   *  as often as the list holds it. */
  lemma RotationCounts(list: seq<nat>, start: nat)
    requires |list| >= 1 && start < |list|
    ensures multiset(Rotation(list, start)) == multiset(Entries(list))
  {
    var e := list[1..];
    RevCounts(e[..start]);
    RevCounts(e[start..]);
    assert e[..start] + e[start..] == e;
  }

  /** The walk mark_place takes over the normal followers of p offers each
   *  of them as often as p feeds it, and nothing else. */
  lemma WalkCoversFollowers(net: Topology, p: nat, order: seq<nat>)
    requires WellFormed(net) && 1 <= p <= |net.places|
    requires net.places[p - 1].transOut[0] > 0 ==> order == Rotation(net.places[p - 1].transOut, 1)
    requires net.places[p - 1].transOut[0] == 0 ==> order == []
    ensures multiset(order) == multiset(Entries(Outs(net, p)))
    ensures forall x :: multiset(order)[x] == Arcs(Outs(net, p), x)
    ensures InRange(order, |net.transitions|)
  {
    var l := net.places[p - 1].transOut;
    assert RefList(l, |net.transitions|);
    if l[0] > 0 {
      RotationCounts(l, 1);
    }
    forall x ensures multiset(order)[x] == Arcs(l, x) {
      OccurrencesCount(l, x, 1);
    }
    InRangeByCounts(order, Entries(l), |net.transitions|);
  }

  /** Entries in range stay in range under any reordering. */
  lemma InRangeByCounts(a: seq<nat>, b: seq<nat>, n: nat)
    requires multiset(a) == multiset(b) && InRange(b, n)
    ensures InRange(a, n)
  {
    forall i | 0 <= i < |a| ensures 1 <= a[i] <= n {
      assert a[i] in multiset(b);
    }
  }

  /** The wrap-around walk over the entries of a length-prefixed list, as the
   *  traversal loops of mark_place run it: at index 0 the index jumps to the
   *  count held there, and the walk stops when the index is back at `start`.
   *  An empty list yields nothing (see the finding on the loop as written). */
  method WrapAround(list: seq<nat>, start: nat) returns (visited: seq<nat>)
    requires |list| >= 1 && list[0] == |list| - 1
    requires list[0] == 0 || 1 <= start <= list[0]
    ensures list[0] > 0 ==> visited == Rotation(list, start)
    ensures list[0] == 0 ==> visited == []
  {
    var count := list[0];
    visited := [];
    if count == 0 {
      return;
    }
    ghost var e := list[1..];
    var here := start;
    ghost var wrapped := false;
    while true
      invariant !wrapped ==> 0 <= here <= start && visited == Rev(e[here..start])
      invariant wrapped ==> start < here <= count && visited == Rev(e[..start]) + Rev(e[here..count])
      decreases if wrapped then here - start else here + 1 + count - start
    {
      if here == 0 {
        here := list[here];
        wrapped := true;
        assert e[0..start] == e[..start] && e[count..count] == [];
      } else {
        assert list[here] == e[here - 1];
        RevStep(e, here, if wrapped then count else start);
        visited := visited + [list[here]];
        here := here - 1;
      }
      if here == start {
        break;
      }
    }
    assert e[start..count] == e[start..];
  }

  /** The traversal index after `k` rounds of the loop exactly as written,
   *  where the loop stops only when the index is back at `start`. */
  function AsWrittenHere(count: nat, start: nat, k: nat): nat {
    if k == 0 then start
    else
      var here := AsWrittenHere(count, start, k - 1);
      if here == 0 then count else here - 1
  }

  /** As written, the walk over an empty list from start 1 never returns to
   *  its start: after the first round the index is stuck at 0. */
  lemma {:induction false} EmptyListWalkNeverEnds(k: nat)
    requires k >= 1
    ensures AsWrittenHere(0, 1, k) == 0
    ensures AsWrittenHere(0, 1, k) != 1
  {
    if k > 1 {
      EmptyListWalkNeverEnds(k - 1);
    }
  }

  /** The order in which mark_place walks the normal followers of place p:
   *  around from the first entry, or nowhere when p has none. */
  function FollowerWalk(net: Topology, p: nat): seq<nat> {
    var l := Outs(net, p);
    if |l| >= 2 then Rotation(l, 1) else []
  }

  /** Transition t fires when tried under countdowns c and deferral times nb
   *  at time now: it has no unmet precondition, its deferral has elapsed and
   *  its action succeeds. */
  ghost predicate Fireable(t: nat, c: seq<nat>, nb: seq<int>, now: int, act: Action) {
    1 <= t <= |c| && t <= |nb| && c[t - 1] == 0 && nb[t - 1] <= now && act(t) == Success
  }

  /** No transition along the walk fires. */
  ghost predicate NoneFireable(order: seq<nat>, c: seq<nat>, nb: seq<int>, now: int, act: Action) {
    forall j :: 0 <= j < |order| ==> !Fireable(order[j], c, nb, now, act)
  }

  /** Position k holds the first transition along the walk that fires. */
  ghost predicate FirstToFire(order: seq<nat>, k: nat, c: seq<nat>, nb: seq<int>, now: int, act: Action) {
    k < |order| && Fireable(order[k], c, nb, now, act) &&
    forall j :: 0 <= j < k ==> !Fireable(order[j], c, nb, now, act)
  }

  /** Transition i + 1 lies on the walk, is tried, and its action defers. */
  ghost predicate DefersOn(order: seq<nat>, c: seq<nat>, nb: seq<int>, now: int, act: Action, i: nat) {
    i + 1 in order && i < |c| && i < |nb| && c[i] == 0 && nb[i] <= now && act(i + 1).Defer?
  }

  /** One pass of try_trans's output loop: after marking output place
   *  l[here], the token count still equals the start plus the arcs counted
   *  so far plus the flow of everything fired so far, and everything fired
   *  so far had a successful action. */
  lemma OutputStep(net: Topology, l: seq<nat>, here: nat, m0: seq<int>, m1: seq<int>, m2: seq<int>,
                   fired: seq<nat>, f: seq<nat>, act: Action)
    requires 1 <= here < |l| && |m1| == |m0| && |m2| == |m0|
    requires forall i :: 0 <= i < |m0| ==> m1[i] == m0[i] + Occurrences(l, i + 1, here + 1) + Flow(net, fired, i + 1)
    requires forall i :: 0 <= i < |m0| ==> m2[i] == m1[i] + (if i + 1 == l[here] then 1 else 0) + Flow(net, f, i + 1)
    requires Succeeded(fired, act) && Succeeded(f, act)
    ensures forall i :: 0 <= i < |m0| ==> m2[i] == m0[i] + Occurrences(l, i + 1, here) + Flow(net, fired + f, i + 1)
    ensures Succeeded(fired + f, act)
  {
    forall i | 0 <= i < |m0|
      ensures m2[i] == m0[i] + Occurrences(l, i + 1, here) + Flow(net, fired + f, i + 1)
    {
      FlowAppend(net, fired, f, i + 1);
    }
    SucceededAppend(fired, f, act);
  }

  /** From deferral times nb0 to nb only deferrals happened: every time that
   *  changed is now + delay for a transition whose action deferred. */
  ghost predicate DeferralsOnly(nb0: seq<int>, nb: seq<int>, now: int, act: Action) {
    |nb| == |nb0| &&
    forall i :: 0 <= i < |nb| && nb[i] != nb0[i] ==> act(i + 1).Defer? && nb[i] == now + act(i + 1).delay
  }

  /** Deferrals after deferrals are deferrals. */
  lemma DeferralsCompose(nb0: seq<int>, nb1: seq<int>, nb2: seq<int>, now: int, act: Action)
    requires DeferralsOnly(nb0, nb1, now, act) && DeferralsOnly(nb1, nb2, now, act)
    ensures DeferralsOnly(nb0, nb2, now, act)
  {
    forall i | 0 <= i < |nb2| && nb2[i] != nb0[i]
      ensures act(i + 1).Defer? && nb2[i] == now + act(i + 1).delay
    {
      if nb2[i] == nb1[i] {
        assert nb1[i] != nb0[i];
      }
    }
  }

  /** The deferral times after a walk that fires nothing: every transition on
   *  the walk whose action deferred waits until now + delay, every other
   *  keeps its time. */
  ghost function AfterDeferrals(order: seq<nat>, c: seq<nat>, nb: seq<int>, now: int, act: Action): (r: seq<int>)
    ensures |r| == |nb| && DeferralsOnly(nb, r, now, act)
  {
    seq(|nb|, i requires 0 <= i < |nb| =>
      if DefersOn(order, c, nb, now, act, i) then now + act(i + 1).delay else nb[i])
  }

  /** Every transition reported as fired had an action that succeeded. */
  ghost predicate Succeeded(fired: seq<nat>, act: Action) {
    forall k :: 0 <= k < |fired| ==> act(fired[k]) == Success
  }

  lemma SucceededAppend(a: seq<nat>, b: seq<nat>, act: Action)
    requires Succeeded(a, act) && Succeeded(b, act)
    ensures Succeeded(a + b, act)
  {
    forall k | 0 <= k < |a + b| ensures act((a + b)[k]) == Success {
      if k >= |a| {
        assert (a + b)[k] == b[k - |a|];
      }
    }
  }

  /** Extending a prefix by one entry counts that entry once more, and
   *  within the whole sequence there is room for it. */
  lemma PrefixCount(ts: seq<nat>, k: nat)
    requires k < |ts|
    ensures forall x :: multiset(ts[..k + 1])[x] == multiset(ts[..k])[x] + (if x == ts[k] then 1 else 0)
    ensures multiset(ts[..k + 1])[ts[k]] <= multiset(ts)[ts[k]]
  {
    assert ts[..k + 1] == ts[..k] + [ts[k]];
    assert ts == ts[..k + 1] + ts[k + 1..];
  }

  /** What the firing pass of mark_place achieves over a walk, from countdowns
   *  c and deferral times nb: it fires exactly when some transition on the
   *  walk can fire, it starts with the first such one, and when it fires
   *  nothing the deferral times are those the tried actions asked for. */
  ghost predicate OfferOutcome(order: seq<nat>, c: seq<nat>, nb: seq<int>, now: int, act: Action,
                               fired: seq<nat>, nb2: seq<int>) {
    (fired == [] <==> NoneFireable(order, c, nb, now, act)) &&
    (fired != [] ==> exists k: nat :: FirstToFire(order, k, c, nb, now, act) && fired[0] == order[k]) &&
    (fired == [] ==> nb2 == AfterDeferrals(order, c, nb, now, act))
  }

  /** Trying one more transition t of the walk, without it firing, moves the
   *  deferral times on as the longer walk prescribes. */
  lemma AfterDeferralsStep(order: seq<nat>, t: nat, c: seq<nat>, nb: seq<int>, nb2: seq<int>, now: int, act: Action)
    requires 1 <= t <= |c| && |c| == |nb|
    requires var nb1 := AfterDeferrals(order, c, nb, now, act);
             nb2 == if c[t - 1] == 0 && nb1[t - 1] <= now && act(t).Defer? then nb1[t - 1 := now + act(t).delay] else nb1
    ensures nb2 == AfterDeferrals(order + [t], c, nb, now, act)
  {
    var nb1 := AfterDeferrals(order, c, nb, now, act);
    var after := AfterDeferrals(order + [t], c, nb, now, act);
    forall i | 0 <= i < |nb| ensures nb2[i] == after[i] {
      assert i + 1 in order + [t] <==> i + 1 in order || i + 1 == t;
    }
  }

  /** One running instance: the per-place and per-transition counters over a
   *  shared, immutable topology. */
  class Colour {
    const net: Topology
    const available: array<nat>
    const countdown: array<nat>
    const notbefore: array<int>

    /** Every countdown equals the number of unmet preconditions of its
     *  transition under the current marking. */
    ghost predicate Valid()
      reads available, countdown
    {
      Shaped() && CountdownsMatch(net, available[..], countdown[..])
    }

    /** The counter arrays are distinct and sized to the topology. */
    ghost predicate Shaped() {
      available != countdown &&
      available.Length == |net.places| &&
      countdown.Length == |net.transitions| && notbefore.Length == |net.transitions|
    }

    constructor (net: Topology, marking: seq<nat>, countdowns: seq<nat>)
      requires CountdownsMatch(net, marking, countdowns)
      ensures Valid() && this.net == net
      ensures available[..] == marking && countdown[..] == countdowns
      ensures forall i :: 0 <= i < notbefore.Length ==> notbefore[i] == 0
      ensures fresh(available) && fresh(countdown) && fresh(notbefore)
    {
      this.net := net;
      available := new nat[|marking|](i requires 0 <= i < |marking| => marking[i]);
      countdown := new nat[|countdowns|](i requires 0 <= i < |countdowns| => countdowns[i]);
      notbefore := new int[|countdowns|](i => 0);
      new;
      assert available[..] == marking;
      assert countdown[..] == countdowns;
    }

    /** A transition is ready exactly when it is enabled. */
    function Ready(t: nat): (b: bool)
      reads available, countdown
      requires Valid() && 1 <= t <= countdown.Length
      ensures b <==> Enabled(net, available[..], t)
    {
      assert RefList(net.transitions[t - 1].placeIn, |net.places|);
      BlockedZeroIff(net, available[..], t);
      countdown[t - 1] == 0
    }

    /** Moves by `delta` the countdown of every transition in `ts`, once per
     *  occurrence, each through the compare-and-swap retry loop. */
    method Adjust(ts: seq<nat>, delta: int)
      requires InRange(ts, countdown.Length)
      requires delta == 1 || delta == -1
      requires delta == -1 ==> forall i :: 0 <= i < countdown.Length ==> countdown[i] >= multiset(ts)[i + 1]
      modifies countdown
      ensures forall i :: 0 <= i < countdown.Length ==>
                countdown[i] == old(countdown[i]) + delta * multiset(ts)[i + 1]
    {
      for k := 0 to |ts|
        invariant forall i :: 0 <= i < countdown.Length ==>
                    countdown[i] == old(countdown[i]) + delta * multiset(ts[..k])[i + 1]
      {
        PrefixCount(ts, k);
        var prior := FetchAdd(countdown, ts[k] - 1, delta);
      }
      assert ts[..|ts|] == ts;
    }

    /** Moves by `delta` the countdown of every transition in a
     *  length-prefixed list, walking it from the last entry to the first as
     *  the counting loops of mark_place and unmark_place do. */
    method AdjustAll(list: seq<nat>, delta: int)
      requires RefList(list, countdown.Length) && (delta == 1 || delta == -1)
      requires delta == -1 ==> forall i :: 0 <= i < countdown.Length ==> countdown[i] >= Arcs(list, i + 1)
      modifies countdown
      ensures forall i :: 0 <= i < countdown.Length ==>
                countdown[i] == old(countdown[i]) + delta * Arcs(list, i + 1)
    {
      ghost var c0 := countdown[..];
      var here := list[0];
      while here > 0
        invariant 0 <= here <= list[0]
        invariant forall i :: 0 <= i < countdown.Length ==>
                    countdown[i] == c0[i] + delta * Occurrences(list, i + 1, here + 1)
      {
        OccurrencesShrink(list, list[here], 1, here);
        var prior := FetchAdd(countdown, list[here] - 1, delta);
        here := here - 1;
      }
    }

    /** mark_place: adds `incr` tokens to place p.  When p goes from empty to
     *  marked, every transition it inhibits gains a precondition and every
     *  normal follower loses one; then the followers, walked from the start
     *  of the list around, are offered the token and the first that fires
     *  ends the offer.  `fired` lists every transition fired as a result. */
    method MarkPlace(p: nat, incr: nat, now: int, act: Action, fuel: nat) returns (fired: seq<nat>)
      requires Valid() && 1 <= p <= available.Length && incr > 0
      modifies available, countdown, notbefore
      ensures Valid()
      ensures InRange(fired, countdown.Length) && Succeeded(fired, act)
      ensures forall i :: 0 <= i < available.Length ==>
                available[i] == old(available[i]) + (if i == p - 1 then incr else 0) + Flow(net, fired, i + 1)
      ensures old(available[p - 1]) > 0 ==> fired == [] && notbefore[..] == old(notbefore[..])
      ensures old(available[p - 1]) == 0 && fuel > 0 ==>
                OfferOutcome(FollowerWalk(net, p), Countdowns(net, old(available[..])[p - 1 := incr]),
                             old(notbefore[..]), now, act, fired, notbefore[..])
      ensures fuel == 0 ==> fired == [] && notbefore[..] == old(notbefore[..])
      ensures DeferralsOnly(old(notbefore[..]), notbefore[..], now, act)
      decreases fuel, 2
    {
      ghost var m0 := available[..];
      var prev := FetchAdd(available, p - 1, incr);
      assert m0[p - 1] == prev;
      fired := [];
      if prev > 0 {
        CountdownsWhileMarked(net, m0, countdown[..], p, prev + incr);
        return;
      }
      assert available[..] == m0[p - 1 := incr];
      fired := Spread(p, m0, now, act, fuel);
    }

    /** What mark_place does once place p has gone from empty to marked: the
     *  counter passes, then, fuel permitting, the firing pass. */
    method Spread(p: nat, ghost m0: seq<nat>, now: int, act: Action, fuel: nat) returns (fired: seq<nat>)
      requires Shaped() && 1 <= p <= available.Length && available[p - 1] > 0
      requires CountdownsMatch(net, m0, countdown[..]) && m0[p - 1] == 0 && available[..] == m0[p - 1 := available[p - 1]]
      modifies available, countdown, notbefore
      ensures Valid()
      ensures InRange(fired, countdown.Length) && Succeeded(fired, act)
      ensures forall i :: 0 <= i < available.Length ==> available[i] == old(available[i]) + Flow(net, fired, i + 1)
      ensures fuel > 0 ==> OfferOutcome(FollowerWalk(net, p), Countdowns(net, old(available[..])),
                                        old(notbefore[..]), now, act, fired, notbefore[..])
      ensures fuel == 0 ==> fired == [] && notbefore[..] == old(notbefore[..])
      ensures DeferralsOnly(old(notbefore[..]), notbefore[..], now, act)
      decreases fuel, 1
    {
      var order := Announce(p, m0);
      CountdownsDetermined(net, available[..], countdown[..]);
      fired := [];
      if fuel > 0 {
        fired := Offer(order, now, act, fuel);
      }
    }

    /** The counter passes of mark_place once place p has gone from empty
     *  to marked: every transition p inhibits gains a precondition, then
     *  every normal follower, walked around from the first entry, loses
     *  one.  Returns the walk, which the firing pass repeats. */
    method Announce(p: nat, ghost m0: seq<nat>) returns (order: seq<nat>)
      requires Shaped() && 1 <= p <= available.Length && available[p - 1] > 0
      requires CountdownsMatch(net, m0, countdown[..]) && m0[p - 1] == 0 && available[..] == m0[p - 1 := available[p - 1]]
      modifies countdown
      ensures Valid()
      ensures InRange(order, countdown.Length)
      ensures multiset(order) == multiset(Entries(Outs(net, p)))
      ensures order == FollowerWalk(net, p)
    {
      var stat := net.places[p - 1];
      ghost var c0 := countdown[..];
      assert RefList(stat.transOut, |net.transitions|) && RefList(stat.transOutInh, |net.transitions|);
      AdjustAll(stat.transOutInh, 1);
      order := WrapAround(stat.transOut, 1);
      WalkCoversFollowers(net, p, order);
      CrossingKeepsNonNegative(net, m0, c0, p, available[p - 1]);
      Adjust(order, -1);
      CountdownsAfterSet(net, m0, c0, p, available[p - 1], countdown[..]);
    }

    /** The firing pass of mark_place: the transitions along `order` that
     *  have no unmet precondition are tried in turn until one fires. */
    method Offer(order: seq<nat>, now: int, act: Action, fuel: nat) returns (fired: seq<nat>)
      requires Valid() && InRange(order, countdown.Length) && fuel > 0
      modifies available, countdown, notbefore
      ensures Valid()
      ensures InRange(fired, countdown.Length) && Succeeded(fired, act)
      ensures forall i :: 0 <= i < available.Length ==> available[i] == old(available[i]) + Flow(net, fired, i + 1)
      ensures fired == [] ==> available[..] == old(available[..]) && countdown[..] == old(countdown[..])
      ensures OfferOutcome(order, old(countdown[..]), old(notbefore[..]), now, act, fired, notbefore[..])
      ensures DeferralsOnly(old(notbefore[..]), notbefore[..], now, act)
      decreases fuel, 0
    {
      ghost var c0, nb0 := countdown[..], notbefore[..];
      fired := [];
      for k := 0 to |order|
        invariant Valid() && available[..] == old(available[..]) && countdown[..] == c0
        invariant fired == []
        invariant NoneFireable(order[..k], c0, nb0, now, act)
        invariant notbefore[..] == AfterDeferrals(order[..k], c0, nb0, now, act)
      {
        var t := order[k];
        ghost var nb1 := notbefore[..];
        assert order[..k + 1] == order[..k] + [t];
        assert nb1[t - 1] == nb0[t - 1] || act(t).Defer?;
        if countdown[t - 1] == 0 {
          var r, f := TryTrans(t, now, act, fuel - 1);
          DeferralsCompose(nb0, nb1, notbefore[..], now, act);
          if r == Success {
            fired := f;
            assert FirstToFire(order, k, c0, nb0, now, act);
            return;
          }
        }
        AfterDeferralsStep(order[..k], t, c0, nb0, notbefore[..], now, act);
      }
      assert order[..|order|] == order;
    }

    /** unmark_place, as the mirror of mark_place: removes `decr` tokens from
     *  place p.  When p goes from marked to empty, every normal follower
     *  gains a precondition again and every transition it inhibits loses
     *  one. */
    method UnmarkPlace(p: nat, decr: nat)
      requires Valid() && 1 <= p <= available.Length && 0 < decr <= available[p - 1]
      modifies available, countdown
      ensures Valid()
      ensures available[..] == old(available[..])[p - 1 := old(available[p - 1]) - decr]
    {
      var stat := net.places[p - 1];
      assert RefList(stat.transOut, |net.transitions|) && RefList(stat.transOutInh, |net.transitions|);
      ghost var m0, c0 := available[..], countdown[..];
      var prev := FetchAdd(available, p - 1, -(decr as int));
      if prev == decr {
        AdjustAll(stat.transOut, 1);
        CrossingKeepsNonNegative(net, m0, c0, p, 0);
        AdjustAll(stat.transOutInh, -1);
      }
      CountdownsAfterSet(net, m0, c0, p, prev - decr, countdown[..]);
    }

    /** try_trans: attempts to fire t.  A transition with unmet
     *  preconditions is refused; one whose deferral has not elapsed is
     *  deferred by the time remaining; otherwise its action decides.  On
     *  success one token leaves every input place and one enters every
     *  output place, which may fire further transitions (at most `fuel`
     *  levels deep); on a deferral `notbefore` moves to now + delay. */
    method TryTrans(t: nat, now: int, act: Action, fuel: nat) returns (r: RetCode, fired: seq<nat>)
      requires Valid() && 1 <= t <= countdown.Length
      modifies available, countdown, notbefore
      ensures Valid()
      ensures InRange(fired, countdown.Length) && Succeeded(fired, act)
      ensures forall i :: 0 <= i < available.Length ==> available[i] == old(available[i]) + Flow(net, fired, i + 1)
      ensures r == Success <==> fired != []
      ensures r == Success ==> fired[0] == t && act(t) == Success && old(countdown[t - 1]) == 0 && old(notbefore[t - 1]) <= now
      ensures r != Success ==> available[..] == old(available[..]) && countdown[..] == old(countdown[..])
      ensures old(countdown[t - 1]) > 0 ==> r == Failure && notbefore[..] == old(notbefore[..])
      ensures old(countdown[t - 1]) == 0 && now < old(notbefore[t - 1]) ==>
                r == Defer(old(notbefore[t - 1]) - now) && notbefore[..] == old(notbefore[..])
      ensures old(countdown[t - 1]) == 0 && old(notbefore[t - 1]) <= now ==>
                r == act(t) &&
                (act(t) == Failure ==> notbefore[..] == old(notbefore[..])) &&
                (act(t).Defer? ==> notbefore[..] == old(notbefore[..])[t - 1 := now + act(t).delay])
      ensures fuel == 0 && r == Success ==> fired == [t] && notbefore[..] == old(notbefore[..])
      ensures DeferralsOnly(old(notbefore[..]), notbefore[..], now, act)
      decreases fuel, 6
    {
      fired := [];
      if countdown[t - 1] > 0 {
        return Failure, fired;
      }
      if now < notbefore[t - 1] {
        return Defer(notbefore[t - 1] - now), fired;
      }
      r := act(t);
      if r != Success {
        if r != Failure {
          notbefore[t - 1] := now + r.delay;
        }
        return;
      }
      assert RefList(net.transitions[t - 1].placeIn, |net.places|);
      BlockedZeroIff(net, available[..], t);
      TakeInputs(t);
      var f := PutOutputs(t, now, act, fuel);
      fired := [t] + f;
      assert fired[1..] == f;
    }

    /** Takes one token from every input place of an enabled transition. */
    method TakeInputs(t: nat)
      requires Valid() && 1 <= t <= countdown.Length && Enabled(net, available[..], t)
      modifies available, countdown
      ensures Valid()
      ensures forall i :: 0 <= i < available.Length ==> available[i] as int == old(available[i]) as int - Arcs(Inputs(net, t), i + 1)
    {
      var stat := net.transitions[t - 1];
      assert RefList(stat.placeIn, |net.places|) && DistinctRefs(stat.placeIn);
      ghost var m0 := available[..];
      var here := stat.placeIn[0];
      while here > 0
        invariant 0 <= here <= stat.placeIn[0]
        invariant Valid()
        invariant forall i :: 0 <= i < available.Length ==>
                    available[i] as int == m0[i] as int - Occurrences(stat.placeIn, i + 1, here + 1)
      {
        var q := stat.placeIn[here];
        DistinctLater(stat.placeIn, here, here + 1);
        ghost var before := available[..];
        UnmarkPlace(q, 1);
        forall i | 0 <= i < available.Length
          ensures available[i] as int == m0[i] as int - Occurrences(stat.placeIn, i + 1, here)
        {
          assert available[i] == before[i] - (if i == q - 1 then 1 else 0);
        }
        here := here - 1;
      }
    }

    /** Puts one token in every output place of t, collecting the transitions
     *  that fire as a consequence. */
    method PutOutputs(t: nat, now: int, act: Action, fuel: nat) returns (fired: seq<nat>)
      requires Valid() && 1 <= t <= countdown.Length
      modifies available, countdown, notbefore
      ensures Valid() && InRange(fired, countdown.Length) && Succeeded(fired, act)
      ensures forall i :: 0 <= i < available.Length ==>
                available[i] == old(available[i]) + Arcs(Outputs(net, t), i + 1) + Flow(net, fired, i + 1)
      ensures fuel == 0 ==> fired == [] && notbefore[..] == old(notbefore[..])
      ensures DeferralsOnly(old(notbefore[..]), notbefore[..], now, act)
      decreases fuel, 5
    {
      var stat := net.transitions[t - 1];
      assert RefList(stat.placeOut, |net.places|);
      fired := [];
      var here := stat.placeOut[0];
      ghost var m0 := available[..];
      while here > 0
        invariant 0 <= here <= stat.placeOut[0]
        invariant Valid() && InRange(fired, countdown.Length) && Succeeded(fired, act)
        invariant forall i :: 0 <= i < available.Length ==>
                    available[i] == m0[i] + Occurrences(stat.placeOut, i + 1, here + 1) + Flow(net, fired, i + 1)
        invariant fuel == 0 ==> fired == [] && notbefore[..] == old(notbefore[..])
        invariant DeferralsOnly(old(notbefore[..]), notbefore[..], now, act)
      {
        var f := OutputPass(stat.placeOut, here, m0, fired, old(notbefore[..]), now, act, fuel);
        fired := fired + f;
        here := here - 1;
      }
    }

    /** One pass of try_trans's output loop: output place l[here] gets its
     *  token, and the loop's account of the marking moves one arc on. */
    method OutputPass(l: seq<nat>, here: nat, ghost m0: seq<int>, ghost fired: seq<nat>, ghost nb0: seq<int>,
                      now: int, act: Action, fuel: nat)
      returns (f: seq<nat>)
      requires Valid() && 1 <= here < |l| && 1 <= l[here] <= available.Length && |m0| == available.Length
      requires forall i :: 0 <= i < available.Length ==>
                 available[i] == m0[i] + Occurrences(l, i + 1, here + 1) + Flow(net, fired, i + 1)
      requires InRange(fired, countdown.Length) && Succeeded(fired, act)
      requires DeferralsOnly(nb0, notbefore[..], now, act)
      requires fuel == 0 ==> fired == [] && notbefore[..] == nb0
      modifies available, countdown, notbefore
      ensures Valid() && InRange(fired + f, countdown.Length) && Succeeded(fired + f, act)
      ensures forall i :: 0 <= i < available.Length ==>
                available[i] == m0[i] + Occurrences(l, i + 1, here) + Flow(net, fired + f, i + 1)
      ensures DeferralsOnly(nb0, notbefore[..], now, act)
      ensures fuel == 0 ==> fired + f == [] && notbefore[..] == nb0
      decreases fuel, 4
    {
      ghost var m1, nb1 := available[..], notbefore[..];
      f := PutOutput(l[here], now, act, fuel);
      OutputStep(net, l, here, m0, m1, available[..], fired, f, act);
      DeferralsCompose(nb0, nb1, notbefore[..], now, act);
    }

    /** One token into output place q: the mark_place call of try_trans's
     *  output loop with the increment of 1 it evidently intends, seen by
     *  the token flow and the invariant it keeps. */
    method PutOutput(q: nat, now: int, act: Action, fuel: nat) returns (fired: seq<nat>)
      requires Valid() && 1 <= q <= available.Length
      modifies available, countdown, notbefore
      ensures Valid() && InRange(fired, countdown.Length) && Succeeded(fired, act)
      ensures forall i :: 0 <= i < available.Length ==>
                available[i] == old(available[i]) + (if i == q - 1 then 1 else 0) + Flow(net, fired, i + 1)
      ensures fuel == 0 ==> fired == [] && notbefore[..] == old(notbefore[..])
      ensures DeferralsOnly(old(notbefore[..]), notbefore[..], now, act)
      ensures old(available[q - 1]) == 0 && fuel > 0 ==>
                (fired == [] <==> NoneFireable(FollowerWalk(net, q), Countdowns(net, old(available[..])[q - 1 := 1]), old(notbefore[..]), now, act))
      decreases fuel, 3
    {
      fired := MarkPlace(q, 1, now, act, fuel);
    }
  }
}
