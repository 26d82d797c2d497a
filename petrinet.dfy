/** The static topology of a Petri net as the generated tables lay it out, and
 *  the invariant that ties every transition's countdown to the marking.
 *
 *  References to places and transitions are 1-based, as the code generator
 *  emits them; a reference r names element r - 1 of a 0-based sequence
 *  (the C tables are addressed through `&ary[-1]` for the same effect).
 *  Every list of references is length-prefixed: l[0] holds the count and
 *  l[1..] the references.
 */
module PetriNet {

  /** A length-prefixed reference list whose references all lie in 1..n. */
  ghost predicate RefList(l: seq<nat>, n: nat) {
    |l| >= 1 && l[0] == |l| - 1 && forall i :: 1 <= i < |l| ==> 1 <= l[i] <= n
  }

  /** No reference occurs twice among the entries of a length-prefixed list. */
  ghost predicate DistinctRefs(l: seq<nat>) {
    forall i, j :: 1 <= i < j < |l| ==> l[i] != l[j]
  }

  /** Every reference in a plain sequence lies in 1..n. */
  ghost predicate InRange(refs: seq<nat>, n: nat) {
    forall i :: 0 <= i < |refs| ==> 1 <= refs[i] <= n
  }

  /** A place's static record: the transitions it feeds over normal arcs and
   *  the transitions it inhibits. */
  datatype Place = Place(transOut: seq<nat>, transOutInh: seq<nat>)

  /** A transition's static record: its input and output places. */
  datatype Transition = Transition(placeIn: seq<nat>, placeOut: seq<nat>)

  datatype Topology = Topology(places: seq<Place>, transitions: seq<Transition>)

  /** The entries of a length-prefixed list, without the count. */
  function Entries(l: seq<nat>): seq<nat> {
    if |l| >= 1 then l[1..] else []
  }

  /** How often x occurs in l at positions from..|l| - 1. */
  function Occurrences(l: seq<nat>, x: nat, from: nat): nat
    decreases |l| - from
  {
    if from >= |l| then 0 else (if l[from] == x then 1 else 0) + Occurrences(l, x, from + 1)
  }

  /** How many arcs a length-prefixed list holds to x. */
  function Arcs(l: seq<nat>, x: nat): nat {
    Occurrences(l, x, 1)
  }

  /** The list of normal followers of place p (1-based). */
  function Outs(net: Topology, p: nat): seq<nat> {
    if 1 <= p <= |net.places| then net.places[p - 1].transOut else [0]
  }

  /** The list of transitions inhibited by place p (1-based). */
  function Inhibits(net: Topology, p: nat): seq<nat> {
    if 1 <= p <= |net.places| then net.places[p - 1].transOutInh else [0]
  }

  /** The list of input places of transition t (1-based). */
  function Inputs(net: Topology, t: nat): seq<nat> {
    if 1 <= t <= |net.transitions| then net.transitions[t - 1].placeIn else [0]
  }

  /** The list of output places of transition t (1-based). */
  function Outputs(net: Topology, t: nat): seq<nat> {
    if 1 <= t <= |net.transitions| then net.transitions[t - 1].placeOut else [0]
  }

  /** Every list is a well-formed reference list, no transition lists an input
   *  place twice, and the two views of a normal arc agree: t follows p as
   *  often as p is an input of t. */
  ghost predicate WellFormed(net: Topology) {
    (forall p :: 0 <= p < |net.places| ==>
      RefList(net.places[p].transOut, |net.transitions|) &&
      RefList(net.places[p].transOutInh, |net.transitions|)) &&
    (forall t :: 0 <= t < |net.transitions| ==>
      RefList(net.transitions[t].placeIn, |net.places|) &&
      RefList(net.transitions[t].placeOut, |net.places|) &&
      DistinctRefs(net.transitions[t].placeIn)) &&
    (forall p, t :: 1 <= p <= |net.places| && 1 <= t <= |net.transitions| ==>
      Arcs(Outs(net, p), t) == Arcs(Inputs(net, t), p))
  }

  /** Number of references at positions from.. of l to a place that holds no
   *  token. */
  ghost function Empties(l: seq<nat>, m: seq<nat>, from: nat): nat
    decreases |l| - from
  {
    if from >= |l| then 0
    else (if 1 <= l[from] <= |m| && m[l[from] - 1] == 0 then 1 else 0) + Empties(l, m, from + 1)
  }

  /** Number of inhibitor arcs into t whose source place among 1..k holds a token. */
  ghost function InhibitorsMarked(net: Topology, m: seq<nat>, t: nat, k: nat): nat
    requires k <= |m|
  {
    if k == 0 then 0
    else InhibitorsMarked(net, m, t, k - 1) + (if m[k - 1] > 0 then Arcs(Inhibits(net, k), t) else 0)
  }

  /** The number of unmet preconditions of t under marking m: its empty normal
   *  inputs plus its marked inhibitor sources. */
  ghost function Blocked(net: Topology, m: seq<nat>, t: nat): nat {
    Empties(Inputs(net, t), m, 1) + InhibitorsMarked(net, m, t, |m|)
  }

  /** Every reference at positions from.. of l is a place that holds a token. */
  ghost predicate AllMarked(l: seq<nat>, m: seq<nat>, from: nat) {
    forall j :: from <= j < |l| ==> 1 <= l[j] <= |m| && m[l[j] - 1] > 0
  }

  /** No marked place among 1..k inhibits t. */
  ghost predicate NoneInhibits(net: Topology, m: seq<nat>, t: nat, k: nat)
    requires k <= |m|
  {
    forall q :: 1 <= q <= k && m[q - 1] > 0 ==> Arcs(Inhibits(net, q), t) == 0
  }

  /** t may fire: every normal input is a place that holds a token, and no
   *  inhibitor source holds one. */
  ghost predicate Enabled(net: Topology, m: seq<nat>, t: nat) {
    AllMarked(Inputs(net, t), m, 1) && NoneInhibits(net, m, t, |m|)
  }

  /** The countdown table agrees with the marking for every transition. */
  ghost predicate CountdownsMatch(net: Topology, m: seq<nat>, c: seq<nat>) {
    WellFormed(net) && |m| == |net.places| && |c| == |net.transitions| &&
    forall t :: 1 <= t <= |c| ==> c[t - 1] == Blocked(net, m, t)
  }

  /** The countdown table the invariant prescribes for marking m. */
  ghost function Countdowns(net: Topology, m: seq<nat>): (c: seq<nat>)
    ensures |c| == |net.transitions|
  {
    seq(|net.transitions|, i requires 0 <= i < |net.transitions| => Blocked(net, m, i + 1))
  }

  /** For a well-formed net the invariant admits exactly one countdown table
   *  per marking. */
  lemma CountdownsDetermined(net: Topology, m: seq<nat>, c: seq<nat>)
    ensures CountdownsMatch(net, m, c) <==>
            WellFormed(net) && |m| == |net.places| && c == Countdowns(net, m)
  {
    if CountdownsMatch(net, m, c) {
      forall i | 0 <= i < |c| ensures c[i] == Countdowns(net, m)[i] {
        assert c[(i + 1) - 1] == Blocked(net, m, i + 1);
      }
    }
  }

  /** How t's countdown must move when place p goes from `before` to `after`
   *  tokens: only the crossings between 0 and non-zero matter, on normal
   *  arcs and on inhibitor arcs. */
  ghost function Crossing(net: Topology, p: nat, before: nat, after: nat, t: nat): int {
    var o: int := Arcs(Outs(net, p), t);
    var h: int := Arcs(Inhibits(net, p), t);
    (if after == 0 then o else 0) - (if before == 0 then o else 0) +
    (if after > 0 then h else 0) - (if before > 0 then h else 0)
  }

  /** Net token change at place q when t fires once. */
  function Produced(net: Topology, t: nat, q: nat): int {
    Arcs(Outputs(net, t), q) as int - Arcs(Inputs(net, t), q)
  }

  /** Net token change at place q when the transitions in `fired` fire. */
  function Flow(net: Topology, fired: seq<nat>, q: nat): int {
    if fired == [] then 0 else Produced(net, fired[0], q) + Flow(net, fired[1..], q)
  }

  lemma {:induction false} FlowAppend(net: Topology, a: seq<nat>, b: seq<nat>, q: nat)
    ensures Flow(net, a + b, q) == Flow(net, a, q) + Flow(net, b, q)
  {
    if a == [] {
      assert a + b == b;
    } else {
      assert (a + b)[1..] == a[1..] + b;
      FlowAppend(net, a[1..], b, q);
    }
  }

  /** Counting from a later position never finds more. */
  lemma {:induction false} OccurrencesShrink(l: seq<nat>, x: nat, a: nat, b: nat)
    requires a <= b
    ensures Occurrences(l, x, b) <= Occurrences(l, x, a)
    decreases b - a
  {
    if a < b {
      OccurrencesShrink(l, x, a + 1, b);
    }
  }

  /** The occurrence count is the multiplicity in the suffix. */
  lemma {:induction false} OccurrencesCount(l: seq<nat>, x: nat, from: nat)
    requires from <= |l|
    ensures Occurrences(l, x, from) == multiset(l[from..])[x]
    decreases |l| - from
  {
    if from < |l| {
      OccurrencesCount(l, x, from + 1);
      assert l[from..] == [l[from]] + l[from + 1..];
    }
  }

  /** In a list without repetitions an entry does not occur further on. */
  lemma {:induction false} DistinctLater(l: seq<nat>, k: nat, from: nat)
    requires DistinctRefs(l) && 1 <= k < from && k < |l|
    ensures Occurrences(l, l[k], from) == 0
    decreases |l| - from
  {
    if from < |l| {
      DistinctLater(l, k, from + 1);
    }
  }

  lemma {:induction false} EmptiesZeroIff(l: seq<nat>, m: seq<nat>, from: nat)
    requires forall j :: from <= j < |l| ==> 1 <= l[j] <= |m|
    ensures Empties(l, m, from) == 0 <==> AllMarked(l, m, from)
    decreases |l| - from
  {
    if from < |l| {
      EmptiesZeroIff(l, m, from + 1);
    }
  }

  lemma {:induction false} InhibitorsZeroIff(net: Topology, m: seq<nat>, t: nat, k: nat)
    requires k <= |m|
    ensures InhibitorsMarked(net, m, t, k) == 0 <==> NoneInhibits(net, m, t, k)
  {
    if k > 0 {
      InhibitorsZeroIff(net, m, t, k - 1);
    }
  }

  /** Countdown zero is the same as enabled, in both directions. */
  lemma BlockedZeroIff(net: Topology, m: seq<nat>, t: nat)
    requires RefList(Inputs(net, t), |m|)
    ensures Blocked(net, m, t) == 0 <==> Enabled(net, m, t)
  {
    EmptiesZeroIff(Inputs(net, t), m, 1);
    InhibitorsZeroIff(net, m, t, |m|);
  }

  lemma {:induction false} EmptiesAfterSet(l: seq<nat>, m: seq<nat>, from: nat, p: nat, v: nat)
    requires 1 <= p <= |m|
    ensures Empties(l, m[p - 1 := v], from) as int ==
            Empties(l, m, from) + (if v == 0 then Occurrences(l, p, from) else 0)
                                - (if m[p - 1] == 0 then Occurrences(l, p, from) else 0)
    decreases |l| - from
  {
    if from < |l| {
      EmptiesAfterSet(l, m, from + 1, p, v);
    }
  }

  lemma {:induction false} InhibitorsAfterSet(net: Topology, m: seq<nat>, t: nat, k: nat, p: nat, v: nat)
    requires k <= |m| && 1 <= p <= |m|
    ensures InhibitorsMarked(net, m[p - 1 := v], t, k) as int ==
            InhibitorsMarked(net, m, t, k) +
            (if p <= k then
               (if v > 0 then Arcs(Inhibits(net, p), t) as int else 0) -
               (if m[p - 1] > 0 then Arcs(Inhibits(net, p), t) else 0)
             else 0)
  {
    if k > 0 {
      InhibitorsAfterSet(net, m, t, k - 1, p, v);
      var m2 := m[p - 1 := v];
      assert m2[k - 1] == if k == p then v else m[k - 1];
    }
  }

  /** Changing one place's marking moves every countdown by exactly the
   *  crossing of that place: the arithmetic that mark and unmark rely on. */
  lemma BlockedAfterSet(net: Topology, m: seq<nat>, p: nat, v: nat, t: nat)
    requires WellFormed(net) && |m| == |net.places| && 1 <= p <= |m| && 1 <= t <= |net.transitions|
    ensures Blocked(net, m[p - 1 := v], t) as int == Blocked(net, m, t) + Crossing(net, p, m[p - 1], v, t)
  {
    EmptiesAfterSet(Inputs(net, t), m, 1, p, v);
    InhibitorsAfterSet(net, m, t, |m|, p, v);
    assert Arcs(Outs(net, p), t) == Arcs(Inputs(net, t), p);
  }

  /** Setting place p to v keeps the countdown table consistent exactly when
   *  every countdown moves by p's crossing. */
  lemma CountdownsAfterSet(net: Topology, m: seq<nat>, c: seq<nat>, p: nat, v: nat, c2: seq<nat>)
    requires CountdownsMatch(net, m, c) && 1 <= p <= |m| && |c2| == |c|
    requires forall i :: 0 <= i < |c| ==> c2[i] as int == c[i] + Crossing(net, p, m[p - 1], v, i + 1)
    ensures CountdownsMatch(net, m[p - 1 := v], c2)
  {
    var m2 := m[p - 1 := v];
    forall t | 1 <= t <= |c| ensures c2[t - 1] == Blocked(net, m2, t) {
      BlockedAfterSet(net, m, p, v, t);
      assert c2[t - 1] as int == c[t - 1] + Crossing(net, p, m[p - 1], v, t);
    }
  }

  /** A place that stays marked may change its token count without any
   *  countdown moving. */
  lemma CountdownsWhileMarked(net: Topology, m: seq<nat>, c: seq<nat>, p: nat, v: nat)
    requires CountdownsMatch(net, m, c) && 1 <= p <= |m| && m[p - 1] > 0 && v > 0
    ensures CountdownsMatch(net, m[p - 1 := v], c)
  {
    var m2 := m[p - 1 := v];
    forall t | 1 <= t <= |c| ensures c[t - 1] == Blocked(net, m2, t) {
      BlockedAfterSet(net, m, p, v, t);
      assert Crossing(net, p, m[p - 1], v, t) == 0;
    }
  }

  /** Under a consistent table a crossing never drives a countdown below zero. */
  lemma CrossingKeepsNonNegative(net: Topology, m: seq<nat>, c: seq<nat>, p: nat, v: nat)
    requires CountdownsMatch(net, m, c) && 1 <= p <= |m|
    ensures forall i :: 0 <= i < |c| ==> c[i] + Crossing(net, p, m[p - 1], v, i + 1) >= 0
  {
    forall i | 0 <= i < |c| ensures c[i] + Crossing(net, p, m[p - 1], v, i + 1) >= 0 {
      BlockedAfterSet(net, m, p, v, i + 1);
      assert c[i] == Blocked(net, m, i + 1);
    }
  }
}
