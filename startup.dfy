/** The tables the code generator writes, read as the topology and the
 *  initial counters of a running net, and the proof that they start the
 *  runtime in a consistent state: every transition's initial countdown is
 *  its number of unmet preconditions, so it is zero exactly when the
 *  transition is enabled.
 */
module Startup {
  import opened PetriNet
  import opened Codegen

  /** The topology as the generated place and transition tables lay it out:
   *  entry i of each table belongs to the name at index i of its inverse
   *  table, and holds the neighbour lists genlist writes for that name. */
  function Generate(placeList: seq<Name>, transList: seq<Name>,
                    placeIdx: map<Name, nat>, transIdx: map<Name, nat>,
                    p2t: seq<(Name, Name)>, p2i: seq<(Name, Name)>, t2p: seq<(Name, Name)>): (net: Topology)
    requires Indexes(placeList, placeIdx) && Indexes(transList, transIdx)
    ensures |net.places| == |placeList| && |net.transitions| == |transList|
  {
    IndexedNames(placeList, placeIdx);
    IndexedNames(transList, transIdx);
    Topology(
      seq(|placeList|, i requires 0 <= i < |placeList| =>
        Place(Encode(transIdx, Followers(transList, p2t, placeList[i])),
              Encode(transIdx, Followers(transList, p2i, placeList[i])))),
      seq(|transList|, j requires 0 <= j < |transList| =>
        Transition(Encode(placeIdx, Preceders(placeList, p2t, transList[j])),
                   Encode(placeIdx, Followers(placeList, t2p, transList[j])))))
  }

  /** The initial marking, in place-table order. */
  function InitialMarking(placeList: seq<Name>, marking: Name -> nat): (m: seq<nat>)
    ensures |m| == |placeList| && forall i :: 0 <= i < |placeList| ==> m[i] == marking(placeList[i])
  {
    seq(|placeList|, i requires 0 <= i < |placeList| => marking(placeList[i]))
  }

  /** The initial countdowns, in transition-table order. */
  function InitialCountdowns(transList: seq<Name>, p2t: seq<(Name, Name)>, p2i: seq<(Name, Name)>,
                             marking: Name -> nat): (c: seq<nat>)
    ensures |c| == |transList| &&
            forall j :: 0 <= j < |transList| ==> c[j] == IniCountdown(transList[j], p2t, p2i, marking)
  {
    seq(|transList|, j requires 0 <= j < |transList| => IniCountdown(transList[j], p2t, p2i, marking))
  }

  function Unmarked(marking: Name -> nat): Name -> bool {
    (p: Name) => marking(p) == 0
  }

  function MarkedInhibitor(p2i: seq<(Name, Name)>, t: Name, marking: Name -> nat): Name -> bool {
    (p: Name) => (p, t) in p2i && marking(p) > 0
  }

  /** Counting occurrences of an encoded reference counts the name. */
  lemma {:induction false} EncodedOccurrences(index: map<Name, nat>, s: seq<Name>, c: Name, from: nat)
    requires c in index && forall r :: r in s ==> r in index
    requires forall r :: r in s && index[r] == index[c] ==> r == c
    requires 1 <= from <= |s| + 1
    ensures Occurrences(Encode(index, s), 1 + index[c], from) == multiset(s[from - 1..])[c]
    decreases |s| + 1 - from
  {
    if from <= |s| {
      EncodedOccurrences(index, s, c, from + 1);
      assert s[from - 1..] == [s[from - 1]] + s[from..];
      assert Encode(index, s)[from] == 1 + index[s[from - 1]];
    }
  }

  /** A neighbour list encoded through the inverse index holds a reference
   *  to the name at index k once when that name is kept, else not at all. */
  lemma ArcsOfNeighbours(cands: seq<Name>, idx: map<Name, nat>, f: Name -> bool, k: nat)
    requires Indexes(cands, idx) && k < |cands|
    ensures forall r :: r in Filter(cands, f) ==> r in idx
    ensures Arcs(Encode(idx, Filter(cands, f)), k + 1) == if f(cands[k]) then 1 else 0
  {
    IndexedNames(cands, idx);
    var s := Filter(cands, f);
    EncodedOccurrences(idx, s, cands[k], 1);
    assert s[0..] == s;
    FilterCount(cands, f, cands[k]);
  }

  /** Every list of a generated place is a reference list over the
   *  transitions. */
  lemma GeneratedPlaceLists(placeList: seq<Name>, transList: seq<Name>,
                            placeIdx: map<Name, nat>, transIdx: map<Name, nat>,
                            p2t: seq<(Name, Name)>, p2i: seq<(Name, Name)>, t2p: seq<(Name, Name)>)
    requires Indexes(placeList, placeIdx) && Indexes(transList, transIdx)
    ensures var net := Generate(placeList, transList, placeIdx, transIdx, p2t, p2i, t2p);
            forall p :: 0 <= p < |net.places| ==>
              RefList(net.places[p].transOut, |net.transitions|) &&
              RefList(net.places[p].transOutInh, |net.transitions|)
  {
    var net := Generate(placeList, transList, placeIdx, transIdx, p2t, p2i, t2p);
    forall p | 0 <= p < |net.places|
      ensures RefList(net.places[p].transOut, |net.transitions|)
      ensures RefList(net.places[p].transOutInh, |net.transitions|)
    {
      NeighboursAscending(transList, transIdx, Succeeds(p2t, placeList[p]));
      NeighboursAscending(transList, transIdx, Succeeds(p2i, placeList[p]));
      EncodeRefList(transIdx, Followers(transList, p2t, placeList[p]), |transList|);
      EncodeRefList(transIdx, Followers(transList, p2i, placeList[p]), |transList|);
    }
  }

  /** Every list of a generated transition is a reference list over the
   *  places, and its inputs ascend, so none is listed twice. */
  lemma GeneratedTransitionLists(placeList: seq<Name>, transList: seq<Name>,
                            placeIdx: map<Name, nat>, transIdx: map<Name, nat>,
                            p2t: seq<(Name, Name)>, p2i: seq<(Name, Name)>, t2p: seq<(Name, Name)>)
    requires Indexes(placeList, placeIdx) && Indexes(transList, transIdx)
    ensures var net := Generate(placeList, transList, placeIdx, transIdx, p2t, p2i, t2p);
            forall t :: 0 <= t < |net.transitions| ==>
              RefList(net.transitions[t].placeIn, |net.places|) &&
              RefList(net.transitions[t].placeOut, |net.places|) &&
              DistinctRefs(net.transitions[t].placeIn)
  {
    var net := Generate(placeList, transList, placeIdx, transIdx, p2t, p2i, t2p);
    forall t | 0 <= t < |net.transitions|
      ensures RefList(net.transitions[t].placeIn, |net.places|)
      ensures RefList(net.transitions[t].placeOut, |net.places|)
      ensures DistinctRefs(net.transitions[t].placeIn)
    {
      NeighboursAscending(placeList, placeIdx, Precedes(p2t, transList[t]));
      NeighboursAscending(placeList, placeIdx, Succeeds(t2p, transList[t]));
      EncodeRefList(placeIdx, Preceders(placeList, p2t, transList[t]), |placeList|);
      EncodeRefList(placeIdx, Followers(placeList, t2p, transList[t]), |placeList|);
    }
  }

  /** In a generated net t follows p exactly as often as p is an input of t:
   *  once when (p, t) is a normal arc, else never. */
  lemma GeneratedArcsAgree(placeList: seq<Name>, transList: seq<Name>,
                            placeIdx: map<Name, nat>, transIdx: map<Name, nat>,
                            p2t: seq<(Name, Name)>, p2i: seq<(Name, Name)>, t2p: seq<(Name, Name)>)
    requires Indexes(placeList, placeIdx) && Indexes(transList, transIdx)
    ensures var net := Generate(placeList, transList, placeIdx, transIdx, p2t, p2i, t2p);
            forall p, t :: 1 <= p <= |net.places| && 1 <= t <= |net.transitions| ==>
              Arcs(Outs(net, p), t) == Arcs(Inputs(net, t), p) &&
              Arcs(Outs(net, p), t) == if (placeList[p - 1], transList[t - 1]) in p2t then 1 else 0
  {
    var net := Generate(placeList, transList, placeIdx, transIdx, p2t, p2i, t2p);
    forall p, t | 1 <= p <= |net.places| && 1 <= t <= |net.transitions|
      ensures Arcs(Outs(net, p), t) == if (placeList[p - 1], transList[t - 1]) in p2t then 1 else 0
      ensures Arcs(Inputs(net, t), p) == if (placeList[p - 1], transList[t - 1]) in p2t then 1 else 0
    {
      var pn, tn := placeList[p - 1], transList[t - 1];
      assert Outs(net, p) == Encode(transIdx, Filter(transList, Succeeds(p2t, pn)));
      assert Inputs(net, t) == Encode(placeIdx, Filter(placeList, Precedes(p2t, tn)));
      ArcsOfNeighbours(transList, transIdx, Succeeds(p2t, pn), t - 1);
      ArcsOfNeighbours(placeList, placeIdx, Precedes(p2t, tn), p - 1);
    }
  }

  /** The generated tables are well formed: every list is a reference list
   *  in range, no transition lists an input twice, and the place and
   *  transition views of each normal arc agree. */
  lemma GeneratedWellFormed(placeList: seq<Name>, transList: seq<Name>,
                            placeIdx: map<Name, nat>, transIdx: map<Name, nat>,
                            p2t: seq<(Name, Name)>, p2i: seq<(Name, Name)>, t2p: seq<(Name, Name)>)
    requires Indexes(placeList, placeIdx) && Indexes(transList, transIdx)
    ensures WellFormed(Generate(placeList, transList, placeIdx, transIdx, p2t, p2i, t2p))
  {
    GeneratedPlaceLists(placeList, transList, placeIdx, transIdx, p2t, p2i, t2p);
    GeneratedTransitionLists(placeList, transList, placeIdx, transIdx, p2t, p2i, t2p);
    GeneratedArcsAgree(placeList, transList, placeIdx, transIdx, p2t, p2i, t2p);
  }

  /** Empty inputs counted along an encoded list are the unmarked names. */
  lemma {:induction false} EncodedEmpties(index: map<Name, nat>, s: seq<Name>, m: seq<nat>, marking: Name -> nat, from: nat)
    requires forall r :: r in s ==> r in index && index[r] < |m| && m[index[r]] == marking(r)
    requires 1 <= from <= |s| + 1
    ensures Empties(Encode(index, s), m, from) == |Filter(s[from - 1..], Unmarked(marking))|
    decreases |s| + 1 - from
  {
    if from <= |s| {
      EncodedEmpties(index, s, m, marking, from + 1);
      assert s[from - 1..][0] == s[from - 1] && s[from - 1..][1..] == s[from..];
      assert s[from - 1] in s;
      assert Encode(index, s)[from] == 1 + index[s[from - 1]];
    }
  }

  /** Each list of a generated net is the encoded neighbour list of its
   *  name. */
  lemma GeneratedLists(net: Topology, placeList: seq<Name>, transList: seq<Name>,
                       placeIdx: map<Name, nat>, transIdx: map<Name, nat>,
                       p2t: seq<(Name, Name)>, p2i: seq<(Name, Name)>, t2p: seq<(Name, Name)>)
    requires Indexes(placeList, placeIdx) && Indexes(transList, transIdx)
    requires net == Generate(placeList, transList, placeIdx, transIdx, p2t, p2i, t2p)
    ensures forall r :: r in transList ==> r in transIdx
    ensures forall r :: r in placeList ==> r in placeIdx
    ensures forall q :: 1 <= q <= |placeList| ==>
              Inhibits(net, q) == Encode(transIdx, Followers(transList, p2i, placeList[q - 1]))
    ensures forall t :: 1 <= t <= |transList| ==>
              Inputs(net, t) == Encode(placeIdx, Preceders(placeList, p2t, transList[t - 1]))
  {
    IndexedNames(placeList, placeIdx);
    IndexedNames(transList, transIdx);
  }

  /** Naming the unmarked inputs of t in place-table order, or the sources
   *  of the matching arcs in arc order, names the same places; without
   *  parallel arcs the two lists are equally long. */
  lemma UnmarkedSourcesCount(placeList: seq<Name>, p2t: seq<(Name, Name)>, tn: Name, marking: Name -> nat)
    requires Distinct(placeList)
    requires Distinct(p2t) && forall pr :: pr in p2t ==> pr.0 in placeList
    ensures |Filter(Preceders(placeList, p2t, tn), Unmarked(marking))| ==
            |Sources(Filter(p2t, EmptyInto(tn, marking)))|
  {
    var ins := Preceders(placeList, p2t, tn);
    var a := Filter(ins, Unmarked(marking));
    var pairs := Filter(p2t, EmptyInto(tn, marking));
    var b := Sources(pairs);
    FilterDistinct(placeList, Precedes(p2t, tn));
    FilterDistinct(ins, Unmarked(marking));
    FilterDistinct(p2t, EmptyInto(tn, marking));
    SourcesDistinct(pairs, tn);
    forall x ensures x in a <==> x in b {
      if x in b {
        var i :| 0 <= i < |b| && b[i] == x;
        assert pairs[i] in pairs && pairs[i] == (x, tn);
      }
      if x in a {
        assert (x, tn) in pairs;
        var i :| 0 <= i < |pairs| && pairs[i] == (x, tn);
        assert b[i] == x;
      }
    }
    SameLength(a, b);
  }

  /** Naming the marked inhibitor sources of t in place-table order, or the
   *  sources of the matching arcs in arc order, names the same places;
   *  without parallel arcs the two lists are equally long. */
  lemma MarkedSourcesCount(placeList: seq<Name>, p2i: seq<(Name, Name)>, tn: Name, marking: Name -> nat)
    requires Distinct(placeList)
    requires Distinct(p2i) && forall pr :: pr in p2i ==> pr.0 in placeList
    ensures |Filter(placeList, MarkedInhibitor(p2i, tn, marking))| ==
            |Sources(Filter(p2i, MarkedInto(tn, marking)))|
  {
    var a := Filter(placeList, MarkedInhibitor(p2i, tn, marking));
    var pairs := Filter(p2i, MarkedInto(tn, marking));
    var b := Sources(pairs);
    FilterDistinct(placeList, MarkedInhibitor(p2i, tn, marking));
    FilterDistinct(p2i, MarkedInto(tn, marking));
    SourcesDistinct(pairs, tn);
    forall x ensures x in a <==> x in b {
      if x in b {
        var i :| 0 <= i < |b| && b[i] == x;
        assert pairs[i] in pairs && pairs[i] == (x, tn);
      }
      if x in a {
        assert (x, tn) in pairs;
        var i :| 0 <= i < |pairs| && pairs[i] == (x, tn);
        assert b[i] == x;
      }
    }
    SameLength(a, b);
  }

  /** In a generated net place q inhibits t once when the arc is listed,
   *  else not at all. */
  lemma InhibitorArcs(net: Topology, placeList: seq<Name>, transList: seq<Name>,
                      transIdx: map<Name, nat>, p2i: seq<(Name, Name)>, t: nat)
    requires Indexes(transList, transIdx)
    requires forall q :: 1 <= q <= |placeList| ==>
               Inhibits(net, q) == Encode(transIdx, Followers(transList, p2i, placeList[q - 1]))
    requires 1 <= t <= |transList|
    ensures forall q :: 1 <= q <= |placeList| ==>
              Arcs(Inhibits(net, q), t) == if (placeList[q - 1], transList[t - 1]) in p2i then 1 else 0
  {
    forall q | 1 <= q <= |placeList|
      ensures Arcs(Inhibits(net, q), t) == if (placeList[q - 1], transList[t - 1]) in p2i then 1 else 0
    {
      ArcsOfNeighbours(transList, transIdx, Succeeds(p2i, placeList[q - 1]), t - 1);
    }
  }

  /** The marked inhibitor sources among the first k places, counted by the
   *  runtime's measure and by name. */
  lemma {:induction false} MarkedInhibitorsUpTo(net: Topology, placeList: seq<Name>, tn: Name,
                                                p2i: seq<(Name, Name)>, m: seq<nat>, marking: Name -> nat,
                                                t: nat, k: nat)
    requires forall q :: 1 <= q <= |placeList| ==>
               Arcs(Inhibits(net, q), t) == if (placeList[q - 1], tn) in p2i then 1 else 0
    requires m == InitialMarking(placeList, marking)
    requires k <= |placeList|
    ensures InhibitorsMarked(net, m, t, k) == |Filter(placeList[..k], MarkedInhibitor(p2i, tn, marking))|
  {
    if k > 0 {
      var pk := placeList[k - 1];
      var f := MarkedInhibitor(p2i, tn, marking);
      MarkedInhibitorsUpTo(net, placeList, tn, p2i, m, marking, t, k - 1);
      assert m[k - 1] == marking(pk);
      assert placeList[..k] == placeList[..k - 1] + [pk];
      FilterAppend(placeList[..k - 1], pk, f);
    }
  }

  /** The countdown the runtime needs for transition t: its normal input
   *  places without tokens plus its inhibitor source places with tokens,
   *  each place counted once, as the emitted neighbour lists name it.  This
   *  is the generator's initial countdown counted per place rather than per
   *  edge (see `ParallelArcsMiscount`). */
  function SourceCountdown(t: Name, placeList: seq<Name>, p2t: seq<(Name, Name)>, p2i: seq<(Name, Name)>,
                           marking: Name -> nat): nat {
    |Filter(Preceders(placeList, p2t, t), Unmarked(marking))| + |Filter(placeList, MarkedInhibitor(p2i, t, marking))|
  }

  /** The per-place initial countdowns, in transition-table order. */
  function SourceCountdowns(placeList: seq<Name>, transList: seq<Name>, p2t: seq<(Name, Name)>, p2i: seq<(Name, Name)>,
                            marking: Name -> nat): (c: seq<nat>)
    ensures |c| == |transList| &&
            forall j :: 0 <= j < |transList| ==> c[j] == SourceCountdown(transList[j], placeList, p2t, p2i, marking)
  {
    seq(|transList|, j requires 0 <= j < |transList| => SourceCountdown(transList[j], placeList, p2t, p2i, marking))
  }

  /** Without parallel arcs of one kind, the generator's initial countdown,
   *  counted per edge, is the per-place count. */
  lemma IniCountdownPerPlace(placeList: seq<Name>, p2t: seq<(Name, Name)>, p2i: seq<(Name, Name)>,
                             tn: Name, marking: Name -> nat)
    requires Distinct(placeList)
    requires Distinct(p2t) && forall pr :: pr in p2t ==> pr.0 in placeList
    requires Distinct(p2i) && forall pr :: pr in p2i ==> pr.0 in placeList
    ensures IniCountdown(tn, p2t, p2i, marking) == SourceCountdown(tn, placeList, p2t, p2i, marking)
  {
    UnmarkedSourcesCount(placeList, p2t, tn, marking);
    MarkedSourcesCount(placeList, p2i, tn, marking);
  }

  /** The empty inputs of a generated transition are its normal source
   *  places without tokens. */
  lemma InitialEmpties(net: Topology, placeList: seq<Name>, placeIdx: map<Name, nat>,
                       p2t: seq<(Name, Name)>, marking: Name -> nat, t: nat, tn: Name)
    requires Indexes(placeList, placeIdx)
    requires Inputs(net, t) == Encode(placeIdx, Preceders(placeList, p2t, tn))
    ensures Empties(Inputs(net, t), InitialMarking(placeList, marking), 1) ==
            |Filter(Preceders(placeList, p2t, tn), Unmarked(marking))|
  {
    var ins := Preceders(placeList, p2t, tn);
    IndexedNames(placeList, placeIdx);
    EncodedEmpties(placeIdx, ins, InitialMarking(placeList, marking), marking, 1);
    assert ins[0..] == ins;
  }

  /** The marked inhibitor sources of a generated transition are its
   *  inhibitor source places with tokens. */
  lemma InitialInhibitors(net: Topology, placeList: seq<Name>, transList: seq<Name>,
                          transIdx: map<Name, nat>, p2i: seq<(Name, Name)>, marking: Name -> nat, t: nat)
    requires Indexes(transList, transIdx)
    requires forall q :: 1 <= q <= |placeList| ==>
               Inhibits(net, q) == Encode(transIdx, Followers(transList, p2i, placeList[q - 1]))
    requires 1 <= t <= |transList|
    ensures InhibitorsMarked(net, InitialMarking(placeList, marking), t, |placeList|) ==
            |Filter(placeList, MarkedInhibitor(p2i, transList[t - 1], marking))|
  {
    InhibitorArcs(net, placeList, transList, transIdx, p2i, t);
    MarkedInhibitorsUpTo(net, placeList, transList[t - 1], p2i, InitialMarking(placeList, marking), marking, t, |placeList|);
    assert placeList[..|placeList|] == placeList;
  }

  /** Each per-place initial countdown is the number of unmet preconditions
   *  of its transition in the generated net. */
  lemma InitialBlocked(net: Topology, placeList: seq<Name>, transList: seq<Name>,
                       placeIdx: map<Name, nat>, transIdx: map<Name, nat>,
                       p2t: seq<(Name, Name)>, p2i: seq<(Name, Name)>, t2p: seq<(Name, Name)>,
                       marking: Name -> nat, t: nat)
    requires Indexes(placeList, placeIdx) && Indexes(transList, transIdx)
    requires net == Generate(placeList, transList, placeIdx, transIdx, p2t, p2i, t2p)
    requires 1 <= t <= |transList|
    ensures Blocked(net, InitialMarking(placeList, marking), t) ==
            SourceCountdown(transList[t - 1], placeList, p2t, p2i, marking)
  {
    GeneratedLists(net, placeList, transList, placeIdx, transIdx, p2t, p2i, t2p);
    InitialEmpties(net, placeList, placeIdx, p2t, marking, t, transList[t - 1]);
    InitialInhibitors(net, placeList, transList, transIdx, p2i, marking, t);
  }

  /** The generated tables start the runtime in a consistent state: each
   *  per-place initial countdown is the number of unmet preconditions of
   *  its transition under the initial marking. */
  lemma InitialCountdownsMatch(placeList: seq<Name>, transList: seq<Name>,
                               placeIdx: map<Name, nat>, transIdx: map<Name, nat>,
                               p2t: seq<(Name, Name)>, p2i: seq<(Name, Name)>, t2p: seq<(Name, Name)>,
                               marking: Name -> nat)
    requires Indexes(placeList, placeIdx) && Indexes(transList, transIdx)
    ensures CountdownsMatch(Generate(placeList, transList, placeIdx, transIdx, p2t, p2i, t2p),
                            InitialMarking(placeList, marking),
                            SourceCountdowns(placeList, transList, p2t, p2i, marking))
  {
    var net := Generate(placeList, transList, placeIdx, transIdx, p2t, p2i, t2p);
    var m := InitialMarking(placeList, marking);
    var c := SourceCountdowns(placeList, transList, p2t, p2i, marking);
    GeneratedWellFormed(placeList, transList, placeIdx, transIdx, p2t, p2i, t2p);
    forall t | 1 <= t <= |c| ensures c[t - 1] == Blocked(net, m, t) {
      InitialBlocked(net, placeList, transList, placeIdx, transIdx, p2t, p2i, t2p, marking, t);
    }
  }

  /** As written, the generator counts a normal arc listed twice between an
   *  empty place and a transition twice, while the emitted input list names
   *  the place once: the initial countdown is 2 where the runtime's count
   *  of unmet preconditions is 1, so the initial counters break the
   *  invariant and no token can ever bring that countdown to 0. */
  lemma ParallelArcsMiscount()
    ensures var placeList, transList := ["p"], ["t"];
            var placeIdx, transIdx := map["p" := 0], map["t" := 0];
            var p2t, p2i: seq<(Name, Name)> := [("p", "t"), ("p", "t")], [];
            var marking := (n: Name) => 0;
            Indexes(placeList, placeIdx) && Indexes(transList, transIdx) &&
            IniCountdown("t", p2t, p2i, marking) == 2 &&
            Blocked(Generate(placeList, transList, placeIdx, transIdx, p2t, p2i, []),
                    InitialMarking(placeList, marking), 1) == 1 &&
            !CountdownsMatch(Generate(placeList, transList, placeIdx, transIdx, p2t, p2i, []),
                             InitialMarking(placeList, marking),
                             InitialCountdowns(transList, p2t, p2i, marking))
  {
    var placeList, transList := ["p"], ["t"];
    var placeIdx, transIdx := map["p" := 0], map["t" := 0];
    var p2t, p2i: seq<(Name, Name)> := [("p", "t"), ("p", "t")], [];
    var marking := (n: Name) => 0;
    var net := Generate(placeList, transList, placeIdx, transIdx, p2t, p2i, []);
    var m := InitialMarking(placeList, marking);
    assert Filter(p2t, EmptyInto("t", marking)) == p2t by {
      assert p2t[1..] == [("p", "t")] && p2t[1..][1..] == [];
    }
    assert Filter(p2i, MarkedInto("t", marking)) == [];
    InitialBlocked(net, placeList, transList, placeIdx, transIdx, p2t, p2i, [], marking, 1);
    assert Preceders(placeList, p2t, "t") == ["p"] by {
      assert placeList[1..] == [];
    }
    assert Filter(["p"], Unmarked(marking)) == ["p"] by {
      assert ["p"][1..] == [];
    }
    assert Filter(placeList, MarkedInhibitor(p2i, "t", marking)) == [] by {
      assert placeList[1..] == [];
    }
    assert InitialCountdowns(transList, p2t, p2i, marking)[0] == 2;
  }

  /** End to end, from the edges of the net: with the classified arcs and
   *  the inverse tables over all places and transitions, the per-place
   *  initial countdowns satisfy the invariant the runtime keeps, so every
   *  transition starts at countdown zero exactly when it is enabled under
   *  the initial marking; without parallel arcs of one kind they are the
   *  countdowns the generator writes. */
  lemma GeneratedNetStarts(edges: seq<Edge>, places: set<Name>,
                           placeList: seq<Name>, transList: seq<Name>,
                           placeIdx: map<Name, nat>, transIdx: map<Name, nat>,
                           marking: Name -> nat)
    requires Indexes(placeList, placeIdx) && Indexes(transList, transIdx)
    requires forall x :: x in places <==> x in placeList
    ensures var net := Generate(placeList, transList, placeIdx, transIdx,
                                P2T(edges, places), P2I(edges, places), T2P(edges, places));
            var m := InitialMarking(placeList, marking);
            var c := SourceCountdowns(placeList, transList, P2T(edges, places), P2I(edges, places), marking);
            CountdownsMatch(net, m, c) &&
            (forall t :: 1 <= t <= |transList| ==> (c[t - 1] == 0 <==> Enabled(net, m, t))) &&
            (Distinct(P2T(edges, places)) && Distinct(P2I(edges, places)) ==>
               c == InitialCountdowns(transList, P2T(edges, places), P2I(edges, places), marking))
  {
    var p2t, p2i, t2p := P2T(edges, places), P2I(edges, places), T2P(edges, places);
    InitialCountdownsMatch(placeList, transList, placeIdx, transIdx, p2t, p2i, t2p, marking);
    var net := Generate(placeList, transList, placeIdx, transIdx, p2t, p2i, t2p);
    var m := InitialMarking(placeList, marking);
    forall t | 1 <= t <= |transList| ensures Blocked(net, m, t) == 0 <==> Enabled(net, m, t) {
      assert RefList(net.transitions[t - 1].placeIn, |net.places|);
      BlockedZeroIff(net, m, t);
    }
    if Distinct(p2t) && Distinct(p2i) {
      EdgeEndpoints(edges, places);
      IndexedNames(placeList, placeIdx);
      var c := SourceCountdowns(placeList, transList, p2t, p2i, marking);
      forall j | 0 <= j < |transList|
        ensures c[j] == InitialCountdowns(transList, p2t, p2i, marking)[j]
      {
        IniCountdownPerPlace(placeList, p2t, p2i, transList[j], marking);
      }
    }
  }
}
