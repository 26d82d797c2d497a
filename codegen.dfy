/** The table-building logic of the code generator: the C-safe net name, the
 *  narrowest unsigned type for references, the inverse index tables over a
 *  perfect hash, the classification of edges, the length-prefixed reference
 *  lists and each transition's initial countdown.  Names of places and
 *  transitions are plain strings; the generator's file output is not part
 *  of this model, only the values it writes.
 */
module Codegen {
  import PetriNet

  type Name = string

  datatype Option<T> = None | Some(value: T)

  /** No element occurs twice. */
  ghost predicate Distinct<T>(s: seq<T>) {
    forall i, j :: 0 <= i < j < |s| ==> s[i] != s[j]
  }

  // ---------------------------------------------------------------------
  // The net name as a C identifier

  predicate Letter(c: char) {
    'a' <= c <= 'z' || 'A' <= c <= 'Z'
  }

  predicate Digit(c: char) {
    '0' <= c <= '9'
  }

  /** The characters the generated identifiers may hold. */
  predicate IdentChar(c: char) {
    c == '_' || Letter(c) || Digit(c)
  }

  predicate Identifier(s: string) {
    |s| > 0 && Letter(s[0]) && forall i :: 0 <= i < |s| ==> IdentChar(s[i])
  }

  /** Hyphens and spaces become underscores; every other character stays. */
  function Underscored(c: char): char {
    if c == '-' || c == ' ' then '_' else c
  }

  /** The name with hyphens and spaces turned into underscores and every
   *  character that cannot appear in a C identifier dropped. */
  function Sanitised(name: string): (r: string)
    ensures forall i :: 0 <= i < |r| ==> IdentChar(r[i])
    ensures |r| <= |name|
  {
    if name == [] then []
    else
      var c := Underscored(name[0]);
      (if IdentChar(c) then [c] else []) + Sanitised(name[1..])
  }

  /** The identifier the generator derives from the net name: the sanitised
   *  name, prefixed with `x` unless it starts with a letter, or `perpetuum`
   *  when nothing is left.  An empty sanitised name is not prefixed, since
   *  the empty slice counts as contained in the alphabet. */
  function NeatName(name: string): (r: string)
    ensures Identifier(r)
    ensures Sanitised(name) != [] ==>
              |Sanitised(name)| <= |r| <= |Sanitised(name)| + 1 && r[|r| - |Sanitised(name)|..] == Sanitised(name)
    ensures Sanitised(name) == [] ==> r == "perpetuum"
    ensures Sanitised(name) != [] && Letter(Sanitised(name)[0]) ==> r == Sanitised(name)
    ensures Sanitised(name) != [] && !Letter(Sanitised(name)[0]) ==> r == "x" + Sanitised(name)
  {
    var s := Sanitised(name);
    var prefixed := if |s| >= 1 && !Letter(s[0]) then "x" + s else s;
    if prefixed == [] then "perpetuum" else prefixed
  }

  /** Sanitising keeps every letter and digit as often as the name holds it. */
  lemma {:induction false} SanitisedKeepsAlphanumerics(name: string, c: char)
    requires Letter(c) || Digit(c)
    ensures multiset(Sanitised(name))[c] == multiset(name)[c]
  {
    if name != [] {
      SanitisedKeepsAlphanumerics(name[1..], c);
      assert name == [name[0]] + name[1..];
    }
  }

  /** Sanitising turns every hyphen and space into an underscore and keeps
   *  the underscores already there. */
  lemma {:induction false} SanitisedUnderscores(name: string)
    ensures multiset(Sanitised(name))['_'] == multiset(name)['_'] + multiset(name)['-'] + multiset(name)[' ']
  {
    if name != [] {
      SanitisedUnderscores(name[1..]);
      assert name == [name[0]] + name[1..];
    }
  }

  /** Sanitising works character by character, so it keeps the order. */
  lemma {:induction false} SanitisedAppend(a: string, b: string)
    ensures Sanitised(a + b) == Sanitised(a) + Sanitised(b)
  {
    if a == [] {
      assert a + b == b;
    } else {
      assert (a + b)[0] == a[0] && (a + b)[1..] == a[1..] + b;
      SanitisedAppend(a[1..], b);
    }
  }

  /** A string made of identifier characters only is left as it is. */
  lemma {:induction false} SanitisedKeepsIdentChars(s: string)
    requires forall i :: 0 <= i < |s| ==> IdentChar(s[i])
    ensures Sanitised(s) == s
  {
    if s != [] {
      SanitisedKeepsIdentChars(s[1..]);
    }
  }

  /** A name that already is an identifier comes out unchanged, so deriving
   *  the name twice gives the same result as deriving it once. */
  lemma NeatNameKeepsIdentifiers(s: string)
    requires Identifier(s)
    ensures NeatName(s) == s
  {
    SanitisedKeepsIdentChars(s);
  }

  lemma NeatNameIdempotent(name: string)
    ensures NeatName(NeatName(name)) == NeatName(name)
  {
    NeatNameKeepsIdentifiers(NeatName(name));
  }

  // ---------------------------------------------------------------------
  // The narrowest reference type

  datatype RefType = UInt8 | UInt16 | UInt32 | UInt64

  /** Each candidate type with the first count it can no longer hold. */
  const Range2Type: seq<(nat, RefType)> := [
    (0x100, UInt8),
    (0x1_0000, UInt16),
    (0x1_0000_0000, UInt32),
    (0x1_0000_0000_0000_0000, UInt64)
  ]

  /** Entry k of the table is the first whose bound exceeds `count`. */
  ghost predicate FirstFit(count: nat, k: nat) {
    k < |Range2Type| && count < Range2Type[k].0 &&
    forall j :: 0 <= j < k ==> Range2Type[j].0 <= count
  }

  /** Picks the first (and so the narrowest) type of the table whose bound
   *  is strictly greater than `count`; none fits from 2^64 on. */
  method NarrowestRefType(count: nat) returns (r: Option<RefType>)
    ensures r.None? <==> count >= 0x1_0000_0000_0000_0000
    ensures r.Some? ==> exists k: nat :: FirstFit(count, k) && Range2Type[k].1 == r.value
  {
    r := None;
    for k := 0 to |Range2Type|
      invariant r.None?
      invariant forall j :: 0 <= j < k ==> Range2Type[j].0 <= count
    {
      if count < Range2Type[k].0 {
        r := Some(Range2Type[k].1);
        assert FirstFit(count, k);
        assert Range2Type[k].0 <= Range2Type[3].0;
        return;
      }
    }
    assert Range2Type[3].0 <= count;
  }

  /** The reference types for places and for transitions; None stands for
   *  the fatal exit when either count needs more than 64 bits. */
  method RefTypes(placeNum: nat, transNum: nat) returns (r: Option<(RefType, RefType)>)
    ensures r.None? <==> placeNum >= 0x1_0000_0000_0000_0000 || transNum >= 0x1_0000_0000_0000_0000
    ensures r.Some? ==> (exists k: nat :: FirstFit(placeNum, k) && Range2Type[k].1 == r.value.0) &&
                        (exists k: nat :: FirstFit(transNum, k) && Range2Type[k].1 == r.value.1)
  {
    var placeRef := NarrowestRefType(placeNum);
    var transRef := NarrowestRefType(transNum);
    if placeRef.None? || transRef.None? {
      return None;
    }
    r := Some((placeRef.value, transRef.value));
  }

  // ---------------------------------------------------------------------
  // The index tables

  /** A table with an inverse index lists no name twice, and every name it
   *  lists is indexed by its position. */
  lemma IndexedNames(list: seq<Name>, idx: map<Name, nat>)
    requires Indexes(list, idx)
    ensures Distinct(list)
    ensures forall r :: r in list ==> r in idx && idx[r] < |list| && list[idx[r]] == r
  {
    forall r | r in list ensures r in idx && idx[r] < |list| && list[idx[r]] == r {
      var i :| 0 <= i < |list| && list[i] == r;
    }
  }

  /** `list` and `idx` are inverse tables for the names in `list`. */
  ghost predicate Indexes(list: seq<Name>, idx: map<Name, nat>) {
    forall i :: 0 <= i < |list| ==> list[i] in idx && idx[list[i]] == i
  }

  /** The hash values of the keys. */
  ghost function HashImage(keys: seq<Name>, hash: map<Name, nat>): set<nat>
    requires forall i :: 0 <= i < |keys| ==> keys[i] in hash
  {
    set i | 0 <= i < |keys| :: hash[keys[i]]
  }

  /** Fills the name-to-index map and the index-to-name table from a hash
   *  that maps the keys one-to-one onto 0..|keys| - 1. */
  method BuildIndex(keys: seq<Name>, hash: map<Name, nat>) returns (idx: map<Name, nat>, names: seq<Name>)
    requires Distinct(keys)
    requires forall i :: 0 <= i < |keys| ==> keys[i] in hash && hash[keys[i]] < |keys|
    requires forall i, j :: 0 <= i < j < |keys| ==> hash[keys[i]] != hash[keys[j]]
    requires forall n :: 0 <= n < |keys| ==> n in HashImage(keys, hash)
    ensures |names| == |keys| && Indexes(names, idx)
    ensures forall i :: 0 <= i < |keys| ==> keys[i] in idx && idx[keys[i]] == hash[keys[i]] && names[hash[keys[i]]] == keys[i]
    ensures idx.Keys == set k | k in keys
  {
    var table := new Name[|keys|](_ => "");
    idx := map[];
    for k := 0 to |keys|
      invariant idx.Keys == set i | 0 <= i < k :: keys[i]
      invariant forall i :: 0 <= i < k ==> idx[keys[i]] == hash[keys[i]] && table[hash[keys[i]]] == keys[i]
    {
      var key := keys[k];
      idx := idx[key := hash[key]];
      table[hash[key]] := key;
    }
    names := table[..];
    forall n | 0 <= n < |names| ensures names[n] in idx && idx[names[n]] == n {
      assert n in HashImage(keys, hash);
      var i :| 0 <= i < |keys| && hash[keys[i]] == n;
      assert names[n] == keys[i];
    }
  }

  // ---------------------------------------------------------------------
  // Edges and their classes

  /** An edge of the net; `kind` is the arc type the net declares. */
  datatype Edge = Edge(source: Name, target: Name, kind: string)

  /** The edge type that marks an inhibitor arc. */
  const Inhibitor: string := "inhibitor"

  /** The elements of s that satisfy f, in their order. */
  function Filter<T(!new)>(s: seq<T>, f: T -> bool): (r: seq<T>)
    ensures forall x :: x in r <==> x in s && f(x)
    ensures |r| <= |s|
  {
    if s == [] then [] else (if f(s[0]) then [s[0]] else []) + Filter(s[1..], f)
  }

  lemma {:induction false} FilterAppend<T(!new)>(s: seq<T>, x: T, f: T -> bool)
    ensures Filter(s + [x], f) == Filter(s, f) + (if f(x) then [x] else [])
  {
    if s == [] {
      assert [x][1..] == [];
    } else {
      assert (s + [x])[0] == s[0] && (s + [x])[1..] == s[1..] + [x];
      FilterAppend(s[1..], x, f);
    }
  }

  lemma {:induction false} FilterDistinct<T(!new)>(s: seq<T>, f: T -> bool)
    requires Distinct(s)
    ensures Distinct(Filter(s, f))
  {
    if s != [] {
      FilterDistinct(s[1..], f);
      assert s[0] !in s[1..] by {
        forall k | 0 <= k < |s[1..]| ensures s[1..][k] != s[0] {
          assert s[1..][k] == s[k + 1];
        }
      }
    }
  }

  /** In a list without repetitions each element is kept once or not at all. */
  lemma {:induction false} FilterCount<T(!new)>(s: seq<T>, f: T -> bool, c: T)
    requires Distinct(s)
    ensures multiset(Filter(s, f))[c] == if c in s && f(c) then 1 else 0
  {
    if s != [] {
      FilterCount(s[1..], f, c);
      assert s[0] !in s[1..] by {
        forall k | 0 <= k < |s[1..]| ensures s[1..][k] != s[0] {
          assert s[1..][k] == s[k + 1];
        }
      }
      assert c in s <==> c == s[0] || c in s[1..];
    }
  }

  /** A list without repetitions is no longer than any list that holds all
   *  its elements. */
  lemma {:induction false} NoLonger<T>(a: seq<T>, b: seq<T>)
    requires Distinct(a) && forall x :: x in a ==> x in b
    ensures |a| <= |b|
    decreases |a|
  {
    if a != [] {
      assert a[0] in a;
      var k :| 0 <= k < |b| && b[k] == a[0];
      var rest := b[..k] + b[k + 1..];
      forall y | y in a[1..] ensures y in rest {
        var i :| 0 <= i < |a[1..]| && a[1..][i] == y;
        assert a[i + 1] == y && y in a && a[0] != y;
        var j :| 0 <= j < |b| && b[j] == y;
        if j < k { assert rest[j] == y; } else { assert rest[j - 1] == y; }
      }
      assert Distinct(a[1..]) by {
        forall i, j | 0 <= i < j < |a[1..]| ensures a[1..][i] != a[1..][j] {
          assert a[1..][i] == a[i + 1] && a[1..][j] == a[j + 1];
        }
      }
      NoLonger(a[1..], rest);
    }
  }

  /** Two lists without repetitions and with the same elements are equally
   *  long. */
  lemma SameLength<T>(a: seq<T>, b: seq<T>)
    requires Distinct(a) && Distinct(b)
    requires forall x :: x in a <==> x in b
    ensures |a| == |b|
  {
    NoLonger(a, b);
    NoLonger(b, a);
  }

  /** The (source, target) pair of every edge, in order. */
  function Pairs(es: seq<Edge>): (r: seq<(Name, Name)>)
    ensures |r| == |es| && forall i :: 0 <= i < |es| ==> r[i] == (es[i].source, es[i].target)
  {
    seq(|es|, i requires 0 <= i < |es| => (es[i].source, es[i].target))
  }

  function NormalFromPlace(places: set<Name>): Edge -> bool {
    (e: Edge) => e.source in places && e.kind != Inhibitor
  }

  function InhibitorFromPlace(places: set<Name>): Edge -> bool {
    (e: Edge) => e.source in places && e.kind == Inhibitor
  }

  function IntoPlace(places: set<Name>): Edge -> bool {
    (e: Edge) => e.target in places
  }

  /** Normal arcs from a place to a transition: one pair per such edge, so never more
   *  pairs than edges, and each pair is the endpoints of such an edge. */
  function P2T(edges: seq<Edge>, places: set<Name>): (r: seq<(Name, Name)>)
    ensures |r| <= |edges|
    ensures forall k :: 0 <= k < |r| ==>
              exists e :: e in edges && e.source in places && e.kind != Inhibitor && r[k] == (e.source, e.target)
  {
    var kept := Filter(edges, NormalFromPlace(places));
    assert forall k :: 0 <= k < |kept| ==> kept[k] in kept && kept[k] in edges && kept[k].source in places && kept[k].kind != Inhibitor;
    Pairs(kept)
  }

  /** Inhibitor arcs from a place to a transition: one pair per such edge, so never more
   *  pairs than edges, and each pair is the endpoints of such an edge. */
  function P2I(edges: seq<Edge>, places: set<Name>): (r: seq<(Name, Name)>)
    ensures |r| <= |edges|
    ensures forall k :: 0 <= k < |r| ==>
              exists e :: e in edges && e.source in places && e.kind == Inhibitor && r[k] == (e.source, e.target)
  {
    var kept := Filter(edges, InhibitorFromPlace(places));
    assert forall k :: 0 <= k < |kept| ==> kept[k] in kept && kept[k] in edges && kept[k].source in places && kept[k].kind == Inhibitor;
    Pairs(kept)
  }

  /** Arcs from a transition to a place: one pair per such edge, so never more
   *  pairs than edges, and each pair is the endpoints of such an edge. */
  function T2P(edges: seq<Edge>, places: set<Name>): (r: seq<(Name, Name)>)
    ensures |r| <= |edges|
    ensures forall k :: 0 <= k < |r| ==>
              exists e :: e in edges && e.target in places && r[k] == (e.source, e.target)
  {
    var kept := Filter(edges, IntoPlace(places));
    assert forall k :: 0 <= k < |kept| ==> kept[k] in kept && kept[k] in edges && kept[k].target in places;
    Pairs(kept)
  }

  lemma {:induction false} FilterSplit<T(!new)>(s: seq<T>, f: T -> bool, g: T -> bool, h: T -> bool)
    requires forall x :: f(x) <==> g(x) || h(x)
    requires forall x :: !(g(x) && h(x))
    ensures |Filter(s, f)| == |Filter(s, g)| + |Filter(s, h)|
  {
    if s != [] {
      FilterSplit(s[1..], f, g, h);
    }
  }

  /** Every edge that leaves a place is classified exactly once: as a normal
   *  arc when its type is not "inhibitor", as an inhibitor arc otherwise. */
  lemma EdgeClasses(edges: seq<Edge>, places: set<Name>)
    ensures |P2T(edges, places)| + |P2I(edges, places)| == |Filter(edges, (e: Edge) => e.source in places)|
    ensures forall e :: e in edges && e.source in places && e.kind != Inhibitor ==> (e.source, e.target) in P2T(edges, places)
    ensures forall e :: e in edges && e.source in places && e.kind == Inhibitor ==> (e.source, e.target) in P2I(edges, places)
  {
    FilterSplit(edges, (e: Edge) => e.source in places, NormalFromPlace(places), InhibitorFromPlace(places));
    forall e | e in edges && e.source in places && e.kind != Inhibitor
      ensures (e.source, e.target) in P2T(edges, places)
    {
      var kept := Filter(edges, NormalFromPlace(places));
      var i :| 0 <= i < |kept| && kept[i] == e;
      assert P2T(edges, places)[i] == (e.source, e.target);
    }
    forall e | e in edges && e.source in places && e.kind == Inhibitor
      ensures (e.source, e.target) in P2I(edges, places)
    {
      var kept := Filter(edges, InhibitorFromPlace(places));
      var i :| 0 <= i < |kept| && kept[i] == e;
      assert P2I(edges, places)[i] == (e.source, e.target);
    }
  }

  /** Both place-to-transition lists hold only arcs that leave a place, and
   *  the output list only arcs that enter one. */
  lemma EdgeEndpoints(edges: seq<Edge>, places: set<Name>)
    ensures forall pr :: pr in P2T(edges, places) ==> pr.0 in places
    ensures forall pr :: pr in P2I(edges, places) ==> pr.0 in places
    ensures forall pr :: pr in T2P(edges, places) ==> pr.1 in places
  {
    forall pr | pr in P2T(edges, places) ensures pr.0 in places {
      var kept := Filter(edges, NormalFromPlace(places));
      var i :| 0 <= i < |kept| && P2T(edges, places)[i] == pr;
      assert kept[i] in kept;
    }
    forall pr | pr in P2I(edges, places) ensures pr.0 in places {
      var kept := Filter(edges, InhibitorFromPlace(places));
      var i :| 0 <= i < |kept| && P2I(edges, places)[i] == pr;
      assert kept[i] in kept;
    }
    forall pr | pr in T2P(edges, places) ensures pr.1 in places {
      var kept := Filter(edges, IntoPlace(places));
      var i :| 0 <= i < |kept| && T2P(edges, places)[i] == pr;
      assert kept[i] in kept;
    }
  }

  // ---------------------------------------------------------------------
  // Length-prefixed reference lists

  /** The list genlist writes: the number of references, then each
   *  reference's index plus one. */
  function Encode(index: map<Name, nat>, refs: seq<Name>): seq<nat>
    requires forall r :: r in refs ==> r in index
  {
    [|refs|] + seq(|refs|, i requires 0 <= i < |refs| => 1 + index[refs[i]])
  }

  /** Builds the list one reference at a time, as genlist writes it out. */
  method GenList(index: map<Name, nat>, refs: seq<Name>) returns (out: seq<nat>)
    requires forall r :: r in refs ==> r in index
    ensures out == Encode(index, refs)
  {
    out := [|refs|];
    for k := 0 to |refs|
      invariant |out| == k + 1 && out[0] == |refs|
      invariant forall i :: 0 <= i < k ==> out[i + 1] == 1 + index[refs[i]]
    {
      out := out + [1 + index[refs[k]]];
    }
  }

  /** A list whose references all index a table of n names is a reference
   *  list over 1..n. */
  lemma EncodeRefList(index: map<Name, nat>, refs: seq<Name>, n: nat)
    requires forall r :: r in refs ==> r in index && index[r] < n
    ensures PetriNet.RefList(Encode(index, refs), n)
  {
  }

  /** Reading the references back through the inverse table. */
  function Decode(l: seq<nat>, names: seq<Name>): (r: seq<Name>)
    requires PetriNet.RefList(l, |names|)
    ensures |r| == |l| - 1
  {
    seq(|l| - 1, i requires 0 <= i < |l| - 1 => names[l[i + 1] - 1])
  }

  /** Encoding through the index and decoding through the inverse table
   *  gives back the references in their order. */
  lemma DecodeEncode(index: map<Name, nat>, names: seq<Name>, refs: seq<Name>)
    requires Indexes(names, index)
    requires forall r :: r in refs ==> r in names
    ensures forall r :: r in refs ==> r in index && index[r] < |names|
    ensures PetriNet.RefList(Encode(index, refs), |names|)
    ensures Decode(Encode(index, refs), names) == refs
  {
    forall r | r in refs ensures r in index && index[r] < |names| && names[index[r]] == r {
      var i :| 0 <= i < |names| && names[i] == r;
    }
    EncodeRefList(index, refs, |names|);
  }

  // ---------------------------------------------------------------------
  // Neighbour lists

  function Succeeds(arcs: seq<(Name, Name)>, x: Name): Name -> bool {
    (y: Name) => (x, y) in arcs
  }

  function Precedes(arcs: seq<(Name, Name)>, x: Name): Name -> bool {
    (y: Name) => (y, x) in arcs
  }

  /** The candidates y, in table order, for which (x, y) is an arc. */
  function Followers(cands: seq<Name>, arcs: seq<(Name, Name)>, x: Name): seq<Name> {
    Filter(cands, Succeeds(arcs, x))
  }

  /** The candidates y, in table order, for which (y, x) is an arc. */
  function Preceders(cands: seq<Name>, arcs: seq<(Name, Name)>, x: Name): seq<Name> {
    Filter(cands, Precedes(arcs, x))
  }

  /** Kept elements keep their relative order, so when the candidates are
   *  numbered consecutively from `base` the kept numbers ascend. */
  lemma {:induction false} FilterAscending<T(!new)>(s: seq<T>, f: T -> bool, idx: map<T, nat>, base: nat)
    requires forall k :: 0 <= k < |s| ==> s[k] in idx && idx[s[k]] == base + k
    ensures forall x :: x in Filter(s, f) ==> x in idx && base <= idx[x]
    ensures forall i, j :: 0 <= i < j < |Filter(s, f)| ==> idx[Filter(s, f)[i]] < idx[Filter(s, f)[j]]
  {
    if s != [] {
      FilterAscending(s[1..], f, idx, base + 1);
      assert s[0] !in s[1..] by {
        forall k | 0 <= k < |s[1..]| ensures s[1..][k] != s[0] {
          assert idx[s[1..][k]] == base + 1 + k;
        }
      }
    }
  }

  /** A neighbour list built from a table and encoded through its inverse
   *  index is strictly ascending; in particular no neighbour appears twice. */
  lemma NeighboursAscending(cands: seq<Name>, idx: map<Name, nat>, f: Name -> bool)
    requires Indexes(cands, idx)
    ensures forall r :: r in Filter(cands, f) ==> r in idx && idx[r] < |cands|
    ensures forall i, j :: 1 <= i < j < |Encode(idx, Filter(cands, f))| ==>
              Encode(idx, Filter(cands, f))[i] < Encode(idx, Filter(cands, f))[j]
  {
    FilterAscending(cands, f, idx, 0);
    forall r | r in Filter(cands, f) ensures idx[r] < |cands| {
      var k :| 0 <= k < |cands| && cands[k] == r;
    }
  }

  // ---------------------------------------------------------------------
  // The initial countdown

  /** The source of every pair, in order. */
  function Sources(ps: seq<(Name, Name)>): (r: seq<Name>)
    ensures |r| == |ps| && forall i :: 0 <= i < |ps| ==> r[i] == ps[i].0
  {
    seq(|ps|, i requires 0 <= i < |ps| => ps[i].0)
  }

  /** Pairs into one target with distinct sources have distinct sources. */
  lemma SourcesDistinct(ps: seq<(Name, Name)>, t: Name)
    requires Distinct(ps) && forall pr :: pr in ps ==> pr.1 == t
    ensures Distinct(Sources(ps))
  {
    forall i, j | 0 <= i < j < |ps| ensures ps[i].0 != ps[j].0 {
      assert ps[i].1 == t == ps[j].1 by {
        assert ps[i] in ps && ps[j] in ps;
      }
    }
  }

  function EmptyInto(t: Name, marking: Name -> nat): ((Name, Name)) -> bool {
    (pr: (Name, Name)) => pr.1 == t && marking(pr.0) == 0
  }

  function MarkedInto(t: Name, marking: Name -> nat): ((Name, Name)) -> bool {
    (pr: (Name, Name)) => pr.1 == t && marking(pr.0) > 0
  }

  /** The countdown a transition starts with: the normal arcs into it from
   *  places without tokens plus the inhibitor arcs into it from places with
   *  tokens, under the initial marking. */
  function IniCountdown(t: Name, p2t: seq<(Name, Name)>, p2i: seq<(Name, Name)>, marking: Name -> nat): (r: nat)
    ensures r <= |p2t| + |p2i|
  {
    |Sources(Filter(p2t, EmptyInto(t, marking)))| + |Sources(Filter(p2i, MarkedInto(t, marking)))|
  }

  /** A transition starts at zero exactly when every normal source is
   *  marked and every inhibitor source is empty. */
  lemma IniCountdownZeroIff(t: Name, p2t: seq<(Name, Name)>, p2i: seq<(Name, Name)>, marking: Name -> nat)
    ensures IniCountdown(t, p2t, p2i, marking) == 0 <==>
            (forall pr :: pr in p2t && pr.1 == t ==> marking(pr.0) > 0) &&
            (forall pr :: pr in p2i && pr.1 == t ==> marking(pr.0) == 0)
  {
    var a := Filter(p2t, EmptyInto(t, marking));
    var b := Filter(p2i, MarkedInto(t, marking));
    if IniCountdown(t, p2t, p2i, marking) != 0 {
      if |a| > 0 {
        assert a[0] in a;
      } else {
        assert b[0] in b;
      }
    }
  }
}
