/**
 The bill-of-materials walk over a parts DAG.  A resolver knows finitely many assembly references; any
 other reference is a leaf part.
 */
module Bom {
  import opened Prelude

  type Ref = Bytes

  datatype Child = Child(reference: Ref, quantity: U64)

  type Assembly = seq<Child>

  type Resolver = map<Ref, Assembly>

  type Parts = map<Ref, U64>

  datatype CadError = Cycle

  /** `multiplier.saturating_mul(quantity)`. */
  function SatMul(a: U64, b: U64): U64 {
    if a * b > U64_MAX then U64_MAX else a * b
  }

  /** `*bom.entry(key).or_insert(0) += effective`, wrapping at 64 bits. */
  function Accumulate(bom: Parts, key: Ref, effective: U64): Parts {
    bom[key := ((if key in bom then bom[key] else 0) + effective) % (U64_MAX + 1)]
  }

  /** How many assembly references are not yet on the path: the walk's measure. */
  ghost function Left(m: Resolver, path: seq<Ref>): nat {
    |m.Keys - (set r | r in path)|
  }

  lemma LeftDrops(m: Resolver, path: seq<Ref>, r: Ref)
    requires r in m && r !in path
    ensures Left(m, path + [r]) < Left(m, path)
  {
    var a, b := m.Keys - (set x | x in path), m.Keys - (set x | x in path + [r]);
    assert b == a - {r} && r in a;
  }

  // ---------------------------------------------------------------- trails

  /** A trail: child positions leading down from `node` through assemblies. */
  predicate Trail(m: Resolver, node: Assembly, t: seq<nat>)
    decreases |t|
  {
    t == [] || (t[0] < |node| && (|t| == 1 || (node[t[0]].reference in m && Trail(m, m[node[t[0]].reference], t[1..]))))
  }

  /** The references met along a trail. */
  function Refs(m: Resolver, node: Assembly, t: seq<nat>): (rs: seq<Ref>)
    requires Trail(m, node, t)
    ensures |rs| == |t|
    decreases |t|
  {
    if t == [] then []
    else
      var r := node[t[0]].reference;
      [r] + if |t| == 1 then [] else Refs(m, m[r], t[1..])
  }

  /** A trail from `node` that meets a reference twice, or one already on `path`. */
  ghost predicate Hits(m: Resolver, node: Assembly, path: seq<Ref>, t: seq<nat>)
    requires Trail(m, node, t)
  {
    var rs := Refs(m, node, t);
    exists y :: 0 <= y < |rs| && (rs[y] in path || rs[y] in rs[..y])
  }

  /** A trail down to a leaf part. */
  predicate LeafTrail(m: Resolver, node: Assembly, t: seq<nat>) {
    t != [] && Trail(m, node, t) && Refs(m, node, t)[|t| - 1] !in m
  }

  /** The part a leaf trail ends in. */
  function Part(m: Resolver, node: Assembly, t: seq<nat>): Ref
    requires LeafTrail(m, node, t)
  {
    Refs(m, node, t)[|t| - 1]
  }

  /** The product of the quantities along a trail. */
  function Product(m: Resolver, node: Assembly, t: seq<nat>): nat
    requires Trail(m, node, t)
    decreases |t|
  {
    if t == [] then 1
    else
      var c := node[t[0]];
      c.quantity * if |t| == 1 then 1 else Product(m, m[c.reference], t[1..])
  }

  /** What one trail contributes under a multiplier: the product, capped at the largest u64. */
  function Effective(m: Resolver, node: Assembly, mult: nat, t: seq<nat>): U64
    requires Trail(m, node, t)
  {
    var p := mult * Product(m, node, t);
    if p > U64_MAX then U64_MAX else p
  }

  // ---------------------------------------------------------------- the walk as functions

  /** Whether the walk meets a reference that is on its path, among the children from `i` on. */
  predicate Cyclic(m: Resolver, node: Assembly, i: nat, path: seq<Ref>)
    requires i <= |node|
    decreases Left(m, path), |node| - i
  {
    if i == |node| then false
    else
      var r := node[i].reference;
      || r in path
      || (r in m && (LeftDrops(m, path, r); Cyclic(m, m[r], 0, path + [r])))
      || Cyclic(m, node, i + 1, path)
  }

  /** The contributions in the order in which the walk makes them. */
  function Contributions(m: Resolver, node: Assembly, i: nat, mult: U64, path: seq<Ref>): seq<(Ref, U64)>
    requires i <= |node|
    decreases Left(m, path), |node| - i
  {
    if i == |node| then []
    else
      var r, effective := node[i].reference, SatMul(mult, node[i].quantity);
      (if r in path then []
       else if r in m then LeftDrops(m, path, r); Contributions(m, m[r], 0, effective, path + [r])
       else [(r, effective)])
      + Contributions(m, node, i + 1, mult, path)
  }

  function AddAll(bom: Parts, cs: seq<(Ref, U64)>): Parts
    decreases |cs|
  {
    if cs == [] then bom else AddAll(Accumulate(bom, cs[0].0, cs[0].1), cs[1..])
  }

  lemma {:induction false} AddAllConcat(bom: Parts, cs: seq<(Ref, U64)>, ds: seq<(Ref, U64)>)
    ensures AddAll(bom, cs + ds) == AddAll(AddAll(bom, cs), ds)
    decreases |cs|
  {
    if cs == [] {
      assert cs + ds == ds;
    } else {
      AddAllConcat(Accumulate(bom, cs[0].0, cs[0].1), cs[1..], ds);
      assert (cs + ds)[1..] == cs[1..] + ds;
    }
  }

  // ---------------------------------------------------------------- the walk as it runs

  /** `walk_bom` at work: a shared path, pushed and popped, and a shared table of parts. */
  class Walker {
    const resolve: Resolver
    var path: seq<Ref>
    var bom: Parts

    constructor (m: Resolver)
      ensures resolve == m && path == [] && bom == map[]
    {
      resolve := m;
      path := [];
      bom := map[];
    }

    /** `recurse`: restores the path, and fails exactly on a cycle. */
    method Recurse(node: Assembly, multiplier: U64) returns (r: Result<(), CadError>)
      modifies this
      ensures r.Err? <==> Cyclic(resolve, node, 0, old(path))
      ensures r.Ok? ==> path == old(path)
      ensures r.Ok? ==> bom == AddAll(old(bom), Contributions(resolve, node, 0, multiplier, old(path)))
      decreases Left(resolve, path)
    {
      ghost var p0, b0 := path, bom;
      for i := 0 to |node|
        invariant path == p0
        invariant Cyclic(resolve, node, 0, p0) == Cyclic(resolve, node, i, p0)
        invariant AddAll(bom, Contributions(resolve, node, i, multiplier, p0)) ==
          AddAll(b0, Contributions(resolve, node, 0, multiplier, p0))
      {
        var child := node[i];
        var key := child.reference;
        if key in path {
          return Err(Cycle);
        }
        var effective := SatMul(multiplier, child.quantity);
        ghost var rest := Contributions(resolve, node, i + 1, multiplier, p0);
        if key in resolve {
          LeftDrops(resolve, path, key);
          path := path + [key];
          ghost var b1 := bom;
          var sub := Recurse(resolve[key], effective);
          if sub.Err? {
            return sub;
          }
          path := path[..|path| - 1];
          AddAllConcat(b1, Contributions(resolve, resolve[key], 0, effective, p0 + [key]), rest);
        } else {
          AddAllConcat(bom, [(key, effective)], rest);
          assert [(key, effective)][1..] == [];
          bom := Accumulate(bom, key, effective);
        }
      }
      return Ok(());
    }
  }

  /** `walk_bom`. */
  method WalkBom(m: Resolver, root: Assembly) returns (r: Result<Parts, CadError>)
    ensures r.Err? <==> exists t :: Trail(m, root, t) && Hits(m, root, [], t)
    ensures r.Ok? ==> Enumerates(m, root, Trails(m, root, 0, []))
    ensures r.Ok? ==> forall leaf :: leaf in r.value <==> exists t :: LeafTrail(m, root, t) && Part(m, root, t) == leaf
    ensures r.Ok? ==> forall leaf | leaf in r.value ::
      r.value[leaf] == Total(m, root, Trails(m, root, 0, []), leaf) % (U64_MAX + 1)
  {
    var w := new Walker(m);
    var done := w.Recurse(root, 1);
    CyclicIff(m, root);
    if done.Err? {
      return Err(done.error);
    }
    WalkMeaning(m, root);
    return Ok(w.bom);
  }

  // ---------------------------------------------------------------- cycles

  /** If the walk finds a cycle, there is a trail that shows it. */
  lemma {:induction false} CyclicTrail(m: Resolver, node: Assembly, i: nat, path: seq<Ref>) returns (t: seq<nat>)
    requires i <= |node| && Cyclic(m, node, i, path)
    ensures Trail(m, node, t) && Hits(m, node, path, t)
    decreases Left(m, path), |node| - i
  {
    var r := node[i].reference;
    if r in path {
      t := [i];
      assert Refs(m, node, t)[0] == r;
    } else if r in m && (LeftDrops(m, path, r); Cyclic(m, m[r], 0, path + [r])) {
      LeftDrops(m, path, r);
      var u := CyclicTrail(m, m[r], 0, path + [r]);
      t := [i] + u;
      var rs := Refs(m, m[r], u);
      var y :| 0 <= y < |rs| && (rs[y] in path + [r] || rs[y] in rs[..y]);
      assert t[1..] == u && Refs(m, node, t) == [r] + rs;
      assert ([r] + rs)[y + 1] == rs[y] && ([r] + rs)[..y + 1] == [r] + rs[..y];
    } else {
      t := CyclicTrail(m, node, i + 1, path);
    }
  }

  /** A trail that meets a reference again is found by the walk. */
  lemma {:induction false} TrailCyclic(m: Resolver, node: Assembly, i: nat, path: seq<Ref>, t: seq<nat>)
    requires i <= |node| && Trail(m, node, t) && t != [] && t[0] >= i && Hits(m, node, path, t)
    ensures Cyclic(m, node, i, path)
    decreases Left(m, path), |node| - i
  {
    if t[0] > i {
      TrailCyclic(m, node, i + 1, path, t);
    } else {
      var r := node[i].reference;
      var rs := Refs(m, node, t);
      var y :| 0 <= y < |rs| && (rs[y] in path || rs[y] in rs[..y]);
      if r !in path {
        assert y > 0;
        LeftDrops(m, path, r);
        var us := Refs(m, m[r], t[1..]);
        assert rs == [r] + us && rs[..y] == [r] + us[..y - 1] && us[y - 1] == rs[y];
        assert us[y - 1] in path + [r] || us[y - 1] in us[..y - 1];
        TrailCyclic(m, m[r], 0, path + [r], t[1..]);
      }
    }
  }

  /** The walk from the root fails exactly if some trail repeats a reference. */
  lemma CyclicIff(m: Resolver, root: Assembly)
    ensures Cyclic(m, root, 0, []) <==> exists t :: Trail(m, root, t) && Hits(m, root, [], t)
  {
    if Cyclic(m, root, 0, []) {
      var t := CyclicTrail(m, root, 0, []);
    }
    if t :| Trail(m, root, t) && Hits(m, root, [], t) {
      TrailCyclic(m, root, 0, [], t);
    }
  }

  // ---------------------------------------------------------------- sums over trails

  function Prefixed(i: nat, ts: seq<seq<nat>>): (us: seq<seq<nat>>)
    ensures |us| == |ts| && forall k | 0 <= k < |ts| :: us[k] == [i] + ts[k]
  {
    seq(|ts|, k requires 0 <= k < |ts| => [i] + ts[k])
  }

  /** The leaf trails that start at child `i` or later and avoid `path`, in walk order. */
  function Trails(m: Resolver, node: Assembly, i: nat, path: seq<Ref>): (ts: seq<seq<nat>>)
    requires i <= |node|
    ensures forall k | 0 <= k < |ts| :: LeafTrail(m, node, ts[k]) && ts[k][0] >= i
    decreases Left(m, path), |node| - i
  {
    if i == |node| then []
    else
      hide LeafTrail, Part;
      var r := node[i].reference;
      (if r in path then []
       else if r in m then
         LeftDrops(m, path, r);
         var us := Trails(m, m[r], 0, path + [r]);
         LeafTrailsDown(m, node, i, us);
         Prefixed(i, us)
       else
         LeafTrailOne(m, node, i);
         [[i]])
      + Trails(m, node, i + 1, path)
  }

  lemma LeafTrailOne(m: Resolver, node: Assembly, i: nat)
    requires i < |node| && node[i].reference !in m
    ensures LeafTrail(m, node, [i])
  {
    assert Trail(m, node, [i]);
  }

  lemma LeafTrailsDown(m: Resolver, node: Assembly, i: nat, us: seq<seq<nat>>)
    requires i < |node| && node[i].reference in m
    requires forall k | 0 <= k < |us| :: LeafTrail(m, m[node[i].reference], us[k])
    ensures forall k | 0 <= k < |us| ::
      LeafTrail(m, node, [i] + us[k]) && Part(m, node, [i] + us[k]) == Part(m, m[node[i].reference], us[k])
  {
    forall k | 0 <= k < |us|
      ensures LeafTrail(m, node, [i] + us[k]) && Part(m, node, [i] + us[k]) == Part(m, m[node[i].reference], us[k])
    {
      assert ([i] + us[k])[1..] == us[k];
    }
  }

  /** A list of exactly the leaf trails, each once. */
  ghost predicate Enumerates(m: Resolver, node: Assembly, ts: seq<seq<nat>>) {
    && (forall t :: t in ts <==> LeafTrail(m, node, t))
    && forall x, y | 0 <= x < y < |ts| :: ts[x] != ts[y]
  }

  /** A leaf trail ends at once in a part, or goes on below an assembly. */
  lemma LeafTrailStep(m: Resolver, node: Assembly, t: seq<nat>)
    requires LeafTrail(m, node, t)
    ensures t != [] && t[0] < |node|
    ensures node[t[0]].reference !in m ==> t == [t[0]]
    ensures node[t[0]].reference in m ==> t == [t[0]] + t[1..] && LeafTrail(m, m[node[t[0]].reference], t[1..])
  {
    assert t == [t[0]] + t[1..];
  }

  /** The trails from child `i` on: those below it, then the later ones. */
  lemma TrailsSplit(m: Resolver, node: Assembly, i: nat, path: seq<Ref>, t: seq<nat>)
    requires i < |node| && node[i].reference !in path
    ensures t in Trails(m, node, i + 1, path) ==> t in Trails(m, node, i, path)
    ensures node[i].reference !in m ==> [i] in Trails(m, node, i, path)
    ensures node[i].reference in m && t in Trails(m, m[node[i].reference], 0, path + [node[i].reference]) ==>
            [i] + t in Trails(m, node, i, path)
  {
    hide LeafTrail;
    var r := node[i].reference;
    if r in m && t in Trails(m, m[r], 0, path + [r]) {
      var us := Trails(m, m[r], 0, path + [r]);
      var k :| 0 <= k < |us| && us[k] == t;
      assert Prefixed(i, us)[k] == [i] + t;
    }
  }

  /** In an acyclic structure no leaf trail is missed. */
  lemma {:induction false} TrailsComplete(m: Resolver, node: Assembly, i: nat, path: seq<Ref>, t: seq<nat>)
    requires i <= |node| && !Cyclic(m, node, i, path) && LeafTrail(m, node, t) && t[0] >= i
    ensures t in Trails(m, node, i, path)
    decreases Left(m, path), |node| - i
  {
    hide LeafTrail, Trails;
    LeafTrailStep(m, node, t);
    var r := node[i].reference;
    if t[0] > i {
      TrailsComplete(m, node, i + 1, path, t);
      TrailsSplit(m, node, i, path, t);
    } else if r in m {
      LeftDrops(m, path, r);
      LeafTrailStep(m, m[r], t[1..]);
      TrailsComplete(m, m[r], 0, path + [r], t[1..]);
      TrailsSplit(m, node, i, path, t[1..]);
    } else {
      TrailsSplit(m, node, i, path, t);
    }
  }

  /** No leaf trail is listed twice. */
  lemma {:induction false} TrailsDistinct(m: Resolver, node: Assembly, i: nat, path: seq<Ref>)
    requires i <= |node|
    ensures forall x, y | 0 <= x < y < |Trails(m, node, i, path)| ::
      Trails(m, node, i, path)[x] != Trails(m, node, i, path)[y]
    decreases Left(m, path), |node| - i
  {
    if i < |node| {
      TrailsDistinct(m, node, i + 1, path);
      var r := node[i].reference;
      var rest := Trails(m, node, i + 1, path);
      if r !in path && r in m {
        LeftDrops(m, path, r);
        TrailsDistinct(m, m[r], 0, path + [r]);
        var us := Trails(m, m[r], 0, path + [r]);
        PrefixedDistinct(i, us);
        JoinDistinct(Prefixed(i, us), rest, i);
      } else if r !in path {
        JoinDistinct([[i]], rest, i);
      }
    }
  }

  lemma PrefixedDistinct(i: nat, us: seq<seq<nat>>)
    requires forall x, y | 0 <= x < y < |us| :: us[x] != us[y]
    ensures forall x, y | 0 <= x < y < |us| :: Prefixed(i, us)[x] != Prefixed(i, us)[y]
  {
    forall x, y | 0 <= x < y < |us|
      ensures Prefixed(i, us)[x] != Prefixed(i, us)[y]
    {
      assert ([i] + us[x])[1..] == us[x] && ([i] + us[y])[1..] == us[y];
    }
  }

  lemma JoinDistinct(ts: seq<seq<nat>>, us: seq<seq<nat>>, i: nat)
    requires forall x, y | 0 <= x < y < |ts| :: ts[x] != ts[y]
    requires forall x, y | 0 <= x < y < |us| :: us[x] != us[y]
    requires forall x | 0 <= x < |ts| :: ts[x] != [] && ts[x][0] == i
    requires forall x | 0 <= x < |us| :: us[x] != [] && us[x][0] > i
    ensures forall x, y | 0 <= x < y < |ts + us| :: (ts + us)[x] != (ts + us)[y]
  {
  }

  /** What the trails to one part contribute together: the sum of the capped products. */
  function Total(m: Resolver, node: Assembly, ts: seq<seq<nat>>, leaf: Ref): nat
    requires forall k | 0 <= k < |ts| :: LeafTrail(m, node, ts[k])
  {
    if ts == [] then 0
    else (if Part(m, node, ts[0]) == leaf then Effective(m, node, 1, ts[0]) else 0) + Total(m, node, ts[1..], leaf)
  }

  /** A contribution for each trail: its part and its capped product. */
  function Valued(m: Resolver, node: Assembly, mult: U64, ts: seq<seq<nat>>): (cs: seq<(Ref, U64)>)
    requires forall k | 0 <= k < |ts| :: LeafTrail(m, node, ts[k])
    ensures |cs| == |ts|
  {
    seq(|ts|, k requires 0 <= k < |ts| => (Part(m, node, ts[k]), Effective(m, node, mult, ts[k])))
  }

  /** Saturating step by step is capping the product at the end. */
  lemma SaturationIsCap(mult: nat, q: nat, p: nat)
    ensures var s := if mult * q > U64_MAX then U64_MAX else mult * q;
      (if s * p > U64_MAX then U64_MAX else s * p) == (if mult * (q * p) > U64_MAX then U64_MAX else mult * (q * p))
  {
    var a := mult * q;
    assert mult * (q * p) == a * p;
    if a > U64_MAX && p > 0 {
      assert a * p >= a by { MulGrows(a, p); }
      assert U64_MAX * p >= U64_MAX by { MulGrows(U64_MAX, p); }
    }
  }

  lemma MulGrows(a: nat, p: nat)
    requires p > 0
    ensures a * p >= a
  {
  }

  /** Going down one level multiplies. */
  lemma EffectiveDown(m: Resolver, node: Assembly, i: nat, mult: U64, u: seq<nat>)
    requires i < |node| && node[i].reference in m && u != [] && Trail(m, m[node[i].reference], u)
    ensures Trail(m, node, [i] + u)
    ensures Effective(m, node, mult, [i] + u) == Effective(m, m[node[i].reference], SatMul(mult, node[i].quantity), u)
  {
    assert ([i] + u)[1..] == u;
    SaturationIsCap(mult, node[i].quantity, Product(m, m[node[i].reference], u));
  }

  /** The walk contributes, trail by trail, the capped product to the part at the trail's end. */
  lemma {:induction false} ContributionsAreTrails(m: Resolver, node: Assembly, i: nat, mult: U64, path: seq<Ref>)
    requires i <= |node|
    ensures Contributions(m, node, i, mult, path) == Valued(m, node, mult, Trails(m, node, i, path))
    decreases Left(m, path), |node| - i
  {
    hide Valued, Effective, Part, Trail, LeafTrail, SatMul;
    if i == |node| {
      ValuedNone(m, node, mult);
    } else {
      ContributionsAreTrails(m, node, i + 1, mult, path);
      var r, effective := node[i].reference, SatMul(mult, node[i].quantity);
      var rest := Trails(m, node, i + 1, path);
      if r in path {
        assert [] + rest == rest;
      } else if r in m {
        LeftDrops(m, path, r);
        ContributionsAreTrails(m, m[r], 0, effective, path + [r]);
        var us := Trails(m, m[r], 0, path + [r]);
        LeafTrailsDown(m, node, i, us);
        ValuedDown(m, node, i, mult, us);
        ValuedConcat(m, node, mult, Prefixed(i, us), rest);
      } else {
        ValuedLeaf(m, node, i, mult);
        ValuedConcat(m, node, mult, [[i]], rest);
      }
    }
  }

  lemma ValuedNone(m: Resolver, node: Assembly, mult: U64)
    ensures Valued(m, node, mult, []) == []
  {
  }

  lemma ValuedLeaf(m: Resolver, node: Assembly, i: nat, mult: U64)
    requires i < |node| && node[i].reference !in m
    ensures LeafTrail(m, node, [i])
    ensures Valued(m, node, mult, [[i]]) == [(node[i].reference, SatMul(mult, node[i].quantity))]
  {
    LeafTrailOne(m, node, i);
    assert Product(m, node, [i]) == node[i].quantity;
  }

  lemma ValuedConcat(m: Resolver, node: Assembly, mult: U64, ts: seq<seq<nat>>, us: seq<seq<nat>>)
    requires forall k | 0 <= k < |ts| :: LeafTrail(m, node, ts[k])
    requires forall k | 0 <= k < |us| :: LeafTrail(m, node, us[k])
    ensures forall k | 0 <= k < |ts + us| :: LeafTrail(m, node, (ts + us)[k])
    ensures Valued(m, node, mult, ts + us) == Valued(m, node, mult, ts) + Valued(m, node, mult, us)
  {
    hide Effective, Part, Trail, LeafTrail;
    forall k | 0 <= k < |ts + us|
      ensures LeafTrail(m, node, (ts + us)[k])
    {
    }
    LeavesAreTrails(m, node, ts + us);
  }

  lemma LeavesAreTrails(m: Resolver, node: Assembly, ts: seq<seq<nat>>)
    requires forall k | 0 <= k < |ts| :: LeafTrail(m, node, ts[k])
    ensures forall k | 0 <= k < |ts| :: Trail(m, node, ts[k])
  {
  }

  lemma ValuedDown(m: Resolver, node: Assembly, i: nat, mult: U64, us: seq<seq<nat>>)
    requires i < |node| && node[i].reference in m
    requires forall k | 0 <= k < |us| :: LeafTrail(m, m[node[i].reference], us[k])
    requires forall k | 0 <= k < |us| ::
      LeafTrail(m, node, [i] + us[k]) && Part(m, node, [i] + us[k]) == Part(m, m[node[i].reference], us[k])
    ensures Valued(m, node, mult, Prefixed(i, us)) ==
      Valued(m, m[node[i].reference], SatMul(mult, node[i].quantity), us)
  {
    hide Effective, Part, LeafTrail, Trail;
    LeavesAreTrails(m, m[node[i].reference], us);
    LeavesAreTrails(m, node, Prefixed(i, us));
    forall k | 0 <= k < |us|
      ensures Trail(m, node, [i] + us[k])
      ensures Effective(m, node, mult, [i] + us[k]) ==
        Effective(m, m[node[i].reference], SatMul(mult, node[i].quantity), us[k])
    {
      LeafIsTrail(m, m[node[i].reference], us[k]);
      EffectiveDown(m, node, i, mult, us[k]);
    }
  }

  lemma LeafIsTrail(m: Resolver, node: Assembly, t: seq<nat>)
    requires LeafTrail(m, node, t)
    ensures t != [] && Trail(m, node, t)
  {
  }

  function SumOf(cs: seq<(Ref, U64)>, leaf: Ref): nat {
    if cs == [] then 0 else (if cs[0].0 == leaf then cs[0].1 else 0) + SumOf(cs[1..], leaf)
  }

  function Amount(bom: Parts, leaf: Ref): U64 {
    if leaf in bom then bom[leaf] else 0
  }

  /** Adding contributions up: each part ends with its sum modulo 2^64, and only contributed parts appear. */
  lemma {:induction false} AddAllSums(bom: Parts, cs: seq<(Ref, U64)>, leaf: Ref)
    ensures Amount(AddAll(bom, cs), leaf) == (Amount(bom, leaf) + SumOf(cs, leaf)) % (U64_MAX + 1)
    ensures leaf in AddAll(bom, cs) <==> leaf in bom || exists k :: 0 <= k < |cs| && cs[k].0 == leaf
    decreases |cs|
  {
    hide Amount, Accumulate;
    if cs == [] {
      AmountSmall(bom, leaf);
    } else {
      AddAllSums(Accumulate(bom, cs[0].0, cs[0].1), cs[1..], leaf);
      assert forall k | 1 <= k < |cs| :: cs[k] == cs[1..][k - 1];
      AmountStep(bom, cs[0].0, cs[0].1, SumOf(cs[1..], leaf), leaf);
    }
  }

  lemma AmountSmall(bom: Parts, leaf: Ref)
    ensures Amount(bom, leaf) % (U64_MAX + 1) == Amount(bom, leaf)
  {
  }

  lemma AmountStep(bom: Parts, key: Ref, effective: U64, rest: nat, leaf: Ref)
    ensures leaf in Accumulate(bom, key, effective) <==> leaf in bom || key == leaf
    ensures (Amount(Accumulate(bom, key, effective), leaf) + rest) % (U64_MAX + 1)
         == (Amount(bom, leaf) + ((if key == leaf then effective else 0) + rest)) % (U64_MAX + 1)
  {
    if key == leaf {
      ModStep(Amount(bom, leaf), effective, rest);
    }
  }

  lemma {:induction false} SumIsTotal(m: Resolver, node: Assembly, ts: seq<seq<nat>>, leaf: Ref)
    requires forall k | 0 <= k < |ts| :: LeafTrail(m, node, ts[k])
    ensures SumOf(Valued(m, node, 1, ts), leaf) == Total(m, node, ts, leaf)
    decreases |ts|
  {
    hide LeafTrail, Effective, Part, Trail;
    LeavesAreTrails(m, node, ts);
    if ts != [] {
      var cs := Valued(m, node, 1, ts);
      assert cs[1..] == Valued(m, node, 1, ts[1..]);
      SumIsTotal(m, node, ts[1..], leaf);
    }
  }

  lemma AddAllTotals(m: Resolver, node: Assembly, ts: seq<seq<nat>>, leaf: Ref)
    requires forall k | 0 <= k < |ts| :: LeafTrail(m, node, ts[k])
    ensures var out := AddAll(map[], Valued(m, node, 1, ts));
      && (leaf in out <==> exists k :: 0 <= k < |ts| && Part(m, node, ts[k]) == leaf)
      && (leaf in out ==> out[leaf] == Total(m, node, ts, leaf) % (U64_MAX + 1))
  {
    hide LeafTrail, Effective, Part, Trail, AddAll, SumOf, Total;
    LeavesAreTrails(m, node, ts);
    AddAllSums(map[], Valued(m, node, 1, ts), leaf);
    SumIsTotal(m, node, ts, leaf);
    assert forall k | 0 <= k < |ts| :: Valued(m, node, 1, ts)[k].0 == Part(m, node, ts[k]);
  }

  lemma ModStep(a: nat, b: nat, c: nat)
    ensures ((a + b) % (U64_MAX + 1) + c) % (U64_MAX + 1) == (a + (b + c)) % (U64_MAX + 1)
  {
  }

  /** The meaning of an acyclic walk. */
  lemma WalkMeaning(m: Resolver, root: Assembly)
    requires !Cyclic(m, root, 0, [])
    ensures var ts, out := Trails(m, root, 0, []), AddAll(map[], Contributions(m, root, 0, 1, []));
      && Enumerates(m, root, ts)
      && (forall leaf :: leaf in out <==> exists t :: LeafTrail(m, root, t) && Part(m, root, t) == leaf)
      && (forall leaf | leaf in out :: out[leaf] == Total(m, root, ts, leaf) % (U64_MAX + 1))
  {
    hide LeafTrail, Part, Contributions, Trails, Total, Cyclic;
    var ts := Trails(m, root, 0, []);
    forall t | LeafTrail(m, root, t)
      ensures t in ts
    {
      LeafIsTrail(m, root, t);
      TrailsComplete(m, root, 0, [], t);
    }
    TrailsDistinct(m, root, 0, []);
    ContributionsAreTrails(m, root, 0, 1, []);
    var out := AddAll(map[], Contributions(m, root, 0, 1, []));
    forall leaf
      ensures leaf in out <==> exists t :: LeafTrail(m, root, t) && Part(m, root, t) == leaf
      ensures leaf in out ==> out[leaf] == Total(m, root, ts, leaf) % (U64_MAX + 1)
    {
      AddAllTotals(m, root, ts, leaf);
      if t :| LeafTrail(m, root, t) && Part(m, root, t) == leaf {
        var k :| 0 <= k < |ts| && ts[k] == t;
      }
    }
  }
}
