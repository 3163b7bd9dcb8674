/**
 What a proof path reconstructs, written top down along the shape of the tree.  These functions are
 the reference against which the bit-shifting verifiers of `KtVerify` are proved, and about which
 soundness and completeness are shown.
 */
module KtFold {
  import opened Prelude
  import opened KtTree

  /** The two hashes a consistency proof carries upward: in the old tree and in the new one. */
  datatype Pair = Pair(was: Digest, now: Digest)

  /** The path without its topmost sibling. */
  function Below(path: seq<Digest>): seq<Digest>
    requires path != []
  {
    path[..|path| - 1]
  }

  function Top(path: seq<Digest>): Digest
    requires path != []
  {
    path[|path| - 1]
  }

  function UnderRight(h: Option<Pair>, right: Digest): Option<Pair> {
    if h.None? then None else Some(Pair(h.value.was, Node(h.value.now, right)))
  }

  function UnderLeft(left: Digest, h: Option<Pair>): Option<Pair> {
    if h.None? then None else Some(Pair(Node(left, h.value.was), Node(left, h.value.now)))
  }

  /**
   Lifts the pair `h` found at leaf `i` of a tree of `n` leaves to the root: left siblings belong to
   both trees, right siblings only to the new one.  `None` if the path has the wrong length.
   */
  function Fold(n: nat, i: nat, h: Pair, path: seq<Digest>): Option<Pair>
    requires i < n
    decreases n
  {
    if n == 1 then
      if path == [] then Some(h) else None
    else if path == [] then None
    else
      SplitIsLargestPowerBelow(n);
      var k := Split(n);
      if i < k then UnderRight(Fold(k, i, h, Below(path)), Top(path))
      else UnderLeft(Top(path), Fold(n - k, i - k, h, Below(path)))
  }

  /** The root that `leaf` at index `i` of `n` reconstructs with an audit path. */
  function RootOf(n: nat, i: nat, leaf: Digest, path: seq<Digest>): Option<Digest>
    requires i < n
  {
    var r := Fold(n, i, Pair(leaf, leaf), path);
    if r.None? then None else Some(r.value.now)
  }

  /** The pair of roots that a consistency path from `m` to `n` leaves reconstructs. */
  function Reconcile(m: nat, n: nat, b: bool, oldRoot: Digest, path: seq<Digest>): Option<Pair>
    requires 1 <= m <= n
    decreases n
  {
    if m == n then
      if b then (if path == [] then Some(Pair(oldRoot, oldRoot)) else None)
      else if |path| == 1 then Some(Pair(path[0], path[0])) else None
    else if path == [] then None
    else
      SplitIsLargestPowerBelow(n);
      var k := Split(n);
      if m <= k then UnderRight(Reconcile(m, k, b, oldRoot, Below(path)), Top(path))
      else UnderLeft(Top(path), Reconcile(m - k, n - k, false, oldRoot, Below(path)))
  }

  // ---------------------------------------------------------------- peeling off the lowest level

  /** Halving a tree halves its two halves. */
  lemma Halves(n: nat)
    requires n > 2
    ensures 0 < Split(n) < n && Split(n) % 2 == 0 && Split(n) / 2 == Split((n + 1) / 2) < (n + 1) / 2
    ensures (Split(n) + 1) / 2 == Split(n) / 2
    ensures (n - Split(n) + 1) / 2 == (n + 1) / 2 - Split(n) / 2
  {
    SplitIsLargestPowerBelow(n);
    SplitIsLargestPowerBelow((n + 1) / 2);
  }

  /** Where an index falls does not change when the tree and the index are halved. */
  lemma HalfIndex(n: nat, i: nat)
    requires i < n && n > 2
    ensures i / 2 < (n + 1) / 2
    ensures i < Split(n) <==> i / 2 < Split((n + 1) / 2)
    ensures i < Split(n) && i % 2 == 0 ==> i + 1 < Split(n)
    ensures i >= Split(n) ==> (i - Split(n)) / 2 == i / 2 - Split((n + 1) / 2) && (i - Split(n)) % 2 == i % 2
  {
    hide Split;
    Halves(n);
  }

  /** A one-leaf tree takes no siblings. */
  lemma FoldLeaf(h: Pair, path: seq<Digest>)
    ensures Fold(1, 0, h, path) == if path == [] then Some(h) else None
  {
  }

  /** An exhausted path reconstructs a root only at the top. */
  lemma FoldShort(n: nat, i: nat, h: Pair)
    requires i < n
    ensures Fold(n, i, h, []) == if n == 1 then Some(h) else None
  {
  }

  /** A larger tree takes its topmost sibling last. */
  lemma FoldNode(n: nat, i: nat, h: Pair, path: seq<Digest>)
    requires i < n && n >= 2 && path != []
    ensures 0 < Split(n) < n
    ensures Fold(n, i, h, path) ==
      if i < Split(n) then UnderRight(Fold(Split(n), i, h, Below(path)), Top(path))
      else UnderLeft(Top(path), Fold(n - Split(n), i - Split(n), h, Below(path)))
  {
    SplitIsLargestPowerBelow(n);
  }

  /** A two-leaf tree takes exactly one sibling. */
  lemma FoldTwo(i: nat, h: Pair, path: seq<Digest>)
    requires i < 2
    ensures Fold(2, i, h, path) ==
      if |path| != 1 then None
      else if i == 0 then UnderRight(Some(h), path[0])
      else UnderLeft(path[0], Some(h))
  {
  }

  /** A tree of three or more leaves needs a second sibling, except for a last leaf promoted to the top. */
  lemma FoldTooShort(n: nat, i: nat, h: Pair, path: seq<Digest>)
    requires i < n && n > 2 && |path| == 1
    requires i % 2 == 1 || i + 1 < n
    ensures Fold(n, i, h, path) == None
  {
    Halves(n);
    assert Below(path) == [];
  }

  /** An odd index has its sibling on the left. */
  lemma {:induction false} FoldOdd(n: nat, i: nat, h: Pair, path: seq<Digest>)
    requires i < n && i % 2 == 1 && path != []
    ensures Fold(n, i, h, path)
         == Fold((n + 1) / 2, i / 2, Pair(Node(path[0], h.was), Node(path[0], h.now)), path[1..])
    decreases n
  {
    hide Split, PowerOfTwo, Fold;
    var g := Pair(Node(path[0], h.was), Node(path[0], h.now));
    if n == 2 {
      FoldTwo(i, h, path);
      FoldLeaf(g, path[1..]);
    } else if |path| == 1 {
      FoldTooShort(n, i, h, path);
      FoldShort((n + 1) / 2, i / 2, g);
    } else {
      Halves(n);
      HalfIndex(n, i);
      var k := Split(n);
      FoldNode(n, i, h, path);
      FoldNode((n + 1) / 2, i / 2, g, path[1..]);
      assert Below(path)[1..] == Below(path[1..]) && Top(path[1..]) == Top(path);
      if i < k {
        FoldOdd(k, i, h, Below(path));
      } else {
        FoldOdd(n - k, i - k, h, Below(path));
      }
    }
  }

  /** An even index short of the right edge has its sibling on the right. */
  lemma {:induction false} FoldEven(n: nat, i: nat, h: Pair, path: seq<Digest>)
    requires i + 1 < n && i % 2 == 0 && path != []
    ensures Fold(n, i, h, path)
         == Fold((n + 1) / 2, i / 2, Pair(h.was, Node(h.now, path[0])), path[1..])
    decreases n
  {
    hide Split, PowerOfTwo, Fold;
    var g := Pair(h.was, Node(h.now, path[0]));
    if n == 2 {
      FoldTwo(i, h, path);
      FoldLeaf(g, path[1..]);
    } else if |path| == 1 {
      FoldTooShort(n, i, h, path);
      FoldShort((n + 1) / 2, i / 2, g);
    } else {
      Halves(n);
      HalfIndex(n, i);
      var k := Split(n);
      FoldNode(n, i, h, path);
      FoldNode((n + 1) / 2, i / 2, g, path[1..]);
      assert Below(path)[1..] == Below(path[1..]) && Top(path[1..]) == Top(path);
      if i < k {
        FoldEven(k, i, h, Below(path));
      } else {
        FoldEven(n - k, i - k, h, Below(path));
      }
    }
  }

  /** An even index on the right edge has no sibling at this level and is promoted unchanged. */
  lemma {:induction false} FoldPromote(n: nat, i: nat, h: Pair, path: seq<Digest>)
    requires n >= 2 && i + 1 == n && i % 2 == 0
    ensures Fold(n, i, h, path) == Fold((n + 1) / 2, i / 2, h, path)
    decreases n
  {
    hide Split, PowerOfTwo;
    Halves(n);
    HalfIndex(n, i);
    var k := Split(n);
    if path != [] && n - k >= 2 {
      FoldPromote(n - k, i - k, h, Below(path));
    }
  }

  /** With `m` even the boundary falls between two parents, so the whole level can be dropped. */
  lemma {:induction false} ReconcileEven(m: nat, n: nat, b: bool, oldRoot: Digest, path: seq<Digest>)
    requires 1 <= m <= n && m % 2 == 0
    ensures Reconcile(m, n, b, oldRoot, path) == Reconcile(m / 2, (n + 1) / 2, b, oldRoot, path)
    decreases n
  {
    hide Split, PowerOfTwo;
    if m < n && path != [] {
      Halves(n);
      var k := Split(n);
      if m <= k {
        ReconcileEven(m, k, b, oldRoot, Below(path));
      } else {
        ReconcileEven(m - k, n - k, false, oldRoot, Below(path));
      }
    }
  }

  /** With `m == 1` in the complete left spine, the old root itself is the seed. */
  lemma {:induction false} ReconcileSeedOld(n: nat, oldRoot: Digest, path: seq<Digest>)
    requires n >= 1
    ensures Reconcile(1, n, true, oldRoot, path) == Fold(n, 0, Pair(oldRoot, oldRoot), path)
    decreases n
  {
    hide Split, PowerOfTwo;
    if n > 1 && path != [] {
      SplitIsLargestPowerBelow(n);
      ReconcileSeedOld(Split(n), oldRoot, Below(path));
    }
  }

  /** With `m` odd, the first proof node seeds both trees at index `m - 1`. */
  lemma {:induction false} ReconcileSeedPath(m: nat, n: nat, b: bool, oldRoot: Digest, path: seq<Digest>)
    requires 1 <= m <= n && m % 2 == 1
    requires b ==> m > 1
    requires m < n || n == 1
    requires path != []
    ensures Reconcile(m, n, b, oldRoot, path) == Fold(n, m - 1, Pair(path[0], path[0]), path[1..])
    decreases n
  {
    hide Split, PowerOfTwo;
    if m < n {
      SplitIsLargestPowerBelow(n);
      var k := Split(n);
      if |path| > 1 {
        assert Below(path)[1..] == Below(path[1..]);
        if m <= k {
          ReconcileSeedPath(m, k, b, oldRoot, Below(path));
        } else {
          ReconcileSeedPath(m - k, n - k, false, oldRoot, Below(path));
        }
      } else if m <= k {
        ReconcileEmpty(m, k, b, oldRoot);
      } else {
        ReconcileEmpty(m - k, n - k, false, oldRoot);
      }
    }
  }

  /** Without proof nodes only the seed-from-old-root case reconstructs anything. */
  lemma {:induction false} ReconcileEmpty(m: nat, n: nat, b: bool, oldRoot: Digest)
    requires 1 <= m <= n
    requires b ==> m < n
    ensures Reconcile(m, n, b, oldRoot, []) == None
  {
  }
}
