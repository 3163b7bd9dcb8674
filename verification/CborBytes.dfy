/** Big-endian integers, byte-wise order and byte spans: the ground the canonical codec stands on. */
module CborBytes {
  import opened Prelude

  function Pow256(w: nat): nat {
    if w == 0 then 1 else 256 * Pow256(w - 1)
  }

  /** The `w` low-order bytes of `v`, most significant first. */
  function BigEndian(v: nat, w: nat): (s: Bytes)
    ensures |s| == w
  {
    if w == 0 then [] else BigEndian(v / 256, w - 1) + [v % 256]
  }

  function FromBigEndian(s: Bytes): nat {
    if s == [] then 0 else 256 * FromBigEndian(s[..|s| - 1]) + s[|s| - 1]
  }

  lemma {:induction false} BigEndianRead(v: nat, w: nat)
    requires v < Pow256(w)
    ensures FromBigEndian(BigEndian(v, w)) == v
  {
    if w > 0 {
      BigEndianRead(v / 256, w - 1);
      var s := BigEndian(v, w);
      assert s[..|s| - 1] == BigEndian(v / 256, w - 1);
    }
  }

  lemma {:induction false} BigEndianWrite(s: Bytes)
    ensures FromBigEndian(s) < Pow256(|s|)
    ensures BigEndian(FromBigEndian(s), |s|) == s
  {
    if s != [] {
      BigEndianWrite(s[..|s| - 1]);
      assert s == s[..|s| - 1] + [s[|s| - 1]];
    }
  }

  lemma OneByte(x: Byte)
    ensures FromBigEndian([x]) == x
  {
    assert FromBigEndian([]) == 0;
  }

  lemma Pow256Values()
    ensures Pow256(0) == 1 && Pow256(1) == 0x100 && Pow256(2) == 0x1_0000
    ensures Pow256(4) == 0x1_0000_0000 && Pow256(8) == U64_MAX + 1
  {
    assert Pow256(3) == 0x100_0000;
    assert Pow256(5) == 0x100_0000_0000;
    assert Pow256(6) == 0x1_0000_0000_0000;
    assert Pow256(7) == 0x100_0000_0000_0000;
  }

  // ---------------------------------------------------------------- order on byte strings

  /** The order of Rust's `<[u8] as Ord>::cmp`: lexicographic, a proper prefix comes first. */
  predicate Lt(a: Bytes, b: Bytes) {
    if a == [] then b != []
    else b != [] && (a[0] < b[0] || (a[0] == b[0] && Lt(a[1..], b[1..])))
  }

  lemma {:induction false} LtIrreflexive(a: Bytes)
    ensures !Lt(a, a)
  {
    if a != [] {
      LtIrreflexive(a[1..]);
    }
  }

  lemma {:induction false} LtTransitive(a: Bytes, b: Bytes, c: Bytes)
    requires Lt(a, b) && Lt(b, c)
    ensures Lt(a, c)
  {
    if a != [] && a[0] == b[0] == c[0] {
      LtTransitive(a[1..], b[1..], c[1..]);
    }
  }

  lemma {:induction false} LtTotal(a: Bytes, b: Bytes)
    ensures Lt(a, b) || a == b || Lt(b, a)
  {
    if a != [] && b != [] && a[0] == b[0] {
      LtTotal(a[1..], b[1..]);
      assert a == [a[0]] + a[1..] && b == [b[0]] + b[1..];
    }
  }

  /** A common prefix does not matter. */
  lemma {:induction false} LtPrefix(p: Bytes, a: Bytes, b: Bytes)
    ensures Lt(p + a, p + b) <==> Lt(a, b)
  {
    if p == [] {
      assert p + a == a && p + b == b;
    } else {
      LtPrefix(p[1..], a, b);
      assert (p + a)[1..] == p[1..] + a && (p + b)[1..] == p[1..] + b;
    }
  }

  /** Bytes that differ before the end decide, whatever follows. */
  lemma {:induction false} LtExtend(a: Bytes, b: Bytes, x: Bytes, y: Bytes)
    requires |a| == |b| && Lt(a, b)
    ensures Lt(a + x, b + y)
  {
    if a[0] == b[0] {
      LtExtend(a[1..], b[1..], x, y);
    }
    assert (a + x)[1..] == a[1..] + x && (b + y)[1..] == b[1..] + y;
  }

  /** Equally wide big-endian integers are ordered as numbers. */
  lemma {:induction false} BigEndianOrder(u: nat, v: nat, w: nat)
    requires u < v < Pow256(w)
    ensures Lt(BigEndian(u, w), BigEndian(v, w))
  {
    if u / 256 == v / 256 {
      LtPrefix(BigEndian(u / 256, w - 1), [u % 256], [v % 256]);
    } else {
      BigEndianOrder(u / 256, v / 256, w - 1);
      LtExtend(BigEndian(u / 256, w - 1), BigEndian(v / 256, w - 1), [u % 256], [v % 256]);
    }
  }

  // ---------------------------------------------------------------- spans

  /** The bytes `e` stand in `b` at position `p`. */
  predicate At(b: Bytes, p: nat, e: Bytes) {
    p + |e| <= |b| && b[p..p + |e|] == e
  }

  lemma FirstOfSpan(b: Bytes, p: nat, q: nat)
    requires p < q <= |b|
    ensures b[p..q] == [b[p]] + b[p + 1..q]
  {
  }

  lemma AtConcat(b: Bytes, p: nat, e: Bytes, f: Bytes)
    ensures At(b, p, e + f) <==> At(b, p, e) && At(b, p + |e|, f)
  {
    if At(b, p, e + f) {
      assert b[p..p + |e|] == (e + f)[..|e|];
      assert b[p + |e|..p + |e| + |f|] == (e + f)[|e|..];
    }
    if At(b, p, e) && At(b, p + |e|, f) {
      assert b[p..p + |e + f|] == b[p..p + |e|] + b[p + |e|..p + |e| + |f|];
    }
  }
}
