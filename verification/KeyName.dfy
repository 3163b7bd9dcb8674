/**
 The key-name: 80 bits of a key's hash as eight words of ten bits, and a checksum word.  The hash, the
 checksum hash and the word list are parameters.
 */
module KeyName {
  import opened Prelude
  import opened CborBytes

  const DATA_WORDS: nat := 8
  const PREFIX_BYTES: nat := 10
  const WORDLIST_SIZE: nat := 1024

  type Index = x: nat | x < WORDLIST_SIZE

  type Word = seq<char>

  /** The two hashes: of a key, and of the checksum tag followed by a ten-byte prefix. */
  datatype Hashes = Hashes(key: Bytes -> Bytes, tagged: Bytes -> Bytes)

  ghost predicate HashesWork(h: Hashes) {
    (forall x :: |h.key(x)| == 32) && (forall x :: |h.tagged(x)| == 32)
  }

  /** 1024 different words without hyphens. */
  ghost predicate GoodList(wl: seq<Word>) {
    && |wl| == WORDLIST_SIZE
    && (forall i, j | 0 <= i < j < |wl| :: wl[i] != wl[j])
    && forall i | 0 <= i < |wl| :: '-' !in wl[i]
  }

  // ---------------------------------------------------------------- digits

  /** The number written by base-1024 digits, most significant first. */
  function Value1024(idx: seq<Index>): nat {
    if idx == [] then 0 else 1024 * Value1024(idx[..|idx| - 1]) + idx[|idx| - 1]
  }

  /** The `w` low base-1024 digits of a number. */
  function Digits1024(v: nat, w: nat): (idx: seq<Index>)
    ensures |idx| == w
  {
    if w == 0 then [] else Digits1024(v / 1024, w - 1) + [v % 1024]
  }

  function Pow1024(w: nat): nat {
    if w == 0 then 1 else 1024 * Pow1024(w - 1)
  }

  lemma {:induction false} DigitsOfValue(idx: seq<Index>)
    ensures Digits1024(Value1024(idx), |idx|) == idx
    ensures Value1024(idx) < Pow1024(|idx|)
  {
    if idx != [] {
      DigitsOfValue(idx[..|idx| - 1]);
      assert idx == idx[..|idx| - 1] + [idx[|idx| - 1]];
    }
  }

  lemma {:induction false} ValueOfDigits(v: nat, w: nat)
    requires v < Pow1024(w)
    ensures Value1024(Digits1024(v, w)) == v
  {
    if w > 0 {
      ValueOfDigits(v / 1024, w - 1);
      var d := Digits1024(v, w);
      assert d[..|d| - 1] == Digits1024(v / 1024, w - 1);
    }
  }

  /** Eight ten-bit digits and ten eight-bit digits write the same numbers. */
  lemma SameRange()
    ensures Pow1024(DATA_WORDS) == Pow256(PREFIX_BYTES)
  {
    assert Pow1024(4) == 0x100_0000_0000;
    assert Pow1024(8) == 0x1_0000_0000_0000_0000_0000 by {
      assert Pow1024(6) == 0x1000_0000_0000_0000;
    }
    assert Pow256(5) == 0x100_0000_0000;
    assert Pow256(10) == 0x1_0000_0000_0000_0000_0000 by {
      assert Pow256(7) == 0x100_0000_0000_0000;
      assert Pow256(9) == 0x100_0000_0000_0000_0000;
    }
  }

  // ---------------------------------------------------------------- a 32-bit accumulator suffices

  /** `n >> b`. */
  function Drop(n: nat, b: nat): nat {
    if b == 0 then n else Drop(n, b - 1) / 2
  }

  /** Small shifts are divisions. */
  lemma SmallDrops(n: nat)
    ensures Drop(n, 0) == n && Drop(n, 1) == n / 2 && Drop(n, 2) == n / 4 && Drop(n, 3) == n / 8 && Drop(n, 4) == n / 16
    ensures Drop(n, 5) == n / 32 && Drop(n, 6) == n / 64 && Drop(n, 7) == n / 128 && Drop(n, 8) == n / 256
    ensures Drop(n, 9) == n / 512 && Drop(n, 10) == n / 1024
  {
    assert Drop(n, 0) == n;
    assert Drop(n, 1) == n / 2;
    assert Drop(n, 2) == n / 4;
    assert Drop(n, 3) == n / 8;
    assert Drop(n, 4) == n / 16;
    assert Drop(n, 5) == n / 32;
    assert Drop(n, 6) == n / 64;
    assert Drop(n, 7) == n / 128;
    assert Drop(n, 8) == n / 256;
    assert Drop(n, 9) == n / 512;
  }

  /** Ten bits at offset `b` do not see what fell off the accumulator's top. */
  lemma TenBitsSurvive(n: nat, b: nat)
    requires b <= 9
    ensures Drop(n % U32_LIMIT, b) % 1024 == Drop(n, b) % 1024
  {
    hide Drop;
    SmallDrops(n);
    SmallDrops(n % U32_LIMIT);
    DivModOf(n, U32_LIMIT);
    var k, r := n / U32_LIMIT, n % U32_LIMIT;
    if b == 0 {
      Shifted(n, k, r, 1, 0x1_0000_0000);
    } else if b == 1 {
      Shifted(n, k, r, 2, 0x8000_0000);
    } else if b == 2 {
      Shifted(n, k, r, 4, 0x4000_0000);
    } else if b == 3 {
      Shifted(n, k, r, 8, 0x2000_0000);
    } else if b == 4 {
      Shifted(n, k, r, 16, 0x1000_0000);
    } else if b == 5 {
      Shifted(n, k, r, 32, 0x800_0000);
    } else if b == 6 {
      Shifted(n, k, r, 64, 0x400_0000);
    } else if b == 7 {
      Shifted(n, k, r, 128, 0x200_0000);
    } else if b == 8 {
      Shifted(n, k, r, 256, 0x100_0000);
    } else {
      Shifted(n, k, r, 512, 0x80_0000);
    }
  }

  lemma Shifted(n: nat, k: nat, r: nat, p: nat, q: nat)
    requires p > 0 && p * q == U32_LIMIT && q % 1024 == 0 && n == U32_LIMIT * k + r
    ensures (r / p) % 1024 == (n / p) % 1024
  {
    var j := q / 1024;
    var d, m := r / p, r % p;
    DivModOf(r, p);
    Regroup(k, p, q, j, d);
    DivUnique(n, p, 1024 * (k * j) + d, m);
    ModAdd(k * j, d);
  }

  lemma Regroup(k: nat, p: nat, q: nat, j: nat, d: nat)
    requires q == 1024 * j
    ensures (p * q) * k + p * d == p * (1024 * (k * j) + d)
  {
    assert q * k == 1024 * (k * j);
    assert (p * q) * k == p * (q * k);
  }

  lemma DivModOf(n: nat, p: nat)
    requires p > 0
    ensures n == p * (n / p) + n % p && 0 <= n % p < p
  {
  }

  lemma DivUnique(n: nat, p: nat, d: nat, m: nat)
    requires p > 0 && n == p * d + m && m < p
    ensures n / p == d && n % p == m
  {
    DivModOf(n, p);
    QuotientUnique(p, d, m, n / p, n % p);
  }

  lemma QuotientUnique(p: nat, d: nat, m: nat, e: nat, l: nat)
    requires m < p && l < p && p * d + m == p * e + l
    ensures d == e && m == l
  {
    assert e < d ==> p * (e + 1) <= p * d by { MulMonotone(p, e + 1, d); }
    assert e > d ==> p * (d + 1) <= p * e by { MulMonotone(p, d + 1, e); }
  }

  lemma MulMonotone(p: nat, a: nat, b: nat)
    ensures a <= b ==> p * a <= p * b
  {
  }

  lemma ModAdd(a: nat, r: nat)
    ensures (1024 * a + r) % 1024 == r % 1024
  {
  }

  /** Dropping a further byte or word. */
  lemma DropMore(n: nat, b: nat)
    ensures Drop(n, b + 8) == Drop(n, b) / 256
    ensures Drop(n, b + 10) == Drop(n, b) / 1024
  {
    hide Drop;
    DropTwice(n, b, 8);
    DropTwice(n, b, 10);
    SmallDrops(Drop(n, b));
  }

  lemma {:induction false} DropTwice(n: nat, b: nat, c: nat)
    ensures Drop(n, b + c) == Drop(Drop(n, b), c)
  {
    if c > 0 {
      DropTwice(n, b, c - 1);
      assert Drop(n, b + c) == Drop(n, b + (c - 1)) / 2;
    }
  }

  /** Appending a byte or a word and dropping it again changes nothing. */
  lemma AppendDrop(n: nat, x: nat, b: nat)
    ensures x < 256 ==> Drop(256 * n + x, b + 8) == Drop(n, b)
    ensures x < 1024 ==> Drop(1024 * n + x, b + 10) == Drop(n, b)
  {
    hide Drop;
    if x < 256 {
      DropTwice(256 * n + x, 8, b);
      SmallDrops(256 * n + x);
      DivUnique(256 * n + x, 256, n, x);
    }
    if x < 1024 {
      DropTwice(1024 * n + x, 10, b);
      SmallDrops(1024 * n + x);
      DivUnique(1024 * n + x, 1024, n, x);
    }
  }

  lemma DropNone(n: nat)
    ensures Drop(n, 0) == n
  {
  }

  // ---------------------------------------------------------------- the two packing loops

  /** `indices_from_hash`: the ten-bit groups write the same number as the first ten bytes. */
  method IndicesFromHash(hash: Bytes) returns (idx: seq<Index>)
    requires |hash| == 32
    ensures |idx| == DATA_WORDS
    ensures Value1024(idx) == FromBigEndian(hash[..PREFIX_BYTES])
  {
    hide Drop, FromBigEndian, Value1024;
    var acc: nat, bits: nat := 0, 0;
    idx := [];
    Starts();
    assert hash[..0] == [];
    for i := 0 to PREFIX_BYTES
      invariant 8 * i == 10 * |idx| + bits && bits < 10
      invariant acc == FromBigEndian(hash[..i]) % U32_LIMIT
      invariant Value1024(idx) == Drop(FromBigEndian(hash[..i]), bits)
    {
      var byte := hash[i];
      ghost var n := 256 * FromBigEndian(hash[..i]) + byte;
      PrefixGrows(hash, i);
      ShiftIn(FromBigEndian(hash[..i]), acc, 256, byte);
      acc := (acc * 256) % U32_LIMIT + byte;
      AppendDrop(FromBigEndian(hash[..i]), byte, bits);
      bits := bits + 8;
      while bits >= 10 && |idx| < DATA_WORDS
        invariant 8 * (i + 1) == 10 * |idx| + bits && bits < 18
        invariant acc == n % U32_LIMIT
        invariant Value1024(idx) == Drop(n, bits)
      {
        bits := bits - 10;
        UnpackStep(idx, n, acc, bits);
        idx := idx + [Drop(acc, bits) % 1024];
      }
    }
    DropNone(FromBigEndian(hash[..PREFIX_BYTES]));
  }

  lemma Starts()
    ensures FromBigEndian([]) == 0 && Value1024([]) == 0 && Drop(0, 0) == 0
  {
  }

  /** Ten bits off the accumulator are the next ten bits of the true number. */
  lemma UnpackStep(idx: seq<Index>, n: nat, acc: nat, bits: nat)
    requires bits <= 9 && acc == n % U32_LIMIT && Value1024(idx) == Drop(n, bits + 10)
    ensures Value1024(idx + [Drop(acc, bits) % 1024]) == Drop(n, bits)
  {
    hide Drop, Value1024;
    TenBitsSurvive(n, bits);
    DropMore(n, bits);
    DigitStep(idx, Drop(acc, bits) % 1024, Drop(n, bits));
  }

  lemma PrefixGrows(hash: Bytes, i: nat)
    requires i < |hash|
    ensures FromBigEndian(hash[..i + 1]) == 256 * FromBigEndian(hash[..i]) + hash[i]
  {
    assert hash[..i + 1][..i] == hash[..i];
  }

  lemma IndicesGrow(idx: seq<Index>, i: nat)
    requires i < |idx|
    ensures Value1024(idx[..i + 1]) == 1024 * Value1024(idx[..i]) + idx[i]
  {
    assert idx[..i + 1][..i] == idx[..i];
  }

  /** Shifting the truncated accumulator keeps it the truncation of the true number. */
  lemma ShiftIn(n: nat, acc: nat, s: nat, x: nat)
    requires acc == n % U32_LIMIT && x < s && (s == 256 || s == 1024)
    ensures (acc * s) % U32_LIMIT + x == (s * n + x) % U32_LIMIT
  {
    var k := n / U32_LIMIT;
    if s == 256 {
      var j, y := (acc * 256) / U32_LIMIT, (acc * 256) % U32_LIMIT;
      assert y == 256 * (acc - j * 0x100_0000);
      DivUnique(256 * n + x, U32_LIMIT, 256 * k + j, y + x);
    } else {
      var j, y := (acc * 1024) / U32_LIMIT, (acc * 1024) % U32_LIMIT;
      assert y == 1024 * (acc - j * 0x40_0000);
      DivUnique(1024 * n + x, U32_LIMIT, 1024 * k + j, y + x);
    }
  }

  lemma DigitStep(idx: seq<Index>, d: Index, q: nat)
    requires Value1024(idx) == q / 1024 && d == q % 1024
    ensures Value1024(idx + [d]) == q
  {
    assert (idx + [d])[..|idx|] == idx;
  }

  lemma ByteStep(s: Bytes, d: Byte, q: nat)
    requires FromBigEndian(s) == q / 256 && d == q % 256
    ensures FromBigEndian(s + [d]) == q
  {
    assert (s + [d])[..|s|] == s;
  }

  /** The repacking loop of `verify`: back to ten bytes that write the same number. */
  method PrefixFromIndices(idx: seq<Index>) returns (bytes: Bytes)
    requires |idx| == DATA_WORDS
    ensures |bytes| == PREFIX_BYTES
    ensures FromBigEndian(bytes) == Value1024(idx)
  {
    hide Drop, FromBigEndian, Value1024;
    var acc: nat, bits: nat := 0, 0;
    bytes := [];
    Starts();
    assert idx[..0] == [];
    for i := 0 to DATA_WORDS
      invariant 10 * i == 8 * |bytes| + bits && bits < 8
      invariant acc == Value1024(idx[..i]) % U32_LIMIT
      invariant FromBigEndian(bytes) == Drop(Value1024(idx[..i]), bits)
    {
      ghost var n := 1024 * Value1024(idx[..i]) + idx[i];
      IndicesGrow(idx, i);
      ShiftIn(Value1024(idx[..i]), acc, 1024, idx[i]);
      acc := (acc * 1024) % U32_LIMIT + idx[i];
      AppendDrop(Value1024(idx[..i]), idx[i], bits);
      bits := bits + 10;
      while bits >= 8
        invariant 10 * (i + 1) == 8 * |bytes| + bits && bits < 18
        invariant acc == n % U32_LIMIT
        invariant FromBigEndian(bytes) == Drop(n, bits)
      {
        bits := bits - 8;
        RepackStep(bytes, n, acc, bits);
        bytes := bytes + [Drop(acc, bits) % 256];
      }
    }
    assert idx[..DATA_WORDS] == idx;
    DropNone(Value1024(idx));
  }

  /** One byte off the accumulator is the next byte of the true number. */
  lemma RepackStep(bytes: Bytes, n: nat, acc: nat, bits: nat)
    requires bits <= 9 && acc == n % U32_LIMIT && FromBigEndian(bytes) == Drop(n, bits + 8)
    ensures FromBigEndian(bytes + [Drop(acc, bits) % 256]) == Drop(n, bits)
  {
    hide Drop, FromBigEndian;
    TenBitsSurvive(n, bits);
    LowByte(Drop(acc, bits), Drop(n, bits));
    DropMore(n, bits);
    ByteStep(bytes, Drop(acc, bits) % 256, Drop(n, bits));
  }

  lemma LowByte(a: nat, b: nat)
    requires a % 1024 == b % 1024
    ensures a % 256 == b % 256
  {
    ByteOfWord(a);
    ByteOfWord(b);
  }

  lemma ByteOfWord(a: nat)
    ensures a % 256 == (a % 1024) % 256
  {
    var q, r := a / 1024, a % 1024;
    DivUnique(a, 256, 4 * q + r / 256, r % 256);
  }

  /** The words of a ten-byte prefix. */
  function Unpack(prefix: Bytes): (idx: seq<Index>)
    requires |prefix| == PREFIX_BYTES
    ensures |idx| == DATA_WORDS
  {
    Digits1024(FromBigEndian(prefix), DATA_WORDS)
  }

  /** The ten-byte prefix of eight words. */
  function Repack(idx: seq<Index>): (prefix: Bytes)
    requires |idx| == DATA_WORDS
    ensures |prefix| == PREFIX_BYTES
  {
    BigEndian(Value1024(idx), PREFIX_BYTES)
  }

  /** Packing is a bijection between ten-byte prefixes and eight-word names. */
  lemma PackingBijection(prefix: Bytes, idx: seq<Index>)
    requires |prefix| == PREFIX_BYTES && |idx| == DATA_WORDS
    ensures Repack(Unpack(prefix)) == prefix && Unpack(Repack(idx)) == idx
    ensures Value1024(idx) == FromBigEndian(prefix) <==> idx == Unpack(prefix)
    ensures Value1024(idx) == FromBigEndian(prefix) <==> prefix == Repack(idx)
  {
    SameRange();
    BigEndianWrite(prefix);
    ValueOfDigits(FromBigEndian(prefix), DATA_WORDS);
    DigitsOfValue(idx);
    BigEndianRead(Value1024(idx), PREFIX_BYTES);
  }

  // ---------------------------------------------------------------- names

  /** `checksum_index`: the top ten bits of the tagged hash of the prefix. */
  function ChecksumIndex(h: Hashes, prefix: Bytes): Index
    requires |prefix| == PREFIX_BYTES && |h.tagged(prefix)| == 32
  {
    var b := h.tagged(prefix);
    var high: nat, low: nat := b[0], b[1];
    high * 4 + low / 64
  }

  /** The number in the first ten bits. */
  function TopTenBits(s: Bytes): Index
    requires |s| >= 2
  {
    BigEndianWrite(s[..2]);
    Pow256Values();
    FromBigEndian(s[..2]) / 64
  }

  /** The checksum is the number in the first ten bits of the tagged hash. */
  lemma ChecksumMeans(h: Hashes, prefix: Bytes)
    requires |prefix| == PREFIX_BYTES && |h.tagged(prefix)| == 32
    ensures ChecksumIndex(h, prefix) == TopTenBits(h.tagged(prefix))
  {
    var s := h.tagged(prefix)[..2];
    assert s[..1] == [s[0]];
    OneByte(s[0]);
  }

  function Join(ws: seq<Word>): Word {
    if ws == [] then [] else if |ws| == 1 then ws[0] else ws[0] + ['-'] + Join(ws[1..])
  }

  /** `str::split('-')`. */
  function Split(s: Word): (ws: seq<Word>)
    ensures ws != []
  {
    if s == [] then [[]]
    else
      var rest := Split(s[1..]);
      if s[0] == '-' then [[]] + rest else [[s[0]] + rest[0]] + rest[1..]
  }

  lemma {:induction false} JoinSplit(s: Word)
    ensures Join(Split(s)) == s
    ensures forall i | 0 <= i < |Split(s)| :: '-' !in Split(s)[i]
  {
    if s != [] {
      JoinSplit(s[1..]);
      var rest := Split(s[1..]);
      assert s == [s[0]] + s[1..];
      if s[0] == '-' {
        assert ([[]] + rest)[1..] == rest;
      } else {
        var w := [s[0]] + rest[0];
        assert ([w] + rest[1..])[1..] == rest[1..];
      }
    }
  }

  lemma {:induction false} SplitWord(w: Word)
    requires '-' !in w
    ensures Split(w) == [w]
  {
    if w != [] {
      SplitWord(w[1..]);
      assert w == [w[0]] + w[1..];
    }
  }

  lemma {:induction false} SplitAfterWord(w: Word, s: Word)
    requires '-' !in w
    ensures Split(w + ['-'] + s) == [w] + Split(s)
  {
    var t := w + ['-'] + s;
    if w == [] {
      assert t[1..] == s;
    } else {
      SplitAfterWord(w[1..], s);
      assert t[1..] == w[1..] + ['-'] + s;
      assert w == [w[0]] + w[1..];
    }
  }

  lemma {:induction false} SplitJoin(ws: seq<Word>)
    requires ws != [] && forall i | 0 <= i < |ws| :: '-' !in ws[i]
    ensures Split(Join(ws)) == ws
  {
    if |ws| == 1 {
      SplitWord(ws[0]);
    } else {
      SplitJoin(ws[1..]);
      SplitAfterWord(ws[0], Join(ws[1..]));
      assert ws == [ws[0]] + ws[1..];
    }
  }

  function WordsOf(wl: seq<Word>, idx: seq<Index>): (ws: seq<Word>)
    requires |wl| == WORDLIST_SIZE
    ensures |ws| == |idx|
  {
    seq(|idx|, i requires 0 <= i < |idx| => wl[idx[i]])
  }

  /** The name of a ten-byte prefix. */
  function NameOf(wl: seq<Word>, h: Hashes, prefix: Bytes): Word
    requires |wl| == WORDLIST_SIZE && |prefix| == PREFIX_BYTES && |h.tagged(prefix)| == 32
  {
    Join(WordsOf(wl, Unpack(prefix) + [ChecksumIndex(h, prefix)]))
  }

  /** `encode`: the name of a key is the name of the first ten bytes of its hash. */
  method EncodeKey(wl: seq<Word>, h: Hashes, pubkey: Bytes) returns (name: Word)
    requires GoodList(wl) && HashesWork(h)
    ensures name == NameOf(wl, h, h.key(pubkey)[..PREFIX_BYTES])
  {
    var hash := h.key(pubkey);
    var idx := IndicesFromHash(hash);
    PackingBijection(hash[..PREFIX_BYTES], idx);
    var words: seq<Word> := [];
    for i := 0 to |idx|
      invariant words == WordsOf(wl, idx[..i])
    {
      words := words + [wl[idx[i]]];
    }
    assert idx[..|idx|] == idx;
    words := words + [wl[ChecksumIndex(h, hash[..PREFIX_BYTES])]];
    assert words == WordsOf(wl, idx + [ChecksumIndex(h, hash[..PREFIX_BYTES])]);
    name := Join(words);
  }

  /** `word_index`: the first position of a word. */
  method WordIndex(wl: seq<Word>, w: Word) returns (r: Option<Index>)
    requires |wl| == WORDLIST_SIZE
    ensures r.Some? ==> wl[r.value] == w && w !in wl[..r.value]
    ensures r.None? ==> w !in wl
  {
    for i := 0 to |wl|
      invariant w !in wl[..i]
    {
      if wl[i] == w {
        return Some(i);
      }
    }
    return None;
  }

  /** Different index lists have different words. */
  lemma WordsInjective(wl: seq<Word>, idx: seq<Index>, jdx: seq<Index>)
    requires GoodList(wl) && WordsOf(wl, idx) == WordsOf(wl, jdx)
    ensures idx == jdx
  {
    assert |idx| == |jdx|;
    forall i | 0 <= i < |idx|
      ensures idx[i] == jdx[i]
    {
      assert WordsOf(wl, idx)[i] == WordsOf(wl, jdx)[i];
    }
  }

  /** A name splits back into its words. */
  lemma NameSplits(wl: seq<Word>, h: Hashes, prefix: Bytes)
    requires GoodList(wl) && HashesWork(h) && |prefix| == PREFIX_BYTES
    ensures Split(NameOf(wl, h, prefix)) == WordsOf(wl, Unpack(prefix) + [ChecksumIndex(h, prefix)])
  {
    SplitJoin(WordsOf(wl, Unpack(prefix) + [ChecksumIndex(h, prefix)]));
  }

  /** Names determine prefixes. */
  lemma NameInjective(wl: seq<Word>, h: Hashes, p: Bytes, q: Bytes)
    requires GoodList(wl) && HashesWork(h) && |p| == |q| == PREFIX_BYTES
    ensures NameOf(wl, h, p) == NameOf(wl, h, q) <==> p == q
  {
    if NameOf(wl, h, p) == NameOf(wl, h, q) {
      NameSplits(wl, h, p);
      NameSplits(wl, h, q);
      var a, b := Unpack(p) + [ChecksumIndex(h, p)], Unpack(q) + [ChecksumIndex(h, q)];
      WordsInjective(wl, a, b);
      assert Unpack(p) == a[..DATA_WORDS] && Unpack(q) == b[..DATA_WORDS];
      PackingBijection(p, Unpack(p));
      PackingBijection(q, Unpack(q));
    }
  }

  /** `verify`: a name is accepted exactly if it is the name of some prefix. */
  method VerifyName(wl: seq<Word>, h: Hashes, name: Word) returns (ok: bool)
    requires GoodList(wl) && HashesWork(h)
    ensures ok <==> exists prefix: Bytes :: |prefix| == PREFIX_BYTES && name == NameOf(wl, h, prefix)
  {
    hide NameOf, Split, Join, ChecksumIndex;
    var words := Split(name);
    JoinSplit(name);
    forall prefix: Bytes | |prefix| == PREFIX_BYTES && name == NameOf(wl, h, prefix)
      ensures words == WordsOf(wl, Unpack(prefix) + [ChecksumIndex(h, prefix)])
    {
      NameSplits(wl, h, prefix);
    }
    if |words| != DATA_WORDS + 1 {
      return false;
    }
    var idx: seq<Index> := [];
    for i := 0 to DATA_WORDS
      invariant |idx| == i && WordsOf(wl, idx) == words[..i]
    {
      var w := WordIndex(wl, words[i]);
      if w.None? {
        NotAName(wl, h, name, words, i);
        return false;
      }
      idx := idx + [w.value];
    }
    var claimed := WordIndex(wl, words[DATA_WORDS]);
    if claimed.None? {
      NotAName(wl, h, name, words, DATA_WORDS);
      return false;
    }
    var bytes := PrefixFromIndices(idx);
    PackingBijection(bytes, idx);
    ok := ChecksumIndex(h, bytes) == claimed.value;
    VerifyDecides(wl, h, name, words, idx, claimed.value, bytes);
  }

  /** A name has only listed words. */
  lemma NotAName(wl: seq<Word>, h: Hashes, name: Word, words: seq<Word>, i: nat)
    requires GoodList(wl) && HashesWork(h) && words == Split(name) && i < |words| && words[i] !in wl
    ensures forall prefix: Bytes | |prefix| == PREFIX_BYTES :: name != NameOf(wl, h, prefix)
  {
    forall prefix: Bytes | |prefix| == PREFIX_BYTES
      ensures name != NameOf(wl, h, prefix)
    {
      NameSplits(wl, h, prefix);
    }
  }

  /** With all words listed, the checksum decides. */
  lemma VerifyDecides(wl: seq<Word>, h: Hashes, name: Word, words: seq<Word>, idx: seq<Index>, claimed: Index,
                      bytes: Bytes)
    requires GoodList(wl) && HashesWork(h) && words == Split(name) && |words| == DATA_WORDS + 1
    requires |idx| == DATA_WORDS && WordsOf(wl, idx) == words[..DATA_WORDS] && wl[claimed] == words[DATA_WORDS]
    requires |bytes| == PREFIX_BYTES && idx == Unpack(bytes)
    ensures ChecksumIndex(h, bytes) == claimed <==>
            exists prefix: Bytes :: |prefix| == PREFIX_BYTES && name == NameOf(wl, h, prefix)
  {
    hide Split, Join, ChecksumIndex, Unpack;
    assert words == WordsOf(wl, idx + [claimed]);
    JoinSplit(name);
    if ChecksumIndex(h, bytes) == claimed {
      assert name == NameOf(wl, h, bytes);
    }
    if prefix: Bytes :| |prefix| == PREFIX_BYTES && name == NameOf(wl, h, prefix) {
      NameSplits(wl, h, prefix);
      var a := Unpack(prefix) + [ChecksumIndex(h, prefix)];
      WordsInjective(wl, a, idx + [claimed]);
      assert Unpack(prefix) == a[..DATA_WORDS] == idx && a[DATA_WORDS] == claimed;
      PackingBijection(prefix, idx);
      PackingBijection(bytes, idx);
    }
  }

  /**
   The ninth word decides: eight listed words and a ninth are a name exactly if the ninth is the word at the
   number in the first ten bits of the tagged hash of the prefix that the eight spell.
   */
  lemma NinthWordDecides(wl: seq<Word>, h: Hashes, idx: seq<Index>, w: Word)
    requires GoodList(wl) && HashesWork(h) && |idx| == DATA_WORDS && '-' !in w
    ensures (exists prefix: Bytes ::
              |prefix| == PREFIX_BYTES && Join(WordsOf(wl, idx) + [w]) == NameOf(wl, h, prefix)) <==>
            w == wl[TopTenBits(h.tagged(Repack(idx)))]
  {
    hide Split, Join, ChecksumIndex, Unpack, Repack, TopTenBits;
    var bytes, words := Repack(idx), WordsOf(wl, idx) + [w];
    PackingBijection(bytes, idx);
    ChecksumMeans(h, bytes);
    SplitJoin(words);
    if w in wl {
      var claimed :| 0 <= claimed < |wl| && wl[claimed] == w;
      VerifyDecides(wl, h, Join(words), words, idx, claimed, bytes);
    } else {
      assert words[DATA_WORDS] == w;
      NotAName(wl, h, Join(words), words, DATA_WORDS);
    }
  }

  /** `matches`: a name belongs to a key exactly if it is the key's name. */
  method Matches(wl: seq<Word>, h: Hashes, name: Word, pubkey: Bytes) returns (ok: bool)
    requires GoodList(wl) && HashesWork(h)
    ensures ok <==> name == NameOf(wl, h, h.key(pubkey)[..PREFIX_BYTES])
  {
    var valid := VerifyName(wl, h, name);
    var expected := EncodeKey(wl, h, pubkey);
    ok := valid && expected == name;
  }

  /** Two keys share a name exactly if the first ten bytes of their hashes agree. */
  lemma SharedNames(wl: seq<Word>, h: Hashes, a: Bytes, b: Bytes)
    requires GoodList(wl) && HashesWork(h)
    ensures NameOf(wl, h, h.key(a)[..PREFIX_BYTES]) == NameOf(wl, h, h.key(b)[..PREFIX_BYTES])
      <==> h.key(a)[..PREFIX_BYTES] == h.key(b)[..PREFIX_BYTES]
  {
    NameInjective(wl, h, h.key(a)[..PREFIX_BYTES], h.key(b)[..PREFIX_BYTES]);
  }
}
