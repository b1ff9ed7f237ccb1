/** The segments' Bloom filter and its stored form (internal/server/segment.go). */
module Bloom {

  const TWO_TO_THE_64: nat := 0x1_0000_0000_0000_0000

  const PROBES: nat := 4

  /** A 64-bit word and a byte, lowest bit first. */
  type Word = w: seq<bool> | |w| == 64 witness seq(64, _ => false)

  type Byte = b: seq<bool> | |b| == 8 witness seq(8, _ => false)

  const ZERO: Word := seq(64, _ => false)

  type U64 = x: int | 0 <= x < TWO_TO_THE_64

  /** The two hashes of a term. */
  type Hash = string -> (U64, U64)

  datatype Filter = Filter(bits: seq<Word>, m: nat)

  predicate Valid(f: Filter) { 0 < f.m <= 64 * |f.bits| }

  // ------------------------------------------------------------------
  // Adding and asking
  // ------------------------------------------------------------------

  function SizeFor(n: nat): nat { if n * 10 < 1024 then 1024 else n * 10 }

  function Empty(n: nat): (f: Filter)
    ensures Valid(f) && |f.bits| == (f.m + 63) / 64
  {
    Filter(seq((SizeFor(n) + 63) / 64, _ => ZERO), SizeFor(n))
  }

  /** Double hashing in 64-bit arithmetic; a zero step is replaced. */
  function Position(h: Hash, term: string, k: nat, m: nat): (p: nat)
    requires m > 0
    ensures p < m
  {
    (h(term).0 + k * Stride(h, term)) % TWO_TO_THE_64 % m
  }

  /** The distance between a term's probes. */
  function Stride(h: Hash, term: string): nat { if h(term).1 == 0 then 0x9e3779b9 else h(term).1 }

  /** Probes i and j of a term are said to lie at different positions. They do, as long as the sums fit 64 bits, if and
      only if the size does not divide so many strides. */
  lemma {:induction false} ProbesDifferExactlyWhen(h: Hash, term: string, i: nat, j: nat, m: nat)
    requires m > 0 && i < j < PROBES && h(term).0 + j * Stride(h, term) < TWO_TO_THE_64
    ensures Position(h, term, i, m) != Position(h, term, j, m) <==> (j - i) * Stride(h, term) % m != 0
  {
    var a, d := h(term).0, Stride(h, term);
    Strides(i, j, d);
    NoWrap(h, term, i, m);
    NoWrap(h, term, j, m);
    hide Position, Stride;
    SameRemainder(a + i * d, (j - i) * d, m);
  }

  lemma {:induction false} Strides(i: nat, j: nat, d: nat)
    requires i < j
    ensures i * d <= j * d && j * d == i * d + (j - i) * d
  {
  }

  lemma {:induction false} NoWrap(h: Hash, term: string, k: nat, m: nat)
    requires m > 0 && h(term).0 + k * Stride(h, term) < TWO_TO_THE_64
    ensures Position(h, term, k, m) == (h(term).0 + k * Stride(h, term)) % m
  {
  }

  lemma {:induction false} SameRemainder(x: nat, y: nat, m: nat)
    requires m > 0
    ensures x % m == (x + y) % m <==> y % m == 0
  {
    var p, q, r := x / m, (x + y) / m, y / m;
    assert x == m * p + x % m && x + y == m * q + (x + y) % m && y == m * r + y % m;
    if x % m == (x + y) % m {
      assert y == m * (q - p);
      MultipleOf(y, q - p, m);
    }
    if y % m == 0 {
      assert x + y == m * (p + r) + x % m;
      QuotientIs(x + y, p + r, x % m, m);
    }
  }

  lemma {:induction false} MultipleOf(y: nat, k: int, m: nat)
    requires m > 0 && y == m * k
    ensures y % m == 0
  {
    QuotientIs(y, k, 0, m);
  }

  lemma {:induction false} QuotientIs(x: int, q: int, r: nat, m: nat)
    requires m > 0 && x == m * q + r && r < m
    ensures x % m == r
  {
    var k := x / m - q;
    assert x == m * (x / m) + x % m;
    assert m * k == r - x % m;
    Apart(m, k);
  }

  lemma {:induction false} Apart(m: int, k: int)
    requires m > 0
    ensures (k > 0 ==> m * k >= m) && (k < 0 ==> m * k <= -m)
  {
  }

  predicate Bit(f: Filter, p: nat)
    requires p < 64 * |f.bits|
  {
    f.bits[p / 64][p % 64]
  }

  function WithBit(f: Filter, p: nat): (r: Filter)
    requires Valid(f) && p < f.m
    ensures Valid(r) && r.m == f.m && |r.bits| == |f.bits|
    ensures forall q :: 0 <= q < 64 * |f.bits| ==> (Bit(r, q) <==> Bit(f, q) || q == p)
  {
    var w: Word := f.bits[p / 64][p % 64 := true];
    var r := f.(bits := f.bits[p / 64 := w]);
    assert forall q :: 0 <= q < 64 * |f.bits| ==> (Bit(r, q) <==> Bit(f, q) || q == p) by {
      forall q | 0 <= q < 64 * |f.bits| ensures Bit(r, q) <==> Bit(f, q) || q == p {
        if q / 64 == p / 64 {
          assert q == 64 * (q / 64) + q % 64 && p == 64 * (p / 64) + p % 64;
        }
      }
    }
    r
  }

  /** With the first n probes of the term. */
  function AddedTo(h: Hash, f: Filter, term: string, n: nat): (r: Filter)
    requires Valid(f)
    ensures Valid(r) && r.m == f.m && |r.bits| == |f.bits|
  {
    if n == 0 then f else WithBit(AddedTo(h, f, term, n - 1), Position(h, term, n - 1, f.m))
  }

  function Added(h: Hash, f: Filter, term: string): (r: Filter)
    requires Valid(f)
    ensures Valid(r) && r.m == f.m && |r.bits| == |f.bits|
  {
    AddedTo(h, f, term, PROBES)
  }

  predicate Allows(h: Hash, f: Filter, term: string)
    requires Valid(f)
  {
    forall k :: 0 <= k < PROBES ==> Bit(f, Position(h, term, k, f.m))
  }

  /** The filter that FlushNow builds for the terms of a segment. */
  function Build(h: Hash, n: nat, terms: seq<string>): (f: Filter)
    ensures Valid(f) && f.m == SizeFor(n) && |f.bits| == (f.m + 63) / 64
  {
    if terms == [] then Empty(n) else Added(h, Build(h, n, terms[..|terms|-1]), terms[|terms|-1])
  }

  lemma {:induction false} AddedBits(h: Hash, f: Filter, term: string, n: nat, q: nat)
    requires Valid(f) && q < 64 * |f.bits|
    ensures Bit(AddedTo(h, f, term, n), q) <==> Bit(f, q) || exists k :: 0 <= k < n && q == Position(h, term, k, f.m)
  {
    if n > 0 {
      AddedBits(h, f, term, n - 1, q);
    }
  }

  /** The bits of a built filter are exactly the probes of its terms, whatever the order they were added in. */
  lemma {:induction false} BuiltBits(h: Hash, n: nat, terms: seq<string>, q: nat)
    requires q < 64 * |Build(h, n, terms).bits|
    ensures Bit(Build(h, n, terms), q) <==>
            exists t, k :: t in terms && 0 <= k < PROBES && q == Position(h, t, k, SizeFor(n))
  {
    if terms == [] {
      assert Build(h, n, terms).bits[q / 64] == ZERO;
    } else {
      var last := |terms| - 1;
      assert terms == terms[..last] + [terms[last]];
      var f := Build(h, n, terms[..last]);
      BuiltBits(h, n, terms[..last], q);
      AddedBits(h, f, terms[last], PROBES, q);
      hide Position, AddedTo;
    }
  }

  /** A filter never denies a term it was given. */
  lemma {:induction false} NeverDeniesAdded(h: Hash, n: nat, terms: seq<string>, t: string)
    requires t in terms
    ensures Allows(h, Build(h, n, terms), t)
  {
    var f := Build(h, n, terms);
    forall k | 0 <= k < PROBES ensures Bit(f, Position(h, t, k, f.m)) {
      BuiltBits(h, n, terms, Position(h, t, k, f.m));
    }
  }

  // ------------------------------------------------------------------
  // The stored form
  // ------------------------------------------------------------------

  /** The bytes of a word, lowest first. */
  function WordBytes(w: Word): (bs: seq<Byte>)
    ensures |bs| == 8
  {
    [w[0..8], w[8..16], w[16..24], w[24..32], w[32..40], w[40..48], w[48..56], w[56..64]]
  }

  function WordOf(bs: seq<Byte>): Word
    requires |bs| >= 8
  {
    var low: seq<bool> := bs[0];
    low + bs[1] + bs[2] + bs[3] + bs[4] + bs[5] + bs[6] + bs[7]
  }

  function Marshal(bits: seq<Word>): (raw: seq<Byte>)
    ensures |raw| == 8 * |bits|
  {
    if bits == [] then [] else WordBytes(bits[0]) + Marshal(bits[1..])
  }

  function Words(raw: seq<Byte>): (bits: seq<Word>)
    ensures |bits| == |raw| / 8
  {
    if |raw| < 8 then [] else [WordOf(raw)] + Words(raw[8..])
  }

  /** What is read back: the size is not stored, it becomes the number of bits. */
  function Unmarshal(raw: seq<Byte>): (f: Filter)
    requires |raw| >= 8
    ensures Valid(f)
  {
    Filter(Words(raw), |raw| / 8 * 64)
  }

  function Reloaded(f: Filter): (r: Filter)
    requires Valid(f)
    ensures Valid(r)
  {
    Unmarshal(Marshal(f.bits))
  }

  lemma {:induction false} WordRoundTrip(w: Word, more: seq<Byte>)
    ensures WordOf(WordBytes(w) + more) == w
  {
    var bs := WordBytes(w) + more;
    var s: seq<bool> := w;
    assert bs[0] == s[0..8] && bs[1] == s[8..16] && bs[2] == s[16..24] && bs[3] == s[24..32];
    assert bs[4] == s[32..40] && bs[5] == s[40..48] && bs[6] == s[48..56] && bs[7] == s[56..64];
    hide WordBytes;
    Append(s, 8, 16);
    Append(s, 16, 24);
    Append(s, 24, 32);
    Append(s, 32, 40);
    Append(s, 40, 48);
    Append(s, 48, 56);
    Append(s, 56, 64);
    assert s[0..64] == s;
  }

  lemma {:induction false} Append(s: seq<bool>, i: nat, j: nat)
    requires i <= j <= |s|
    ensures s[0..i] + s[i..j] == s[0..j]
  {
  }

  lemma {:induction false} WordsRoundTrip(bits: seq<Word>)
    ensures Words(Marshal(bits)) == bits
  {
    if bits != [] {
      var head, more := WordBytes(bits[0]), Marshal(bits[1..]);
      WordRoundTrip(bits[0], more);
      WordsRoundTrip(bits[1..]);
      assert (head + more)[8..] == more;
      assert bits == [bits[0]] + bits[1..];
      hide WordBytes, WordOf;
    }
  }

  /** The bits survive storing; the size is rounded up to whole words. */
  lemma {:induction false} StoredBitsSurvive(f: Filter)
    requires Valid(f)
    ensures Reloaded(f) == Filter(f.bits, 64 * |f.bits|)
  {
    WordsRoundTrip(f.bits);
  }

  /** The size of a slice in a 64-bit machine. */
  predicate Fits(n: nat) { SizeFor(n) < TWO_TO_THE_64 }

  /** Storing and reloading keeps the filter's answer for t. */
  predicate AnswersKept(h: Hash, n: nat, terms: seq<string>, t: string) {
    Allows(h, Reloaded(Build(h, n, terms)), t) == Allows(h, Build(h, n, terms), t)
  }

  /** It does for every hash, every filter of a size and every term if and only if the size is a multiple of the word
      size; otherwise some filter denies a term it was given. */
  lemma {:induction false} ReloadKeepsAnswersExactlyWhen(n: nat)
    requires Fits(n)
    ensures SizeFor(n) % 64 == 0 <==> forall h: Hash, terms, t :: AnswersKept(h, n, terms, t)
  {
    if SizeFor(n) % 64 == 0 {
      forall h: Hash, terms, t ensures AnswersKept(h, n, terms, t) {
        AlignedReloadsAlike(h, n, terms);
      }
    } else {
      var h: Hash := (s: string) => (SizeFor(n) as U64, 1);
      DeniedAfterReload(h, n, ["a"], "a");
      NeverDeniesAdded(h, n, ["a"], "a");
      assert !AnswersKept(h, n, ["a"], "a");
    }
  }

  /** The size after reloading. */
  function ReloadedSize(n: nat): (m: nat)
    ensures m > 0
  {
    64 * ((SizeFor(n) + 63) / 64)
  }

  /** For the hash in use, whatever it is: a reloaded filter denies a term, its own or another, if and only if one of
      the term's probes under the new size is no probe of any of its terms under the old one. */
  lemma {:induction false} ReloadedDeniesExactlyWhen(h: Hash, n: nat, terms: seq<string>, t: string)
    ensures !Allows(h, Reloaded(Build(h, n, terms)), t) <==>
      exists k :: 0 <= k < PROBES &&
        forall t', k' :: t' in terms && 0 <= k' < PROBES ==>
          Position(h, t, k, ReloadedSize(n)) != Position(h, t', k', SizeFor(n))
  {
    var f := Build(h, n, terms);
    StoredBitsSurvive(f);
    var r := Reloaded(f);
    assert r.m == ReloadedSize(n) && r.bits == f.bits;
    hide Build, Reloaded, Position, ReloadedSize, SizeFor;
    forall k | 0 <= k < PROBES
      ensures Bit(r, Position(h, t, k, r.m)) <==>
        exists t', k' :: t' in terms && 0 <= k' < PROBES && Position(h, t, k, r.m) == Position(h, t', k', SizeFor(n))
    {
      BuiltBits(h, n, terms, Position(h, t, k, r.m));
    }
  }

  lemma {:induction false} AlignedReloadsAlike(h: Hash, n: nat, terms: seq<string>)
    requires SizeFor(n) % 64 == 0
    ensures Reloaded(Build(h, n, terms)) == Build(h, n, terms)
  {
    var f := Build(h, n, terms);
    StoredBitsSurvive(f);
    WholeWords(f.m);
    hide *;
    assert 64 * |f.bits| == f.m;
    assert f == Filter(f.bits, f.m);
  }

  lemma {:induction false} WholeWords(m: nat)
    requires m % 64 == 0
    ensures 64 * ((m + 63) / 64) == m
  {
    assert m == 64 * (m / 64);
  }

  /** A term whose first hash is the size is denied after reloading: its probe lands behind every bit ever set. */
  lemma {:induction false} DeniedAfterReload(h: Hash, n: nat, terms: seq<string>, t: string)
    requires SizeFor(n) % 64 != 0 && h(t).0 == SizeFor(n)
    ensures !Allows(h, Reloaded(Build(h, n, terms)), t)
  {
    var f := Build(h, n, terms);
    StoredBitsSurvive(f);
    RoundedUp(f.m);
    hide Build, Reloaded, Position;
    var r := Reloaded(f);
    FirstProbe(h, t, r.m);
    BuiltBits(h, n, terms, f.m);
    assert !Bit(f, f.m);
    assert !Bit(r, f.m);
  }

  lemma {:induction false} RoundedUp(m: nat)
    requires m % 64 != 0
    ensures m < 64 * ((m + 63) / 64)
  {
  }

  lemma {:induction false} FirstProbe(h: Hash, t: string, m: nat)
    requires h(t).0 < m
    ensures Position(h, t, 0, m) == h(t).0
  {
    var h2 := if h(t).1 == 0 then 0x9e3779b9 else h(t).1;
    assert 0 * h2 == 0;
  }

  /** Which numbers of terms give such a size. */
  lemma {:induction false} AlignedExactlyWhen(n: nat)
    ensures SizeFor(n) % 64 == 0 <==> n <= 102 || n % 32 == 0
  {
    if n > 102 {
      assert SizeFor(n) == 10 * n;
      assert n == 32 * (n / 32) + n % 32;
      assert 10 * n == 64 * (5 * (n / 32)) + 10 * (n % 32);
    }
  }

  // ------------------------------------------------------------------
  // The object
  // ------------------------------------------------------------------

  class BloomFilter {
    var bits: array<Word>
    var m: nat

    ghost function Value(): (f: Filter)
      reads this, bits
    {
      Filter(bits[..], m)
    }

    constructor (n: nat)
      ensures Value() == Empty(n) && fresh(bits)
    {
      m := SizeFor(n);
      var words := (SizeFor(n) + 63) / 64;
      bits := new Word[words](_ => ZERO);
    }

    constructor FromRaw(raw: seq<Byte>)
      requires |raw| >= 8
      ensures Value() == Unmarshal(raw) && fresh(bits)
    {
      hide Words, WordOf;
      var words := |raw| / 8;
      var read := new Word[words](_ => ZERO);
      var i := 0;
      assert raw[0..] == raw;
      while i < words
        invariant i <= words
        invariant Words(raw) == read[..i] + Words(raw[8 * i..])
      {
        assert raw[8 * i..][8..] == raw[8 * (i + 1)..];
        NextWord(raw, i);
        read[i] := WordOf(raw[8 * i..]);
        i := i + 1;
      }
      NoWord(raw[8 * words..]);
      bits, m := read, words * 64;
    }

    method Add(h: Hash, term: string)
      requires Valid(Value())
      modifies bits
      ensures Value() == Added(h, old(Value()), term)
    {
      for k := 0 to PROBES
        invariant Valid(Value()) && Value() == AddedTo(h, old(Value()), term, k)
      {
        var pos := Position(h, term, k, m);
        bits[pos / 64] := bits[pos / 64][pos % 64 := true];
      }
    }

    method MayContain(h: Hash, term: string) returns (b: bool)
      requires Valid(Value())
      ensures b == Allows(h, Value(), term)
    {
      for k := 0 to PROBES
        invariant forall j :: 0 <= j < k ==> Bit(Value(), Position(h, term, j, m))
      {
        var pos := Position(h, term, k, m);
        if !bits[pos / 64][pos % 64] {
          assert !Bit(Value(), pos);
          return false;
        }
      }
      b := true;
    }

    method MarshalBinary() returns (raw: seq<Byte>)
      ensures raw == Marshal(Value().bits)
    {
      raw := [];
      assert bits[0..] == bits[..];
      for i := 0 to bits.Length
        invariant raw + Marshal(bits[i..]) == Marshal(bits[..])
      {
        assert bits[i..][1..] == bits[i+1..];
        assert raw + (WordBytes(bits[i]) + Marshal(bits[i+1..])) == raw + WordBytes(bits[i]) + Marshal(bits[i+1..]);
        raw := raw + WordBytes(bits[i]);
      }
      assert raw + [] == raw;
    }
  }

  lemma {:induction false} NoWord(raw: seq<Byte>)
    requires |raw| < 8
    ensures Words(raw) == []
  {
  }

  lemma {:induction false} NextWord(raw: seq<Byte>, i: nat)
    requires 8 * i + 8 <= |raw|
    ensures Words(raw[8 * i..]) == [WordOf(raw[8 * i..])] + Words(raw[8 * i..][8..])
  {
  }
}
