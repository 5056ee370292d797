/**
 Bloom filters and their serialised form (internal/contentindex/bloom.go). A machine word is
 modelled as its bits, least significant first, and a byte likewise, so that the little-endian
 conversion is regrouping of bits. The hash is a parameter: two 64-bit numbers per key.
 */
module BloomFilters {
  import opened GoText

  const TWO32: int := 0x1_0000_0000
  const TWO64: int := 0x1_0000_0000_0000_0000

  type uint64 = x: int | 0 <= x < TWO64
  type Byte = b: seq<bool> | |b| == 8 witness seq(8, _ => false)
  type Word = w: seq<bool> | |w| == 64 witness seq(64, _ => false)

  datatype Hash = Hash(h1: uint64, h2: uint64)
  type HashFn = string -> Hash

  const ZeroWord: Word := seq(64, _ => false)

  datatype Bloom = Bloom(words: seq<Word>, k: uint32, m: uint32)

  // m is the number of bits, and stays so in 32 bits.
  predicate Valid(b: Bloom) {
    b.m == 64 * |b.words| && b.m > 0
  }

  // The probed position is inside the words whenever there is a bit to probe.
  predicate InBounds(b: Bloom) {
    0 < b.m <= 64 * |b.words|
  }

  function Bit(words: seq<Word>, p: nat): bool
    requires p < 64 * |words|
  {
    words[p / 64][p % 64]
  }

  // (h1 + uint64(i)*h2) % uint64(m), in 64-bit arithmetic.
  function Probe(h: Hash, i: nat, m: uint32): (p: nat)
    requires m > 0
    ensures p < m
  {
    (h.h1 + i * h.h2) % TWO64 % m
  }

  // The hash's first number, then steps by its second, in 64 bits.
  function Walk(h: Hash, i: nat): (x: uint64) {
    if i == 0 then h.h1 else (Walk(h, i - 1) + h.h2) % TWO64
  }

  /** Probe i is the i-th place of the walk, modulo the size. */
  lemma ProbesWalk(h: Hash, i: nat, m: uint32)
    requires m > 0
    ensures Probe(h, i, m) == Walk(h, i) % m
  {
    WalkIsLinear(h, i);
  }

  lemma {:induction false} WalkIsLinear(h: Hash, i: nat)
    ensures Walk(h, i) == (h.h1 + i * h.h2) % TWO64
  {
    if i > 0 {
      WalkIsLinear(h, i - 1);
      OneStep(i, h.h2);
      AddModulo(h.h1 + (i - 1) * h.h2, h.h2);
    }
  }

  lemma OneStep(i: int, y: int)
    ensures i * y == (i - 1) * y + y
  {
  }

  lemma AddModulo(x: int, y: int)
    ensures (x % TWO64 + y) % TWO64 == (x + y) % TWO64
  {
  }

  predicate Probed(h: Hash, k: nat, m: uint32, p: nat)
    requires m > 0
  {
    exists i | 0 <= i < k :: Probe(h, i, m) == p
  }

  predicate Contains(b: Bloom, h: Hash)
    requires InBounds(b)
  {
    forall i | 0 <= i < b.k :: Bit(b.words, Probe(h, i, b.m))
  }

  // ---------- Serialised form ----------

  // PutUint64 for each word: byte j of a word is its bits 8j to 8j + 7.
  function Serialize(words: seq<Word>): (data: seq<Byte>)
    ensures |data| == 8 * |words|
  {
    seq(8 * |words|, j requires 0 <= j < 8 * |words| => words[j / 8][8 * (j % 8)..8 * (j % 8) + 8])
  }

  // Uint64 of bytes 8i to 8i + 7, missing ones read as zero.
  function WordAt(data: seq<Byte>, i: nat): Word {
    seq(64, b requires 0 <= b < 64 => 8 * i + b / 8 < |data| && data[8 * i + b / 8][b % 8])
  }

  function WordCount(data: seq<Byte>): (n: nat)
    ensures n > 0
  {
    var n := (|data| + 7) / 8;
    if n == 0 then 1 else n
  }

  function FromBytes(data: seq<Byte>, k: uint32): Bloom {
    Bloom(seq(WordCount(data), i requires 0 <= i => WordAt(data, i)),
          if k > 100 then 1 else k,
          WordCount(data) * 64 % TWO32)
  }

  // ---------- The filter as an object ----------

  class BloomFilter {
    const hash: HashFn
    const k: uint32
    const m: uint32
    const bits: array<Word>

    ghost predicate IsValid()
      reads this, bits
    {
      Valid(View())
    }

    function View(): Bloom
      reads this, bits
    {
      Bloom(bits[..], k, m)
    }

    /** NewBloomFilter once its sizing formulas have chosen k and a number of bits: that many, rounded
        up to whole words, unless rounding up overflows 32 bits. */
    constructor (hash: HashFn, k: uint32, size: uint32)
      ensures this.hash == hash && this.k == k && fresh(bits)
      ensures IsValid() && forall p | 0 <= p < m :: !Bit(View().words, p)
      ensures if 0 < size < TWO32 - 63 then size <= m < size + 64 else m == 64
    {
      var words := (size + 63) % TWO32 / 64;
      if words == 0 {
        words := 1;
      }
      this.hash, this.k, this.m := hash, k, words * 64;
      bits := new Word[words](_ => ZeroWord);
    }

    method Add(key: string)
      requires InBounds(View())
      modifies bits
      ensures InBounds(View())
      ensures forall p | 0 <= p < 64 * bits.Length ::
                Bit(View().words, p) <==> Bit(old(View()).words, p) || Probed(hash(key), k, m, p)
    {
      var h := hash(key);
      for i := 0 to k
        invariant InBounds(View())
        invariant forall p | 0 <= p < 64 * bits.Length :: Bit(View().words, p) <==> Bit(old(View()).words, p) || Probed(h, i, m, p)
      {
        ghost var before := bits[..];
        var pos := Probe(h, i, m);
        bits[pos / 64] := bits[pos / 64][pos % 64 := true];
        forall p | 0 <= p < 64 * bits.Length
          ensures Bit(bits[..], p) <==> Bit(before, p) || p == pos
          ensures Probed(h, i + 1, m, p) <==> Probed(h, i, m, p) || p == pos
        {
          assert p == 64 * (p / 64) + p % 64 && pos == 64 * (pos / 64) + pos % 64;
          assert p == pos ==> Probe(h, i, m) == p;
        }
      }
    }

    method Test(key: string) returns (found: bool)
      requires InBounds(View())
      ensures found <==> Contains(View(), hash(key))
    {
      var h := hash(key);
      for i := 0 to k
        invariant forall j | 0 <= j < i :: Bit(View().words, Probe(h, j, m))
      {
        var pos := Probe(h, i, m);
        if !bits[pos / 64][pos % 64] {
          assert !Bit(View().words, Probe(h, i, m));
          return false;
        }
      }
      return true;
    }

    method Bytes() returns (data: array<Byte>)
      ensures data[..] == Serialize(bits[..])
    {
      data := new Byte[bits.Length * 8](_ => seq(8, _ => false));
      for i := 0 to bits.Length
        invariant forall j | 0 <= j < 8 * i :: data[j] == Serialize(bits[..])[j]
      {
        var w := bits[i];
        for b := 0 to 8
          invariant forall j | 0 <= j < 8 * i + b :: data[j] == Serialize(bits[..])[j]
        {
          assert (8 * i + b) / 8 == i && (8 * i + b) % 8 == b;
          data[8 * i + b] := w[8 * b..8 * b + 8];
        }
      }
    }

    // NewBloomFilterFromBytes
    constructor Load(hash: HashFn, data: seq<Byte>, k: uint32)
      ensures this.hash == hash && fresh(bits) && View() == FromBytes(data, k)
    {
      var words := WordCount(data);
      var bs := new Word[words](_ => ZeroWord);
      for i := 0 to words
        invariant forall j | 0 <= j < i :: bs[j] == WordAt(data, j)
      {
        bs[i] := WordAt(data, i);
      }
      this.hash, this.k, this.m, this.bits := hash, if k > 100 then 1 else k, words * 64 % TWO32, bs;
      assert bs[..] == FromBytes(data, k).words;
    }
  }

  // ---------- Adding keys, as a set of bits ----------

  // Some key of the list probes p.
  predicate Marked(hash: HashFn, keys: seq<string>, k: nat, m: uint32, p: nat)
    requires m > 0
  {
    exists j | 0 <= j < |keys| :: Probed(hash(keys[j]), k, m, p)
  }

  // The filter's bits are exactly the positions that the keys probe.
  ghost predicate Holds(b: Bloom, hash: HashFn, keys: seq<string>) {
    Valid(b) && forall p | 0 <= p < b.m :: Bit(b.words, p) <==> Marked(hash, keys, b.k, b.m, p)
  }

  /** Adding the keys of any list one by one leaves exactly the bits they probe. */
  method AddAll(bf: BloomFilter, keys: seq<string>)
    requires bf.IsValid() && forall p | 0 <= p < bf.m :: !Bit(bf.View().words, p)
    modifies bf.bits
    ensures Holds(bf.View(), bf.hash, keys)
  {
    for i := 0 to |keys|
      invariant Holds(bf.View(), bf.hash, keys[..i])
    {
      ghost var before := bf.View();
      bf.Add(keys[i]);
      forall p | 0 <= p < bf.m
        ensures Marked(bf.hash, keys[..i + 1], bf.k, bf.m, p) <==>
                Marked(bf.hash, keys[..i], bf.k, bf.m, p) || Probed(bf.hash(keys[i]), bf.k, bf.m, p)
      {
        MarkedSnoc(bf.hash, keys, i, bf.k, bf.m, p);
      }
    }
    assert keys[..|keys|] == keys;
  }

  lemma MarkedSnoc(hash: HashFn, keys: seq<string>, i: nat, k: nat, m: uint32, p: nat)
    requires i < |keys| && m > 0
    ensures Marked(hash, keys[..i + 1], k, m, p) <==> Marked(hash, keys[..i], k, m, p) || Probed(hash(keys[i]), k, m, p)
  {
    var a, b := keys[..i + 1], keys[..i];
    if Marked(hash, b, k, m, p) {
      var j :| 0 <= j < |b| && Probed(hash(b[j]), k, m, p);
      assert a[j] == b[j];
    }
    if Marked(hash, a, k, m, p) {
      var j :| 0 <= j < |a| && Probed(hash(a[j]), k, m, p);
      assert j < i ==> a[j] == b[j];
    }
    assert a[i] == keys[i];
  }

  // ---------- Through the wire ----------

  lemma SerializeRoundTrip(words: seq<Word>)
    requires |words| > 0
    ensures WordCount(Serialize(words)) == |words|
    ensures forall i | 0 <= i < |words| :: WordAt(Serialize(words), i) == words[i]
  {
    var data := Serialize(words);
    forall i, b | 0 <= i < |words| && 0 <= b < 64
      ensures WordAt(data, i)[b] == words[i][b]
    {
      var j := 8 * i + b / 8;
      assert j / 8 == i && j % 8 == b / 8;
      assert b == 8 * (b / 8) + b % 8;
      assert data[j][b % 8] == words[i][8 * (j % 8) + b % 8];
    }
  }

  /** Byte j of the serialised form has positions 8j to 8j + 7 of the filter, the lowest first. */
  lemma BytesLayout(words: seq<Word>, p: nat)
    requires p < 64 * |words|
    ensures Serialize(words)[p / 8][p % 8] == Bit(words, p)
  {
    assert p == 64 * (p / 64) + p % 64;
    assert p / 8 / 8 == p / 64 && p / 8 % 8 == p % 64 / 8 && 8 * (p % 64 / 8) + p % 8 == p % 64;
  }

  /** A loaded filter has the positions of its bytes, and zeros after them. */
  lemma LoadedBits(data: seq<Byte>, k: uint32, p: nat)
    requires p < 64 * WordCount(data)
    ensures Bit(FromBytes(data, k).words, p) <==> p / 8 < |data| && data[p / 8][p % 8]
  {
    assert p == 64 * (p / 64) + p % 64;
    assert 8 * (p / 64) + p % 64 / 8 == p / 8 && p % 64 % 8 == p % 8;
  }

  /** Serialising and loading gives the filter back, except that more than 100 probes become one. */
  lemma LoadInvertsBytes(b: Bloom)
    requires Valid(b)
    ensures FromBytes(Serialize(b.words), b.k) == b.(k := if b.k > 100 then 1 else b.k)
    ensures InBounds(FromBytes(Serialize(b.words), b.k))
  {
    SerializeRoundTrip(b.words);
    assert FromBytes(Serialize(b.words), b.k).words == b.words;
  }

  /** Loading arbitrary bytes gives a filter that can be probed, if and only if 64 times the number
      of words does not vanish modulo 2^32: at 512 MiB the modulus becomes zero. */
  lemma LoadedCanBeProbed(data: seq<Byte>, k: uint32)
    ensures InBounds(FromBytes(data, k)) <==> WordCount(data) % 0x400_0000 != 0
  {
    var n := WordCount(data);
    assert n * 64 % TWO32 == 64 * (n % 0x400_0000) by {
      assert n == 0x400_0000 * (n / 0x400_0000) + n % 0x400_0000;
      assert n * 64 == TWO32 * (n / 0x400_0000) + 64 * (n % 0x400_0000);
    }
  }

  /** No false negatives, and no unexplained positives: after any list of keys was added, the
      filter that a peer loads contains a key exactly when each of its probes is a probe of some
      added key; so it contains every added key, also when k was cut down to one probe. */
  lemma LoadedContainsExactly(b: Bloom, hash: HashFn, keys: seq<string>, key: string)
    requires Holds(b, hash, keys)
    ensures
      var loaded := FromBytes(Serialize(b.words), b.k);
      && InBounds(loaded)
      && (key in keys ==> Contains(loaded, hash(key)))
      && (Contains(loaded, hash(key)) <==>
            forall i | 0 <= i < loaded.k :: Marked(hash, keys, b.k, b.m, Probe(hash(key), i, b.m)))
  {
    LoadInvertsBytes(b);
    if key in keys {
      var j :| 0 <= j < |keys| && keys[j] == key;
      forall i | 0 <= i < b.k ensures Marked(hash, keys, b.k, b.m, Probe(hash(key), i, b.m)) {
        assert Probed(hash(keys[j]), b.k, b.m, Probe(hash(key), i, b.m));
      }
    }
  }
}
