/** The bloom filter of an SST (src/sstable/bloom.rs). */
module Bloom {
  import opened Rows

  const WORD: nat := 0x1_0000_0000_0000_0000

  /** The salted 64-bit hash; nothing is assumed about it. */
  type Hash = (Key, nat) -> nat

  /** Double hashing: `(h1 + i * (h2 | 1)) mod 2^64 mod m`. */
  function BitIndex(hash: Hash, m: nat, key: Key, i: nat): (b: nat)
    requires m > 0
    ensures b < m
  {
    var h2 := hash(key, 2);
    var odd := if h2 % 2 == 0 then h2 + 1 else h2;
    (hash(key, 1) + i * odd) % WORD % m
  }

  /** Position `i` of a key: the first hash plus `i` times the second, made odd, in 64 bits, and then cut to `m`. */
  ghost predicate Probes(hash: Hash, m: nat, key: Key, i: nat, b: nat)
    requires m > 0
  {
    exists odd: nat | odd % 2 == 1 && hash(key, 2) <= odd <= hash(key, 2) + 1 ::
      b == (hash(key, 1) + i * odd) % 0x1_0000_0000_0000_0000 % m && (hash(key, 2) % 2 == 1 ==> odd == hash(key, 2))
  }

  lemma IndexProbes(hash: Hash, m: nat, key: Key, i: nat)
    requires m > 0
    ensures Probes(hash, m, key, i, BitIndex(hash, m, key, i))
  {
    var odd: nat := if hash(key, 2) % 2 == 0 then hash(key, 2) + 1 else hash(key, 2);
    assert odd % 2 == 1;
  }

  /** The bits of a key, by position; kept abstract below. */
  type Probe = (Key, nat) -> nat

  ghost function Marks(probe: Probe, k: nat, key: Key): set<nat> {
    set i | 0 <= i < k :: probe(key, i)
  }

  ghost function AllMarks(probe: Probe, k: nat, keys: set<Key>): set<nat> {
    set key, b | key in keys && b in Marks(probe, k, key) :: b
  }

  lemma MarksNext(probe: Probe, i: nat, key: Key)
    ensures Marks(probe, i + 1, key) == Marks(probe, i, key) + {probe(key, i)}
  {
  }

  lemma AllMarksInsert(probe: Probe, k: nat, keys: set<Key>, key: Key)
    ensures AllMarks(probe, k, keys + {key}) == AllMarks(probe, k, keys) + Marks(probe, k, key)
  {
    forall b ensures b in AllMarks(probe, k, keys + {key})
                     <==> b in AllMarks(probe, k, keys) || b in Marks(probe, k, key)
    {
      if b in Marks(probe, k, key) { assert key in keys + {key}; }
      if b in AllMarks(probe, k, keys) {
        var x :| x in keys && b in Marks(probe, k, x);
        assert x in keys + {key};
      }
    }
  }

  predicate Bit(bits: seq<bv8>, b: nat)
    requires b / 8 < |bits|
  {
    bits[b / 8] & (1 << (b % 8)) != 0
  }

  lemma BitOps(x: bv8, i: nat, j: nat)
    requires i < 8 && j < 8
    ensures (x | (1 << i)) & (1 << i) != 0
    ensures i != j ==> ((x | (1 << i)) & (1 << j) != 0 <==> x & (1 << j) != 0)
  {
    var a: bv8, b: bv8 := 1 << i, 1 << j;
    if i == 0 { assert a == 1; } else if i == 1 { assert a == 2; } else if i == 2 { assert a == 4; }
    else if i == 3 { assert a == 8; } else if i == 4 { assert a == 16; } else if i == 5 { assert a == 32; }
    else if i == 6 { assert a == 64; } else { assert a == 128; }
    if j == 0 { assert b == 1; } else if j == 1 { assert b == 2; } else if j == 2 { assert b == 4; }
    else if j == 3 { assert b == 8; } else if j == 4 { assert b == 16; } else if j == 5 { assert b == 32; }
    else if j == 6 { assert b == 64; } else { assert b == 128; }
  }

  lemma SetBit(bits: seq<bv8>, b: nat, c: nat)
    requires b / 8 < |bits| && c / 8 < |bits|
    ensures Bit(bits[b / 8 := bits[b / 8] | (1 << (b % 8))], c) <==> c == b || Bit(bits, c)
  {
    SameIndex(b, c);
    if b / 8 == c / 8 { BitOps(bits[b / 8], b % 8, c % 8); }
  }

  lemma SameIndex(b: nat, c: nat)
    ensures b == c <==> b / 8 == c / 8 && b % 8 == c % 8
  {
  }

  /** Of the first `m` bits exactly those in `marks` are set. */
  ghost predicate BitsAre(bits: seq<bv8>, m: nat, marks: set<nat>) {
    |bits| == (m + 7) / 8 && forall b | 0 <= b < m :: Bit(bits, b) <==> b in marks
  }

  lemma MarkBit(bits: seq<bv8>, m: nat, marks: set<nat>, idx: nat)
    requires BitsAre(bits, m, marks) && idx < m
    ensures BitsAre(bits[idx / 8 := bits[idx / 8] | (1 << (idx % 8))], m, marks + {idx})
  {
    forall b | 0 <= b < m
      ensures Bit(bits[idx / 8 := bits[idx / 8] | (1 << (idx % 8))], b) <==> b in marks + {idx}
    {
      SetBit(bits, idx, b);
    }
  }

  class BloomFilter {
    const m: nat
    const k: nat
    const probe: Probe
    const bits: array<bv8>
    ghost var inserted: set<Key>

    /** A bit is set exactly if it belongs to an inserted key. */
    ghost predicate Valid()
      reads this, bits
    {
      (forall key, i :: probe(key, i) < m) && BitsAre(bits[..], m, AllMarks(probe, k, inserted))
    }

    /** Some inserted key has the bit among its own. */
    ghost predicate Covered(b: nat)
      reads this
    {
      exists key, i | key in inserted && 0 <= i < k :: probe(key, i) == b
    }

    constructor (m: nat, k: nat, hash: Hash)
      requires m >= 1024 && 1 <= k <= 64
      ensures Valid() && fresh(bits) && inserted == {} && this.m == m && this.k == k
      ensures forall key, i :: Probes(hash, m, key, i, probe(key, i))
    {
      this.m, this.k, probe := m, k, (key, i) => BitIndex(hash, m, key, i);
      bits := new bv8[(m + 7) / 8](_ => 0);
      inserted := {};
      new;
      forall key, i ensures Probes(hash, m, key, i, probe(key, i)) { IndexProbes(hash, m, key, i); }
      forall b | 0 <= b < m ensures !Bit(bits[..], b) { ZeroBit(bits[..], b); }
    }

    method SetMark(idx: nat, ghost marks: set<nat>)
      requires BitsAre(bits[..], m, marks) && idx < m
      modifies bits
      ensures BitsAre(bits[..], m, marks + {idx})
    {
      MarkBit(bits[..], m, marks, idx);
      ghost var was := bits[..];
      bits[idx / 8] := bits[idx / 8] | (1 << (idx % 8));
      assert bits[..] == was[idx / 8 := was[idx / 8] | (1 << (idx % 8))];
    }

    method Insert(key: Key)
      requires Valid()
      modifies bits, `inserted
      ensures Valid() && inserted == old(inserted) + {key}
    {
      ghost var marks := AllMarks(probe, k, inserted);
      for i := 0 to k
        invariant marks == AllMarks(probe, k, inserted) + Marks(probe, i, key)
        invariant BitsAre(bits[..], m, marks) && inserted == old(inserted)
      {
        var idx := probe(key, i);
        MarksNext(probe, i, key);
        SetMark(idx, marks);
        marks := marks + {idx};
      }
      AllMarksInsert(probe, k, inserted, key);
      inserted := inserted + {key};
    }

    lemma AllCovered(key: Key)
      ensures Marks(probe, k, key) <= AllMarks(probe, k, inserted) <==> forall i | 0 <= i < k :: Covered(probe(key, i))
    {
      forall i | 0 <= i < k
        ensures probe(key, i) in Marks(probe, k, key)
        ensures probe(key, i) in AllMarks(probe, k, inserted) <==> Covered(probe(key, i))
      {
        if x, j :| x in inserted && 0 <= j < k && probe(x, j) == probe(key, i) {
          assert probe(key, i) in Marks(probe, k, x);
        }
      }
    }

    /** Yes exactly if all the key's bits belong to inserted keys; so never no for an inserted key. */
    method Contains(key: Key) returns (yes: bool)
      requires Valid()
      ensures yes <==> Marks(probe, k, key) <= AllMarks(probe, k, inserted)
      ensures yes <==> forall i | 0 <= i < k :: Covered(probe(key, i))
      ensures key in inserted ==> yes
    {
      AllCovered(key);
      yes := true;
      for i := 0 to k
        invariant yes <==> Marks(probe, i, key) <= AllMarks(probe, k, inserted)
      {
        var idx := probe(key, i);
        MarksNext(probe, i, key);
        if bits[idx / 8] & (1 << (idx % 8)) == 0 {
          assert !Bit(bits[..], idx);
          yes := false;
        } else {
          assert Bit(bits[..], idx);
        }
      }
    }
  }

  lemma ZeroBit(bits: seq<bv8>, b: nat)
    requires b / 8 < |bits| && bits[b / 8] == 0
    ensures !Bit(bits, b)
  {
  }
}
