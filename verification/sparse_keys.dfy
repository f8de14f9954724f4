/**
 * The index arithmetic of the wc++ sparse array (sparse_array_impl.h): a
 * 32-bit index is split into four 8-bit keys, most significant first, one
 * per level of the tree.
 *
 * Indices are integers below 2^32. The bit operations of the C code are
 * written as the arithmetic they perform on such values: a left shift by
 * one key is a multiplication by 256 modulo 2^32, a right shift a division,
 * masking the low key a remainder modulo 256.
 */
module SparseKeys {
  /** One more than the largest sparse_index_t. */
  const IndexRange: nat := 0x1_0000_0000

  /** sparse_index_t: an unsigned 32-bit index. */
  type Index = i: int | 0 <= i < 0x1_0000_0000

  /** A key: the offset into one node's table of branches. */
  type Key = k: int | 0 <= k < 256

  function Pow2(n: nat): nat
  {
    if n == 0 then 1 else 2 * Pow2(n - 1)
  }

  /** SA_KEY_BITS_SHIFT: the key size is 2^3 bits. */
  const KeyBitsShift: nat := 3
  /** SA_KEY_BITS */
  const KeyBits: nat := 8
  /** SA_KEYS: the fan-out of every node. */
  const Keys: nat := 256
  /** SA_INDEX_BITS: sizeof (sparse_index_t) * NBBY. */
  const IndexBits: nat := 4 * 8
  /** SA_LEVELS: the depth of the tree. */
  const Levels: nat := 4
  /** SA_KEY_MASK_SHIFT */
  const KeyMaskShift: nat := 24
  /** SA_KEY_MASK: selects the most significant key. */
  const KeyMask: nat := 0xFF00_0000

  /** The constants agree with the macros that define them from SA_KEY_BITS_SHIFT. */
  lemma HeaderConstants()
    ensures KeyBits == Pow2(KeyBitsShift) && Keys == Pow2(KeyBits)
    ensures Levels == IndexBits / KeyBits && Levels * KeyBits == IndexBits
    ensures IndexRange == Pow2(IndexBits)
    ensures KeyMaskShift == KeyBits * (Levels - 1)
    ensures KeyMask == (Keys - 1) * Pow2(KeyMaskShift)
  {
    assert Pow2(3) == 8;
    assert Pow2(8) == 256 by {
      assert Pow2(4) == 16;
    }
    assert Pow2(16) == 0x1_0000 by {
      assert Pow2(12) == 0x1000;
    }
    assert Pow2(24) == 0x100_0000 by {
      assert Pow2(20) == 0x10_0000;
    }
    assert Pow2(32) == 0x1_0000_0000 by {
      assert Pow2(28) == 0x1000_0000;
    }
  }

  /** `index <<= SA_KEY_BITS` on a 32-bit unsigned index: the top key falls off. */
  function Shift(index: Index): (r: Index)
    ensures r % 256 == 0 && r / 256 == index % 0x100_0000
  {
    (index * 256) % IndexRange
  }

  /** `(index & SA_KEY_MASK) >> SA_KEY_MASK_SHIFT`: the key of the current level. */
  function KeyOf(index: Index): (r: Key)
    ensures r * 0x100_0000 <= index < (r + 1) * 0x100_0000
  {
    index / 0x100_0000
  }

  /**
   * The keys of the top `level` levels of an index, as the number they
   * spell: the `index` argument sparse_iter_r receives at that level.
   */
  function Prefix(index: Index, level: nat): Index
    requires level <= Levels
  {
    if level == 0 then 0
    else if level == 1 then index / 0x100_0000
    else if level == 2 then index / 0x1_0000
    else if level == 3 then index / 0x100
    else index
  }

  /** The key an index selects at `level`: the low key of its prefix one level down. */
  function KeyAt(index: Index, level: nat): Key
    requires level < Levels
  {
    Prefix(index, level + 1) % 256
  }

  /** The keys of an index, one per level, most significant first. */
  function Address(index: Index): (a: seq<Key>)
    ensures |a| == Levels
  {
    [KeyAt(index, 0), KeyAt(index, 1), KeyAt(index, 2), KeyAt(index, 3)]
  }

  /** The index a sequence of keys spells, most significant first. */
  function Join(keys: seq<Key>): nat
  {
    if |keys| == 0 then 0 else Join(keys[..|keys| - 1]) * 256 + keys[|keys| - 1]
  }

  /** Joining the keys of an index gives the index back. */
  lemma JoinAddress(index: Index)
    ensures Join(Address(index)) == index
  {
    var a := Address(index);
    assert a[..4] == a && a[..4][..3] == a[..3] && a[..3][..2] == a[..2] && a[..2][..1] == a[..1];
    assert a[..1][..0] == [];
    PrefixStep(index, 0);
    PrefixStep(index, 1);
    PrefixStep(index, 2);
    PrefixStep(index, 3);
    assert Join(a[..1]) == Prefix(index, 1);
    assert Join(a[..2]) == Prefix(index, 2);
    assert Join(a[..3]) == Prefix(index, 3);
  }

  /** The prefix one level down is the prefix shifted left by one key, plus that level's key. */
  lemma PrefixStep(index: Index, level: nat)
    requires level < Levels
    ensures Prefix(index, level + 1) == Prefix(index, level) * 256 + KeyAt(index, level)
  {
    var x := Prefix(index, level + 1);
    assert Prefix(index, level) == x / 256;
  }

  /** Splitting the number four keys spell gives the keys back. */
  lemma AddressJoin(a: seq<Key>)
    requires |a| == Levels
    ensures Join(a) < IndexRange && Address(Join(a)) == a
  {
    JoinFour(a);
    KeysOfNumber(a[0], a[1], a[2], a[3]);
  }

  lemma JoinFour(a: seq<Key>)
    requires |a| == Levels
    ensures Join(a) == ((a[0] as int * 256 + a[1]) * 256 + a[2]) * 256 + a[3]
  {
    assert a[..4] == a && a[..4][..3] == a[..3] && a[..3][..2] == a[..2] && a[..2][..1] == a[..1];
    assert a[..1][..0] == [];
    assert Join(a[..1]) == a[0];
    assert Join(a[..2]) == a[0] as int * 256 + a[1];
  }

  lemma KeysOfNumber(k0: Key, k1: Key, k2: Key, k3: Key)
    ensures var x := ((k0 as int * 256 + k1) * 256 + k2) * 256 + k3;
      x < IndexRange && Address(x) == [k0, k1, k2, k3]
  {
    var x2 := k0 as int * 256 + k1;
    var x3 := x2 * 256 + k2;
    var x := x3 * 256 + k3;
    SplitAt256(k0, k1);
    SplitAt256(x2, k2);
    SplitAt256(x3, k3);
    assert x == x2 * 0x1_0000 + (k2 * 256 + k3);
    SplitAt65536(x2, k2 * 256 + k3);
    assert x == k0 * 0x100_0000 + (k1 * 0x1_0000 + k2 * 256 + k3);
    SplitAt2p24(k0, k1 * 0x1_0000 + k2 * 256 + k3);
  }

  lemma SplitAt256(hi: nat, lo: nat)
    requires lo < 0x100
    ensures (hi * 0x100 + lo) / 0x100 == hi && (hi * 0x100 + lo) % 0x100 == lo
  {
  }

  lemma SplitAt65536(hi: nat, lo: nat)
    requires lo < 0x1_0000
    ensures (hi * 0x1_0000 + lo) / 0x1_0000 == hi
  {
  }

  lemma SplitAt2p24(hi: nat, lo: nat)
    requires lo < 0x100_0000
    ensures (hi * 0x100_0000 + lo) / 0x100_0000 == hi
  {
  }

  /** Distinct indices have distinct addresses. */
  lemma AddressInjective(i: Index, j: Index)
    requires Address(i) == Address(j)
    ensures i == j
  {
    JoinAddress(i);
    JoinAddress(j);
  }

  /** The worked example of the header comment: element[0xdeadbeef] sits at branches 0xde, 0xad, 0xbe, 0xef. */
  lemma DeadBeef()
    ensures Address(0xdead_beef) == [0xde, 0xad, 0xbe, 0xef]
  {
  }

  /**
   * One pass of the loop of sparse_get_addr takes the top key and shifts it
   * out: the keys of what is left are the rest of the address.
   */
  lemma AddressStep(index: Index, n: nat)
    requires n < Levels
    ensures [KeyOf(index)] + Address(Shift(index))[..n] == Address(index)[..n + 1]
  {
    var a, b := Address(Shift(index)), Address(index);
    ShiftKeys(index);
    assert a[0] == b[1] && a[1] == b[2] && a[2] == b[3];
  }

  /** Shifting an index left by one key moves each of its lower keys up one level. */
  lemma ShiftKeys(index: Index)
    ensures KeyAt(Shift(index), 0) == KeyAt(index, 1)
    ensures KeyAt(Shift(index), 1) == KeyAt(index, 2)
    ensures KeyAt(Shift(index), 2) == KeyAt(index, 3)
  {
    var r := index % 0x100_0000;
    ShiftDropsTop(index);
    ScaledKeys(r);
    LowKeys(index);
  }

  lemma ShiftDropsTop(index: Index)
    ensures Shift(index) == (index % 0x100_0000) * 256
  {
    var q, r := index / 0x100_0000, index % 0x100_0000;
    assert index * 256 == q * IndexRange + r * 256;
  }

  lemma ScaledKeys(r: nat)
    requires r < 0x100_0000
    ensures (r * 256) / 0x100_0000 == r / 0x1_0000
    ensures (r * 256) / 0x1_0000 == r / 0x100
    ensures (r * 256) / 0x100 == r
  {
  }

  lemma LowKeys(index: Index)
    ensures (index / 0x1_0000) % 256 == (index % 0x100_0000) / 0x1_0000
    ensures (index / 0x100) % 256 == ((index % 0x100_0000) / 0x100) % 256
    ensures index % 256 == (index % 0x100_0000) % 256
  {
    var q, r := index / 0x100_0000, index % 0x100_0000;
    var h, l := r / 0x1_0000, r % 0x1_0000;
    var m, n := r / 0x100, r % 0x100;
    assert index == (q * 256 + h) * 0x1_0000 + l;
    SplitAt65536(q * 256 + h, l);
    SplitAt256(q, h);
    assert index == (q * 0x1_0000 + m) * 0x100 + n;
    SplitAt256(q * 0x1_0000 + m, n);
    assert q * 0x1_0000 + m == (q * 0x100 + m / 0x100) * 0x100 + m % 0x100;
    SplitAt256(q * 0x100 + m / 0x100, m % 0x100);
    assert index == (q * 0x1_0000 + r / 0x100) * 0x100 + r % 0x100;
  }

  /** i spells no more than `level` keys. */
  predicate Fits(i: Index, level: nat)
    requires level <= Levels
  {
    if level == 0 then i == 0
    else if level == 1 then i < 0x100
    else if level == 2 then i < 0x1_0000
    else if level == 3 then i < 0x100_0000
    else true
  }

  /**
   * Below the last level, shifting an index that spells `level` keys by one
   * key never wraps, and adding a key gives one that spells `level + 1`.
   */
  lemma ShiftFits(index: Index, level: nat, key: Key)
    requires level < Levels && Fits(index, level)
    ensures Shift(index) == index * 256 && Fits(index * 256 + key, level + 1)
  {
  }

  /** A shifted index has a clear low key, so or-ing a key into it adds the key. */
  lemma ShiftClearsLowKey(index: Index)
    ensures Shift(index) % 256 == 0
  {
    ShiftDropsTop(index);
  }

  /**
   * The index sparse_iter_r hands one level down, `(index << 8) | key`, is
   * the prefix of exactly those indices whose prefix one level up is
   * `index` and whose key at this level is `key`.
   */
  lemma Decompose(j: Index, level: nat, index: Index, key: Key)
    requires level < Levels && Fits(index, level)
    ensures Prefix(j, level + 1) == index * 256 + key <==> Prefix(j, level) == index && KeyAt(j, level) == key
  {
    assert Prefix(j, level) == Prefix(j, level + 1) / 256;
  }

  /** The offset at `level` of an index's address is its key there. */
  lemma AddressAt(j: Index, level: nat)
    requires level < Levels
    ensures Address(j)[level] == KeyAt(j, level)
  {
  }

  /**
   * Indices that share their keys above `level` and differ at it are
   * ordered as those keys are: visiting keys in ascending order visits
   * indices in ascending order.
   */
  lemma KeyOrder(i: Index, j: Index, level: nat)
    requires level < Levels && Prefix(i, level) == Prefix(j, level) && KeyAt(i, level) < KeyAt(j, level)
    ensures i < j
  {
    var x, y := Prefix(i, level + 1), Prefix(j, level + 1);
    assert Prefix(i, level) == x / 256 && Prefix(j, level) == y / 256;
    assert x < y;
  }

  /** The prefix of every index at level 0 is 0: sparse_iter starts from there. */
  lemma PrefixTop(j: Index)
    ensures Prefix(j, 0) == 0 && Prefix(j, Levels) == j
  {
  }
}
