/**
 * The wc++ sparse array (sparse_array.c): a tree of pointer tables, one
 * level per key of the index. sparse_get_addr grows the path to an element
 * on demand; sparse_iter visits the non-zero elements in ascending index
 * order. The tree is a value here: an operation that grows or writes it
 * returns the new tree.
 */
module SparseArray {
  import opened SparseKeys

  /** A pointer-sized element; 0 is NULL. */
  type Element = nat

  /**
   * A struct sparse_array pointer: NULL, or a node whose SA_KEYS branches
   * lead one level down. The nodes of the last level are the storage
   * itself, so their branches are the elements.
   */
  datatype Trie = Null | Node(branches: seq<Trie>) | Leaf(slots: seq<Element>)

  /** t is a well-shaped subtree whose root sits at `level`. */
  predicate Valid(t: Trie, level: nat)
    decreases t
  {
    match t
    case Null => level < Levels
    case Node(bs) => level < Levels - 1 && |bs| == Keys && forall k | 0 <= k < |bs| :: Valid(bs[k], level + 1)
    case Leaf(slots) => level == Levels - 1 && |slots| == Keys
  }

  /** The element at key path p below t; a NULL branch on the way means 0. */
  function GetAt(t: Trie, level: nat, p: seq<Key>): Element
    requires Valid(t, level) && |p| == Levels - level
    decreases t
  {
    match t
    case Null => 0
    case Node(bs) => GetAt(bs[p[0]], level + 1, p[1..])
    case Leaf(slots) => slots[p[0]]
  }

  /** element[index] of the array the root stands for. */
  function Get(root: Trie, index: Index): Element
    requires Valid(root, 0)
  {
    GetAt(root, 0, Address(index))
  }

  /** Every node on key path p below t exists, down to the leaf that holds the element. */
  predicate Reaches(t: Trie, level: nat, p: seq<Key>)
    requires Valid(t, level) && |p| == Levels - level
    decreases t
  {
    match t
    case Null => false
    case Node(bs) => Reaches(bs[p[0]], level + 1, p[1..])
    case Leaf(_) => true
  }

  /** calloc(1, sizeof (struct sparse_array)) at `level`: a node whose branches are all NULL. */
  function Calloc(level: nat): (t: Trie)
    requires level < Levels
    ensures Valid(t, level) && t != Null
    ensures forall p | |p| == Levels - level :: GetAt(t, level, p) == 0
  {
    if level == Levels - 1 then Leaf(seq(Keys, _ => 0)) else Node(seq(Keys, _ => Null))
  }

  /**
   * One pass of the loop of sparse_get_addr from `level` down, with the
   * index already shifted by the keys of the levels above: allocate the node
   * if the pointer is NULL, take the top key, shift it out, go down. The
   * result is the grown subtree and the key path of the element's address.
   */
  function GetAddrFrom(t: Trie, level: nat, index: Index): (r: (Trie, seq<Key>))
    requires level < Levels && Valid(t, level)
    ensures r.0 != Null && Valid(r.0, level) && |r.1| == Levels - level
    ensures r.1 == Address(index)[..Levels - level]
    ensures Reaches(r.0, level, r.1)
    ensures forall p | |p| == Levels - level :: GetAt(r.0, level, p) == GetAt(t, level, p)
    decreases Levels - level
  {
    var sap := if t == Null then Calloc(level) else t;
    var key := KeyOf(index);
    if level == Levels - 1 then
      AddressStep(index, 0);
      (sap, [key])
    else
      var down := GetAddrFrom(sap.branches[key], level + 1, Shift(index));
      AddressStep(index, Levels - level - 1);
      GrowKeepsElements(sap, level, key, down.0);
      (Node(sap.branches[key := down.0]), [key] + down.1)
  }

  /** Replacing one branch by a subtree holding the same elements changes no element. */
  lemma GrowKeepsElements(sap: Trie, level: nat, key: Key, child: Trie)
    requires level < Levels - 1 && Valid(sap, level) && sap.Node?
    requires Valid(child, level + 1)
    requires forall p | |p| == Levels - level - 1 :: GetAt(child, level + 1, p) == GetAt(sap.branches[key], level + 1, p)
    ensures Valid(Node(sap.branches[key := child]), level)
    ensures forall p | |p| == Levels - level :: GetAt(Node(sap.branches[key := child]), level, p) == GetAt(sap, level, p)
  {
    var t := Node(sap.branches[key := child]);
    forall p | |p| == Levels - level
      ensures GetAt(t, level, p) == GetAt(sap, level, p)
    {
      if p[0] == key {
        assert GetAt(child, level + 1, p[1..]) == GetAt(sap.branches[key], level + 1, p[1..]);
      }
    }
  }

  /**
   * sparse_get_addr(&root, index): the root is allocated if NULL, the path
   * to element[index] exists afterwards, the address is the index's key
   * path, and no element changes.
   */
  function GetAddr(root: Trie, index: Index): (r: (Trie, seq<Key>))
    requires Valid(root, 0)
    ensures r.0 != Null && Valid(r.0, 0)
    ensures r.1 == Address(index) && Reaches(r.0, 0, r.1)
    ensures forall j: Index :: Get(r.0, j) == Get(root, j)
  {
    var r := GetAddrFrom(root, 0, index);
    TakeAll(Address(index));
    r
  }

  lemma TakeAll<T>(s: seq<T>)
    ensures s[..|s|] == s
  {
  }

  /** Storing v through the address p: the element at p becomes v. */
  function Store(t: Trie, level: nat, p: seq<Key>, v: Element): (r: Trie)
    requires Valid(t, level) && |p| == Levels - level && Reaches(t, level, p)
    ensures Valid(r, level) && Reaches(r, level, p)
    ensures forall q | |q| == Levels - level :: GetAt(r, level, q) == if q == p then v else GetAt(t, level, q)
    decreases t
  {
    if t.Leaf? then
      Leaf(t.slots[p[0] := v])
    else
      var child := Store(t.branches[p[0]], level + 1, p[1..], v);
      StoreBranch(t, level, p, v, child);
      Node(t.branches[p[0] := child])
  }

  lemma StoreBranch(t: Trie, level: nat, p: seq<Key>, v: Element, child: Trie)
    requires level < Levels - 1 && Valid(t, level) && t.Node? && |p| == Levels - level
    requires Valid(child, level + 1)
    requires forall q | |q| == Levels - level - 1 ::
      GetAt(child, level + 1, q) == if q == p[1..] then v else GetAt(t.branches[p[0]], level + 1, q)
    ensures Valid(Node(t.branches[p[0] := child]), level)
    ensures forall q | |q| == Levels - level ::
      GetAt(Node(t.branches[p[0] := child]), level, q) == if q == p then v else GetAt(t, level, q)
  {
    var r := Node(t.branches[p[0] := child]);
    forall q | |q| == Levels - level
      ensures GetAt(r, level, q) == if q == p then v else GetAt(t, level, q)
    {
      if q[0] == p[0] {
        assert q == p <==> q[1..] == p[1..] by {
          if q[1..] == p[1..] {
            assert q == [q[0]] + q[1..] && p == [p[0]] + p[1..];
          }
        }
      }
    }
  }

  /**
   * Map-update semantics of `*sparse_get_addr(&root, i) = v`: element[i]
   * becomes v and every other element keeps its value.
   */
  lemma StoreThroughAddr(root: Trie, i: Index, v: Element)
    requires Valid(root, 0)
    ensures var (t, a) := GetAddr(root, i);
      forall j: Index :: Get(Store(t, 0, a, v), j) == if j == i then v else Get(root, j)
  {
    var (t, a) := GetAddr(root, i);
    forall j: Index
      ensures Get(Store(t, 0, a, v), j) == if j == i then v else Get(root, j)
    {
      if Address(j) == Address(i) {
        AddressInjective(i, j);
      }
    }
  }

  /** The index and the element sparse_iter hands its callback for one non-NULL element. */
  datatype Entry = Entry(index: Index, value: Element)

  /** `index | key` for an index whose low key is clear: the key lands in the low bits. */
  function Or(index: Index, key: Key): Index
    requires index % 256 == 0
  {
    index + key
  }

  /** The element of index j below t, for a subtree at `level`. */
  function Below(t: Trie, level: nat, j: Index): Element
    requires level < Levels && Valid(t, level)
  {
    GetAt(t, level, Address(j)[level..])
  }

  /**
   * sparse_iter_r(sap, f, arg, level, index): the calls to f it makes, in
   * order. `index` holds the keys of the levels above; it is shifted by one
   * key before the loop over this node's branches.
   */
  function IterR(t: Trie, level: nat, index: Index): (r: seq<Entry>)
    requires Valid(t, level) && t != Null
    ensures forall k | 0 <= k < |r| :: r[k].value != 0
    decreases t, 1
  {
    ShiftClearsLowKey(index);
    IterKeys(t, level, Shift(index), 0)
  }

  /** The loop of sparse_iter_r, from `key` on. */
  function IterKeys(t: Trie, level: nat, index: Index, key: nat): (r: seq<Entry>)
    requires Valid(t, level) && t != Null && index % 256 == 0 && key <= Keys
    ensures forall k | 0 <= k < |r| :: r[k].value != 0
    decreases t, 0, Keys - key
  {
    if key == Keys then [] else Visit(t, level, index, key) + IterKeys(t, level, index, key + 1)
  }

  /**
   * One pass of that loop: nothing for a NULL branch, the callback at the
   * last level, the recursion above it.
   */
  function Visit(t: Trie, level: nat, index: Index, key: Key): (r: seq<Entry>)
    requires Valid(t, level) && t != Null && index % 256 == 0
    ensures level == Levels - 1 ==> |r| <= 1
    ensures forall k | 0 <= k < |r| :: r[k].value != 0
    decreases t, 0, 0
  {
    if level == Levels - 1 then
      if t.slots[key] == 0 then [] else [Entry(Or(index, key), t.slots[key])]
    else if t.branches[key] == Null then []
    else IterR(t.branches[key], level + 1, Or(index, key))
  }

  /** sparse_iter(sap, f, arg): nothing for an empty array. */
  function Iter(root: Trie): (r: seq<Entry>)
    requires Valid(root, 0)
    ensures root == Null ==> r == []
    ensures forall k | 0 <= k < |r| :: r[k].value != 0
  {
    if root == Null then [] else IterR(root, 0, 0)
  }

  ghost predicate Ascending(es: seq<Entry>)
  {
    forall a, b | 0 <= a < b < |es| :: es[a].index < es[b].index
  }

  /** Going down one level below a node follows the branch of j's key there. */
  lemma BelowStep(t: Trie, level: nat, j: Index)
    requires level < Levels - 1 && Valid(t, level) && t.Node?
    ensures Below(t, level, j) == Below(t.branches[KeyAt(j, level)], level + 1, j)
  {
    var a := Address(j);
    AddressAt(j, level);
    assert a[level..][0] == a[level] && a[level..][1..] == a[level + 1..];
  }

  /** At the last level the element is the slot of j's last key. */
  lemma BelowLeaf(t: Trie, j: Index)
    requires Valid(t, Levels - 1) && t.Leaf?
    ensures Below(t, Levels - 1, j) == t.slots[KeyAt(j, Levels - 1)]
  {
    AddressAt(j, Levels - 1);
  }

  /** The entries of one pass: this level's key is `key`, and each value is the element of its index. */
  lemma {:induction false} VisitSound(t: Trie, level: nat, index: Index, key: Key)
    requires Valid(t, level) && t != Null && level < Levels && Fits(index, level)
    ensures forall e | e in Visit(t, level, index * 256, key) ::
      Prefix(e.index, level) == index && KeyAt(e.index, level) == key && e.value != 0 && e.value == Below(t, level, e.index)
    decreases t, 0, 0
  {
    ShiftFits(index, level, key);
    var es := Visit(t, level, index * 256, key);
    forall e | e in es
      ensures Prefix(e.index, level) == index && KeyAt(e.index, level) == key && e.value != 0 && e.value == Below(t, level, e.index)
    {
      Decompose(e.index, level, index, key);
      if level == Levels - 1 {
        BelowLeaf(t, e.index);
      } else {
        IterRSound(t.branches[key], level + 1, index * 256 + key);
        BelowStep(t, level, e.index);
      }
    }
  }

  lemma {:induction false} IterKeysSound(t: Trie, level: nat, index: Index, key: nat)
    requires Valid(t, level) && t != Null && level < Levels && Fits(index, level) && key <= Keys
    ensures forall e | e in IterKeys(t, level, index * 256, key) ::
      Prefix(e.index, level) == index && KeyAt(e.index, level) >= key && e.value != 0 && e.value == Below(t, level, e.index)
    decreases t, 0, Keys - key
  {
    if key < Keys {
      VisitSound(t, level, index, key);
      IterKeysSound(t, level, index, key + 1);
    }
  }

  /** Every call sparse_iter_r makes is for an index below it and hands over that index's non-NULL element. */
  lemma {:induction false} IterRSound(t: Trie, level: nat, index: Index)
    requires Valid(t, level) && t != Null && level < Levels && Fits(index, level)
    ensures forall e | e in IterR(t, level, index) ::
      Prefix(e.index, level) == index && e.value != 0 && e.value == Below(t, level, e.index)
    decreases t, 1
  {
    ShiftFits(index, level, 0);
    IterKeysSound(t, level, index, 0);
  }

  lemma {:induction false} VisitComplete(t: Trie, level: nat, index: Index, key: Key)
    requires Valid(t, level) && t != Null && level < Levels && Fits(index, level)
    ensures forall j: Index | Prefix(j, level) == index && KeyAt(j, level) == key && Below(t, level, j) != 0 ::
      Entry(j, Below(t, level, j)) in Visit(t, level, index * 256, key)
    decreases t, 0, 0
  {
    ShiftFits(index, level, key);
    forall j: Index | Prefix(j, level) == index && KeyAt(j, level) == key && Below(t, level, j) != 0
      ensures Entry(j, Below(t, level, j)) in Visit(t, level, index * 256, key)
    {
      Decompose(j, level, index, key);
      if level == Levels - 1 {
        BelowLeaf(t, j);
      } else {
        BelowStep(t, level, j);
        IterRComplete(t.branches[key], level + 1, index * 256 + key);
      }
    }
  }

  lemma {:induction false} IterKeysComplete(t: Trie, level: nat, index: Index, key: nat)
    requires Valid(t, level) && t != Null && level < Levels && Fits(index, level) && key <= Keys
    ensures forall j: Index | Prefix(j, level) == index && KeyAt(j, level) >= key && Below(t, level, j) != 0 ::
      Entry(j, Below(t, level, j)) in IterKeys(t, level, index * 256, key)
    decreases t, 0, Keys - key
  {
    if key < Keys {
      VisitComplete(t, level, index, key);
      IterKeysComplete(t, level, index, key + 1);
    }
  }

  /** sparse_iter_r calls f for every non-NULL element below it. */
  lemma {:induction false} IterRComplete(t: Trie, level: nat, index: Index)
    requires Valid(t, level) && t != Null && level < Levels && Fits(index, level)
    ensures forall j: Index | Prefix(j, level) == index && Below(t, level, j) != 0 ::
      Entry(j, Below(t, level, j)) in IterR(t, level, index)
    decreases t, 1
  {
    ShiftFits(index, level, 0);
    IterKeysComplete(t, level, index, 0);
  }

  lemma AscendingConcat(x: seq<Entry>, y: seq<Entry>)
    requires Ascending(x) && Ascending(y)
    requires forall e, f | e in x && f in y :: e.index < f.index
    ensures Ascending(x + y)
  {
    var z := x + y;
    forall a, b | 0 <= a < b < |z|
      ensures z[a].index < z[b].index
    {
      if a < |x| && b >= |x| {
        assert z[a] in x && z[b] in y;
      }
    }
  }

  lemma {:induction false} VisitAscending(t: Trie, level: nat, index: Index, key: Key)
    requires Valid(t, level) && t != Null && level < Levels && Fits(index, level)
    ensures Ascending(Visit(t, level, index * 256, key))
    decreases t, 0, 0
  {
    ShiftFits(index, level, key);
    if level < Levels - 1 && t.branches[key] != Null {
      IterRAscending(t.branches[key], level + 1, index * 256 + key);
    }
  }

  lemma {:induction false} IterKeysAscending(t: Trie, level: nat, index: Index, key: nat)
    requires Valid(t, level) && t != Null && level < Levels && Fits(index, level) && key <= Keys
    ensures Ascending(IterKeys(t, level, index * 256, key))
    decreases t, 0, Keys - key
  {
    if key < Keys {
      var here, rest := Visit(t, level, index * 256, key), IterKeys(t, level, index * 256, key + 1);
      VisitAscending(t, level, index, key);
      IterKeysAscending(t, level, index, key + 1);
      VisitSound(t, level, index, key);
      IterKeysSound(t, level, index, key + 1);
      forall e, f | e in here && f in rest
        ensures e.index < f.index
      {
        KeyOrder(e.index, f.index, level);
      }
      AscendingConcat(here, rest);
    }
  }

  /** sparse_iter_r visits indices in strictly ascending order. */
  lemma {:induction false} IterRAscending(t: Trie, level: nat, index: Index)
    requires Valid(t, level) && t != Null && level < Levels && Fits(index, level)
    ensures Ascending(IterR(t, level, index))
    decreases t, 1
  {
    ShiftFits(index, level, 0);
    IterKeysAscending(t, level, index, 0);
  }

  /**
   * sparse_iter calls f exactly once for every non-NULL element, with its
   * index and value, in strictly ascending index order.
   */
  lemma IterExact(root: Trie)
    requires Valid(root, 0)
    ensures Ascending(Iter(root))
    ensures forall e | e in Iter(root) :: e.value != 0 && Get(root, e.index) == e.value
    ensures forall j: Index :: Get(root, j) != 0 ==> Entry(j, Get(root, j)) in Iter(root)
  {
    forall j: Index
      ensures Get(root, j) == Below(root, 0, j) && Prefix(j, 0) == 0
    {
      DropNone(Address(j));
    }
    if root != Null {
      IterRSound(root, 0, 0);
      IterRComplete(root, 0, 0);
      IterRAscending(root, 0, 0);
    }
  }

  lemma DropNone<T>(s: seq<T>)
    ensures s[0..] == s
  {
  }

  /** The indices of the non-NULL elements. */
  ghost function Occupied(root: Trie): set<Index>
    requires Valid(root, 0)
  {
    set j: Index | 0 <= j < IndexRange && Get(root, j) != 0
  }

  ghost function Indices(es: seq<Entry>): set<Index>
  {
    set e | e in es :: e.index
  }

  /** Entries in strictly ascending order name as many indices as there are entries. */
  lemma {:induction false} AscendingDistinct(es: seq<Entry>)
    requires Ascending(es)
    ensures |Indices(es)| == |es|
  {
    if es != [] {
      var n := |es| - 1;
      var init := es[..n];
      assert Ascending(init);
      AscendingDistinct(init);
      assert Indices(es) == Indices(init) + {es[n].index};
      assert es[n].index !in Indices(init) by {
        forall e | e in init
          ensures e.index < es[n].index
        {
          var a :| 0 <= a < n && init[a] == e;
        }
      }
    }
  }

  /** sparse_iter makes one call per non-NULL element. */
  lemma IterCount(root: Trie)
    requires Valid(root, 0)
    ensures |Iter(root)| == |Occupied(root)|
  {
    IterExact(root);
    AscendingDistinct(Iter(root));
    assert Indices(Iter(root)) == Occupied(root);
  }

  /** The sum of all elements below t. */
  function Total(t: Trie, level: nat): nat
    requires Valid(t, level)
    decreases t, 1
  {
    if t == Null then 0 else TotalFrom(t, level, 0)
  }

  /** The sum of the elements under the branches `from` and after. */
  function TotalFrom(t: Trie, level: nat, from: nat): nat
    requires Valid(t, level) && t != Null && from <= Keys
    decreases t, 0, Keys - from
  {
    if from == Keys then 0 else Weight(t, level, from) + TotalFrom(t, level, from + 1)
  }

  /** The sum of the elements under one branch. */
  function Weight(t: Trie, level: nat, key: Key): nat
    requires Valid(t, level) && t != Null
    decreases t, 0, 0
  {
    if t.Leaf? then t.slots[key] else Total(t.branches[key], level + 1)
  }

  function Sum(es: seq<Entry>): nat
  {
    if es == [] then 0 else Sum(es[..|es| - 1]) + es[|es| - 1].value
  }

  lemma {:induction false} SumConcat(x: seq<Entry>, y: seq<Entry>)
    ensures Sum(x + y) == Sum(x) + Sum(y)
    decreases |y|
  {
    if y != [] {
      var n := |y| - 1;
      assert (x + y)[..|x + y| - 1] == x + y[..n];
      SumConcat(x, y[..n]);
    } else {
      assert x + y == x;
    }
  }

  /**
   * Changing the weight of at most one branch, k0, by d changes the total
   * of the branches from `from` on by d if k0 is among them.
   */
  lemma {:induction false} TotalFromChange(t: Trie, u: Trie, level: nat, from: nat, k0: Key, d: int)
    requires Valid(t, level) && t != Null && Valid(u, level) && u != Null && from <= Keys
    requires forall k: Key | k != k0 :: Weight(u, level, k) == Weight(t, level, k)
    requires Weight(u, level, k0) == Weight(t, level, k0) + d
    ensures TotalFrom(u, level, from) == TotalFrom(t, level, from) + (if from <= k0 then d else 0)
    decreases Keys - from
  {
    if from < Keys {
      TotalFromChange(t, u, level, from + 1, k0, d);
    }
  }

  lemma {:induction false} TotalFromZero(t: Trie, level: nat, from: nat)
    requires Valid(t, level) && t != Null && from <= Keys
    requires forall k: Key :: Weight(t, level, k) == 0
    ensures TotalFrom(t, level, from) == 0
    decreases Keys - from
  {
    if from < Keys {
      TotalFromZero(t, level, from + 1);
    }
  }

  /** A freshly allocated node holds nothing. */
  lemma CallocTotal(level: nat)
    requires level < Levels
    ensures Total(Calloc(level), level) == 0
  {
    TotalFromZero(Calloc(level), level, 0);
  }

  /** Growing the path to an element adds nothing to the total. */
  lemma {:induction false} GetAddrFromTotal(t: Trie, level: nat, index: Index)
    requires level < Levels && Valid(t, level)
    ensures Total(GetAddrFrom(t, level, index).0, level) == Total(t, level)
    decreases Levels - level
  {
    var sap := if t == Null then Calloc(level) else t;
    CallocTotal(level);
    if level < Levels - 1 {
      var key := KeyOf(index);
      var down := GetAddrFrom(sap.branches[key], level + 1, Shift(index));
      GetAddrFromTotal(sap.branches[key], level + 1, Shift(index));
      GrowTotal(sap, level, key, down.0);
    }
  }

  lemma GrowTotal(sap: Trie, level: nat, key: Key, child: Trie)
    requires level < Levels - 1 && Valid(sap, level) && sap.Node? && Valid(child, level + 1)
    requires Total(child, level + 1) == Total(sap.branches[key], level + 1)
    ensures Valid(Node(sap.branches[key := child]), level)
    ensures Total(Node(sap.branches[key := child]), level) == Total(sap, level)
  {
    TotalFromChange(sap, Node(sap.branches[key := child]), level, 0, key, 0);
  }

  /** Storing v over an element changes the total by the difference. */
  lemma {:induction false} StoreTotal(t: Trie, level: nat, p: seq<Key>, v: Element)
    requires Valid(t, level) && |p| == Levels - level && Reaches(t, level, p)
    ensures Total(Store(t, level, p, v), level) + GetAt(t, level, p) == Total(t, level) + v
    decreases t
  {
    var u := Store(t, level, p, v);
    if t.Leaf? {
      TotalFromChange(t, u, level, 0, p[0], v - t.slots[p[0]]);
    } else {
      var child := t.branches[p[0]];
      StoreTotal(child, level + 1, p[1..], v);
      TotalFromChange(t, u, level, 0, p[0], v - GetAt(child, level + 1, p[1..]));
    }
  }

  lemma {:induction false} VisitSum(t: Trie, level: nat, index: Index, key: Key)
    requires Valid(t, level) && t != Null && index % 256 == 0
    ensures Sum(Visit(t, level, index, key)) == Weight(t, level, key)
    decreases t, 0, 0
  {
    if level < Levels - 1 && t.branches[key] != Null {
      IterRSum(t.branches[key], level + 1, Or(index, key));
    } else {
      assert Sum([]) == 0;
    }
  }

  lemma {:induction false} IterKeysSum(t: Trie, level: nat, index: Index, key: nat)
    requires Valid(t, level) && t != Null && index % 256 == 0 && key <= Keys
    ensures Sum(IterKeys(t, level, index, key)) == TotalFrom(t, level, key)
    decreases t, 0, Keys - key
  {
    if key < Keys {
      VisitSum(t, level, index, key);
      IterKeysSum(t, level, index, key + 1);
      SumConcat(Visit(t, level, index, key), IterKeys(t, level, index, key + 1));
    }
  }

  /** The values sparse_iter_r hands over add up to the total below it. */
  lemma {:induction false} IterRSum(t: Trie, level: nat, index: Index)
    requires Valid(t, level) && t != Null
    ensures Sum(IterR(t, level, index)) == Total(t, level)
    decreases t, 1
  {
    ShiftClearsLowKey(index);
    IterKeysSum(t, level, Shift(index), 0);
  }

  /** The values sparse_iter hands over add up to the total of the array. */
  lemma IterSum(root: Trie)
    requires Valid(root, 0)
    ensures Sum(Iter(root)) == Total(root, 0)
  {
    if root != Null {
      IterRSum(root, 0, 0);
    }
  }

  /** Where the path to the element exists already, sparse_get_addr allocates nothing. */
  lemma {:induction false} GetAddrFromExisting(t: Trie, level: nat, index: Index)
    requires level < Levels && Valid(t, level) && Reaches(t, level, Address(index)[..Levels - level])
    ensures GetAddrFrom(t, level, index).0 == t
    decreases Levels - level
  {
    if level < Levels - 1 {
      var n := Levels - level - 1;
      var a := Address(index)[..n + 1];
      AddressStep(index, n);
      assert a[0] == KeyOf(index) && a[1..] == Address(Shift(index))[..n];
      GetAddrFromExisting(t.branches[KeyOf(index)], level + 1, Shift(index));
      assert t.branches[KeyOf(index) := t.branches[KeyOf(index)]] == t.branches;
    }
  }

  /**
   * Asking again for the same index allocates nothing more and yields the
   * same slot.
   */
  lemma GetAddrIdempotent(root: Trie, index: Index)
    requires Valid(root, 0)
    ensures GetAddr(GetAddr(root, index).0, index) == GetAddr(root, index)
  {
    var r := GetAddr(root, index);
    TakeAll(Address(index));
    GetAddrFromExisting(r.0, 0, index);
  }

  /** sparse_get_addr leaves the sum of the elements as it was. */
  lemma GetAddrTotal(root: Trie, index: Index)
    requires Valid(root, 0)
    ensures Total(GetAddr(root, index).0, 0) == Total(root, 0)
  {
    GetAddrFromTotal(root, 0, index);
  }

  /** A NULL root is a valid array of zero elements, over which sparse_iter calls nothing. */
  lemma EmptyArray()
    ensures Valid(Null, 0) && Iter(Null) == [] && Total(Null, 0) == 0
    ensures forall j: Index :: Get(Null, j) == 0
  {
  }
}
