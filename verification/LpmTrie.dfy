/**
  The longest-prefix-match trie. The heap of nodes is described by one flat ghost map from bit
  paths to nodes; what the trie stores is described by the list of all insertions so far.
  `lookup` is proved to give the answer of a linear scan over that list.
 */
module Lpm {
  import opened Wrappers
  import opened Address

  // ---------------------------------------------------------------- the simple form

  datatype Hit<T> = Hit(len: nat, value: T)

  ghost predicate AllValid<T>(s: seq<(Cidr, T)>) {
    forall i | 0 <= i < |s| :: ValidCidr(s[i].0)
  }

  /** One pass over the insertions, keeping the longest covering prefix, later ones winning ties. */
  ghost function Scan<T>(s: seq<(Cidr, T)>, a: IpAddr): Option<Hit<T>>
    requires AllValid(s)
  {
    if s == [] then None
    else
      var best := Scan(s[..|s| - 1], a);
      var (c, v) := s[|s| - 1];
      if Covers(c, a) && (best.None? || best.value.len <= c.prefixLen) then Some(Hit(c.prefixLen, v)) else best
  }

  function ValueOf<T>(h: Option<Hit<T>>): Option<T> {
    match h
    case Some(hit) => Some(hit.value)
    case None => None
  }

  /** `i` is the longest, and among those the most recent, insertion that covers `a`. */
  ghost predicate IsLongestMatch<T>(s: seq<(Cidr, T)>, a: IpAddr, i: nat)
    requires AllValid(s) && i < |s|
  {
    && Covers(s[i].0, a)
    && (forall j | 0 <= j < |s| && Covers(s[j].0, a) :: s[j].0.prefixLen <= s[i].0.prefixLen)
    && (forall j | i < j < |s| && Covers(s[j].0, a) :: s[j].0.prefixLen < s[i].0.prefixLen)
  }

  lemma LongestMatchGrows<T>(s: seq<(Cidr, T)>, a: IpAddr, i: nat)
    requires AllValid(s) && s != [] && i < |s| - 1
    requires IsLongestMatch(s[..|s| - 1], a, i)
    requires Covers(s[|s| - 1].0, a) ==> s[|s| - 1].0.prefixLen < s[i].0.prefixLen
    ensures IsLongestMatch(s, a, i)
  {
    assert forall j | 0 <= j < |s| - 1 :: s[..|s| - 1][j] == s[j];
  }

  lemma LastIsLongestMatch<T>(s: seq<(Cidr, T)>, a: IpAddr, i: nat)
    requires AllValid(s) && s != [] && Covers(s[|s| - 1].0, a) && i < |s| - 1
    requires IsLongestMatch(s[..|s| - 1], a, i) && s[i].0.prefixLen <= s[|s| - 1].0.prefixLen
    ensures IsLongestMatch(s, a, |s| - 1)
  {
    assert forall j | 0 <= j < |s| - 1 :: s[..|s| - 1][j] == s[j];
  }

  lemma NextLongestMatch<T>(s: seq<(Cidr, T)>, a: IpAddr, i: nat)
    requires AllValid(s) && s != [] && i < |s| - 1 && IsLongestMatch(s[..|s| - 1], a, i)
    requires Scan(s[..|s| - 1], a) == Some(Hit(s[i].0.prefixLen, s[i].1))
    ensures Scan(s, a).Some? && exists k: nat | k < |s| ::
              IsLongestMatch(s, a, k) && Scan(s, a).value == Hit(s[k].0.prefixLen, s[k].1)
  {
    if Covers(s[|s| - 1].0, a) && s[i].0.prefixLen <= s[|s| - 1].0.prefixLen {
      LastIsLongestMatch(s, a, i);
    } else {
      LongestMatchGrows(s, a, i);
    }
  }

  /** The scan means longest match: its hit is the longest, most recent covering insertion. */
  lemma {:induction false} ScanIsLongestMatch<T>(s: seq<(Cidr, T)>, a: IpAddr)
    requires AllValid(s)
    ensures Scan(s, a).None? <==> forall j | 0 <= j < |s| :: !Covers(s[j].0, a)
    ensures Scan(s, a).Some? ==> exists i: nat | i < |s| ::
              IsLongestMatch(s, a, i) && Scan(s, a).value == Hit(s[i].0.prefixLen, s[i].1)
  {
    if s != [] {
      var last := |s| - 1;
      ScanIsLongestMatch(s[..last], a);
      assert forall j | 0 <= j < last :: s[..last][j] == s[j];
      if Scan(s[..last], a).Some? {
        var i: nat :| i < last && IsLongestMatch(s[..last], a, i)
                      && Scan(s[..last], a).value == Hit(s[..last][i].0.prefixLen, s[..last][i].1);
        NextLongestMatch(s, a, i);
      } else if Covers(s[last].0, a) {
        assert IsLongestMatch(s, a, last);
      }
    }
  }

  /** There is only one such insertion. */
  lemma LongestMatchIsUnique<T>(s: seq<(Cidr, T)>, a: IpAddr, i: nat, j: nat)
    requires AllValid(s) && i < |s| && j < |s| && IsLongestMatch(s, a, i) && IsLongestMatch(s, a, j)
    ensures i == j
  {
  }

  /** An insertion changes no answer outside what it covers, in particular none in the other family. */
  lemma InsertChangesOnlyCovered<T>(s: seq<(Cidr, T)>, c: Cidr, v: T, a: IpAddr)
    requires AllValid(s) && ValidCidr(c)
    ensures AllValid(s + [(c, v)])
    ensures Scan(s + [(c, v)], a) != Scan(s, a) ==> Covers(c, a) && c.addr.family == a.family
  {
    assert (s + [(c, v)])[..|s|] == s;
  }

  lemma OthersAnswerAsBefore<T>(s: seq<(Cidr, T)>, c: Cidr, v: T)
    requires AllValid(s) && ValidCidr(c)
    ensures AllValid(s + [(c, v)])
    ensures forall a :: !Covers(c, a) ==> ValueOf(Scan(s + [(c, v)], a)) == ValueOf(Scan(s, a))
  {
    forall a | !Covers(c, a)
      ensures ValueOf(Scan(s + [(c, v)], a)) == ValueOf(Scan(s, a))
    {
      InsertChangesOnlyCovered(s, c, v, a);
    }
  }

  // ---------------------------------------------------------------- what is stored at a path

  /** A path from a root: the bits taken so far, the latest one outermost. */
  datatype Path = Top | Step(up: Path, bit: bool)

  datatype Key = Key(family: Family, path: Path)

  function Length(p: Path): nat {
    match p
    case Top => 0
    case Step(up, _) => 1 + Length(up)
  }

  function PathOf(bits: seq<bool>, n: nat): (p: Path)
    requires n <= |bits|
    ensures Length(p) == n
  {
    if n == 0 then Top else Step(PathOf(bits, n - 1), bits[n - 1])
  }

  /** All the bits of an address. */
  function Bits(a: IpAddr): (bits: seq<bool>)
    ensures |bits| == MaxBits(a.family)
  {
    Prefix(a, MaxBits(a.family))
  }

  function KeyOf(c: Cidr): Key
    requires ValidCidr(c)
  {
    Key(c.addr.family, PathOf(Bits(c.addr), c.prefixLen))
  }

  function Child(k: Key, b: bool): Key {
    Key(k.family, Step(k.path, b))
  }

  function Parent(k: Key): Key
    requires k.path != Top
  {
    Key(k.family, k.path.up)
  }

  lemma {:induction false} SamePath(p: seq<bool>, q: seq<bool>, n: nat)
    requires n <= |p| && n <= |q|
    ensures PathOf(p, n) == PathOf(q, n) <==> p[..n] == q[..n]
  {
    if n > 0 {
      SamePath(p, q, n - 1);
      assert p[..n] == p[..n - 1] + [p[n - 1]];
      assert q[..n] == q[..n - 1] + [q[n - 1]];
    }
  }

  /** The insertions that cover an address are those whose key lies on the address's path. */
  lemma CoversIsOnPath(c: Cidr, a: IpAddr, n: nat)
    requires ValidCidr(c) && n <= MaxBits(a.family)
    ensures KeyOf(c) == Key(a.family, PathOf(Bits(a), n)) <==> Covers(c, a) && c.prefixLen == n
  {
    if c.prefixLen == n && c.addr.family == a.family {
      SamePath(Bits(c.addr), Bits(a), n);
      PrefixExtends(c.addr, MaxBits(a.family), n);
      PrefixExtends(a, MaxBits(a.family), n);
    }
  }

  /** Two prefixes of the same length that cover the same address are the same prefix, host bits aside. */
  lemma SameLengthSameKey(c: Cidr, d: Cidr, a: IpAddr)
    requires ValidCidr(c) && ValidCidr(d) && Covers(c, a) && Covers(d, a) && c.prefixLen == d.prefixLen
    ensures KeyOf(c) == KeyOf(d)
  {
    CoversIsOnPath(c, a, c.prefixLen);
    CoversIsOnPath(d, a, c.prefixLen);
  }

  /**
    The order of two insertions matters only for the same prefix; then the later one replaces the
    earlier one altogether, even if their host bits differ.
   */
  lemma InsertsCommuteOrReplace<T>(s: seq<(Cidr, T)>, c: Cidr, v: T, d: Cidr, w: T, a: IpAddr)
    requires AllValid(s) && ValidCidr(c) && ValidCidr(d)
    ensures AllValid(s + [(c, v), (d, w)]) && AllValid(s + [(d, w), (c, v)]) && AllValid(s + [(d, w)])
    ensures KeyOf(c) != KeyOf(d) ==> Scan(s + [(c, v), (d, w)], a) == Scan(s + [(d, w), (c, v)], a)
    ensures KeyOf(c) == KeyOf(d) ==> Scan(s + [(c, v), (d, w)], a) == Scan(s + [(d, w)], a)
  {
    assert (s + [(c, v), (d, w)])[..|s| + 1] == s + [(c, v)] && (s + [(d, w), (c, v)])[..|s| + 1] == s + [(d, w)];
    assert (s + [(c, v)])[..|s|] == s && (s + [(d, w)])[..|s|] == s;
    if Covers(c, a) && Covers(d, a) && c.prefixLen == d.prefixLen {
      SameLengthSameKey(c, d, a);
    }
    if KeyOf(c) == KeyOf(d) && c.prefixLen <= MaxBits(a.family) {
      CoversIsOnPath(c, a, c.prefixLen);
      CoversIsOnPath(d, a, c.prefixLen);
    }
  }

  /** The value most recently inserted with exactly this prefix. */
  ghost function Latest<T>(s: seq<(Cidr, T)>, k: Key): Option<T>
    requires AllValid(s)
  {
    if s == [] then None
    else if KeyOf(s[|s| - 1].0) == k then Some(s[|s| - 1].1)
    else Latest(s[..|s| - 1], k)
  }

  /** The longest stored prefix of the bits that is shorter than `n` bits. */
  ghost function BestBelow<T>(s: seq<(Cidr, T)>, f: Family, bits: seq<bool>, n: nat): Option<Hit<T>>
    requires AllValid(s) && n <= |bits| + 1
  {
    if n == 0 then None
    else
      match Latest(s, Key(f, PathOf(bits, n - 1)))
      case Some(v) => Some(Hit(n - 1, v))
      case None => BestBelow(s, f, bits, n - 1)
  }

  lemma LatestAfterInsert<T>(s: seq<(Cidr, T)>, c: Cidr, v: T, k: Key)
    requires AllValid(s) && ValidCidr(c)
    ensures AllValid(s + [(c, v)])
    ensures Latest(s + [(c, v)], k) == if KeyOf(c) == k then Some(v) else Latest(s, k)
  {
    assert (s + [(c, v)])[..|s|] == s;
  }

  lemma {:induction false} BestBelowIsShort<T>(s: seq<(Cidr, T)>, f: Family, bits: seq<bool>, n: nat)
    requires AllValid(s) && n <= |bits| + 1
    ensures BestBelow(s, f, bits, n).Some? ==> BestBelow(s, f, bits, n).value.len < n
  {
    if n > 0 {
      BestBelowIsShort(s, f, bits, n - 1);
    }
  }

  lemma {:induction false} BestBelowAfterInsert<T>(s: seq<(Cidr, T)>, c: Cidr, v: T, a: IpAddr, n: nat)
    requires AllValid(s) && AllValid(s + [(c, v)]) && ValidCidr(c) && n <= MaxBits(a.family) + 1
    ensures BestBelow(s + [(c, v)], a.family, Bits(a), n) ==
            var best := BestBelow(s, a.family, Bits(a), n);
            if Covers(c, a) && c.prefixLen < n && (best.None? || best.value.len <= c.prefixLen)
            then Some(Hit(c.prefixLen, v)) else best
  {
    if n > 0 {
      BestBelowAfterInsert(s, c, v, a, n - 1);
      LatestAfterInsert(s, c, v, Key(a.family, PathOf(Bits(a), n - 1)));
      CoversIsOnPath(c, a, n - 1);
      BestBelowIsShort(s, a.family, Bits(a), n - 1);
    }
  }

  /** Probing every prefix length of the address gives the answer of the linear scan. */
  lemma {:induction false} BestBelowIsScan<T>(s: seq<(Cidr, T)>, a: IpAddr)
    requires AllValid(s)
    ensures BestBelow(s, a.family, Bits(a), MaxBits(a.family) + 1) == Scan(s, a)
  {
    if s == [] {
      NothingStored<T>(a.family, Bits(a), MaxBits(a.family) + 1);
    } else {
      var init := s[..|s| - 1];
      BestBelowIsScan(init, a);
      var (c, v) := s[|s| - 1];
      assert init + [(c, v)] == s;
      BestBelowAfterInsert(init, c, v, a, MaxBits(a.family) + 1);
    }
  }

  lemma {:induction false} NothingStored<T>(f: Family, bits: seq<bool>, n: nat)
    requires n <= |bits| + 1
    ensures BestBelow<T>([], f, bits, n) == None
  {
    if n > 0 {
      NothingStored<T>(f, bits, n - 1);
    }
  }

  // ---------------------------------------------------------------- the heap

  class Node<T(0)> {
    var left: Node?<T>
    var right: Node?<T>
    var value: T
    var hasValue: bool
    ghost const key: Key  // the one path at which the node hangs

    constructor (ghost k: Key)
      ensures left == null && right == null && !hasValue && key == k
    {
      key := k;
      left, right := null, null;
      value, hasValue := *, false;
    }
  }

  /** What a `Node**` of the source points at: a root field or a child field of a node. */
  datatype Slot<T(0)> = Root(family: Family) | Link(node: Node<T>, right: bool)

  /** A finite tree: closed under taking parents, and no deeper than the address is long. */
  ghost predicate TreePaths(ks: set<Key>) {
    && (forall k {:trigger Parent(k)} | k in ks && k.path != Top :: Parent(k) in ks)
    && (forall k | k in ks :: Length(k.path) <= MaxBits(k.family))
  }

  lemma TreePathsGrow(ks: set<Key>, k: Key)
    requires TreePaths(ks) && Length(k.path) <= MaxBits(k.family) && (k.path == Top || Parent(k) in ks)
    ensures TreePaths(ks + {k})
  {
  }

  /** `now` is `was` with nodes added only on the path from the root to `k`. */
  ghost predicate GrownAlong<T(0)>(was: map<Key, Node<T>>, now: map<Key, Node<T>>, k: Key) {
    && (forall l | l in was :: l in now && now[l] == was[l])
    && (forall l | l in now && l !in was :: Extends(k, l))
  }

  lemma GrowStep<T(0)>(was: map<Key, Node<T>>, mid: map<Key, Node<T>>, top: Key, k: Key, n: Node<T>)
    requires GrownAlong(was, mid, top) && Extends(top, k) && (k in mid ==> mid[k] == n)
    ensures GrownAlong(was, mid[k := n], top)
  {
  }

  lemma AddedTwice<N>(was: set<N>, mid: set<N>, now: set<N>)
    ensures now - was <= (now - mid) + (mid - was)
  {
  }

  ghost predicate Extends(l: Key, k: Key)
    decreases l.path
  {
    l == k || (l.path != Top && Extends(Parent(l), k))
  }

  lemma {:induction false} PathExtends(f: Family, bits: seq<bool>, n: nat, m: nat)
    requires m <= n <= |bits|
    ensures Extends(Key(f, PathOf(bits, n)), Key(f, PathOf(bits, m)))
  {
    if m < n {
      PathExtends(f, bits, n - 1, m);
    }
  }

  class LpmTrie<T(0)> {
    var rootV4: Node?<T>
    var rootV6: Node?<T>
    ghost var nodes: map<Key, Node<T>>
    ghost var inserted: seq<(Cidr, T)>
    ghost var freed: seq<Node<T>>

    ghost function At(k: Key): Node?<T>
      reads this
    {
      if k in nodes then nodes[k] else null
    }

    /** The child fields of the node at path `k` are the nodes one bit further down. */
    ghost predicate NodeLinked(k: Key, n: Node<T>)
      reads this, n
    {
      n.key == k && n.left == At(Child(k, false)) && n.right == At(Child(k, true))
    }

    /** The two roots and the child fields are exactly the map `nodes`: a binary tree per family. */
    ghost predicate Linked()
      reads this, nodes.Values
    {
      && rootV4 == At(Key(V4, Top)) && rootV6 == At(Key(V6, Top))
      && (forall k {:trigger NodeLinked(k, nodes[k])} | k in nodes :: NodeLinked(k, nodes[k]))
      && TreePaths(nodes.Keys)
    }

    /** No node hangs at two places: the subtrees of a node, and the trees of the families, are disjoint. */
    lemma OneNodePerPath(k: Key, l: Key)
      requires Linked() && k in nodes && l in nodes && nodes[k] == nodes[l]
      ensures k == l && Length(k.path) <= if k.family == V4 then 32 else 128
    {
      assert NodeLinked(k, nodes[k]) && NodeLinked(l, nodes[l]);
    }

    ghost predicate NodeStored(k: Key, n: Node<T>)
      requires AllValid(inserted)
      reads this, n
    {
      Latest(inserted, k) == if n.hasValue then Some(n.value) else None
    }

    /** Every node holds exactly the latest value inserted with its path, and no value lacks a node. */
    ghost predicate Stored()
      reads this, nodes.Values
    {
      && AllValid(inserted)
      && (forall k {:trigger NodeStored(k, nodes[k])} | k in nodes :: NodeStored(k, nodes[k]))
      && (forall k | Latest(inserted, k).Some? :: k in nodes)
    }

    ghost predicate Valid()
      reads this, nodes.Values
    {
      Linked() && Stored() && freed == []
    }

    constructor ()
      ensures Valid() && inserted == [] && nodes == map[]
    {
      rootV4, rootV6 := null, null;
      nodes, inserted, freed := map[], [], [];
    }

    // -------------------------------------------------------------- slots

    ghost predicate SlotFor(slot: Slot<T>, k: Key)
      reads this
    {
      match slot
      case Root(f) => k == Key(f, Top)
      case Link(n, r) => k.path != Top && Parent(k) in nodes && nodes[Parent(k)] == n && k == Child(Parent(k), r)
    }

    function Deref(slot: Slot<T>): Node?<T>
      reads this, match slot case Root(_) => {} case Link(n, _) => {n}
    {
      match slot
      case Root(f) => if f == V4 then rootV4 else rootV6
      case Link(n, r) => if r then n.right else n.left
    }

    lemma DerefIsAt(slot: Slot<T>, k: Key)
      requires Linked() && SlotFor(slot, k)
      ensures Deref(slot) == At(k)
    {
      if slot.Link? {
        assert NodeLinked(Parent(k), nodes[Parent(k)]);
      }
    }

    method Assign(slot: Slot<T>, n: Node?<T>)
      modifies match slot case Root(_) => {this as object} case Link(m, _) => {m as object}
      ensures Deref(slot) == n
      ensures slot.Root? ==> nodes == old(nodes) && inserted == old(inserted) && freed == old(freed)
      ensures slot == Root(V4) ==> rootV6 == old(rootV6)
      ensures slot == Root(V6) ==> rootV4 == old(rootV4)
      ensures slot.Link? ==> slot.node.value == old(slot.node.value) && slot.node.hasValue == old(slot.node.hasValue)
      ensures slot.Link? && slot.right ==> slot.node.left == old(slot.node.left)
      ensures slot.Link? && !slot.right ==> slot.node.right == old(slot.node.right)
    {
      match slot {
        case Root(f) => if f == V4 { rootV4 := n; } else { rootV6 := n; }
        case Link(m, r) => if r { m.right := n; } else { m.left := n; }
      }
    }

    /** Allocates the missing node of a slot. */
    method Attach(slot: Slot<T>, ghost k: Key) returns (n: Node<T>)
      requires Linked() && SlotFor(slot, k) && k !in nodes && Length(k.path) <= MaxBits(k.family)
      modifies this, nodes.Values
      ensures Linked() && fresh(n) && nodes == old(nodes)[k := n] && Deref(slot) == n
      ensures inserted == old(inserted) && freed == old(freed) && !n.hasValue
      ensures forall l {:trigger old(nodes)[l]} | l in old(nodes) ::
                old(nodes)[l].hasValue == old(nodes[l].hasValue) && old(nodes)[l].value == old(nodes[l].value)
    {
      if slot.Link? {
        assert NodeLinked(Parent(k), slot.node);
      }
      n := new Node<T>(k);
      Assign(slot, n);
      TreePathsGrow(nodes.Keys, k);
      assert Child(k, false) !in nodes by { assert Parent(Child(k, false)) == k; }
      assert Child(k, true) !in nodes by { assert Parent(Child(k, true)) == k; }
      nodes := nodes[k := n];
      assert nodes.Keys == old(nodes.Keys) + {k};
      forall l {:trigger NodeLinked(l, nodes[l])} | l in nodes
        ensures NodeLinked(l, nodes[l])
      {
        if l != k {
          assert old(NodeLinked(l, nodes[l]));
        }
      }
    }

    /** The node of a slot, allocated if it is missing; what the trie stores is unchanged. */
    method Ensure(slot: Slot<T>, ghost k: Key) returns (n: Node<T>)
      requires Valid() && SlotFor(slot, k) && Length(k.path) <= MaxBits(k.family)
      modifies this, nodes.Values
      ensures Valid() && inserted == old(inserted)
      ensures nodes == old(nodes)[k := n] && (k in old(nodes) ==> nodes == old(nodes))
      ensures fresh(nodes.Values - old(nodes.Values)) && |nodes| <= |old(nodes)| + 1
    {
      DerefIsAt(slot, k);
      if Deref(slot) == null {
        var m := Attach(slot, k);
        forall l {:trigger NodeStored(l, nodes[l])} | l in nodes
          ensures NodeStored(l, nodes[l])
        {
          if l != k {
            assert old(NodeStored(l, nodes[l]));
          }
        }
      }
      n := Deref(slot);
    }

    // -------------------------------------------------------------- operations

    /** `LpmTrie::insert`. */
    method Insert(c: Cidr, value: T)
      requires Valid() && ValidCidr(c)
      modifies this, nodes.Values
      ensures Valid() && inserted == old(inserted) + [(c, value)]
      ensures fresh(nodes.Values - old(nodes.Values))
      ensures |nodes| <= |old(nodes)| + c.prefixLen + 1
      ensures GrownAlong(old(nodes), nodes, KeyOf(c))
      // what `Lookup` answers changes only for addresses that `c` covers
      ensures forall a :: !Covers(c, a) ==> ValueOf(Scan(inserted, a)) == ValueOf(Scan(old(inserted), a))
    {
      var n := Reach(c);
      Put(n, c, value);
      OthersAnswerAsBefore(old(inserted), c, value);
    }

    /** The node of a prefix, allocated with what is missing above it. */
    method Reach(c: Cidr) returns (n: Node<T>)
      requires Valid() && ValidCidr(c)
      modifies this, nodes.Values
      ensures Valid() && inserted == old(inserted) && KeyOf(c) in nodes && nodes[KeyOf(c)] == n
      ensures fresh(nodes.Values - old(nodes.Values))
      ensures |nodes| <= |old(nodes)| + c.prefixLen + 1
      ensures GrownAlong(old(nodes), nodes, KeyOf(c))
    {
      var slot := Descend(c);
      ghost var mid := nodes;
      n := Ensure(slot, KeyOf(c));
      GrowStep(old(nodes), mid, KeyOf(c), KeyOf(c), n);
      AddedTwice(old(nodes.Values), mid.Values, nodes.Values);
    }

    /** One turn of the loop of `insert`. */
    method StepDown(slot: Slot<T>, ghost k: Key, b: bool) returns (next: Slot<T>)
      requires Valid() && SlotFor(slot, k) && Length(k.path) <= MaxBits(k.family)
      modifies this, nodes.Values
      ensures Valid() && inserted == old(inserted) && SlotFor(next, Child(k, b))
      ensures k in nodes && nodes == old(nodes)[k := nodes[k]] && (k in old(nodes) ==> nodes == old(nodes))
      ensures fresh(nodes.Values - old(nodes.Values)) && |nodes| <= |old(nodes)| + 1
    {
      var n := Ensure(slot, k);
      next := Link(n, b);
    }

    /** The same, at bit `bit` of a prefix: the slot of the next bit, with the trie grown only on the path. */
    method StepDownPrefix(slot: Slot<T>, c: Cidr, bit: nat, ghost was: map<Key, Node<T>>) returns (next: Slot<T>)
      requires Valid() && ValidCidr(c) && bit < c.prefixLen
      requires SlotFor(slot, Key(c.addr.family, PathOf(Bits(c.addr), bit))) && GrownAlong(was, nodes, KeyOf(c))
      modifies this, nodes.Values
      ensures Valid() && inserted == old(inserted)
      ensures SlotFor(next, Key(c.addr.family, PathOf(Bits(c.addr), bit + 1))) && GrownAlong(was, nodes, KeyOf(c))
      ensures fresh(nodes.Values - old(nodes.Values)) && |nodes| <= |old(nodes)| + 1
    {
      ghost var k := Key(c.addr.family, PathOf(Bits(c.addr), bit));
      PathExtends(c.addr.family, Bits(c.addr), c.prefixLen, bit);
      ghost var mid := nodes;
      var b := BitOf(c.addr, bit);
      assert Bits(c.addr)[bit] == b;
      next := StepDown(slot, k, b);
      GrowStep(was, mid, KeyOf(c), k, nodes[k]);
    }

    /** The loop of `insert`: down the bits of the prefix, allocating what is missing on the way. */
    method Descend(c: Cidr) returns (slot: Slot<T>)
      requires Valid() && ValidCidr(c)
      modifies this, nodes.Values
      ensures Valid() && inserted == old(inserted) && SlotFor(slot, KeyOf(c))
      ensures fresh(nodes.Values - old(nodes.Values))
      ensures |nodes| <= |old(nodes)| + c.prefixLen
      ensures GrownAlong(old(nodes), nodes, KeyOf(c))
    {
      slot := Root(c.addr.family);
      var bit := 0;
      while bit < c.prefixLen
        invariant bit <= c.prefixLen && SlotFor(slot, Key(c.addr.family, PathOf(Bits(c.addr), bit)))
        invariant Valid() && inserted == old(inserted)
        invariant |nodes| <= |old(nodes)| + bit
        invariant fresh(nodes.Values - old(nodes.Values))
        invariant GrownAlong(old(nodes), nodes, KeyOf(c))
      {
        ghost var mid := nodes.Values;
        slot := StepDownPrefix(slot, c, bit, old(nodes));
        AddedTwice(old(nodes.Values), mid, nodes.Values);
        bit := bit + 1;
      }
    }

    /** The two assignments that end `insert`. */
    method Put(n: Node<T>, c: Cidr, value: T)
      requires Valid() && ValidCidr(c) && KeyOf(c) in nodes && nodes[KeyOf(c)] == n
      modifies this`inserted, n
      ensures Valid() && inserted == old(inserted) + [(c, value)]
    {
      assert NodeLinked(KeyOf(c), n);
      n.value := value;
      n.hasValue := true;
      inserted := inserted + [(c, value)];
      assert inserted[..|inserted| - 1] == old(inserted);
      forall l {:trigger NodeLinked(l, nodes[l])} {:trigger NodeStored(l, nodes[l])} | l in nodes
        ensures NodeLinked(l, nodes[l]) && NodeStored(l, nodes[l])
      {
        assert old(NodeLinked(l, nodes[l]));
        assert old(NodeStored(l, nodes[l]));
      }
    }

    lemma {:induction false} MissingBelow(f: Family, bits: seq<bool>, bit: nat, n: nat)
      requires Valid() && bit <= n <= |bits| + 1 && bit <= |bits|
      requires Key(f, PathOf(bits, bit)) !in nodes
      ensures BestBelow(inserted, f, bits, n) == BestBelow(inserted, f, bits, bit)
      ensures n <= |bits| ==> Key(f, PathOf(bits, n)) !in nodes
    {
      if bit < n {
        MissingBelow(f, bits, bit, n - 1);
        if n <= |bits| {
          assert Parent(Key(f, PathOf(bits, n))) == Key(f, PathOf(bits, n - 1));
        }
      }
    }

    /** `LpmTrie::lookup`: the value of the longest, most recent insertion that covers the address. */
    method Lookup(a: IpAddr) returns (best: Option<T>)
      requires Valid()
      ensures best.None? <==> forall j | 0 <= j < |inserted| :: !Covers(inserted[j].0, a)
      ensures best.Some? ==> exists i: nat | i < |inserted| :: IsLongestMatch(inserted, a, i) && best.value == inserted[i].1
      ensures best == ValueOf(Scan(inserted, a))
    {
      var cur := if a.family == V4 then rootV4 else rootV6;
      best := None;
      var maxBits := MaxBits(a.family);
      var bit := 0;
      while cur != null && bit <= maxBits
        invariant bit <= maxBits && cur == At(Key(a.family, PathOf(Bits(a), bit)))
        invariant best == ValueOf(BestBelow(inserted, a.family, Bits(a), bit))
        decreases maxBits - bit
      {
        ghost var k := Key(a.family, PathOf(Bits(a), bit));
        assert NodeLinked(k, nodes[k]) && NodeStored(k, nodes[k]);
        if cur.hasValue {
          best := Some(cur.value);
        }
        if bit == maxBits {
          break;
        }
        cur := if BitOf(a, bit) then cur.right else cur.left;
        bit := bit + 1;
      }
      if cur == null {
        MissingBelow(a.family, Bits(a), bit, maxBits + 1);
      }
      BestBelowIsScan(inserted, a);
      ScanIsLongestMatch(inserted, a);
    }

    // -------------------------------------------------------------- destruction

    /** What `freed` may hold: no node twice, none before a node below it, and none whose path is still in use. */
    ghost predicate FreedOnce()
      reads this
    {
      NoRepeats(freed) && ChildrenFirst(freed) && AllGone(freed, nodes.Keys)
    }

    /** `delete n; n = nullptr`, for the childless node at path `k`; no node may be deleted twice. */
    method Delete(slot: Slot<T>, n: Node<T>, ghost k: Key)
      requires Linked() && FreedOnce() && SlotFor(slot, k) && k in nodes && nodes[k] == n
      requires Child(k, false) !in nodes && Child(k, true) !in nodes
      modifies this, nodes.Values
      ensures Linked() && FreedOnce() && nodes == old(nodes) - {k} && Deref(slot) == null
      ensures freed == old(freed) + [n] && old(nodes.Values) == nodes.Values + {n}
    {
      assert NodeLinked(k, n);
      if slot.Link? {
        assert NodeLinked(Parent(k), slot.node);
      }
      assert n in nodes.Values;
      forall l | l in nodes && l != k
        ensures nodes[l] != n
      {
        assert NodeLinked(l, nodes[l]);
      }
      FreeMore(freed, nodes.Keys, n);
      freed := freed + [n];
      Assign(slot, null);
      ghost var was := nodes;
      nodes := nodes - {k};
      assert was == nodes[k := n] && nodes.Values <= was.Values;
      forall l {:trigger NodeLinked(l, nodes[l])} | l in nodes
        ensures NodeLinked(l, nodes[l])
      {
        assert old(NodeLinked(l, nodes[l]));
      }
      forall l {:trigger Parent(l)} | l in nodes && l.path != Top
        ensures Parent(l) in nodes
      {
        assert l == Child(Parent(l), l.path.bit);
      }
    }

    /** `LpmTrie::destroy`: frees the subtree of a slot, children first, and nulls the slot. */
    method Destroy(slot: Slot<T>, ghost k: Key)
      requires Linked() && FreedOnce() && SlotFor(slot, k) && Length(k.path) <= MaxBits(k.family) + 1
      modifies this, nodes.Values
      ensures Linked() && FreedOnce() && Deref(slot) == null
      ensures nodes == Outside(old(nodes), k)
      ensures Elements(freed) + nodes.Values == Elements(old(freed)) + old(nodes.Values)
      decreases MaxBits(k.family) + 1 - Length(k.path)
    {
      DerefIsAt(slot, k);
      var n := Deref(slot);
      if n == null {
        NothingBelow(nodes, k);
        return;
      }
      assert NodeLinked(k, n);
      ghost var all := nodes;
      NotBelowOwnChild(k, false);
      NotBelowOwnChild(k, true);
      Destroy(Link(n, false), Child(k, false));
      Destroy(Link(n, true), Child(k, true));
      ChildrenGone(all, k);
      Delete(slot, n, k);
    }

    /** `~LpmTrie`: every node is freed exactly once, both roots are null, and none is left. */
    method DestroyAll()
      requires Valid()
      modifies this, nodes.Values
      ensures rootV4 == null && rootV6 == null && nodes == map[]
      ensures NoRepeats(freed) && Elements(freed) == old(nodes.Values) && ChildrenFirst(freed)
    {
      NothingOutsideRoots(nodes);
      Destroy(Root(V4), Key(V4, Top));
      Destroy(Root(V6), Key(V6, Top));
    }
  }

  ghost predicate NoRepeats<T>(s: seq<T>) {
    forall i, j | 0 <= i < j < |s| :: s[i] != s[j]
  }

  /** No node is freed after one that its path passes through. */
  ghost predicate ChildrenFirst<T(0)>(freed: seq<Node<T>>) {
    forall i, j | 0 <= i < j < |freed| :: !Extends(freed[j].key, freed[i].key)
  }

  ghost predicate AllGone<T(0)>(freed: seq<Node<T>>, ks: set<Key>) {
    forall i | 0 <= i < |freed| :: freed[i].key !in ks
  }

  /** A node of the tree may be freed next: nothing it hangs below was freed before. */
  lemma FreeMore<T(0)>(freed: seq<Node<T>>, ks: set<Key>, n: Node<T>)
    requires TreePaths(ks) && n.key in ks && NoRepeats(freed) && ChildrenFirst(freed) && AllGone(freed, ks)
    ensures NoRepeats(freed + [n]) && ChildrenFirst(freed + [n]) && AllGone(freed + [n], ks - {n.key})
  {
    forall i | 0 <= i < |freed|
      ensures !Extends(n.key, freed[i].key)
    {
      if Extends(n.key, freed[i].key) {
        NothingBelowKey(ks, freed[i].key, n.key);
      }
    }
  }

  ghost function Elements<T>(s: seq<T>): set<T> {
    set x | x in s
  }

  ghost function Outside<N>(m: map<Key, N>, k: Key): map<Key, N> {
    map l | l in m && !Extends(l, k) :: m[l]
  }

  lemma NothingOutsideRoots<N>(m: map<Key, N>)
    ensures Outside(Outside(m, Key(V4, Top)), Key(V6, Top)) == map[]
  {
    forall l | l in m
      ensures Extends(l, Key(V4, Top)) || Extends(l, Key(V6, Top))
    {
      BelowRoot(l);
      assert l.family == V4 || l.family == V6;
    }
  }

  lemma {:induction false} NothingBelowKey(ks: set<Key>, k: Key, l: Key)
    requires TreePaths(ks) && k !in ks && Extends(l, k)
    ensures l !in ks
    decreases l.path
  {
    if l != k {
      NothingBelowKey(ks, k, Parent(l));
    }
  }

  lemma NothingBelow<N>(m: map<Key, N>, k: Key)
    requires TreePaths(m.Keys) && k !in m
    ensures Outside(m, k) == m
  {
    forall l | l in m
      ensures !Extends(l, k)
    {
      if Extends(l, k) {
        NothingBelowKey(m.Keys, k, l);
      }
    }
  }

  /** Once both child subtrees are gone, the node itself is all that is left below its path. */
  lemma ChildrenGone<N>(m: map<Key, N>, k: Key)
    requires k in m
    ensures var rest := Outside(Outside(m, Child(k, false)), Child(k, true));
            k in rest && rest[k] == m[k] && Outside(m, k) == rest - {k}
            && Child(k, false) !in rest && Child(k, true) !in rest
  {
    var rest := Outside(Outside(m, Child(k, false)), Child(k, true));
    NotBelowOwnChild(k, false);
    NotBelowOwnChild(k, true);
    forall l | l in m
      ensures Extends(l, k) <==> l == k || Extends(l, Child(k, false)) || Extends(l, Child(k, true))
    {
      BelowSplits(l, k);
    }
    assert Outside(m, k) == rest - {k};
  }

  lemma {:induction false} BelowSplits(l: Key, k: Key)
    ensures Extends(l, k) <==> l == k || Extends(l, Child(k, false)) || Extends(l, Child(k, true))
    decreases l.path
  {
    if l != k && l.path != Top {
      BelowSplits(Parent(l), k);
      if Parent(l) == k {
        assert l == Child(k, l.path.bit);
      }
    }
  }

  lemma {:induction false} LongerBelow(l: Key, k: Key)
    requires Extends(l, k)
    ensures Length(k.path) <= Length(l.path) && l.family == k.family
    decreases l.path
  {
    if l != k {
      LongerBelow(Parent(l), k);
    }
  }

  lemma NotBelowOwnChild(k: Key, b: bool)
    ensures !Extends(k, Child(k, b))
  {
    if Extends(k, Child(k, b)) {
      LongerBelow(k, Child(k, b));
    }
  }

  lemma {:induction false} BelowRoot(l: Key)
    ensures Extends(l, Key(l.family, Top))
    decreases l.path
  {
    if l.path != Top {
      BelowRoot(Parent(l));
    }
  }
}
