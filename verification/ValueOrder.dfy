/** Value::operator< and operator== on trees without doubles. */
module ValueOrder {
  import opened ByteStrings
  import opened Values

  /** The numeric value of the ValueType tag. */
  function TypeTag(v: Value): nat
  {
    match v
    case Null => 0 case Int(_) => 1 case UInt(_) => 2 case Real(_) => 3
    case Str(_) => 4 case Bool(_) => 5 case Arr(_) => 6 case Obj(_) => 7
  }

  /** Value::operator<. */
  function Less(a: Value, b: Value): bool
    requires RealFree(a) && RealFree(b)
    decreases Size(a) + Size(b), 0
  {
    if TypeTag(a) != TypeTag(b) then TypeTag(a) < TypeTag(b)
    else match a
      case Null => false
      case Int(i) => i < b.i
      case UInt(u) => u < b.u
      case Str(s) => BytesLess(s, b.s)
      case Bool(x) => !x && b.b
      case Arr(m) => if |m| != |b.elems| then |m| < |b.elems| else MapLess(m, b.elems)
      case Obj(m) => if |m| != |b.members| then |m| < |b.members| else MapLess(m, b.members)
  }

  /** std::pair's operator< on two map entries. */
  function PairLess(p: Member, q: Member): bool
    requires RealFree(p.val) && RealFree(q.val)
    decreases Size(p.val) + Size(q.val), 1
  {
    KeyLess(p.key, q.key) || (!KeyLess(q.key, p.key) && Less(p.val, q.val))
  }

  /** std::lexicographical_compare over two maps. */
  function MapLess(m: seq<Member>, n: seq<Member>): bool
    requires AllRealFree(m) && AllRealFree(n)
    decreases MapSize(m) + MapSize(n), 2
  {
    if n == [] then false
    else if m == [] then true
    else if PairLess(m[0], n[0]) then true
    else if PairLess(n[0], m[0]) then false
    else MapLess(m[1..], n[1..])
  }

  /** Value::operator==. */
  function Equal(a: Value, b: Value): bool
    requires RealFree(a) && RealFree(b)
    decreases Size(a), 0
  {
    TypeTag(a) == TypeTag(b)
    && match a
       case Null => true
       case Int(i) => i == b.i
       case UInt(u) => u == b.u
       case Str(s) => |s| == |b.s| && Memcmp(s, b.s) == 0
       case Bool(x) => x == b.b
       case Arr(m) => |m| == |b.elems| && MapEqual(m, b.elems)
       case Obj(m) => |m| == |b.members| && MapEqual(m, b.members)
  }

  /** CZString::operator==. */
  function KeyEqual(k: Key, l: Key): bool
  {
    match (k, l)
    case (Index(i), Index(j)) => i == j
    case (Name(s), Name(t)) => |s| == |t| && Memcmp(s, t) == 0
    case _ => false
  }

  /** std::equal over two maps of the same size. */
  function MapEqual(m: seq<Member>, n: seq<Member>): bool
    requires AllRealFree(m) && AllRealFree(n) && |m| == |n|
    decreases MapSize(m), 1
  {
    m == [] || (KeyEqual(m[0].key, n[0].key) && Equal(m[0].val, n[0].val) && MapEqual(m[1..], n[1..]))
  }

  // ---------------------------------------------------------------- equality

  lemma {:induction false} MemcmpZero(a: bytes, b: bytes)
    requires |a| == |b|
    ensures Memcmp(a, b) == 0 <==> a == b
  {
    if a != [] {
      MemcmpZero(a[1..], b[1..]);
      assert a == [a[0]] + a[1..] && b == [b[0]] + b[1..];
    }
  }

  /** operator== is equality of trees. */
  lemma {:induction false} EqualIsEquality(a: Value, b: Value)
    requires RealFree(a) && RealFree(b)
    ensures Equal(a, b) <==> a == b
    decreases Size(a), 0
  {
    if TypeTag(a) == TypeTag(b) {
      match a
      case Str(s) => if |s| == |b.s| { MemcmpZero(s, b.s); }
      case Arr(m) => if |m| == |b.elems| { MapEqualIsEquality(m, b.elems); }
      case Obj(m) => if |m| == |b.members| { MapEqualIsEquality(m, b.members); }
      case _ =>
    }
  }

  lemma KeyEqualIsEquality(k: Key, l: Key)
    ensures KeyEqual(k, l) <==> k == l
  {
    if k.Name? && l.Name? && |k.s| == |l.s| {
      MemcmpZero(k.s, l.s);
    }
  }

  lemma {:induction false} MapEqualIsEquality(m: seq<Member>, n: seq<Member>)
    requires AllRealFree(m) && AllRealFree(n) && |m| == |n|
    ensures MapEqual(m, n) <==> m == n
    decreases MapSize(m), 1
  {
    if m != [] {
      KeyEqualIsEquality(m[0].key, n[0].key);
      EqualIsEquality(m[0].val, n[0].val);
      MapEqualIsEquality(m[1..], n[1..]);
      assert m == [m[0]] + m[1..] && n == [n[0]] + n[1..];
    }
  }

  // ---------------------------------------------------------------- strict total order

  /** Exactly one of a < b, b < a and a == b holds; in particular nothing is below itself. */
  lemma {:induction false} Trichotomy(a: Value, b: Value)
    requires RealFree(a) && RealFree(b)
    ensures !(Less(a, b) && Less(b, a))
    ensures Less(a, b) || Less(b, a) <==> !Equal(a, b)
    decreases Size(a) + Size(b), 0
  {
    EqualIsEquality(a, b);
    if TypeTag(a) == TypeTag(b) {
      match a
      case Str(s) =>
        KeyTrichotomy(Name(s), Name(b.s));
      case Arr(m) => if |m| == |b.elems| { MapTrichotomy(m, b.elems); }
      case Obj(m) => if |m| == |b.members| { MapTrichotomy(m, b.members); }
      case _ =>
    }
  }

  lemma {:induction false} PairTrichotomy(p: Member, q: Member)
    requires RealFree(p.val) && RealFree(q.val)
    ensures !(PairLess(p, q) && PairLess(q, p))
    ensures PairLess(p, q) || PairLess(q, p) <==> p != q
    decreases Size(p.val) + Size(q.val), 1
  {
    KeyTrichotomy(p.key, q.key);
    Trichotomy(p.val, q.val);
    EqualIsEquality(p.val, q.val);
  }

  lemma {:induction false} MapTrichotomy(m: seq<Member>, n: seq<Member>)
    requires AllRealFree(m) && AllRealFree(n)
    ensures !(MapLess(m, n) && MapLess(n, m))
    ensures MapLess(m, n) || MapLess(n, m) <==> m != n
    decreases MapSize(m) + MapSize(n), 2
  {
    if m != [] && n != [] {
      PairTrichotomy(m[0], n[0]);
      MapTrichotomy(m[1..], n[1..]);
      assert m == [m[0]] + m[1..] && n == [n[0]] + n[1..];
    }
  }

  lemma {:induction false} Transitive(a: Value, b: Value, c: Value)
    requires RealFree(a) && RealFree(b) && RealFree(c)
    requires Less(a, b) && Less(b, c)
    ensures Less(a, c)
    decreases Size(a), 0
  {
    if TypeTag(a) == TypeTag(b) == TypeTag(c) {
      match a
      case Str(s) =>
        KeyTransitive(Name(s), Name(b.s), Name(c.s));
      case Arr(m) => if |m| == |b.elems| == |c.elems| { MapTransitive(m, b.elems, c.elems); }
      case Obj(m) => if |m| == |b.members| == |c.members| { MapTransitive(m, b.members, c.members); }
      case _ =>
    }
  }

  lemma {:induction false} PairTransitive(p: Member, q: Member, r: Member)
    requires RealFree(p.val) && RealFree(q.val) && RealFree(r.val)
    requires PairLess(p, q) && PairLess(q, r)
    ensures PairLess(p, r)
    decreases Size(p.val), 1
  {
    KeyTrichotomy(p.key, q.key);
    KeyTrichotomy(q.key, r.key);
    KeyTrichotomy(p.key, r.key);
    if KeyLess(p.key, q.key) && KeyLess(q.key, r.key) {
      KeyTransitive(p.key, q.key, r.key);
    } else if p.key == q.key == r.key {
      Transitive(p.val, q.val, r.val);
    }
  }

  lemma {:induction false} MapTransitive(m: seq<Member>, n: seq<Member>, o: seq<Member>)
    requires AllRealFree(m) && AllRealFree(n) && AllRealFree(o)
    requires MapLess(m, n) && MapLess(n, o)
    ensures MapLess(m, o)
    decreases MapSize(m), 2
  {
    if m != [] {
      PairTrichotomy(m[0], n[0]);
      PairTrichotomy(n[0], o[0]);
      PairTrichotomy(m[0], o[0]);
      if PairLess(m[0], n[0]) && PairLess(n[0], o[0]) {
        PairTransitive(m[0], n[0], o[0]);
      } else if m[0] == n[0] == o[0] {
        MapTransitive(m[1..], n[1..], o[1..]);
      }
    }
  }

  // ---------------------------------------------------------------- direction

  /** The first difference of two byte strings is at `k`, where `a` has the smaller byte or has ended. */
  predicate DiffersAt(a: bytes, b: bytes, k: nat)
  {
    k <= |a| && k < |b| && a[..k] == b[..k] && (k == |a| || a[k] < b[k])
  }

  lemma {:induction false} FirstDifference(a: bytes, b: bytes)
    ensures LexLess(a, b) <==> exists k: nat :: DiffersAt(a, b, k)
  {
    if b == [] {
    } else if a == [] || a[0] < b[0] {
      assert DiffersAt(a, b, 0);
    } else if a[0] == b[0] {
      FirstDifference(a[1..], b[1..]);
      if k: nat :| DiffersAt(a[1..], b[1..], k) {
        assert a[..k + 1] == [a[0]] + a[1..][..k] && b[..k + 1] == [b[0]] + b[1..][..k];
        assert DiffersAt(a, b, k + 1);
      }
      if k: nat :| DiffersAt(a, b, k) {
        assert k > 0;
        assert a[1..][..k - 1] == a[..k][1..] && b[1..][..k - 1] == b[..k][1..];
        assert DiffersAt(a[1..], b[1..], k - 1);
      }
    } else if k: nat :| DiffersAt(a, b, k) {
      assert k > 0;
      assert a[0] == a[..k][0] == b[..k][0] == b[0];
    }
  }

  /** Strings are ordered by the first byte that differs, a proper prefix first. */
  lemma StringsInOrder(a: bytes, b: bytes)
    ensures BytesLess(a, b) <==> exists k: nat :: DiffersAt(a, b, k)
  {
    BytesLessIsLex(a, b);
    FirstDifference(a, b);
  }

  /** Values of different types are ordered null, integer, unsigned integer, string, boolean, array, object. */
  lemma TypesInOrder(a: Value, b: Value)
    requires RealFree(a) && RealFree(b)
    ensures a.Null? && !b.Null? ==> Less(a, b)
    ensures a.Int? && !b.Null? && !b.Int? ==> Less(a, b)
    ensures a.UInt? && (b.Str? || b.Bool? || b.Arr? || b.Obj?) ==> Less(a, b)
    ensures a.Str? && (b.Bool? || b.Arr? || b.Obj?) ==> Less(a, b)
    ensures a.Bool? && (b.Arr? || b.Obj?) ==> Less(a, b)
    ensures a.Arr? && b.Obj? ==> Less(a, b)
  {
  }

  /** Numbers are ordered by size, strings by their first difference, and false comes before true. */
  lemma ScalarsInOrder(i: int, j: int, u: nat, v: nat, s: bytes, t: bytes)
    ensures Less(Int(i), Int(j)) <==> i < j
    ensures Less(UInt(u), UInt(v)) <==> u < v
    ensures Less(Str(s), Str(t)) <==> exists k: nat :: DiffersAt(s, t, k)
    ensures Less(Bool(false), Bool(true)) && !Less(Bool(true), Bool(false))
  {
    StringsInOrder(s, t);
  }

  /** Names are ordered like strings, and indices like numbers. */
  lemma KeysInOrder(i: nat, j: nat, s: bytes, t: bytes)
    ensures KeyLess(Index(i), Index(j)) <==> i < j
    ensures KeyLess(Name(s), Name(t)) <==> exists k: nat :: DiffersAt(s, t, k)
  {
    StringsInOrder(s, t);
  }

  /** Two maps agree below `k`, and the entry at `k` has the smaller key, or the same key and the smaller value. */
  predicate EntryLess(m: seq<Member>, n: seq<Member>, k: nat)
    requires AllRealFree(m) && AllRealFree(n)
  {
    && k < |m| && k < |n| && m[..k] == n[..k]
    && (KeyLess(m[k].key, n[k].key) || (m[k].key == n[k].key && Less(m[k].val, n[k].val)))
  }

  lemma PairsInOrder(p: Member, q: Member)
    requires RealFree(p.val) && RealFree(q.val)
    ensures PairLess(p, q) <==> KeyLess(p.key, q.key) || (p.key == q.key && Less(p.val, q.val))
  {
    KeyTrichotomy(p.key, q.key);
  }

  lemma SameHead(m: seq<Member>, n: seq<Member>, k: nat)
    requires k <= |m| && k <= |n| && m[..k] == n[..k] && k > 0
    ensures m[0] == n[0]
  {
    assert m[0] == m[..k][0] == n[..k][0] == n[0];
  }

  lemma {:induction false} MapsInOrder(m: seq<Member>, n: seq<Member>)
    requires AllRealFree(m) && AllRealFree(n) && |m| == |n|
    ensures MapLess(m, n) <==> exists k: nat :: EntryLess(m, n, k)
    decreases |m|
  {
    hide Less, KeyLess, RealFree;
    if m != [] {
      PairsInOrder(m[0], n[0]);
      PairTrichotomy(m[0], n[0]);
      MapsInOrder(m[1..], n[1..]);
      if m[0] == n[0] {
        if k: nat :| EntryLess(m[1..], n[1..], k) {
          assert m[..k + 1] == [m[0]] + m[1..][..k] && n[..k + 1] == [n[0]] + n[1..][..k];
          assert EntryLess(m, n, k + 1);
        }
        if k: nat :| EntryLess(m, n, k) {
          assert k > 0;
          assert m[1..][..k - 1] == m[..k][1..] && n[1..][..k - 1] == n[..k][1..];
          assert EntryLess(m[1..], n[1..], k - 1);
        }
      } else {
        if PairLess(m[0], n[0]) {
          assert EntryLess(m, n, 0);
        }
        if k: nat :| EntryLess(m, n, k) && k > 0 {
          SameHead(m, n, k);
        }
      }
    }
  }

  /** Containers of one type are ordered by their number of entries, and then by the first entry that differs. */
  lemma ContainersInOrder(m: seq<Member>, n: seq<Member>)
    requires AllRealFree(m) && AllRealFree(n)
    ensures Less(Arr(m), Arr(n)) <==> |m| < |n| || (|m| == |n| && exists k: nat :: EntryLess(m, n, k))
    ensures Less(Obj(m), Obj(n)) <==> |m| < |n| || (|m| == |n| && exists k: nat :: EntryLess(m, n, k))
  {
    if |m| == |n| {
      MapsInOrder(m, n);
    }
  }
}
