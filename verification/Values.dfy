/** Json::Value trees and the ordered map (std::map<CZString, Value>) that holds arrays and objects alike. */
module Values {
  import opened Arithmetic
  import opened ByteStrings
  import opened Wrappers

  /** CZString: the index of an array element or the name of a member. */
  datatype Key = Index(i: nat) | Name(s: bytes)

  datatype Member = Member(key: Key, val: Value)

  /** `Real` carries the 64-bit pattern of a double; nothing here interprets it. */
  datatype Value =
    | Null
    | Int(i: int)
    | UInt(u: nat)
    | Real(bits: nat)
    | Str(s: bytes)
    | Bool(b: bool)
    | Arr(elems: seq<Member>)
    | Obj(members: seq<Member>)

  // ---------------------------------------------------------------- byte order

  /** memcmp on ranges of equal length. */
  function Memcmp(a: bytes, b: bytes): int
    requires |a| == |b|
  {
    if a == [] then 0 else if a[0] != b[0] then a[0] - b[0] else Memcmp(a[1..], b[1..])
  }

  /** The string comparison of CZString and of Value: a common prefix by memcmp, then the lengths. */
  function BytesLess(a: bytes, b: bytes): bool
  {
    var n := if |a| < |b| then |a| else |b|;
    var comp := Memcmp(a[..n], b[..n]);
    if comp < 0 then true else if comp > 0 then false else |a| < |b|
  }

  /** Lexicographic order on byte strings. */
  predicate LexLess(a: bytes, b: bytes)
  {
    b != [] && (a == [] || a[0] < b[0] || (a[0] == b[0] && LexLess(a[1..], b[1..])))
  }

  lemma {:induction false} BytesLessIsLex(a: bytes, b: bytes)
    ensures BytesLess(a, b) == LexLess(a, b)
  {
    if a != [] && b != [] {
      var n := if |a| < |b| then |a| else |b|;
      assert a[..n][1..] == a[1..][..n - 1] && b[..n][1..] == b[1..][..n - 1];
      BytesLessIsLex(a[1..], b[1..]);
    }
  }

  lemma {:induction false} LexTrichotomy(a: bytes, b: bytes)
    ensures !(LexLess(a, b) && LexLess(b, a))
    ensures LexLess(a, b) || LexLess(b, a) <==> a != b
  {
    if a != [] && b != [] {
      LexTrichotomy(a[1..], b[1..]);
      assert a == [a[0]] + a[1..] && b == [b[0]] + b[1..];
    }
  }

  lemma {:induction false} LexTransitive(a: bytes, b: bytes, c: bytes)
    requires LexLess(a, b) && LexLess(b, c)
    ensures LexLess(a, c)
  {
    if a != [] && a[0] == b[0] == c[0] {
      LexTransitive(a[1..], b[1..], c[1..]);
    }
  }

  // ---------------------------------------------------------------- keys

  /** CZString::operator<. A map never mixes the two kinds; the model puts indices first. */
  function KeyLess(a: Key, b: Key): bool
  {
    match (a, b)
    case (Index(i), Index(j)) => i < j
    case (Name(s), Name(t)) => BytesLess(s, t)
    case (Index(_), Name(_)) => true
    case (Name(_), Index(_)) => false
  }

  lemma KeyTrichotomy(a: Key, b: Key)
    ensures !(KeyLess(a, b) && KeyLess(b, a))
    ensures KeyLess(a, b) || KeyLess(b, a) <==> a != b
  {
    if a.Name? && b.Name? {
      BytesLessIsLex(a.s, b.s);
      BytesLessIsLex(b.s, a.s);
      LexTrichotomy(a.s, b.s);
    }
  }

  lemma KeyTransitive(a: Key, b: Key, c: Key)
    requires KeyLess(a, b) && KeyLess(b, c)
    ensures KeyLess(a, c)
  {
    if a.Name? {
      BytesLessIsLex(a.s, b.s);
      BytesLessIsLex(b.s, c.s);
      BytesLessIsLex(a.s, c.s);
      LexTransitive(a.s, b.s, c.s);
    }
  }

  // ---------------------------------------------------------------- the ordered map

  predicate Sorted(m: seq<Member>)
  {
    forall i, j :: 0 <= i < j < |m| ==> KeyLess(m[i].key, m[j].key)
  }

  function LowerBound(m: seq<Member>, k: Key): (p: nat)
    ensures p <= |m|
    ensures forall i :: 0 <= i < p ==> KeyLess(m[i].key, k)
    ensures p < |m| ==> !KeyLess(m[p].key, k)
  {
    if m == [] || !KeyLess(m[0].key, k) then 0 else 1 + LowerBound(m[1..], k)
  }

  function Has(m: seq<Member>, k: Key): bool
  {
    var p := LowerBound(m, k);
    p < |m| && m[p].key == k
  }

  function Get(m: seq<Member>, k: Key): Option<Value>
  {
    if Has(m, k) then Some(m[LowerBound(m, k)].val) else None
  }

  /** operator[] for writing: the element is created when it is missing. */
  function Put(m: seq<Member>, k: Key, v: Value): seq<Member>
  {
    var p := LowerBound(m, k);
    if Has(m, k) then m[p := Member(k, v)] else m[..p] + [Member(k, v)] + m[p..]
  }

  function Erase(m: seq<Member>, k: Key): seq<Member>
  {
    var p := LowerBound(m, k);
    if Has(m, k) then m[..p] + m[p + 1..] else m
  }

  lemma LowerBoundUnique(m: seq<Member>, k: Key, p: nat)
    requires p <= |m| && (forall i :: 0 <= i < p ==> KeyLess(m[i].key, k)) && (p < |m| ==> !KeyLess(m[p].key, k))
    ensures LowerBound(m, k) == p
  {
  }

  /** In a sorted map the search finds exactly the key. */
  lemma FindsKey(m: seq<Member>, k: Key, p: nat)
    requires Sorted(m) && p < |m| && m[p].key == k
    ensures LowerBound(m, k) == p && Has(m, k) && Get(m, k) == Some(m[p].val)
  {
    KeyTrichotomy(k, k);
    LowerBoundUnique(m, k, p);
  }

  lemma MissesKey(m: seq<Member>, k: Key)
    requires forall i :: 0 <= i < |m| ==> m[i].key != k
    ensures !Has(m, k) && Get(m, k) == None
  {
  }

  lemma PutSorted(m: seq<Member>, k: Key, v: Value)
    requires Sorted(m)
    ensures Sorted(Put(m, k, v)) && Get(Put(m, k, v), k) == Some(v)
    ensures forall k' :: k' != k ==> Get(Put(m, k, v), k') == Get(m, k')
  {
    hide *;
    PutKeepsOrder(m, k, v);
    forall k' | k' != k ensures Get(Put(m, k, v), k') == Get(m, k') {
      PutLeavesKey(m, k, v, k');
    }
  }

  lemma PutKeepsOrder(m: seq<Member>, k: Key, v: Value)
    requires Sorted(m)
    ensures Sorted(Put(m, k, v)) && Get(Put(m, k, v), k) == Some(v)
  {
    hide KeyLess;
    var p, n := LowerBound(m, k), Put(m, k, v);
    if !Has(m, k) {
      forall j | p <= j < |m| ensures KeyLess(k, m[j].key) {
        KeyTrichotomy(k, m[p].key);
        if p < j {
          KeyTransitive(k, m[p].key, m[j].key);
        }
      }
    }
    assert n[p] == Member(k, v);
    FindsKey(n, k, p);
  }

  lemma PutLeavesKey(m: seq<Member>, k: Key, v: Value, k': Key)
    requires Sorted(m) && Sorted(Put(m, k, v)) && k' != k
    ensures Get(Put(m, k, v), k') == Get(m, k')
  {
    hide KeyLess, Get, Sorted;
    var p, n := LowerBound(m, k), Put(m, k, v);
    if j :| 0 <= j < |m| && m[j].key == k' {
      FindsKey(m, k', j);
      FindsKey(n, k', if j < p || Has(m, k) then j else j + 1);
    } else {
      MissesKey(m, k');
      MissesKey(n, k');
    }
  }

  lemma EraseSorted(m: seq<Member>, k: Key)
    requires Sorted(m)
    ensures Sorted(Erase(m, k)) && Get(Erase(m, k), k) == None
    ensures forall k' :: k' != k ==> Get(Erase(m, k), k') == Get(m, k')
  {
    var p, n := LowerBound(m, k), Erase(m, k);
    if Has(m, k) {
      forall j | 0 <= j < |n| ensures n[j].key != k {
        KeyTrichotomy(k, k);
        assert if j < p then KeyLess(m[j].key, k) else KeyLess(k, m[j + 1].key);
      }
      MissesKey(n, k);
      forall k' | k' != k ensures Get(n, k') == Get(m, k') {
        EraseOther(m, k, k');
      }
    }
  }

  lemma EraseOther(m: seq<Member>, k: Key, k': Key)
    requires Sorted(m) && Sorted(Erase(m, k)) && Has(m, k) && k' != k
    ensures Get(Erase(m, k), k') == Get(m, k')
  {
    var p, n := LowerBound(m, k), Erase(m, k);
    if j :| 0 <= j < |m| && m[j].key == k' {
      FindsKey(m, k', j);
      FindsKey(n, k', if j < p then j else j - 1);
    } else {
      MissesKey(m, k');
      MissesKey(n, k');
    }
  }

  /** Writing past the largest key appends. */
  lemma PutAppends(m: seq<Member>, k: Key, v: Value)
    requires forall i :: 0 <= i < |m| ==> KeyLess(m[i].key, k)
    ensures Put(m, k, v) == m + [Member(k, v)] && !Has(m, k)
    ensures forall w :: Put(m + [Member(k, v)], k, w) == m + [Member(k, w)]
    ensures Get(m + [Member(k, v)], k) == Some(v)
  {
    LowerBoundUnique(m, k, |m|);
    KeyTrichotomy(k, k);
    var n := m + [Member(k, v)];
    LowerBoundUnique(n, k, |m|);
  }

  // ---------------------------------------------------------------- well-formed values

  predicate Indexed(m: seq<Member>)
  {
    forall i :: 0 <= i < |m| ==> m[i].key.Index?
  }

  /** The keys are exactly 0, 1, ..., |m| - 1. */
  predicate Dense(m: seq<Member>)
  {
    forall i :: 0 <= i < |m| ==> m[i].key == Index(i)
  }

  predicate AllNamed(m: seq<Member>)
  {
    forall i :: 0 <= i < |m| ==> m[i].key.Name?
  }

  /** Value::size on an array: the highest index plus one. */
  function ArraySize(m: seq<Member>): nat
    requires Indexed(m)
  {
    if m == [] then 0 else m[|m| - 1].key.i + 1
  }

  /** What every Json::Value satisfies: its numbers have 64 bits, and its maps are sorted with keys of one kind. */
  predicate Stored(v: Value)
  {
    match v
    case Int(i) => MIN_INT64 <= i <= MAX_INT64
    case UInt(u) => u <= MAX_UINT64
    case Arr(m) => Indexed(m) && Sorted(m) && AllStored(m)
    case Obj(m) => AllNamed(m) && Sorted(m) && AllStored(m)
    case _ => true
  }

  predicate AllStored(m: seq<Member>)
  {
    forall i :: 0 <= i < |m| ==> (assert (m decreases to m[i]); Stored(m[i].val))
  }

  predicate RealFree(v: Value)
  {
    match v
    case Real(_) => false
    case Arr(m) => AllRealFree(m)
    case Obj(m) => AllRealFree(m)
    case _ => true
  }

  predicate AllRealFree(m: seq<Member>)
  {
    forall i :: 0 <= i < |m| ==> (assert (m decreases to m[i]); RealFree(m[i].val))
  }

  /** A value whose text does not depend on the printing of doubles. */
  predicate Printable(v: Value)
  {
    Stored(v) && RealFree(v)
  }

  predicate AllPrintable(m: seq<Member>)
  {
    AllStored(m) && AllRealFree(m)
  }

  function Size(v: Value): (n: nat)
    ensures n > 0
  {
    match v case Arr(m) => 1 + MapSize(m) case Obj(m) => 1 + MapSize(m) case _ => 1
  }

  function MapSize(m: seq<Member>): nat
  {
    if m == [] then 0 else assert (m decreases to m[0]); 1 + Size(m[0].val) + MapSize(m[1..])
  }

  lemma {:induction false} MemberSize(m: seq<Member>, i: nat)
    requires i < |m|
    ensures Size(m[i].val) < MapSize(m)
  {
    if i > 0 {
      MemberSize(m[1..], i - 1);
    }
  }

  /** The value that `container[key]` refers to; a missing one reads as null. */
  function Slot(m: seq<Member>, k: Key): Value
  {
    match Get(m, k) case Some(v) => v case None => Null
  }

  lemma SlotIsPart(m: seq<Member>, k: Key)
    ensures m != [] ==> Size(Slot(m, k)) < MapSize(m)
    ensures AllStored(m) ==> Stored(Slot(m, k))
    ensures AllRealFree(m) ==> RealFree(Slot(m, k))
  {
    if Has(m, k) {
      MemberSize(m, LowerBound(m, k));
    }
  }
}
