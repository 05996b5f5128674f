/** The array operations of Json::Value, which keeps its elements in a map ordered by index; positions may be
    missing. */
module ArrayValues {
  import opened Values
  import opened Wrappers

  // ---------------------------------------------------------------- an array as a row of positions

  /** The element or the gap at every position below the size. */
  ghost function Slots(m: seq<Member>): (s: seq<Option<Value>>)
    requires Indexed(m)
    ensures |s| == ArraySize(m)
  {
    seq(ArraySize(m), i requires 0 <= i < ArraySize(m) => Get(m, Index(i)))
  }

  /** A gap never comes last. */
  ghost predicate Ends(s: seq<Option<Value>>)
  {
    s != [] ==> s[|s| - 1].Some?
  }

  ghost predicate Full(s: seq<Option<Value>>)
  {
    forall i :: 0 <= i < |s| ==> s[i].Some?
  }

  ghost function Gaps(n: nat): seq<Option<Value>>
  {
    seq(n, _ => None)
  }

  ghost function Nulls(n: nat): seq<Option<Value>>
  {
    seq(n, _ => Some(Null))
  }

  ghost function OrNull(o: Option<Value>): Option<Value>
  {
    match o case Some(_) => o case None => Some(Null)
  }

  /** Gaps become nulls. */
  ghost function Filled(s: seq<Option<Value>>): (r: seq<Option<Value>>)
    ensures |r| == |s|
  {
    seq(|s|, i requires 0 <= i < |s| => OrNull(s[i]))
  }

  /** Gaps at the end do not belong to the array. */
  ghost function Trim(s: seq<Option<Value>>): (r: seq<Option<Value>>)
    ensures r <= s && Ends(r) && forall i :: |r| <= i < |s| ==> s[i].None?
  {
    if s != [] && s[|s| - 1].None? then Trim(s[..|s| - 1]) else s
  }

  /** Writing beyond the size leaves gaps. */
  ghost function SlotPut(s: seq<Option<Value>>, i: nat, v: Value): (r: seq<Option<Value>>)
    ensures i < |r| && r[i] == Some(v)
  {
    if i < |s| then s[i := Some(v)] else s + Gaps(i - |s|) + [Some(v)]
  }

  /** Reading through operator[] fills a gap. */
  ghost function Touched(s: seq<Option<Value>>, i: nat): (r: seq<Option<Value>>)
    ensures i < |r| && r[i].Some?
  {
    if i < |s| && s[i].Some? then s else SlotPut(s, i, Null)
  }

  /** The elements from `i` on move up, and the gaps among them are filled. */
  ghost function SlotInsert(s: seq<Option<Value>>, i: nat, v: Value): seq<Option<Value>>
    requires i <= |s|
  {
    s[..i] + [Some(v)] + Filled(s[i..])
  }

  /** The elements after `k` move down, and the gaps among them are filled; only a removal at the end exposes gaps. */
  ghost function SlotRemove(s: seq<Option<Value>>, k: nat): seq<Option<Value>>
    requires k < |s|
  {
    Trim(s[..k] + Filled(s[k + 1..]))
  }

  // ---------------------------------------------------------------- the map behind the positions

  lemma SizeIs(m: seq<Member>, n: nat)
    requires Sorted(m) && Indexed(m)
    requires n > 0 ==> Has(m, Index(n - 1))
    requires forall i: nat :: i >= n ==> !Has(m, Index(i))
    ensures ArraySize(m) == n
  {
    if m != [] {
      FindsKey(m, m[|m| - 1].key, |m| - 1);
    }
    if n > 0 {
      LastIsLargest(m, LowerBound(m, Index(n - 1)));
    }
  }

  lemma LastIsLargest(m: seq<Member>, p: nat)
    requires Sorted(m) && Indexed(m)
    ensures p < |m| ==> m[p].key.i < ArraySize(m)
  {
    assert p < |m| - 1 ==> KeyLess(m[p].key, m[|m| - 1].key);
  }

  lemma NothingBeyond(m: seq<Member>, i: nat)
    requires Sorted(m) && Indexed(m) && i >= ArraySize(m)
    ensures !Has(m, Index(i))
  {
    forall j | 0 <= j < |m| ensures m[j].key != Index(i) {
      assert j < |m| - 1 ==> KeyLess(m[j].key, m[|m| - 1].key);
    }
    MissesKey(m, Index(i));
  }

  lemma SlotsEnd(m: seq<Member>)
    requires Sorted(m) && Indexed(m)
    ensures Ends(Slots(m)) && forall i: nat :: Get(m, Index(i)) == if i < ArraySize(m) then Slots(m)[i] else None
  {
    if m != [] {
      FindsKey(m, m[|m| - 1].key, |m| - 1);
    }
    forall i: nat ensures Get(m, Index(i)) == if i < ArraySize(m) then Slots(m)[i] else None {
      if i >= ArraySize(m) {
        NothingBeyond(m, i);
      }
    }
  }

  /** The position `i` of an array that goes on with gaps for ever. */
  ghost function SlotAt(s: seq<Option<Value>>, i: nat): Option<Value>
  {
    if i < |s| then s[i] else None
  }

  /** A map is determined by what it answers for each index. */
  lemma SlotsAre(m: seq<Member>, s: seq<Option<Value>>)
    requires Sorted(m) && Indexed(m) && Ends(s) && forall j: nat :: Get(m, Index(j)) == SlotAt(s, j)
    ensures Slots(m) == s
  {
    forall j: nat | j >= |s| ensures !Has(m, Index(j)) {
      assert Get(m, Index(j)).None?;
    }
    if |s| > 0 {
      assert Get(m, Index(|s| - 1)).Some?;
    }
    SizeIs(m, |s|);
    assert forall j :: 0 <= j < |s| ==> Slots(m)[j] == SlotAt(s, j);
  }

  /** Writing to the map writes to the position. */
  lemma PutSlot(m: seq<Member>, i: nat, v: Value)
    requires Sorted(m) && Indexed(m)
    ensures Sorted(Put(m, Index(i), v)) && Indexed(Put(m, Index(i), v))
    ensures Slots(Put(m, Index(i), v)) == SlotPut(Slots(m), i, v)
  {
    hide Sorted, Put, Get, Slots;
    PutSorted(m, Index(i), v);
    PutIndexed(m, i, v);
    SlotsEnd(m);
    forall j: nat ensures Get(Put(m, Index(i), v), Index(j)) == SlotAt(SlotPut(Slots(m), i, v), j) {
      assert Get(m, Index(j)) == SlotAt(Slots(m), j);
      assert j != i ==> Index(j) != Index(i) && Get(Put(m, Index(i), v), Index(j)) == Get(m, Index(j));
    }
    SlotsAre(Put(m, Index(i), v), SlotPut(Slots(m), i, v));
  }

  lemma PutIndexed(m: seq<Member>, i: nat, v: Value)
    requires Indexed(m)
    ensures Indexed(Put(m, Index(i), v))
  {
  }

  /** Erasing a key makes a gap, or takes the end off. */
  lemma EraseSlot(m: seq<Member>, i: nat)
    requires Sorted(m) && Indexed(m) && i < ArraySize(m)
    ensures Sorted(Erase(m, Index(i))) && Indexed(Erase(m, Index(i)))
    ensures Slots(Erase(m, Index(i))) == Trim(Slots(m)[i := None])
  {
    hide Sorted, Erase, Get, Slots, Trim;
    EraseSorted(m, Index(i));
    EraseIndexed(m, i);
    SlotsEnd(m);
    forall j: nat ensures Get(Erase(m, Index(i)), Index(j)) == SlotAt(Trim(Slots(m)[i := None]), j) {
      assert Get(m, Index(j)) == SlotAt(Slots(m), j);
      assert |Trim(Slots(m)[i := None])| <= j < |Slots(m)| ==> Slots(m)[i := None][j].None?;
      assert j != i ==> Index(j) != Index(i) && Get(Erase(m, Index(i)), Index(j)) == Get(m, Index(j));
    }
    SlotsAre(Erase(m, Index(i)), Trim(Slots(m)[i := None]));
  }

  lemma EraseIndexed(m: seq<Member>, i: nat)
    requires Indexed(m)
    ensures Indexed(Erase(m, Index(i)))
  {
  }

  /** A Json::Value used as an array. */
  class ArrayValue {
    var value: Value

    ghost predicate Valid()
      reads this
    {
      value.Null? || (value.Arr? && Indexed(value.elems) && Sorted(value.elems))
    }

    /** The positions; null counts as the empty array. */
    ghost function Contents(): seq<Option<Value>>
      requires Valid()
      reads this
    {
      if value.Arr? then Slots(value.elems) else []
    }

    constructor ()
      ensures Valid() && Contents() == [] && value.Null?
    {
      value := Null;
    }

    method Size() returns (n: nat)
      requires Valid()
      ensures n == |Contents()| && Ends(Contents())
    {
      if value.Null? {
        return 0;
      }
      SlotsEnd(value.elems);
      n := ArraySize(value.elems);
    }

    /** A null becomes an empty array. */
    method BecomeArray()
      requires Valid()
      modifies this
      ensures Valid() && value.Arr? && Contents() == old(Contents())
    {
      if value.Null? {
        value := Arr([]);
      }
    }

    /** operator[] for writing: the element, created as null when it is missing. */
    method At(index: nat) returns (v: Value)
      requires Valid()
      modifies this
      ensures Valid() && value.Arr?
      ensures Contents() == Touched(old(Contents()), index) && Contents()[index] == Some(v)
    {
      hide Sorted, Put, Has;
      BecomeArray();
      SlotsEnd(value.elems);
      if !Has(value.elems, Index(index)) {
        PutSlot(value.elems, index, Null);
        value := Arr(Put(value.elems, Index(index), Null));
        SlotsEnd(value.elems);
      }
      assert Get(value.elems, Index(index)).Some?;
      v := value.elems[LowerBound(value.elems, Index(index))].val;
    }

    /** An assignment through operator[]. */
    method Assign(index: nat, v: Value)
      requires Valid()
      modifies this
      ensures Valid() && value.Arr? && Contents() == SlotPut(old(Contents()), index, v)
    {
      hide Sorted, Put;
      ghost var before := Contents();
      var _ := At(index);
      PutSlot(value.elems, index, v);
      value := Arr(Put(value.elems, Index(index), v));
      PutTouched(before, index, v);
    }

    method Clear()
      requires Valid()
      modifies this
      ensures Valid() && Contents() == []
    {
      if value.Arr? {
        value := Arr([]);
      }
    }

    method Append(v: Value)
      requires Valid()
      modifies this
      ensures Valid() && Contents() == old(Contents()) + [Some(v)]
    {
      BecomeArray();
      var n := Size();
      Assign(n, v);
    }

    /** Insertion shifts from the end by move assignment, which swaps the two elements. */
    method Insert(index: nat, newValue: Value) returns (ok: bool)
      requires Valid()
      modifies this
      ensures Valid() && (ok <==> index <= |old(Contents())|)
      ensures Contents() == if ok then SlotInsert(old(Contents()), index, newValue) else old(Contents())
    {
      hide Valid, Contents, Touched, SlotPut, InsertRow, SlotInsert;
      var length := Size();
      if index > length {
        return false;
      }
      var i := length;
      ghost var before := Contents();
      InsertStart(before);
      while i > index
        invariant index <= i <= length == |before| && Valid() && Ends(before)
        invariant Contents() == InsertRow(before, i)
      {
        InsertStep(before, i);
        var source := At(i - 1);
        var target := At(i);
        Assign(i, source);
        Assign(i - 1, target);
        i := i - 1;
      }
      InsertLast(before, index, newValue);
      Assign(index, newValue);
      return true;
    }

    /** Removal shifts left by copies and erases the last key; anything but an array is left alone. */
    method RemoveIndex(index: nat) returns (removed: Option<Value>)
      requires Valid()
      modifies this
      ensures Valid()
      ensures removed == if index < |old(Contents())| then old(Contents())[index] else None
      ensures Contents() == if removed.Some? then SlotRemove(old(Contents()), index) else old(Contents())
    {
      if !value.Arr? {
        return None;
      }
      hide Valid, Contents, Filled, Trim, SlotRemove;
      ghost var before := Contents();
      removed := Find(index);
      if removed.None? {
        return;
      }
      assert index < |before| && before[index].Some?;
      var oldSize := Size();
      ShiftLeft(index, oldSize);
      RemoveRest(before, index, Contents());
      EraseLast(oldSize);
    }

    method EraseLast(oldSize: nat)
      requires Valid() && value.Arr? && 0 < oldSize == |Contents()|
      modifies this
      ensures Valid() && Contents() == Trim(old(Contents())[oldSize - 1 := None])
    {
      hide Slots, Sorted, Trim, Erase;
      EraseSlot(value.elems, oldSize - 1);
      value := Arr(Erase(value.elems, Index(oldSize - 1)));
    }

    method Find(index: nat) returns (found: Option<Value>)
      requires Valid() && value.Arr?
      ensures found == if index < |Contents()| then Contents()[index] else None
    {
      SlotsEnd(value.elems);
      found := Get(value.elems, Index(index));
    }

    /** The loop of removeIndex: every later element moves one place down, and a gap is filled when it is read. */
    method ShiftLeft(index: nat, oldSize: nat)
      requires Valid() && value.Arr? && index < oldSize == |Contents()| && Contents()[index].Some?
      modifies this
      ensures Valid() && value.Arr? && |Contents()| == oldSize
      ensures Contents()[..oldSize - 1] == old(Contents())[..index] + Filled(old(Contents())[index + 1..])
    {
      hide Valid, Contents, Touched, SlotPut, RemoveRow;
      ghost var before := Contents();
      var i := index;
      RemoveStart(before, index);
      while i < oldSize - 1
        invariant index <= i <= oldSize - 1 && Valid() && value.Arr?
        invariant Contents() == RemoveRow(before, index, i)
      {
        RemoveStep(before, index, i);
        var next := At(i + 1);
        Assign(i, next);
        i := i + 1;
      }
      RemoveEnd(before, index);
    }

    /** resize; `ok` is the assertion at its end. */
    method Resize(newSize: nat) returns (ok: bool)
      requires Valid()
      modifies this
      ensures Valid()
      ensures Contents() == if newSize <= |old(Contents())| then Trim(old(Contents())[..newSize])
                            else old(Contents()) + Nulls(newSize - |old(Contents())|)
      ensures ok <==> |Contents()| == newSize
    {
      BecomeArray();
      var oldSize := Size();
      ok := true;
      if newSize == 0 {
        Clear();
      } else if newSize > oldSize {
        Grow(oldSize, newSize);
      } else {
        Shrink(oldSize, newSize);
        var size := Size();
        ok := size == newSize;
      }
    }

    method Grow(oldSize: nat, newSize: nat)
      requires Valid() && oldSize == |Contents()| <= newSize
      modifies this
      ensures Valid() && Contents() == old(Contents()) + Nulls(newSize - oldSize)
    {
      hide Valid, Contents;
      ghost var before := Contents();
      var i := oldSize;
      while i < newSize
        invariant oldSize <= i <= newSize
        invariant Valid() && Contents() == before + Nulls(i - oldSize)
      {
        var _ := At(i);
        i := i + 1;
        assert Contents() == before + Nulls(i - oldSize);
      }
    }

    /** The erasing loop of resize: index after index, from the new size up. */
    method Shrink(oldSize: nat, newSize: nat)
      requires Valid() && value.Arr? && newSize <= oldSize == |Contents()|
      modifies this
      ensures Valid() && Contents() == Trim(old(Contents())[..newSize])
    {
      hide Valid, Contents, Trim, ShrinkRow, Ends;
      ghost var before := Contents();
      var index := newSize;
      ContentsEnd();
      ShrinkStart(before, newSize);
      while index < oldSize
        invariant newSize <= index <= oldSize == |before| && Ends(before)
        invariant Valid() && value.Arr? && Contents() == ShrinkRow(before, newSize, index)
      {
        ShrinkStep(before, newSize, index);
        EraseAt(index);
        index := index + 1;
      }
      ShrinkEnd(before, newSize);
    }

    lemma ContentsEnd()
      requires Valid()
      ensures Ends(Contents())
    {
      if value.Arr? {
        SlotsEnd(value.elems);
      }
    }

    method EraseAt(index: nat)
      requires Valid() && value.Arr? && index < |Contents()|
      modifies this
      ensures Valid() && value.Arr? && Contents() == Trim(old(Contents())[index := None])
    {
      hide Slots, Sorted, Erase, Trim;
      EraseSlot(value.elems, index);
      value := Arr(Erase(value.elems, Index(index)));
    }
  }

  // ---------------------------------------------------------------- steps on rows of positions

  lemma PutTouched(s: seq<Option<Value>>, i: nat, v: Value)
    ensures SlotPut(Touched(s, i), i, v) == SlotPut(s, i, v)
  {
  }

  /** The positions when the loop of insert is at `i`: those from `i` on were moved up, and a null stands at `i`. */
  ghost function InsertRow(s: seq<Option<Value>>, i: nat): seq<Option<Value>>
    requires i <= |s|
  {
    if i == |s| then s else s[..i] + [Some(Null)] + Filled(s[i..])
  }

  lemma InsertStart(s: seq<Option<Value>>)
    ensures InsertRow(s, |s|) == s
  {
  }

  lemma InsertStep(s: seq<Option<Value>>, i: nat)
    requires 0 < i <= |s| && Ends(s)
    ensures var a := Touched(InsertRow(s, i), i - 1);
            var b := Touched(a, i);
            SlotPut(SlotPut(b, i, a[i - 1].value), i - 1, b[i].value) == InsertRow(s, i - 1)
  {
    hide InsertRow;
    var a := Touched(InsertRow(s, i), i - 1);
    InsertRead(s, i);
    var up := if i == |s| then [] else [Some(Null)] + Filled(s[i..]);
    var before, filled := s[..i - 1], OrNull(s[i - 1]);
    assert a == before + [filled] + up;
    var b := Touched(a, i);
    assert b == before + [filled] + [Some(Null)] + Filled(s[i..]);
    InsertSwap(before, filled.value, Filled(s[i..]));
    InsertNext(s, i);
  }

  lemma InsertRead(s: seq<Option<Value>>, i: nat)
    requires 0 < i <= |s| && Ends(s)
    ensures Touched(InsertRow(s, i), i - 1) == s[..i - 1] + [OrNull(s[i - 1])] + if i == |s| then []
            else [Some(Null)] + Filled(s[i..])
  {
  }

  lemma InsertSwap(before: seq<Option<Value>>, v: Value, up: seq<Option<Value>>)
    ensures var row := before + [Some(v)] + [Some(Null)] + up;
            SlotPut(SlotPut(row, |before| + 1, v), |before|, Null) == before + [Some(Null)] + ([Some(v)] + up)
  {
  }

  lemma InsertNext(s: seq<Option<Value>>, i: nat)
    requires 0 < i <= |s|
    ensures s[..i - 1] + [Some(Null)] + ([OrNull(s[i - 1])] + Filled(s[i..])) == InsertRow(s, i - 1)
  {
    assert [OrNull(s[i - 1])] + Filled(s[i..]) == Filled(s[i - 1..]);
  }

  lemma InsertLast(s: seq<Option<Value>>, i: nat, v: Value)
    requires i <= |s|
    ensures SlotPut(InsertRow(s, i), i, v) == SlotInsert(s, i, v)
  {
    if i == |s| {
      assert Filled(s[i..]) == [] && s[..i] == s && Gaps(0) == [];
    } else {
      assert (s[..i] + [Some(Null)] + Filled(s[i..]))[i := Some(v)] == s[..i] + [Some(v)] + Filled(s[i..]);
    }
  }

  /** The positions when the loop of removeIndex is at `i`: what stood between was moved down, and `i` was only read. */
  ghost function RemoveRow(s: seq<Option<Value>>, k: nat, i: nat): seq<Option<Value>>
    requires k <= i < |s|
  {
    s[..k] + Filled(s[k + 1..i + 1]) + [OrNull(s[i])] + s[i + 1..]
  }

  lemma RemoveStart(s: seq<Option<Value>>, k: nat)
    requires k < |s| && s[k].Some?
    ensures RemoveRow(s, k, k) == s
  {
  }

  lemma RemoveStep(s: seq<Option<Value>>, k: nat, i: nat)
    requires k <= i < |s| - 1
    ensures var a := Touched(RemoveRow(s, k, i), i + 1); SlotPut(a, i, a[i + 1].value) == RemoveRow(s, k, i + 1)
  {
    hide Filled, OrNull, Touched, SlotPut;
    var front := s[..k] + Filled(s[k + 1..i + 1]);
    assert s[i + 1..] == [s[i + 1]] + s[i + 2..];
    CopyDown(front, OrNull(s[i]), s[i + 1], s[i + 2..]);
    FilledStep(s, k + 1, i + 1);
    assert front + [OrNull(s[i + 1])] == s[..k] + Filled(s[k + 1..i + 2]);
  }

  lemma FilledStep(s: seq<Option<Value>>, j: nat, i: nat)
    requires j <= i < |s|
    ensures Filled(s[j..i]) + [OrNull(s[i])] == Filled(s[j..i + 1])
  {
    assert s[j..i + 1] == s[j..i] + [s[i]];
  }

  lemma CopyDown(front: seq<Option<Value>>, x: Option<Value>, y: Option<Value>, rest: seq<Option<Value>>)
    ensures var a := Touched(front + [x] + ([y] + rest), |front| + 1);
            SlotPut(a, |front|, a[|front| + 1].value) == front + [OrNull(y)] + [OrNull(y)] + rest
  {
    var a := Touched(front + [x] + ([y] + rest), |front| + 1);
    assert a == front + [x] + [OrNull(y)] + rest;
  }

  lemma RemoveEnd(s: seq<Option<Value>>, k: nat)
    requires k < |s|
    ensures |RemoveRow(s, k, |s| - 1)| == |s| && RemoveRow(s, k, |s| - 1)[..|s| - 1] == s[..k] + Filled(s[k + 1..])
  {
  }

  lemma RemoveRest(s: seq<Option<Value>>, k: nat, row: seq<Option<Value>>)
    requires k < |s| == |row| && row[..|s| - 1] == s[..k] + Filled(s[k + 1..])
    ensures Trim(row[|s| - 1 := None]) == SlotRemove(s, k)
  {
    assert row[|s| - 1 := None][..|s| - 1] == row[..|s| - 1];
  }

  lemma TrimEnds(s: seq<Option<Value>>)
    requires Ends(s)
    ensures Trim(s) == s
  {
  }

  /** The positions when the loop of resize is at `i`. */
  ghost function ShrinkRow(s: seq<Option<Value>>, n: nat, i: nat): seq<Option<Value>>
    requires n <= i <= |s|
  {
    Trim(s[..n] + Gaps(i - n) + s[i..])
  }

  lemma ShrinkStart(s: seq<Option<Value>>, n: nat)
    requires n <= |s| && Ends(s)
    ensures ShrinkRow(s, n, n) == s
  {
    assert s[..n] + Gaps(0) + s[n..] == s;
    TrimEnds(s);
  }

  lemma ShrinkStep(s: seq<Option<Value>>, n: nat, i: nat)
    requires n <= i < |s| && Ends(s)
    ensures |ShrinkRow(s, n, i)| == |s| && Trim(ShrinkRow(s, n, i)[i := None]) == ShrinkRow(s, n, i + 1)
  {
    TrimEnds(s[..n] + Gaps(i - n) + s[i..]);
    assert (s[..n] + Gaps(i - n) + s[i..])[i := None] == s[..n] + Gaps(i + 1 - n) + s[i + 1..];
  }

  lemma ShrinkEnd(s: seq<Option<Value>>, n: nat)
    requires n <= |s|
    ensures ShrinkRow(s, n, |s|) == Trim(s[..n])
  {
    assert s[..n] + Gaps(|s| - n) + s[|s|..] == s[..n] + Gaps(|s| - n);
    TrimGaps(s[..n], |s| - n);
  }

  lemma {:induction false} TrimGaps(s: seq<Option<Value>>, k: nat)
    ensures Trim(s + Gaps(k)) == Trim(s)
  {
    if k > 0 {
      assert (s + Gaps(k))[..|s| + k - 1] == s + Gaps(k - 1);
      TrimGaps(s, k - 1);
    } else {
      assert s + Gaps(0) == s;
    }
  }

  // ---------------------------------------------------------------- main results

  ghost function Present(c: seq<Value>): (s: seq<Option<Value>>)
    ensures |s| == |c| && Full(s) && Ends(s)
  {
    seq(|c|, i requires 0 <= i < |c| => Some(c[i]))
  }

  /** Without gaps every operation is the edit of a sequence: writing and reading, ... */
  lemma FullPut(c: seq<Value>, i: nat, v: Value)
    requires i <= |c|
    ensures SlotPut(Present(c), i, v) == Present(if i < |c| then c[i := v] else c + [v])
    ensures i < |c| ==> Touched(Present(c), i) == Present(c)
  {
  }

  /** ... insertion, ... */
  lemma FullInsert(c: seq<Value>, i: nat, v: Value)
    requires i <= |c|
    ensures SlotInsert(Present(c), i, v) == Present(c[..i] + [v] + c[i..])
  {
  }

  /** ... removal, ... */
  lemma FullRemove(c: seq<Value>, i: nat)
    requires i < |c|
    ensures SlotRemove(Present(c), i) == Present(c[..i] + c[i + 1..])
  {
    var rest := Present(c)[..i] + Filled(Present(c)[i + 1..]);
    assert rest == Present(c[..i] + c[i + 1..]);
    TrimEnds(rest);
  }

  /** ... and resizing. */
  lemma FullResize(c: seq<Value>, n: nat)
    ensures n <= |c| ==> Trim(Present(c)[..n]) == Present(c[..n])
    ensures Present(c) + Nulls(n) == Present(c + seq(n, _ => Null))
  {
    if n <= |c| {
      assert Present(c)[..n] == Present(c[..n]);
      TrimEnds(Present(c[..n]));
    }
  }

  /** Writing keeps an array without gaps exactly when the index is at most the size: index 5 of an empty one does
      not. */
  lemma FullPutExactly(s: seq<Option<Value>>, i: nat, v: Value)
    requires Full(s)
    ensures Full(SlotPut(s, i, v)) <==> i <= |s|
  {
    if i > |s| {
      assert SlotPut(s, i, v)[|s|].None?;
    }
  }

  /** Removing a present index of any array takes one off the size exactly when it was not the last, or was the only
      position, or the one before it is present. */
  lemma RemoveExactly(s: seq<Option<Value>>, k: nat)
    requires Ends(s) && k < |s| && s[k].Some?
    ensures |SlotRemove(s, k)| == |s| - 1 <==> k + 1 < |s| || |s| == 1 || s[|s| - 2].Some?
  {
    var rest := s[..k] + Filled(s[k + 1..]);
    if k + 1 < |s| || |s| == 1 || s[|s| - 2].Some? {
      TrimEnds(rest);
    }
  }

  /** The assertion at the end of resize holds exactly when the array grows or stays, is emptied, or is cut right after
      a present element. */
  lemma ResizeExactly(s: seq<Option<Value>>, n: nat)
    requires Ends(s) && n <= |s|
    ensures |Trim(s[..n])| == n <==> n == 0 || n == |s| || s[n - 1].Some?
  {
    if n == 0 || n == |s| || s[n - 1].Some? {
      assert n == |s| ==> s[..n] == s;
      TrimEnds(s[..n]);
    }
  }

  /** The keys of an array without gaps are exactly the numbers below its size. */
  lemma FullIsDense(m: seq<Member>)
    requires Indexed(m) && Sorted(m)
    ensures Full(Slots(m)) <==> Dense(m)
  {
    if Dense(m) {
      forall i | 0 <= i < |m| ensures Slots(m)[i].Some? {
        FindsKey(m, Index(i), i);
      }
    } else if Full(Slots(m)) {
      FullKeys(m, |m|);
    }
  }

  lemma {:induction false} FullKeys(m: seq<Member>, n: nat)
    requires Indexed(m) && Sorted(m) && Full(Slots(m)) && n <= |m|
    ensures forall i :: 0 <= i < n ==> m[i].key == Index(i)
  {
    if n > 0 {
      FullKeys(m, n - 1);
      FullKey(m, n - 1);
    }
  }

  lemma FullKey(m: seq<Member>, n: nat)
    requires Indexed(m) && Sorted(m) && Full(Slots(m)) && n < |m| && forall i :: 0 <= i < n ==> m[i].key == Index(i)
    ensures m[n].key == Index(n)
  {
    hide Sorted;
    LastIsLargest(m, n);
    KeyNotBelow(m, n);
    assert Slots(m)[n].Some?;
    KeyNotBelow(m, LowerBound(m, Index(n)));
  }

  lemma {:induction false} KeyNotBelow(m: seq<Member>, p: nat)
    requires Indexed(m) && Sorted(m) && p < |m|
    ensures m[p].key.i >= p
  {
    if p > 0 {
      KeyNotBelow(m, p - 1);
      assert KeyLess(m[p - 1].key, m[p].key);
    }
  }
}
