/** The pool of smoke sprites: a singly linked free list and a doubly linked used list over a fixed set of nodes. */
module SmokeSprites {
  const MAX_SMOKESPRITES: nat := 512

  /** The part of centity_t that smoke emitters use. */
  class Centity {
    var miscTime: int         // meant to be how many sprites of this emitter are in use
    var currentValid: bool    // whether the entity is in the current snapshot
    var interpolate: bool     // whether it was in the one before, without a teleport
  }

  class Sprite {
    var next: Sprite?
    var prev: Sprite?
    var smokebomb: Centity?

    constructor ()
      ensures next == null && prev == null && smokebomb == null
    {
      next, prev, smokebomb := null, null, null;
    }
  }

  // ---------------------------------------------------------------- lists of nodes

  /** The fields of all nodes at one moment. */
  datatype Links = Links(next: map<Sprite, Sprite?>, prev: map<Sprite, Sprite?>, bomb: map<Sprite, Centity?>)

  ghost predicate Covers(h: Links, s: seq<Sprite>)
  {
    forall i :: 0 <= i < |s| ==> s[i] in h.next && s[i] in h.prev && s[i] in h.bomb
  }

  ghost predicate Distinct(s: seq<Sprite>)
  {
    forall i, j :: 0 <= i < j < |s| ==> s[i] != s[j]
  }

  ghost predicate Disjoint(s: seq<Sprite>, t: seq<Sprite>)
  {
    forall i, j :: 0 <= i < |s| && 0 <= j < |t| ==> s[i] != t[j]
  }

  /** The neighbours of position `i` in a list. */
  ghost function After(s: seq<Sprite>, i: int): Sprite?
  {
    if 0 <= i + 1 < |s| then s[i + 1] else null
  }

  ghost function Before(s: seq<Sprite>, i: int): Sprite?
  {
    if 0 <= i - 1 < |s| then s[i - 1] else null
  }

  /** The links of used nodes mirror each other, and each node knows its emitter. */
  ghost predicate UsedLinked(h: Links, used: seq<Sprite>, owners: seq<Centity?>)
  {
    Covers(h, used) && |owners| == |used|
    && forall i :: 0 <= i < |used| ==>
         h.next[used[i]] == After(used, i) && h.prev[used[i]] == Before(used, i) && h.bomb[used[i]] == owners[i]
  }

  ghost predicate FreeLinked(h: Links, free: seq<Sprite>)
  {
    Covers(h, free)
    && forall i :: 0 <= i < |free| ==>
         h.next[free[i]] == After(free, i) && h.prev[free[i]] == null && h.bomb[free[i]] == null
  }

  /** Two lists without common nodes, and neither goes through a node twice. */
  ghost predicate Lists(h: Links, used: seq<Sprite>, owners: seq<Centity?>, free: seq<Sprite>)
  {
    Distinct(used) && Distinct(free) && Disjoint(used, free) && UsedLinked(h, used, owners) && FreeLinked(h, free)
  }

  /** The fields after the first free node was appended to the used list. */
  ghost function AllocLinks(h: Links, last: Sprite?, alloc: Sprite): Links
  {
    Links((if last == null then h.next else h.next[last := alloc])[alloc := null], h.prev[alloc := last], h.bomb)
  }

  lemma AllocKeeps(h: Links, u: seq<Sprite>, o: seq<Centity?>, f: seq<Sprite>)
    requires Lists(h, u, o, f) && f != []
    ensures Lists(AllocLinks(h, Before(u, |u|), f[0]), u + [f[0]], o + [null], f[1..])
  {
    hide UsedLinked, FreeLinked, AllocLinks;
    AllocUsed(h, u, o, f);
    AllocFree(h, u, o, f);
    AllocDistinct(u, f);
  }

  lemma AllocDistinct(u: seq<Sprite>, f: seq<Sprite>)
    requires f != [] && Distinct(u) && Distinct(f) && Disjoint(u, f)
    ensures Distinct(u + [f[0]]) && Distinct(f[1..]) && Disjoint(u + [f[0]], f[1..])
  {
  }

  lemma AllocUsed(h: Links, u: seq<Sprite>, o: seq<Centity?>, f: seq<Sprite>)
    requires f != [] && Distinct(u) && Disjoint(u, f) && UsedLinked(h, u, o) && FreeLinked(h, f)
    ensures UsedLinked(AllocLinks(h, Before(u, |u|), f[0]), u + [f[0]], o + [null])
  {
    hide Distinct, Disjoint;
    var h', u' := AllocLinks(h, Before(u, |u|), f[0]), u + [f[0]];
    assert f[0] in h.bomb && h.bomb[f[0]] == null;
    forall i | 0 <= i < |u|
      ensures u[i] in h'.next && u[i] in h'.prev && u[i] in h'.bomb
      ensures h'.next[u[i]] == After(u', i) && h'.prev[u[i]] == Before(u', i) && h'.bomb[u[i]] == o[i]
    {
      Apart(u, f, i);
      Same(u, i, |u| - 1);
      assert u[i] in h.next && u[i] in h.prev && u[i] in h.bomb;
    }
  }

  lemma AllocFree(h: Links, u: seq<Sprite>, o: seq<Centity?>, f: seq<Sprite>)
    requires f != [] && Distinct(f) && Disjoint(u, f) && UsedLinked(h, u, o) && FreeLinked(h, f)
    ensures FreeLinked(AllocLinks(h, Before(u, |u|), f[0]), f[1..])
  {
    var h', f' := AllocLinks(h, Before(u, |u|), f[0]), f[1..];
    forall i | 0 <= i < |f'|
      ensures f'[i] in h'.next && f'[i] in h'.prev && f'[i] in h'.bomb
      ensures h'.next[f'[i]] == After(f', i) && h'.prev[f'[i]] == null && h'.bomb[f'[i]] == null
    {
      assert f'[i] == f[i + 1] && After(f', i) == After(f, i + 1);
    }
  }

  lemma Apart(u: seq<Sprite>, f: seq<Sprite>, i: nat)
    requires Disjoint(u, f) && i < |u| && f != []
    ensures u[i] != f[0]
  {
  }

  /** The fields after node `d` left the used list between `before` and `after` for the front of the free list. */
  ghost function DeallocLinks(h: Links, d: Sprite, before: Sprite?, after: Sprite?, first: Sprite?): Links
  {
    Links((if before == null then h.next else h.next[before := after])[d := first],
          (if after == null then h.prev else h.prev[after := before])[d := null],
          h.bomb[d := null])
  }

  lemma DeallocKeeps(h: Links, u: seq<Sprite>, o: seq<Centity?>, f: seq<Sprite>, k: nat)
    requires Lists(h, u, o, f) && k < |u|
    ensures Lists(DeallocLinks(h, u[k], Before(u, k), After(u, k), After(f, -1)), u[..k] + u[k + 1..],
                  o[..k] + o[k + 1..], [u[k]] + f)
  {
    hide UsedLinked, FreeLinked, DeallocLinks;
    DeallocUsed(h, u, o, k, After(f, -1));
    DeallocFree(h, u, f, o, k);
    DeallocDistinct(u, f, k);
  }

  lemma DeallocDistinct(u: seq<Sprite>, f: seq<Sprite>, k: nat)
    requires k < |u| && Distinct(u) && Distinct(f) && Disjoint(u, f)
    ensures Distinct(u[..k] + u[k + 1..]) && Distinct([u[k]] + f) && Disjoint(u[..k] + u[k + 1..], [u[k]] + f)
  {
  }

  lemma Same(s: seq<Sprite>, i: int, j: int)
    requires Distinct(s)
    ensures 0 <= i < |s| && 0 <= j < |s| && s[i] == s[j] ==> i == j
  {
  }

  lemma DeallocUsed(h: Links, u: seq<Sprite>, o: seq<Centity?>, k: nat, first: Sprite?)
    requires Distinct(u) && UsedLinked(h, u, o) && k < |u|
    ensures UsedLinked(DeallocLinks(h, u[k], Before(u, k), After(u, k), first), u[..k] + u[k + 1..],
                       o[..k] + o[k + 1..])
  {
    hide Distinct, DeallocLinks, Before, After;
    var h' := DeallocLinks(h, u[k], Before(u, k), After(u, k), first);
    var u', o' := u[..k] + u[k + 1..], o[..k] + o[k + 1..];
    forall i | 0 <= i < |u'|
      ensures u'[i] in h'.next && u'[i] in h'.prev && u'[i] in h'.bomb
      ensures h'.next[u'[i]] == After(u', i) && h'.prev[u'[i]] == Before(u', i) && h'.bomb[u'[i]] == o'[i]
    {
      var j := if i < k then i else i + 1;
      assert u'[i] == u[j] && o'[i] == o[j];
      assert u[j] in h.next && u[j] in h.prev && u[j] in h.bomb;
      NeighboursCut(u, k, i);
      DeallocAt(h, u, k, j, first);
    }
  }

  // A node that stays gets new neighbours only next to the cut.
  lemma NeighboursCut(u: seq<Sprite>, k: nat, i: nat)
    requires k < |u| && i < |u| - 1
    ensures var u', j := u[..k] + u[k + 1..], if i < k then i else i + 1;
            After(u', i) == (if j == k - 1 then After(u, k) else After(u, j))
            && Before(u', i) == (if j == k + 1 then Before(u, k) else Before(u, j))
  {
  }

  lemma DeallocAt(h: Links, u: seq<Sprite>, k: nat, j: nat, first: Sprite?)
    requires Distinct(u) && Covers(h, u) && k < |u| && j < |u| && j != k
    ensures var h' := DeallocLinks(h, u[k], Before(u, k), After(u, k), first);
            u[j] in h'.next && u[j] in h'.prev && u[j] in h'.bomb && h'.bomb[u[j]] == h.bomb[u[j]]
            && h'.next[u[j]] == (if j == k - 1 then After(u, k) else h.next[u[j]])
            && h'.prev[u[j]] == if j == k + 1 then Before(u, k) else h.prev[u[j]]
  {
    hide Distinct;
    Same(u, j, k);
    Same(u, j, k - 1);
    Same(u, j, k + 1);
  }

  lemma DeallocFree(h: Links, u: seq<Sprite>, f: seq<Sprite>, o: seq<Centity?>, k: nat)
    requires Disjoint(u, f) && UsedLinked(h, u, o) && FreeLinked(h, f) && k < |u|
    ensures FreeLinked(DeallocLinks(h, u[k], Before(u, k), After(u, k), After(f, -1)), [u[k]] + f)
  {
    var h', f' := DeallocLinks(h, u[k], Before(u, k), After(u, k), After(f, -1)), [u[k]] + f;
    forall i | 0 <= i < |f'|
      ensures f'[i] in h'.next && f'[i] in h'.prev && f'[i] in h'.bomb
      ensures h'.next[f'[i]] == After(f', i) && h'.prev[f'[i]] == null && h'.bomb[f'[i]] == null
    {
      if i > 0 {
        assert f'[i] == f[i - 1] && After(f', i) == After(f, i - 1);
      } else {
        assert After(f', 0) == After(f, -1);
      }
    }
  }

  lemma OwnerKeeps(h: Links, u: seq<Sprite>, o: seq<Centity?>, f: seq<Sprite>, k: nat, c: Centity?)
    requires Lists(h, u, o, f) && k < |u|
    ensures Lists(h.(bomb := h.bomb[u[k] := c]), u, o[k := c], f)
  {
  }

  // ---------------------------------------------------------------- counting

  /** How many of the used sprites belong to an emitter. */
  ghost function CountOf(owners: seq<Centity?>, c: Centity): nat
  {
    if owners == [] then 0 else CountOf(owners[..|owners| - 1], c) + if owners[|owners| - 1] == c then 1 else 0
  }

  ghost function Interpolated(emitters: set<Centity>): set<Centity>
    reads emitters
  {
    set c | c in emitters && c.interpolate
  }

  ghost function Present(emitters: set<Centity>): set<Centity>
    reads emitters
  {
    set c | c in emitters && c.currentValid
  }

  ghost function Counts(emitters: set<Centity>): map<Centity, int>
    reads emitters
  {
    map c | c in emitters :: c.miscTime
  }

  /** The state after the entities of a snapshot, or some of them, were moved on. */
  ghost predicate Moved(next: seq<Centity>, emitters: set<Centity>, valid: set<Centity>, smooth: set<Centity>,
                        counts: map<Centity, int>)
    requires emitters <= counts.Keys
    reads emitters
  {
    forall c :: c in emitters ==>
      && (c.currentValid <==> c in next || c in valid)
      && (c.interpolate <==> c in smooth && c !in next)
      && c.miscTime == if c in Appearing(next, smooth) then 0 else counts[c]
  }

  lemma NothingMoved(emitters: set<Centity>, valid: set<Centity>, smooth: set<Centity>, counts: map<Centity, int>)
    requires emitters <= counts.Keys && forall c :: c in emitters ==> c.miscTime == counts[c]
    requires forall c :: c in emitters ==> (c.currentValid <==> c in valid) && (c.interpolate <==> c in smooth)
    ensures Moved([], emitters, valid, smooth, counts)
  {
  }

  /** The entities of a snapshot that are not interpolated, or appear a second time. */
  ghost function Appearing(next: seq<Centity>, smooth: set<Centity>): (r: set<Centity>)
    ensures forall c :: c in r ==> c in next
  {
    if next == [] then {}
    else
      var front, last := next[..|next| - 1], next[|next| - 1];
      Appearing(front, smooth) + if last in smooth && last !in front then {} else {last}
  }

  /** The sprites of one emitter lose it. */
  ghost function Disowned(owners: seq<Centity?>, c: Centity): (r: seq<Centity?>)
    ensures c !in r && |r| == |owners|
  {
    seq(|owners|, i requires 0 <= i < |owners| => if owners[i] == c then null else owners[i])
  }

  lemma {:induction false} CountConcat(a: seq<Centity?>, b: seq<Centity?>, c: Centity)
    ensures CountOf(a + b, c) == CountOf(a, c) + CountOf(b, c)
  {
    if b == [] {
      assert a + b == a;
    } else {
      assert (a + b)[..|a + b| - 1] == a + b[..|b| - 1];
      CountConcat(a, b[..|b| - 1], c);
    }
  }

  lemma CountOne(x: Centity?, c: Centity)
    ensures CountOf([x], c) == if x == c then 1 else 0
  {
    assert [x][..0] == [];
  }

  lemma CountRemove(o: seq<Centity?>, k: nat, c: Centity)
    requires k < |o|
    ensures CountOf(o[..k] + o[k + 1..], c) == CountOf(o, c) - if o[k] == c then 1 else 0
  {
    hide CountOf;
    CountOne(o[k], c);
    CountConcat(o[..k], o[k + 1..], c);
    CountConcat(o[..k], [o[k]], c);
    CountConcat(o[..k] + [o[k]], o[k + 1..], c);
    assert o == o[..k] + [o[k]] + o[k + 1..];
  }

  lemma CountAppend(o: seq<Centity?>, x: Centity?, c: Centity)
    ensures CountOf(o + [x], c) == CountOf(o, c) + if x == c then 1 else 0
  {
    CountOne(x, c);
    CountConcat(o, [x], c);
  }

  // ---------------------------------------------------------------- the pool

  class Pool {
    const sprites: seq<Sprite>
    var count: nat
    var firstFree: Sprite?
    var lastUsed: Sprite?
    ghost const nodes: set<Sprite>     // the nodes of the array
    ghost var used: seq<Sprite>        // from the oldest to lastUsed
    ghost var free: seq<Sprite>        // from firstFree on
    ghost var owners: seq<Centity?>    // the emitter of each used sprite

    ghost function Heap(): Links
      reads nodes
    {
      Links(map x | x in nodes :: x.next, map x | x in nodes :: x.prev, map x | x in nodes :: x.smokebomb)
    }

    ghost predicate Shape()
    {
      |sprites| == MAX_SMOKESPRITES && Distinct(sprites) && nodes == set i | 0 <= i < |sprites| :: sprites[i]
    }

    /** The lists are acyclic and disjoint, they take up all the nodes, and the heads, the tail and the count are
        theirs. */
    ghost predicate Valid()
      reads this, nodes
    {
      && Shape() && Lists(Heap(), used, owners, free) && |used| + |free| == MAX_SMOKESPRITES
      && count == |used| && firstFree == After(free, -1) && lastUsed == Before(used, |used|)
    }

    constructor ()
      ensures Valid() && used == [] && free == sprites && |sprites| == 512 && fresh(nodes)
    {
      var all: seq<Sprite> := [];
      while |all| < MAX_SMOKESPRITES
        invariant |all| <= MAX_SMOKESPRITES && Distinct(all) && forall i :: 0 <= i < |all| ==> fresh(all[i])
      {
        var s := new Sprite();
        all := all + [s];
      }
      sprites := all;
      nodes := set i | 0 <= i < |all| :: all[i];
      count, firstFree, lastUsed, used, free, owners := 0, null, null, [], [], [];
      new;
      Init({});
    }

    /** InitSmokeSprites, at the start and again at a restart of the map. It forgets the sprites and leaves the counts
        of the emitters standing, so the counts are right afterwards exactly when all of them were zero. */
    method Init(ghost emitters: set<Centity>)
      requires Shape()
      modifies this, nodes
      ensures Valid() && used == [] && free == sprites
      ensures Counted(emitters, map c | c in emitters :: 0 - old(c.miscTime))
      ensures Counted(emitters, Nothing(emitters)) <==> forall c :: c in emitters ==> old(c.miscTime) == 0
    {
      hide Lists, Heap, After, Before;
      Clear();
      Chain();
      firstFree := sprites[0];
      lastUsed := null;
      count := 0;
      used, free, owners := [], sprites, [];
      InitialLists();
    }

    // Every link and every emitter pointer of the pool is cleared.
    method Clear()
      requires Shape()
      modifies nodes
      ensures forall i ::
              0 <= i < |sprites| ==> sprites[i].next == null && sprites[i].prev == null && sprites[i].smokebomb == null
    {
      forall i | 0 <= i < |sprites| {
        sprites[i].next := null;
      }
      forall i | 0 <= i < |sprites| {
        sprites[i].prev := null;
      }
      forall i | 0 <= i < |sprites| {
        sprites[i].smokebomb := null;
      }
    }

    // The loop of InitSmokeSprites.
    method Chain()
      requires Shape() && forall i :: 0 <= i < |sprites| ==> sprites[i].next == null
      modifies nodes`next
      ensures forall i :: 0 <= i < |sprites| ==> sprites[i].next == After(sprites, i)
    {
      var i := 0;
      while i < MAX_SMOKESPRITES - 1
        invariant 0 <= i <= MAX_SMOKESPRITES - 1
        invariant forall k :: 0 <= k < |sprites| ==> sprites[k].next == if k < i then After(sprites, k) else null
      {
        sprites[i].next := sprites[i + 1];
        i := i + 1;
      }
    }

    lemma InitialLists()
      requires Shape()
      requires forall i :: 0 <= i < |sprites| ==>
               sprites[i].next == After(sprites, i) && sprites[i].prev == null && sprites[i].smokebomb == null
      ensures Lists(Heap(), [], [], sprites) && After(sprites, -1) == sprites[0] && Before([], 0) == null
    {
      var h := Heap();
      forall i | 0 <= i < |sprites|
        ensures sprites[i] in h.next && sprites[i] in h.prev && sprites[i] in h.bomb
        ensures h.next[sprites[i]] == After(sprites, i) && h.prev[sprites[i]] == null && h.bomb[sprites[i]] == null
      {
        assert sprites[i] in nodes;
      }
    }

    /** AllocSmokeSprite: the first free node becomes the last used one; it fails exactly when all nodes are used. */
    method Alloc() returns (alloc: Sprite?)
      requires Valid()
      modifies this, nodes
      ensures Valid() && (alloc == null <==> |old(used)| == 512)
      ensures alloc == null ==> used == old(used) && free == old(free) && owners == old(owners)
      ensures alloc != null ==> old(free) != [] && alloc == old(free)[0]
      ensures alloc != null ==> used == old(used) + [alloc] && free == old(free)[1..] && owners == old(owners) + [null]
    {
      hide Lists, Shape, AllocLinks, Heap;
      if count >= MAX_SMOKESPRITES {
        return null;
      }
      ghost var h, u, f := Heap(), used, free;
      FreeFacts(h);
      AllocKeeps(h, used, owners, free);
      alloc := firstFree;
      AppendLast(alloc);
      count := count + 1;
      used, free, owners := used + [f[0]], f[1..], owners + [null];
    }

    method AppendLast(alloc: Sprite)
      requires alloc in nodes && (lastUsed != null ==> lastUsed in nodes) && lastUsed != alloc
      modifies this`firstFree, this`lastUsed, nodes`next, nodes`prev
      ensures firstFree == old(alloc.next) && lastUsed == alloc
      ensures Heap() == AllocLinks(old(Heap()), old(lastUsed), alloc)
    {
      ghost var h, last := Heap(), lastUsed;
      RelinkLast(alloc);
      HeapIs(AllocLinks(h, last, alloc));
    }

    // The assignments to links of AllocSmokeSprite.
    method RelinkLast(alloc: Sprite)
      requires alloc in nodes && (lastUsed != null ==> lastUsed in nodes) && lastUsed != alloc
      modifies this`firstFree, this`lastUsed, nodes`next, nodes`prev
      ensures firstFree == old(alloc.next) && lastUsed == alloc
      ensures forall x ::
              x in nodes ==> x.next == if x == alloc then null else if x == old(lastUsed) then alloc else old(x.next)
      ensures forall x :: x in nodes ==> x.prev == if x == alloc then old(lastUsed) else old(x.prev)
    {
      firstFree := alloc.next;
      if lastUsed != null {
        lastUsed.next := alloc;
      }
      alloc.next := null;
      alloc.prev := lastUsed;
      lastUsed := alloc;
    }

    /** DeAllocSmokeSprite: the node leaves the used list for the front of the free list; its predecessor is
        returned. */
    method Dealloc(dealloc: Sprite, ghost k: nat) returns (previous: Sprite?)
      requires Valid() && k < |used| && used[k] == dealloc
      modifies this, nodes
      ensures Valid()
      ensures used == old(used)[..k] + old(used)[k + 1..] && owners == old(owners)[..k] + old(owners)[k + 1..]
      ensures free == [dealloc] + old(free)
      ensures previous == Before(old(used), k)
    {
      hide Lists, Shape, DeallocLinks, Heap;
      ghost var h, u, f := Heap(), used, free;
      NodeFacts(h, k);
      DeallocKeeps(h, used, owners, free, k);
      previous := RemoveFromUsed(dealloc, Before(u, k), After(u, k));
      count := count - 1;
      used, free, owners := u[..k] + u[k + 1..], [dealloc] + f, owners[..k] + owners[k + 1..];
      assert lastUsed == Before(used, |used|);
    }

    method RemoveFromUsed(dealloc: Sprite, ghost before: Sprite?, ghost after: Sprite?) returns (previous: Sprite?)
      requires dealloc in nodes && dealloc.prev == before && dealloc.next == after && before != dealloc
               && after != dealloc
      requires (before == null || before in nodes) && (after == null || after in nodes)
      modifies this`firstFree, this`lastUsed, nodes
      ensures previous == before && firstFree == dealloc && lastUsed == if after == null then before else old(lastUsed)
      ensures Heap() == DeallocLinks(old(Heap()), dealloc, before, after, old(firstFree))
    {
      ghost var h, first := Heap(), firstFree;
      previous := Relink(dealloc, before, after);
      HeapIs(DeallocLinks(h, dealloc, before, after, first));
    }

    lemma HeapIs(h: Links)
      requires h.next.Keys == nodes && h.prev.Keys == nodes && h.bomb.Keys == nodes
      requires forall x :: x in nodes ==> x.next == h.next[x] && x.prev == h.prev[x] && x.smokebomb == h.bomb[x]
      ensures Heap() == h
    {
    }

    lemma FreeFacts(h: Links)
      requires Valid() && h == Heap() && free != []
      ensures free[0] in nodes && free[0].next == After(free, 0)
      ensures lastUsed == null || (lastUsed in nodes && lastUsed != free[0])
    {
      assert free[0] in h.next;
      assert used != [] ==> used[|used| - 1] in h.next;
    }

    lemma NodeFacts(h: Links, k: nat)
      requires Valid() && h == Heap() && k < |used|
      ensures |owners| == |used| && used[k] in nodes && used[k].next == After(used, k)
              && used[k].prev == Before(used, k)
      ensures Before(used, k) != used[k] && After(used, k) != used[k]
      ensures (Before(used, k) == null || Before(used, k) in nodes)
              && (After(used, k) == null || After(used, k) in nodes)
      ensures Before(used, k) == null || After(used, k) == null || Before(used, k) != After(used, k)
    {
      assert used[k] in h.next;
      if k > 0 {
        assert used[k - 1] in h.next;
      }
      if k + 1 < |used| {
        assert used[k + 1] in h.next;
      }
    }

    // The assignments to links of DeAllocSmokeSprite.
    method Relink(dealloc: Sprite, ghost before: Sprite?, ghost after: Sprite?) returns (previous: Sprite?)
      requires dealloc in nodes && dealloc.prev == before && dealloc.next == after && before != dealloc
               && after != dealloc
      requires (before == null || before in nodes) && (after == null || after in nodes)
      modifies this`firstFree, this`lastUsed, nodes
      ensures previous == before && firstFree == dealloc && lastUsed == if after == null then before else old(lastUsed)
      ensures forall x :: x in nodes ==> x.next == if x == dealloc then old(firstFree) else if x == before then after
              else old(x.next)
      ensures forall x ::
              x in nodes ==> x.prev == if x == dealloc then null else if x == after then before else old(x.prev)
      ensures forall x :: x in nodes ==> x.smokebomb == if x == dealloc then null else old(x.smokebomb)
    {
      if dealloc.prev != null {
        dealloc.prev.next := dealloc.next;
      }
      if dealloc.next != null {
        dealloc.next.prev := dealloc.prev;
      } else {
        lastUsed := dealloc.prev;
        if lastUsed != null {
          lastUsed.next := null;
        }
      }
      previous := dealloc.prev;
      dealloc.next, dealloc.prev, dealloc.smokebomb := null, null, null;
      dealloc.next := firstFree;
      firstFree := dealloc;
    }

    // ---------------------------------------------------------------- emitters

    /** Every sprite belongs to nobody or to one of the emitters. */
    ghost predicate Owned(emitters: set<Centity>)
      reads this
    {
      forall i :: 0 <= i < |owners| ==> owners[i] == null || owners[i] in emitters
    }

    /** Each emitter's count falls short of the number of its sprites by its offset. The counts are right when all
        offsets are zero; whatever the counts are, there are such offsets. */
    ghost predicate Counted(emitters: set<Centity>, off: map<Centity, int>)
      reads this, emitters
    {
      Owned(emitters) && emitters <= off.Keys && forall c :: c in emitters ==> c.miscTime == CountOf(owners, c) - off[c]
    }

    ghost function Nothing(emitters: set<Centity>): map<Centity, int>
    {
      map c | c in emitters :: 0
    }

    ghost function Offsets(emitters: set<Centity>): map<Centity, int>
      reads this, emitters
    {
      map c | c in emitters :: CountOf(owners, c) - c.miscTime
    }

    /** Every state has its offsets, and only those. */
    lemma OffsetsExactly(emitters: set<Centity>, off: map<Centity, int>)
      requires Owned(emitters) && off.Keys == emitters
      ensures Counted(emitters, off) <==> off == Offsets(emitters)
    {
    }

    /** CG_SpawnSmokeSprite, with the outcome of the physics as an argument. When the new sprite is stuck, both lists
        are as they were; when the pool is full nothing happens. */
    method Spawn(cent: Centity, physicsOk: bool, ghost emitters: set<Centity>, ghost off: map<Centity, int>)
      returns (ok: bool)
      requires Valid() && Counted(emitters, off) && cent in emitters
      modifies this, nodes, cent`miscTime
      ensures Valid() && Counted(emitters, off)
      ensures ok <==> physicsOk || |old(used)| == 512
      ensures var spawned := physicsOk && |old(used)| < 512;
              used == (if spawned then old(used) + [old(free)[0]] else old(used))
              && owners == (if spawned then old(owners) + [cent] else old(owners))
              && free == (if spawned then old(free)[1..] else old(free))
    {
      hide Lists, Shape, Heap, CountOf;
      ghost var u, f, o := used, free, owners;
      TailFacts();
      var smokesprite := Alloc();
      if smokesprite == null {
        return true;
      }
      SetOwner(smokesprite, cent, |u|);
      if !physicsOk {
        var _ := Dealloc(smokesprite, |u|);
        assert used == u && owners == o && free == f;
        return false;
      }
      cent.miscTime := cent.miscTime + 1;
      assert owners == o + [cent];
      forall c | c in emitters ensures c.miscTime == CountOf(owners, c) - off[c] {
        CountAppend(o, cent, c);
      }
      return true;
    }

    lemma TailFacts()
      requires Valid()
      ensures |owners| == |used| && lastUsed == Before(used, |used|)
    {
    }

    // A used sprite gets a new emitter, or none.
    method SetOwner(s: Sprite, cent: Centity?, ghost k: nat)
      requires Valid() && k < |used| && used[k] == s
      modifies nodes`smokebomb, this`owners
      ensures Valid() && owners == old(owners)[k := cent]
    {
      hide Lists, Shape, After, Before;
      ghost var h := Heap();
      NodeFacts(h, k);
      OwnerKeeps(h, used, owners, free, k, cent);
      s.smokebomb := cent;
      owners := owners[k := cent];
      HeapIs(h.(bomb := h.bomb[s := cent]));
    }

    /** The branch of CG_RenderSmokeGrenadeSmoke for a grenade that starts to smoke: the count is reset without a look
        at the sprites. What it fell short by stays exactly when it was zero, and it is right exactly when the emitter
        has no sprite. */
    method ResetEmitter(cent: Centity, ghost emitters: set<Centity>, ghost off: map<Centity, int>)
      requires Valid() && Counted(emitters, off) && cent in emitters
      modifies cent`miscTime
      ensures Valid() && used == old(used) && free == old(free) && owners == old(owners) && cent.miscTime == 0
      ensures Counted(emitters, off[cent := CountOf(owners, cent)])
      ensures Counted(emitters, off) <==> old(cent.miscTime) == 0
      ensures cent.miscTime == CountOf(owners, cent) <==> cent !in owners
    {
      hide Valid, Lists, CountOf;
      cent.miscTime := 0;
      CountNone(owners, cent);
    }

    /** The unlink branch, for a grenade that is gone. If its count is positive its sprites live on without an emitter,
        and the count ends at what it was too high by; otherwise nothing happens, even if there are sprites. */
    method UnlinkEmitter(cent: Centity, ghost emitters: set<Centity>, ghost off: map<Centity, int>)
      requires Valid() && Counted(emitters, off) && cent in emitters
      modifies nodes`smokebomb, this`owners, cent`miscTime
      ensures Valid() && Counted(emitters, off)
      ensures owners == if old(cent.miscTime) > 0 then Disowned(old(owners), cent) else old(owners)
      ensures cent.miscTime == if old(cent.miscTime) > 0 then 0 - off[cent] else old(cent.miscTime)
      ensures cent !in owners <==> old(cent.miscTime) > 0 || cent !in old(owners)
    {
      hide Lists, Shape, Heap, CountOf;
      TailFacts();
      ghost var o := owners;
      if cent.miscTime > 0 {
        var smokesprite := lastUsed;
        ghost var k := |used|;
        while smokesprite != null
          invariant 0 <= k <= |used| == |o| && Valid() && Counted(emitters, off)
          invariant smokesprite == Before(used, k)
          invariant |owners| == |o|
          invariant forall i :: 0 <= i < |o| ==> owners[i] == if i >= k && o[i] == cent then null else o[i]
          decreases k
        {
          NodeFacts(Heap(), k - 1);
          OwnerOf(k - 1);
          if smokesprite.smokebomb == cent {
            ghost var before := owners;
            SetOwner(smokesprite, null, k - 1);
            cent.miscTime := cent.miscTime - 1;
            forall c | c in emitters ensures c.miscTime == CountOf(owners, c) - off[c] {
              CountReplace(before, k - 1, null, c);
            }
            NodeFacts(Heap(), k - 1);
          }
          smokesprite := smokesprite.prev;
          k := k - 1;
        }
        assert owners == Disowned(o, cent);
        CountNone(owners, cent);
      }
    }

    lemma OwnerOf(k: nat)
      requires Valid() && k < |used|
      ensures |owners| == |used| && used[k].smokebomb == owners[k]
    {
      assert used[k] in Heap().bomb;
    }

    /** CG_RenderSmokeGrenadeSmoke. The emitter's state number, whether it is stuck in a solid, and the outcomes of the
        physics for the first and the second try at each sprite are arguments. What the counts fall short by changes
        only in a reset of a count that is not zero, whether they were right before or not. */
    method Render(cent: Centity, effect1Time: int, stuck: bool, physics: seq<(bool, bool)>,
                  ghost emitters: set<Centity>, ghost off: map<Centity, int>)
      requires Valid() && Counted(emitters, off) && cent in emitters
      modifies this, nodes, cent`miscTime
      ensures Valid()
      ensures Counted(emitters, if effect1Time == 16 then off[cent := CountOf(owners, cent)] else off)
      ensures Counted(emitters, off) <==> !(effect1Time == 16 && old(cent.miscTime) != 0)
      ensures effect1Time <= 16 || stuck ==> used == old(used) && free == old(free)
      ensures effect1Time != -1 && (effect1Time <= 16 || stuck) ==> owners == old(owners)
      ensures effect1Time == 16 ==> cent.miscTime == 0
      ensures effect1Time == -1 ==> cent.miscTime == if old(cent.miscTime) > 0 then 0 - off[cent]
              else old(cent.miscTime)
      ensures effect1Time == -1 ==> (cent !in owners <==> old(cent.miscTime) > 0 || cent !in old(owners))
      ensures effect1Time == -1 ==> owners == if old(cent.miscTime) > 0 then Disowned(old(owners), cent)
              else old(owners)
      ensures effect1Time > 16 && !stuck ==>
                var n := Spawned(|old(free)|, physics);
                used == old(used) + old(free)[..n] && free == old(free)[n..]
                  && owners == old(owners) + seq(n, _ => cent)
    {
      hide Lists, Shape, Heap, CountOf;
      if effect1Time == 16 {
        ResetEmitter(cent, emitters, off);
        return;
      }
      if effect1Time > 16 {
        if stuck {
          return;
        }
        SpawnAll(cent, physics, emitters, off);
      } else if effect1Time == -1 {
        UnlinkEmitter(cent, emitters, off);
      }
    }

    // The loop over the sprites that are due.
    method SpawnAll(cent: Centity, physics: seq<(bool, bool)>, ghost emitters: set<Centity>,
                    ghost off: map<Centity, int>)
      requires Valid() && Counted(emitters, off) && cent in emitters
      modifies this, nodes, cent`miscTime
      ensures Valid() && Counted(emitters, off)
      ensures var n := Spawned(|old(free)|, physics);
              used == old(used) + old(free)[..n] && free == old(free)[n..] && owners == old(owners) + seq(n, _ => cent)
    {
      hide Valid, Counted;
      ghost var u, f, o, n := used, free, owners, 0;
      var i := 0;
      while i < |physics|
        invariant 0 <= i <= |physics| && Valid() && Counted(emitters, off)
        invariant n == Spawned(|f|, physics[..i]) && used == u + f[..n] && free == f[n..]
                  && owners == o + seq(n, _ => cent)
      {
        assert physics[..i + 1][..i] == physics[..i];
        SpawnOne(cent, physics[i], emitters, off);
        if n < |f| && (physics[i].0 || physics[i].1) {
          assert u + f[..n + 1] == u + f[..n] + [f[n]];
          assert o + seq(n + 1, _ => cent) == o + seq(n, _ => cent) + [cent];
          n := n + 1;
        }
        i := i + 1;
      }
      assert physics[..i] == physics;
    }

    // One sprite that is due, tried a second time when the first try is stuck.
    method SpawnOne(cent: Centity, physics: (bool, bool), ghost emitters: set<Centity>, ghost off: map<Centity, int>)
      requires Valid() && Counted(emitters, off) && cent in emitters
      modifies this, nodes, cent`miscTime
      ensures Valid() && Counted(emitters, off)
      ensures if old(free) != [] && (physics.0 || physics.1)
              then used == old(used) + [old(free)[0]] && free == old(free)[1..] && owners == old(owners) + [cent]
              else used == old(used) && free == old(free) && owners == old(owners)
    {
      hide Lists, Shape, Heap, Counted;
      var ok := Spawn(cent, physics.0, emitters, off);
      if !ok {
        ok := Spawn(cent, physics.1, emitters, off);
      }
    }

    // ---------------------------------------------------------------- snapshots

    /** CG_ResetEntity, as far as emitters are concerned. */
    method ResetEntity(cent: Centity, ghost emitters: set<Centity>, ghost off: map<Centity, int>)
      requires Valid() && Counted(emitters, off) && cent in emitters
      modifies cent`miscTime
      ensures Valid() && cent.miscTime == 0
      ensures Counted(emitters, off[cent := CountOf(owners, cent)])
      ensures cent.miscTime == CountOf(owners, cent) <==> cent !in owners
    {
      hide Valid, Lists, CountOf;
      cent.miscTime := 0;
      CountNone(owners, cent);
    }

    /** CG_TransitionEntity: an entity that is not interpolated is reset, sprites or not. */
    method TransitionEntity(cent: Centity, ghost emitters: set<Centity>, ghost off: map<Centity, int>)
      requires Valid() && Counted(emitters, off) && cent in emitters
      modifies cent
      ensures Valid() && cent.currentValid && !cent.interpolate
      ensures cent.miscTime == if old(cent.interpolate) then old(cent.miscTime) else 0
      ensures Counted(emitters, if old(cent.interpolate) then off else off[cent := CountOf(owners, cent)])
    {
      hide Lists, Shape, Heap, CountOf, Valid;
      cent.currentValid := true;
      if !cent.interpolate {
        ResetEntity(cent, emitters, off);
      }
      cent.interpolate := false;
    }

    /** CG_SetNextSnap: interpolation is for entities that are in the current snapshot and do not teleport. */
    method SetNextSnap(next: seq<Centity>, teleports: set<Centity>)
      modifies next`interpolate
      ensures forall c :: c in next ==> (c.interpolate <==> c.currentValid && c !in teleports)
    {
      var num := 0;
      while num < |next|
        invariant 0 <= num <= |next|
        invariant forall c :: c in next[..num] ==> (c.interpolate <==> c.currentValid && c !in teleports)
      {
        var cent := next[num];
        if !cent.currentValid || cent in teleports {
          cent.interpolate := false;
        } else {
          cent.interpolate := true;
        }
        num := num + 1;
      }
    }

    /** CG_TransitionSnapshot: the entities of the current snapshot become invalid, then those of the next one are moved
        on. Exactly those that appear without interpolation are reset. An entity that is gone keeps its count: the reset
        meant for it stands in the loop over the new entities, which are all valid, and is never reached. */
    method TransitionSnapshot(current: seq<Centity>, next: seq<Centity>, ghost emitters: set<Centity>,
                              ghost off: map<Centity, int>)
      requires Valid() && Counted(emitters, off) && forall c :: c in current || c in next ==> c in emitters
      modifies current`currentValid, next
      ensures Valid()
      ensures var (valid, smooth, counts) := old((Present(emitters), Interpolated(emitters), Counts(emitters)));
              var gone := Appearing(next, smooth);
              && Moved(next, emitters, valid - (set c | c in current), smooth, counts)
              && Counted(emitters, Forget(off, gone))
              && (Counted(emitters, off) <==> forall c :: c in gone ==> counts[c] == 0)
    {
      hide Valid, CountOf, Counted, Forget, Moved;
      ghost var valid, smooth, counts := Present(emitters), Interpolated(emitters), Counts(emitters);
      CountedParts(emitters, off);
      var oldValid := Invalidate(current, emitters);
      ghost var left := valid - (set c | c in current);
      NothingMoved(emitters, left, smooth, counts);
      StillCounted(emitters, off);
      var i := 0;
      while i < |next|
        modifies next
        invariant 0 <= i <= |next| && Valid() && Moved(next[..i], emitters, left, smooth, counts)
        invariant Counted(emitters, Forget(off, Appearing(next[..i], smooth)))
      {
        var cent := next[i];
        assert next[..i + 1] == next[..i] + [cent];
        MoveOn(cent, next[..i], left, smooth, counts, emitters, off);
        if !cent.currentValid && cent in oldValid {
          assert false;
        }
        i := i + 1;
      }
      assert next[..i] == next;
      ForgetExactly(emitters, next, left, smooth, counts, off);
    }

    // One turn of the loop over the next snapshot.
    method MoveOn(cent: Centity, ghost before: seq<Centity>, ghost valid: set<Centity>, ghost smooth: set<Centity>,
                  ghost counts: map<Centity, int>, ghost emitters: set<Centity>, ghost off: map<Centity, int>)
      requires Valid() && cent in emitters && emitters <= counts.Keys && emitters <= off.Keys
      requires Moved(before, emitters, valid, smooth, counts)
      requires Counted(emitters, Forget(off, Appearing(before, smooth)))
      modifies cent
      ensures Valid() && cent.currentValid && Moved(before + [cent], emitters, valid, smooth, counts)
      ensures Counted(emitters, Forget(off, Appearing(before + [cent], smooth)))
    {
      hide Valid, CountOf, Counted, Forget;
      assert (before + [cent])[..|before|] == before;
      ghost var reset := !cent.interpolate;
      ghost var gone := Appearing(before, smooth);
      assert Appearing(before + [cent], smooth) == if reset then gone + {cent} else gone;
      TransitionEntity(cent, emitters, Forget(off, gone));
      if reset {
        ForgetOne(off, gone, cent, emitters);
      }
    }

    lemma ForgetOne(off: map<Centity, int>, gone: set<Centity>, c: Centity, emitters: set<Centity>)
      requires emitters <= off.Keys && Counted(emitters, Forget(off, gone)[c := CountOf(owners, c)])
      ensures Counted(emitters, Forget(off, gone + {c}))
    {
      hide CountOf;
    }

    lemma CountedParts(emitters: set<Centity>, off: map<Centity, int>)
      requires Counted(emitters, off)
      ensures Owned(emitters) && emitters <= off.Keys
      ensures forall c :: c in emitters ==> c.miscTime == CountOf(owners, c) - off[c]
    {
    }

    // With the counts as they were, nothing is forgotten.
    lemma StillCounted(emitters: set<Centity>, off: map<Centity, int>)
      requires Owned(emitters) && emitters <= off.Keys
      requires forall c :: c in emitters ==> c.miscTime == CountOf(owners, c) - off[c]
      ensures Counted(emitters, Forget(off, {}))
    {
      hide CountOf;
    }

    lemma ForgetExactly(emitters: set<Centity>, next: seq<Centity>, valid: set<Centity>, smooth: set<Centity>,
                        counts: map<Centity, int>, off: map<Centity, int>)
      requires emitters <= counts.Keys && emitters <= off.Keys && (forall c :: c in next ==> c in emitters)
      requires forall c :: c in emitters ==> counts[c] == CountOf(owners, c) - off[c]
      requires Counted(emitters, Forget(off, Appearing(next, smooth)))
      ensures Counted(emitters, off) <==> forall c :: c in Appearing(next, smooth) ==> counts[c] == 0
    {
      hide CountOf;
    }

    // The flags of the current snapshot are cleared, and remembered.
    method Invalidate(current: seq<Centity>, ghost emitters: set<Centity>) returns (oldValid: set<Centity>)
      modifies current`currentValid
      ensures forall c :: c in current ==> !c.currentValid && c in oldValid
      ensures forall c :: c in emitters && c !in current ==> c.currentValid == old(c.currentValid)
    {
      oldValid := {};
      var i := 0;
      while i < |current|
        invariant 0 <= i <= |current|
        invariant forall c :: c in current[..i] ==> !c.currentValid && c in oldValid
        invariant forall c :: c in emitters && c !in current ==> c.currentValid == old(c.currentValid)
      {
        current[i].currentValid := false;
        oldValid := oldValid + {current[i]};
        i := i + 1;
      }
    }

    ghost function Forget(off: map<Centity, int>, gone: set<Centity>): map<Centity, int>
      reads this
    {
      map c | c in off :: if c in gone then CountOf(owners, c) else off[c]
    }

    /** A grenade that leaves the snapshot, comes back and is then gone: whatever sprites it had stay linked to it,
        although its count is zero. */
    method LeavesAndReturns(cent: Centity, ghost emitters: set<Centity>)
      requires Valid() && Owned(emitters) && cent in emitters && cent.currentValid
      modifies this, nodes, cent
      ensures Valid() && used == old(used) && owners == old(owners) && cent.miscTime == 0
    {
      hide *;
      LeaveSnapshot(cent, emitters);
      SetNextSnap([cent], {});
      ReturnToSnapshot(cent, emitters);
      HasOffsets(emitters);
      Render(cent, -1, false, [], emitters, Offsets(emitters));
    }

    // The snapshot that is next is without the grenade.
    method LeaveSnapshot(cent: Centity, ghost emitters: set<Centity>)
      requires Valid() && Owned(emitters) && cent in emitters
      modifies cent`currentValid
      ensures Valid() && !cent.currentValid
    {
      hide Valid, CountOf, Counted, Forget, Offsets;
      HasOffsets(emitters);
      TransitionSnapshot([cent], [], emitters, Offsets(emitters));
    }

    // The snapshot that is next has the grenade again.
    method ReturnToSnapshot(cent: Centity, ghost emitters: set<Centity>)
      requires Valid() && Owned(emitters) && cent in emitters && !cent.interpolate
      modifies cent
      ensures Valid() && cent.currentValid && cent.miscTime == 0
    {
      hide Valid, CountOf, Counted, Forget, Offsets;
      HasOffsets(emitters);
      TransitionSnapshot([], [cent], emitters, Offsets(emitters));
      assert [cent][..0] == [];
    }

    lemma HasOffsets(emitters: set<Centity>)
      requires Owned(emitters)
      ensures Counted(emitters, Offsets(emitters)) && Offsets(emitters).Keys == emitters
    {
    }

    // ---------------------------------------------------------------- the sweep

    /** CG_AddSmokeSprites: from the last sprite back to the first, each sprite is moved and freed when it is stuck or
        has gone too far, and skipped when its emitter is not valid. `fates` holds what physics and distance decide for
        each sprite, in list order. Every sprite in use at the start is visited exactly once, although the list changes
        under the walk; the survivors keep their order and the freed ones go, in order, to the front of the free
        list. */
    method Sweep(fates: seq<Fate>, ghost emitters: set<Centity>, ghost off: map<Centity, int>)
      returns (ghost visited: seq<Sprite>, ghost stays: seq<bool>)
      requires Valid() && Counted(emitters, off) && |fates| == |used| == |owners|
      modifies this, nodes, emitters`miscTime
      ensures Valid() && Counted(emitters, off)
      ensures visited == Reverse(old(used)) && |stays| == |fates|
      ensures forall i :: 0 <= i < |stays| ==>
                (stays[i] <==> (old(owners)[i] != null && !old(owners)[i].currentValid) || fates[i] == Alive)
      ensures used == Select(old(used), stays, true) && owners == Select(old(owners), stays, true)
      ensures free == Select(old(used), stays, false) + old(free)
      ensures forall c :: c in emitters && !c.currentValid ==> CountOf(owners, c) == CountOf(old(owners), c)
    {
      hide Valid, CountOf, Select, Reverse, Counted, Stays;
      ghost var u, o, f := used, owners, free;
      stays := Stays(owners, fates);
      TailFacts();
      AbsentKeepAll(o, fates, emitters);
      visited := [];
      var smokesprite := lastUsed;
      var k := |fates|;
      SelectNone(u, stays);
      SelectNone(o, stays);
      while smokesprite != null
        invariant 0 <= k <= |u| == |o| == |fates| && Valid() && Counted(emitters, off)
        invariant smokesprite == Before(u, k) && Swept(u, o, f, stays, k)
        invariant forall i :: 0 <= i < |stays| ==> stays[i] == Outlives(o[i], fates[i])
        invariant visited == Reverse(u[k..])
        decreases k
      {
        SelectStep(u, stays, k - 1);
        assert u[k - 1] == smokesprite;
        visited := visited + [smokesprite];
        smokesprite := SweepNext(smokesprite, fates[k - 1], k - 1, u, o, f, stays, emitters, off);
        k := k - 1;
      }
      assert u[0..] == u && o[0..] == o && stays[0..] == stays;
    }

    /** The sprites from position `k` on have had their turn. */
    ghost predicate Swept(u: seq<Sprite>, o: seq<Centity?>, f: seq<Sprite>, stays: seq<bool>, k: nat)
      requires k <= |u| == |o| == |stays|
      reads this
    {
      && used == u[..k] + Select(u[k..], stays[k..], true)
      && owners == o[..k] + Select(o[k..], stays[k..], true)
      && free == Select(u[k..], stays[k..], false) + f
    }

    // One turn of the sweep, on the lists as they were at its start.
    method SweepNext(smokesprite: Sprite, fate: Fate, ghost k: nat, ghost u: seq<Sprite>, ghost o: seq<Centity?>,
                     ghost f: seq<Sprite>, ghost stays: seq<bool>, ghost emitters: set<Centity>,
                     ghost off: map<Centity, int>)
      returns (previous: Sprite?)
      requires Valid() && Counted(emitters, off) && k < |u| == |o| == |stays| && u[k] == smokesprite
      requires Swept(u, o, f, stays, k + 1) && stays[k] == Outlives(o[k], fate)
      modifies this, nodes, emitters`miscTime
      ensures Valid() && Counted(emitters, off) && previous == Before(u, k) && Swept(u, o, f, stays, k)
    {
      hide Valid, CountOf, Select, Reverse, Counted, Outlives;
      ghost var used0, owners0 := used, owners;
      TailFacts();
      SelectStep(u, stays, k);
      assert used0[k] == u[k] && owners0[k] == o[k];
      previous := SweepOne(smokesprite, fate, k, emitters, off);
      SelectTurn(used0, used, u, stays, k);
      SelectTurn(owners0, owners, o, stays, k);
    }

    // One turn of the sweep: the sprite to go on with is always the predecessor.
    method SweepOne(smokesprite: Sprite, fate: Fate, ghost k: nat, ghost emitters: set<Centity>,
                    ghost off: map<Centity, int>) returns (previous: Sprite?)
      requires Valid() && Counted(emitters, off) && k < |used| == |owners| && used[k] == smokesprite
      modifies this, nodes, emitters`miscTime
      ensures Valid() && Counted(emitters, off) && previous == Before(old(used), k)
      ensures if old(Outlives(owners[k], fate))
              then used == old(used) && owners == old(owners) && free == old(free)
              else used == old(used)[..k] + old(used)[k + 1..] && owners == old(owners)[..k] + old(owners)[k + 1..]
                   && free == [smokesprite] + old(free)
    {
      hide Lists, Shape, Heap, CountOf;
      ghost var o := owners;
      NodeFacts(Heap(), k);
      OwnerOf(k);
      var owner := smokesprite.smokebomb;
      if owner != null && !owner.currentValid {
        return smokesprite.prev;
      }
      if fate != Alive {
        if owner != null {
          owner.miscTime := owner.miscTime - 1;
        }
        previous := Dealloc(smokesprite, k);
        forall c | c in emitters ensures c.miscTime == CountOf(owners, c) - off[c] {
          CountRemove(o, k, c);
        }
        return;
      }
      return smokesprite.prev;
    }

    /** The two lists together are exactly the nodes of the array. */
    lemma Partition(x: Sprite)
      requires Valid()
      ensures x in nodes <==> x in used || x in free
      ensures !(x in used && x in free)
    {
      var both := used + free;
      assert Distinct(both);
      DistinctSize(both, |both|);
      DistinctSize(sprites, |sprites|);
      var all := set i | 0 <= i < |both| :: both[i];
      var h := Heap();
      forall i | 0 <= i < |both| ensures both[i] in nodes {
        assert both[i] in h.next;
      }
      SameSize(all, nodes);
    }
  }

  lemma {:induction false} DistinctSize(s: seq<Sprite>, n: nat)
    requires Distinct(s) && n <= |s|
    ensures |set i | 0 <= i < n :: s[i]| == n
  {
    if n > 0 {
      DistinctSize(s, n - 1);
      var before := set i | 0 <= i < n - 1 :: s[i];
      assert (set i | 0 <= i < n :: s[i]) == before + {s[n - 1]};
      assert s[n - 1] !in before;
    }
  }

  lemma {:induction false} SameSize(a: set<Sprite>, b: set<Sprite>)
    requires a <= b && |a| == |b|
    ensures a == b
    decreases a
  {
    if a != {} {
      var x :| x in a;
      SameSize(a - {x}, b - {x});
    }
  }

  /** What happens to a sprite that is moved: it gets stuck near its start, goes past its radius, or stays. */
  datatype Fate = Stuck | Expired | Alive

  ghost predicate Outlives(owner: Centity?, fate: Fate)
    reads owner
  {
    (owner != null && !owner.currentValid) || fate == Alive
  }

  /** Which sprites outlive the sweep. */
  ghost function Stays(owners: seq<Centity?>, fates: seq<Fate>): (s: seq<bool>)
    requires |owners| == |fates|
    reads set i | 0 <= i < |owners| && owners[i] != null :: owners[i]
    ensures |s| == |fates|
    ensures forall i :: 0 <= i < |s| ==>
              s[i] == Outlives(owners[i], fates[i])
              && (s[i] <==> (owners[i] != null && !owners[i].currentValid) || fates[i] == Alive)
  {
    if owners == [] then [] else [Outlives(owners[0], fates[0])] + Stays(owners[1..], fates[1..])
  }

  /** How many sprites a frame adds: one for each pair of tries that does not fail twice, while there are free nodes. */
  ghost function Spawned(room: nat, physics: seq<(bool, bool)>): (n: nat)
    ensures n <= room
  {
    if physics == [] then 0 else
      var before := Spawned(room, physics[..|physics| - 1]);
      var last := physics[|physics| - 1];
      if before < room && (last.0 || last.1) then before + 1 else before
  }

  /** The elements of `s` whose flag is `which`, in order. */
  ghost function Select<T>(s: seq<T>, flags: seq<bool>, which: bool): seq<T>
    requires |s| == |flags|
  {
    if s == [] then [] else (if flags[0] == which then [s[0]] else []) + Select(s[1..], flags[1..], which)
  }

  ghost function Reverse<T>(s: seq<T>): seq<T>
  {
    if s == [] then [] else Reverse(s[1..]) + [s[0]]
  }

  /** The sweep frees no sprite of an emitter that is not in the snapshot. */
  lemma {:induction false} AbsentKeeps(owners: seq<Centity?>, fates: seq<Fate>, c: Centity)
    requires |owners| == |fates| && !c.currentValid
    ensures CountOf(Select(owners, Stays(owners, fates), true), c) == CountOf(owners, c)
  {
    if owners != [] {
      AbsentKeeps(owners[1..], fates[1..], c);
      var rest := Select(owners[1..], Stays(owners[1..], fates[1..]), true);
      assert Stays(owners, fates)[1..] == Stays(owners[1..], fates[1..]);
      CountOne(owners[0], c);
      CountConcat([owners[0]], owners[1..], c);
      CountConcat([owners[0]], rest, c);
      assert owners == [owners[0]] + owners[1..] && [] + rest == rest;
    }
  }

  lemma AbsentKeepAll(owners: seq<Centity?>, fates: seq<Fate>, emitters: set<Centity>)
    requires |owners| == |fates|
    ensures forall c :: c in emitters && !c.currentValid ==>
              CountOf(Select(owners, Stays(owners, fates), true), c) == CountOf(owners, c)
  {
    forall c | c in emitters && !c.currentValid
      ensures CountOf(Select(owners, Stays(owners, fates), true), c) == CountOf(owners, c) {
      AbsentKeeps(owners, fates, c);
    }
  }

  lemma SelectNone<T>(s: seq<T>, flags: seq<bool>)
    requires |s| == |flags|
    ensures Select(s[|s|..], flags[|s|..], true) == [] && Select(s[|s|..], flags[|s|..], false) == []
            && Reverse(s[|s|..]) == []
  {
  }

  lemma SelectStep<T>(s: seq<T>, flags: seq<bool>, k: nat)
    requires k < |s| == |flags|
    ensures forall which ::
              Select(s[k..], flags[k..], which)
              == (if flags[k] == which then [s[k]] else []) + Select(s[k + 1..], flags[k + 1..], which)
    ensures Reverse(s[k..]) == Reverse(s[k + 1..]) + [s[k]]
  {
    assert s[k..][1..] == s[k + 1..] && flags[k..][1..] == flags[k + 1..];
  }

  // One turn of the sweep, seen on the list of sprites or on the list of their emitters.
  lemma SelectTurn<T>(s: seq<T>, s': seq<T>, whole: seq<T>, flags: seq<bool>, k: nat)
    requires k < |whole| == |flags| && s == whole[..k + 1] + Select(whole[k + 1..], flags[k + 1..], true)
    requires s' == if flags[k] then s else s[..k] + s[k + 1..]
    ensures s' == whole[..k] + Select(whole[k..], flags[k..], true)
  {
    hide Select;
    SelectStep(whole, flags, k);
    var back := Select(whole[k + 1..], flags[k + 1..], true);
    assert whole[..k + 1] == whole[..k] + [whole[k]];
    assert if flags[k] then s' == whole[..k] + ([whole[k]] + back) else s' == whole[..k] + ([] + back);
  }

  /** Survivors and freed sprites together are the sprites there were. */
  lemma {:induction false} SelectSplits<T>(s: seq<T>, flags: seq<bool>)
    requires |s| == |flags|
    ensures multiset(s) == multiset(Select(s, flags, true)) + multiset(Select(s, flags, false))
  {
    if s != [] {
      SelectSplits(s[1..], flags[1..]);
      assert s == [s[0]] + s[1..];
    }
  }

  lemma CountReplace(o: seq<Centity?>, k: nat, x: Centity?, c: Centity)
    requires k < |o|
    ensures CountOf(o[k := x], c) == CountOf(o, c) - (if o[k] == c then 1 else 0) + if x == c then 1 else 0
  {
    hide CountOf;
    CountOne(o[k], c);
    CountOne(x, c);
    CountConcat(o[..k], [o[k]], c);
    CountConcat(o[..k] + [o[k]], o[k + 1..], c);
    CountConcat(o[..k], [x], c);
    CountConcat(o[..k] + [x], o[k + 1..], c);
    assert o == o[..k] + [o[k]] + o[k + 1..] && o[k := x] == o[..k] + [x] + o[k + 1..];
  }

  lemma {:induction false} CountNone(o: seq<Centity?>, c: Centity)
    ensures CountOf(o, c) == 0 <==> forall i :: 0 <= i < |o| ==> o[i] != c
  {
    if o != [] {
      CountNone(o[..|o| - 1], c);
    }
  }
}
