/** The order in which a frame adds entities to the scene: "parents first" over two kinds of parent links. */
module EntityOrder {
  import opened Wrappers

  const MAX_CLIENTS: int := 64

  /** What the traversal reads of an entity; it does not change during a frame. */
  datatype EntityState = EntityState(
    eventOnly: bool,       // eType >= ET_EVENTS
    pathLink: bool,        // EF_PATH_LINK
    tagConnect: bool,      // EF_TAGCONNECT
    torsoAnim: nat,        // the parent of a path-linked entity
    tagParent: int,        // the parent of a tag-connected entity
    currentValid: bool,
    linearPath: bool,      // it moves along a spline ...
    splineFound: bool,     // ... and BG_GetSplineData finds the spline
    mover: Option<nat>)    // the path-linked mover for which its position is adjusted

  /** The entities of a frame, a rank that shows the parent links to be acyclic, and the number of multi-view
      clients. */
  datatype World = World(states: seq<EntityState>, rank: seq<nat>, mvTotalClients: int)
  {
    ghost predicate Valid()
    {
      && |rank| == |states|
      && forall e :: 0 <= e < |states| ==> ValidEntity(e)
    }

    ghost predicate ValidEntity(e: int)
      requires 0 <= e < |states| == |rank|
    {
      && states[e].torsoAnim < |states| && states[e].tagParent < |states|
      && (states[e].mover.Some? ==> states[e].mover.value < |states| && states[states[e].mover.value].pathLink)
      && (states[e].pathLink && states[states[e].torsoAnim].pathLink ==> rank[states[e].torsoAnim] < rank[e])
      && (states[e].tagConnect && states[e].tagParent >= 64 ==> rank[states[e].tagParent] < rank[e])
    }

    ghost predicate Has(e: nat)
    {
      Valid() && e < |states|
    }
  }

  /** The marks of this frame, the `moving` fields, and the entities added so far. */
  datatype State = State(marked: set<nat>, moving: seq<bool>, log: seq<nat>)

  ghost predicate Fits(w: World, st: State)
  {
    |st.moving| == |w.states|
  }

  // ---------------------------------------------------------------- what the functions do

  /** CG_AddLinkedEntity: the new state, and whether it returns true. */
  ghost function AddLinked(w: World, st: State, e: nat, ignoreframe: bool): (r: (State, bool))
    requires w.Has(e) && w.states[e].pathLink && Fits(w, st)
    ensures Fits(w, r.0)
    decreases w.rank[e]
  {
    var p := w.states[e].torsoAnim;
    assert w.ValidEntity(e);
    if w.states[e].eventOnly then (st, true)
    else if !ignoreframe && e in st.marked && w.mvTotalClients < 2 then (st, true)
    else if !w.states[p].currentValid then (st, false)
    else
      var up := if (p !in st.marked || ignoreframe) && w.states[p].pathLink then AddLinked(w, st, p, ignoreframe)
        else (st, true);
      if !up.1 then up else
        var marked := if ignoreframe then up.0.marked else up.0.marked + {e};
        if SplineFails(w.states[p]) then (up.0.(marked := marked), false)
        else
          var moves := if w.states[p].pathLink then up.0.moving[p] else w.states[p].linearPath;
          (State(marked, up.0.moving[e := moves], if ignoreframe then up.0.log else up.0.log + [e]), true)
  }

  ghost predicate SplineFails(parent: EntityState)
  {
    !parent.pathLink && parent.linearPath && !parent.splineFound
  }

  /** CG_CalcEntityLerpPositions: for an entity on a path-linked mover, the mover is evaluated three times. */
  ghost function CalcLerp(w: World, st: State, e: nat): (r: State)
    requires w.Has(e) && Fits(w, st)
    ensures Fits(w, r)
  {
    assert w.ValidEntity(e);
    match w.states[e].mover
    case None => st
    case Some(m) => AddLinked(w, AddLinked(w, AddLinked(w, st, m, true).0, m, true).0, m, true).0
  }

  /** CG_AddCEntity. */
  ghost function AddPlain(w: World, st: State, e: nat): (r: State)
    requires w.Has(e) && Fits(w, st)
    ensures Fits(w, r)
  {
    if w.states[e].eventOnly then st
    else
      var calculated := CalcLerp(w, st.(marked := st.marked + {e}), e);
      calculated.(log := calculated.log + [e])
  }

  /** CG_AddEntityToTag. */
  ghost function AddToTag(w: World, st: State, e: nat): (r: (State, bool))
    requires w.Has(e) && w.states[e].tagConnect && Fits(w, st)
    ensures Fits(w, r.0)
    decreases w.rank[e], 0
  {
    var p := w.states[e].tagParent;
    assert w.ValidEntity(e);
    if w.states[e].eventOnly then (st, false)
    else if e in st.marked && w.mvTotalClients < 2 then (st, true)
    else
      var calculated := CalcLerp(w, st, e);
      if p < MAX_CLIENTS || !w.states[p].currentValid then (calculated, false)
      else
        var up := if p !in st.marked then AddFiltered(w, calculated, p) else (calculated, true);
        if !up.1 then up else (up.0.(marked := up.0.marked + {e}, log := up.0.log + [e]), true)
  }

  /** CG_AddCEntity_Filter. */
  ghost function AddFiltered(w: World, st: State, e: nat): (r: (State, bool))
    requires w.Has(e) && Fits(w, st)
    ensures Fits(w, r.0)
    decreases w.rank[e], 1
  {
    if e in st.marked && w.mvTotalClients < 2 then (st, true)
    else if w.states[e].pathLink then AddLinked(w, st, e, false)
    else if w.states[e].tagConnect then AddToTag(w, st, e)
    else (AddPlain(w, st, e), true)
  }

  ghost predicate InWorld(w: World, snap: seq<nat>)
  {
    w.Valid() && forall i :: 0 <= i < |snap| ==> snap[i] < |w.states|
  }

  /** The loop over the entities of the snapshot in CG_AddPacketEntities. */
  ghost function AddAll(w: World, st: State, snap: seq<nat>): (r: State)
    requires InWorld(w, snap) && Fits(w, st)
    ensures Fits(w, r)
  {
    if snap == [] then st else AddFiltered(w, AddAll(w, st, snap[..|snap| - 1]), snap[|snap| - 1]).0
  }

  /** A frame starts with no entity marked. */
  ghost function Start(moving: seq<bool>): State
  {
    State({}, moving, [])
  }

  // ---------------------------------------------------------------- parents first, in every world

  /** The parent that has to be added before an entity, if there is one. */
  ghost function ParentOf(w: World, e: nat): (p: Option<nat>)
    requires w.Has(e)
    ensures p.Some? ==> p.value < |w.states| && w.rank[p.value] < w.rank[e]
  {
    assert w.ValidEntity(e);
    var s := w.states[e];
    if s.eventOnly then None
    else if s.pathLink then if w.states[s.torsoAnim].pathLink then Some(s.torsoAnim) else None
    else if s.tagConnect && s.tagParent >= 64 then Some(s.tagParent)
    else None
  }

  /** An entity that is marked and then given up, because its parent's spline is not found. */
  ghost predicate Broken(w: World, e: nat)
    requires w.Has(e)
  {
    assert w.ValidEntity(e);
    var s := w.states[e];
    var parent := w.states[s.torsoAnim];
    !s.eventOnly && s.pathLink && parent.currentValid && !parent.pathLink && parent.linearPath && !parent.splineFound
  }

  /** Entry `i` of the log comes after its parent, unless the parent is event-only or given up and so never added. */
  ghost predicate ParentFirst(w: World, log: seq<nat>, i: nat)
    requires i < |log| && w.Has(log[i])
  {
    var p := ParentOf(w, log[i]);
    p.Some? ==> w.states[p.value].eventOnly || Broken(w, p.value) || p.value in log[..i]
  }

  ghost predicate NoRepeats(log: seq<nat>)
  {
    forall i, j :: 0 <= i < j < |log| ==> log[i] != log[j]
  }

  ghost predicate Inv(w: World, st: State)
  {
    && w.Valid() && Fits(w, st)
    && (forall e :: e in st.marked ==> e < |w.states| && !w.states[e].eventOnly && (e in st.log || Broken(w, e)))
    && (forall i :: 0 <= i < |st.log| ==> st.log[i] in st.marked && st.log[i] < |w.states|)
    && (forall i :: 0 <= i < |st.log| ==> ParentFirst(w, st.log, i))
    && (w.mvTotalClients < 2 ==> NoRepeats(st.log))
  }

  /** What a visit of entities of rank up to `top` may have done. */
  ghost predicate Grows(w: World, st: State, st': State, top: nat)
    requires w.Valid()
  {
    && st.marked <= st'.marked && st.log <= st'.log
    && forall x :: x in st'.marked && x !in st.marked ==> x < |w.states| && w.rank[x] <= top
  }

  // Marking and logging one more entity.
  lemma AddOne(w: World, st: State, e: nat)
    requires Inv(w, st) && w.Has(e) && !w.states[e].eventOnly
    requires w.mvTotalClients < 2 ==> e !in st.marked
    requires var p := ParentOf(w, e); p.Some? ==> w.states[p.value].eventOnly || p.value in st.marked
    ensures Inv(w, st.(marked := st.marked + {e}, log := st.log + [e]))
  {
    hide ParentOf, Broken;
    var log := st.log + [e];
    forall i | 0 <= i < |log| ensures ParentFirst(w, log, i) {
      if i < |st.log| {
        assert ParentFirst(w, st.log, i) && log[..i] == st.log[..i];
      } else {
        assert log[..i] == st.log;
      }
    }
  }

  lemma {:induction false} ReevaluationLeavesOrder(w: World, st: State, e: nat)
    requires w.Has(e) && w.states[e].pathLink && Fits(w, st)
    ensures var r := AddLinked(w, st, e, true).0; r.marked == st.marked && r.log == st.log
    decreases w.rank[e]
  {
    assert w.ValidEntity(e);
    if !w.states[e].eventOnly && w.states[w.states[e].torsoAnim].pathLink {
      ReevaluationLeavesOrder(w, st, w.states[e].torsoAnim);
    }
  }

  lemma CalcLeavesOrder(w: World, st: State, e: nat)
    requires w.Has(e) && Fits(w, st)
    ensures var r := CalcLerp(w, st, e); r.marked == st.marked && r.log == st.log
  {
    hide AddLinked;
    assert w.ValidEntity(e);
    if w.states[e].mover.Some? {
      var m := w.states[e].mover.value;
      var r1 := AddLinked(w, st, m, true).0;
      var r2 := AddLinked(w, r1, m, true).0;
      ReevaluationLeavesOrder(w, st, m);
      ReevaluationLeavesOrder(w, r1, m);
      ReevaluationLeavesOrder(w, r2, m);
    }
  }

  lemma {:induction false} LinkedKeeps(w: World, st: State, e: nat)
    requires Inv(w, st) && w.Has(e) && w.states[e].pathLink
    ensures var r := AddLinked(w, st, e, false);
            Inv(w, r.0) && Grows(w, st, r.0, w.rank[e]) && (r.1 ==> w.states[e].eventOnly || e in r.0.marked)
    decreases w.rank[e]
  {
    hide ParentFirst, NoRepeats;
    assert w.ValidEntity(e);
    var p := w.states[e].torsoAnim;
    if w.states[e].eventOnly || (e in st.marked && w.mvTotalClients < 2) || !w.states[p].currentValid {
      return;
    }
    var up := (st, true);
    if p !in st.marked && w.states[p].pathLink {
      up := AddLinked(w, st, p, false);
      LinkedKeeps(w, st, p);
    }
    if up.1 && !SplineFails(w.states[p]) {
      AddOne(w, up.0, e);
    }
  }

  lemma PlainKeeps(w: World, st: State, e: nat)
    requires Inv(w, st) && w.Has(e) && !w.states[e].pathLink && !w.states[e].tagConnect
    requires w.mvTotalClients < 2 ==> e !in st.marked
    ensures var r := AddPlain(w, st, e);
            Inv(w, r) && Grows(w, st, r, w.rank[e]) && (w.states[e].eventOnly || e in r.marked)
  {
    hide ParentFirst, CalcLerp, NoRepeats;
    if !w.states[e].eventOnly {
      CalcLeavesOrder(w, st.(marked := st.marked + {e}), e);
      AddOne(w, st, e);
    }
  }

  lemma {:induction false} FilteredKeeps(w: World, st: State, e: nat)
    requires Inv(w, st) && w.Has(e)
    ensures var r := AddFiltered(w, st, e);
            Inv(w, r.0) && Grows(w, st, r.0, w.rank[e]) && (r.1 ==> w.states[e].eventOnly || e in r.0.marked)
    decreases w.rank[e], 1
  {
    hide Inv, ParentOf, AddLinked, AddToTag, AddPlain;
    if e in st.marked && w.mvTotalClients < 2 {
    } else if w.states[e].pathLink {
      LinkedKeeps(w, st, e);
    } else if w.states[e].tagConnect {
      TagKeeps(w, st, e);
    } else {
      PlainKeeps(w, st, e);
    }
  }

  lemma {:induction false} TagKeeps(w: World, st: State, e: nat)
    requires Inv(w, st) && w.Has(e) && !w.states[e].pathLink && w.states[e].tagConnect
    ensures var r := AddToTag(w, st, e);
            Inv(w, r.0) && Grows(w, st, r.0, w.rank[e]) && (r.1 ==> w.states[e].eventOnly || e in r.0.marked)
    decreases w.rank[e], 0
  {
    hide ParentFirst, AddFiltered, CalcLerp, NoRepeats;
    assert w.ValidEntity(e);
    var p := w.states[e].tagParent;
    if w.states[e].eventOnly || (e in st.marked && w.mvTotalClients < 2) {
      return;
    }
    var up := (CalcLerp(w, st, e), true);
    CalcLeavesOrder(w, st, e);
    if p < MAX_CLIENTS || !w.states[p].currentValid {
      return;
    }
    if p !in st.marked {
      FilteredKeeps(w, up.0, p);
      up := AddFiltered(w, up.0, p);
    }
    if up.1 {
      AddOne(w, up.0, e);
    }
  }

  /** Over a whole frame, in every world and for every snapshot: parents come first, whatever was marked but not added
      is broken, and with fewer than two views nothing is added twice. */
  lemma {:induction false} FrameKeeps(w: World, moving: seq<bool>, snap: seq<nat>)
    requires InWorld(w, snap) && |moving| == |w.states|
    ensures Inv(w, AddAll(w, Start(moving), snap))
  {
    hide AddFiltered;
    if snap == [] {
      assert Inv(w, Start(moving));
    } else {
      FrameKeeps(w, moving, snap[..|snap| - 1]);
      FilteredKeeps(w, AddAll(w, Start(moving), snap[..|snap| - 1]), snap[|snap| - 1]);
    }
  }

  // ---------------------------------------------------------------- what is added

  /** Whether a visit in a fresh frame returns true, from the entity and its parents alone. */
  ghost predicate Shown(w: World, e: nat)
    requires w.Has(e)
    decreases w.rank[e]
  {
    assert w.ValidEntity(e);
    var s := w.states[e];
    if s.pathLink then
      s.eventOnly || (w.states[s.torsoAnim].currentValid
                      && if w.states[s.torsoAnim].pathLink then Shown(w, s.torsoAnim)
                         else !w.states[s.torsoAnim].linearPath || w.states[s.torsoAnim].splineFound)
    else if s.tagConnect then
      !s.eventOnly && s.tagParent >= 64 && w.states[s.tagParent].currentValid && Shown(w, s.tagParent)
    else true
  }

  /** What a visit in a fresh frame adds: nothing, or the entity and all the parents it needs. */
  ghost function Closure(w: World, e: nat): set<nat>
    requires w.Has(e)
    decreases w.rank[e]
  {
    var p := ParentOf(w, e);
    if w.states[e].eventOnly || !Shown(w, e) then {} else {e} + if p.Some? then Closure(w, p.value) else {}
  }

  ghost function Reach(w: World, snap: seq<nat>): set<nat>
    requires InWorld(w, snap)
  {
    set i, e | 0 <= i < |snap| && e in Closure(w, snap[i]) :: e
  }

  ghost function Elements(log: seq<nat>): set<nat>
  {
    set i | 0 <= i < |log| :: log[i]
  }

  /** Entity `c` is added only after `p`, and can be. */
  ghost predicate Child(w: World, c: nat, p: nat)
    requires w.Has(c) && w.Has(p)
  {
    ParentOf(w, c) == Some(p) && w.states[p].currentValid
  }

  /** No given-up entity has children that wait for it. */
  ghost predicate Sound(w: World)
    requires w.Valid()
  {
    forall c: nat, p: nat :: c < |w.states| && p < |w.states| && Child(w, c, p) ==> !Broken(w, p)
  }

  ghost predicate Exact(w: World, st: State)
    requires w.Valid()
  {
    && (forall e :: e in st.marked ==> e < |w.states| && (Shown(w, e) || Broken(w, e)))
    && (forall i ::
       0 <= i < |st.log| ==> st.log[i] < |w.states| && Shown(w, st.log[i]) && Closure(w, st.log[i]) <= Elements(st.log))
  }

  lemma ElementsAppend(log: seq<nat>, e: nat)
    ensures Elements(log + [e]) == Elements(log) + {e}
  {
    var l := log + [e];
    forall i | 0 <= i < |log| ensures log[i] in Elements(l) {
      assert l[i] == log[i];
    }
    assert l[|log|] == e;
  }

  lemma LoggedClosure(w: World, st: State, e: nat)
    requires Inv(w, st) && Exact(w, st) && e in st.marked && !Broken(w, e)
    ensures Shown(w, e) && Closure(w, e) <= Elements(st.log)
  {
    var i :| 0 <= i < |st.log| && st.log[i] == e;
  }

  lemma ExactAdd(w: World, st: State, e: nat)
    requires w.Has(e) && Exact(w, st) && Shown(w, e) && Closure(w, e) <= Elements(st.log) + {e}
    ensures Exact(w, st.(marked := st.marked + {e}, log := st.log + [e]))
  {
    hide Shown, Closure, Broken, Elements;
    ElementsAppend(st.log, e);
  }

  lemma BrokenNotShown(w: World, e: nat)
    requires w.Has(e) && Broken(w, e)
    ensures !Shown(w, e) && Closure(w, e) == {}
  {
  }

  /** The outcome of a visit: it adds exactly the closure of the entity. */
  ghost predicate Adds(w: World, st: State, r: (State, bool), e: nat)
    requires w.Has(e)
  {
    && Exact(w, r.0) && Elements(r.0.log) == Elements(st.log) + Closure(w, e)
    && (!Broken(w, e) ==> r.1 == Shown(w, e))
  }

  lemma {:induction false} LinkedExact(w: World, st: State, e: nat)
    requires Inv(w, st) && Exact(w, st) && Fits(w, st) && w.Has(e) && w.states[e].pathLink && Sound(w)
    ensures Adds(w, st, AddLinked(w, st, e, false), e)
    decreases w.rank[e]
  {
    hide Inv, Exact, Elements, Sound;
    assert w.ValidEntity(e);
    var p := w.states[e].torsoAnim;
    if Broken(w, e) {
      BrokenNotShown(w, e);
    }
    if w.states[e].eventOnly {
      return;
    }
    if e in st.marked && w.mvTotalClients < 2 {
      if !Broken(w, e) {
        LoggedClosure(w, st, e);
      }
      return;
    }
    if !w.states[p].currentValid {
      return;
    }
    var up := (st, true);
    if w.states[p].pathLink {
      ChildNotBroken(w, e, p);
      if p !in st.marked {
        up := AddLinked(w, st, p, false);
        LinkedExact(w, st, p);
      } else {
        LoggedClosure(w, st, p);
      }
    }
    if up.1 {
      if SplineFails(w.states[p]) {
        ExactMark(w, st, e);
      } else {
        ExactAdd(w, up.0, e);
        ElementsAppend(up.0.log, e);
        ExactOf(w, up.0.(marked := up.0.marked + {e}, log := up.0.log + [e]), AddLinked(w, st, e, false).0);
      }
    }
  }

  lemma ChildNotBroken(w: World, c: nat, p: nat)
    requires w.Has(c) && w.Has(p) && Sound(w) && Child(w, c, p)
    ensures !Broken(w, p)
  {
  }

  lemma ExactMark(w: World, st: State, e: nat)
    requires w.Has(e) && Exact(w, st) && Broken(w, e)
    ensures Exact(w, st.(marked := st.marked + {e}))
  {
  }

  lemma ExactOf(w: World, st: State, st': State)
    requires w.Valid() && Exact(w, st) && st'.marked == st.marked && st'.log == st.log
    ensures Exact(w, st')
  {
  }

  lemma {:induction false} FilteredExact(w: World, st: State, e: nat)
    requires Inv(w, st) && Exact(w, st) && Fits(w, st) && w.Has(e) && Sound(w)
    ensures Adds(w, st, AddFiltered(w, st, e), e)
    decreases w.rank[e], 1
  {
    hide Inv, Exact, Elements, Sound, AddLinked, AddToTag, CalcLerp;
    if e in st.marked && w.mvTotalClients < 2 {
      MarkedExact(w, st, e);
    } else if w.states[e].pathLink {
      LinkedExact(w, st, e);
    } else if w.states[e].tagConnect {
      TagExact(w, st, e);
    } else if !w.states[e].eventOnly {
      var marked := st.(marked := st.marked + {e});
      CalcLeavesOrder(w, marked, e);
      ExactAdd(w, st, e);
      ElementsAppend(st.log, e);
      ExactOf(w, st.(marked := st.marked + {e}, log := st.log + [e]), AddPlain(w, st, e));
    }
  }

  lemma MarkedExact(w: World, st: State, e: nat)
    requires Inv(w, st) && Exact(w, st) && w.Has(e) && e in st.marked
    ensures Adds(w, st, (st, true), e)
  {
    hide Inv, Exact, Elements;
    if Broken(w, e) {
      BrokenNotShown(w, e);
    } else {
      LoggedClosure(w, st, e);
    }
  }

  lemma {:induction false} TagExact(w: World, st: State, e: nat)
    requires Inv(w, st) && Exact(w, st) && Fits(w, st) && w.Has(e) && !w.states[e].pathLink && w.states[e].tagConnect
             && Sound(w)
    ensures Adds(w, st, AddToTag(w, st, e), e)
    decreases w.rank[e], 0
  {
    hide Inv, Exact, Elements, Sound, CalcLerp, AddFiltered;
    assert w.ValidEntity(e);
    var p := w.states[e].tagParent;
    if w.states[e].eventOnly {
      return;
    }
    if e in st.marked && w.mvTotalClients < 2 {
      MarkedExact(w, st, e);
      return;
    }
    var up := (CalcLerp(w, st, e), true);
    CalcLeavesOrder(w, st, e);
    ExactOf(w, st, up.0);
    if p < MAX_CLIENTS || !w.states[p].currentValid {
      return;
    }
    ChildNotBroken(w, e, p);
    if p !in st.marked {
      InvOf(w, st, up.0);
      FilteredExact(w, up.0, p);
      up := AddFiltered(w, up.0, p);
    } else {
      LoggedClosure(w, st, p);
    }
    if up.1 {
      ExactAdd(w, up.0, e);
      ElementsAppend(up.0.log, e);
    }
  }

  lemma InvOf(w: World, st: State, st': State)
    requires Inv(w, st) && Fits(w, st') && st'.marked == st.marked && st'.log == st.log
    ensures Inv(w, st')
  {
  }

  /** A frame adds exactly what the snapshot's entities need: the set depends on which entities the snapshot holds, not
      on their order. */
  lemma {:induction false} FrameExact(w: World, moving: seq<bool>, snap: seq<nat>)
    requires InWorld(w, snap) && |moving| == |w.states| && Sound(w)
    ensures var r := AddAll(w, Start(moving), snap); Exact(w, r) && Elements(r.log) == Reach(w, snap)
  {
    hide Inv, Exact, Sound, AddFiltered, Closure;
    if snap == [] {
      assert Exact(w, Start(moving)) by { StartExact(w, moving); }
    } else {
      var n := |snap| - 1;
      FrameKeeps(w, moving, snap[..n]);
      FrameExact(w, moving, snap[..n]);
      FilteredExact(w, AddAll(w, Start(moving), snap[..n]), snap[n]);
      ReachStep(w, snap);
    }
  }

  lemma StartExact(w: World, moving: seq<bool>)
    requires w.Valid()
    ensures Exact(w, Start(moving))
  {
  }

  lemma ReachStep(w: World, snap: seq<nat>)
    requires InWorld(w, snap) && snap != []
    ensures var n := |snap| - 1; Reach(w, snap) == Reach(w, snap[..n]) + Closure(w, snap[n])
  {
    hide Closure;
    var n := |snap| - 1;
    forall e | e in Reach(w, snap[..n]) ensures e in Reach(w, snap) {
      var i :| 0 <= i < n && e in Closure(w, snap[..n][i]);
      assert snap[i] == snap[..n][i];
    }
    forall e | e in Closure(w, snap[n]) ensures e in Reach(w, snap) {
    }
    forall e | e in Reach(w, snap) ensures e in Reach(w, snap[..n]) + Closure(w, snap[n]) {
      var i :| 0 <= i < |snap| && e in Closure(w, snap[i]);
      if i < n {
        assert snap[i] == snap[..n][i];
      }
    }
  }

  lemma SameReach(w: World, s: seq<nat>, t: seq<nat>)
    requires InWorld(w, s) && InWorld(w, t) && Elements(s) <= Elements(t)
    ensures Reach(w, s) <= Reach(w, t)
  {
    hide Closure;
    forall e | e in Reach(w, s) ensures e in Reach(w, t) {
      var i :| 0 <= i < |s| && e in Closure(w, s[i]);
      assert s[i] in Elements(t);
      var j :| 0 <= j < |t| && t[j] == s[i];
    }
  }

  /** Whether all orders of a snapshot add the same entities. */
  ghost predicate OrderFree(w: World, moving: seq<bool>)
    requires w.Valid() && |moving| == |w.states|
  {
    forall s: seq<nat>, t: seq<nat> :: InWorld(w, s) && InWorld(w, t) && Elements(s) == Elements(t)
      ==> Elements(AddAll(w, Start(moving), s).log) == Elements(AddAll(w, Start(moving), t).log)
  }

  /** The order of the snapshot does not matter exactly when no given-up entity has children that wait for it. */
  lemma OrderFreeExactly(w: World, moving: seq<bool>)
    requires w.Valid() && |moving| == |w.states|
    ensures OrderFree(w, moving) <==> Sound(w)
  {
    hide AddAll, Elements, Reach, Broken;
    if Sound(w) {
      forall s: seq<nat>, t: seq<nat> | InWorld(w, s) && InWorld(w, t) && Elements(s) == Elements(t)
        ensures Elements(AddAll(w, Start(moving), s).log) == Elements(AddAll(w, Start(moving), t).log)
      {
        FrameExact(w, moving, s);
        FrameExact(w, moving, t);
        SameReach(w, s, t);
        SameReach(w, t, s);
      }
    } else {
      var c: nat, p: nat :| c < |w.states| && p < |w.states| && Child(w, c, p) && Broken(w, p);
      OrderMatters(w, moving, c, p);
    }
  }

  /** A child that waits for a given-up parent is added if and only if the parent was visited before. */
  lemma OrderMatters(w: World, moving: seq<bool>, c: nat, p: nat)
    requires w.Has(c) && w.Has(p) && |moving| == |w.states| && Child(w, c, p) && Broken(w, p)
    ensures AddAll(w, Start(moving), [p, c]).log == [c] && AddAll(w, Start(moving), [c, p]).log == []
    ensures Elements([p, c]) == Elements([c, p]) && Elements([c]) != Elements([])
  {
    hide AddFiltered, Broken;
    var st := Start(moving);
    assert [p, c][..1] == [p] && [c, p][..1] == [c] && [p][..0] == [] && [c][..0] == [];
    GivenUp(w, st, p);
    ChildOfBroken(w, st, c, p);
    ChildOfBroken(w, AddFiltered(w, st, p).0, c, p);
    GivenUp(w, AddFiltered(w, st, c).0, p);
    assert AddAll(w, st, [p]) == AddFiltered(w, st, p).0 && AddAll(w, st, [c]) == AddFiltered(w, st, c).0;
    assert [p, c][0] == p && [p, c][1] == c && [c, p][0] == c && [c, p][1] == p && [c][0] == c;
    assert Elements([p, c]) == Elements([c, p]);
    assert c in Elements([c]);
  }

  lemma GivenUp(w: World, st: State, p: nat)
    requires w.Has(p) && Fits(w, st) && Broken(w, p)
    ensures var r := AddFiltered(w, st, p).0; r.log == st.log && (r.marked == st.marked || r.marked == st.marked + {p})
    ensures p !in st.marked ==> AddFiltered(w, st, p) == (st.(marked := st.marked + {p}), false)
  {
    assert w.ValidEntity(p);
  }

  lemma ChildOfBroken(w: World, st: State, c: nat, p: nat)
    requires w.Has(c) && w.Has(p) && Fits(w, st) && Child(w, c, p) && Broken(w, p) && c !in st.marked
    ensures var r := AddFiltered(w, st, c).0;
            if p in st.marked then r.log == st.log + [c] else r.log == st.log && r.marked == st.marked + {p}
  {
    hide CalcLerp;
    assert w.ValidEntity(c) && w.ValidEntity(p);
    CalcLeavesOrder(w, st, c);
    GivenUp(w, st, p);
    GivenUp(w, CalcLerp(w, st, c), p);
  }

  // ---------------------------------------------------------------- more than one view

  ghost predicate AtMostOnce(mvTotalClients: int)
  {
    forall w: World, moving: seq<bool>, snap: seq<nat> ::
      InWorld(w, snap) && |moving| == |w.states| && NoRepeats(snap) && w.mvTotalClients == mvTotalClients
      ==> NoRepeats(AddAll(w, Start(moving), snap).log)
  }

  /** No entity is ever added twice in a frame, exactly when there are fewer than two multi-view clients. */
  lemma AtMostOnceExactly(mvTotalClients: int)
    ensures AtMostOnce(mvTotalClients) <==> mvTotalClients < 2
  {
    hide AddAll;
    if mvTotalClients < 2 {
      forall w: World, moving: seq<bool>, snap: seq<nat>
        | InWorld(w, snap) && |moving| == |w.states| && NoRepeats(snap) && w.mvTotalClients == mvTotalClients
        ensures NoRepeats(AddAll(w, Start(moving), snap).log)
      {
        FrameKeeps(w, moving, snap);
      }
    } else {
      AddedTwice(mvTotalClients);
      assert [1, 2, 1][0] == [1, 2, 1][2];
    }
  }

  /** A train of three cars: the middle one is added for the last one and then once more. */
  ghost function Train(mvTotalClients: int): World
  {
    var car := EntityState(false, true, false, 0, 0, true, false, false, None);
    World([car.(pathLink := false), car, car.(torsoAnim := 1)], [0, 1, 2], mvTotalClients)
  }

  lemma AddedTwice(mvTotalClients: int)
    requires mvTotalClients >= 2
    ensures var w, moving := Train(mvTotalClients), [false, false, false];
            InWorld(w, [2, 1]) && AddAll(w, Start(moving), [2, 1]).log == [1, 2, 1]
  {
    var w, st := Train(mvTotalClients), Start([false, false, false]);
    assert [2, 1][..1] == [2] && [2][..0] == [];
    var first, second := State({1}, [false, false, false], [1]), State({1, 2}, [false, false, false], [1, 2]);
    assert [false, false, false][1 := false] == [false, false, false];
    assert [false, false, false][2 := false] == [false, false, false];
    assert st.marked + {1} == first.marked && st.log + [1] == first.log;
    assert AddLinked(w, st, 1, false) == (first, true);
    assert first.marked + {2} == second.marked && first.log + [2] == second.log;
    assert AddLinked(w, st, 2, false) == (second, true);
    assert AddAll(w, st, [2]) == second;
    assert AddLinked(w, second, 1, false).0.log == [1, 2, 1];
  }

  // ---------------------------------------------------------------- what children inherit

  /** Whether a path-linked entity moves: it has this from the head of its chain, through all the cars in between. Only
      an event-only car breaks the chain; what it last had then counts. */
  ghost function Moves(w: World, before: seq<bool>, e: nat): bool
    requires w.Has(e) && w.states[e].pathLink && |before| == |w.states|
    decreases w.rank[e]
  {
    assert w.ValidEntity(e);
    var p := w.states[e].torsoAnim;
    if !w.states[p].pathLink then w.states[p].linearPath
    else if w.states[p].eventOnly then before[p]
    else Moves(w, before, p)
  }

  ghost predicate Linked(w: World, e: nat)
  {
    e < |w.states| && w.states[e].pathLink && !w.states[e].eventOnly
  }

  /** Each `moving` field is as before the frame or already right, and right for the entities that were added. */
  ghost predicate Inherited(w: World, before: seq<bool>, st: State)
    requires w.Valid() && Fits(w, st) && |before| == |w.states|
  {
    && (forall e ::
       0 <= e < |before| ==> st.moving[e] == before[e] || (Linked(w, e) && st.moving[e] == Moves(w, before, e)))
    && (forall i :: 0 <= i < |st.log| && Linked(w, st.log[i]) ==> st.moving[st.log[i]] == Moves(w, before, st.log[i]))
  }

  ghost predicate StillRight(w: World, before: seq<bool>, m: seq<bool>, m': seq<bool>)
    requires w.Valid() && |m| == |m'| == |before| == |w.states|
  {
    forall e :: 0 <= e < |m| ==> m'[e] == m[e] || (Linked(w, e) && m'[e] == Moves(w, before, e))
  }

  lemma {:induction false} ReevaluationInherits(w: World, before: seq<bool>, st: State, e: nat)
    requires w.Has(e) && w.states[e].pathLink && Fits(w, st) && |before| == |w.states|
             && StillRight(w, before, before, st.moving)
    ensures var r := AddLinked(w, st, e, true);
            StillRight(w, before, st.moving, r.0.moving) && StillRight(w, before, before, r.0.moving)
            && (r.1 && !w.states[e].eventOnly ==> r.0.moving[e] == Moves(w, before, e))
    decreases w.rank[e]
  {
    assert w.ValidEntity(e);
    var p := w.states[e].torsoAnim;
    if !w.states[e].eventOnly && w.states[p].pathLink {
      ReevaluationInherits(w, before, st, p);
    }
  }

  lemma StillInherited(w: World, before: seq<bool>, st: State, st': State)
    requires w.Valid() && Fits(w, st) && Fits(w, st') && |before| == |w.states| && Inherited(w, before, st)
    requires st'.log == st.log && StillRight(w, before, st.moving, st'.moving)
    ensures Inherited(w, before, st') && StillRight(w, before, before, st'.moving)
  {
    hide Moves;
    forall i | 0 <= i < |st'.log| && Linked(w, st'.log[i])
      ensures st'.moving[st'.log[i]] == Moves(w, before, st'.log[i]) {
      assert st.moving[st.log[i]] == Moves(w, before, st.log[i]);
    }
  }

  lemma CalcInherits(w: World, before: seq<bool>, st: State, e: nat)
    requires w.Has(e) && Fits(w, st) && |before| == |w.states| && Inherited(w, before, st)
    ensures Inherited(w, before, CalcLerp(w, st, e))
  {
    hide AddLinked, Moves, Inherited, StillRight;
    assert w.ValidEntity(e);
    CalcLeavesOrder(w, st, e);
    StillInherited(w, before, st, st) by { Unmoved(w, before, st.moving); }
    if w.states[e].mover.Some? {
      var m := w.states[e].mover.value;
      var r1 := AddLinked(w, st, m, true).0;
      var r2 := AddLinked(w, r1, m, true).0;
      ReevaluationLeavesOrder(w, st, m);
      ReevaluationInherits(w, before, st, m);
      StillInherited(w, before, st, r1);
      ReevaluationLeavesOrder(w, r1, m);
      ReevaluationInherits(w, before, r1, m);
      StillInherited(w, before, r1, r2);
      ReevaluationLeavesOrder(w, r2, m);
      ReevaluationInherits(w, before, r2, m);
      StillInherited(w, before, r2, AddLinked(w, r2, m, true).0);
    }
  }

  lemma Unmoved(w: World, before: seq<bool>, m: seq<bool>)
    requires w.Valid() && |m| == |before| == |w.states|
    ensures StillRight(w, before, m, m)
  {
  }

  lemma LoggedMoves(w: World, before: seq<bool>, st: State, e: nat)
    requires Inv(w, st) && |before| == |w.states| && Inherited(w, before, st) && e in st.marked && Linked(w, e)
             && !Broken(w, e)
    ensures st.moving[e] == Moves(w, before, e)
  {
    var i :| 0 <= i < |st.log| && st.log[i] == e;
  }

  // An entity that is added now takes its movement from its parent.
  lemma InheritedAdd(w: World, before: seq<bool>, st: State, st': State, e: nat)
    requires w.Has(e) && Fits(w, st) && Fits(w, st') && |before| == |w.states| && Inherited(w, before, st)
    requires st'.log == st.log + [e]
    requires if Linked(w, e) then st'.moving == st.moving[e := Moves(w, before, e)] else st'.moving == st.moving
    ensures Inherited(w, before, st')
  {
    hide Moves;
    forall i | 0 <= i < |st'.log| && Linked(w, st'.log[i])
      ensures st'.moving[st'.log[i]] == Moves(w, before, st'.log[i]) {
      if i < |st.log| {
        assert st.moving[st.log[i]] == Moves(w, before, st.log[i]);
      }
    }
  }

  lemma {:induction false} LinkedInherits(w: World, before: seq<bool>, st: State, e: nat)
    requires Inv(w, st) && Fits(w, st) && w.Has(e) && w.states[e].pathLink && Sound(w)
    requires |before| == |w.states| && Inherited(w, before, st)
    ensures Inherited(w, before, AddLinked(w, st, e, false).0)
    decreases w.rank[e]
  {
    hide Inv, Sound, Inherited;
    assert w.ValidEntity(e);
    var p := w.states[e].torsoAnim;
    if w.states[e].eventOnly || (e in st.marked && w.mvTotalClients < 2) || !w.states[p].currentValid {
      return;
    }
    var up := (st, true);
    if p !in st.marked && w.states[p].pathLink {
      up := AddLinked(w, st, p, false);
      LinkedKeeps(w, st, p);
      LinkedInherits(w, before, st, p);
    }
    if SplineFails(w.states[p]) {
      StillInherited(w, before, st, st.(marked := st.marked + {e})) by { Unmoved(w, before, st.moving); }
    } else if up.1 {
      if w.states[p].pathLink {
        ParentMoves(w, before, up.0, e, p);
      }
      InheritedAdd(w, before, up.0, AddLinked(w, st, e, false).0, e);
    }
  }

  lemma ParentMoves(w: World, before: seq<bool>, st: State, e: nat, p: nat)
    requires Inv(w, st) && Fits(w, st) && w.Has(e) && Linked(w, e) && Sound(w) && |before| == |w.states|
             && Inherited(w, before, st)
    requires p == w.states[e].torsoAnim && p < |w.states| && w.states[p].pathLink && w.states[p].currentValid
    requires w.states[p].eventOnly || p in st.marked
    ensures st.moving[p] == Moves(w, before, e)
  {
    hide Sound;
    if !w.states[p].eventOnly {
      ChildNotBroken(w, e, p);
      LoggedMoves(w, before, st, p);
    }
  }

  lemma {:induction false} FilteredInherits(w: World, before: seq<bool>, st: State, e: nat)
    requires Inv(w, st) && Fits(w, st) && w.Has(e) && Sound(w) && |before| == |w.states| && Inherited(w, before, st)
    ensures Inherited(w, before, AddFiltered(w, st, e).0)
    decreases w.rank[e], 1
  {
    hide Inv, Sound, Inherited, AddLinked, CalcLerp;
    if e in st.marked && w.mvTotalClients < 2 {
    } else if w.states[e].pathLink {
      LinkedInherits(w, before, st, e);
    } else if w.states[e].tagConnect {
      TagInherits(w, before, st, e);
    } else if !w.states[e].eventOnly {
      var marked := st.(marked := st.marked + {e});
      StillInherited(w, before, st, marked) by { Unmoved(w, before, st.moving); }
      CalcInherits(w, before, marked, e);
      InheritedAdd(w, before, CalcLerp(w, marked, e), AddPlain(w, st, e), e);
    }
  }

  lemma {:induction false} TagInherits(w: World, before: seq<bool>, st: State, e: nat)
    requires Inv(w, st) && Fits(w, st) && w.Has(e) && !w.states[e].pathLink && w.states[e].tagConnect && Sound(w)
    requires |before| == |w.states| && Inherited(w, before, st)
    ensures Inherited(w, before, AddToTag(w, st, e).0)
    decreases w.rank[e], 0
  {
    hide Inv, Sound, Inherited, CalcLerp, AddFiltered;
    assert w.ValidEntity(e);
    var p := w.states[e].tagParent;
    if w.states[e].eventOnly || (e in st.marked && w.mvTotalClients < 2) {
      return;
    }
    var up := (CalcLerp(w, st, e), true);
    CalcLeavesOrder(w, st, e);
    CalcInherits(w, before, st, e);
    if p < MAX_CLIENTS || !w.states[p].currentValid {
      return;
    }
    if p !in st.marked {
      InvOf(w, st, up.0);
      FilteredInherits(w, before, up.0, p);
      up := AddFiltered(w, up.0, p);
    }
    if up.1 {
      InheritedAdd(w, before, up.0, AddToTag(w, st, e).0, e);
    }
  }

  /** After a frame, every path-linked entity that was added moves exactly if the head of its chain does. */
  lemma {:induction false} FrameInherits(w: World, before: seq<bool>, snap: seq<nat>)
    requires InWorld(w, snap) && |before| == |w.states| && Sound(w)
    ensures Inherited(w, before, AddAll(w, Start(before), snap))
  {
    hide Inv, Sound, AddFiltered;
    if snap != [] {
      var n := |snap| - 1;
      FrameKeeps(w, before, snap[..n]);
      FrameInherits(w, before, snap[..n]);
      FilteredInherits(w, before, AddAll(w, Start(before), snap[..n]), snap[n]);
    }
  }
}
