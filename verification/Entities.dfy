/** The entities of a frame and the mutually recursive functions that add them to the scene. */
module Entities {
  import opened EntityOrder

  /** The part of centity_t that the traversal uses. */
  class Centity {
    const currentState: EntityState
    var processedFrame: int
    var moving: bool

    constructor (currentState: EntityState)
    {
      this.currentState := currentState;
      processedFrame := 0;
      moving := false;
    }
  }

  class Scene {
    const cgEntities: seq<Centity>
    const mvTotalClients: int
    ghost const rank: seq<nat>        // shows that no entity is its own ancestor
    var clientFrame: int
    ghost var log: seq<nat>           // the entities that were processed in this frame

    ghost function Frame(): World
    {
      World(seq(|cgEntities|, i requires 0 <= i < |cgEntities| => cgEntities[i].currentState), rank, mvTotalClients)
    }

    ghost function Now(): (st: State)
      reads this, cgEntities
      ensures Fits(Frame(), st)
    {
      State(set i: nat | i < |cgEntities| && cgEntities[i].processedFrame == clientFrame,
            seq(|cgEntities|, i requires 0 <= i < |cgEntities| reads this, cgEntities => cgEntities[i].moving),
            log)
    }

    ghost predicate Valid()
    {
      Frame().Valid() && forall i, j :: 0 <= i < j < |cgEntities| ==> cgEntities[i] != cgEntities[j]
    }

    /** A new frame: no entity is marked any more. */
    method NextFrame()
      requires Valid() && forall i :: 0 <= i < |cgEntities| ==> cgEntities[i].processedFrame <= clientFrame
      modifies this
      ensures forall i :: 0 <= i < |cgEntities| ==> cgEntities[i].processedFrame < clientFrame
      ensures Now() == Start(old(Now()).moving)
    {
      clientFrame, log := clientFrame + 1, [];
    }

    // An entity is marked with the number of the frame.
    method Mark(e: nat)
      requires Valid() && e < |cgEntities|
      modifies cgEntities`processedFrame
      ensures Now() == old(Now()).(marked := old(Now()).marked + {e})
    {
      cgEntities[e].processedFrame := clientFrame;
      assert Now().marked == old(Now()).marked + {e};
    }

    // The effects and the drawing of an entity, of which only the order is kept.
    ghost method Process(e: nat)
      requires e < |cgEntities|
      modifies this`log
      ensures Now() == old(Now()).(log := old(log) + [e]) && log == old(log) + [e]
    {
      log := log + [e];
    }

    method SetMoving(e: nat, moving: bool)
      requires Valid() && e < |cgEntities|
      modifies cgEntities`moving
      ensures Now() == old(Now()).(moving := old(Now()).moving[e := moving])
    {
      cgEntities[e].moving := moving;
      assert Now().moving == old(Now()).moving[e := moving];
    }

    /** CG_AddLinkedEntity. */
    method AddLinkedEntity(e: nat, ignoreframe: bool) returns (ok: bool)
      requires Valid() && e < |cgEntities| && cgEntities[e].currentState.pathLink
      modifies this`log, cgEntities`processedFrame, cgEntities`moving
      ensures (Now(), ok) == AddLinked(Frame(), old(Now()), e, ignoreframe)
      decreases rank[e]
    {
      ghost var w, st := Frame(), Now();
      assert w.ValidEntity(e);
      var cent := cgEntities[e];
      if cent.currentState.eventOnly {
        return true;
      }
      if !ignoreframe && cent.processedFrame == clientFrame && mvTotalClients < 2 {
        return true;
      }
      var p := cent.currentState.torsoAnim;
      var parent := cgEntities[p];
      if !parent.currentState.currentValid {
        return false;
      }
      if parent.processedFrame != clientFrame || ignoreframe {
        if parent.currentState.pathLink {
          ok := AddLinkedEntity(p, ignoreframe);
          if !ok {
            return false;
          }
        }
      }
      if !ignoreframe {
        Mark(e);
      }
      if !parent.currentState.pathLink {
        if parent.currentState.linearPath {
          if !parent.currentState.splineFound {
            return false;
          }
          SetMoving(e, true);
        } else {
          SetMoving(e, false);
        }
      } else if parent.moving {
        SetMoving(e, true);
      } else {
        SetMoving(e, false);
      }
      if !ignoreframe {
        Process(e);
      }
      return true;
    }

    /** CG_CalcEntityLerpPositions, as far as it reaches other entities: a path-linked mover under the entity is
        evaluated for two points in time and then for the present again. */
    method CalcEntityLerpPositions(e: nat)
      requires Valid() && e < |cgEntities|
      modifies this`log, cgEntities`processedFrame, cgEntities`moving
      ensures Now() == CalcLerp(Frame(), old(Now()), e)
    {
      hide AddLinked;
      assert Frame().ValidEntity(e);
      var mover := cgEntities[e].currentState.mover;
      if mover.Some? {
        var _ := AddLinkedEntity(mover.value, true);
        var _ := AddLinkedEntity(mover.value, true);
        var _ := AddLinkedEntity(mover.value, true);
      }
    }

    /** CG_AddCEntity. */
    method AddCEntity(e: nat)
      requires Valid() && e < |cgEntities|
      modifies this`log, cgEntities`processedFrame, cgEntities`moving
      ensures Now() == AddPlain(Frame(), old(Now()), e)
    {
      hide CalcLerp;
      if cgEntities[e].currentState.eventOnly {
        return;
      }
      Mark(e);
      CalcEntityLerpPositions(e);
      Process(e);
    }

    /** CG_AddEntityToTag. */
    method AddEntityToTag(e: nat) returns (ok: bool)
      requires Valid() && e < |cgEntities| && cgEntities[e].currentState.tagConnect
      modifies this`log, cgEntities`processedFrame, cgEntities`moving
      ensures (Now(), ok) == AddToTag(Frame(), old(Now()), e)
      decreases rank[e], 0
    {
      hide CalcLerp, AddFiltered;
      assert Frame().ValidEntity(e);
      var cent := cgEntities[e];
      if cent.currentState.eventOnly {
        return false;
      }
      if cent.processedFrame == clientFrame && mvTotalClients < 2 {
        return true;
      }
      ghost var st := Now();
      CalcEntityLerpPositions(e);
      CalcLeavesOrder(Frame(), st, e);
      var p := cent.currentState.tagParent;
      if p < MAX_CLIENTS {
        return false;
      }
      var parent := cgEntities[p];
      if !parent.currentState.currentValid {
        return false;
      }
      assert p in st.marked <==> parent.processedFrame == clientFrame by {
        assert p in Now().marked <==> parent.processedFrame == clientFrame;
      }
      if parent.processedFrame != clientFrame {
        ok := AddCEntityFilter(p);
        if !ok {
          return false;
        }
      }
      Mark(e);
      Process(e);
      return true;
    }

    /** CG_AddCEntity_Filter. */
    method AddCEntityFilter(e: nat) returns (ok: bool)
      requires Valid() && e < |cgEntities|
      modifies this`log, cgEntities`processedFrame, cgEntities`moving
      ensures (Now(), ok) == AddFiltered(Frame(), old(Now()), e)
      decreases rank[e], 1
    {
      hide AddLinked, AddPlain, AddToTag;
      var cent := cgEntities[e];
      if cent.processedFrame == clientFrame && mvTotalClients < 2 {
        return true;
      }
      if cent.currentState.pathLink {
        ok := AddLinkedEntity(e, false);
        return;
      }
      if cent.currentState.tagConnect {
        ok := AddEntityToTag(e);
        return;
      }
      AddCEntity(e);
      return true;
    }

    /** The part of CG_AddPacketEntities that adds the snapshot, in a frame that has not marked anything yet. Parents
        come before their children, and with fewer than two views nothing is added twice. Unless a given-up entity has
        children that wait for it, the set that is added is the closure of the snapshot, whatever its order, and every
        path-linked entity moves exactly if the head of its chain does. */
    method AddPacketEntities(clientNum: nat, snapshot: seq<nat>)
      requires Valid() && InWorld(Frame(), snapshot) && clientNum < |cgEntities|
      requires log == [] && forall i :: 0 <= i < |cgEntities| ==> cgEntities[i].processedFrame != clientFrame
      modifies this`log, cgEntities`processedFrame, cgEntities`moving
      ensures var before := CalcLerp(Frame(), old(Now()), clientNum).moving;
              Now() == AddAll(Frame(), Start(before), snapshot)
              && Inv(Frame(), Now())
              && (Sound(Frame()) ==> Elements(log) == Reach(Frame(), snapshot) && Inherited(Frame(), before, Now()))
    {
      hide CalcLerp, AddFiltered, Inv, Sound, Inherited, Reach, Elements;
      ghost var w, st := Frame(), Now();
      CalcEntityLerpPositions(clientNum);
      CalcLeavesOrder(w, st, clientNum);
      ghost var before := CalcLerp(w, st, clientNum).moving;
      assert Now() == Start(before);
      var num := 0;
      while num < |snapshot|
        invariant 0 <= num <= |snapshot| && Now() == AddAll(w, Start(before), snapshot[..num])
      {
        assert snapshot[..num + 1][..num] == snapshot[..num];
        var _ := AddCEntityFilter(snapshot[num]);
        num := num + 1;
      }
      assert snapshot[..num] == snapshot;
      FrameKeeps(w, before, snapshot);
      if Sound(w) {
        FrameExact(w, before, snapshot);
        FrameInherits(w, before, snapshot);
      }
    }
  }
}
