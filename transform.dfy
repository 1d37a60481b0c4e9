// The change-notification protocol of src/math/transform.cpp.
//
// A transform keeps its scale, rotation and translation and a byte of dirty
// bits.  Every mutator ORs its bits in through Dirty, which either notifies
// the transform's listeners at once or, while notifications are suspended,
// queues the transform once (the DIRTY_NOTIFY bit) until the matching resume.
// The static suspension counter and queue are the class ChangeQueue.  A
// notification round is counted by `notifications`; what listeners do when
// notified is not modelled.  Components are reals; the matrix itself, and the
// rotation arithmetic of Rotate, are not modelled.

module Transforms {

  const DirtyTranslation: bv8 := 0x01
  const DirtyScale: bv8 := 0x02
  const DirtyRotation: bv8 := 0x04
  const DirtyNotify: bv8 := 0x08

  /** The bits that GetMatrix clears when it rebuilds the matrix. */
  const DirtyMatrix: bv8 := 0x07

  datatype Vector3 = Vector3(x: real, y: real, z: real)
  datatype Quaternion = Quaternion(x: real, y: real, z: real, w: real)

  const One := Vector3(1.0, 1.0, 1.0)
  const Zero := Vector3(0.0, 0.0, 0.0)
  const Identity := Quaternion(0.0, 0.0, 0.0, 1.0)

  /** `IsDirty`: every one of the given bits is set. */
  function IsDirtyBits(bits: bv8, b: bv8): (r: bool)
    ensures r <==> bits & b == b
  {
    bits & b == b
  }

  /** Asking for two groups of bits at once asks for each. */
  lemma IsDirtyUnion(bits: bv8, b1: bv8, b2: bv8)
    ensures IsDirtyBits(bits, b1 | b2) <==> IsDirtyBits(bits, b1) && IsDirtyBits(bits, b2)
  {
  }

  /** The dirty bits after GetMatrix: the matrix bits cleared, DIRTY_NOTIFY kept. */
  function MatrixCleared(bits: bv8): (r: bv8)
    ensures !IsDirtyBits(r, DirtyTranslation) && !IsDirtyBits(r, DirtyRotation) && !IsDirtyBits(r, DirtyScale)
    ensures IsDirtyBits(r, DirtyNotify) <==> IsDirtyBits(bits, DirtyNotify)
    ensures r & !DirtyMatrix == bits & !DirtyMatrix
  {
    if bits & DirtyMatrix != 0 then bits & !DirtyMatrix else bits
  }

  ghost predicate Distinct(s: seq<Transform>)
  {
    forall i, j :: 0 <= i < j < |s| ==> s[i] != s[j]
  }

  /** The static `suspend_transform_changed_` counter and `transforms_changed_` queue. */
  class ChangeQueue {
    var suspendCount: int
    var changed: seq<Transform>

    /** Each queued transform is queued once and carries DIRTY_NOTIFY. */
    ghost predicate Valid()
      reads this, set t | t in changed
    {
      suspendCount >= 0 && Distinct(changed)
      && forall i :: 0 <= i < |changed| ==> IsDirtyBits(changed[i].dirtyBits, DirtyNotify)
    }

    constructor ()
      ensures Valid() && suspendCount == 0 && changed == []
    {
      suspendCount, changed := 0, [];
    }

    function IsTransformChangedSuspended(): (b: bool)
      reads this
      ensures b <==> suspendCount > 0
    {
      suspendCount > 0
    }

    method SuspendTransformChanged()
      requires Valid()
      modifies this
      ensures Valid() && suspendCount == old(suspendCount) + 1 && changed == old(changed)
    {
      suspendCount := suspendCount + 1;
    }

    /**
     * A no-op at 0.  The resume that brings the counter from 1 to 0 notifies
     * every queued transform once, clears their DIRTY_NOTIFY and empties the
     * queue; any other resume only decrements.
     */
    method ResumeTransformChanged()
      requires Valid()
      modifies this, set t | t in changed
      ensures Valid()
      ensures old(suspendCount) == 0 ==> suspendCount == 0 && changed == old(changed)
      ensures old(suspendCount) > 1 ==> suspendCount == old(suspendCount) - 1 && changed == old(changed)
      ensures old(suspendCount) != 1 ==> forall t :: t in old(changed) ==> unchanged(t)
      ensures old(suspendCount) == 1 ==> suspendCount == 0 && changed == []
      ensures old(suspendCount) == 1 ==> forall t :: t in old(changed) ==>
        t.notifications == old(t.notifications) + 1 && t.dirtyBits == old(t.dirtyBits) & !DirtyNotify
        && t.listeners == old(t.listeners)
    {
      if suspendCount == 0 {
        return;
      }
      if suspendCount == 1 {
        var ts := changed;
        var i := 0;
        while i < |ts|
          invariant 0 <= i <= |ts| && ts == changed && Valid()
          invariant forall j :: 0 <= j < |ts| ==>
            ts[j].notifications == old(ts[j].notifications) + (if j < i then 1 else 0)
            && ts[j].dirtyBits == old(ts[j].dirtyBits) && ts[j].listeners == old(ts[j].listeners)
          invariant suspendCount == old(suspendCount)
        {
          ts[i].TransformChanged();
          i := i + 1;
        }
        i := 0;
        while i < |ts|
          invariant 0 <= i <= |ts| && ts == changed && Distinct(ts)
          invariant forall j :: 0 <= j < |ts| ==>
            ts[j].notifications == old(ts[j].notifications) + 1
            && ts[j].dirtyBits == (if j < i then old(ts[j].dirtyBits) & !DirtyNotify else old(ts[j].dirtyBits))
            && ts[j].listeners == old(ts[j].listeners)
          invariant suspendCount == old(suspendCount)
        {
          ts[i].dirtyBits := ts[i].dirtyBits & !DirtyNotify;
          i := i + 1;
        }
        changed := [];
      }
      suspendCount := suspendCount - 1;
    }
  }

  class Transform {
    /** `IsStatic()`, which the base class answers with false and a static subclass with true. */
    const isStatic: bool
    var scale: Vector3
    var rotation: Quaternion
    var translation: Vector3
    var dirtyBits: bv8
    /** The listeners with their cookies, in the order they were added. */
    var listeners: seq<(nat, int)>
    /** How many times the listeners were notified. */
    var notifications: nat

    constructor (isStatic: bool)
      ensures this.isStatic == isStatic && scale == One && rotation == Identity && translation == Zero
      ensures dirtyBits == 0 && listeners == [] && notifications == 0
    {
      this.isStatic := isStatic;
      scale, rotation, translation := One, Identity, Zero;
      dirtyBits, listeners, notifications := 0, [], 0;
    }

    function IsDirty(b: bv8): (r: bool)
      reads this
      ensures r <==> IsDirtyBits(dirtyBits, b)
    {
      IsDirtyBits(dirtyBits, b)
    }

    /**
     * What `Dirty(bits)` did: the bits ORed in; while suspended the transform
     * was queued with DIRTY_NOTIFY unless it already carried it, otherwise the
     * listeners were notified once.  Nothing else changed.
     */
    twostate predicate Dirtied(q: ChangeQueue, bits: bv8)
      reads this, q
    {
      var queued := old(q.suspendCount) > 0 && !IsDirtyBits(old(dirtyBits) | bits, DirtyNotify);
      q.suspendCount == old(q.suspendCount)
      && q.changed == (if queued then old(q.changed) + [this] else old(q.changed))
      && dirtyBits == (if queued then old(dirtyBits) | bits | DirtyNotify else old(dirtyBits) | bits)
      && notifications == old(notifications) + (if old(q.suspendCount) > 0 then 0 else 1)
      && listeners == old(listeners)
    }

    /** `TransformChanged`: one notification round over the listeners. */
    method TransformChanged()
      modifies this
      ensures notifications == old(notifications) + 1
      ensures dirtyBits == old(dirtyBits) && listeners == old(listeners)
      ensures scale == old(scale) && rotation == old(rotation) && translation == old(translation)
    {
      notifications := notifications + 1;
    }

    /** `SuspendTransformChange(this)`: mark DIRTY_NOTIFY and queue the transform. */
    method SuspendTransformChange(q: ChangeQueue)
      requires q.Valid() && !IsDirtyBits(dirtyBits, DirtyNotify)
      modifies this, q
      ensures q.Valid() && q.suspendCount == old(q.suspendCount) && q.changed == old(q.changed) + [this]
      ensures dirtyBits == old(dirtyBits) | DirtyNotify
      ensures notifications == old(notifications) && listeners == old(listeners)
      ensures scale == old(scale) && rotation == old(rotation) && translation == old(translation)
    {
      assert this !in q.changed by {
        forall i | 0 <= i < |q.changed|
          ensures q.changed[i] != this
        {
          assert IsDirtyBits(q.changed[i].dirtyBits, DirtyNotify);
        }
      }
      dirtyBits := dirtyBits | DirtyNotify;
      q.changed := q.changed + [this];
      assert q.changed[|q.changed| - 1] == this;
    }

    /**
     * `Dirty`: OR in the bits; while suspended, queue the transform unless it
     * already carries DIRTY_NOTIFY, otherwise notify the listeners now.
     */
    method Dirty(q: ChangeQueue, bits: bv8)
      requires q.Valid()
      modifies this, q
      ensures q.Valid() && Dirtied(q, bits)
      ensures scale == old(scale) && rotation == old(rotation) && translation == old(translation)
    {
      dirtyBits := dirtyBits | bits;
      if q.IsTransformChangedSuspended() {
        if !IsDirty(DirtyNotify) {
          SuspendTransformChange(q);
        }
      } else {
        TransformChanged();
      }
    }

    /** `GetMatrix`: rebuilding the matrix clears the matrix bits and keeps DIRTY_NOTIFY. */
    method GetMatrix()
      modifies this
      ensures dirtyBits == MatrixCleared(old(dirtyBits))
      ensures notifications == old(notifications) && listeners == old(listeners)
      ensures scale == old(scale) && rotation == old(rotation) && translation == old(translation)
    {
      if dirtyBits & (DirtyTranslation | DirtyRotation | DirtyScale) != 0 {
        dirtyBits := dirtyBits & !(DirtyTranslation | DirtyRotation | DirtyScale);
      }
    }

    /** `SetScale(float)`: a uniform scale, ignored by a static transform. */
    method SetUniformScale(q: ChangeQueue, s: real)
      requires q.Valid()
      modifies this, q
      ensures q.Valid() && (isStatic ==> unchanged(this, q))
      ensures !isStatic ==> scale == Vector3(s, s, s) && Dirtied(q, DirtyScale)
      ensures rotation == old(rotation) && translation == old(translation) && listeners == old(listeners)
    {
      if isStatic {
        return;
      }
      scale := Vector3(s, s, s);
      Dirty(q, DirtyScale);
    }

    /** `SetScale(const Vector3&)` as written: the only mutator without the static guard. */
    method SetScaleAsWritten(q: ChangeQueue, s: Vector3)
      requires q.Valid()
      modifies this, q
      ensures q.Valid() && scale == s && Dirtied(q, DirtyScale)
      ensures rotation == old(rotation) && translation == old(translation) && listeners == old(listeners)
    {
      scale := s;
      Dirty(q, DirtyScale);
    }

    /** `SetScale(const Vector3&)` with the guard every other mutator has. */
    method SetScale(q: ChangeQueue, s: Vector3)
      requires q.Valid()
      modifies this, q
      ensures q.Valid() && (isStatic ==> unchanged(this, q))
      ensures !isStatic ==> scale == s && Dirtied(q, DirtyScale)
      ensures rotation == old(rotation) && translation == old(translation) && listeners == old(listeners)
    {
      if isStatic {
        return;
      }
      scale := s;
      Dirty(q, DirtyScale);
    }

    method SetRotation(q: ChangeQueue, r: Quaternion)
      requires q.Valid()
      modifies this, q
      ensures q.Valid() && (isStatic ==> unchanged(this, q))
      ensures !isStatic ==> rotation == r && Dirtied(q, DirtyRotation)
      ensures scale == old(scale) && translation == old(translation) && listeners == old(listeners)
    {
      if isStatic {
        return;
      }
      rotation := r;
      Dirty(q, DirtyRotation);
    }

    method SetTranslation(q: ChangeQueue, t: Vector3)
      requires q.Valid()
      modifies this, q
      ensures q.Valid() && (isStatic ==> unchanged(this, q))
      ensures !isStatic ==> translation == t && Dirtied(q, DirtyTranslation)
      ensures scale == old(scale) && rotation == old(rotation) && listeners == old(listeners)
    {
      if isStatic {
        return;
      }
      translation := t;
      Dirty(q, DirtyTranslation);
    }

    /** `Translate`: move by the given offsets. */
    method Translate(q: ChangeQueue, tx: real, ty: real, tz: real)
      requires q.Valid()
      modifies this, q
      ensures q.Valid() && (isStatic ==> unchanged(this, q))
      ensures !isStatic ==>
        translation == Vector3(old(translation).x + tx, old(translation).y + ty, old(translation).z + tz)
        && Dirtied(q, DirtyTranslation)
      ensures scale == old(scale) && rotation == old(rotation) && listeners == old(listeners)
    {
      if isStatic {
        return;
      }
      translation := Vector3(translation.x + tx, translation.y + ty, translation.z + tz);
      Dirty(q, DirtyTranslation);
    }

    method SetIdentity(q: ChangeQueue)
      requires q.Valid()
      modifies this, q
      ensures q.Valid() && (isStatic ==> unchanged(this, q))
      ensures !isStatic ==> (scale == One && rotation == Identity && translation == Zero
                             && Dirtied(q, DirtyTranslation | DirtyRotation | DirtyScale))
    {
      if isStatic {
        return;
      }
      scale, rotation, translation := One, Identity, Zero;
      Dirty(q, DirtyTranslation | DirtyRotation | DirtyScale);
    }

    method AddListener(listener: nat, cookie: int)
      modifies this
      ensures listeners == old(listeners) + [(listener, cookie)]
      ensures dirtyBits == old(dirtyBits) && notifications == old(notifications)
    {
      listeners := listeners + [(listener, cookie)];
    }

    /** `RemoveListener`: only the first entry for the listener goes. */
    method RemoveListener(listener: nat)
      modifies this
      ensures (forall j :: 0 <= j < |old(listeners)| ==> old(listeners)[j].0 != listener) ==> listeners == old(listeners)
      ensures forall i ::
        (0 <= i < |old(listeners)| && old(listeners)[i].0 == listener
         && forall j :: 0 <= j < i ==> old(listeners)[j].0 != listener)
        ==> listeners == old(listeners)[..i] + old(listeners)[i + 1..]
      ensures dirtyBits == old(dirtyBits) && notifications == old(notifications)
    {
      var i := 0;
      while i < |listeners|
        invariant 0 <= i <= |listeners| && listeners == old(listeners)
        invariant forall j :: 0 <= j < i ==> listeners[j].0 != listener
      {
        if listeners[i].0 == listener {
          listeners := listeners[..i] + listeners[i + 1..];
          return;
        }
        i := i + 1;
      }
    }
  }

  /** A static transform still takes a new scale through SetScale(const Vector3&). */
  method StaticTransformTakesScale() returns (isStatic: bool, scale: Vector3)
    ensures isStatic && scale == Vector3(2.0, 2.0, 2.0)
  {
    var q := new ChangeQueue();
    var t := new Transform(true);
    t.SetScaleAsWritten(q, Vector3(2.0, 2.0, 2.0));
    isStatic, scale := t.isStatic, t.scale;
  }

  /** Changes made while suspended are announced once, at the outermost resume. */
  method SuspendedChangesScenario()
  {
    var q := new ChangeQueue();
    var t := new Transform(false);
    q.SuspendTransformChanged();
    q.SuspendTransformChanged();
    t.SetTranslation(q, Vector3(1.0, 0.0, 0.0));
    assert q.changed == [t] && t.notifications == 0;
    t.SetRotation(q, Quaternion(0.0, 1.0, 0.0, 0.0));
    assert q.changed == [t];
    q.ResumeTransformChanged();
    assert t.notifications == 0 && q.IsTransformChangedSuspended();
    q.ResumeTransformChanged();
    assert t.notifications == 1 && q.changed == [] && !t.IsDirty(DirtyNotify);
    assert t.IsDirty(DirtyTranslation | DirtyRotation);
    t.GetMatrix();
    assert !t.IsDirty(DirtyTranslation) && !t.IsDirty(DirtyRotation);
  }
}
