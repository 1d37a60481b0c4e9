// The collision objects of src/physics/physics_collision_object.cpp: the
// `CollisionPair` key of the controller's collision-status cache with its
// ordering, the enabled switch and the kinematic/static type switch.
//
// A collision object is known by a positive identifier (its address); 0 is
// the null pointer.  Bullet's own answers (`isKinematicObject`,
// `isStaticObject`) are parameters.

module PhysicsCollisionObjects {

  /** `CollisionPair`: two objects, either of which may be null (0). */
  datatype Pair = Pair(a: nat, b: nat)

  /**
   * `CollisionPair::operator<` as written: equal or swapped pairs are not
   * less than each other; otherwise the first objects are compared, then
   * the second ones.
   */
  predicate LessAsWritten(p: Pair, q: Pair)
  {
    if (p.a == q.a && p.b == q.b) || (p.a == q.b && p.b == q.a) then false
    else if p.a < q.a then true
    else if p.a == q.a then p.b < q.b
    else false
  }

  /**
   * The ordering `operator<` is not a strict weak ordering, which a
   * `std::map` key needs: (1, 2) < (1, 3) and (1, 3) < (2, 1), yet
   * (1, 2) and (2, 1) are equivalent.
   */
  lemma LessAsWrittenNotTransitive()
    ensures LessAsWritten(Pair(1, 2), Pair(1, 3))
    ensures LessAsWritten(Pair(1, 3), Pair(2, 1))
    ensures !LessAsWritten(Pair(1, 2), Pair(2, 1)) && !LessAsWritten(Pair(2, 1), Pair(1, 2))
  {
  }

  /** The unordered pair of objects: the smaller first. */
  datatype Key = Key(lo: nat, hi: nat)

  function KeyOf(p: Pair): (k: Key)
    ensures k.lo <= k.hi
    ensures (k.lo == p.a && k.hi == p.b) || (k.lo == p.b && k.hi == p.a)
  {
    if p.a <= p.b then Key(p.a, p.b) else Key(p.b, p.a)
  }

  /** Two pairs name the same two objects, in either order. */
  predicate SameKey(p: Pair, q: Pair)
  {
    KeyOf(p) == KeyOf(q)
  }

  lemma SameKeyMeansEqualOrSwapped(p: Pair, q: Pair)
    ensures SameKey(p, q) <==> (p.a == q.a && p.b == q.b) || (p.a == q.b && p.b == q.a)
  {
  }

  /**
   * The ordering the cache needs: swapped pairs are equivalent and the
   * unordered pairs are compared first object, then second.
   */
  predicate Less(p: Pair, q: Pair)
  {
    var k, l := KeyOf(p), KeyOf(q);
    k.lo < l.lo || (k.lo == l.lo && k.hi < l.hi)
  }

  /** `Less` is a strict weak ordering whose equivalence is "equal or swapped". */
  lemma LessIsStrictWeakOrder(p: Pair, q: Pair, r: Pair)
    ensures !Less(p, p)
    ensures Less(p, q) && Less(q, r) ==> Less(p, r)
    ensures !Less(p, q) && !Less(q, p) <==> (p.a == q.a && p.b == q.b) || (p.a == q.b && p.b == q.a)
  {
    SameKeyMeansEqualOrSwapped(p, q);
  }

  /** Pairs of different objects are ordered one way or the other. */
  lemma LessTotal(p: Pair, q: Pair)
    ensures !SameKey(p, q) <==> Less(p, q) || Less(q, p)
    ensures Less(p, q) ==> !SameKey(p, q) && !Less(q, p)
  {
  }

  /** On pairs written smaller object first, `Less` is exactly `operator<` as written. */
  lemma LessAgreesOnOrderedPairs(p: Pair, q: Pair)
    requires p.a <= p.b && q.a <= q.b
    ensures Less(p, q) == LessAsWritten(p, q)
  {
  }

  /** The kind of a collision object; `type()` of each subclass. */
  datatype ObjectType = NoObject | RigidBody | Character | GhostObject | Vehicle | VehicleWheel

  /** The call `SetEnabled` makes on the controller. */
  datatype ControllerCall = NoCall | AddObject | RemoveObject(removeListeners: bool)

  class PhysicsCollisionObject {
    const id: nat
    const kind: ObjectType
    const group: int
    const mask: int
    var enabled: bool

    /** A new object is enabled. */
    constructor (id: nat, kind: ObjectType, group: int, mask: int)
      ensures this.id == id && this.kind == kind && this.group == group && this.mask == mask
      ensures enabled
    {
      this.id, this.kind, this.group, this.mask := id, kind, group, mask;
      enabled := true;
    }

    /**
     * `IsKinematic`: ghost objects and characters are kinematic; any other
     * object is what Bullet says of it.
     */
    function IsKinematic(bulletKinematic: bool): (r: bool)
      ensures (kind == GhostObject || kind == Character) ==> r
      ensures !(kind == GhostObject || kind == Character) ==> r == bulletKinematic
    {
      match kind
      case GhostObject => true
      case Character => true
      case _ => bulletKinematic
    }

    /**
     * `IsStatic`: ghost objects and characters are never static; any other
     * object is what Bullet says of it.
     */
    function IsStatic(bulletStatic: bool): (r: bool)
      ensures (kind == GhostObject || kind == Character) ==> !r
      ensures !(kind == GhostObject || kind == Character) ==> r == bulletStatic
    {
      match kind
      case GhostObject => false
      case Character => false
      case _ => bulletStatic
    }

    /**
     * `SetEnabled`: the object ends up as asked, and the controller is told
     * only on a change: to add the object when it is enabled, to remove it,
     * keeping its listeners, when it is disabled.
     */
    method SetEnabled(enable: bool) returns (call: ControllerCall)
      modifies this
      ensures enabled == enable
      ensures call == NoCall <==> old(enabled) == enable
      ensures call == AddObject <==> !old(enabled) && enable
      ensures call == RemoveObject(false) <==> old(enabled) && !enable
      ensures call != RemoveObject(true)
    {
      call := NoCall;
      if enable {
        if !enabled {
          call := AddObject;
          enabled := true;
        }
      } else {
        if enabled {
          call := RemoveObject(false);
          enabled := false;
        }
      }
    }
  }

  /** Setting the same value twice: the second call makes no controller call. */
  method SetEnabledTwice(o: PhysicsCollisionObject, enable: bool) returns (first: ControllerCall, second: ControllerCall)
    modifies o
    ensures o.enabled == enable && second == NoCall
    ensures first == NoCall <==> old(o.enabled) == enable
  {
    first := o.SetEnabled(enable);
    second := o.SetEnabled(enable);
  }

  /** Kinematic and static are exclusive for ghost objects and characters whatever Bullet says. */
  lemma GhostsAreKinematicNotStatic(o: PhysicsCollisionObject, k: bool, s: bool)
    requires o.kind == GhostObject || o.kind == Character
    ensures o.IsKinematic(k) && !o.IsStatic(s)
  {
  }
}
