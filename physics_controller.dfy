// The collision-status cache and status listeners of
// src/physics/physics_controller.cpp.
//
// The cache `collision_status_` is a `std::map` from collision pairs to the
// listeners registered for the pair and four status flags.  It is modelled
// as the sequence of its entries in key order, under the ordering `Less` of
// PhysicsCollisionObjects (the one `operator<` evidently intends), so a
// lookup finds a pair whether it is written as stored or swapped.
//
// Bullet is not modelled: which world objects are active after a step is a
// parameter of `Update`, and so is the list of contacts Bullet reports to
// `CollisionCallback::addSingleResult` during the contact tests.  Listeners
// and shapes are known by positive identifiers; 0 is the null pointer.

module PhysicsControllers {
  import opened PhysicsCollisionObjects

  datatype Option<T> = None | Some(value: T)

  // ----- the cache -----

  /** The flags of `CollisionStatus`. */
  const Dirty: bv8 := 0x01
  const Collision: bv8 := 0x02
  const Registered: bv8 := 0x04
  const Remove: bv8 := 0x08

  predicate Has(status: bv8, flag: bv8)
  {
    status & flag != 0
  }

  /** `CollisionInfo`: the listeners of a pair and its status flags. */
  datatype Info = Info(listeners: seq<nat>, status: bv8)

  /** A new `CollisionInfo`: no listeners, no flag set. */
  const NewInfo := Info([], 0)

  datatype Entry = Entry(pair: Pair, info: Info)

  /** The entries are in strictly increasing key order, as a `std::map` keeps them. */
  predicate Sorted(s: seq<Entry>)
  {
    forall i, j :: 0 <= i < j < |s| ==> Less(s[i].pair, s[j].pair)
  }

  /** Every entry's pair is below `p`. */
  predicate AllBelow(s: seq<Entry>, p: Pair)
  {
    forall i :: 0 <= i < |s| ==> Less(s[i].pair, p)
  }

  /** The position of the entry for `p`, swapped or not: the first one whose pair names the same objects. */
  function Find(s: seq<Entry>, p: Pair): (r: Option<nat>)
    ensures r.Some? ==> r.value < |s| && SameKey(s[r.value].pair, p)
    ensures r.Some? ==> forall j :: 0 <= j < r.value ==> !SameKey(s[j].pair, p)
    ensures r.None? ==> forall j :: 0 <= j < |s| ==> !SameKey(s[j].pair, p)
  {
    if s == [] then None
    else if SameKey(s[0].pair, p) then Some(0)
    else
      match Find(s[1..], p)
      case None => None
      case Some(k) => Some(k + 1)
  }

  /** A position that meets `Find`'s contract is the one it returns. */
  lemma FindIs(s: seq<Entry>, p: Pair, r: Option<nat>)
    requires r.Some? ==> r.value < |s| && SameKey(s[r.value].pair, p)
    requires r.Some? ==> forall j :: 0 <= j < r.value ==> !SameKey(s[j].pair, p)
    requires r.None? ==> forall j :: 0 <= j < |s| ==> !SameKey(s[j].pair, p)
    ensures Find(s, p) == r
  {
  }

  /** What the cache holds for `p` (`count`, then `operator[]`). */
  function Get(s: seq<Entry>, p: Pair): (r: Option<Info>)
    ensures r.Some? <==> exists i :: 0 <= i < |s| && SameKey(s[i].pair, p)
  {
    match Find(s, p)
    case None => None
    case Some(i) => Some(s[i].info)
  }

  /** The listeners registered for `p`, none when it has no entry. */
  function ListenersOf(s: seq<Entry>, p: Pair): seq<nat>
  {
    match Get(s, p)
    case None => []
    case Some(info) => info.listeners
  }

  /** In sorted entries every pair names different objects. */
  lemma SortedKeysDiffer(s: seq<Entry>, i: nat, j: nat)
    requires Sorted(s) && i < |s| && j < |s| && i != j
    ensures !SameKey(s[i].pair, s[j].pair)
  {
    if i < j {
      LessTotal(s[i].pair, s[j].pair);
    } else {
      LessTotal(s[j].pair, s[i].pair);
    }
  }

  /** In sorted entries the entry for a pair is the only one naming its objects. */
  lemma SortedFind(s: seq<Entry>, i: nat)
    requires Sorted(s) && i < |s|
    ensures Find(s, s[i].pair) == Some(i)
  {
    forall j | 0 <= j < i
      ensures !SameKey(s[j].pair, s[i].pair)
    {
      SortedKeysDiffer(s, j, i);
    }
    FindIs(s, s[i].pair, Some(i));
  }

  /** Looking a pair up in two runs of entries: the first run, then the second. */
  lemma GetAppend(a: seq<Entry>, b: seq<Entry>, q: Pair)
    ensures Get(a + b, q) == if Get(a, q).Some? then Get(a, q) else Get(b, q)
  {
    var r := a + b;
    assert forall j :: 0 <= j < |a| ==> r[j] == a[j];
    assert forall j :: 0 <= j < |b| ==> r[|a| + j] == b[j];
    match Find(a, q)
    case Some(i) =>
      FindIs(r, q, Some(i));
    case None =>
      match Find(b, q)
      case Some(k) =>
        FindIs(r, q, Some(|a| + k));
      case None =>
        FindIs(r, q, None);
  }

  /** A single entry holds its own pair and nothing else. */
  lemma GetSingle(x: Entry, q: Pair)
    ensures Get([x], q) == if SameKey(x.pair, q) then Some(x.info) else None
  {
  }

  // ----- insertion -----

  /** Where `std::map` puts a new key `p`: before the first entry above it. */
  function InsertPos(s: seq<Entry>, p: Pair): (pos: nat)
    ensures pos <= |s|
    ensures forall j :: 0 <= j < pos ==> !Less(p, s[j].pair)
    ensures pos < |s| ==> Less(p, s[pos].pair)
  {
    if s == [] then 0
    else if Less(p, s[0].pair) then 0
    else 1 + InsertPos(s[1..], p)
  }

  /** The entries with `e` added in its place. */
  function Insert(s: seq<Entry>, e: Entry): seq<Entry>
  {
    var pos := InsertPos(s, e.pair);
    s[..pos] + [e] + s[pos..]
  }

  /** Adding an entry for a new pair keeps the cache sorted. */
  lemma InsertSorted(s: seq<Entry>, e: Entry)
    requires Sorted(s) && Find(s, e.pair).None?
    ensures Sorted(Insert(s, e))
  {
    var pos := InsertPos(s, e.pair);
    var r := Insert(s, e);
    forall i, j | 0 <= i < j < |r|
      ensures Less(r[i].pair, r[j].pair)
    {
      if j < pos {
        assert r[i] == s[i] && r[j] == s[j];
      } else if j == pos {
        assert r[i] == s[i] && r[j] == e;
        assert !SameKey(s[i].pair, e.pair);
        LessTotal(s[i].pair, e.pair);
      } else if i < pos {
        assert r[i] == s[i] && r[j] == s[j - 1];
      } else if i == pos {
        assert r[i] == e && r[j] == s[j - 1];
        if j - 1 > pos {
          LessIsStrictWeakOrder(e.pair, s[pos].pair, s[j - 1].pair);
        }
      } else {
        assert r[i] == s[i - 1] && r[j] == s[j - 1];
      }
    }
  }

  /** The new entry is where the cache finds its pair. */
  lemma InsertFind(s: seq<Entry>, e: Entry)
    requires Find(s, e.pair).None?
    ensures Find(Insert(s, e), e.pair) == Some(InsertPos(s, e.pair))
  {
    var pos := InsertPos(s, e.pair);
    var r := Insert(s, e);
    assert r[pos] == e;
    assert forall j :: 0 <= j < pos ==> r[j] == s[j];
    FindIs(r, e.pair, Some(pos));
  }

  /** After adding an entry for a new pair, the cache holds it for that pair and is unchanged for all others. */
  lemma InsertGet(s: seq<Entry>, e: Entry, q: Pair)
    requires Find(s, e.pair).None?
    ensures Get(Insert(s, e), q) == if SameKey(q, e.pair) then Some(e.info) else Get(s, q)
  {
    var pos := InsertPos(s, e.pair);
    var a, b := s[..pos], s[pos..];
    assert s == a + b;
    GetAppend(a + [e], b, q);
    GetAppend(a, [e], q);
    GetAppend(a, b, q);
    GetSingle(e, q);
    if SameKey(q, e.pair) {
      assert forall j :: 0 <= j < |a| ==> a[j] == s[j];
    }
  }

  /** Setting the info of an entry to `info`. */
  function SetInfo(s: seq<Entry>, i: nat, info: Info): seq<Entry>
    requires i < |s|
  {
    s[i := Entry(s[i].pair, info)]
  }

  /** Changing an entry's info keeps the cache sorted and changes what it holds for that pair only. */
  lemma SetInfoGet(s: seq<Entry>, p: Pair, info: Info, q: Pair)
    requires Find(s, p).Some?
    ensures Sorted(s) ==> Sorted(SetInfo(s, Find(s, p).value, info))
    ensures Find(SetInfo(s, Find(s, p).value, info), p) == Find(s, p)
    ensures Get(SetInfo(s, Find(s, p).value, info), q) == if SameKey(q, p) then Some(info) else Get(s, q)
  {
    var i := Find(s, p).value;
    var r := SetInfo(s, i, info);
    assert forall j :: 0 <= j < |s| ==> r[j].pair == s[j].pair;
    FindIs(r, p, Find(s, p));
    FindIs(r, q, Find(s, q));
  }

  /** Replacing a new entry's info after adding it is adding it with that info. */
  lemma InsertThenSet(s: seq<Entry>, p: Pair, info: Info, info': Info)
    ensures InsertPos(s, p) < |Insert(s, Entry(p, info))|
    ensures SetInfo(Insert(s, Entry(p, info)), InsertPos(s, p), info') == Insert(s, Entry(p, info'))
  {
  }

  // ----- notifications -----

  /** `PhysicsController::Listener::EventType`. */
  datatype Status = Activated | Deactivated

  /** `CollisionListener::EventType`. */
  datatype EventType = Colliding | NotColliding

  /** A call made on a listener: a collision event for a pair, or a status event. */
  datatype Note = CollisionNote(kind: EventType, listener: nat, pair: Pair) | StatusNote(listener: nat, status: Status)

  /** A collision event of type `kind` for `p`, sent to each listener in order. */
  function Notify(listeners: seq<nat>, kind: EventType, p: Pair): (r: seq<Note>)
    ensures |r| == |listeners|
    ensures forall k :: 0 <= k < |r| ==> r[k] == CollisionNote(kind, listeners[k], p)
  {
    seq(|listeners|, k requires 0 <= k < |listeners| => CollisionNote(kind, listeners[k], p))
  }

  /** The listener loops of the collision events: each listener called in order. */
  method Fire(listeners: seq<nat>, kind: EventType, p: Pair) returns (fired: seq<Note>)
    ensures fired == Notify(listeners, kind, p)
  {
    fired := [];
    var i := 0;
    while i < |listeners|
      invariant 0 <= i <= |listeners| && |fired| == i
      invariant forall k :: 0 <= k < i ==> fired[k] == CollisionNote(kind, listeners[k], p)
    {
      fired := fired + [CollisionNote(kind, listeners[i], p)];
      i := i + 1;
    }
  }

  /** The status event `status` sent to each status listener in order. */
  function StatusNotes(listeners: seq<nat>, status: Status): (r: seq<Note>)
    ensures |r| == |listeners|
    ensures forall k :: 0 <= k < |r| ==> r[k] == StatusNote(listeners[k], status)
  {
    seq(|listeners|, k requires 0 <= k < |listeners| => StatusNote(listeners[k], status))
  }

  /** The listener loop of the status event. */
  method FireStatus(listeners: seq<nat>, status: Status) returns (fired: seq<Note>)
    ensures fired == StatusNotes(listeners, status)
  {
    fired := [];
    var k := 0;
    while k < |listeners|
      invariant 0 <= k <= |listeners| && |fired| == k
      invariant forall j :: 0 <= j < k ==> fired[j] == StatusNote(listeners[j], status)
    {
      fired := fired + [StatusNote(listeners[k], status)];
      k := k + 1;
    }
  }

  /**
   * The status check of `Update`: a deactivated world becomes activated as
   * soon as one object is active, an activated one deactivated when none
   * is; either way the world is activated exactly when some object is.
   */
  method NextStatus(current: Status, active: seq<bool>) returns (next: Status)
    ensures next == Activated <==> exists i :: 0 <= i < |active| && active[i]
  {
    next := current;
    if current == Deactivated {
      var i := 0;
      while i < |active|
        invariant 0 <= i <= |active| && next == Deactivated
        invariant forall k :: 0 <= k < i ==> !active[k]
      {
        if active[i] {
          next := Activated;
          break;
        }
        i := i + 1;
      }
    } else {
      var allInactive := true;
      var i := 0;
      while i < |active|
        invariant 0 <= i <= |active| && allInactive
        invariant forall k :: 0 <= k < i ==> !active[k]
      {
        if active[i] {
          allInactive := false;
          break;
        }
        i := i + 1;
      }
      if allInactive {
        next := Deactivated;
      }
    }
  }

  // ----- the passes of Update -----

  /** Pass 1 on one entry kept: its dirty flag set. */
  function Dirtied(e: Entry): Entry
  {
    Entry(e.pair, Info(e.info.listeners, e.info.status | Dirty))
  }

  /** Pass 1: the entries not marked for removal, each dirtied. */
  function Survivors(s: seq<Entry>): seq<Entry>
  {
    if s == [] then []
    else
      var last := s[|s| - 1];
      Survivors(s[..|s| - 1]) + (if Has(last.info.status, Remove) then [] else [Dirtied(last)])
  }

  /**
   * The events of pass 1: an entry removed while colliding with a second
   * object tells its listeners the first object is no longer colliding.
   */
  function RemovalNotes(s: seq<Entry>): seq<Note>
  {
    if s == [] then []
    else
      var last := s[|s| - 1];
      RemovalNotes(s[..|s| - 1])
      + (if Has(last.info.status, Remove) && Has(last.info.status, Collision) && last.pair.b != 0
         then Notify(last.info.listeners, NotColliding, Pair(last.pair.a, 0))
         else [])
  }

  /** Sorted entries: the last is above all the others. */
  lemma SortedSplit(s: seq<Entry>)
    requires Sorted(s) && s != []
    ensures Sorted(s[..|s| - 1]) && AllBelow(s[..|s| - 1], s[|s| - 1].pair)
  {
  }

  /** Entries below a pair stay below it when some are dropped. */
  lemma {:induction false} SurvivorsBelow(s: seq<Entry>, p: Pair)
    requires AllBelow(s, p)
    ensures AllBelow(Survivors(s), p)
    decreases |s|
  {
    if s != [] {
      SurvivorsBelow(s[..|s| - 1], p);
    }
  }

  /** Sorted runs joined around a pair in between stay sorted. */
  lemma SortedAppendOne(a: seq<Entry>, x: Entry)
    requires Sorted(a) && AllBelow(a, x.pair)
    ensures Sorted(a + [x])
  {
  }

  /** Pass 1 keeps the cache sorted. */
  lemma {:induction false} SurvivorsSorted(s: seq<Entry>)
    requires Sorted(s)
    ensures Sorted(Survivors(s))
    decreases |s|
  {
    if s != [] {
      var t, last := s[..|s| - 1], s[|s| - 1];
      SortedSplit(s);
      SurvivorsSorted(t);
      if !Has(last.info.status, Remove) {
        SurvivorsBelow(t, last.pair);
        SortedAppendOne(Survivors(t), Dirtied(last));
      } else {
        assert Survivors(s) == Survivors(t) + [];
      }
    }
  }

  /** What pass 1 leaves of a pair's entry: nothing if it is marked for removal, else the entry dirtied. */
  function DirtyInfo(o: Option<Info>): Option<Info>
  {
    match o
    case None => None
    case Some(info) => if Has(info.status, Remove) then None else Some(Info(info.listeners, info.status | Dirty))
  }

  /** After pass 1 the cache holds no entry marked for removal, and every other entry is dirty. */
  lemma {:induction false} SurvivorsGet(s: seq<Entry>, q: Pair)
    requires Sorted(s)
    ensures Get(Survivors(s), q) == DirtyInfo(Get(s, q))
    decreases |s|
  {
    if s != [] {
      var t, last := s[..|s| - 1], s[|s| - 1];
      var tail := if Has(last.info.status, Remove) then [] else [Dirtied(last)];
      SortedSplit(s);
      SurvivorsGet(t, q);
      assert s == t + [last];
      assert Survivors(s) == Survivors(t) + tail;
      GetAppend(t, [last], q);
      GetAppend(Survivors(t), tail, q);
      GetSingle(last, q);
      GetSingle(Dirtied(last), q);
      if SameKey(last.pair, q) {
        forall j | 0 <= j < |t|
          ensures !SameKey(t[j].pair, q)
        {
          LessTotal(t[j].pair, last.pair);
        }
      }
    }
  }

  /** Pass 3 on one entry: a dirty entry, which no contact touched, stops colliding. */
  function Cleared(e: Entry): Entry
  {
    if Has(e.info.status, Dirty) then Entry(e.pair, Info(e.info.listeners, e.info.status & !Collision)) else e
  }

  /** Pass 3 on all the entries. */
  function ClearedAll(s: seq<Entry>): (r: seq<Entry>)
    ensures |r| == |s|
  {
    seq(|s|, i requires 0 <= i < |s| => Cleared(s[i]))
  }

  /** The events of pass 3: a pair that stops colliding with a second object tells its listeners. */
  function ClearNotes(s: seq<Entry>): seq<Note>
  {
    if s == [] then []
    else
      var last := s[|s| - 1];
      ClearNotes(s[..|s| - 1])
      + (if Has(last.info.status, Dirty) && Has(last.info.status, Collision) && last.pair.b != 0
         then Notify(last.info.listeners, NotColliding, last.pair)
         else [])
  }

  /** What pass 3 leaves of a pair's entry: a dirty one loses its collision flag. */
  function ClearInfo(o: Option<Info>): Option<Info>
  {
    match o
    case None => None
    case Some(info) => Some(if Has(info.status, Dirty) then Info(info.listeners, info.status & !Collision) else info)
  }

  /** Pass 3 keeps the pairs, so the cache stays sorted, and clears the collision flag of every dirty entry. */
  lemma ClearedGet(s: seq<Entry>, q: Pair)
    ensures Sorted(s) ==> Sorted(ClearedAll(s))
    ensures Get(ClearedAll(s), q) == ClearInfo(Get(s, q))
  {
    var r := ClearedAll(s);
    assert forall j :: 0 <= j < |s| ==> r[j].pair == s[j].pair;
    FindIs(r, q, Find(s, q));
  }

  /** The info a contact finds or creates: an existing entry's, or one with the listeners of both objects. */
  function ContactInfo(s: seq<Entry>, p: Pair): Info
  {
    match Get(s, p)
    case Some(info) => info
    case None => Info(ListenersOf(s, Pair(p.a, 0)) + ListenersOf(s, Pair(p.b, 0)), 0)
  }

  /** What a contact leaves of a pair's info: colliding, and no longer dirty. */
  function Touched(info: Info): Info
  {
    Info(info.listeners, (info.status & !Dirty) | Collision)
  }

  /** The cache after `addSingleResult` for a contact between the objects of `p`. */
  function AfterContact(s: seq<Entry>, p: Pair): seq<Entry>
  {
    match Find(s, p)
    case Some(i) => SetInfo(s, i, Touched(s[i].info))
    case None => Insert(s, Entry(p, Touched(ContactInfo(s, p))))
  }

  /**
   * The events of a contact: Colliding for each listener, unless the pair was colliding already or is being removed.
   * Listeners never re-enter the controller here, so the removal flag is tested once for all of them.
   */
  function ContactNotes(s: seq<Entry>, p: Pair): seq<Note>
  {
    var info := ContactInfo(s, p);
    if Has(info.status, Collision) || Has(info.status, Remove) then [] else Notify(info.listeners, Colliding, p)
  }

  /** A contact keeps the cache sorted and leaves the pair colliding and not dirty, and every other pair as it was. */
  lemma ContactGet(s: seq<Entry>, p: Pair, q: Pair)
    requires Sorted(s)
    ensures Sorted(AfterContact(s, p))
    ensures Get(AfterContact(s, p), q) == if SameKey(q, p) then Some(Touched(ContactInfo(s, p))) else Get(s, q)
  {
    match Find(s, p)
    case Some(i) =>
      SetInfoGet(s, p, Touched(s[i].info), q);
    case None =>
      InsertSorted(s, Entry(p, Touched(ContactInfo(s, p))));
      InsertGet(s, Entry(p, Touched(ContactInfo(s, p))), q);
  }

  /** A contact fires events only for a pair that was neither colliding nor being removed. */
  lemma ContactFiresOnlyOnNewCollision(s: seq<Entry>, p: Pair)
    ensures ContactNotes(s, p) != [] ==> Get(s, p).None? || (!Has(Get(s, p).value.status, Collision) && !Has(Get(s, p).value.status, Remove))
    ensures Get(s, p).Some? && Has(Get(s, p).value.status, Collision) ==> ContactNotes(s, p) == []
    ensures Get(s, p).None? ==> ContactNotes(s, p) == Notify(ListenersOf(s, Pair(p.a, 0)) + ListenersOf(s, Pair(p.b, 0)), Colliding, p)
  {
    assert !Has(0, Collision) && !Has(0, Remove);
  }

  /** The contacts of one step, in the order Bullet reports them. */
  function Contacts(s: seq<Entry>, cs: seq<Pair>): seq<Entry>
  {
    if cs == [] then s else AfterContact(Contacts(s, cs[..|cs| - 1]), cs[|cs| - 1])
  }

  function ContactsNotes(s: seq<Entry>, cs: seq<Pair>): seq<Note>
  {
    if cs == [] then []
    else ContactsNotes(s, cs[..|cs| - 1]) + ContactNotes(Contacts(s, cs[..|cs| - 1]), cs[|cs| - 1])
  }

  /** Some contact of `cs` is between the objects of `q`. */
  predicate Contacted(cs: seq<Pair>, q: Pair)
  {
    exists i :: 0 <= i < |cs| && SameKey(cs[i], q)
  }

  /** The contacts before the last had one for `q` exactly when all of them had one other than the last. */
  lemma ContactedInit(cs: seq<Pair>, q: Pair)
    requires cs != [] && !SameKey(cs[|cs| - 1], q)
    ensures Contacted(cs, q) <==> Contacted(cs[..|cs| - 1], q)
  {
    var init := cs[..|cs| - 1];
    if Contacted(cs, q) {
      var i :| 0 <= i < |cs| && SameKey(cs[i], q);
      assert init[i] == cs[i];
    }
    if Contacted(init, q) {
      var i :| 0 <= i < |init| && SameKey(init[i], q);
      assert cs[i] == init[i];
    }
  }

  /**
   * After the contacts every pair that had one is colliding and not dirty;
   * every other pair is as it was.
   */
  lemma {:induction false} ContactsGet(s: seq<Entry>, cs: seq<Pair>, q: Pair)
    requires Sorted(s)
    ensures Sorted(Contacts(s, cs))
    ensures Contacted(cs, q) ==> Get(Contacts(s, cs), q).Some?
    ensures Contacted(cs, q) ==> Has(Get(Contacts(s, cs), q).value.status, Collision) && !Has(Get(Contacts(s, cs), q).value.status, Dirty)
    ensures !Contacted(cs, q) ==> Get(Contacts(s, cs), q) == Get(s, q)
    decreases |cs|
  {
    if cs != [] {
      var init, last := cs[..|cs| - 1], cs[|cs| - 1];
      ContactsGet(s, init, q);
      ContactGet(Contacts(s, init), last, q);
      if SameKey(q, last) {
        assert SameKey(cs[|cs| - 1], q);
        var info := ContactInfo(Contacts(s, init), last);
        assert Has(Touched(info).status, Collision) && !Has(Touched(info).status, Dirty);
      } else {
        ContactedInit(cs, q);
      }
    }
  }

  /**
   * What one `Update` leaves in the cache: a pair has an entry afterwards
   * exactly when it had one not marked for removal or had a contact, and
   * it is colliding exactly when it had a contact.
   */
  lemma UpdateCollisionBits(s: seq<Entry>, cs: seq<Pair>, q: Pair)
    requires Sorted(s)
    ensures var after := ClearedAll(Contacts(Survivors(s), cs));
      Get(after, q).Some? <==> (Get(s, q).Some? && !Has(Get(s, q).value.status, Remove)) || Contacted(cs, q)
    ensures var after := ClearedAll(Contacts(Survivors(s), cs));
      Get(after, q).Some? ==> (Has(Get(after, q).value.status, Collision) <==> Contacted(cs, q))
  {
    SurvivorsSorted(s);
    SurvivorsGet(s, q);
    ContactsGet(Survivors(s), cs, q);
    ClearedGet(Contacts(Survivors(s), cs), q);
  }

  /**
   * Pass 1 sends only NotColliding, about the first object of a pair that
   * was removed while colliding, to a listener of that pair.
   */
  lemma {:induction false} RemovalNotesFrom(s: seq<Entry>)
    ensures forall n :: n in RemovalNotes(s) ==>
      n.CollisionNote? && n.kind == NotColliding && n.pair.b == 0 &&
      exists i :: 0 <= i < |s| && s[i].pair.a == n.pair.a && s[i].pair.b != 0 && n.listener in s[i].info.listeners &&
        Has(s[i].info.status, Remove) && Has(s[i].info.status, Collision)
    decreases |s|
  {
    if s != [] {
      var t, last := s[..|s| - 1], s[|s| - 1];
      RemovalNotesFrom(t);
      forall n | n in RemovalNotes(s)
        ensures n.CollisionNote? && n.kind == NotColliding && n.pair.b == 0
        ensures exists i :: (0 <= i < |s| && s[i].pair.a == n.pair.a && s[i].pair.b != 0 && n.listener in s[i].info.listeners &&
          Has(s[i].info.status, Remove) && Has(s[i].info.status, Collision))
      {
        if n in RemovalNotes(t) {
          var i :| 0 <= i < |t| && t[i].pair.a == n.pair.a && t[i].pair.b != 0 && n.listener in t[i].info.listeners &&
            Has(t[i].info.status, Remove) && Has(t[i].info.status, Collision);
          assert s[i] == t[i];
        } else {
          var ns := Notify(last.info.listeners, NotColliding, Pair(last.pair.a, 0));
          assert n in ns;
          var k :| 0 <= k < |ns| && ns[k] == n;
          assert s[|s| - 1] == last;
        }
      }
    }
  }

  /**
   * Pass 3 sends only NotColliding, about a pair of two objects that was
   * dirty and colliding, to a listener of that pair.
   */
  lemma {:induction false} ClearNotesFrom(s: seq<Entry>)
    ensures forall n :: n in ClearNotes(s) ==>
      n.CollisionNote? && n.kind == NotColliding && n.pair.b != 0 &&
      exists i :: 0 <= i < |s| && s[i].pair == n.pair && n.listener in s[i].info.listeners &&
        Has(s[i].info.status, Dirty) && Has(s[i].info.status, Collision)
    decreases |s|
  {
    if s != [] {
      var t, last := s[..|s| - 1], s[|s| - 1];
      ClearNotesFrom(t);
      forall n | n in ClearNotes(s)
        ensures n.CollisionNote? && n.kind == NotColliding && n.pair.b != 0
        ensures exists i :: (0 <= i < |s| && s[i].pair == n.pair && n.listener in s[i].info.listeners &&
          Has(s[i].info.status, Dirty) && Has(s[i].info.status, Collision))
      {
        if n in ClearNotes(t) {
          var i :| 0 <= i < |t| && t[i].pair == n.pair && n.listener in t[i].info.listeners &&
            Has(t[i].info.status, Dirty) && Has(t[i].info.status, Collision);
          assert s[i] == t[i];
        } else {
          var ns := Notify(last.info.listeners, NotColliding, last.pair);
          assert n in ns;
          var k :| 0 <= k < |ns| && ns[k] == n;
          assert s[|s| - 1] == last;
        }
      }
    }
  }

  // ----- marking for removal -----

  /** An entry marked for removal. */
  function Marked(e: Entry): Entry
  {
    Entry(e.pair, Info(e.info.listeners, e.info.status | Remove))
  }

  /** `RemoveCollisionObject`'s loop: every pair with `obj` on either side marked for removal. */
  function MarkObject(s: seq<Entry>, obj: nat): (r: seq<Entry>)
    ensures |r| == |s|
  {
    seq(|s|, i requires 0 <= i < |s| => if s[i].pair.a == obj || s[i].pair.b == obj then Marked(s[i]) else s[i])
  }

  /** Marking keeps the cache sorted and marks exactly the pairs that hold the object. */
  lemma MarkObjectGet(s: seq<Entry>, obj: nat, q: Pair)
    ensures Sorted(s) ==> Sorted(MarkObject(s, obj))
    ensures Get(MarkObject(s, obj), q) ==
      match Get(s, q)
      case None => None
      case Some(info) => Some(if q.a == obj || q.b == obj then Info(info.listeners, info.status | Remove) else info)
  {
    var r := MarkObject(s, obj);
    assert forall j :: 0 <= j < |s| ==> r[j].pair == s[j].pair;
    FindIs(r, q, Find(s, q));
    if Find(s, q).Some? {
      SameKeyMeansEqualOrSwapped(s[Find(s, q).value].pair, q);
    }
  }

  /** After an object is removed with its listeners, the next step's pass 1 drops every pair that holds it. */
  lemma RemovedObjectLeavesCache(s: seq<Entry>, obj: nat, q: Pair)
    requires Sorted(s) && (q.a == obj || q.b == obj)
    ensures Get(Survivors(MarkObject(s, obj)), q).None?
  {
    MarkObjectGet(s, obj, q);
    SurvivorsGet(MarkObject(s, obj), q);
  }

  // ----- removing from a list -----

  /** The first position of `x` in `s`. */
  function FirstIndex(s: seq<nat>, x: nat): (i: nat)
    requires x in s
    ensures i < |s| && s[i] == x
    ensures forall j :: 0 <= j < i ==> s[j] != x
  {
    if s[0] == x then 0 else 1 + FirstIndex(s[1..], x)
  }

  /** `s` without the first occurrence of `x`; `s` itself when `x` is not in it. */
  function RemoveFirst(s: seq<nat>, x: nat): seq<nat>
  {
    if x in s then s[..FirstIndex(s, x)] + s[FirstIndex(s, x) + 1..] else s
  }

  /** Exactly one `x` goes, the others keep their order. */
  lemma RemoveFirstRemovesOne(s: seq<nat>, x: nat)
    ensures x !in s ==> RemoveFirst(s, x) == s
    ensures x in s ==> |RemoveFirst(s, x)| == |s| - 1 && multiset(RemoveFirst(s, x)) == multiset(s) - multiset{x}
    ensures x in s ==> RemoveFirst(s, x)[..FirstIndex(s, x)] == s[..FirstIndex(s, x)]
  {
    if x in s {
      var i := FirstIndex(s, x);
      var a, b := s[..i], s[i + 1..];
      assert RemoveFirst(s, x) == a + b;
      assert s == a + [x] + b;
      assert multiset(s) == multiset(a) + multiset{x} + multiset(b);
      assert (a + b)[..i] == a;
    }
  }

  // ----- the loops of the passes, on the entries -----

  /** The loop of pass 1: erasing in place the entries marked for removal, dirtying the others. */
  method DirtyPass(s: seq<Entry>) returns (kept: seq<Entry>, fired: seq<Note>)
    ensures kept == Survivors(s) && fired == RemovalNotes(s)
  {
    kept := s;
    fired := [];
    var i := 0;
    ghost var k := 0;
    while i < |kept|
      invariant 0 <= k <= |s| && i == |Survivors(s[..k])|
      invariant kept == Survivors(s[..k]) + s[k..]
      invariant fired == RemovalNotes(s[..k])
      decreases |s| - k
    {
      kept, fired, i := DirtyStep(kept, fired, i, s, k);
      k := k + 1;
    }
    assert s[..k] == s;
  }

  /** One turn of pass 1: entry `k` of `s`, found at `i`, erased or dirtied. */
  method DirtyStep(kept: seq<Entry>, fired: seq<Note>, i: nat, ghost s: seq<Entry>, ghost k: nat)
    returns (kept': seq<Entry>, fired': seq<Note>, next: nat)
    requires k < |s| && i == |Survivors(s[..k])|
    requires kept == Survivors(s[..k]) + s[k..] && fired == RemovalNotes(s[..k])
    ensures kept' == Survivors(s[..k + 1]) + s[k + 1..] && fired' == RemovalNotes(s[..k + 1])
    ensures next == |Survivors(s[..k + 1])|
  {
    next := i;
    ghost var before := Survivors(s[..k]);
    assert s[..k + 1][..k] == s[..k];
    assert s[..k + 1][k] == s[k];
    assert kept[i] == s[k];
    var e := kept[i];
    fired' := fired;
    if Has(e.info.status, Remove) {
      if Has(e.info.status, Collision) && e.pair.b != 0 {
        var notes := Fire(e.info.listeners, NotColliding, Pair(e.pair.a, 0));
        fired' := fired + notes;
      }
      kept' := kept[..i] + kept[i + 1..];
      assert Survivors(s[..k + 1]) == before + [];
      assert kept' == before + s[k + 1..];
    } else {
      kept' := kept[i := Dirtied(e)];
      next := i + 1;
      assert Survivors(s[..k + 1]) == before + [Dirtied(e)];
      assert kept' == before + [Dirtied(e)] + s[k + 1..];
    }
  }

  /** The loop of pass 3: every dirty entry's collision flag cleared in place. */
  method ClearPass(s: seq<Entry>) returns (r: seq<Entry>, fired: seq<Note>)
    ensures r == ClearedAll(s) && fired == ClearNotes(s)
  {
    r := s;
    fired := [];
    var i := 0;
    while i < |r|
      invariant 0 <= i <= |r| == |s|
      invariant forall k :: 0 <= k < i ==> r[k] == Cleared(s[k])
      invariant forall k :: i <= k < |s| ==> r[k] == s[k]
      invariant fired == ClearNotes(s[..i])
    {
      assert s[..i + 1][..i] == s[..i];
      var e := r[i];
      if Has(e.info.status, Dirty) {
        if Has(e.info.status, Collision) && e.pair.b != 0 {
          var notes := Fire(e.info.listeners, NotColliding, e.pair);
          fired := fired + notes;
        }
        r := r[i := Entry(e.pair, Info(e.info.listeners, e.info.status & !Collision))];
      }
      i := i + 1;
    }
    assert s[..i] == s;
  }

  /** The loop of `RemoveCollisionObject`: every pair holding `obj` marked in place. */
  method MarkPass(s: seq<Entry>, obj: nat) returns (r: seq<Entry>)
    ensures r == MarkObject(s, obj)
  {
    r := s;
    var i := 0;
    while i < |r|
      invariant 0 <= i <= |r| == |s|
      invariant forall k :: 0 <= k < i ==> r[k] == MarkObject(s, obj)[k]
      invariant forall k :: i <= k < |s| ==> r[k] == s[k]
    {
      if r[i].pair.a == obj || r[i].pair.b == obj {
        r := r[i := Marked(r[i])];
      }
      i := i + 1;
    }
  }

  /**
   * `addSingleResult` on the entries: the pair's entry is found, or added
   * with the listeners of its first object and then of its second; the
   * listeners hear Colliding unless the pair was colliding or is being
   * removed; the entry is left colliding and not dirty.
   */
  method Contact(s: seq<Entry>, p: Pair) returns (r: seq<Entry>, fired: seq<Note>)
    requires Sorted(s) && p.a != 0 && p.b != 0
    ensures r == AfterContact(s, p) && fired == ContactNotes(s, p)
  {
    r := s;
    var idx := Find(r, p);
    if idx.None? {
      r, idx := AddContactEntry(s, p);
    }
    var info := r[idx.value].info;
    fired := [];
    if !Has(info.status, Collision) {
      if !Has(info.status, Remove) {
        fired := Fire(info.listeners, Colliding, p);
      }
    }
    r := SetInfo(r, idx.value, Touched(info));
    if Find(s, p).None? {
      InsertThenSet(s, p, ContactInfo(s, p), Touched(ContactInfo(s, p)));
    }
  }

  /** The new entry of a contact: created empty, then given the listeners of `(a, null)` and of `(b, null)`. */
  method AddContactEntry(s: seq<Entry>, p: Pair) returns (r: seq<Entry>, idx: Option<nat>)
    requires Find(s, p).None? && p.a != 0 && p.b != 0
    ensures idx == Some(InsertPos(s, p)) && r == Insert(s, Entry(p, ContactInfo(s, p)))
  {
    var p1, p2 := Pair(p.a, 0), Pair(p.b, 0);
    ghost var l1, l2 := ListenersOf(s, p1), ListenersOf(s, p2);
    InsertGet(s, Entry(p, NewInfo), p1);
    InsertGet(s, Entry(p, NewInfo), p2);
    InsertFind(s, Entry(p, NewInfo));
    r := Insert(s, Entry(p, NewInfo));
    idx := Find(r, p);
    var i1 := Find(r, p1);
    if i1.Some? {
      var copied := r[idx.value].info.listeners + r[i1.value].info.listeners;
      assert copied == l1;
      SetInfoGet(r, p, Info(copied, 0), p2);
      InsertThenSet(s, p, NewInfo, Info(copied, 0));
      r := SetInfo(r, idx.value, Info(copied, 0));
    } else {
      assert l1 == [];
    }
    assert r == Insert(s, Entry(p, Info(l1, 0)));
    assert Get(r, p2) == Get(s, p2);
    var i2 := Find(r, p2);
    if i2.Some? {
      var copied := r[idx.value].info.listeners + r[i2.value].info.listeners;
      assert copied == l1 + l2;
      InsertThenSet(s, p, Info(l1, 0), Info(copied, 0));
      r := SetInfo(r, idx.value, Info(copied, 0));
    } else {
      assert l2 == [] && l1 + l2 == l1;
    }
  }

  // ----- the controller -----

  class PhysicsController {
    var entries: seq<Entry>
    var status: Status
    var statusListeners: Option<seq<nat>>
    var shapes: seq<nat>
    var isUpdating: bool

    ghost predicate Valid()
      reads this
    {
      Sorted(entries)
    }

    /** A new controller: an empty cache, deactivated, no status listener list, not updating. */
    constructor ()
      ensures Valid() && entries == [] && status == Deactivated && statusListeners == None
      ensures shapes == [] && !isUpdating
    {
      entries := [];
      status := Deactivated;
      statusListeners := None;
      shapes := [];
      isUpdating := false;
    }

    /** `AddStatusListener`: appended to the list, which is created on first use. */
    method AddStatusListener(listener: nat)
      requires listener != 0
      modifies this
      ensures statusListeners == Some((if old(statusListeners).None? then [] else old(statusListeners).value) + [listener])
      ensures entries == old(entries) && status == old(status) && shapes == old(shapes) && isUpdating == old(isUpdating)
    {
      var ls := if statusListeners.None? then [] else statusListeners.value;
      statusListeners := Some(ls + [listener]);
    }

    /** `RemoveStatusListener`: the first occurrence goes, if there is a list. */
    method RemoveStatusListener(listener: nat)
      requires listener != 0
      modifies this
      ensures statusListeners == if old(statusListeners).None? then None else Some(RemoveFirst(old(statusListeners).value, listener))
      ensures entries == old(entries) && status == old(status) && shapes == old(shapes) && isUpdating == old(isUpdating)
    {
      if statusListeners.None? {
        return;
      }
      var ls := statusListeners.value;
      var i := 0;
      while i < |ls|
        invariant 0 <= i <= |ls|
        invariant forall j :: 0 <= j < i ==> ls[j] != listener
      {
        if ls[i] == listener {
          assert FirstIndex(ls, listener) == i;
          statusListeners := Some(ls[..i] + ls[i + 1..]);
          return;
        }
        i := i + 1;
      }
    }

    /**
     * `AddCollisionListener`: the pair's entry, created if absent, gets the
     * listener appended and the registered flag.
     */
    method AddCollisionListener(listener: nat, a: nat, b: nat)
      requires Valid() && listener != 0 && (a != 0 || b != 0)
      modifies this
      ensures Valid()
      ensures var info := if Get(old(entries), Pair(a, b)).None? then NewInfo else Get(old(entries), Pair(a, b)).value;
        Get(entries, Pair(a, b)) == Some(Info(info.listeners + [listener], info.status | Registered))
      ensures forall q :: !SameKey(q, Pair(a, b)) ==> Get(entries, q) == Get(old(entries), q)
      ensures status == old(status) && statusListeners == old(statusListeners) && shapes == old(shapes) && isUpdating == old(isUpdating)
    {
      var p := Pair(a, b);
      var idx := Find(entries, p);
      if idx.None? {
        InsertSorted(entries, Entry(p, NewInfo));
        forall q {
          InsertGet(entries, Entry(p, NewInfo), q);
        }
        entries := Insert(entries, Entry(p, NewInfo));
        idx := Find(entries, p);
      }
      var info := entries[idx.value].info;
      var info' := Info(info.listeners + [listener], info.status | Registered);
      forall q {
        SetInfoGet(entries, p, info', q);
      }
      entries := SetInfo(entries, idx.value, info');
    }

    /** `RemoveCollisionListener`: an existing entry for the pair is marked for removal; none is created. */
    method RemoveCollisionListener(listener: nat, a: nat, b: nat)
      requires Valid() && (a != 0 || b != 0)
      modifies this
      ensures Valid() && |entries| == |old(entries)|
      ensures Get(entries, Pair(a, b)) ==
        match Get(old(entries), Pair(a, b))
        case None => None
        case Some(info) => Some(Info(info.listeners, info.status | Remove))
      ensures forall q :: !SameKey(q, Pair(a, b)) ==> Get(entries, q) == Get(old(entries), q)
      ensures status == old(status) && statusListeners == old(statusListeners) && shapes == old(shapes) && isUpdating == old(isUpdating)
    {
      var p := Pair(a, b);
      var idx := Find(entries, p);
      if idx.Some? {
        var info := entries[idx.value].info;
        var info' := Info(info.listeners, info.status | Remove);
        forall q {
          SetInfoGet(entries, p, info', q);
        }
        entries := SetInfo(entries, idx.value, info');
      }
    }

    /**
     * `RemoveCollisionObject`: with `removeListeners`, every pair holding
     * the object is marked for removal; the world is not being updated.
     */
    method RemoveCollisionObject(obj: nat, removeListeners: bool)
      requires Valid() && obj != 0 && !isUpdating
      modifies this
      ensures Valid()
      ensures entries == if removeListeners then MarkObject(old(entries), obj) else old(entries)
      ensures status == old(status) && statusListeners == old(statusListeners) && shapes == old(shapes) && isUpdating == old(isUpdating)
    {
      if removeListeners {
        MarkObjectGet(entries, obj, Pair(0, 0));
        entries := MarkPass(entries, obj);
      }
    }

    /** `DestroyShape`: a shape held once only leaves the shape list; the release itself is the shape's. */
    method DestroyShape(shape: nat, refCount: nat)
      modifies this
      ensures shapes == if shape != 0 && refCount == 1 then RemoveFirst(old(shapes), shape) else old(shapes)
      ensures entries == old(entries) && status == old(status) && statusListeners == old(statusListeners) && isUpdating == old(isUpdating)
    {
      if shape != 0 {
        if refCount == 1 {
          shapes := RemoveFirst(shapes, shape);
        }
      }
    }

    /** The status check of `Update`, made only when there is a status listener list. */
    method CheckStatus(active: seq<bool>) returns (fired: seq<Note>)
      modifies this
      ensures old(statusListeners).None? ==> status == old(status) && fired == []
      ensures old(statusListeners).Some? ==> (status == Activated <==> exists i :: 0 <= i < |active| && active[i])
      ensures old(statusListeners).Some? ==>
        fired == if status != old(status) then StatusNotes(old(statusListeners).value, status) else []
      ensures entries == old(entries) && statusListeners == old(statusListeners) && shapes == old(shapes) && isUpdating == old(isUpdating)
    {
      fired := [];
      if statusListeners.Some? {
        var oldStatus := status;
        status := NextStatus(status, active);
        if oldStatus != status {
          fired := FireStatus(statusListeners.value, status);
        }
      }
    }

    /** Pass 1 of `Update`: entries marked for removal are erased, the others dirtied. */
    method DirtyCache() returns (fired: seq<Note>)
      requires Valid()
      modifies this
      ensures Valid() && entries == Survivors(old(entries)) && fired == RemovalNotes(old(entries))
      ensures status == old(status) && statusListeners == old(statusListeners) && shapes == old(shapes) && isUpdating == old(isUpdating)
    {
      SurvivorsSorted(entries);
      entries, fired := DirtyPass(entries);
    }

    /** `CollisionCallback::addSingleResult` for a contact Bullet reports between two collision objects. */
    method AddSingleResult(p: Pair) returns (fired: seq<Note>)
      requires Valid() && p.a != 0 && p.b != 0
      modifies this
      ensures Valid() && entries == AfterContact(old(entries), p) && fired == ContactNotes(old(entries), p)
      ensures status == old(status) && statusListeners == old(statusListeners) && shapes == old(shapes) && isUpdating == old(isUpdating)
    {
      ContactGet(entries, p, p);
      entries, fired := Contact(entries, p);
    }

    /** Pass 3 of `Update`: every entry still dirty stops colliding. */
    method ClearCache() returns (fired: seq<Note>)
      requires Valid()
      modifies this
      ensures Valid() && entries == ClearedAll(old(entries)) && fired == ClearNotes(old(entries))
      ensures status == old(status) && statusListeners == old(statusListeners) && shapes == old(shapes) && isUpdating == old(isUpdating)
    {
      ClearedGet(entries, Pair(0, 0));
      entries, fired := ClearPass(entries);
    }

    /**
     * `Update`: the status check, then pass 1, the contact tests (the
     * contacts Bullet reports) and pass 3; the events come in that order.
     */
    method Update(active: seq<bool>, contacts: seq<Pair>) returns (fired: seq<Note>)
      requires Valid()
      requires forall c :: c in contacts ==> c.a != 0 && c.b != 0
      modifies this
      ensures Valid() && !isUpdating
      ensures old(statusListeners).None? ==> status == old(status)
      ensures old(statusListeners).Some? ==> (status == Activated <==> exists i :: 0 <= i < |active| && active[i])
      ensures entries == ClearedAll(Contacts(Survivors(old(entries)), contacts))
      ensures var statusNotes := if old(statusListeners).Some? && status != old(status) then StatusNotes(old(statusListeners).value, status) else [];
        fired == statusNotes + RemovalNotes(old(entries)) + ContactsNotes(Survivors(old(entries)), contacts)
                 + ClearNotes(Contacts(Survivors(old(entries)), contacts))
      ensures statusListeners == old(statusListeners) && shapes == old(shapes)
    {
      isUpdating := true;
      var statusFired := CheckStatus(active);
      var removed := DirtyCache();
      var contacted := ContactTests(contacts);
      var cleared := ClearCache();
      fired := statusFired + removed + contacted + cleared;
      isUpdating := false;
    }

    /** Pass 2 of `Update`: the contacts Bullet reports, one `addSingleResult` each, in order. */
    method ContactTests(contacts: seq<Pair>) returns (fired: seq<Note>)
      requires Valid()
      requires forall c :: c in contacts ==> c.a != 0 && c.b != 0
      modifies this
      ensures Valid() && entries == Contacts(old(entries), contacts) && fired == ContactsNotes(old(entries), contacts)
      ensures status == old(status) && statusListeners == old(statusListeners) && shapes == old(shapes) && isUpdating == old(isUpdating)
    {
      ghost var base := entries;
      fired := [];
      var i := 0;
      while i < |contacts|
        invariant 0 <= i <= |contacts| && Valid()
        invariant entries == Contacts(base, contacts[..i])
        invariant fired == ContactsNotes(base, contacts[..i])
        invariant status == old(status) && statusListeners == old(statusListeners) && shapes == old(shapes) && isUpdating == old(isUpdating)
      {
        assert contacts[..i + 1][..i] == contacts[..i];
        var notes := AddSingleResult(contacts[i]);
        fired := fired + notes;
        i := i + 1;
      }
      assert contacts[..i] == contacts;
    }
  }
}
