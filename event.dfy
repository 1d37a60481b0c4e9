// The event record of src/event/event.cpp: a type identifier and a table
// of at most kMaxArgs (4) key/value arguments, each value tagged with its
// type.  A float is a real here.  common/sc_assert.h is not part of this
// model: the assertion that a found value has the requested type becomes a
// precondition, and a key that is not found yields the type's default.

module Events {

  type StringID = bv32

  /** `Event::kMaxArgs`. */
  const MaxArgs := 4

  newtype int32 = x: int | -0x8000_0000 <= x < 0x8000_0000

  /** `Event::Value`: the type tag together with the member of the union it selects. */
  datatype Value = Integer(i: int32) | Float(f: real) | Boolean(b: bool) | StringIdValue(s: StringID)

  datatype KeyValuePair = KeyValuePair(key: StringID, value: Value)

  /** The value of the first pair with the key, if any. */
  function Lookup(args: seq<KeyValuePair>, key: StringID): (r: Option<Value>)
    ensures r.None? <==> forall i :: 0 <= i < |args| ==> args[i].key != key
    ensures r.Some? ==> exists i :: 0 <= i < |args| && args[i] == KeyValuePair(key, r.value) &&
                                    forall j :: 0 <= j < i ==> args[j].key != key
  {
    if args == [] then None
    else if args[0].key == key then Some(args[0].value)
    else Lookup(args[1..], key)
  }

  datatype Option<T> = None | Some(value: T)

  class Event {
    const eventType: StringID
    var numArgs: nat
    const args: array<KeyValuePair>

    ghost predicate Valid()
      reads this
    {
      args.Length == MaxArgs && numArgs <= MaxArgs
    }

    /** The arguments that have been added. */
    ghost function Args(): seq<KeyValuePair>
      requires Valid()
      reads this, args
    {
      args[..numArgs]
    }

    /** A new event has its type and no arguments. */
    constructor (eventType: StringID)
      ensures Valid() && this.eventType == eventType && Args() == [] && fresh(args)
    {
      this.eventType := eventType;
      numArgs := 0;
      args := new KeyValuePair[MaxArgs](_ => KeyValuePair(0, Integer(0)));
    }

    /** `type()`: the type given at construction. */
    function Type(): (t: StringID)
      reads this
      ensures t == eventType
    {
      eventType
    }

    /** `ResetArgs`: no arguments remain. */
    method ResetArgs()
      requires Valid()
      modifies this
      ensures Valid() && Args() == []
    {
      numArgs := 0;
    }

    /**
     * `AddArg`: with room left, the pair is appended; a full table is left
     * as it is.
     */
    method AddArg(key: StringID, value: Value)
      requires Valid()
      modifies this, args
      ensures Valid()
      ensures |old(Args())| < MaxArgs ==> Args() == old(Args()) + [KeyValuePair(key, value)]
      ensures |old(Args())| == MaxArgs ==> Args() == old(Args())
    {
      if numArgs < MaxArgs {
        args[numArgs] := KeyValuePair(key, value);
        numArgs := numArgs + 1;
      }
    }

    /** The search shared by the `GetValue*` members: the value of the first pair with the key. */
    method FindArg(key: StringID) returns (r: Option<Value>)
      requires Valid()
      ensures r == Lookup(Args(), key)
    {
      var i := 0;
      while i < numArgs
        invariant i <= numArgs
        invariant Lookup(Args(), key) == Lookup(Args()[i..], key)
      {
        assert Args()[i..][1..] == Args()[i + 1..];
        if args[i].key == key {
          return Some(args[i].value);
        }
        i := i + 1;
      }
      return None;
    }

    /** `GetValueInteger`: the first pair's integer, or 0 when the key is missing. */
    method GetValueInteger(key: StringID) returns (v: int32)
      requires Valid()
      requires Lookup(Args(), key).Some? ==> Lookup(Args(), key).value.Integer?
      ensures Lookup(Args(), key) == None ==> v == 0
      ensures Lookup(Args(), key) != None ==> Lookup(Args(), key) == Some(Integer(v))
    {
      var r := FindArg(key);
      v := if r.Some? then r.value.i else 0;
    }

    /** `GetValueFloat`: the first pair's float, or 0.0 when the key is missing. */
    method GetValueFloat(key: StringID) returns (v: real)
      requires Valid()
      requires Lookup(Args(), key).Some? ==> Lookup(Args(), key).value.Float?
      ensures Lookup(Args(), key) == None ==> v == 0.0
      ensures Lookup(Args(), key) != None ==> Lookup(Args(), key) == Some(Float(v))
    {
      var r := FindArg(key);
      v := if r.Some? then r.value.f else 0.0;
    }

    /** `GetValueBool`: the first pair's boolean, or false when the key is missing. */
    method GetValueBool(key: StringID) returns (v: bool)
      requires Valid()
      requires Lookup(Args(), key).Some? ==> Lookup(Args(), key).value.Boolean?
      ensures Lookup(Args(), key) == None ==> !v
      ensures Lookup(Args(), key) != None ==> Lookup(Args(), key) == Some(Boolean(v))
    {
      var r := FindArg(key);
      v := if r.Some? then r.value.b else false;
    }

    /** `GetValueStringId`: the first pair's identifier, or 0 when the key is missing. */
    method GetValueStringId(key: StringID) returns (v: StringID)
      requires Valid()
      requires Lookup(Args(), key).Some? ==> Lookup(Args(), key).value.StringIdValue?
      ensures Lookup(Args(), key) == None ==> v == 0
      ensures Lookup(Args(), key) != None ==> Lookup(Args(), key) == Some(StringIdValue(v))
    {
      var r := FindArg(key);
      v := if r.Some? then r.value.s else 0;
    }
  }

  /** Appending a pair with a key already present does not change what the key reads. */
  lemma {:induction false} LookupFirstWins(args: seq<KeyValuePair>, key: StringID, value: Value)
    requires Lookup(args, key).Some?
    ensures Lookup(args + [KeyValuePair(key, value)], key) == Lookup(args, key)
  {
    assert args != [];
    if args[0].key != key {
      assert (args + [KeyValuePair(key, value)])[1..] == args[1..] + [KeyValuePair(key, value)];
      LookupFirstWins(args[1..], key, value);
    }
  }

  /** A pair appended under a new key is what that key reads afterwards. */
  lemma {:induction false} LookupAppended(args: seq<KeyValuePair>, key: StringID, value: Value)
    requires Lookup(args, key).None?
    ensures Lookup(args + [KeyValuePair(key, value)], key) == Some(value)
  {
    if args != [] {
      assert (args + [KeyValuePair(key, value)])[1..] == args[1..] + [KeyValuePair(key, value)];
      LookupAppended(args[1..], key, value);
    }
  }

  /** A fifth argument is dropped. */
  method EventScenario()
  {
    var e := new Event(7);
    e.AddArg(1, Integer(10));
    e.AddArg(2, Boolean(true));
    e.AddArg(1, Integer(20));
    e.AddArg(3, Float(0.5));
    assert |e.Args()| == 4;
    e.AddArg(4, Integer(40));
    assert e.Args() == [KeyValuePair(1, Integer(10)), KeyValuePair(2, Boolean(true)),
                        KeyValuePair(1, Integer(20)), KeyValuePair(3, Float(0.5))];
  }

  /** The first pair with a key decides its value; a missing key reads as 0; a reset forgets all. */
  method LookupScenario()
  {
    var e := new Event(7);
    e.AddArg(1, Integer(10));
    e.AddArg(2, Boolean(true));
    e.AddArg(1, Integer(20));
    var x := e.GetValueInteger(1);
    assert x == 10;
    var y := e.GetValueInteger(4);
    assert y == 0;
    e.ResetArgs();
    var z := e.GetValueBool(2);
    assert !z && e.Type() == 7;
  }
}
