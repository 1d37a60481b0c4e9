// The keyboard state of src/input/keyboard.cpp and include/scythe/keyboard.h.
//
// A KeyboardKey is its enumerator's ordinal: kUnknown is 0 and kCount, the
// number of keys, is 116.  The code-to-key table holds kTableSize entries
// (512 on Windows, the only target FillTable supports).  The platform's
// scan-code assignments are a parameter of the constructor rather than the
// literal table.

module Keyboards {

  /** `KeyboardKey::kCount`. */
  const KeyCount := 116
  /** `KeyboardState::kTableSize` on Windows. */
  const TableSize := 512
  const Unknown := 0

  /** `KeyCode`, an unsigned short. */
  newtype KeyCode = x: int | 0 <= x < 0x1_0000

  /** A `KeyboardKey` enumerator below `kCount`. */
  type Key = k: nat | k < KeyCount

  /** `IsGoodChar`: printable ASCII, or any code from 160 on. */
  predicate IsGoodChar(code: KeyCode)
  {
    (32 <= code <= 126) || code >= 160
  }

  lemma GoodChars()
    ensures IsGoodChar(32) && IsGoodChar(126) && IsGoodChar(160) && IsGoodChar(0xFFFF)
    ensures !IsGoodChar(31) && !IsGoodChar(127) && !IsGoodChar(159)
    ensures forall c: KeyCode :: 127 <= c < 160 ==> !IsGoodChar(c)
  {
  }

  class KeyboardState {
    /** `table`: key by scan code. */
    const table: array<Key>
    /** `states[k].down` for every key k. */
    const states: array<bool>

    ghost predicate Valid()
      reads this
    {
      table.Length == TableSize && states.Length == KeyCount
    }

    /**
     * The constructor fills the table with kUnknown, then enters the
     * platform's assignments, and marks every key up.
     */
    constructor (scanCodes: map<nat, Key>)
      requires forall c :: c in scanCodes ==> c < TableSize
      ensures Valid() && fresh(table) && fresh(states)
      ensures forall c :: 0 <= c < TableSize ==> table[c] == if c in scanCodes then scanCodes[c] else Unknown
      ensures forall k :: 0 <= k < KeyCount ==> !states[k]
    {
      var t := new Key[TableSize](c => if c in scanCodes then scanCodes[c] else Unknown);
      table := t;
      states := new bool[KeyCount](_ => false);
    }

    /** `GetKeyByCode`: the table entry; the debug build answers kUnknown for codes past the table. */
    function GetKeyByCode(code: KeyCode): (k: Key)
      requires Valid()
      reads this, table
      ensures code as int >= TableSize ==> k == Unknown
      ensures code as int < TableSize ==> k == table[code]
    {
      if code as int >= TableSize then Unknown else table[code]
    }

    function IsKeyDown(key: Key): bool
      requires Valid()
      reads this, states
    {
      states[key]
    }

    /** `IsKeyUp` is the negation of `IsKeyDown`. */
    function IsKeyUp(key: Key): (up: bool)
      requires Valid()
      reads this, states
      ensures up <==> !IsKeyDown(key)
    {
      !IsKeyDown(key)
    }

    /** `IsKeyPressed(down, key)`: the key is the one that went down and is not yet marked down. */
    function IsKeyPressed(downKey: Key, key: Key): (pressed: bool)
      requires Valid()
      reads this, states
      ensures pressed <==> downKey == key && IsKeyUp(key)
    {
      downKey == key && !IsKeyDown(key)
    }

    /** `SetKeyDown(k, v)`: afterwards `IsKeyDown(k) == v`, and no other key changes. */
    method SetKeyDown(key: Key, value: bool)
      requires Valid()
      modifies states
      ensures states[..] == old(states[..])[key := value]
      ensures IsKeyDown(key) == value
    {
      states[key] := value;
    }

    /** `SetKeyUp(k, v)`: afterwards `IsKeyUp(k) == v`, and no other key changes. */
    method SetKeyUp(key: Key, value: bool)
      requires Valid()
      modifies states
      ensures states[..] == old(states[..])[key := !value]
      ensures IsKeyUp(key) == value
    {
      states[key] := !value;
    }
  }

  /** Pressing a key is reported while it is still up, and not once it is marked down; other keys are untouched. */
  method KeyPressScenario()
  {
    var kb := new KeyboardState(map[0x1E := 12]);
    assert kb.GetKeyByCode(0x1E) == 12 && kb.GetKeyByCode(0x1F) == Unknown && kb.GetKeyByCode(600) == Unknown;
    assert kb.IsKeyPressed(12, 12) && !kb.IsKeyPressed(13, 12);
    kb.SetKeyDown(12, true);
    assert !kb.IsKeyPressed(12, 12) && kb.IsKeyUp(13);
    kb.SetKeyUp(12, true);
    assert kb.IsKeyPressed(12, 12);
  }
}
