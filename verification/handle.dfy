/** The handle registry of `core/src/handle.h`: a map from 64-bit keys to
    objects, with keys drawn from a counter scrambled by a rotation and an
    exclusive or. The C API's opaque handle is the key itself; the null
    handle is key 0. */
module HandleRegistry {
  import opened Common

  /** `key_t` on a 64-bit platform. */
  type Key = bv64

  /** A handle as the map stores it. */
  datatype Handle = Handle(key: Key)

  const Null: Handle := Handle(0)

  /** The xor mask of `generate_handle` for 64-bit keys; the rotation is 23. */
  const XorKey: Key := 0x9e37_79b9_7f4a_7c15

  /** The map and the counter `next_handle`, seeded from the clock. */
  datatype Registry<T> = Registry(entries: map<Handle, T>, counter: Key)

  function NewRegistry<T>(seed: Key): (r: Registry<T>)
    ensures r.entries == map[] && r.counter == seed
  {
    Registry(map[], seed)
  }

  /** The key derived from a counter value: rotate left by 23, then xor. */
  function Scramble(raw: Key): Key {
    raw.RotateLeft(23) ^ XorKey
  }

  /** The inverse of `Scramble`. */
  function Unscramble(key: Key): Key {
    (key ^ XorKey).RotateRight(23)
  }

  lemma UnscrambleScramble(raw: Key)
    ensures Unscramble(Scramble(raw)) == raw
  {
    assert (raw.RotateLeft(23) ^ XorKey) ^ XorKey == raw.RotateLeft(23);
  }

  lemma ScrambleUnscramble(key: Key)
    ensures Scramble(Unscramble(key)) == key
  {
    assert ((key ^ XorKey).RotateRight(23)).RotateLeft(23) == key ^ XorKey;
  }

  /** Distinct counter values give distinct keys. */
  lemma ScrambleInjective(a: Key, b: Key)
    ensures Scramble(a) == Scramble(b) <==> a == b
  {
    if Scramble(a) == Scramble(b) {
      UnscrambleScramble(a);
      UnscrambleScramble(b);
    }
  }

  /** Exactly one counter value produces the reserved key 0. */
  lemma OnlyOneRawGivesZero(raw: Key)
    ensures Scramble(raw) == 0 <==> raw == Unscramble(0)
  {
    UnscrambleScramble(raw);
    ScrambleUnscramble(0);
  }

  /** The fallback without `std::rotl`: shift left or shift right. */
  function ShiftOrRotate(raw: Key): (r: Key)
    ensures r == raw.RotateLeft(23)
  {
    (raw << 23) | (raw >> 41)
  }

  /** `generate_handle`: pre-increment the counter (wrapping) and scramble
      the new value. */
  function GenerateHandle<T>(reg: Registry<T>): (r: (Key, Registry<T>))
    ensures r.1.entries == reg.entries
    ensures r.1.counter - reg.counter == 1
    ensures Unscramble(r.0) == r.1.counter
  {
    var raw := reg.counter + 1;
    UnscrambleScramble(raw);
    (Scramble(raw), reg.(counter := raw))
  }

  /** `create_handle`, trying at most `fuel` keys: a key is taken when it is
      non-zero and not in use. `None` means the fuel ran out; the source keeps
      looping. */
  function CreateHandle<T>(reg: Registry<T>, value: T, fuel: nat): (r: Option<(Handle, Registry<T>)>)
    ensures r.Some? ==> var (h, reg') := r.value;
      && h != Null && h !in reg.entries
      && reg'.entries == reg.entries[h := value]
      && Unscramble(h.key) == reg'.counter
    decreases fuel
  {
    if fuel == 0 then None
    else
      var (key, reg1) := GenerateHandle(reg);
      var h := Handle(key);
      if key != 0 && h !in reg1.entries then Some((h, reg1.(entries := reg1.entries[h := value])))
      else CreateHandle(reg1, value, fuel - 1)
  }

  /** A single try suffices when the next key is free. */
  lemma CreateHandleFirstTry<T>(reg: Registry<T>, value: T, fuel: nat)
    requires fuel >= 1
    requires GenerateHandle(reg).0 != 0 && Handle(GenerateHandle(reg).0) !in reg.entries
    ensures var (key, reg1) := GenerateHandle(reg);
            CreateHandle(reg, value, fuel) == Some((Handle(key), reg1.(entries := reg.entries[Handle(key) := value])))
  {
  }

  /** `release_handle`: true iff the key was present; it is gone afterwards
      and every other entry is unchanged. */
  function ReleaseHandle<T>(reg: Registry<T>, h: Handle): (r: (bool, Registry<T>))
    ensures r.0 <==> h in reg.entries
    ensures forall k :: k in r.1.entries <==> k in reg.entries && k != h
    ensures forall k :: k in r.1.entries ==> r.1.entries[k] == reg.entries[k]
    ensures r.1.counter == reg.counter
  {
    (h in reg.entries, reg.(entries := reg.entries - {h}))
  }

  /** `get`: the stored object, or null. */
  function Get<T>(reg: Registry<T>, h: Handle): (r: Option<T>)
    ensures r.Some? <==> h in reg.entries
    ensures r.Some? ==> r.value == reg.entries[h]
  {
    if h in reg.entries then Some(reg.entries[h]) else None
  }

  /** A created handle gives back its object until it is released, and
      nothing after; releasing it restores the registry's map. */
  lemma CreateGetRelease<T>(reg: Registry<T>, value: T, fuel: nat)
    requires CreateHandle(reg, value, fuel).Some?
    ensures var (h, reg') := CreateHandle(reg, value, fuel).value;
      && Get(reg', h) == Some(value)
      && ReleaseHandle(reg', h).0
      && Get(ReleaseHandle(reg', h).1, h) == None
      && ReleaseHandle(reg', h).1.entries == reg.entries
  {
  }

  /** Releasing twice fails the second time. */
  lemma ReleaseTwice<T>(reg: Registry<T>, h: Handle)
    ensures !ReleaseHandle(ReleaseHandle(reg, h).1, h).0
  {
  }
}
