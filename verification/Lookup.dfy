// Looking up keys (lib/reader/object/key.c, key_range.c).
module Lookup {
  import opened Wrappers
  import opened Arithmetic
  import opened Bytes
  import opened Reader
  import opened KeyOrder
  import opened Logarithm

  ghost predicate IsHash(h: Hash) {
    forall k :: h(k) <= SIZE_MAX
  }

  ghost predicate Readable(buf: bytes, a: ObjectAnalysis, i: nat)
    requires ObjectFits(buf, a)
  {
    ObjectGetIndex(buf, a, i).Ok?
  }

  ghost function EntryKey(buf: bytes, a: ObjectAnalysis, i: nat): bytes
    requires ObjectFits(buf, a) && Readable(buf, a, i)
  {
    Cut(buf, ObjectGetIndex(buf, a, i).value.key)
  }

  // Member i can be read and has the key.
  ghost predicate HasKeyAt(buf: bytes, a: ObjectAnalysis, key: bytes, i: nat)
    requires ObjectFits(buf, a)
  {
    Readable(buf, a, i) && EntryKey(buf, a, i) == key
  }

  ghost predicate KeyOccurs(buf: bytes, a: ObjectAnalysis, key: bytes)
    requires ObjectFits(buf, a)
  {
    exists i :: 0 <= i < a.count && HasKeyAt(buf, a, key, i)
  }

  // What the format demands of an object: all members can be read, in order of their keys.
  ghost predicate SortedObject(h: Hash, buf: bytes, a: ObjectAnalysis)
    requires ObjectFits(buf, a)
  {
    && (forall i :: 0 <= i < a.count ==> Readable(buf, a, i))
    && (forall i, j :: 0 <= i < j < a.count ==>
          CompareKeys(h, EntryKey(buf, a, i), EntryKey(buf, a, j)) <= 0)
  }

  // Everything before lo is smaller than the key, everything from hi on is larger.
  ghost predicate Narrowed(h: Hash, buf: bytes, a: ObjectAnalysis, key: bytes, lo: nat, hi: nat)
    requires ObjectFits(buf, a)
  {
    && lo <= hi <= a.count
    && (forall i :: 0 <= i < lo ==> Smaller(h, buf, a, i, key))
    && (forall i :: hi <= i < a.count ==> Larger(h, buf, a, i, key))
  }

  ghost predicate Smaller(h: Hash, buf: bytes, a: ObjectAnalysis, i: nat, key: bytes)
    requires ObjectFits(buf, a)
  {
    Readable(buf, a, i) && CompareKeys(h, EntryKey(buf, a, i), key) < 0
  }

  ghost predicate Larger(h: Hash, buf: bytes, a: ObjectAnalysis, i: nat, key: bytes)
    requires ObjectFits(buf, a)
  {
    Readable(buf, a, i) && CompareKeys(h, EntryKey(buf, a, i), key) > 0
  }

  // ---------- Interpolation ----------

  datatype Bound = Bound(hash: nat, index: nat)

  // _bijson_get_key_guess, with exact arithmetic in place of long double
  function GetKeyGuess(lower: Bound, upper: Bound, targetHash: nat): int
    requires lower.index <= upper.index && lower.hash <= targetHash
  {
    if lower.hash >= upper.hash then lower.index + (upper.index - lower.index) / 2
    else lower.index + (upper.index - lower.index) * (targetHash - lower.hash) / (upper.hash - lower.hash)
  }

  // The guess never leaves the interval. It hits the upper end exactly when interpolation
  // takes place and the target's hash equals the upper one.
  lemma {:induction false} GuessInside(lower: Bound, upper: Bound, targetHash: nat)
    requires lower.index < upper.index && lower.hash <= targetHash <= upper.hash
    ensures lower.index <= GetKeyGuess(lower, upper, targetHash) <= upper.index
    ensures GetKeyGuess(lower, upper, targetHash) == upper.index
       <==> lower.hash < upper.hash && targetHash == upper.hash
  {
    if lower.hash < upper.hash {
      Scaled(upper.index - lower.index, targetHash - lower.hash, upper.hash - lower.hash);
    }
  }

  lemma {:induction false} Scaled(n: nat, t: nat, d: nat)
    requires n > 0 && d > 0 && t <= d
    ensures 0 <= n * t / d <= n
    ensures n * t / d == n <==> t == d
  {
    if t == d {
      DivMod(n * t, d, n, 0);
    } else {
      Product(n, t, d);
      QuotientBelow(n * t, d, n);
    }
  }

  lemma {:induction false} Product(n: nat, t: nat, d: nat)
    requires n > 0 && t < d
    ensures n * t < d * n
  {
    Multiples(n, t + 1, d);
  }

  lemma {:induction false} QuotientBelow(x: nat, d: nat, n: nat)
    requires d > 0 && x < d * n
    ensures x / d < n
  {
    var q := x / d;
    assert d * q <= x;
    if q >= n {
      Multiples(d, n, q);
    }
  }

  // One reading narrows the interval, in a sorted object.
  lemma {:induction false} Narrow(h: Hash, buf: bytes, a: ObjectAnalysis, key: bytes, lo: nat, hi: nat, guess: nat)
    requires ObjectFits(buf, a) && SortedObject(h, buf, a) && Narrowed(h, buf, a, key, lo, hi)
    requires lo <= guess <= hi && guess < a.count
    ensures Readable(buf, a, guess)
    ensures Smaller(h, buf, a, guess, key) ==> guess < hi && Narrowed(h, buf, a, key, guess + 1, hi)
    ensures Larger(h, buf, a, guess, key) ==> Narrowed(h, buf, a, key, lo, guess)
    ensures HasKeyAt(buf, a, key, guess) ==> guess < hi
  {
    hide CompareKeys, ObjectGetIndex;
    var g := EntryKey(buf, a, guess);
    StrictlyBelow(h, g, g, g);
    if Smaller(h, buf, a, guess, key) {
      forall i | 0 <= i <= guess
        ensures Smaller(h, buf, a, i, key)
      {
        StrictlyBelow(h, EntryKey(buf, a, i), g, key);
      }
    }
    if Larger(h, buf, a, guess, key) {
      forall i | guess <= i < a.count
        ensures Larger(h, buf, a, i, key)
      {
        KeysAreOrdered(h, EntryKey(buf, a, i), key, key);
        KeysAreOrdered(h, g, key, key);
        StrictlyBelow(h, key, g, EntryKey(buf, a, i));
      }
    }
  }

  lemma {:induction false} StrictlyBelow(h: Hash, x: bytes, y: bytes, z: bytes)
    ensures CompareKeys(h, x, y) <= 0 && CompareKeys(h, y, z) < 0 ==> CompareKeys(h, x, z) < 0
    ensures CompareKeys(h, x, y) < 0 && CompareKeys(h, y, z) <= 0 ==> CompareKeys(h, x, z) < 0
    ensures CompareKeys(h, x, x) == 0
  {
    hide CompareKeys;
    KeysAreOrdered(h, x, y, z);
    KeysAreOrdered(h, z, x, y);
    KeysAreOrdered(h, y, z, x);
    KeysAreOrdered(h, x, x, x);
  }

  // The number of interpolation rounds; builtin says which version of _bijson_2log64 is used.
  function MaxAttempts(count: nat, builtin: bool): nat
    requires count > 1
  {
    if builtin then Log2Builtin(count) else Log2Builtin(count) + 1
  }

  // Both limits are logarithms: the one on interpolation rounds is rounded up, or one less than
  // that with the built-in version, and the one on bisections is one more than rounded down.
  lemma {:induction false} LimitsAreLogarithms(count: nat)
    requires count > 1
    ensures MaxAttempts(count, false) == MaxAttempts(count, true) + 1
    ensures Pow2(MaxAttempts(count, true)) < count <= Pow2(MaxAttempts(count, false))
    ensures Halvings(count) > 0 && Pow2(Halvings(count) - 1) <= count < Pow2(Halvings(count))
  {
    hide FloorLog2, Pow2;
    RoundedUp(count);
    FloorIs(count);
  }

  // When interpolation takes place at all, a hash of 2^64-1 makes the first guess the count.
  predicate GuessesPastEnd(count: nat, builtin: bool, targetHash: nat) {
    count > 1 && MaxAttempts(count, builtin) > 0 && targetHash == SIZE_MAX
  }

  // The loop that _bijson_analyzed_object_get_key and _bijson_analyzed_object_get_key_range
  // share: interpolation for a limited number of rounds, then bisection.
  method Find(h: Hash, buf: bytes, a: ObjectAnalysis, key: bytes, builtin: bool)
    returns (r: Result<nat>, lo: nat, hi: nat, ghost rounds: nat)
    requires IsHash(h) && ObjectFits(buf, a) && a.count > 1
    ensures r.Ok? ==> lo <= r.value < hi <= a.count && HasKeyAt(buf, a, key, r.value)
    ensures SortedObject(h, buf, a) && !GuessesPastEnd(a.count, builtin, h(key)) ==>
      && Narrowed(h, buf, a, key, lo, hi)
      && (r.Err? ==> r == Err(KeyNotFound) && !KeyOccurs(buf, a, key))
    ensures GuessesPastEnd(a.count, builtin, h(key)) ==> r == Err(IndexOutOfRange)
    ensures rounds <= MaxAttempts(a.count, builtin) + Halvings(a.count)
  {
    hide ObjectGetIndex, CompareKeys, GetKeyGuess, FloorLog2, SortedObject, Narrowed, KeyOccurs, ObjectFits;
    rounds := 0;
    var targetHash := h(key);
    var maxAttempts := MaxAttempts(a.count, builtin);
    var lower, upper := Bound(0, 0), Bound(SIZE_MAX, a.count);
    var attempt := 0;
    NothingNarrowed(h, buf, a, key);
    while lower.index != upper.index
      invariant lower.index <= upper.index <= a.count
      invariant lower.hash <= targetHash <= upper.hash
      invariant upper.index == a.count ==> upper.hash == SIZE_MAX
      invariant upper.index < a.count ==> Larger(h, buf, a, upper.index, key)
      invariant attempt == 0 ==> lower == Bound(0, 0) && upper == Bound(SIZE_MAX, a.count)
      invariant attempt > 0 ==> !GuessesPastEnd(a.count, builtin, targetHash)
      invariant rounds == attempt
      invariant attempt <= maxAttempts
             || attempt - maxAttempts + Halvings(upper.index - lower.index) <= Halvings(a.count)
      invariant SortedObject(h, buf, a) ==> Narrowed(h, buf, a, key, lower.index, upper.index)
      decreases if attempt < maxAttempts then maxAttempts - attempt else 0, upper.index - lower.index
    {
      GuessInside(lower, upper, targetHash);
      var guess: nat := if attempt < maxAttempts then GetKeyGuess(lower, upper, targetHash)
                   else lower.index + (upper.index - lower.index) / 2;
      HalvingProgress(lower.index, upper.index, guess, a.count);
      PastEnd(buf, a, guess);
      if SortedObject(h, buf, a) && guess < a.count {
        Narrow(h, buf, a, key, lower.index, upper.index, guess);
      }
      rounds := rounds + 1;
      var member := ObjectGetIndex(buf, a, guess);
      if member.Err? {
        return Err(member.error), lower.index, upper.index, rounds;
      }
      var guessKey := Cut(buf, member.value.key);
      var c := CompareKeys(h, guessKey, key);
      HashesOrdered(h, guessKey, key);
      if c == 0 {
        KeysAreOrdered(h, guessKey, key, key);
        return Ok(guess), lower.index, upper.index, rounds;
      } else if c < 0 {
        lower := Bound(h(guessKey), guess + 1);
      } else {
        upper := Bound(h(guessKey), guess);
      }
      attempt := attempt + 1;
    }
    if SortedObject(h, buf, a) {
      NowhereElse(h, buf, a, key, lower.index);
    }
    return Err(KeyNotFound), lower.index, upper.index, rounds;
  }

  lemma {:induction false} PastEnd(buf: bytes, a: ObjectAnalysis, index: nat)
    requires ObjectFits(buf, a)
    ensures index >= a.count ==> ObjectGetIndex(buf, a, index) == Err(IndexOutOfRange)
    ensures ObjectGetIndex(buf, a, index).Ok? ==> index < a.count
    ensures Readable(buf, a, index) <==> ObjectGetIndex(buf, a, index).Ok?
  {
  }

  lemma {:induction false} HashesOrdered(h: Hash, x: bytes, y: bytes)
    ensures CompareKeys(h, x, y) < 0 ==> h(x) <= h(y)
    ensures CompareKeys(h, x, y) > 0 ==> h(x) >= h(y)
  {
  }

  // Bisecting leaves at most half of the interval, whichever way the comparison goes.
  lemma {:induction false} HalvingProgress(lo: nat, hi: nat, guess: nat, count: nat)
    requires lo < hi <= count
    ensures Halvings(hi - lo) <= Halvings(count)
    ensures guess == lo + (hi - lo) / 2 ==>
      && lo <= guess < hi
      && Halvings(hi - (guess + 1)) + 1 <= Halvings(hi - lo)
      && Halvings(guess - lo) + 1 <= Halvings(hi - lo)
    ensures lo <= guess < hi ==> Halvings(hi - (guess + 1)) <= Halvings(count)
    ensures lo <= guess <= hi ==> Halvings(guess - lo) <= Halvings(count)
  {
    hide Halvings;
    HalvingsGrow(hi - lo, count);
    HalvingStep(hi - lo);
    if guess == lo + (hi - lo) / 2 {
      HalvingsGrow(hi - (guess + 1), (hi - lo) / 2);
    }
    if lo <= guess < hi {
      HalvingsGrow(hi - (guess + 1), count);
    }
    if lo <= guess <= hi {
      HalvingsGrow(guess - lo, count);
    }
  }

  lemma {:induction false} NothingNarrowed(h: Hash, buf: bytes, a: ObjectAnalysis, key: bytes)
    requires ObjectFits(buf, a)
    ensures Narrowed(h, buf, a, key, 0, a.count)
  {
  }

  // When the interval is empty, no member has the key.
  lemma {:induction false} NowhereElse(h: Hash, buf: bytes, a: ObjectAnalysis, key: bytes, lo: nat)
    requires ObjectFits(buf, a) && Narrowed(h, buf, a, key, lo, lo)
    ensures !KeyOccurs(buf, a, key)
  {
    hide CompareKeys, ObjectGetIndex;
    StrictlyBelow(h, key, key, key);
    forall i | 0 <= i < a.count
      ensures !HasKeyAt(buf, a, key, i)
    {
      if i < lo {
        assert Smaller(h, buf, a, i, key);
      } else {
        assert Larger(h, buf, a, i, key);
      }
    }
  }

  // _bijson_analyzed_object_get_key
  method GetKey(h: Hash, buf: bytes, a: ObjectAnalysis, key: bytes, builtin: bool)
    returns (r: Result<Slice>, ghost rounds: nat)
    requires IsHash(h) && ObjectFits(buf, a)
    // On any buffer: what is found is stored under the key.
    ensures r.Ok? ==> exists i :: 0 <= i < a.count && StoredAt(buf, a, key, i, r.value)
    // On a sorted object: the key is found exactly when a linear search would find it.
    ensures SortedObject(h, buf, a) && !GuessesPastEnd(a.count, builtin, h(key)) ==>
      if KeyOccurs(buf, a, key) then r.Ok? else r == Err(KeyNotFound)
    ensures GuessesPastEnd(a.count, builtin, h(key)) ==> r == Err(IndexOutOfRange)
    // On any buffer: no more entries are read than this.
    ensures rounds <= if a.count > 1 then MaxAttempts(a.count, builtin) + Halvings(a.count) else a.count
  {
    hide ObjectGetIndex, CompareKeys, FloorLog2, MaxAttempts, Narrowed, ObjectFits;
    rounds := 0;
    if a.count == 0 {
      return Err(KeyNotFound), rounds;
    }
    if a.count == 1 {
      rounds := 1;
      var member := ObjectGetIndex(buf, a, 0);
      PastEnd(buf, a, 0);
      if member.Err? { return Err(member.error), rounds; }
      if Cut(buf, member.value.key) == key {
        assert StoredAt(buf, a, key, 0, member.value.value);
        return Ok(member.value.value), rounds;
      }
      return Err(KeyNotFound), rounds;
    }
    var found, lo, hi;
    found, lo, hi, rounds := Find(h, buf, a, key, builtin);
    if found.Err? {
      return Err(found.error), rounds;
    }
    r := Ok(ObjectGetIndex(buf, a, found.value).value.value);
    assert StoredAt(buf, a, key, found.value, r.value);
  }

  ghost predicate StoredAt(buf: bytes, a: ObjectAnalysis, key: bytes, i: nat, value: Slice)
    requires ObjectFits(buf, a)
  {
    HasKeyAt(buf, a, key, i) && ObjectGetIndex(buf, a, i).value.value == value
  }

  // ---------- Ranges ----------

  // Members start to end-1 are exactly those with the key.
  ghost predicate ExactRange(buf: bytes, a: ObjectAnalysis, key: bytes, start: nat, end: nat)
    requires ObjectFits(buf, a)
  {
    && start < end <= a.count
    && forall i :: 0 <= i < a.count ==> (start <= i < end <==> HasKeyAt(buf, a, key, i))
  }

  // The comparison of both galloping searches: length and memcmp.
  method SameKey(buf: bytes, a: ObjectAnalysis, key: bytes, index: nat) returns (r: Result<bool>)
    requires ObjectFits(buf, a)
    ensures r.Ok? <==> Readable(buf, a, index)
    ensures r.Ok? ==> index < a.count && (r.value <==> HasKeyAt(buf, a, key, index))
  {
    hide ObjectGetIndex;
    PastEnd(buf, a, index);
    var member := ObjectGetIndex(buf, a, index);
    if member.Err? {
      return Err(member.error);
    }
    return Ok(Cut(buf, member.value.key) == key);
  }

  // Members with the same key are neighbours in a sorted object.
  lemma {:induction false} EqualRun(h: Hash, buf: bytes, a: ObjectAnalysis, key: bytes, i: nat, j: nat, k: nat)
    requires ObjectFits(buf, a) && SortedObject(h, buf, a) && i <= j <= k < a.count
    requires HasKeyAt(buf, a, key, i) && HasKeyAt(buf, a, key, k)
    ensures HasKeyAt(buf, a, key, j)
  {
    hide CompareKeys, ObjectGetIndex;
    KeysAreOrdered(h, key, EntryKey(buf, a, j), key);
    KeysAreOrdered(h, EntryKey(buf, a, j), key, key);
  }

  // _bijson_analyzed_object_get_key_range_lower: gallop down from a member with the key,
  // doubling the step, then bisect between a smaller key and an equal one.
  method RangeLower(h: Hash, buf: bytes, a: ObjectAnalysis, key: bytes, target: nat, lower: nat)
    returns (r: Result<nat>, ghost readings: nat)
    requires ObjectFits(buf, a) && lower <= target < a.count && HasKeyAt(buf, a, key, target)
    ensures SortedObject(h, buf, a) ==>
      && r.Ok? && lower <= r.value <= target && HasKeyAt(buf, a, key, r.value)
      && (r.value > lower ==> !HasKeyAt(buf, a, key, r.value - 1))
    ensures readings <= 2 * Halvings(a.count) + 1
  {
    hide ObjectGetIndex, CompareKeys, ObjectFits, HasKeyAt, FloorLog2;
    readings := 0;
    if target == lower {
      return Ok(lower), readings;
    }
    var jump, upperBound, lowerBound := 1, target, 0;
    while true
      invariant jump >= 1 && lower < upperBound <= target && HasKeyAt(buf, a, key, upperBound)
      invariant upperBound == target - jump / 2
      invariant readings == Halvings(jump / 2) <= Halvings(a.count)
      decreases upperBound
    {
      lowerBound := if jump > target then 0 else target - jump;
      if lowerBound < lower {
        lowerBound := lower;
      }
      readings := readings + 1;
      var same := SameKey(buf, a, key, lowerBound);
      if same.Err? { return Err(same.error), readings; }
      if !same.value {
        break;
      }
      if lowerBound == lower {
        return Ok(lower), readings;
      }
      upperBound := lowerBound;
      HalvingStep(jump);
      HalvingsGrow(jump, a.count);
      jump := 2 * jump;
    }
    HalvingsGrow(upperBound - lowerBound - 1, a.count);
    while lowerBound != upperBound - 1
      invariant lower <= lowerBound < upperBound <= target
      invariant !HasKeyAt(buf, a, key, lowerBound) && HasKeyAt(buf, a, key, upperBound)
      invariant readings + Halvings(upperBound - lowerBound - 1) <= 2 * Halvings(a.count) + 1
      decreases upperBound - lowerBound
    {
      HalvingStep(upperBound - lowerBound - 1);
      ghost var half := (upperBound - lowerBound - 1) / 2;
      var guess := lowerBound + (upperBound - lowerBound) / 2;
      readings := readings + 1;
      var same := SameKey(buf, a, key, guess);
      if same.Err? { return Err(same.error), readings; }
      if same.value {
        upperBound := guess;
      } else {
        lowerBound := guess;
      }
      HalvingsGrow(upperBound - lowerBound - 1, half);
    }
    return Ok(upperBound), readings;
  }

  // _bijson_analyzed_object_get_key_range_upper: the same upwards.
  method RangeUpper(h: Hash, buf: bytes, a: ObjectAnalysis, key: bytes, target: nat, upper: nat)
    returns (r: Result<nat>, ghost readings: nat)
    requires ObjectFits(buf, a) && target < upper <= a.count <= SIZE_MAX && HasKeyAt(buf, a, key, target)
    ensures SortedObject(h, buf, a) ==>
      && r.Ok? && target < r.value <= upper && HasKeyAt(buf, a, key, r.value - 1)
      && (r.value < upper ==> !HasKeyAt(buf, a, key, r.value))
    ensures readings <= 2 * Halvings(a.count) + 1
  {
    hide ObjectGetIndex, CompareKeys, ObjectFits, HasKeyAt, FloorLog2;
    readings := 0;
    var last := upper - 1;
    if target == last {
      return Ok(upper), readings;
    }
    var jump, lowerBound, upperBound := 1, target, 0;
    while true
      invariant jump >= 1 && target <= lowerBound < last && HasKeyAt(buf, a, key, lowerBound)
      invariant lowerBound == target + jump / 2
      invariant readings == Halvings(jump / 2) <= Halvings(a.count)
      decreases last - lowerBound
    {
      upperBound := if jump > SIZE_MAX - target then SIZE_MAX else target + jump;
      if upperBound > last {
        upperBound := last;
      }
      readings := readings + 1;
      var same := SameKey(buf, a, key, upperBound);
      if same.Err? { return Err(same.error), readings; }
      if !same.value {
        break;
      }
      if upperBound == last {
        return Ok(upper), readings;
      }
      lowerBound := upperBound;
      HalvingStep(jump);
      HalvingsGrow(jump, a.count);
      jump := 2 * jump;
    }
    HalvingsGrow(upperBound - lowerBound - 1, a.count);
    while lowerBound != upperBound - 1
      invariant target <= lowerBound < upperBound <= last
      invariant HasKeyAt(buf, a, key, lowerBound) && !HasKeyAt(buf, a, key, upperBound)
      invariant readings + Halvings(upperBound - lowerBound - 1) <= 2 * Halvings(a.count) + 1
      decreases upperBound - lowerBound
    {
      HalvingStep(upperBound - lowerBound - 1);
      ghost var half := (upperBound - lowerBound - 1) / 2;
      var guess := lowerBound + (upperBound - lowerBound) / 2;
      readings := readings + 1;
      var same := SameKey(buf, a, key, guess);
      if same.Err? { return Err(same.error), readings; }
      if same.value {
        lowerBound := guess;
      } else {
        upperBound := guess;
      }
      HalvingsGrow(upperBound - lowerBound - 1, half);
    }
    return Ok(upperBound), readings;
  }

  // The two ends that galloping finds enclose all members with the key and no other.
  lemma {:induction false} RunIsExact(h: Hash, buf: bytes, a: ObjectAnalysis, key: bytes, lo: nat, hi: nat, start: nat, end: nat)
    requires ObjectFits(buf, a) && SortedObject(h, buf, a) && Narrowed(h, buf, a, key, lo, hi)
    requires lo <= start < end <= hi
    requires HasKeyAt(buf, a, key, start) && HasKeyAt(buf, a, key, end - 1)
    requires start > lo ==> !HasKeyAt(buf, a, key, start - 1)
    requires end < hi ==> !HasKeyAt(buf, a, key, end)
    ensures ExactRange(buf, a, key, start, end) && KeyOccurs(buf, a, key)
  {
    hide CompareKeys, ObjectGetIndex, SortedObject, HasKeyAt;
    forall i | 0 <= i < a.count
      ensures start <= i < end <==> HasKeyAt(buf, a, key, i)
    {
      if start <= i < end {
        EqualRun(h, buf, a, key, start, i, end - 1);
      } else if HasKeyAt(buf, a, key, i) {
        KeyNotOutside(h, buf, a, key, lo, hi, i);
        if i < start {
          EqualRun(h, buf, a, key, i, start - 1, start);
        } else {
          EqualRun(h, buf, a, key, end - 1, end, i);
        }
        assert false;
      }
    }
  }

  lemma {:induction false} KeyNotOutside(h: Hash, buf: bytes, a: ObjectAnalysis, key: bytes, lo: nat, hi: nat, i: nat)
    requires ObjectFits(buf, a) && Narrowed(h, buf, a, key, lo, hi) && i < a.count && HasKeyAt(buf, a, key, i)
    ensures lo <= i < hi
  {
    hide CompareKeys, ObjectGetIndex;
    StrictlyBelow(h, key, key, key);
    assert i < lo ==> Smaller(h, buf, a, i, key);
    assert i >= hi ==> Larger(h, buf, a, i, key);
  }

  // _bijson_analyzed_object_get_key_range
  method GetKeyRange(h: Hash, buf: bytes, a: ObjectAnalysis, key: bytes, builtin: bool)
    returns (r: Result<(nat, nat)>, ghost readings: nat)
    requires IsHash(h) && ObjectFits(buf, a) && a.count <= SIZE_MAX
    ensures SortedObject(h, buf, a) && !GuessesPastEnd(a.count, builtin, h(key)) ==>
      if KeyOccurs(buf, a, key) then r.Ok? && ExactRange(buf, a, key, r.value.0, r.value.1)
      else r == Err(KeyNotFound)
    ensures GuessesPastEnd(a.count, builtin, h(key)) ==> r == Err(IndexOutOfRange)
    ensures readings <= if a.count > 1 then MaxAttempts(a.count, builtin) + 5 * Halvings(a.count) + 2 else a.count
  {
    hide ObjectGetIndex, CompareKeys, FloorLog2, MaxAttempts, Narrowed, ObjectFits, SortedObject, ExactRange, KeyOccurs;
    readings := 0;
    FewMembers(buf, a, key);
    if a.count == 0 {
      return Err(KeyNotFound), readings;
    }
    if a.count == 1 {
      SortedReadable(h, buf, a);
      readings := 1;
      var same := SameKey(buf, a, key, 0);
      if same.Err? { return Err(same.error), readings; }
      return if same.value then Ok((0, 1)) else Err(KeyNotFound), readings;
    }
    var found, lo, hi, rounds := Find(h, buf, a, key, builtin);
    readings := rounds;
    if found.Err? {
      return Err(found.error), readings;
    }
    var start, below := RangeLower(h, buf, a, key, found.value, lo);
    readings := readings + below;
    if start.Err? {
      return Err(start.error), readings;
    }
    var end, above := RangeUpper(h, buf, a, key, found.value, hi);
    readings := readings + above;
    if end.Err? {
      return Err(end.error), readings;
    }
    if SortedObject(h, buf, a) && !GuessesPastEnd(a.count, builtin, h(key)) {
      RunIsExact(h, buf, a, key, lo, hi, start.value, end.value);
    }
    return Ok((start.value, end.value)), readings;
  }

  lemma {:induction false} FewMembers(buf: bytes, a: ObjectAnalysis, key: bytes)
    requires ObjectFits(buf, a)
    ensures a.count == 0 ==> !KeyOccurs(buf, a, key)
    ensures a.count == 1 ==>
      && (KeyOccurs(buf, a, key) <==> HasKeyAt(buf, a, key, 0))
      && (HasKeyAt(buf, a, key, 0) ==> ExactRange(buf, a, key, 0, 1))
  {
    hide HasKeyAt;
  }

  lemma {:induction false} SortedReadable(h: Hash, buf: bytes, a: ObjectAnalysis)
    requires ObjectFits(buf, a)
    ensures SortedObject(h, buf, a) ==> forall i :: 0 <= i < a.count ==> Readable(buf, a, i)
  {
  }
}
