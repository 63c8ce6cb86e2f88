/** `notes.tables.HashtableOpen`: a hash table with open addressing. Entries
    sit in an array; `find` probes linearly from the slot the hash code
    selects; `remove` leaves the shared `DELETED` entry (whose key and value
    are null) behind. The model follows the code as written: the probe walks
    past the slots holding the key it looks for, so `get` never reads the
    key's own entry, and `rehash` dereferences the first null slot it meets. */
module OpenHashing {
  import opened Java
  import opened Hashing

  /** HashtableOpen.java:10. */
  const START_CAPACITY := 101

  /** HashtableOpen.java:12 (0.75), in hundredths. */
  const LOAD_THRESHOLD := 75

  /** HashtableOpen.java:18-45: a key and a value; `null` is `None`. */
  class Entry<K, V> {
    const key: Option<K>
    var value: Option<V>

    constructor (key: Option<K>, value: Option<V>)
      ensures this.key == key && this.value == value
    {
      this.key := key;
      this.value := value;
    }

    /** HashtableOpen.java:35-39: stores `val` and returns the value it
        replaces. */
    method SetValue(val: Option<V>) returns (oldVal: Option<V>)
      modifies this
      ensures value == val && oldVal == old(value)
    {
      oldVal := value;
      value := val;
    }
  }

  /** What a slot holds, as far as the table's behaviour goes: nothing, an
      entry with a null key (only `DELETED` has one), or a live entry. */
  datatype Slot<K, V> = Null | Deleted | Live(key: K, value: Option<V>)

  ghost function SlotOf<K, V>(e: Entry?<K, V>): Slot<K, V>
    reads e
  {
    if e == null then Null else if e.key.None? then Deleted else Live(e.key.value, e.value)
  }

  /** The state of a table: its slots and its two counters. */
  datatype Table<K, V> = Table(slots: seq<Slot<K, V>>, numKeys: int, numDeletes: int)

  /** The number of slots that are not null. */
  function Occupied<K, V>(s: seq<Slot<K, V>>): nat
  {
    if s == [] then 0 else (if s[0].Null? then 0 else 1) + Occupied(s[1..])
  }

  /** The invariant every operation keeps: at most `numKeys + numDeletes`
      slots are taken, and that sum stays below the length, so some slot is
      always null. */
  ghost predicate Inv<K, V>(t: Table<K, V>)
  {
    0 < |t.slots| && Occupied(t.slots) <= t.numKeys + t.numDeletes < |t.slots|
  }

  ghost predicate NoDeleted<K, V>(s: seq<Slot<K, V>>)
  {
    forall j :: 0 <= j < |s| ==> !s[j].Deleted?
  }

  /** A slot at which `find`'s probe for `key` stops and returns. */
  ghost predicate Stops<K, V>(s: Slot<K, V>, key: K)
  {
    s.Null? || (s.Live? && s.key != key)
  }

  /** HashtableOpen.java:64: the next slot, wrapping round to 0 (both
      operands are non-negative, so Java's `%` and Dafny's agree). */
  function Next(i: int, n: int): (j: int)
    requires 0 <= i < n
    ensures 0 <= j < n
    ensures j == if i + 1 == n then 0 else i + 1
  {
    (i + 1) % n
  }

  /** HashtableOpen.java:63-66: the probe from slot `i`, with `left` more
      slots it may move on to. It moves on while the slot holds `key` itself,
      and stops at a null slot or at a live key that differs; at a `DELETED`
      slot `getKey().equals(key)` dereferences the null key. `None`: the probe
      would go round the table forever. */
  ghost function Probe<K, V>(s: seq<Slot<K, V>>, key: K, i: int, left: nat): (r: Option<Outcome<int>>)
    requires 0 <= i < |s|
    ensures r.Some? && r.value.Ok? ==> 0 <= r.value.value < |s| && Stops(s[r.value.value], key)
    ensures r.Some? && r.value.Thrown? ==>
      r.value.error == NullPointer && exists j :: 0 <= j < |s| && s[j].Deleted?
    decreases left
  {
    match s[i]
    case Null => Some(Ok(i))
    case Deleted => Some(Thrown(NullPointer))
    case Live(k, _) =>
      if k != key then Some(Ok(i))
      else if left == 0 then None
      else Probe(s, key, Next(i, |s|), left - 1)
  }

  /** How far the probe must go from `i` to reach `j`. */
  function Dist(i: int, j: int, n: int): int
  {
    if i <= j then j - i else n - i + j
  }

  /** With a null slot somewhere, the probe from any slot stops within one
      round of the table. */
  lemma ProbeStops<K, V>(s: seq<Slot<K, V>>, key: K, i: int)
    requires 0 <= i < |s| && Occupied(s) < |s|
    ensures Probe(s, key, i, |s| - 1).Some?
  {
    var j := NullSlot(s);
    ProbeReaches(s, key, i, |s| - 1, j);
  }

  lemma {:induction false} ProbeReaches<K, V>(s: seq<Slot<K, V>>, key: K, i: int, left: nat, j: int)
    requires 0 <= i < |s| && 0 <= j < |s| && s[j].Null?
    requires Dist(i, j, |s|) <= left
    ensures Probe(s, key, i, left).Some?
    decreases left
  {
    if i != j && s[i].Live? && s[i].key == key {
      ProbeReaches(s, key, Next(i, |s|), left - 1, j);
    }
  }

  /** Fewer taken slots than slots: one of them is null. */
  lemma {:induction false} NullSlot<K, V>(s: seq<Slot<K, V>>) returns (j: int)
    requires Occupied(s) < |s|
    ensures 0 <= j < |s| && s[j].Null?
  {
    if s[0].Null? {
      j := 0;
    } else {
      var k := NullSlot(s[1..]);
      j := k + 1;
    }
  }

  /** Writing one slot changes the count by that slot alone. */
  lemma {:induction false} OccupiedUpdate<K, V>(s: seq<Slot<K, V>>, i: int, x: Slot<K, V>)
    requires 0 <= i < |s|
    ensures Occupied(s[i := x]) == Occupied(s) - (if s[i].Null? then 0 else 1) + (if x.Null? then 0 else 1)
  {
    if i > 0 {
      assert s[i := x][1..] == s[1..][i - 1 := x];
      OccupiedUpdate(s[1..], i - 1, x);
    } else {
      assert s[i := x][1..] == s[1..];
    }
  }

  lemma {:induction false} OccupiedNone<K, V>(s: seq<Slot<K, V>>)
    requires forall j :: 0 <= j < |s| ==> s[j].Null?
    ensures Occupied(s) == 0
  {
    if s != [] {
      OccupiedNone(s[1..]);
    }
  }

  /** `n` null slots: a new array. */
  function Nulls<K, V>(n: nat): (s: seq<Slot<K, V>>)
    ensures |s| == n && Occupied(s) == 0
    ensures forall j :: 0 <= j < n ==> s[j].Null?
  {
    var s := seq(n, _ => Null);
    OccupiedNone(s);
    s
  }

  /** HashtableOpen.java:57-61: `find`'s probe, from the slot the hash code
      selects. */
  ghost function Located<K, V>(t: Table<K, V>, hash: K -> int, key: K): (r: Outcome<int>)
    requires Inv(t)
    ensures r.Ok? ==> 0 <= r.value < |t.slots| && Stops(t.slots[r.value], key)
    ensures r.Thrown? ==> r.error == NullPointer && !NoDeleted(t.slots)
  {
    ProbeStops(t.slots, key, Home(hash(key), |t.slots|));
    Probe(t.slots, key, Home(hash(key), |t.slots|), |t.slots| - 1).value
  }

  /** HashtableOpen.java:69-72: what `get(key)` returns — the value in the
      slot the probe picks, or null. As written that slot never holds `key`
      itself: a non-null result is the value of a different key. */
  ghost function Lookup<K, V>(t: Table<K, V>, hash: K -> int, key: K): (r: Outcome<Option<V>>)
    requires Inv(t)
    ensures r.Thrown? ==> r.error == NullPointer
    ensures r.Ok? && r.value.Some? ==>
      exists j :: 0 <= j < |t.slots| && t.slots[j].Live? && t.slots[j].key != key && t.slots[j].value == r.value
  {
    match Located(t, hash, key)
    case Thrown(e) => Thrown(e)
    case Ok(i) => Ok(if t.slots[i].Live? then t.slots[i].value else None)
  }

  /** HashtableOpen.java:80-89, once the probe has stopped at slot `i` and
      the load check has not fired: a null slot gets a new entry and
      `numKeys` goes up (the new value is returned); a live slot has its
      value replaced (the old value is returned). */
  ghost function Stored<K, V>(t: Table<K, V>, i: int, key: K, value: Option<V>): (r: (Table<K, V>, Outcome<Option<V>>))
    requires Inv(t) && 0 <= i < |t.slots| && Stops(t.slots[i], key)
    requires t.slots[i].Null? ==> t.numKeys + 1 + t.numDeletes < |t.slots|
    ensures Inv(r.0) && |r.0.slots| == |t.slots| && r.0.numDeletes == t.numDeletes
    ensures r.0.numKeys == t.numKeys + (if t.slots[i].Null? then 1 else 0)
    ensures r.0.slots[i].Live? && r.0.slots[i].value == value
    ensures r.0.slots[i].key == if t.slots[i].Null? then key else t.slots[i].key
    ensures forall j :: 0 <= j < |t.slots| && j != i ==> r.0.slots[j] == t.slots[j]
    ensures r.1 == Ok(if t.slots[i].Null? then value else t.slots[i].value)
    ensures NoDeleted(t.slots) ==> NoDeleted(r.0.slots)
  {
    var slot := if t.slots[i].Null? then Live(key, value) else Live(t.slots[i].key, value);
    OccupiedUpdate(t.slots, i, slot);
    if t.slots[i].Null? then
      (Table(t.slots[i := slot], t.numKeys + 1, t.numDeletes), Ok(value))
    else
      (Table(t.slots[i := slot], t.numKeys, t.numDeletes), Ok(t.slots[i].value))
  }

  /** HashtableOpen.java:74-91: the table after `put(key, value)`, and what
      it returns. The probe may throw; when it stops at a null slot,
      `numKeys` goes up first and, if the load check then fires, `rehash`
      runs and throws (see `PutGrowsThrows`), so lines 80-82 never run. */
  ghost function AfterPut<K, V>(t: Table<K, V>, hash: K -> int, key: K, value: Option<V>): (r: (Table<K, V>, Outcome<Option<V>>))
    requires Inv(t)
    ensures Inv(r.0)
  {
    match Located(t, hash, key)
    case Thrown(e) => (t, Thrown(e))
    case Ok(i) => PutAt(t, hash, i, key, value)
  }

  /** HashtableOpen.java:76-90: `put` once the probe has stopped at slot `i`. */
  ghost function PutAt<K, V>(t: Table<K, V>, hash: K -> int, i: int, key: K, value: Option<V>): (r: (Table<K, V>, Outcome<Option<V>>))
    requires Inv(t) && 0 <= i < |t.slots| && Stops(t.slots[i], key)
    ensures Inv(r.0)
  {
    if t.slots[i].Null? && Overloaded(t.numKeys + 1 + t.numDeletes, |t.slots|, LOAD_THRESHOLD) then
      var (grown, outcome) := AfterRehash(t.(numKeys := t.numKeys + 1), hash);
      (grown, Thrown(outcome.error))
    else
      OverloadedIff(t.numKeys + 1 + t.numDeletes, |t.slots|, LOAD_THRESHOLD);
      Stored(t, i, key, value)
  }

  /** HashtableOpen.java:93-102: `rehash` allocates `2·length + 1` null
      slots, zeroes both counters and puts the old entries back in order. As
      written its test `copy[i] != null || !copy[i].equals(DELETED)` calls
      `equals` on every null slot, and a `DELETED` slot passes the test and
      is put with its null key: the first slot that is not live throws
      `NullPointerException`. */
  ghost function AfterRehash<K, V>(t: Table<K, V>, hash: K -> int): (r: (Table<K, V>, Outcome<()>))
    ensures Inv(r.0) && |r.0.slots| == 2 * |t.slots| + 1 && r.0.numDeletes == 0
    ensures r.1.Thrown? ==> r.1.error == NullPointer
    ensures r.1.Ok? <==> forall j :: 0 <= j < |t.slots| ==> t.slots[j].Live?
  {
    Refill(t.slots, hash, 0, Table(Nulls(2 * |t.slots| + 1), 0, 0))
  }

  /** While `rehash` refills: the new table has `2·|copy| + 1` slots, no
      deleted ones, no deletions counted, and at most one key per old slot
      done so far. */
  ghost predicate Filling<K, V>(acc: Table<K, V>, size: int, done: int)
  {
    |acc.slots| == 2 * size + 1 && acc.numDeletes == 0 && NoDeleted(acc.slots) &&
    Occupied(acc.slots) <= acc.numKeys <= done
  }

  /** HashtableOpen.java:98-100: puts the old slots from `i` on into `acc`.
      Each `put` finds a slot (there is no `DELETED` entry to trip over) and
      never fires the load check (`PutWhileFilling`). */
  ghost function Refill<K, V>(copy: seq<Slot<K, V>>, hash: K -> int, i: nat, acc: Table<K, V>): (r: (Table<K, V>, Outcome<()>))
    requires i <= |copy| && Filling(acc, |copy|, i)
    ensures Filling(r.0, |copy|, |copy|)
    ensures r.1.Thrown? ==> r.1.error == NullPointer
    ensures r.1.Ok? <==> forall j :: i <= j < |copy| ==> copy[j].Live?
    decreases |copy| - i
  {
    if i == |copy| then (acc, Ok(()))
    else if !copy[i].Live? then (acc, Thrown(NullPointer))
    else
      var j := Located(acc, hash, copy[i].key);
      Refill(copy, hash, i + 1, Stored(acc, j.value, copy[i].key, copy[i].value).0)
  }

  /** Inside `rehash`, `put` is the plain store at the probed slot. */
  lemma PutWhileFilling<K, V>(acc: Table<K, V>, size: int, done: int, hash: K -> int, key: K, value: Option<V>)
    requires done < size && Filling(acc, size, done)
    ensures Located(acc, hash, key).Ok? && !Overloaded(acc.numKeys + 1 + acc.numDeletes, |acc.slots|, LOAD_THRESHOLD)
    ensures AfterPut(acc, hash, key, value) == Stored(acc, Located(acc, hash, key).value, key, value)
  {
    OverloadedIff(acc.numKeys + 1 + acc.numDeletes, |acc.slots|, LOAD_THRESHOLD);
  }

  /** The load check, for a `put` whose probe reaches a null slot: it fires
      exactly when the count with the new key has reached the table size;
      `put` then throws and leaves a table of `2·length + 1` slots, and
      otherwise returns the value it was given. */
  lemma PutIntoNull<K, V>(t: Table<K, V>, hash: K -> int, key: K, value: Option<V>)
    requires Inv(t) && Located(t, hash, key).Ok? && t.slots[Located(t, hash, key).value].Null?
    ensures AfterPut(t, hash, key, value).1.Thrown? <==> t.numKeys + 1 + t.numDeletes >= |t.slots|
    ensures AfterPut(t, hash, key, value).1.Thrown? ==>
      AfterPut(t, hash, key, value).1.error == NullPointer && |AfterPut(t, hash, key, value).0.slots| == 2 * |t.slots| + 1
    ensures AfterPut(t, hash, key, value).1.Ok? ==> AfterPut(t, hash, key, value).1.value == value
  {
    OverloadedIff(t.numKeys + 1 + t.numDeletes, |t.slots|, LOAD_THRESHOLD);
    var i := Located(t, hash, key).value;
    if t.numKeys + 1 + t.numDeletes >= |t.slots| {
      assert !t.(numKeys := t.numKeys + 1).slots[i].Live?;
    }
  }

  /** The slot `d` places after `i`, going round a table of `n` slots. */
  function Step(i: int, d: int, n: int): int
  {
    if i + d < n then i + d else i + d - n
  }

  /** The probe from `i` returns the slot `steps` places on, and every slot
      it passes holds `key` itself. */
  lemma {:induction false} ProbePath<K, V>(s: seq<Slot<K, V>>, key: K, i: int, left: nat) returns (steps: nat)
    requires 0 <= i < |s| && left < |s|
    requires Probe(s, key, i, left).Some? && Probe(s, key, i, left).value.Ok?
    ensures steps <= left && Probe(s, key, i, left).value.value == Step(i, steps, |s|)
    ensures forall d :: 0 <= d < steps ==> s[Step(i, d, |s|)].Live? && s[Step(i, d, |s|)].key == key
    decreases left
  {
    if Stops(s[i], key) {
      steps := 0;
    } else {
      var next := Next(i, |s|);
      var rest := ProbePath(s, key, next, left - 1);
      steps := rest + 1;
      forall d | 1 <= d < steps
        ensures Step(i, d, |s|) == Step(next, d - 1, |s|)
      {
      }
    }
  }

  /** HashtableOpen.java:57-66 as written: from the home slot the probe
      passes exactly the slots that hold `key` and returns the first slot
      that is null or holds a different key (see `Located`), never the slot
      where `key` is. */
  lemma LocatedPath<K, V>(t: Table<K, V>, hash: K -> int, key: K) returns (steps: nat)
    requires Inv(t) && Located(t, hash, key).Ok?
    ensures steps < |t.slots|
    ensures Located(t, hash, key).value == Step(Home(hash(key), |t.slots|), steps, |t.slots|)
    ensures forall d :: 0 <= d < steps ==>
      t.slots[Step(Home(hash(key), |t.slots|), d, |t.slots|)].Live? &&
      t.slots[Step(Home(hash(key), |t.slots|), d, |t.slots|)].key == key
  {
    ProbeStops(t.slots, key, Home(hash(key), |t.slots|));
    steps := ProbePath(t.slots, key, Home(hash(key), |t.slots|), |t.slots| - 1);
  }

  /** On a new table, `get(key)` right after `put(key, value)` returns null:
      `put` stores the entry in the home slot, and `get`'s probe passes over
      it to the null slot after. */
  lemma NewTablePutThenGet<K, V>(hash: K -> int, key: K, value: Option<V>)
    ensures AfterPut(Table(Nulls(START_CAPACITY), 0, 0), hash, key, value).1 == Ok(value)
    ensures Lookup(AfterPut(Table(Nulls(START_CAPACITY), 0, 0), hash, key, value).0, hash, key) == Ok(None)
  {
    var t: Table<K, V> := Table(Nulls(START_CAPACITY), 0, 0);
    var h := Home(hash(key), START_CAPACITY);
    assert Located(t, hash, key) == Ok(h);
    OverloadedIff(1, START_CAPACITY, LOAD_THRESHOLD);
    var u := AfterPut(t, hash, key, value).0;
    assert u.slots == t.slots[h := Live(key, value)];
    var next := Next(h, START_CAPACITY);
    assert Probe(u.slots, key, h, START_CAPACITY - 1) == Probe(u.slots, key, next, START_CAPACITY - 2) == Some(Ok(next));
  }

  /** HashtableOpen.java:110-117: the table after `remove(key)`, and what it
      returns: the value in the slot the probe picks (null if none); that
      slot becomes `DELETED` when the value is non-null and null otherwise,
      and the counters move whatever was found. */
  ghost function AfterRemove<K, V>(t: Table<K, V>, hash: K -> int, key: K): (r: (Table<K, V>, Outcome<Option<V>>))
    requires Inv(t)
    ensures Inv(r.0)
    ensures r.0.numKeys + r.0.numDeletes == t.numKeys + t.numDeletes
  {
    match Located(t, hash, key)
    case Thrown(e) => (t, Thrown(e))
    case Ok(i) => RemoveAt(t, i)
  }

  /** HashtableOpen.java:112-116: `remove` once the probe has stopped at
      slot `i`. */
  ghost function RemoveAt<K, V>(t: Table<K, V>, i: int): (r: (Table<K, V>, Outcome<Option<V>>))
    requires Inv(t) && 0 <= i < |t.slots|
    ensures Inv(r.0) && |r.0.slots| == |t.slots|
    ensures r.0.numKeys == t.numKeys - 1 && r.0.numDeletes == t.numDeletes + 1
    ensures r.1 == Ok(if t.slots[i].Live? then t.slots[i].value else None)
    ensures r.0.slots[i] == if r.1.value.Some? then Deleted else Null
    ensures forall j :: 0 <= j < |t.slots| && j != i ==> r.0.slots[j] == t.slots[j]
  {
    var temp := if t.slots[i].Live? then t.slots[i].value else None;
    var slot: Slot<K, V> := if temp.Some? then Deleted else Null;
    OccupiedUpdate(t.slots, i, slot);
    (Table(t.slots[i := slot], t.numKeys - 1, t.numDeletes + 1), Ok(temp))
  }

  class HashtableOpen<K(==), V> {
    var table: array<Entry?<K, V>>
    var numKeys: int
    var numDeletes: int
    const DELETED: Entry<K, V>
    /** The keys' `hashCode`. */
    const hash: K -> int
    /** What each slot of `table` holds. */
    ghost var Slots: seq<Slot<K, V>>
    ghost var Repr: set<object>

    ghost function State(): Table<K, V>
      reads this
    {
      Table(Slots, numKeys, numDeletes)
    }

    /** The objects are in place, and no live entry sits in two slots (so
        `setValue` on one slot changes no other). */
    ghost predicate Wf()
      reads this`Repr, this`table, table, DELETED
    {
      this in Repr && table in Repr && DELETED in Repr && DELETED.key.None? && DELETED.value.None? &&
      (forall k :: 0 <= k < table.Length && table[k] != null ==> table[k] in Repr && (table[k].key.None? ==> table[k] == DELETED)) &&
      (forall a, b ::
        0 <= a < table.Length && 0 <= b < table.Length && table[a] != null && table[a].key.Some? && table[a] == table[b]
        ==> a == b)
    }

    /** `Slots` describes `table`. */
    ghost predicate Mirrored()
      reads this`Slots, this`table, table, table[..]
    {
      |Slots| == table.Length && forall k :: 0 <= k < table.Length ==> Slots[k] == SlotOf(table[k])
    }

    ghost predicate Valid()
      reads this, table, DELETED, Repr
    {
      Wf() && Mirrored() && Inv(State())
    }

    /** HashtableOpen.java:47-49: 101 null slots. */
    constructor (hash: K -> int)
      ensures Valid() && fresh(Repr)
      ensures State() == Table(Nulls(START_CAPACITY), 0, 0) && this.hash == hash
    {
      table := new Entry?<K, V>[START_CAPACITY](_ => null);
      numKeys := 0;
      numDeletes := 0;
      DELETED := new Entry(None, None);
      this.hash := hash;
      Slots := Nulls(START_CAPACITY);
      new;
      Repr := {this, table, DELETED};
    }

    /** HashtableOpen.java:57-67. */
    method Find(key: K) returns (r: Outcome<int>)
      requires Valid()
      ensures r == Located(State(), hash, key)
    {
      var n := table.Length;
      var index := Home(hash(key), n);
      ghost var left: nat := n - 1;
      ProbeStops(Slots, key, index);
      while true
        invariant 0 <= index < n
        invariant Probe(Slots, key, index, left) == Probe(Slots, key, Home(hash(key), n), n - 1)
        invariant Probe(Slots, key, index, left).Some?
        decreases left
      {
        var e := table[index];
        if e == null {
          return Ok(index);
        }
        // DELETED's key is null, and `getKey().equals(key)` dereferences it
        if e.key.None? {
          return Thrown(NullPointer);
        }
        if e.key.value != key {
          return Ok(index);
        }
        index := (index + 1) % n;
        left := left - 1;
      }
    }

    /** HashtableOpen.java:69-72. */
    method Get(key: K) returns (r: Outcome<Option<V>>)
      requires Valid()
      ensures r == Lookup(State(), hash, key)
    {
      var f := Find(key);
      match f
      case Thrown(e) =>
        return Thrown(e);
      case Ok(i) =>
        return Ok(if table[i] != null then table[i].value else None);
    }

    /** Stores `e` in slot `i` (HashtableOpen.java:82, 113); a live entry
        stored must be in no other slot. */
    method Write(i: int, e: Entry?<K, V>)
      requires Wf() && Mirrored() && 0 <= i < table.Length && (e == null || (e in Repr && (e.key.None? ==> e == DELETED)))
      requires e != null && e.key.Some? ==> forall k :: 0 <= k < table.Length && k != i ==> table[k] != e
      modifies this`Slots, table
      ensures Wf() && Mirrored()
      ensures Slots == old(Slots)[i := SlotOf(e)]
    {
      table[i] := e;
      Slots := Slots[i := SlotOf(e)];
    }

    /** HashtableOpen.java:74-91. */
    method Put(key: K, value: Option<V>) returns (r: Outcome<Option<V>>)
      requires Valid()
      modifies Repr
      ensures Valid() && fresh(Repr - old(Repr))
      ensures (State(), r) == AfterPut(old(State()), hash, key, value)
      decreases if Overloaded(numKeys + 1 + numDeletes, table.Length, LOAD_THRESHOLD) then 2 else 0, 2
    {
      var f := Find(key);
      if f.Thrown? {
        return Thrown(f.error);
      }
      r := Place(f.value, key, value);
    }

    /** HashtableOpen.java:76-90. */
    method Place(i: int, key: K, value: Option<V>) returns (r: Outcome<Option<V>>)
      requires Valid() && 0 <= i < table.Length && Stops(Slots[i], key)
      modifies Repr
      ensures Valid() && fresh(Repr - old(Repr))
      ensures (State(), r) == PutAt(old(State()), hash, i, key, value)
      decreases if Overloaded(numKeys + 1 + numDeletes, table.Length, LOAD_THRESHOLD) then 2 else 0, 1
    {
      if table[i] == null {
        // line 77's increment is done by `Grow` and `AddEntry`
        if Overloaded(numKeys + 1 + numDeletes, table.Length, LOAD_THRESHOLD) {
          r := Grow(i, key, value);
        } else {
          OverloadedIff(numKeys + 1 + numDeletes, table.Length, LOAD_THRESHOLD);
          r := AddEntry(i, key, value);
        }
      } else {
        var prev := Overwrite(i, key, value);
        r := Ok(prev);
      }
    }

    /** HashtableOpen.java:77-79: the count goes up, the load check fires
        and `rehash` runs; it reaches slot `i`, still null, and throws there,
        so lines 80-82 never run. */
    method Grow(i: int, key: K, value: Option<V>) returns (r: Outcome<Option<V>>)
      requires Valid() && 0 <= i < table.Length && table[i] == null
      requires Overloaded(numKeys + 1 + numDeletes, table.Length, LOAD_THRESHOLD)
      modifies Repr
      ensures Valid() && fresh(Repr - old(Repr))
      ensures (State(), r) == PutAt(old(State()), hash, i, key, value)
      decreases 2, 0
    {
      ghost var counted := State().(numKeys := numKeys + 1);
      assert !counted.slots[i].Live?;
      assert PutAt(State(), hash, i, key, value) == (AfterRehash(counted, hash).0, Thrown(AfterRehash(counted, hash).1.error));
      numKeys := numKeys + 1;
      var grown := Rehash();
      return Thrown(grown.error);
    }

    /** HashtableOpen.java:77 and 82-83: a new entry in the null slot `i`. */
    method AddEntry(i: int, key: K, value: Option<V>) returns (r: Outcome<Option<V>>)
      requires Valid() && 0 <= i < table.Length && table[i] == null
      requires numKeys + 1 + numDeletes < table.Length
      modifies Repr
      ensures Valid() && fresh(Repr - old(Repr))
      ensures (State(), r) == Stored(old(State()), i, key, value)
    {
      ghost var t := State();
      assert Stored(t, i, key, value).0 == Table(t.slots[i := Live(key, value)], t.numKeys + 1, t.numDeletes);
      var e := new Entry(Some(key), value);
      Repr := Repr + {e};
      Write(i, e);
      numKeys := numKeys + 1;
      return Ok(value);
    }

    /** HashtableOpen.java:88-90: the live entry in slot `i` takes `value`;
        the value it held is returned. */
    method Overwrite(i: int, key: K, value: Option<V>) returns (prev: Option<V>)
      requires Valid() && 0 <= i < table.Length && Stops(Slots[i], key) && table[i] != null
      modifies this`Slots, table[i]
      ensures Valid()
      ensures (State(), Ok(prev)) == Stored(old(State()), i, key, value)
    {
      prev := table[i].SetValue(value);
      Slots := Slots[i := Live(table[i].key.value, value)];
      OccupiedUpdate(old(Slots), i, Slots[i]);
    }

    /** HashtableOpen.java:93-102. */
    method Rehash() returns (r: Outcome<()>)
      requires Wf() && Mirrored() && 0 < table.Length
      modifies Repr
      ensures Valid() && fresh(Repr - old(Repr))
      ensures (State(), r) == AfterRehash(old(State()), hash)
      decreases 1, 2
    {
      ghost var before := State();
      var copy := Renew();
      r := Refilling(copy, before.slots);
    }

    /** HashtableOpen.java:98-101: the loop over the old array. */
    method Refilling(copy: array<Entry?<K, V>>, ghost before: seq<Slot<K, V>>) returns (r: Outcome<()>)
      requires Valid() && Filling(State(), copy.Length, 0) && copy.Length == |before|
      requires copy !in Repr
      requires forall k :: 0 <= k < copy.Length ==>
        SlotOf(copy[k]) == before[k] && (copy[k] == null || copy[k] == DELETED || copy[k] !in Repr)
      modifies Repr
      ensures Valid() && fresh(Repr - old(Repr))
      ensures (State(), r) == Refill(before, hash, 0, old(State()))
      decreases 1, 1
    {
      ghost var start := State();
      for i := 0 to copy.Length
        invariant Valid() && Filling(State(), copy.Length, i)
        invariant fresh(Repr - old(Repr)) && copy !in Repr
        invariant forall k :: i <= k < copy.Length ==>
          SlotOf(copy[k]) == before[k] && (copy[k] == null || copy[k] == DELETED || copy[k] !in Repr)
        invariant Refill(before, hash, i, State()) == Refill(before, hash, 0, start)
      {
        r := Reinsert(copy, i, before);
        if r.Thrown? {
          return;
        }
      }
      return Ok(());
    }

    /** HashtableOpen.java:94-97: the old array is kept aside and a new
        one of `2·length + 1` null slots replaces it, with both counters
        zeroed. */
    method Renew() returns (copy: array<Entry?<K, V>>)
      requires Wf() && Mirrored()
      modifies this
      ensures copy == old(table) && fresh(table) && Repr == {this, table, DELETED} && fresh(Repr - old(Repr))
      ensures Valid() && State() == Table(Nulls(2 * copy.Length + 1), 0, 0)
    {
      copy := table;
      table := new Entry?<K, V>[copy.Length * 2 + 1](_ => null);
      numKeys := 0;
      numDeletes := 0;
      Slots := Nulls(copy.Length * 2 + 1);
      Repr := {this, table, DELETED};
    }

    /** HashtableOpen.java:98-100, for slot `i` of the old array: its entry
        is put into the new one, or the test throws. */
    method Reinsert(copy: array<Entry?<K, V>>, i: int, ghost before: seq<Slot<K, V>>) returns (r: Outcome<()>)
      requires Valid() && 0 <= i < copy.Length == |before| && Filling(State(), copy.Length, i)
      requires copy !in Repr && SlotOf(copy[i]) == before[i]
      requires copy[i] != null && copy[i] != DELETED ==> copy[i] !in Repr
      modifies Repr
      ensures Valid() && fresh(Repr - old(Repr))
      ensures r.Ok? ==> Filling(State(), copy.Length, i + 1) && Refill(before, hash, i + 1, State()) == Refill(before, hash, i, old(State()))
      ensures r.Thrown? ==> (State(), r) == Refill(before, hash, i, old(State()))
      decreases 1, 0
    {
      if copy[i] == null {
        // the second operand of `||` calls `equals` on the null slot
        return Thrown(NullPointer);
      }
      if copy[i].key.None? {
        // a DELETED slot: `put(null, …)` calls `hashCode` on the null key
        return Thrown(NullPointer);
      }
      PutWhileFilling(State(), copy.Length, i, hash, copy[i].key.value, copy[i].value);
      var _ := Put(copy[i].key.value, copy[i].value);
      return Ok(());
    }

    /** HashtableOpen.java:110-117. */
    method Remove(key: K) returns (r: Outcome<Option<V>>)
      requires Valid()
      modifies this, table
      ensures Valid() && Repr == old(Repr)
      ensures (State(), r) == AfterRemove(old(State()), hash, key)
    {
      var f := Find(key);
      if f.Thrown? {
        return Thrown(f.error);
      }
      r := Vacate(f.value);
    }

    /** HashtableOpen.java:112-116. */
    method Vacate(i: int) returns (r: Outcome<Option<V>>)
      requires Valid() && 0 <= i < table.Length
      modifies this, table
      ensures Valid() && Repr == old(Repr)
      ensures (State(), r) == RemoveAt(old(State()), i)
    {
      ghost var t := State();
      var temp := if table[i] != null then table[i].value else None;
      assert RemoveAt(t, i) == (Table(t.slots[i := if temp.Some? then Deleted else Null], t.numKeys - 1, t.numDeletes + 1), Ok(temp));
      Write(i, if temp.Some? then DELETED else null);
      numDeletes := numDeletes + 1;
      numKeys := numKeys - 1;
      return Ok(temp);
    }
  }
}
