/**
 * The bounded cache: a map of items plus a recency order, most recently touched first.
 * Its partner is a plain recency list; every method is proved equal to the list operation.
 */
module Cache {
  import opened Results

  /** Instants; the zero instant means "never expires". */
  type Time = int

  const ZERO_TIME: Time := 0

  predicate Expired(expiresAt: Time, now: Time) { expiresAt != ZERO_TIME && expiresAt <= now }

  // ----- the recency list -----

  datatype Slot<K, V> = Slot(key: K, value: V, expiresAt: Time)

  /** Most recently touched slot first. */
  type Recency<K, V> = seq<Slot<K, V>>

  ghost function Keys<K(!new), V(!new)>(s: Recency<K, V>): set<K> { set x | x in s :: x.key }

  ghost predicate Distinct<K, V>(s: Recency<K, V>) { forall i, j :: 0 <= i < j < |s| ==> s[i].key != s[j].key }

  /** The slots whose key is not dropped, in the same order. */
  ghost function Keep<K(!new), V(!new)>(s: Recency<K, V>, dropped: set<K>): (r: Recency<K, V>)
    ensures |r| <= |s|
    ensures forall x :: x in r <==> x in s && x.key !in dropped
  {
    if s == [] then []
    else if s[0].key in dropped then Keep(s[1..], dropped)
    else [s[0]] + Keep(s[1..], dropped)
  }

  ghost function Find<K(!new), V(!new)>(s: Recency<K, V>, key: K): (r: Option<Slot<K, V>>)
    ensures r.None? <==> key !in Keys(s)
    ensures r.Some? ==> r.value in s && r.value.key == key
  {
    if s == [] then None
    else if s[0].key == key then Some(s[0])
    else
      assert forall x :: x in s[1..] ==> x in s;
      assert forall x :: x in s ==> x == s[0] || x in s[1..];
      Find(s[1..], key)
  }

  /** The key that a put pushes out, if any. */
  ghost function Evicted<K(!new), V(!new)>(s: Recency<K, V>, capacity: nat, key: K): Option<K> {
    if key !in Keys(s) && |s| >= capacity && |s| > 0 then Some(s[|s| - 1].key) else None
  }

  /** Put moves the key to the front and drops the least recently touched slot beyond capacity. */
  ghost function AfterPut<K(!new), V(!new)>(s: Recency<K, V>, capacity: nat, slot: Slot<K, V>): Recency<K, V> {
    var t := [slot] + Keep(s, {slot.key});
    if |t| > capacity then t[..|t| - 1] else t
  }

  ghost function AfterDelete<K(!new), V(!new)>(s: Recency<K, V>, key: K): Recency<K, V> { Keep(s, {key}) }

  /** A live key moves to the front, an expired one is deleted, a missing one changes nothing. */
  ghost function AfterGet<K(!new), V(!new)>(s: Recency<K, V>, key: K, now: Time): Recency<K, V> {
    match Find(s, key)
    case None => s
    case Some(slot) => if Expired(slot.expiresAt, now) then AfterDelete(s, key) else [slot] + Keep(s, {key})
  }

  ghost function Lookup<K(!new), V(!new)>(s: Recency<K, V>, key: K, now: Time): Option<V> {
    match Find(s, key)
    case None => None
    case Some(slot) => if Expired(slot.expiresAt, now) then None else Some(slot.value)
  }

  ghost function DeadKeys<K(!new), V(!new)>(s: Recency<K, V>, now: Time): set<K> {
    set x | x in s && Expired(x.expiresAt, now) :: x.key
  }

  ghost function AfterPurge<K(!new), V(!new)>(s: Recency<K, V>, now: Time): Recency<K, V> { Keep(s, DeadKeys(s, now)) }

  // ----- algebra of Keep -----

  lemma {:induction false} KeepTwice<K(!new), V(!new)>(s: Recency<K, V>, a: set<K>, b: set<K>)
    ensures Keep(Keep(s, a), b) == Keep(s, a + b)
  {
    if s != [] {
      KeepTwice(s[1..], a, b);
      if s[0].key !in a { assert ([s[0]] + Keep(s[1..], a))[1..] == Keep(s[1..], a); }
    }
  }

  // Dropping keys that are not there, or the same keys described differently, changes nothing.
  lemma {:induction false} KeepSame<K(!new), V(!new)>(s: Recency<K, V>, a: set<K>, b: set<K>)
    requires forall x :: x in s ==> (x.key in a <==> x.key in b)
    ensures Keep(s, a) == Keep(s, b)
  {
    if s != [] {
      assert s[0] in s && forall x :: x in s[1..] ==> x in s;
      KeepSame(s[1..], a, b);
    }
  }

  lemma {:induction false} KeepNone<K(!new), V(!new)>(s: Recency<K, V>, a: set<K>)
    requires forall x :: x in s ==> x.key !in a
    ensures Keep(s, a) == s
  {
    if s != [] {
      assert s[0] in s && forall x :: x in s[1..] ==> x in s;
      KeepNone(s[1..], a);
    }
  }

  lemma {:induction false} KeepDistinct<K(!new), V(!new)>(s: Recency<K, V>, a: set<K>)
    requires Distinct(s)
    ensures Distinct(Keep(s, a))
  {
    if s != [] {
      KeepDistinct(s[1..], a);
      var rest := Keep(s[1..], a);
      forall i | 0 <= i < |rest| ensures rest[i].key != s[0].key {
        assert rest[i] in s[1..];
      }
    }
  }

  // A distinct list loses exactly one slot when one present key is dropped.
  lemma {:induction false} KeepOneLength<K(!new), V(!new)>(s: Recency<K, V>, key: K)
    requires Distinct(s)
    ensures |Keep(s, {key})| == |s| - (if key in Keys(s) then 1 else 0)
  {
    if s != [] {
      assert forall x :: x in s ==> x == s[0] || x in s[1..];
      assert s[0] in s && forall x :: x in s[1..] ==> x in s;
      if s[0].key == key {
        KeepNone(s[1..], {key});
      } else {
        KeepOneLength(s[1..], key);
      }
    }
  }

  lemma FindIs<K(!new), V(!new)>(s: Recency<K, V>, slot: Slot<K, V>)
    requires Distinct(s) && slot in s
    ensures Find(s, slot.key) == Some(slot)
  {
    var f := Find(s, slot.key).value;
    assert forall i, j :: 0 <= i < |s| && 0 <= j < |s| && s[i].key == s[j].key ==> s[i] == s[j];
    assert f == slot;
  }

  lemma Prepend<K(!new), V(!new)>(slot: Slot<K, V>, rest: Recency<K, V>)
    requires Distinct(rest) && forall x :: x in rest ==> x.key != slot.key
    ensures Distinct([slot] + rest)
    ensures forall x :: x in [slot] + rest <==> x == slot || x in rest
    ensures ([slot] + rest)[1..] == rest
  {
    var t := [slot] + rest;
    assert forall i :: 0 <= i < |rest| ==> t[i + 1] == rest[i] && rest[i] in rest;
  }

  lemma PutFacts<K(!new), V(!new)>(s: Recency<K, V>, capacity: nat, slot: Slot<K, V>)
    requires Distinct(s) && 1 <= capacity && |s| <= capacity
    ensures var t := AfterPut(s, capacity, slot);
      var gone := Evicted(s, capacity, slot.key);
      && Distinct(t) && |t| <= capacity && slot in t
      && (gone.Some? ==> gone.value in Keys(s) && gone.value != slot.key && gone.value !in Keys(t))
      && (forall x :: x in t <==> x == slot || (x in s && x.key != slot.key && gone != Some(x.key)))
  {
    KeepDistinct(s, {slot.key});
    KeepOneLength(s, slot.key);
    var rest := Keep(s, {slot.key});
    Prepend(slot, rest);
    hide Keep;
    if |rest| + 1 > capacity { PutEvicts(s, capacity, slot); }
  }

  lemma KeysAre<K(!new), V(!new)>(s: Recency<K, V>)
    ensures forall x :: x in s ==> x.key in Keys(s)
    ensures forall k :: k in Keys(s) ==> exists x :: x in s && x.key == k
  {}

  lemma PutEvicts<K(!new), V(!new)>(s: Recency<K, V>, capacity: nat, slot: Slot<K, V>)
    requires Distinct(s) && 1 <= capacity && |s| == capacity && slot.key !in Keys(s)
    ensures var t := AfterPut(s, capacity, slot);
      var gone := s[|s| - 1].key;
      && Evicted(s, capacity, slot.key) == Some(gone)
      && Distinct(t) && |t| <= capacity && gone in Keys(s) && gone != slot.key && gone !in Keys(t)
      && (forall x :: x in t <==> x == slot || (x in s && x.key != gone))
  {
    KeysAre(s);
    hide Keep, Keys;
    KeepNone(s, {slot.key});
    var t, last := [slot] + s, s[|s| - 1];
    Prepend(slot, s);
    hide Distinct;
    LastOfDistinct(t);
    assert last in s && t[|t| - 1] == last;
    assert AfterPut(s, capacity, slot) == t[..|t| - 1];
    hide AfterPut;
    KeysAre(t[..|t| - 1]);
  }

  lemma LastOfDistinct<K(!new), V(!new)>(t: Recency<K, V>)
    requires Distinct(t) && t != []
    ensures var init := t[..|t| - 1];
      Distinct(init) && forall x :: x in init <==> x in t && x.key != t[|t| - 1].key
  {
    var init := t[..|t| - 1];
    forall x ensures x in init <==> x in t && x.key != t[|t| - 1].key {
      if x in t { var i :| 0 <= i < |t| && t[i] == x; }
    }
  }

  lemma UniqueSlot<K(!new), V(!new)>(s: Recency<K, V>, slot: Slot<K, V>)
    requires Distinct(s) && slot in s
    ensures forall x :: x in s && x.key == slot.key ==> x == slot
  {
    forall x | x in s && x.key == slot.key ensures x == slot {
      FindIs(s, x);
      FindIs(s, slot);
    }
  }

  lemma GetFacts<K(!new), V(!new)>(s: Recency<K, V>, key: K, now: Time)
    requires Distinct(s)
    ensures var t := AfterGet(s, key, now);
      && Distinct(t) && |t| <= |s|
      && (forall x :: x in t <==> x in s && (x.key != key || !Expired(x.expiresAt, now)))
      && (Lookup(s, key, now).None? <==> key !in Keys(t))
  {
    match Find(s, key)
    case None =>
    case Some(slot) =>
      UniqueSlot(s, slot);
      KeepDistinct(s, {key});
      KeepOneLength(s, key);
      Prepend(slot, Keep(s, {key}));
      hide Keep;
  }

  // Getting one key never changes what another get at the same time returns.
  lemma GetLookup<K(!new), V(!new)>(s: Recency<K, V>, key: K, id: K, now: Time)
    requires Distinct(s)
    ensures Distinct(AfterGet(s, key, now)) && Lookup(AfterGet(s, key, now), id, now) == Lookup(s, id, now)
  {
    GetFacts(s, key, now);
    var t := AfterGet(s, key, now);
    hide AfterGet;
    match Find(s, id) {
      case None => KeysAre(t);
      case Some(slot) =>
        UniqueSlot(s, slot);
        if slot in t { FindIs(t, slot); } else { KeysAre(t); }
    }
  }

  /** A lookup finds the value stored under the key until its expiry, the zero instant being never. */
  lemma LookupMeans<K(!new), V(!new)>(s: Recency<K, V>, key: K, now: Time)
    requires Distinct(s)
    ensures forall v :: Lookup(s, key, now) == Some(v) <==>
      exists x :: x in s && x.key == key && x.value == v && (x.expiresAt == 0 || now < x.expiresAt)
  {
    match Find(s, key)
    case None => KeysAre(s);
    case Some(slot) => UniqueSlot(s, slot);
  }

  /** What a get, a purge and a delete leave stored. */
  lemma RemainsMeans<K(!new), V(!new)>(s: Recency<K, V>, key: K, now: Time)
    requires Distinct(s)
    ensures forall x :: x in AfterGet(s, key, now) <==> x in s && (x.key == key ==> x.expiresAt == 0 || now < x.expiresAt)
    ensures forall x :: x in AfterPurge(s, now) <==> x in s && (x.expiresAt == 0 || now < x.expiresAt)
    ensures forall x :: x in AfterDelete(s, key) <==> x in s && x.key != key
  {
    GetFacts(s, key, now);
    forall x | x in s ensures x in AfterPurge(s, now) <==> (x.expiresAt == 0 || now < x.expiresAt) { UniqueSlot(s, x); }
  }

  // ----- what is found under a key after each operation -----

  lemma SameFind<K(!new), V(!new)>(s: Recency<K, V>, t: Recency<K, V>, key: K)
    requires Distinct(s) && Distinct(t) && forall x: Slot<K, V> :: x.key == key ==> (x in s <==> x in t)
    ensures Find(s, key) == Find(t, key)
  {
    match Find(s, key)
    case Some(slot) => FindIs(t, slot);
    case None => KeysAre(s); KeysAre(t);
  }

  lemma FindAfterKeep<K(!new), V(!new)>(s: Recency<K, V>, dropped: set<K>, key: K)
    requires Distinct(s)
    ensures Find(Keep(s, dropped), key) == if key in dropped then None else Find(s, key)
  {
    KeepDistinct(s, dropped);
    if key in dropped { KeysAre(Keep(s, dropped)); } else { SameFind(Keep(s, dropped), s, key); }
  }

  lemma FindAfterGet<K(!new), V(!new)>(s: Recency<K, V>, key: K, now: Time, other: K)
    requires Distinct(s)
    ensures Find(AfterGet(s, key, now), other) == if other == key && Lookup(s, key, now).None? then None else Find(s, other)
  {
    var t := AfterGet(s, key, now);
    GetFacts(s, key, now);
    hide AfterGet;
    if other == key && Lookup(s, key, now).None? {
      KeysAre(t);
    } else {
      match Find(s, other)
      case Some(slot) => UniqueSlot(s, slot); SameFind(t, s, other);
      case None => KeysAre(s); SameFind(t, s, other);
    }
  }

  lemma FindAfterPut<K(!new), V(!new)>(s: Recency<K, V>, capacity: nat, slot: Slot<K, V>, key: K)
    requires Distinct(s) && 1 <= capacity && |s| <= capacity
    ensures Find(AfterPut(s, capacity, slot), key) ==
      if key == slot.key then Some(slot) else if Evicted(s, capacity, slot.key) == Some(key) then None else Find(s, key)
  {
    var t := AfterPut(s, capacity, slot);
    PutFacts(s, capacity, slot);
    hide AfterPut, Evicted;
    if key == slot.key { FindIs(t, slot); } else if Evicted(s, capacity, slot.key) != Some(key) { SameFind(t, s, key); }
  }

  // ----- a larger cache holds whatever a smaller one does -----

  datatype Op<K, V> = PutOp(slot: Slot<K, V>) | GetOp(key: K, now: Time) | DeleteOp(key: K) | PurgeOp(now: Time)

  ghost function Apply<K(!new), V(!new)>(s: Recency<K, V>, capacity: nat, op: Op<K, V>): Recency<K, V> {
    match op
    case PutOp(slot) => AfterPut(s, capacity, slot)
    case GetOp(key, now) => AfterGet(s, key, now)
    case DeleteOp(key) => AfterDelete(s, key)
    case PurgeOp(now) => AfterPurge(s, now)
  }

  ghost function Run<K(!new), V(!new)>(capacity: nat, ops: seq<Op<K, V>>): Recency<K, V> {
    if ops == [] then [] else Apply(Run(capacity, ops[..|ops| - 1]), capacity, ops[|ops| - 1])
  }

  /** small is big without the slots of some keys: same values, same relative order. */
  ghost predicate Included<K(!new), V(!new)>(small: Recency<K, V>, big: Recency<K, V>) {
    exists dropped: set<K> :: small == Keep(big, dropped)
  }

  /** What relates two caches of capacity n <= m fed the same operations. */
  ghost predicate Related<K(!new), V(!new)>(a: Recency<K, V>, n: nat, b: Recency<K, V>, m: nat) {
    && Distinct(b) && |a| <= n && |b| <= m
    && Included(a, b)
    && |b| - |a| <= m - n
  }

  lemma {:induction false} KeepShrinksLess<K(!new), V(!new)>(s: Recency<K, V>, a: set<K>, b: set<K>)
    ensures |Keep(s, a)| - |Keep(Keep(s, a), b)| <= |s| - |Keep(s, b)|
  {
    if s != [] {
      KeepShrinksLess(s[1..], a, b);
      if s[0].key !in a { assert ([s[0]] + Keep(s[1..], a))[1..] == Keep(s[1..], a); }
    }
  }

  // Deleting or purging both sides by the same keys.
  lemma KeepRelated<K(!new), V(!new)>(a: Recency<K, V>, n: nat, b: Recency<K, V>, m: nat, gone: set<K>)
    requires Related(a, n, b, m)
    ensures Related(Keep(a, gone), n, Keep(b, gone), m)
  {
    var d :| a == Keep(b, d);
    KeepTwice(b, d, gone);
    KeepTwice(b, gone, d);
    assert d + gone == gone + d;
    KeepDistinct(b, gone);
    KeepShrinksLess(b, gone, d);
  }

  lemma ConcatTail<T>(a: seq<T>, b: seq<T>)
    requires a != []
    ensures a + b != [] && (a + b)[0] == a[0] && (a + b)[1..] == a[1..] + b
  {}

  lemma ConsConcat<T>(h: T, a: seq<T>, b: seq<T>)
    ensures [h] + (a + b) == ([h] + a) + b
  {}

  lemma {:induction false} KeepConcat<K(!new), V(!new)>(a: Recency<K, V>, b: Recency<K, V>, d: set<K>)
    ensures Keep(a + b, d) == Keep(a, d) + Keep(b, d)
  {
    if a == [] {
      assert a + b == b;
    } else {
      KeepConcat(a[1..], b, d);
      KeepHead(a, d);
      ConcatTail(a, b);
      KeepHead(a + b, d);
      ConsConcat(a[0], Keep(a[1..], d), Keep(b, d));
      hide Keep;
    }
  }

  lemma KeepInit<K(!new), V(!new)>(t: Recency<K, V>, d: set<K>)
    requires t != []
    ensures var last := t[|t| - 1];
      Keep(t, d) == if last.key in d then Keep(t[..|t| - 1], d) else Keep(t[..|t| - 1], d) + [last]
  {
    var last := t[|t| - 1];
    assert t == t[..|t| - 1] + [last];
    KeepConcat(t[..|t| - 1], [last], d);
    KeepHead([last], d);
  }

  // Dropping the last kept slot is dropping its key.
  lemma DropLastKept<K(!new), V(!new)>(t: Recency<K, V>, d: set<K>)
    requires Distinct(t) && Keep(t, d) != []
    ensures var y := Keep(t, d);
      y[..|y| - 1] == Keep(t, d + {y[|y| - 1].key})
  {
    var y := Keep(t, d);
    var k := y[|y| - 1].key;
    KeepTwice(t, d, {k});
    KeepDistinct(t, d);
    KeepInit(y, {k});
    assert forall x :: x in y[..|y| - 1] ==> x.key != k;
    KeepNone(y[..|y| - 1], {k});
  }

  lemma PutRelated<K(!new), V(!new)>(a: Recency<K, V>, n: nat, b: Recency<K, V>, m: nat, slot: Slot<K, V>)
    requires Related(a, n, b, m) && 1 <= n <= m
    ensures Related(AfterPut(a, n, slot), n, AfterPut(b, m, slot), m)
  {
    var k := slot.key;
    var d :| a == Keep(b, d);
    var d' := d - {k};
    var x, y := [slot] + Keep(b, {k}), [slot] + Keep(a, {k});
    KeepDistinct(b, {k});
    Prepend(slot, Keep(b, {k}));
    KeepTwice(b, d, {k});
    KeepTwice(b, {k}, d');
    assert d + {k} == {k} + d';
    assert y == Keep(x, d');
    PutFacts(b, m, slot);
    PutSizes(a, n, b, m, slot);
    hide Keep;
    TruncationRelated(y, n, x, m, d');
  }

  lemma PutSizes<K(!new), V(!new)>(a: Recency<K, V>, n: nat, b: Recency<K, V>, m: nat, slot: Slot<K, V>)
    requires Related(a, n, b, m) && 1 <= n <= m
    ensures var y, x := |Keep(a, {slot.key})| + 1, |Keep(b, {slot.key})| + 1;
      y <= n + 1 && x <= m + 1 && (x > m ==> y > n)
    ensures |AfterPut(a, n, slot)| <= n && |AfterPut(b, m, slot)| <= m
    ensures |AfterPut(b, m, slot)| - |AfterPut(a, n, slot)| <= m - n
  {
    var k := slot.key;
    var d :| a == Keep(b, d);
    KeepDistinct(b, d);
    KeepOneLength(a, k);
    KeepOneLength(b, k);
    assert Keys(a) <= Keys(b);
    hide Keep;
  }

  // Truncating both lists keeps one included in the other, when the larger is truncated only with the smaller.
  lemma TruncationRelated<K(!new), V(!new)>(y: Recency<K, V>, n: nat, x: Recency<K, V>, m: nat, d: set<K>)
    requires Distinct(x) && y == Keep(x, d) && 1 <= n <= m
    requires |y| <= n + 1 && |x| <= m + 1 && |y| > 0
    requires |x| > m && x[|x| - 1].key !in d ==> |y| > n
    ensures var a := if |y| > n then y[..|y| - 1] else y;
      var b := if |x| > m then x[..|x| - 1] else x;
      Included(a, b)
  {
    var a := if |y| > n then y[..|y| - 1] else y;
    var d2 := if |y| > n then d + {y[|y| - 1].key} else d;
    if |y| > n { DropLastKept(x, d); }
    assert a == Keep(x, d2);
    if |x| > m {
      KeepInit(x, d);
      KeepInit(x, d2);
      assert a == Keep(x[..|x| - 1], d2);
    }
  }

  // A key only the larger cache holds moves or goes there, and the smaller one does not see it.
  lemma GetOnlyInLarger<K(!new), V(!new)>(a: Recency<K, V>, b: Recency<K, V>, d: set<K>, slot: Slot<K, V>)
    requires a == Keep(b, d) && slot in b && slot.key in d
    ensures Included(a, Keep(b, {slot.key})) && Included(a, [slot] + Keep(b, {slot.key}))
  {
    var key := slot.key;
    KeepTwice(b, {key}, d);
    assert {key} + d == d;
    assert ([slot] + Keep(b, {key}))[1..] == Keep(b, {key});
    assert a == Keep(Keep(b, {key}), d);
    assert a == Keep([slot] + Keep(b, {key}), d);
  }

  lemma GetInBoth<K(!new), V(!new)>(a: Recency<K, V>, b: Recency<K, V>, d: set<K>, slot: Slot<K, V>)
    requires a == Keep(b, d) && slot in b && slot.key !in d
    ensures Included([slot] + Keep(a, {slot.key}), [slot] + Keep(b, {slot.key}))
  {
    var key := slot.key;
    KeepTwice(b, d, {key});
    KeepTwice(b, {key}, d);
    assert d + {key} == {key} + d;
    assert ([slot] + Keep(b, {key}))[1..] == Keep(b, {key});
    assert [slot] + Keep(a, {key}) == Keep([slot] + Keep(b, {key}), d);
  }

  lemma GetRelated<K(!new), V(!new)>(a: Recency<K, V>, n: nat, b: Recency<K, V>, m: nat, key: K, now: Time)
    requires Related(a, n, b, m)
    ensures Related(AfterGet(a, key, now), n, AfterGet(b, key, now), m)
  {
    var d :| a == Keep(b, d);
    KeepDistinct(b, d);
    GetFacts(b, key, now);
    KeepOneLength(a, key);
    KeepOneLength(b, key);
    if key in Keys(b) {
      var slot := Find(b, key).value;
      if key in d {
        GetOnlyInLarger(a, b, d, slot);
        hide Keep;
      } else {
        FindIs(a, slot);
        if Expired(slot.expiresAt, now) { KeepRelated(a, n, b, m, {key}); } else { GetInBoth(a, b, d, slot); }
        hide Keep;
      }
    }
  }

  lemma PurgeRelated<K(!new), V(!new)>(a: Recency<K, V>, n: nat, b: Recency<K, V>, m: nat, now: Time)
    requires Related(a, n, b, m)
    ensures Related(AfterPurge(a, now), n, AfterPurge(b, now), m)
  {
    var d :| a == Keep(b, d);
    KeepRelated(a, n, b, m, DeadKeys(b, now));
    forall x | x in a ensures x.key in DeadKeys(a, now) <==> x.key in DeadKeys(b, now) {
      if x.key in DeadKeys(b, now) {
        var z :| z in b && Expired(z.expiresAt, now) && z.key == x.key;
        FindIs(b, x);
        FindIs(b, z);
      }
    }
    KeepSame(a, DeadKeys(a, now), DeadKeys(b, now));
  }

  /**
   * Fed the same operations, a cache of capacity n holds a subset of what one of capacity
   * m >= n holds, with the same values and in the same order of recency.
   */
  lemma {:induction false} SmallerCacheIsIncluded<K(!new), V(!new)>(n: nat, m: nat, ops: seq<Op<K, V>>)
    requires 1 <= n <= m
    ensures Related(Run(n, ops), n, Run(m, ops), m)
  {
    if ops == [] {
      assert Run<K, V>(n, ops) == Keep(Run<K, V>(m, ops), {});
    } else {
      var before, op := ops[..|ops| - 1], ops[|ops| - 1];
      SmallerCacheIsIncluded(n, m, before);
      var a, b := Run(n, before), Run(m, before);
      match op
      case PutOp(slot) => PutRelated(a, n, b, m, slot);
      case GetOp(key, now) => GetRelated(a, n, b, m, key, now);
      case DeleteOp(key) => KeepRelated(a, n, b, m, {key});
      case PurgeOp(now) => PurgeRelated(a, n, b, m, now);
    }
  }

  // ----- the order is recency -----

  predicate Touches<K(==), V>(op: Op<K, V>, key: K) {
    match op
    case PutOp(slot) => slot.key == key
    case GetOp(k, _) => k == key
    case _ => false
  }

  /** Which operation, counted from one, was the last to put or get the key; zero if none was. */
  function LastTouch<K(==), V>(ops: seq<Op<K, V>>, key: K): (n: nat)
    ensures n <= |ops|
  {
    if ops == [] then 0
    else if Touches(ops[|ops| - 1], key) then |ops|
    else LastTouch(ops[..|ops| - 1], key)
  }

  ghost predicate ByLastTouch<K, V>(s: Recency<K, V>, ops: seq<Op<K, V>>) {
    forall i, j :: 0 <= i < j < |s| ==> LastTouch(ops, s[i].key) > LastTouch(ops, s[j].key)
  }

  lemma {:induction false} KeepByLastTouch<K(!new), V(!new)>(s: Recency<K, V>, dropped: set<K>, ops: seq<Op<K, V>>)
    requires ByLastTouch(s, ops)
    ensures ByLastTouch(Keep(s, dropped), ops)
  {
    if s != [] {
      KeepByLastTouch(s[1..], dropped, ops);
      var rest := Keep(s[1..], dropped);
      hide LastTouch;
      forall i | 0 <= i < |rest| ensures LastTouch(ops, s[0].key) > LastTouch(ops, rest[i].key) {
        assert rest[i] in s[1..];
      }
    }
  }

  // An operation that touches none of the keys leaves their order.
  lemma UntouchedByLastTouch<K(!new), V(!new)>(s: Recency<K, V>, before: seq<Op<K, V>>, op: Op<K, V>)
    requires ByLastTouch(s, before) && forall x :: x in s ==> !Touches(op, x.key)
    ensures ByLastTouch(s, before + [op])
  {
    var ops := before + [op];
    assert ops[..|ops| - 1] == before;
    hide Touches;
    forall i | 0 <= i < |s| ensures LastTouch(ops, s[i].key) == LastTouch(before, s[i].key) { assert s[i] in s; }
  }

  // The key that is touched goes to the front.
  lemma TouchedGoesFirst<K(!new), V(!new)>(s: Recency<K, V>, before: seq<Op<K, V>>, op: Op<K, V>, slot: Slot<K, V>)
    requires ByLastTouch(s, before) && forall k :: Touches(op, k) <==> k == slot.key
    ensures ByLastTouch([slot] + Keep(s, {slot.key}), before + [op])
  {
    var rest, ops := Keep(s, {slot.key}), before + [op];
    KeepByLastTouch(s, {slot.key}, before);
    UntouchedByLastTouch(rest, before, op);
    assert LastTouch(ops, slot.key) == |ops|;
    assert ops[..|ops| - 1] == before;
    hide Keep;
    forall i | 0 <= i < |rest| ensures LastTouch(ops, rest[i].key) < |ops| { assert rest[i] in rest; }
  }

  /** After any run the slots stand in the order in which their keys were last touched, the latest first. */
  lemma {:induction false} OrderIsRecency<K(!new), V(!new)>(capacity: nat, ops: seq<Op<K, V>>)
    ensures ByLastTouch(Run(capacity, ops), ops)
  {
    if ops != [] {
      var before, op := ops[..|ops| - 1], ops[|ops| - 1];
      OrderIsRecency(capacity, before);
      assert before + [op] == ops;
      var s := Run(capacity, before);
      hide ByLastTouch, Keep, LastTouch;
      match op
      case PutOp(slot) =>
        TouchedGoesFirst(s, before, op, slot);
        PrefixByLastTouch([slot] + Keep(s, {slot.key}), ops);
      case GetOp(key, now) =>
        match Find(s, key) {
          case None =>
            KeysAre(s);
            UntouchedByLastTouch(s, before, op);
          case Some(slot) =>
            KeepByLastTouch(s, {key}, before);
            UntouchedByLastTouch(Keep(s, {key}), before, op);
            TouchedGoesFirst(s, before, op, slot);
        }
      case DeleteOp(key) =>
        KeepByLastTouch(s, {key}, before);
        UntouchedByLastTouch(Keep(s, {key}), before, op);
      case PurgeOp(now) =>
        KeepByLastTouch(s, DeadKeys(s, now), before);
        UntouchedByLastTouch(Keep(s, DeadKeys(s, now)), before, op);
    }
  }

  lemma PrefixByLastTouch<K(!new), V(!new)>(t: Recency<K, V>, ops: seq<Op<K, V>>)
    requires ByLastTouch(t, ops) && t != []
    ensures ByLastTouch(t[..|t| - 1], ops)
  {}

  /** What a put pushes out is the key whose last touch is the oldest. */
  lemma EvictsLeastRecentlyTouched<K(!new), V(!new)>(capacity: nat, ops: seq<Op<K, V>>, key: K)
    requires Evicted(Run(capacity, ops), capacity, key).Some?
    ensures var gone := Evicted(Run(capacity, ops), capacity, key).value;
      && gone in Keys(Run(capacity, ops))
      && forall k :: k in Keys(Run(capacity, ops)) && k != gone ==> LastTouch(ops, gone) < LastTouch(ops, k)
  {
    OrderIsRecency(capacity, ops);
    var s := Run(capacity, ops);
    hide Run, LastTouch;
    assert s[|s| - 1] in s;
    forall k | k in Keys(s) && k != s[|s| - 1].key ensures LastTouch(ops, s[|s| - 1].key) < LastTouch(ops, k) {
      var i :| 0 <= i < |s| && s[i].key == k;
    }
  }

  // ----- the cache itself -----

  datatype Item<V> = Item(value: V, expiresAt: Time)

  predicate NoDuplicates<K(==)>(order: seq<K>) { forall i, j :: 0 <= i < j < |order| ==> order[i] != order[j] }

  lemma NothingRepeats<K>()
    ensures NoDuplicates<K>([])
  {}

  lemma AppendFresh<K>(order: seq<K>, key: K)
    requires NoDuplicates(order) && key !in order
    ensures NoDuplicates(order + [key])
    ensures forall k :: k in order + [key] <==> k in order || k == key
  {}

  /** The list without one element. */
  function Remove<K(==)>(order: seq<K>, key: K): (r: seq<K>)
    ensures |r| <= |order|
    ensures forall k :: k in r ==> k in order && k != key
    ensures forall k :: k in order && k != key ==> k in r
  {
    if order == [] then []
    else if order[0] == key then Remove(order[1..], key)
    else [order[0]] + Remove(order[1..], key)
  }

  /** The recency list a map of items and an order of keys stand for. */
  ghost function SlotsOf<K(!new), V(!new)>(order: seq<K>, items: map<K, Item<V>>): (s: Recency<K, V>)
    requires forall k :: k in order ==> k in items
    ensures |s| == |order|
    ensures forall i :: 0 <= i < |order| ==> s[i] == Slot(order[i], items[order[i]].value, items[order[i]].expiresAt)
  {
    if order == [] then []
    else
      assert order[0] in order && forall k :: k in order[1..] ==> k in order;
      [Slot(order[0], items[order[0]].value, items[order[0]].expiresAt)] + SlotsOf(order[1..], items)
  }

  lemma {:induction false} RemoveFacts<K>(order: seq<K>, key: K)
    requires NoDuplicates(order)
    ensures NoDuplicates(Remove(order, key))
    ensures |Remove(order, key)| == |order| - (if key in order then 1 else 0)
  {
    if order != [] {
      RemoveFacts(order[1..], key);
      var rest := Remove(order[1..], key);
      if order[0] == key {
        assert key !in order[1..];
      } else {
        assert forall i :: 0 <= i < |rest| ==> rest[i] in order[1..];
        assert order[0] !in order[1..];
      }
    }
  }

  // Taking a key out of the order is dropping its slot, whatever the item map says about it.
  lemma {:induction false} SlotsOfRemove<K(!new), V(!new)>(order: seq<K>, items: map<K, Item<V>>, items': map<K, Item<V>>, key: K)
    requires forall k :: k in order ==> k in items
    requires forall k :: k in order && k != key ==> k in items' && items'[k] == items[k]
    ensures SlotsOf(Remove(order, key), items') == Keep(SlotsOf(order, items), {key})
  {
    if order != [] {
      assert order[0] in order && forall k :: k in order[1..] ==> k in order;
      SlotsOfRemove(order[1..], items, items', key);
      if order[0] != key { assert Remove(order, key)[1..] == Remove(order[1..], key); }
    }
  }

  lemma {:induction false} OrderCountsItems<K, V>(order: seq<K>, items: map<K, V>)
    requires NoDuplicates(order) && forall k :: k in order <==> k in items
    ensures |items| == |order|
  {
    if order == [] {
      assert items == map[];
    } else {
      var rest := items - {order[0]};
      assert order[0] !in order[1..];
      assert forall k :: k in order[1..] <==> k in order && k != order[0];
      OrderCountsItems(order[1..], rest);
      assert items.Keys == rest.Keys + {order[0]};
      assert |items.Keys| == |rest.Keys| + 1;
    }
  }

  lemma SlotsOfFacts<K(!new), V(!new)>(order: seq<K>, items: map<K, Item<V>>)
    requires forall k :: k in order ==> k in items
    requires NoDuplicates(order)
    ensures Distinct(SlotsOf(order, items))
    ensures forall k :: k in Keys(SlotsOf(order, items)) <==> k in order
    ensures forall k :: k in order ==>
      Find(SlotsOf(order, items), k) == Some(Slot(k, items[k].value, items[k].expiresAt))
  {
    var s := SlotsOf(order, items);
    forall k | k in order ensures Find(s, k) == Some(Slot(k, items[k].value, items[k].expiresAt)) {
      var i :| 0 <= i < |order| && order[i] == k;
      assert s[i] in s;
      FindIs(s, s[i]);
    }
    forall k | k in Keys(s) ensures k in order {
      var x :| x in s && x.key == k;
    }
  }

  class LruCache<K(==,!new), V(!new)> {
    const maxEntries: nat
    var items: map<K, Item<V>>
    var order: seq<K>

    ghost predicate Valid()
      reads this
    {
      && 1 <= maxEntries && |order| <= maxEntries
      && NoDuplicates(order)
      && (forall k :: k in order <==> k in items)
    }

    /** The recency list this cache holds. */
    ghost function Slots(): Recency<K, V>
      requires Valid()
      reads this
    {
      SlotsOf(order, items)
    }

    /** What the item map says about a key is what the list says. */
    lemma Peek(key: K)
      requires Valid()
      ensures Find(Slots(), key)
        == if key in items then Some(Slot(key, items[key].value, items[key].expiresAt)) else None
    {
      SlotsOfFacts(order, items);
    }

    constructor (max: int)
      ensures Valid() && Slots() == []
      ensures maxEntries == if max <= 0 then 1 else max
    {
      maxEntries := if max <= 0 then 1 else max;
      items := map[];
      order := [];
    }

    method Delete(key: K) returns (removed: Option<V>)
      requires Valid()
      modifies this
      ensures Valid() && Slots() == AfterDelete(old(Slots()), key)
      ensures removed == match Find(old(Slots()), key) case None => None case Some(slot) => Some(slot.value)
    {
      SlotsOfFacts(order, items);
      if key !in items {
        KeepNone(Slots(), {key});
        return None;
      }
      removed := Some(items[key].value);
      RemoveFacts(order, key);
      SlotsOfRemove(order, items, items - {key}, key);
      items := items - {key};
      order := Remove(order, key);
    }

    method Put(key: K, value: V, expiresAt: Time) returns (evicted: Option<K>)
      requires Valid()
      modifies this
      ensures Valid() && Slots() == AfterPut(old(Slots()), maxEntries, Slot(key, value, expiresAt))
      ensures evicted == Evicted(old(Slots()), maxEntries, key)
    {
      hide Keep, Find, SlotsOf, AfterPut, Evicted, Remove, NoDuplicates;
      var item := Item(value, expiresAt);
      if key in items {
        PutPresent(order, items, key, item, maxEntries);
        items := items[key := item];
        order := [key] + Remove(order, key);
        return None;
      }
      PutAbsent(order, items, key, item, maxEntries);
      items := items[key := item];
      order := [key] + order;
      OrderCountsItems(order, items);
      if |items| > maxEntries {
        var back := order[|order| - 1];
        EvictLast(order, items);
        items := items - {back};
        order := order[..|order| - 1];
        return Some(back);
      }
      return None;
    }

    method Get(key: K, now: Time) returns (found: Option<V>)
      requires Valid()
      modifies this
      ensures Valid() && Slots() == AfterGet(old(Slots()), key, now)
      ensures found == Lookup(old(Slots()), key, now)
    {
      GetCases(order, items, key, now);
      if key !in items {
        return None;
      }
      var item := items[key];
      if Expired(item.expiresAt, now) {
        var _ := Delete(key);
        return None;
      }
      MovedToFront(order, items, key, maxEntries);
      hide Find, AfterGet, Lookup, Keep;
      order := [key] + Remove(order, key);
      return Some(item.value);
    }

    /** Deletes every expired item, in whatever order the map is walked, and returns their keys. */
    method PurgeExpired(now: Time) returns (keys: seq<K>)
      requires Valid()
      modifies this
      ensures Valid() && Slots() == AfterPurge(old(Slots()), now)
      ensures NoDuplicates(keys) && forall k :: k in keys <==> k in DeadKeys(old(Slots()), now)
    {
      hide Keep, Find, SlotsOf, Settled, DeadKeys, AfterPurge, NoDuplicates;
      ghost var before := Slots();
      ghost var gone: set<K> := {};
      keys := [];
      NothingRepeats<K>();
      var pending := items.Keys;
      PurgeStart(order, items, now);
      while pending != {}
        invariant Valid() && pending <= Keys(before) && pending !! gone
        invariant NoDuplicates(keys) && forall k :: k in keys <==> k in gone
        invariant gone <= DeadKeys(before, now)
        invariant Slots() == Keep(before, gone)
        invariant Settled(before, pending, gone, now)
        decreases pending
      {
        var key :| key in pending;
        StillThere(order, items, before, gone, key);
        var item := items[key];
        Settle(before, Slots(), pending, gone, key, item, now);
        pending := pending - {key};
        if Expired(item.expiresAt, now) {
          KeepTwice(before, gone, {key});
          var _ := Delete(key);
          AppendFresh(keys, key);
          keys := keys + [key];
          gone := gone + {key};
        }
      }
      PurgeEnd(before, gone, now);
    }

    /** Deletes every expired item and returns the values of the others, in whatever order the map is walked. */
    method Values(now: Time) returns (values: seq<V>)
      requires Valid()
      modifies this
      ensures Valid() && Slots() == AfterPurge(old(Slots()), now)
      ensures multiset(values) == multiset(ValuesOf(AfterPurge(old(Slots()), now)))
    {
      hide Keep, Find, SlotsOf, Settled, DeadKeys, AfterPurge, ValuesOf, NoDuplicates, Keys, Distinct;
      ghost var before := Slots();
      ghost var gone: set<K> := {};
      values := [];
      var pending := items.Keys;
      PurgeStart(order, items, now);
      NothingSeen(before);
      assert pending + gone == Keys(before);
      while pending != {}
        invariant Valid() && pending <= Keys(before) && pending !! gone
        invariant gone <= DeadKeys(before, now)
        invariant Slots() == Keep(before, gone)
        invariant Settled(before, pending, gone, now)
        invariant multiset(values) == multiset(ValuesOf(Keep(before, pending + gone)))
        decreases pending
      {
        var key :| key in pending;
        StillThere(order, items, before, gone, key);
        var item := items[key];
        Settle(before, Slots(), pending, gone, key, item, now);
        if Expired(item.expiresAt, now) {
          assert pending + gone == (pending - {key}) + (gone + {key});
          KeepTwice(before, gone, {key});
          var _ := Delete(key);
          gone := gone + {key};
        } else {
          assert pending + gone == (pending - {key} + gone) + {key};
          OneMoreValue(before, pending - {key} + gone, Slot(key, item.value, item.expiresAt));
          values := values + [item.value];
        }
        pending := pending - {key};
      }
      assert pending + gone == gone;
      PurgeEnd(before, gone, now);
    }
  }

  /** The values of a recency list. */
  ghost function ValuesOf<K(!new), V(!new)>(s: Recency<K, V>): seq<V> {
    if s == [] then [] else [s[0].value] + ValuesOf(s[1..])
  }

  lemma {:induction false} OneMoreValue<K(!new), V(!new)>(s: Recency<K, V>, dropped: set<K>, slot: Slot<K, V>)
    requires Distinct(s) && slot in s && slot.key !in dropped
    ensures multiset(ValuesOf(Keep(s, dropped))) == multiset(ValuesOf(Keep(s, dropped + {slot.key}))) + multiset{slot.value}
  {
    var rest, k := s[1..], slot.key;
    TailFacts(s);
    KeepHead(s, dropped);
    KeepHead(s, dropped + {k});
    hide Distinct, Keep, ValuesOf;
    if s[0] == slot {
      KeepSame(rest, dropped, dropped + {k});
      FirstValue(slot, Keep(rest, dropped));
    } else {
      OneMoreValue(rest, dropped, slot);
      FirstValue(s[0], Keep(rest, dropped));
      FirstValue(s[0], Keep(rest, dropped + {k}));
    }
  }

  lemma TailFacts<K(!new), V(!new)>(s: Recency<K, V>)
    requires Distinct(s) && s != []
    ensures Distinct(s[1..])
    ensures forall x :: x in s[1..] ==> x in s && x.key != s[0].key
    ensures forall x :: x in s ==> x == s[0] || x in s[1..]
  {}

  lemma KeepHead<K(!new), V(!new)>(s: Recency<K, V>, dropped: set<K>)
    requires s != []
    ensures Keep(s, dropped) == if s[0].key in dropped then Keep(s[1..], dropped) else [s[0]] + Keep(s[1..], dropped)
  {}

  lemma FirstValue<K(!new), V(!new)>(slot: Slot<K, V>, rest: Recency<K, V>)
    ensures multiset(ValuesOf([slot] + rest)) == multiset{slot.value} + multiset(ValuesOf(rest))
  {
    assert ([slot] + rest)[1..] == rest;
  }

  lemma {:induction false} KeepNothing<K(!new), V(!new)>(s: Recency<K, V>, dropped: set<K>)
    requires forall x :: x in s ==> x.key in dropped
    ensures Keep(s, dropped) == []
  {
    if s != [] {
      assert s[0] in s && forall x :: x in s[1..] ==> x in s;
      KeepNothing(s[1..], dropped);
    }
  }

  lemma NothingSeen<K(!new), V(!new)>(s: Recency<K, V>)
    ensures ValuesOf(Keep(s, Keys(s))) == []
  {
    KeepNothing(s, Keys(s));
  }

  lemma PurgeStart<K(!new), V(!new)>(order: seq<K>, items: map<K, Item<V>>, now: Time)
    requires NoDuplicates(order) && forall k :: k in order <==> k in items
    ensures var s := SlotsOf(order, items);
      Distinct(s) && items.Keys == Keys(s) && Keep(s, {}) == s && Settled(s, items.Keys, {}, now)
  {
    var s := SlotsOf(order, items);
    SlotsOfFacts(order, items);
    hide SlotsOf, Keep, NoDuplicates, Find, Distinct;
    KeepNone(s, {});
    KeysOfItems(order, items, Keys(s));
    KeysAre(s);
    hide Keys;
  }

  lemma KeysOfItems<K(!new), V(!new)>(order: seq<K>, items: map<K, Item<V>>, keys: set<K>)
    requires (forall k :: k in order <==> k in items) && forall k :: k in keys <==> k in order
    ensures items.Keys == keys
  {}

  lemma PurgeEnd<K(!new), V(!new)>(before: Recency<K, V>, gone: set<K>, now: Time)
    requires Settled(before, {}, gone, now) && gone <= DeadKeys(before, now)
    ensures gone == DeadKeys(before, now) && Keep(before, gone) == AfterPurge(before, now)
  {}

  lemma StillThere<K(!new), V(!new)>(
    order: seq<K>, items: map<K, Item<V>>, before: Recency<K, V>, gone: set<K>, key: K)
    requires NoDuplicates(order) && forall k :: k in order <==> k in items
    requires SlotsOf(order, items) == Keep(before, gone) && key in Keys(before) && key !in gone
    ensures key in items && Slot(key, items[key].value, items[key].expiresAt) in before
    ensures Find(Keep(before, gone), key) == Some(Slot(key, items[key].value, items[key].expiresAt))
  {
    SlotsOfFacts(order, items);
    var x :| x in before && x.key == key;
    assert x in Keep(before, gone);
  }

  /** Every expired key not waiting to be looked at is gone. */
  ghost predicate Settled<K(!new), V(!new)>(before: Recency<K, V>, pending: set<K>, gone: set<K>, now: Time) {
    forall x :: x in before && x.key !in pending && Expired(x.expiresAt, now) ==> x.key in gone
  }

  lemma Settle<K(!new), V(!new)>(
    before: Recency<K, V>, s: Recency<K, V>, pending: set<K>, gone: set<K>, key: K, item: Item<V>, now: Time)
    requires Distinct(before) && s == Keep(before, gone) && Settled(before, pending, gone, now)
    requires Find(s, key) == Some(Slot(key, item.value, item.expiresAt))
    ensures if Expired(item.expiresAt, now) then
        key in DeadKeys(before, now) && Settled(before, pending - {key}, gone + {key}, now)
      else Settled(before, pending - {key}, gone, now)
  {
    UniqueSlot(before, Slot(key, item.value, item.expiresAt));
  }

  lemma GetCases<K(!new), V(!new)>(order: seq<K>, items: map<K, Item<V>>, key: K, now: Time)
    requires NoDuplicates(order) && forall k :: k in order <==> k in items
    ensures var s := SlotsOf(order, items);
      if key !in items then
        AfterGet(s, key, now) == s && Lookup(s, key, now) == None
      else if Expired(items[key].expiresAt, now) then
        AfterGet(s, key, now) == AfterDelete(s, key) && Lookup(s, key, now) == None
      else
        && AfterGet(s, key, now)
           == [Slot(key, items[key].value, items[key].expiresAt)] + SlotsOf(Remove(order, key), items)
        && Lookup(s, key, now) == Some(items[key].value)
  {
    SlotsOfFacts(order, items);
    SlotsOfRemove(order, items, items, key);
  }

  // Storing a key that is already there.
  lemma PutPresent<K(!new), V(!new)>(order: seq<K>, items: map<K, Item<V>>, key: K, item: Item<V>, max: nat)
    requires NoDuplicates(order) && key in order && |order| <= max && forall k :: k in order <==> k in items
    ensures var moved := [key] + Remove(order, key);
      var s := SlotsOf(order, items);
      && NoDuplicates(moved) && |moved| <= max && (forall k :: k in moved <==> k in items[key := item])
      && SlotsOf(moved, items[key := item]) == AfterPut(s, max, Slot(key, item.value, item.expiresAt))
      && Evicted(s, max, key) == None
  {
    SlotsOfFacts(order, items);
    SlotsOfRemove(order, items, items[key := item], key);
    MovedToFront(order, items[key := item], key, max);
    RemoveFacts(order, key);
  }

  // Storing a key that is not there: the new front, and the last slot beyond capacity goes.
  lemma PutAbsent<K(!new), V(!new)>(order: seq<K>, items: map<K, Item<V>>, key: K, item: Item<V>, max: nat)
    requires 1 <= max && NoDuplicates(order) && key !in order && |order| <= max && forall k :: k in order <==> k in items
    ensures var longer := [key] + order;
      var s := SlotsOf(order, items);
      var t := SlotsOf(longer, items[key := item]);
      && NoDuplicates(longer) && (forall k :: k in longer <==> k in items[key := item])
      && AfterPut(s, max, Slot(key, item.value, item.expiresAt)) == (if |longer| > max then t[..|longer| - 1] else t)
      && Evicted(s, max, key) == (if |longer| > max then Some(longer[|longer| - 1]) else None)
  {
    var s := SlotsOf(order, items);
    AbsentKey(order, items, key);
    KeepNone(s, {key});
    SameSlots(order, items, items[key := item]);
    PrependKey(key, order, items[key := item]);
    hide Keep, SlotsOf;
  }

  lemma AbsentKey<K(!new), V(!new)>(order: seq<K>, items: map<K, Item<V>>, key: K)
    requires NoDuplicates(order) && key !in order && forall k :: k in order ==> k in items
    ensures var s := SlotsOf(order, items);
      && key !in Keys(s) && (forall x :: x in s ==> x.key != key)
      && (order != [] ==> s[|s| - 1].key == order[|order| - 1])
  {
    SlotsOfFacts(order, items);
    var s := SlotsOf(order, items);
    assert forall x :: x in s ==> x.key in Keys(s);
  }

  lemma MovedToFront<K(!new), V(!new)>(order: seq<K>, items: map<K, Item<V>>, key: K, max: nat)
    requires NoDuplicates(order) && key in order && |order| <= max && forall k :: k in order ==> k in items
    ensures var moved := [key] + Remove(order, key);
      && NoDuplicates(moved) && |moved| <= max
      && (forall k :: k in moved <==> k in order)
      && SlotsOf(moved, items)
         == [Slot(key, items[key].value, items[key].expiresAt)] + SlotsOf(Remove(order, key), items)
  {
    RemoveFacts(order, key);
    PrependKey(key, Remove(order, key), items);
  }

  lemma SameSlots<K(!new), V(!new)>(order: seq<K>, items: map<K, Item<V>>, items': map<K, Item<V>>)
    requires forall k :: k in order ==> k in items && k in items' && items'[k] == items[k]
    ensures SlotsOf(order, items') == SlotsOf(order, items)
  {}

  lemma PrependKey<K(!new), V(!new)>(key: K, rest: seq<K>, items: map<K, Item<V>>)
    requires key in items && key !in rest && NoDuplicates(rest) && forall k :: k in rest ==> k in items
    ensures NoDuplicates([key] + rest)
    ensures SlotsOf([key] + rest, items) == [Slot(key, items[key].value, items[key].expiresAt)] + SlotsOf(rest, items)
  {}

  lemma EvictLast<K(!new), V(!new)>(order: seq<K>, items: map<K, Item<V>>)
    requires order != [] && NoDuplicates(order) && forall k :: k in order <==> k in items
    ensures var n := |order| - 1;
      && NoDuplicates(order[..n])
      && (forall k :: k in order[..n] <==> k in items - {order[n]})
      && SlotsOf(order[..n], items - {order[n]}) == SlotsOf(order, items)[..n]
  {
    var n := |order| - 1;
    assert order[n] !in order[..n];
    forall k ensures k in order[..n] <==> k in order && k != order[n] {
      if k in order { var i :| 0 <= i < |order| && order[i] == k; }
    }
  }
}
