/**
 The open-addressing hash table that maps a guest address to its futex queue.

 Buckets carry two flag bits, `empty` and `del`; a bucket is live when neither
 is set. The table is modelled with its own arrays, mutated in place, and is
 tied to a mathematical map through the ghost field `steps`, which records for
 every key at which step of its probe walk it is stored.
 */
module HashTable {
  import opened Probing

  datatype Flag = Flag(empty: bool, del: bool)

  const EMPTY: Flag := Flag(true, false)
  const MAX_BUCKETS: nat := 0x8000_0000

  predicate Live(f: Flag) {
    !f.empty && !f.del
  }

  /** The load limit 0.77 * n + 0.5, truncated. */
  function UpperBound(n: nat): (u: nat)
    ensures n >= 4 ==> 3 <= u < n
  {
    (77 * n + 50) / 100
  }

  /** The limit is 77 hundredths of the buckets, to the nearest bucket. */
  lemma UpperBoundIs(n: nat, u: nat)
    ensures UpperBound(n) == u <==> 100 * u <= 77 * n + 50 < 100 * (u + 1)
  {
  }

  /** A table under half full may be cleaned, and a table that is not full may be doubled. */
  lemma LoadArithmetic(n: nat, size: nat)
    requires n >= 4
    ensures 2 * size < n ==> size < UpperBound(n)
    ensures size < n ==> size < UpperBound(2 * n)
  {
  }

  /** The least power of two that is at least x, searched from the power p. */
  function LeastPow2(x: nat, p: nat): (r: nat)
    requires IsPow2(p) && p < 2 * x
    ensures IsPow2(r) && x <= r < 2 * x
    decreases if x <= p then 0 else x - p
  {
    if x <= p then p
    else
      DoublePow2(p);
      LeastPow2(x, 2 * p)
  }

  /** 32-bit rounding up to a power of two; it wraps to 0 outside 1 .. 2^31. */
  function RoundUp32(x: nat): (r: nat)
    ensures 1 <= x <= MAX_BUCKETS ==> IsPow2(r) && x <= r < 2 * x
  {
    if x == 0 || x > MAX_BUCKETS then 0 else LeastPow2(x, 1)
  }

  /** The number of buckets a resize request really asks for. */
  function NewSize(request: nat): (m: nat)
    ensures m >= 4 && IsPow2(m)
  {
    if RoundUp32(request) < 4 then
      assert IsPow2(2);
      4
    else RoundUp32(request)
  }

  lemma {:induction false} Pow2Between(p: nat, r: nat)
    requires IsPow2(p) && IsPow2(r) && p < r
    ensures 2 * p <= r
    decreases r
  {
    if p > 1 {
      Pow2Between(p / 2, r / 2);
    }
  }

  lemma EvenPow2(r: nat)
    requires IsPow2(r) && r > 1
    ensures r % 2 == 0
  {
  }

  /** Asking for one bucket less keeps the size: this is how tombstones are cleared. */
  lemma NewSizeSame(n: nat)
    requires IsPow2(n) && 4 <= n <= MAX_BUCKETS
    ensures NewSize(n - 1) == n
  {
    var r := RoundUp32(n - 1);
    if r < n {
      Pow2Between(r, n);
    } else if n < r {
      Pow2Between(n, r);
    }
  }

  /** Asking for one bucket more doubles the size. */
  lemma NewSizeDouble(n: nat)
    requires IsPow2(n) && 4 <= n < MAX_BUCKETS
    ensures NewSize(n + 1) == 2 * n
  {
    hide RoundUp32, IsPow2;
    var r := RoundUp32(n + 1);
    Pow2Between(n, r);
    EvenPow2(r);
  }

  /** The two resize requests of an insertion are always granted. */
  lemma RoomRequest(n: nat, size: nat)
    requires n == 0 || (IsPow2(n) && 4 <= n)
    requires n < MAX_BUCKETS && (n == 0 ==> size == 0) && (n > 0 ==> size < n)
    ensures n > 2 * size ==> NewSize(n - 1) == n && size < UpperBound(NewSize(n - 1))
    ensures n <= 2 * size ==> NewSize(n + 1) == (if n == 0 then 4 else 2 * n) && size < UpperBound(NewSize(n + 1))
  {
    if n > 0 {
      NewSizeSame(n);
      NewSizeDouble(n);
      LoadArithmetic(n, size);
    }
  }

  /** No bucket on the first k steps of the walk from h is empty. */
  ghost predicate Reach(flags: seq<Flag>, h: nat, k: nat)
    requires |flags| > 0
  {
    forall j: nat :: j < k ==> !flags[Pos(h, j, |flags|)].empty
  }

  ghost function NonEmpty(flags: seq<Flag>): (s: set<nat>)
  {
    set i: nat | i < |flags| && !flags[i].empty
  }

  /** Every key of `steps` is stored where its walk leads it, with no hole before. */
  ghost predicate Placed<K(!new)>(hash: K -> nat, flags: seq<Flag>, keys: seq<K>, steps: map<K, nat>)
    requires 0 < |flags| <= |keys|
  {
    forall k :: k in steps ==>
      && steps[k] < |flags|
      && Live(flags[Pos(hash(k), steps[k], |flags|)])
      && keys[Pos(hash(k), steps[k], |flags|)] == k
      && Reach(flags, hash(k), steps[k])
  }

  /** Every live bucket is the home of the key it holds. */
  ghost predicate Indexed<K(!new)>(hash: K -> nat, flags: seq<Flag>, keys: seq<K>, steps: map<K, nat>)
    requires 0 < |flags| <= |keys|
  {
    forall i: nat :: i < |flags| && Live(flags[i]) ==>
      keys[i] in steps && Pos(hash(keys[i]), steps[keys[i]], |flags|) == i
  }

  lemma NonEmptyFilled(flags: seq<Flag>, i: nat, f: Flag)
    requires i < |flags| && flags[i].empty && !f.empty
    ensures NonEmpty(flags[i := f]) == NonEmpty(flags) + {i}
    ensures |NonEmpty(flags[i := f])| == |NonEmpty(flags)| + 1
  {
    assert NonEmpty(flags[i := f]) == NonEmpty(flags) + {i};
  }

  lemma NonEmptyKept(flags: seq<Flag>, i: nat, f: Flag)
    requires i < |flags| && flags[i].empty == f.empty
    ensures NonEmpty(flags[i := f]) == NonEmpty(flags)
  {
  }

  /** No tombstone on the walk from step a up to step b. */
  ghost predicate ClearWalk(flags: seq<Flag>, h: nat, a: nat, b: nat)
    requires |flags| > 0
  {
    forall j: nat :: a <= j < b ==> !flags[Pos(h, j, |flags|)].del
  }

  /** The walk meets a tombstone before its first empty bucket. */
  ghost predicate MeetsTombstone(flags: seq<Flag>, h: nat) {
    |flags| > 0 && exists j: nat :: j < |flags| && Reach(flags, h, j + 1) && flags[Pos(h, j, |flags|)].del
  }

  /**
   Step s is where a new key goes, the first empty bucket of the walk being at
   step e: to the last tombstone before it, or to that empty bucket if there is no
   tombstone before it.
   */
  ghost predicate NewSlot(flags: seq<Flag>, h: nat, s: nat, e: nat) {
    && s <= e < |flags| && Reach(flags, h, e) && flags[Pos(h, e, |flags|)].empty
    && (if s == e then ClearWalk(flags, h, 0, e)
        else flags[Pos(h, s, |flags|)].del && ClearWalk(flags, h, s + 1, e))
  }

  /** A new key's bucket is empty exactly if there is no tombstone to reuse, and is a tombstone otherwise. */
  lemma SlotKind(flags: seq<Flag>, h: nat, s: nat, e: nat)
    requires NewSlot(flags, h, s, e)
    ensures flags[Pos(h, s, |flags|)].empty <==> !MeetsTombstone(flags, h)
    ensures !flags[Pos(h, s, |flags|)].empty ==> flags[Pos(h, s, |flags|)].del
  {
    if s < e {
      assert Reach(flags, h, s + 1);
    }
  }

  lemma NewCode(flags: seq<Flag>, h: nat, s: nat, e: nat, isNew: bool)
    requires isNew ==> NewSlot(flags, h, s, e)
    ensures isNew ==> (flags[Pos(h, s, |flags|)].empty <==> !MeetsTombstone(flags, h))
    ensures NoneDeleted(flags) ==> !MeetsTombstone(flags, h)
  {
    if isNew {
      SlotKind(flags, h, s, e);
    }
    if NoneDeleted(flags) {
      NoneToMeet(flags, h);
    }
  }

  /** There is one such bucket. */
  lemma SlotUnique(flags: seq<Flag>, h: nat, s: nat, e: nat, s': nat, e': nat)
    requires NewSlot(flags, h, s, e) && NewSlot(flags, h, s', e')
    ensures s == s' && e == e'
  {
  }

  lemma NoneToMeet(flags: seq<Flag>, h: nat)
    requires NoneDeleted(flags)
    ensures !MeetsTombstone(flags, h)
  {
  }

  /** A walk that met no empty bucket in n steps has seen a full table. */
  lemma WalkedFull(flags: seq<Flag>, h: nat, k: nat)
    requires IsPow2(|flags|) && k >= |flags|
    requires Reach(flags, h, k)
    ensures |NonEmpty(flags)| == |flags|
  {
    forall i: nat | i < |flags|
      ensures !flags[i].empty
    {
      var j := StepOf(h, i, |flags|);
    }
    assert NonEmpty(flags) == Below(|flags|);
  }

  lemma InitiallyEmpty(flags: seq<Flag>)
    requires forall i :: 0 <= i < |flags| ==> flags[i] == EMPTY
    ensures NonEmpty(flags) == {}
  {
  }

  // ---- in-place rehash -------------------------------------------------

  function Deleted(f: Flag): Flag {
    f.(del := true)
  }

  function Filled(f: Flag): Flag {
    f.(empty := false)
  }

  /** Buckets that are not live stay so. */
  ghost predicate StayDead(before: seq<Flag>, after: seq<Flag>) {
    |before| == |after| && forall i :: 0 <= i < |before| && !Live(before[i]) ==> !Live(after[i])
  }

  ghost predicate NoneLive(flags: seq<Flag>, n: nat) {
    n <= |flags| && forall i :: 0 <= i < n ==> !Live(flags[i])
  }

  lemma DeadExtend(before: seq<Flag>, after: seq<Flag>, j: nat)
    requires NoneLive(before, j) && StayDead(before, after)
    requires j < |after| && !Live(after[j])
    ensures NoneLive(after, j + 1)
  {
  }

  /** The entries already placed under the new flags. */
  ghost predicate NewSide<K(!new), V>(hash: K -> nat, flags: seq<Flag>, keys: seq<K>, vals: seq<V>,
                                      m: map<K, V>, steps: map<K, nat>)
  {
    && 0 < |flags| <= |keys| == |vals|
    && (forall i :: 0 <= i < |flags| ==> !flags[i].del)
    && Placed(hash, flags, keys, steps)
    && Indexed(hash, flags, keys, steps)
    && (forall k :: k in steps ==> k in m && vals[Pos(hash(k), steps[k], |flags|)] == m[k])
    && |NonEmpty(flags)| == |steps|
  }

  /** The entries still live under the old flags, with their buckets. */
  ghost predicate OldSide<K(!new), V>(flags: seq<Flag>, keys: seq<K>, vals: seq<V>,
                                      m: map<K, V>, pending: map<K, nat>)
  {
    && |flags| <= |keys| == |vals|
    && (forall k :: k in pending ==> pending[k] < |flags| && Live(flags[pending[k]]) && keys[pending[k]] == k)
    && (forall i: nat :: i < |flags| && Live(flags[i]) ==> keys[i] in pending && pending[keys[i]] == i)
    && (forall k :: k in pending ==> k in m && vals[pending[k]] == m[k])
  }

  /** No bucket holds an entry on both sides. */
  ghost predicate Apart(oldFlags: seq<Flag>, newFlags: seq<Flag>)
  {
    forall i :: 0 <= i < |oldFlags| && i < |newFlags| && Live(oldFlags[i]) ==> newFlags[i].empty
  }

  /** The map's keys are placed, pending or in hand, and never two of these. */
  ghost predicate Split<K, V>(m: map<K, V>, steps: map<K, nat>, pending: map<K, nat>, hand: set<K>)
  {
    && m.Keys == steps.Keys + pending.Keys + hand
    && steps.Keys !! pending.Keys && steps.Keys !! hand && pending.Keys !! hand
  }

  /** What holds in the middle of a rehash. */
  ghost predicate Rehashing<K(!new), V>(hash: K -> nat, oldFlags: seq<Flag>, newFlags: seq<Flag>,
                                        keys: seq<K>, vals: seq<V>, m: map<K, V>,
                                        steps: map<K, nat>, pending: map<K, nat>, hand: set<K>)
  {
    && NewSide(hash, newFlags, keys, vals, m, steps)
    && OldSide(oldFlags, keys, vals, m, pending)
    && Apart(oldFlags, newFlags)
    && Split(m, steps, pending, hand)
  }

  lemma SplitSize<K, V>(m: map<K, V>, steps: map<K, nat>, pending: map<K, nat>, hand: set<K>)
    requires Split(m, steps, pending, hand)
    ensures |m| == |steps| + |pending| + |hand|
  {
    assert |steps.Keys + pending.Keys| == |steps.Keys| + |pending.Keys|;
    assert |m.Keys| == |steps.Keys + pending.Keys| + |hand|;
  }

  lemma SplitTake<K, V>(m: map<K, V>, steps: map<K, nat>, pending: map<K, nat>, key: K)
    requires Split(m, steps, pending, {}) && key in pending
    ensures Split(m, steps, pending - {key}, {key})
    ensures |pending - {key}| == |pending| - 1
  {
    assert (pending - {key}).Keys == pending.Keys - {key};
  }

  lemma SplitPlace<K, V>(m: map<K, V>, steps: map<K, nat>, pending: map<K, nat>, key: K, s: nat)
    requires Split(m, steps, pending, {key})
    ensures Split(m, steps[key := s], pending, {})
  {
    assert steps[key := s].Keys == steps.Keys + {key};
  }

  /** Taking the entry of a live old bucket and storing anything there. */
  lemma OldSideTake<K(!new), V>(flags: seq<Flag>, keys: seq<K>, vals: seq<V>, m: map<K, V>,
                                pending: map<K, nat>, i: nat, key: K, val: V)
    requires OldSide(flags, keys, vals, m, pending)
    requires i < |flags| && Live(flags[i])
    ensures keys[i] in pending && keys[i] in m && m[keys[i]] == vals[i]
    ensures OldSide(flags[i := Deleted(flags[i])], keys[i := key], vals[i := val], m, pending - {keys[i]})
  {
    var flags', keys', pending' := flags[i := Deleted(flags[i])], keys[i := key], pending - {keys[i]};
    forall k | k in pending'
      ensures pending'[k] != i
    {
      assert k in pending && k != keys[i];
    }
    forall b: nat | b < |flags'| && Live(flags'[b])
      ensures keys'[b] in pending' && pending'[keys'[b]] == b
    {
      assert b != i && Live(flags[b]);
    }
  }

  /** Storing in a bucket that is not live under the old flags. */
  lemma OldSideKeep<K(!new), V>(flags: seq<Flag>, keys: seq<K>, vals: seq<V>, m: map<K, V>,
                                pending: map<K, nat>, i: nat, key: K, val: V)
    requires OldSide(flags, keys, vals, m, pending)
    requires i < |keys| && (i < |flags| ==> !Live(flags[i]))
    ensures OldSide(flags, keys[i := key], vals[i := val], m, pending)
  {
    forall k | k in pending
      ensures pending[k] != i
    {
    }
  }

  lemma StorePlaced<K(!new)>(hash: K -> nat, flags: seq<Flag>, keys: seq<K>, steps: map<K, nat>,
                             key: K, s: nat, f: Flag)
    requires 0 < |flags| <= |keys|
    requires Placed(hash, flags, keys, steps)
    requires key !in steps && s < |flags| && Live(f)
    requires !Live(flags[Pos(hash(key), s, |flags|)]) && Reach(flags, hash(key), s)
    ensures var i := Pos(hash(key), s, |flags|);
            Placed(hash, flags[i := f], keys[i := key], steps[key := s])
  {
    var n := |flags|;
    var i := Pos(hash(key), s, n);
    var flags', keys', steps' := flags[i := f], keys[i := key], steps[key := s];
    forall k | k in steps'
      ensures steps'[k] < n && Live(flags'[Pos(hash(k), steps'[k], n)])
      ensures keys'[Pos(hash(k), steps'[k], n)] == k
      ensures Reach(flags', hash(k), steps'[k])
    {
      if k != key {
        assert Pos(hash(k), steps[k], n) != i;
        assert Reach(flags, hash(k), steps[k]);
      }
    }
  }

  lemma StoreIndexed<K(!new)>(hash: K -> nat, flags: seq<Flag>, keys: seq<K>, steps: map<K, nat>,
                              key: K, s: nat, f: Flag)
    requires 0 < |flags| <= |keys|
    requires Indexed(hash, flags, keys, steps)
    requires key !in steps
    ensures var i := Pos(hash(key), s, |flags|);
            Indexed(hash, flags[i := f], keys[i := key], steps[key := s])
  {
    var n := |flags|;
    var i := Pos(hash(key), s, n);
    var flags', keys', steps' := flags[i := f], keys[i := key], steps[key := s];
    forall b: nat | b < n && Live(flags'[b])
      ensures keys'[b] in steps' && Pos(hash(keys'[b]), steps'[keys'[b]], n) == b
    {
      if b != i {
        assert Live(flags[b]);
      }
    }
  }

  /** Storing the carried entry in an empty new bucket on its walk. */
  lemma NewSideStore<K(!new), V>(hash: K -> nat, flags: seq<Flag>, keys: seq<K>, vals: seq<V>,
                                 m: map<K, V>, steps: map<K, nat>, key: K, s: nat)
    requires NewSide(hash, flags, keys, vals, m, steps)
    requires key !in steps && key in m && s < |flags|
    requires flags[Pos(hash(key), s, |flags|)].empty && Reach(flags, hash(key), s)
    ensures var i := Pos(hash(key), s, |flags|);
            NewSide(hash, flags[i := Filled(flags[i])], keys[i := key], vals[i := m[key]], m, steps[key := s])
  {
    var i := Pos(hash(key), s, |flags|);
    StorePlaced(hash, flags, keys, steps, key, s, Filled(flags[i]));
    StoreIndexed(hash, flags, keys, steps, key, s, Filled(flags[i]));
    NonEmptyFilled(flags, i, Filled(flags[i]));
    forall k | k in steps
      ensures Pos(hash(k), steps[k], |flags|) != i
    {
    }
  }

  /** While an entry is in hand, some new bucket is empty. */
  lemma RoomLeft<K(!new), V>(hash: K -> nat, oldFlags: seq<Flag>, newFlags: seq<Flag>,
                             keys: seq<K>, vals: seq<V>, m: map<K, V>,
                             steps: map<K, nat>, pending: map<K, nat>, key: K)
    requires Rehashing(hash, oldFlags, newFlags, keys, vals, m, steps, pending, {key})
    ensures |NonEmpty(newFlags)| < |m|
  {
    SplitSize(m, steps, pending, {key});
  }

  /** Picking up the entry of old bucket j. */
  lemma TakeOld<K(!new), V>(hash: K -> nat, oldFlags: seq<Flag>, newFlags: seq<Flag>,
                            keys: seq<K>, vals: seq<V>, m: map<K, V>,
                            steps: map<K, nat>, pending: map<K, nat>, j: nat)
    requires Rehashing(hash, oldFlags, newFlags, keys, vals, m, steps, pending, {})
    requires j < |oldFlags| && Live(oldFlags[j])
    ensures Rehashing(hash, oldFlags[j := Deleted(oldFlags[j])], newFlags, keys, vals, m,
                      steps, pending - {keys[j]}, {keys[j]})
    ensures keys[j] in m && m[keys[j]] == vals[j]
    ensures |pending - {keys[j]}| == |pending| - 1
  {
    OldSideTake(oldFlags, keys, vals, m, pending, j, keys[j], vals[j]);
    assert keys[j := keys[j]] == keys && vals[j := vals[j]] == vals;
    SplitTake(m, steps, pending, keys[j]);
  }

  /** The carried entry lands in a bucket that no old entry occupies. */
  lemma PlaceLast<K(!new), V>(hash: K -> nat, oldFlags: seq<Flag>, newFlags: seq<Flag>,
                              keys: seq<K>, vals: seq<V>, m: map<K, V>,
                              steps: map<K, nat>, pending: map<K, nat>, key: K, s: nat, i: nat)
    requires Rehashing(hash, oldFlags, newFlags, keys, vals, m, steps, pending, {key})
    requires s < |newFlags| && i == Pos(hash(key), s, |newFlags|)
    requires newFlags[i].empty && Reach(newFlags, hash(key), s)
    requires i < |oldFlags| ==> !Live(oldFlags[i])
    ensures key in m
    ensures Rehashing(hash, oldFlags, newFlags[i := Filled(newFlags[i])], keys[i := key],
                      vals[i := m[key]], m, steps[key := s], pending, {})
  {
    NewSideStore(hash, newFlags, keys, vals, m, steps, key, s);
    OldSideKeep(oldFlags, keys, vals, m, pending, i, key, m[key]);
    SplitPlace(m, steps, pending, key, s);
  }

  /** The carried entry replaces an old entry, which is carried on in its place. */
  lemma PlaceKick<K(!new), V>(hash: K -> nat, oldFlags: seq<Flag>, newFlags: seq<Flag>,
                              keys: seq<K>, vals: seq<V>, m: map<K, V>,
                              steps: map<K, nat>, pending: map<K, nat>, key: K, s: nat, i: nat)
    requires Rehashing(hash, oldFlags, newFlags, keys, vals, m, steps, pending, {key})
    requires s < |newFlags| && i == Pos(hash(key), s, |newFlags|)
    requires newFlags[i].empty && Reach(newFlags, hash(key), s)
    requires i < |oldFlags| && Live(oldFlags[i])
    ensures key in m && keys[i] in m && m[keys[i]] == vals[i]
    ensures |pending - {keys[i]}| == |pending| - 1
    ensures Rehashing(hash, oldFlags[i := Deleted(oldFlags[i])], newFlags[i := Filled(newFlags[i])],
                      keys[i := key], vals[i := m[key]], m,
                      steps[key := s], pending - {keys[i]}, {keys[i]})
  {
    NewSideStore(hash, newFlags, keys, vals, m, steps, key, s);
    OldSideTake(oldFlags, keys, vals, m, pending, i, key, m[key]);
    SplitPlace(m, steps, pending, key, s);
    SplitTake(m, steps[key := s], pending, keys[i]);
  }

  /** Where the stored keys are, as bucket numbers. */
  ghost function Homes<K(!new)>(hash: K -> nat, steps: map<K, nat>, n: nat): (homes: map<K, nat>)
    requires n == 0 ==> steps == map[]
  {
    map k | k in steps :: Pos(hash(k), steps[k], n)
  }

  /** The map the stored keys and values stand for. */
  ghost function Values<K(!new), V>(hash: K -> nat, vals: seq<V>, steps: map<K, nat>, n: nat): (m: map<K, V>)
    requires n <= |vals| && (n == 0 ==> steps == map[])
  {
    map k | k in steps :: vals[Pos(hash(k), steps[k], n)]
  }

  /** Before the first entry moves, everything is pending; the arrays may already have grown. */
  lemma StartRehash<K(!new), V>(hash: K -> nat, flags: seq<Flag>, newFlags: seq<Flag>, keys: seq<K>,
                                vals: seq<V>, grownKeys: seq<K>, grownVals: seq<V>,
                                steps: map<K, nat>, m: map<K, V>)
    requires |flags| == |keys| == |vals|
    requires keys <= grownKeys && vals <= grownVals && |grownKeys| == |grownVals|
    requires 0 < |newFlags| <= |grownKeys|
    requires forall i :: 0 <= i < |newFlags| ==> newFlags[i] == EMPTY
    requires |flags| == 0 ==> steps == map[]
    requires |flags| > 0 ==> Placed(hash, flags, keys, steps) && Indexed(hash, flags, keys, steps)
    requires m == Values(hash, vals, steps, |flags|)
    ensures Rehashing(hash, flags, newFlags, grownKeys, grownVals, m, map[], Homes(hash, steps, |flags|), {})
  {
    InitiallyEmpty(newFlags);
    var none: map<K, nat> := map[];
    assert NewSide(hash, newFlags, grownKeys, grownVals, m, none);
    assert OldSide(flags, grownKeys, grownVals, m, Homes(hash, steps, |flags|));
  }

  /** When no old bucket is live any more, everything has been placed. */
  lemma RehashDone<K(!new), V>(hash: K -> nat, oldFlags: seq<Flag>, newFlags: seq<Flag>,
                               keys: seq<K>, vals: seq<V>, m: map<K, V>,
                               steps: map<K, nat>, pending: map<K, nat>)
    requires Rehashing(hash, oldFlags, newFlags, keys, vals, m, steps, pending, {})
    requires NoneLive(oldFlags, |oldFlags|)
    ensures pending == map[] && steps.Keys == m.Keys
  {
    assert forall k :: k in pending ==> Live(oldFlags[pending[k]]);
  }

  /** Cutting the arrays down to the new size loses nothing. */
  lemma TruncateNewSide<K(!new), V>(hash: K -> nat, flags: seq<Flag>, keys: seq<K>, vals: seq<V>,
                                    keys': seq<K>, vals': seq<V>, m: map<K, V>, steps: map<K, nat>)
    requires NewSide(hash, flags, keys, vals, m, steps)
    requires keys' == keys[..|flags|] && vals' == vals[..|flags|]
    ensures NewSide(hash, flags, keys', vals', m, steps)
  {
    assert Placed(hash, flags, keys', steps);
    assert Indexed(hash, flags, keys', steps);
  }

  lemma SameSize<K, V, W>(a: map<K, V>, b: map<K, W>)
    requires a.Keys == b.Keys
    ensures |a| == |b|
  {
    assert |a| == |a.Keys| && |b| == |b.Keys|;
  }

  /** A walk that met neither the key nor a hole, and ends at a hole or after n steps, proves absence. */
  lemma Absent<K(!new)>(hash: K -> nat, flags: seq<Flag>, keys: seq<K>, steps: map<K, nat>, key: K, k: nat)
    requires 0 < |flags| <= |keys|
    requires Placed(hash, flags, keys, steps)
    requires Missed(hash, flags, keys, key, k)
    requires k >= |flags| || flags[Pos(hash(key), k, |flags|)].empty
    ensures key !in steps
  {
  }

  /** The first k buckets of the key's walk are neither empty nor hold the key. */
  ghost predicate Missed<K>(hash: K -> nat, flags: seq<Flag>, keys: seq<K>, key: K, k: nat)
    requires 0 < |flags| <= |keys|
  {
    forall j: nat :: j < k ==>
      && !flags[Pos(hash(key), j, |flags|)].empty
      && (flags[Pos(hash(key), j, |flags|)].del || keys[Pos(hash(key), j, |flags|)] != key)
  }

  ghost predicate NoneDeleted(flags: seq<Flag>) {
    forall i :: 0 <= i < |flags| ==> !flags[i].del
  }

  /** The table's invariant, on the values of its fields. */
  ghost predicate WellFormed<K(!new), V>(hash: K -> nat, nBuckets: nat, size: nat, nOccupied: nat, upperBound: nat,
                                         flags: seq<Flag>, keys: seq<K>, vals: seq<V>, steps: map<K, nat>)
  {
    && |flags| == |keys| == |vals| == nBuckets
    && size == |steps|
    && (nBuckets == 0 ==> steps == map[] && nOccupied == upperBound == 0)
    && (nBuckets != 0 ==>
          && IsPow2(nBuckets) && nBuckets >= 4
          && (forall i :: 0 <= i < nBuckets && flags[i].empty ==> !flags[i].del)
          && Placed(hash, flags, keys, steps)
          && Indexed(hash, flags, keys, steps)
          && nOccupied == |NonEmpty(flags)|
          && upperBound == UpperBound(nBuckets)
          && nOccupied <= upperBound)
  }

  /** A finished rehash is a well-formed table without tombstones, standing for the same map. */
  lemma RehashedWellFormed<K(!new), V>(hash: K -> nat, flags: seq<Flag>, keys: seq<K>, vals: seq<V>,
                                       m: map<K, V>, steps: map<K, nat>)
    requires NewSide(hash, flags, keys, vals, m, steps)
    requires steps.Keys == m.Keys && |keys| == |flags| && IsPow2(|flags|) && |flags| >= 4
    requires |m| < UpperBound(|flags|)
    ensures WellFormed(hash, |flags|, |m|, |m|, UpperBound(|flags|), flags, keys, vals, steps)
    ensures Values(hash, vals, steps, |flags|) == m
    ensures NoneDeleted(flags)
  {
    SameSize(steps, m);
  }

  lemma ValuesSize<K(!new), V>(hash: K -> nat, vals: seq<V>, steps: map<K, nat>, n: nat)
    requires n <= |vals| && (n == 0 ==> steps == map[])
    ensures |Values(hash, vals, steps, n)| == |steps|
    ensures Values(hash, vals, steps, n).Keys == steps.Keys
  {
    SameSize(Values(hash, vals, steps, n), steps);
  }

  lemma {:induction false} InjectiveImage<K>(s: set<K>, f: map<K, nat>, t: set<nat>)
    requires s <= f.Keys
    requires forall k :: k in s ==> f[k] in t
    requires forall k, l :: k in s && l in s && k != l ==> f[k] != f[l]
    ensures |s| <= |t|
  {
    if k :| k in s {
      InjectiveImage(s - {k}, f, t - {f[k]});
    }
  }

  /** There are at least as many occupied buckets as keys. */
  lemma SizeAtMostOccupied<K(!new), V>(hash: K -> nat, n: nat, size: nat, occ: nat, ub: nat,
                                       flags: seq<Flag>, keys: seq<K>, vals: seq<V>, steps: map<K, nat>)
    requires WellFormed(hash, n, size, occ, ub, flags, keys, vals, steps)
    ensures size <= occ
  {
    if n > 0 {
      var homes := Homes(hash, steps, n);
      forall k | k in steps
        ensures homes[k] in NonEmpty(flags) && keys[homes[k]] == k
      {
      }
      InjectiveImage(steps.Keys, homes, NonEmpty(flags));
    }
  }

  /** Storing a new key in the free bucket its search ended at. */
  lemma PutWellFormed<K(!new), V>(hash: K -> nat, n: nat, size: nat, occ: nat, ub: nat,
                                  flags: seq<Flag>, keys: seq<K>, vals: seq<V>, steps: map<K, nat>,
                                  key: K, s: nat, x: nat)
    requires WellFormed(hash, n, size, occ, ub, flags, keys, vals, steps)
    requires n != 0 && occ < ub && key !in steps
    requires s < n && x == Pos(hash(key), s, n) && !Live(flags[x]) && Reach(flags, hash(key), s)
    ensures WellFormed(hash, n, size + 1, if flags[x].empty then occ + 1 else occ, ub,
                       flags[x := Flag(false, false)], keys[x := key], vals, steps[key := s])
  {
    hide Placed, Indexed, NonEmpty, Values;
    var f := Flag(false, false);
    StorePlaced(hash, flags, keys, steps, key, s, f);
    StoreIndexed(hash, flags, keys, steps, key, s, f);
    if flags[x].empty {
      NonEmptyFilled(flags, x, f);
    } else {
      NonEmptyKept(flags, x, f);
    }
    assert steps[key := s].Keys == steps.Keys + {key};
  }

  lemma PutValues<K(!new), V>(hash: K -> nat, vals: seq<V>, steps: map<K, nat>, n: nat, key: K, s: nat)
    requires 0 < n <= |vals|
    ensures Values(hash, vals, steps[key := s], n) ==
            Values(hash, vals, steps, n)[key := vals[Pos(hash(key), s, n)]]
  {
  }

  lemma SetValues<K(!new), V>(hash: K -> nat, n: nat, size: nat, occ: nat, ub: nat,
                              flags: seq<Flag>, keys: seq<K>, vals: seq<V>, steps: map<K, nat>, x: nat, v: V)
    requires WellFormed(hash, n, size, occ, ub, flags, keys, vals, steps)
    requires x < n && Live(flags[x])
    ensures WellFormed(hash, n, size, occ, ub, flags, keys, vals[x := v], steps)
    ensures Values(hash, vals[x := v], steps, n) == Values(hash, vals, steps, n)[keys[x] := v]
  {
    assert keys[x] in steps && Pos(hash(keys[x]), steps[keys[x]], n) == x;
    forall k | k in steps && k != keys[x]
      ensures Pos(hash(k), steps[k], n) != x
    {
    }
  }

  /** Marking a live bucket deleted takes its key out and moves nothing else. */
  lemma DeleteWellFormed<K(!new), V>(hash: K -> nat, n: nat, size: nat, occ: nat, ub: nat,
                                     flags: seq<Flag>, keys: seq<K>, vals: seq<V>, steps: map<K, nat>, x: nat)
    requires WellFormed(hash, n, size, occ, ub, flags, keys, vals, steps)
    requires x < n && Live(flags[x])
    ensures keys[x] in steps && size >= 1
    ensures WellFormed(hash, n, size - 1, occ, ub, flags[x := Deleted(flags[x])], keys, vals, steps - {keys[x]})
    ensures Values(hash, vals, steps - {keys[x]}, n) == Values(hash, vals, steps, n) - {keys[x]}
  {
    NonEmptyKept(flags, x, Deleted(flags[x]));
    var flags', steps' := flags[x := Deleted(flags[x])], steps - {keys[x]};
    assert steps'.Keys == steps.Keys - {keys[x]};
    DeletePlaced(hash, flags, keys, steps, x);
    assert Indexed(hash, flags', keys, steps') by {
      forall b: nat | b < n && Live(flags'[b])
        ensures keys[b] in steps' && Pos(hash(keys[b]), steps'[keys[b]], n) == b
      {
        assert Live(flags[b]) && b != x;
      }
    }
  }

  lemma DeletePlaced<K(!new)>(hash: K -> nat, flags: seq<Flag>, keys: seq<K>, steps: map<K, nat>, x: nat)
    requires 0 < |flags| <= |keys| && x < |flags| && Live(flags[x])
    requires Placed(hash, flags, keys, steps)
    ensures Placed(hash, flags[x := Deleted(flags[x])], keys, steps - {keys[x]})
  {
    var flags', steps' := flags[x := Deleted(flags[x])], steps - {keys[x]};
    forall k | k in steps'
      ensures Live(flags'[Pos(hash(k), steps'[k], |flags|)]) && Reach(flags', hash(k), steps'[k])
    {
      assert k in steps && Reach(flags, hash(k), steps[k]);
    }
  }

  // ---- the table -------------------------------------------------------

  /** The numbers of a well-formed table: there is always an empty bucket once it is allocated. */
  lemma Counts<K(!new), V>(hash: K -> nat, n: nat, size: nat, occ: nat, ub: nat,
                           flags: seq<Flag>, keys: seq<K>, vals: seq<V>, steps: map<K, nat>)
    requires WellFormed(hash, n, size, occ, ub, flags, keys, vals, steps)
    ensures size <= occ <= ub
    ensures n == 0 ==> size == occ == ub == 0
    ensures n > 0 ==> IsPow2(n) && n >= 4 && ub == UpperBound(n) < n
  {
    SizeAtMostOccupied(hash, n, size, occ, ub, flags, keys, vals, steps);
  }

  lemma KeysOf<K(!new), V>(hash: K -> nat, vals: seq<V>, steps: map<K, nat>, n: nat, key: K)
    requires n == |vals| && (steps != map[] ==> n > 0)
    ensures key in Values(hash, vals, steps, n) <==> key in steps
  {
  }

  /** A key of the table is live in its bucket, which holds its value. */
  lemma FoundAt<K(!new), V>(hash: K -> nat, n: nat, size: nat, occ: nat, ub: nat,
                            flags: seq<Flag>, keys: seq<K>, vals: seq<V>, steps: map<K, nat>, key: K)
    requires WellFormed(hash, n, size, occ, ub, flags, keys, vals, steps) && key in steps
    ensures n > 0 && var x := Pos(hash(key), steps[key], n);
            x < |flags| == |keys| == |vals| && Live(flags[x]) && keys[x] == key
            && key in Values(hash, vals, steps, n) && Values(hash, vals, steps, n)[key] == vals[x]
  {
  }

  // ---- the search of a lookup --------------------------------------------

  lemma NoBuckets<K(!new), V>(hash: K -> nat, n: nat, size: nat, occ: nat, ub: nat,
                              flags: seq<Flag>, keys: seq<K>, vals: seq<V>, steps: map<K, nat>)
    requires WellFormed(hash, n, size, occ, ub, flags, keys, vals, steps)
    ensures n == |vals| && (steps != map[] ==> n > 0)
  {
    hide UpperBound, Placed, Indexed;
  }

  lemma SizeIs<K(!new), V>(hash: K -> nat, n: nat, size: nat, occ: nat, ub: nat,
                           flags: seq<Flag>, keys: seq<K>, vals: seq<V>, steps: map<K, nat>)
    requires WellFormed(hash, n, size, occ, ub, flags, keys, vals, steps)
    ensures size == |steps| && |flags| == |keys| == |vals| == n
  {
    hide UpperBound, Placed, Indexed;
  }

  lemma MissedNone<K>(hash: K -> nat, flags: seq<Flag>, keys: seq<K>, key: K)
    requires 0 < |flags| <= |keys|
    ensures Missed(hash, flags, keys, key, 0)
  {
  }

  lemma MissedNext<K>(hash: K -> nat, flags: seq<Flag>, keys: seq<K>, key: K, step: nat)
    requires 0 < |flags| <= |keys| && Missed(hash, flags, keys, key, step)
    requires var i := Pos(hash(key), step, |flags|); !flags[i].empty && (flags[i].del || keys[i] != key)
    ensures Missed(hash, flags, keys, key, step + 1)
  {
  }

  lemma LookupFails<K(!new), V>(hash: K -> nat, n: nat, size: nat, occ: nat, ub: nat,
                                flags: seq<Flag>, keys: seq<K>, vals: seq<V>, steps: map<K, nat>, key: K, step: nat)
    requires WellFormed(hash, n, size, occ, ub, flags, keys, vals, steps) && 0 < n
    requires Missed(hash, flags, keys, key, step) && (step >= n || flags[Pos(hash(key), step, n)].empty)
    ensures key !in steps
  {
    hide UpperBound, Pos;
    Absent(hash, flags, keys, steps, key, step);
  }

  // ---- the search of an insertion ---------------------------------------

  /** After some steps without the key and without an empty bucket: the last tombstone met, if any. */
  ghost predicate Walking<K>(hash: K -> nat, flags: seq<Flag>, keys: seq<K>, key: K, step: nat, site: nat,
                             siteStep: nat)
    requires 0 < |flags| <= |keys|
  {
    && Missed(hash, flags, keys, key, step)
    && (if site == |flags| then ClearWalk(flags, hash(key), 0, step)
        else && siteStep < step && site == Pos(hash(key), siteStep, |flags|)
             && flags[site].del && !flags[site].empty && ClearWalk(flags, hash(key), siteStep + 1, step))
  }

  lemma WalkStart<K>(hash: K -> nat, flags: seq<Flag>, keys: seq<K>, key: K)
    requires 0 < |flags| <= |keys|
    ensures Walking(hash, flags, keys, key, 0, |flags|, 0)
  {
  }

  lemma WalkNext<K>(hash: K -> nat, flags: seq<Flag>, keys: seq<K>, key: K, step: nat, site: nat, siteStep: nat)
    requires 0 < |flags| <= |keys| && Walking(hash, flags, keys, key, step, site, siteStep)
    requires var i := Pos(hash(key), step, |flags|); !flags[i].empty && (flags[i].del || keys[i] != key)
    ensures var i := Pos(hash(key), step, |flags|);
            if flags[i].del then Walking(hash, flags, keys, key, step + 1, i, step)
            else Walking(hash, flags, keys, key, step + 1, site, siteStep)
  {
  }

  /** The walk of a new key ends before it has seen n buckets. */
  lemma WalkShort<K(!new), V>(hash: K -> nat, n: nat, size: nat, occ: nat, ub: nat,
                              flags: seq<Flag>, keys: seq<K>, vals: seq<V>, steps: map<K, nat>,
                              key: K, step: nat, site: nat, siteStep: nat)
    requires WellFormed(hash, n, size, occ, ub, flags, keys, vals, steps) && 0 < n && occ < n
    requires Walking(hash, flags, keys, key, step, site, siteStep)
    ensures step < n
  {
    hide UpperBound, Pos, ClearWalk;
    if step >= n {
      WalkedFull(flags, hash(key), step);
    }
  }

  lemma WalkEmpty<K(!new), V>(hash: K -> nat, n: nat, size: nat, occ: nat, ub: nat,
                              flags: seq<Flag>, keys: seq<K>, vals: seq<V>, steps: map<K, nat>,
                              key: K, step: nat, site: nat, siteStep: nat)
    requires WellFormed(hash, n, size, occ, ub, flags, keys, vals, steps) && step < n
    requires Walking(hash, flags, keys, key, step, site, siteStep) && flags[Pos(hash(key), step, n)].empty
    ensures key !in steps && (site != n ==> site == Pos(hash(key), siteStep, n))
    ensures var s := if site == n then step else siteStep;
            s < n && NewSlot(flags, hash(key), s, step) && Reach(flags, hash(key), s)
                && !Live(flags[Pos(hash(key), s, n)])
  {
    hide UpperBound, Pos;
    Absent(hash, flags, keys, steps, key, step);
  }

  lemma WalkFound<K(!new), V>(hash: K -> nat, n: nat, size: nat, occ: nat, ub: nat,
                              flags: seq<Flag>, keys: seq<K>, vals: seq<V>, steps: map<K, nat>, i: nat)
    requires WellFormed(hash, n, size, occ, ub, flags, keys, vals, steps) && i < n && Live(flags[i])
    ensures keys[i] in steps && steps[keys[i]] < n && Pos(hash(keys[i]), steps[keys[i]], n) == i
  {
    hide UpperBound, Pos;
  }

  class Table<K(!new, ==, 0), V(0)> {
    const hash: K -> nat
    var nBuckets: nat
    var size: nat
    var nOccupied: nat
    var upperBound: nat
    var flags: array<Flag>
    var keys: array<K>
    var vals: array<V>

    ghost var steps: map<K, nat>

    ghost predicate Valid()
      reads this, flags, keys, vals
    {
      && flags.Length == keys.Length == vals.Length == nBuckets
      && flags as object != keys as object && keys as object != vals as object && flags as object != vals as object
      && WellFormed(hash, nBuckets, size, nOccupied, upperBound, flags[..], keys[..], vals[..], steps)
    }

    /** The mathematical map the table stands for. */
    ghost function Model(): (m: map<K, V>)
      reads this, flags, keys, vals
      requires Valid()
    {
      Values(hash, vals[..], steps, nBuckets)
    }

    /** No bucket is a tombstone: the case of a table from which nothing was ever deleted. */
    ghost predicate NoTombstones()
      reads this, flags
    {
      NoneDeleted(flags[..])
    }

    constructor (hash: K -> nat)
      ensures Valid() && Model() == map[] && NoTombstones()
      ensures nBuckets == 0 && this.hash == hash
      ensures fresh(flags) && fresh(keys) && fresh(vals)
    {
      this.hash := hash;
      nBuckets, size, nOccupied, upperBound := 0, 0, 0, 0;
      flags := new Flag[0];
      keys := new K[0];
      vals := new V[0];
      steps := map[];
    }

    /** Looks a key up; nBuckets stands for "not there". */
    method Get(key: K) returns (x: nat)
      requires Valid()
      ensures x <= nBuckets
      ensures x == nBuckets <==> key !in Model()
      ensures x < nBuckets ==> keys[x] == key && vals[x] == Model()[key]
    {
      hide WellFormed, Values, Missed, Tri, IsPow2;
      ghost var fs, ks, vs := flags[..], keys[..], vals[..];
      Counts(hash, nBuckets, size, nOccupied, upperBound, fs, ks, vs, steps);
      NoBuckets(hash, nBuckets, size, nOccupied, upperBound, fs, ks, vs, steps);
      KeysOf(hash, vs, steps, nBuckets, key);
      if nBuckets == 0 {
        return 0;
      }
      ghost var h := hash(key);
      var step: nat := 0;
      var i := hash(key) % nBuckets;
      PosStart(h, nBuckets);
      MissedNone(hash, fs, ks, key);
      var last := i;
      while !flags[i].empty && (flags[i].del || keys[i] != key)
        invariant step < 2 * nBuckets - 1
        invariant i == Pos(h, step, nBuckets)
        invariant Missed(hash, fs, ks, key, step)
        decreases 2 * nBuckets - step
      {
        MissedNext(hash, fs, ks, key, step);
        PosNext(h, step, nBuckets);
        step := step + 1;
        i := (i + step) % nBuckets;
        FirstReturn(h, step, nBuckets);
        if i == last {
          LookupFails(hash, nBuckets, size, nOccupied, upperBound, fs, ks, vs, steps, key, step);
          return nBuckets;
        }
      }
      if flags[i].empty || flags[i].del {
        LookupFails(hash, nBuckets, size, nOccupied, upperBound, fs, ks, vs, steps, key, step);
        x := nBuckets;
      } else {
        WalkFound(hash, nBuckets, size, nOccupied, upperBound, fs, ks, vs, steps, i);
        FoundAt(hash, nBuckets, size, nOccupied, upperBound, fs, ks, vs, steps, key);
        x := i;
      }
    }

    /**
     The search of an insertion: the bucket of the key if it is stored, and
     otherwise the last tombstone before the first empty bucket of its walk, or
     that empty bucket if it meets no tombstone.
     */
    method FindSlot(key: K) returns (x: nat, ghost s: nat, ghost e: nat)
      requires Valid() && nBuckets != 0 && nOccupied < nBuckets
      ensures x < nBuckets && s < nBuckets && x == Pos(hash(key), s, nBuckets)
      ensures key in steps ==> s == steps[key]
      ensures key !in steps ==> !Live(flags[x]) && Reach(flags[..], hash(key), s) && NewSlot(flags[..], hash(key), s, e)
      ensures NoTombstones() ==> !flags[x].del
    {
      hide WellFormed, Walking, NewSlot, Reach, Pos, IsPow2, UpperBound, Placed, Indexed, ClearWalk;
      ghost var h := hash(key);
      ghost var fs, ks, vs := flags[..], keys[..], vals[..];
      Counts(hash, nBuckets, size, nOccupied, upperBound, fs, ks, vs, steps);
      WalkStart(hash, fs, ks, key);
      PosStart(h, nBuckets);
      s, e := 0, 0;
      var site: nat := nBuckets;
      ghost var siteStep: nat := 0;
      x := nBuckets;
      var i := hash(key) % nBuckets;
      if flags[i].empty {
        WalkEmpty(hash, nBuckets, size, nOccupied, upperBound, fs, ks, vs, steps, key, 0, site, siteStep);
        return i, 0, 0;
      }
      var last := i;
      var step: nat := 0;
      while !flags[i].empty && (flags[i].del || keys[i] != key)
        invariant step < nBuckets && site <= nBuckets
        invariant i == Pos(h, step, nBuckets)
        invariant Walking(hash, fs, ks, key, step, site, siteStep)
        invariant x == nBuckets
        decreases nBuckets - step
      {
        WalkNext(hash, fs, ks, key, step, site, siteStep);
        if flags[i].del {
          site, siteStep := i, step;
        }
        PosNext(h, step, nBuckets);
        step := step + 1;
        i := (i + step) % nBuckets;
        WalkShort(hash, nBuckets, size, nOccupied, upperBound, fs, ks, vs, steps, key, step, site, siteStep);
        FirstReturn(h, step, nBuckets);
        if i == last {
          x := site;
          break;
        }
      }
      if x == nBuckets {
        if flags[i].empty && site != nBuckets {
          x, s, e := site, siteStep, step;
          WalkEmpty(hash, nBuckets, size, nOccupied, upperBound, fs, ks, vs, steps, key, step, site, siteStep);
        } else {
          x := i;
          if flags[i].empty {
            s, e := step, step;
            WalkEmpty(hash, nBuckets, size, nOccupied, upperBound, fs, ks, vs, steps, key, step, site, siteStep);
          } else {
            WalkFound(hash, nBuckets, size, nOccupied, upperBound, fs, ks, vs, steps, i);
            s := steps[key];
          }
        }
      }
    }

    /** Growing the table's arrays when needed; the old contents stay in place. */
    static method Realloc<T(0)>(a: array<T>, n: nat) returns (b: array<T>)
      ensures fresh(b) && b.Length == n
      ensures n <= a.Length ==> b[..] == a[..n]
      ensures a.Length <= n ==> a[..] <= b[..]
    {
      b := new T[n];
      for i := 0 to n
        invariant forall j :: 0 <= j < i && j < a.Length ==> b[j] == a[j]
      {
        if i < a.Length {
          b[i] := a[i];
        }
      }
    }

    /** The first empty new bucket on the key's walk. */
    static method FindEmpty(hash: K -> nat, newFlags: array<Flag>, key: K) returns (i: nat, ghost step: nat)
      requires IsPow2(newFlags.Length)
      requires |NonEmpty(newFlags[..])| < newFlags.Length
      ensures step < newFlags.Length && i == Pos(hash(key), step, newFlags.Length)
      ensures newFlags[i].empty && Reach(newFlags[..], hash(key), step)
    {
      var n := newFlags.Length;
      var st := 0;
      i := hash(key) % n;
      while !newFlags[i].empty
        invariant st < n && i == Pos(hash(key), st, n)
        invariant Reach(newFlags[..], hash(key), st)
        decreases n - st
      {
        PosNext(hash(key), st, n);
        st := st + 1;
        i := (i + st) % n;
        if st == n {
          WalkedFull(newFlags[..], hash(key), st);
        }
      }
      step := st;
    }

    /** The arrays of a rehash are four different objects. */
    static predicate Distinct(flags: array<Flag>, newFlags: array<Flag>, keys: array<K>, vals: array<V>) {
      && flags != newFlags && keys as object != vals as object
      && flags as object != keys as object && newFlags as object != keys as object
      && flags as object != vals as object && newFlags as object != vals as object
    }

    static method MarkDeleted(flags: array<Flag>, i: nat)
      requires i < flags.Length
      modifies flags
      ensures flags[..] == old(flags[..][i := Deleted(flags[i])])
      ensures !Live(flags[i])
      ensures StayDead(old(flags[..]), flags[..])
    {
      flags[i] := Deleted(flags[i]);
    }

    static method Store(flags: array<Flag>, keys: array<K>, vals: array<V>, i: nat, key: K, val: V)
      requires i < flags.Length && i < keys.Length && i < vals.Length
      requires keys as object != vals as object && flags as object != keys as object
               && flags as object != vals as object
      modifies flags, keys, vals
      ensures flags[..] == old(flags[..][i := Filled(flags[i])])
      ensures keys[..] == old(keys[..])[i := key]
      ensures vals[..] == old(vals[..])[i := val]
    {
      flags[i] := Filled(flags[i]);
      keys[i] := key;
      vals[i] := val;
    }

    /** One turn of the kick-out loop: the carried entry is placed; what it displaces is carried on. */
    static method KickStep(hash: K -> nat, flags: array<Flag>, newFlags: array<Flag>,
                           keys: array<K>, vals: array<V>, inKey: K, inVal: V,
                           ghost m: map<K, V>, ghost steps: map<K, nat>, ghost pending: map<K, nat>)
      returns (done: bool, key: K, val: V, ghost steps': map<K, nat>, ghost pending': map<K, nat>)
      requires Distinct(flags, newFlags, keys, vals)
      requires IsPow2(newFlags.Length) && |m| < newFlags.Length
      requires inKey in m && m[inKey] == inVal
      requires Rehashing(hash, flags[..], newFlags[..], keys[..], vals[..], m, steps, pending, {inKey})
      modifies flags, newFlags, keys, vals
      ensures Rehashing(hash, flags[..], newFlags[..], keys[..], vals[..], m, steps', pending',
                        if done then {} else {key})
      ensures key in m && m[key] == val
      ensures done || |pending'| < |pending|
      ensures StayDead(old(flags[..]), flags[..])
    {
      hide Placed, Indexed, NonEmpty, Values;
      ghost var of, nf, ks, vs := flags[..], newFlags[..], keys[..], vals[..];
      RoomLeft(hash, of, nf, ks, vs, m, steps, pending, inKey);
      var i, s := FindEmpty(hash, newFlags, inKey);
      steps' := steps[inKey := s];
      if i < flags.Length && Live(flags[i]) {
        PlaceKick(hash, of, nf, ks, vs, m, steps, pending, inKey, s, i);
        pending' := pending - {ks[i]};
        key, val, done := keys[i], vals[i], false;
        Store(newFlags, keys, vals, i, inKey, inVal);
        MarkDeleted(flags, i);
      } else {
        PlaceLast(hash, of, nf, ks, vs, m, steps, pending, inKey, s, i);
        pending' := pending;
        key, val, done := inKey, inVal, true;
        Store(newFlags, keys, vals, i, inKey, inVal);
      }
    }

    /** The kick-out loop: carries one entry, and whatever it displaces, to the new places. */
    static method KickOut(hash: K -> nat, flags: array<Flag>, newFlags: array<Flag>,
                          keys: array<K>, vals: array<V>, firstKey: K, firstVal: V,
                          ghost m: map<K, V>, ghost steps0: map<K, nat>, ghost pending0: map<K, nat>)
      returns (ghost steps: map<K, nat>, ghost pending: map<K, nat>)
      requires Distinct(flags, newFlags, keys, vals)
      requires IsPow2(newFlags.Length) && |m| < newFlags.Length
      requires firstKey in m && m[firstKey] == firstVal
      requires Rehashing(hash, flags[..], newFlags[..], keys[..], vals[..], m, steps0, pending0, {firstKey})
      modifies flags, newFlags, keys, vals
      ensures Rehashing(hash, flags[..], newFlags[..], keys[..], vals[..], m, steps, pending, {})
      ensures StayDead(old(flags[..]), flags[..])
    {
      var key, val := firstKey, firstVal;
      steps, pending := steps0, pending0;
      var done := false;
      while !done
        invariant key in m && m[key] == val
        invariant Rehashing(hash, flags[..], newFlags[..], keys[..], vals[..], m, steps, pending,
                            if done then {} else {key})
        invariant StayDead(old(flags[..]), flags[..])
        decreases !done, |pending|
      {
        done, key, val, steps, pending :=
          KickStep(hash, flags, newFlags, keys, vals, key, val, m, steps, pending);
      }
    }

    /** One turn of the outer loop: if old bucket j is live, its entry moves. */
    static method RehashBucket(hash: K -> nat, flags: array<Flag>, newFlags: array<Flag>,
                               keys: array<K>, vals: array<V>, j: nat,
                               ghost m: map<K, V>, ghost steps: map<K, nat>, ghost pending: map<K, nat>)
      returns (ghost steps': map<K, nat>, ghost pending': map<K, nat>)
      requires Distinct(flags, newFlags, keys, vals)
      requires IsPow2(newFlags.Length) && |m| < newFlags.Length && j < flags.Length
      requires Rehashing(hash, flags[..], newFlags[..], keys[..], vals[..], m, steps, pending, {})
      modifies flags, newFlags, keys, vals
      ensures Rehashing(hash, flags[..], newFlags[..], keys[..], vals[..], m, steps', pending', {})
      ensures !Live(flags[..][j])
      ensures StayDead(old(flags[..]), flags[..])
    {
      steps', pending' := steps, pending;
      if Live(flags[j]) {
        var key, val := keys[j], vals[j];
        TakeOld(hash, flags[..], newFlags[..], keys[..], vals[..], m, steps, pending, j);
        MarkDeleted(flags, j);
        steps', pending' := KickOut(hash, flags, newFlags, keys, vals, key, val, m, steps, pending - {key});
      }
    }

    /** The outer loop of a rehash: picks up the old entries bucket by bucket. */
    static method RehashAll(hash: K -> nat, flags: array<Flag>, newFlags: array<Flag>,
                            keys: array<K>, vals: array<V>, ghost m: map<K, V>, ghost pending0: map<K, nat>)
      returns (ghost steps: map<K, nat>)
      requires Distinct(flags, newFlags, keys, vals)
      requires IsPow2(newFlags.Length) && |m| < newFlags.Length
      requires Rehashing(hash, flags[..], newFlags[..], keys[..], vals[..], m, map[], pending0, {})
      modifies flags, newFlags, keys, vals
      ensures NewSide(hash, newFlags[..], keys[..], vals[..], m, steps)
      ensures steps.Keys == m.Keys
    {
      ghost var pending := pending0;
      steps := map[];
      for j := 0 to flags.Length
        invariant Rehashing(hash, flags[..], newFlags[..], keys[..], vals[..], m, steps, pending, {})
        invariant NoneLive(flags[..], j)
      {
        ghost var before := flags[..];
        steps, pending := RehashBucket(hash, flags, newFlags, keys, vals, j, m, steps, pending);
        DeadExtend(before, flags[..], j);
      }
      RehashDone(hash, flags[..], newFlags[..], keys[..], vals[..], m, steps, pending);
    }

    method Grow(n: nat) returns (newKeys: array<K>, newVals: array<V>)
      requires flags.Length == keys.Length == vals.Length == nBuckets
      requires keys as object != vals as object
      ensures newKeys.Length == newVals.Length && newKeys.Length == (if nBuckets < n then n else nBuckets)
      ensures (newKeys == keys && newVals == vals) || (fresh(newKeys) && fresh(newVals))
      ensures newKeys as object != newVals as object
      ensures keys[..] <= newKeys[..] && vals[..] <= newVals[..]
    {
      newKeys, newVals := keys, vals;
      if nBuckets < n {
        newKeys := Realloc(keys, n);
        newVals := Realloc(vals, n);
      }
    }

    static method Shrink(hash: K -> nat, newFlags: array<Flag>, keys: array<K>, vals: array<V>,
                         ghost m: map<K, V>, ghost steps: map<K, nat>)
      returns (newKeys: array<K>, newVals: array<V>)
      requires NewSide(hash, newFlags[..], keys[..], vals[..], m, steps)
      ensures fresh(newKeys) && fresh(newVals) && newKeys as object != newVals as object
      ensures newKeys.Length == newVals.Length == newFlags.Length
      ensures NewSide(hash, newFlags[..], newKeys[..], newVals[..], m, steps)
    {
      newKeys := Realloc(keys, newFlags.Length);
      newVals := Realloc(vals, newFlags.Length);
      TruncateNewSide(hash, newFlags[..], keys[..], vals[..], newKeys[..], newVals[..], m, steps);
    }

    /** The rehash proper: allocates the new flags, reallocates the arrays, and moves every entry. */
    method Rebuild(n: nat) returns (newFlags: array<Flag>, newKeys: array<K>, newVals: array<V>,
                                    ghost newSteps: map<K, nat>)
      requires Valid() && IsPow2(n) && size < n
      modifies flags, keys, vals
      ensures newFlags.Length == newKeys.Length == newVals.Length == n
      ensures fresh(newFlags) && (newKeys == keys || fresh(newKeys)) && (newVals == vals || fresh(newVals))
      ensures newKeys as object != newVals as object
      ensures newFlags as object != newKeys as object && newFlags as object != newVals as object
      ensures NewSide(hash, newFlags[..], newKeys[..], newVals[..], old(Model()), newSteps)
      ensures newSteps.Keys == old(Model()).Keys
    {
      hide NewSide, Rehashing, Placed, Indexed, NonEmpty, Values;
      ghost var m := Model();
      ValuesSize(hash, vals[..], steps, nBuckets);
      newFlags := new Flag[n](_ => EMPTY);
      newKeys, newVals := Grow(n);
      StartRehash(hash, flags[..], newFlags[..], keys[..], vals[..], newKeys[..], newVals[..], steps, m);
      newSteps := RehashAll(hash, flags, newFlags, newKeys, newVals, m, Homes(hash, steps, nBuckets));
      if nBuckets > n {
        newKeys, newVals := Shrink(hash, newFlags, newKeys, newVals, m, newSteps);
      }
    }

    /** Growing, shrinking or cleaning the table leaves the map it stands for unchanged. */
    method Resize(request: nat) returns (r: int)
      requires Valid()
      modifies this, flags, keys, vals
      ensures Valid() && Model() == old(Model()) && r == 0
      ensures size == old(size)
      ensures old(size) >= UpperBound(NewSize(request)) ==>
                nBuckets == old(nBuckets) && nOccupied == old(nOccupied) && (old(NoTombstones()) ==> NoTombstones())
      ensures old(size) < UpperBound(NewSize(request)) ==>
                nBuckets == NewSize(request) && nOccupied == size < upperBound && NoTombstones()
      ensures flags == old(flags) || fresh(flags)
      ensures keys == old(keys) || fresh(keys)
      ensures vals == old(vals) || fresh(vals)
    {
      var n := NewSize(request);
      if size >= UpperBound(n) {
        return 0;
      }
      ResizeTo(n);
      r := 0;
    }

    method ResizeTo(n: nat)
      requires Valid() && IsPow2(n) && n >= 4 && size < UpperBound(n)
      modifies this, flags, keys, vals
      ensures Valid() && Model() == old(Model())
      ensures size == old(size) == nOccupied < upperBound && nBuckets == n && NoTombstones()
      ensures flags == old(flags) || fresh(flags)
      ensures keys == old(keys) || fresh(keys)
      ensures vals == old(vals) || fresh(vals)
    {
      hide IsPow2, NewSide, WellFormed, Values, UpperBound, NoneDeleted;
      ghost var m := Model();
      NoBuckets(hash, nBuckets, size, nOccupied, upperBound, flags[..], keys[..], vals[..], steps);
      SizeIs(hash, nBuckets, size, nOccupied, upperBound, flags[..], keys[..], vals[..], steps);
      var newFlags, newKeys, newVals, newSteps := Rebuild(n);
      ValuesSize(hash, old(vals[..]), steps, nBuckets);
      RehashedWellFormed(hash, newFlags[..], newKeys[..], newVals[..], m, newSteps);
      flags, keys, vals, steps := newFlags, newKeys, newVals, newSteps;
      nBuckets := n;
      nOccupied := size;
      upperBound := UpperBound(nBuckets);
    }

    /** Rehashes at the same size, which clears the tombstones. */
    method Clean()
      requires Valid() && nBuckets < MAX_BUCKETS && nBuckets > 2 * size
      modifies this, flags, keys, vals
      ensures Valid() && Model() == old(Model()) && NoTombstones()
      ensures nBuckets == old(nBuckets) && nOccupied < upperBound
      ensures flags == old(flags) || fresh(flags)
      ensures keys == old(keys) || fresh(keys)
      ensures vals == old(vals) || fresh(vals)
    {
      hide WellFormed, Values, NoneDeleted, NewSize, UpperBound;
      Counts(hash, nBuckets, size, nOccupied, upperBound, flags[..], keys[..], vals[..], steps);
      RoomRequest(nBuckets, size);
      var r := Resize(nBuckets - 1);
    }

    /** Rehashes at twice the size. */
    method Expand()
      requires Valid() && nBuckets < MAX_BUCKETS && nBuckets <= 2 * size
      modifies this, flags, keys, vals
      ensures Valid() && Model() == old(Model()) && NoTombstones()
      ensures nBuckets == (if old(nBuckets) == 0 then 4 else 2 * old(nBuckets)) && nOccupied < upperBound
      ensures flags == old(flags) || fresh(flags)
      ensures keys == old(keys) || fresh(keys)
      ensures vals == old(vals) || fresh(vals)
    {
      hide WellFormed, Values, NoneDeleted, NewSize, UpperBound;
      Counts(hash, nBuckets, size, nOccupied, upperBound, flags[..], keys[..], vals[..], steps);
      RoomRequest(nBuckets, size);
      var r := Resize(nBuckets + 1);
    }

    /** Makes room before an insertion: cleans tombstones or doubles the table. */
    method EnsureRoom()
      requires Valid() && nBuckets < MAX_BUCKETS
      modifies this, flags, keys, vals
      ensures Valid() && Model() == old(Model())
      ensures nBuckets != 0 && nOccupied < upperBound
      ensures nBuckets == if old(nOccupied < upperBound || nBuckets > 2 * size) then old(nBuckets)
                          else if old(nBuckets) == 0 then 4 else 2 * old(nBuckets)
      ensures if old(nOccupied < upperBound)
              then nBuckets == old(nBuckets) && flags[..] == old(flags[..])
              else NoTombstones()
      ensures old(NoTombstones()) ==> NoTombstones()
      ensures flags == old(flags) || fresh(flags)
      ensures keys == old(keys) || fresh(keys)
      ensures vals == old(vals) || fresh(vals)
    {
      hide WellFormed, Values, NoneDeleted;
      Counts(hash, nBuckets, size, nOccupied, upperBound, flags[..], keys[..], vals[..], steps);
      if nOccupied >= upperBound {
        if nBuckets > 2 * size {
          Clean();
        } else {
          Expand();
        }
      }
    }

    /**
     Finds or makes the bucket of a key. The code is 0 if the key was there, 1 if
     it went to an empty bucket and 2 if it reused a tombstone, which it does
     whenever its walk meets one and the table had room; the map gains the key (with
     whatever value the bucket holds) and is otherwise unchanged.
     */
    method Put(key: K) returns (x: nat, ret: int)
      requires Valid() && nBuckets < MAX_BUCKETS
      modifies this, flags, keys, vals
      ensures Valid() && x < nBuckets && Live(flags[x]) && keys[x] == key
      ensures key in Model() && Model()[key] == vals[x]
      ensures ret == 0 <==> key in old(Model())
      ensures ret == 0 ==> Model() == old(Model())
      ensures ret != 0 ==> ret in {1, 2} && Model() == old(Model())[key := vals[x]]
      ensures ret == 2 <==>
              key !in old(Model()) && old(nOccupied < upperBound) && MeetsTombstone(old(flags[..]), hash(key))
      ensures key !in old(Model()) && old(nOccupied < upperBound) ==>
                exists s, e :: NewSlot(old(flags[..]), hash(key), s, e) && x == Pos(hash(key), s, nBuckets)
      ensures old(NoTombstones()) ==> NoTombstones() && ret != 2
      ensures nBuckets == if old(nOccupied < upperBound || nBuckets > 2 * size) then old(nBuckets)
                          else if old(nBuckets) == 0 then 4 else 2 * old(nBuckets)
      ensures flags == old(flags) || fresh(flags)
      ensures keys == old(keys) || fresh(keys)
      ensures vals == old(vals) || fresh(vals)
    {
      hide WellFormed, Values, NoneDeleted, MeetsTombstone, NewSlot, Reach;
      EnsureRoom();
      Counts(hash, nBuckets, size, nOccupied, upperBound, flags[..], keys[..], vals[..], steps);
      ghost var s, e;
      x, s, e := FindSlot(key);
      NewCode(flags[..], hash(key), s, e, key !in steps);
      KeysOf(hash, vals[..], steps, nBuckets, key);
      if Live(flags[x]) {
        FoundAt(hash, nBuckets, size, nOccupied, upperBound, flags[..], keys[..], vals[..], steps, key);
        ret := 0;
      } else {
        if key in steps {
          FoundAt(hash, nBuckets, size, nOccupied, upperBound, flags[..], keys[..], vals[..], steps, key);
        }
        ret := Claim(key, x, s);
      }
    }

    /** Takes a free bucket on the key's walk for the key. */
    method Claim(key: K, x: nat, ghost s: nat) returns (ret: int)
      requires Valid() && nBuckets != 0 && nOccupied < upperBound && key !in steps
      requires s < nBuckets && x == Pos(hash(key), s, nBuckets)
      requires !Live(flags[x]) && Reach(flags[..], hash(key), s)
      modifies this`size, this`nOccupied, this`steps, flags, keys
      ensures Valid() && ret == if old(flags[x].empty) then 1 else 2
      ensures steps == old(steps)[key := s] && keys[x] == key && Live(flags[x])
      ensures Model() == old(Model())[key := vals[x]]
      ensures old(NoTombstones()) ==> NoTombstones() && ret == 1
    {
      hide WellFormed, Values;
      PutWellFormed(hash, nBuckets, size, nOccupied, upperBound, flags[..], keys[..], vals[..], steps, key, s, x);
      PutValues(hash, vals[..], steps, nBuckets, key, s);
      if flags[x].empty {
        nOccupied := nOccupied + 1;
        ret := 1;
      } else {
        ret := 2;
      }
      ghost var fs, ks := flags[..], keys[..];
      keys[x] := key;
      flags[x] := Flag(false, false);
      assert flags[..] == fs[x := Flag(false, false)] && keys[..] == ks[x := key];
      size := size + 1;
      steps := steps[key := s];
    }

    /** Writing the value of a live bucket. */
    method SetValue(x: nat, v: V)
      requires Valid() && x < nBuckets && Live(flags[x])
      modifies vals
      ensures Valid() && Model() == old(Model())[keys[x] := v] && vals[x] == v
    {
      ghost var vs := vals[..];
      SetValues(hash, nBuckets, size, nOccupied, upperBound, flags[..], keys[..], vs, steps, x, v);
      vals[x] := v;
      assert vals[..] == vs[x := v];
    }

    /** Deletes the entry of a bucket; nBuckets, empty buckets and tombstones are ignored. */
    method Delete(x: nat)
      requires Valid() && x <= nBuckets
      modifies this`size, this`steps, flags
      ensures Valid()
      ensures if x < nBuckets && old(Live(flags[x])) then Model() == old(Model()) - {keys[x]} && size == old(size) - 1
              else Model() == old(Model()) && size == old(size)
    {
      if x != nBuckets && Live(flags[x]) {
        Kill(x);
      }
    }

    method Kill(x: nat)
      requires Valid() && x < nBuckets && Live(flags[x])
      modifies this`size, this`steps, flags
      ensures Valid() && Model() == old(Model()) - {keys[x]} && size == old(size) - 1
    {
      hide WellFormed, Values;
      ghost var fs := flags[..];
      DeleteWellFormed(hash, nBuckets, size, nOccupied, upperBound, fs, keys[..], vals[..], steps, x);
      steps := steps - {keys[x]};
      size := size - 1;
      flags[x] := Deleted(flags[x]);
      assert flags[..] == fs[x := Deleted(fs[x])];
    }
  }
}
