/**
  A Ruby Hash with string keys, as the matcher uses it: its entries as a map
  and, separately, the keys in insertion order. Assigning to a present key
  replaces its value and leaves it where it stands; assigning to an absent key
  appends it at the end; deleting removes it from both.
 */
module RubyHash {
  import opened Results

  datatype Hash<V> = Hash(keys: seq<string>, values: map<string, V>)

  /** Every key once in the order, and the order lists exactly the entries. */
  ghost predicate Valid<V>(h: Hash<V>) {
    && (forall i, j :: 0 <= i < j < |h.keys| ==> h.keys[i] != h.keys[j])
    && (forall k :: k in h.values ==> k in h.keys)
    && (forall i :: 0 <= i < |h.keys| ==> h.keys[i] in h.values)
  }

  /** Hash#[]: the value stored under `k`, or nil. */
  function Get<V>(h: Hash<V>, k: string): Option<V> {
    if k in h.values then Some(h.values[k]) else None
  }

  /** `s` without the occurrences of `k`, the rest in order. */
  function Remove(s: seq<string>, k: string): seq<string> {
    if s == [] then []
    else if s[0] == k then Remove(s[1..], k)
    else [s[0]] + Remove(s[1..], k)
  }

  lemma {:induction false} RemoveMembers(s: seq<string>, k: string)
    ensures forall x :: x in Remove(s, k) <==> x in s && x != k
    decreases |s|
  {
    if s != [] {
      RemoveMembers(s[1..], k);
      assert s == [s[0]] + s[1..];
    }
  }

  lemma {:induction false} RemoveKeepsDistinct(s: seq<string>, k: string)
    requires forall i, j :: 0 <= i < j < |s| ==> s[i] != s[j]
    ensures forall i, j :: 0 <= i < j < |Remove(s, k)| ==> Remove(s, k)[i] != Remove(s, k)[j]
    decreases |s|
  {
    if s != [] {
      RemoveKeepsDistinct(s[1..], k);
      RemoveMembers(s[1..], k);
      var r := Remove(s, k);
      if s[0] != k {
        assert s[0] !in s[1..];
        assert forall i :: 1 <= i < |r| ==> r[i] in Remove(s[1..], k);
      }
    }
  }

  lemma {:induction false} RemoveAbsent(s: seq<string>, k: string)
    requires k !in s
    ensures Remove(s, k) == s
    decreases |s|
  {
    if s != [] {
      RemoveAbsent(s[1..], k);
      assert s == [s[0]] + s[1..];
    }
  }

  /** Hash#delete. */
  function Delete<V>(h: Hash<V>, k: string): Hash<V> {
    Hash(Remove(h.keys, k), h.values - {k})
  }

  /** Hash#[]=. */
  function Store<V>(h: Hash<V>, k: string, v: V): Hash<V> {
    Hash(if k in h.values then h.keys else h.keys + [k], h.values[k := v])
  }

  lemma DeleteKeepsValid<V>(h: Hash<V>, k: string)
    requires Valid(h)
    ensures Valid(Delete(h, k))
  {
    RemoveMembers(h.keys, k);
    RemoveKeepsDistinct(h.keys, k);
    var keys := Remove(h.keys, k);
    assert forall i :: 0 <= i < |keys| ==> keys[i] in keys;
  }

  lemma StoreKeepsValid<V>(h: Hash<V>, k: string, v: V)
    requires Valid(h)
    ensures Valid(Store(h, k, v))
  {
  }

  // ---------------------------------------------------------------------------
  // Hash#transform_keys! with a block `f`. It walks a snapshot of the entries
  // in order: it deletes the old key unless an earlier step already produced
  // it as a new key, then assigns the value under the new key.

  datatype Rekeying<V> = Rekeying(hash: Hash<V>, newKeys: set<string>)

  function RekeyStep<V>(st: Rekeying<V>, key: string, value: V, f: string -> string): Rekeying<V> {
    var h := if key in st.newKeys then st.hash else Delete(st.hash, key);
    Rekeying(Store(h, f(key), value), st.newKeys + {f(key)})
  }

  /** The state of transform_keys! after the first `n` entries of `h`. */
  function RekeyPrefix<V>(h: Hash<V>, n: nat, f: string -> string): Rekeying<V>
    requires Valid(h) && n <= |h.keys|
  {
    if n == 0 then Rekeying(h, {})
    else RekeyStep(RekeyPrefix(h, n - 1, f), h.keys[n - 1], h.values[h.keys[n - 1]], f)
  }

  /** The hash as transform_keys! leaves it. */
  function TransformKeys<V>(h: Hash<V>, f: string -> string): Hash<V>
    requires Valid(h)
  {
    RekeyPrefix(h, |h.keys|, f).hash
  }

  /** The keys `f` produces from the first `n` keys, as a set. */
  function ImageSet(keys: seq<string>, n: nat, f: string -> string): set<string>
    requires n <= |keys|
  {
    if n == 0 then {} else ImageSet(keys, n - 1, f) + {f(keys[n - 1])}
  }

  /** The keys `f` produces from the first `n` keys, in order. */
  function Images(keys: seq<string>, n: nat, f: string -> string): seq<string>
    requires n <= |keys|
  {
    if n == 0 then [] else Images(keys, n - 1, f) + [f(keys[n - 1])]
  }

  lemma {:induction false} ImageSetMembers(keys: seq<string>, n: nat, f: string -> string)
    requires n <= |keys|
    ensures forall x :: x in ImageSet(keys, n, f) <==> exists j :: 0 <= j < n && f(keys[j]) == x
    decreases n
  {
    if n > 0 {
      ImageSetMembers(keys, n - 1, f);
    }
  }

  lemma {:induction false} ImagesPointwise(keys: seq<string>, n: nat, f: string -> string)
    requires n <= |keys|
    ensures |Images(keys, n, f)| == n
    ensures forall i :: 0 <= i < n ==> Images(keys, n, f)[i] == f(keys[i])
    decreases n
  {
    if n > 0 {
      ImagesPointwise(keys, n - 1, f);
    }
  }

  /** The value of the last of the first `n` entries whose key `f` maps to `x`. */
  function LastValue<V>(h: Hash<V>, n: nat, x: string, f: string -> string): Option<V>
    requires Valid(h) && n <= |h.keys|
  {
    if n == 0 then None
    else if f(h.keys[n - 1]) == x then Some(h.values[h.keys[n - 1]])
    else LastValue(h, n - 1, x, f)
  }

  /** LastValue is the value of the last entry whose key maps to `x`. */
  lemma {:induction false} LastValueIsLast<V>(h: Hash<V>, n: nat, x: string, f: string -> string, j: nat)
    requires Valid(h) && j < n <= |h.keys|
    requires f(h.keys[j]) == x
    requires forall j' :: j < j' < n ==> f(h.keys[j']) != x
    ensures LastValue(h, n, x, f) == Some(h.values[h.keys[j]])
    decreases n
  {
    if j < n - 1 {
      LastValueIsLast(h, n - 1, x, f, j);
    }
  }

  /** Some entry among the first `n` gives a value for `x` exactly when `x` is an image. */
  lemma {:induction false} LastValueOfImage<V>(h: Hash<V>, n: nat, x: string, f: string -> string)
    requires Valid(h) && n <= |h.keys|
    ensures LastValue(h, n, x, f).Some? <==> x in ImageSet(h.keys, n, f)
    decreases n
  {
    if n > 0 {
      LastValueOfImage(h, n - 1, x, f);
    }
  }

  // The state after each entry, in four parts, each proved by its own
  // induction so that no proof has to carry all of them.

  /** Every key produced so far holds the value of the last entry that produced it. */
  ghost predicate NewKeysHoldLast<V>(h: Hash<V>, n: nat, f: string -> string, st: Rekeying<V>)
    requires Valid(h) && n <= |h.keys|
  {
    forall x :: x in st.newKeys ==> x in st.hash.values && Some(st.hash.values[x]) == LastValue(h, n, x, f)
  }

  /** A key not yet visited keeps its entry unless it has been produced. */
  ghost predicate LaterKeysKept<V>(h: Hash<V>, n: nat, st: Rekeying<V>)
    requires Valid(h) && n <= |h.keys|
  {
    forall j :: n <= j < |h.keys| && h.keys[j] !in st.newKeys ==>
      h.keys[j] in st.hash.values && st.hash.values[h.keys[j]] == h.values[h.keys[j]]
  }

  /** Every entry has been produced or is still to be visited. */
  ghost predicate NothingElse<V>(h: Hash<V>, n: nat, st: Rekeying<V>)
    requires Valid(h) && n <= |h.keys|
  {
    forall x :: x in st.hash.values ==> x in st.newKeys || x in h.keys[n..]
  }

  lemma {:induction false} RekeyNewKeys<V>(h: Hash<V>, n: nat, f: string -> string)
    requires Valid(h) && n <= |h.keys|
    ensures RekeyPrefix(h, n, f).newKeys == ImageSet(h.keys, n, f)
    decreases n
  {
    if n > 0 {
      RekeyNewKeys(h, n - 1, f);
    }
  }

  lemma StepKeepsValid<V>(prev: Rekeying<V>, k: string, v: V, f: string -> string, next: Rekeying<V>)
    requires Valid(prev.hash) && next == RekeyStep(prev, k, v, f)
    ensures Valid(next.hash)
  {
    if k !in prev.newKeys {
      DeleteKeepsValid(prev.hash, k);
    }
    StoreKeepsValid(if k in prev.newKeys then prev.hash else Delete(prev.hash, k), f(k), v);
  }

  lemma {:induction false} RekeyKeepsValid<V>(h: Hash<V>, n: nat, f: string -> string)
    requires Valid(h) && n <= |h.keys|
    ensures Valid(RekeyPrefix(h, n, f).hash)
    decreases n
  {
    if n > 0 {
      RekeyKeepsValid(h, n - 1, f);
      StepKeepsValid(RekeyPrefix(h, n - 1, f), h.keys[n - 1], h.values[h.keys[n - 1]], f, RekeyPrefix(h, n, f));
    }
  }

  lemma StepHoldsLast<V>(h: Hash<V>, n: nat, f: string -> string, prev: Rekeying<V>, next: Rekeying<V>)
    requires Valid(h) && 0 < n <= |h.keys|
    requires NewKeysHoldLast(h, n - 1, f, prev)
    requires next == RekeyStep(prev, h.keys[n - 1], h.values[h.keys[n - 1]], f)
    ensures NewKeysHoldLast(h, n, f, next)
  {
    var k := h.keys[n - 1];
    var st := RekeyStep(prev, k, h.values[k], f);
    forall x | x in st.newKeys
      ensures x in st.hash.values && Some(st.hash.values[x]) == LastValue(h, n, x, f)
    {
      if x != f(k) {
        assert x in prev.newKeys;
      }
    }
  }

  lemma {:induction false} RekeyHoldsLast<V>(h: Hash<V>, n: nat, f: string -> string)
    requires Valid(h) && n <= |h.keys|
    ensures NewKeysHoldLast(h, n, f, RekeyPrefix(h, n, f))
  {
    var st := RekeyPrefix(h, 0, f);
    for i := 0 to n
      invariant st == RekeyPrefix(h, i, f) && NewKeysHoldLast(h, i, f, st)
    {
      var next := RekeyPrefix(h, i + 1, f);
      StepHoldsLast(h, i + 1, f, st, next);
      st := next;
    }
  }

  lemma StepKeepsLaterKeys<V>(h: Hash<V>, n: nat, f: string -> string, prev: Rekeying<V>, next: Rekeying<V>)
    requires Valid(h) && 0 < n <= |h.keys|
    requires LaterKeysKept(h, n - 1, prev)
    requires next == RekeyStep(prev, h.keys[n - 1], h.values[h.keys[n - 1]], f)
    ensures LaterKeysKept(h, n, next)
  {
    var k := h.keys[n - 1];
    var st := RekeyStep(prev, k, h.values[k], f);
    forall j | n <= j < |h.keys| && h.keys[j] !in st.newKeys
      ensures h.keys[j] in st.hash.values && st.hash.values[h.keys[j]] == h.values[h.keys[j]]
    {
      assert k != h.keys[j];
    }
  }

  lemma {:induction false} RekeyKeepsLaterKeys<V>(h: Hash<V>, n: nat, f: string -> string)
    requires Valid(h) && n <= |h.keys|
    ensures LaterKeysKept(h, n, RekeyPrefix(h, n, f))
  {
    var st := RekeyPrefix(h, 0, f);
    for i := 0 to n
      invariant st == RekeyPrefix(h, i, f) && LaterKeysKept(h, i, st)
    {
      var next := RekeyPrefix(h, i + 1, f);
      StepKeepsLaterKeys(h, i + 1, f, st, next);
      st := next;
    }
  }

  lemma StepAddsNothingElse<V>(h: Hash<V>, n: nat, f: string -> string, prev: Rekeying<V>, next: Rekeying<V>)
    requires Valid(h) && 0 < n <= |h.keys|
    requires NothingElse(h, n - 1, prev)
    requires next == RekeyStep(prev, h.keys[n - 1], h.values[h.keys[n - 1]], f)
    ensures NothingElse(h, n, next)
  {
    var k := h.keys[n - 1];
    var st := RekeyStep(prev, k, h.values[k], f);
    FrontOfRest(h, n);
    forall x | x in st.hash.values ensures x in st.newKeys || x in h.keys[n..] {
      if x != f(k) {
        assert x in prev.hash.values;
      }
    }
  }

  lemma NothingElseAtStart<V>(h: Hash<V>, start: Rekeying<V>)
    requires Valid(h) && start == Rekeying(h, {})
    ensures NothingElse(h, 0, start)
  {
    assert h.keys[0..] == h.keys;
  }

  lemma {:induction false} RekeyAddsNothingElse<V>(h: Hash<V>, n: nat, f: string -> string)
    requires Valid(h) && n <= |h.keys|
    ensures NothingElse(h, n, RekeyPrefix(h, n, f))
  {
    var st := RekeyPrefix(h, 0, f);
    NothingElseAtStart(h, st);
    for i := 0 to n
      invariant st == RekeyPrefix(h, i, f) && NothingElse(h, i, st)
    {
      var next := RekeyPrefix(h, i + 1, f);
      StepAddsNothingElse(h, i + 1, f, st, next);
      st := next;
    }
  }

  /** transform_keys! leaves a hash whose keys are the images of the input's
      keys, each once and holding the value of the last entry that produced it. */
  lemma TransformKeysSpec<V>(h: Hash<V>, f: string -> string)
    requires Valid(h)
    ensures var r := TransformKeys(h, f);
      && Valid(r)
      && (forall x :: x in r.values <==> x in ImageSet(h.keys, |h.keys|, f))
      && (forall x :: x in r.values ==> Some(r.values[x]) == LastValue(h, |h.keys|, x, f))
  {
    var n := |h.keys|;
    RekeyKeepsValid(h, n, f);
    RekeyNewKeys(h, n, f);
    RekeyHoldsLast(h, n, f);
    RekeyAddsNothingElse(h, n, f);
    assert h.keys[n..] == [];
  }

  lemma TransformKeysKeepsValid<V>(h: Hash<V>, f: string -> string)
    requires Valid(h)
    ensures Valid(TransformKeys(h, f))
  {
    RekeyKeepsValid(h, |h.keys|, f);
  }

  /** No two keys have the same image. */
  predicate ImagesDistinct(keys: seq<string>, f: string -> string) {
    forall i, j :: 0 <= i < j < |keys| ==> f(keys[i]) != f(keys[j])
  }

  /** `f` leaves the image of every key as it is. */
  predicate IdempotentOn(keys: seq<string>, f: string -> string) {
    forall j :: 0 <= j < |keys| ==> f(f(keys[j])) == f(keys[j])
  }

  /** With distinct images, the key of entry `n - 1` is not the image of an earlier key. */
  lemma KeyNotProducedBefore(keys: seq<string>, n: nat, f: string -> string)
    requires 0 < n <= |keys| && ImagesDistinct(keys, f) && IdempotentOn(keys, f)
    ensures keys[n - 1] !in ImageSet(keys, n - 1, f)
    ensures keys[n - 1] !in Images(keys, n - 1, f)
  {
    ImageSetMembers(keys, n - 1, f);
    ImagesPointwise(keys, n - 1, f);
    forall j | 0 <= j < n - 1 ensures f(keys[j]) != keys[n - 1] {
      assert f(f(keys[j])) == f(keys[j]);
    }
  }

  /** With distinct images, the image of entry `n - 1` is neither a later key nor an earlier image. */
  lemma ImageIsNew(keys: seq<string>, n: nat, f: string -> string)
    requires 0 < n <= |keys| && ImagesDistinct(keys, f) && IdempotentOn(keys, f)
    ensures f(keys[n - 1]) !in keys[n..] + Images(keys, n - 1, f)
  {
    ImagesPointwise(keys, n - 1, f);
    var fk := f(keys[n - 1]);
    forall j | n <= j < |keys| ensures keys[j] != fk {
      assert f(fk) == fk;
    }
  }

  /** In that case deleting the visited key removes exactly the front of the key order. */
  lemma DeleteFront(k: string, later: seq<string>, done: seq<string>)
    requires k !in later && k !in done
    ensures Remove([k] + later + done, k) == later + done
  {
    var rest := later + done;
    assert [k] + later + done == [k] + rest;
    assert ([k] + rest)[1..] == rest;
    RemoveAbsent(rest, k);
  }

  /** Storing under a key the hash does not hold appends it to the key order. */
  lemma StoreAppends<V>(hh: Hash<V>, x: string, v: V)
    requires x !in hh.values
    ensures Store(hh, x, v).keys == hh.keys + [x]
  {
  }

  /** One step when the visited key is the front of the order, was not produced
      earlier, and its image is new: the key leaves the front and its image is
      appended at the back. */
  lemma StepInOrder<V>(prev: Rekeying<V>, k: string, v: V, f: string -> string, later: seq<string>, done: seq<string>)
    requires Valid(prev.hash) && prev.hash.keys == [k] + later + done
    requires k !in prev.newKeys && k !in later && k !in done
    requires f(k) !in later + done
    ensures RekeyStep(prev, k, v, f).hash.keys == later + (done + [f(k)])
  {
    DeleteFront(k, later, done);
    var d := Delete(prev.hash, k);
    assert d.keys == later + done;
    forall x | x in d.values ensures x in later + done {
      assert x in prev.hash.keys && x != k;
    }
    StoreAppends(d, f(k), v);
  }

  /** In a well-formed hash the key of entry `n - 1` heads the rest of the order
      and does not occur again. */
  lemma FrontOfRest<V>(h: Hash<V>, n: nat)
    requires Valid(h) && 0 < n <= |h.keys|
    ensures h.keys[n - 1..] == [h.keys[n - 1]] + h.keys[n..]
    ensures h.keys[n - 1] !in h.keys[n..]
  {
    forall j | n <= j < |h.keys| ensures h.keys[j] != h.keys[n - 1] {
      assert h.keys[n - 1] != h.keys[j];
    }
  }

  /** Entry `m - 1` is visited in order: its key was not produced by an earlier
      entry, and its image is neither a later key nor an earlier image. */
  predicate FreshStep(keys: seq<string>, m: nat, f: string -> string)
    requires 0 < m <= |keys|
  {
    && keys[m - 1] !in ImageSet(keys, m - 1, f)
    && keys[m - 1] !in Images(keys, m - 1, f)
    && f(keys[m - 1]) !in keys[m..] + Images(keys, m - 1, f)
  }

  /** Distinct images and a block that fixes images make every step fresh. */
  lemma FreshSteps(keys: seq<string>, f: string -> string)
    requires ImagesDistinct(keys, f) && IdempotentOn(keys, f)
    ensures forall m :: 0 < m <= |keys| ==> FreshStep(keys, m, f)
  {
    forall m | 0 < m <= |keys| ensures FreshStep(keys, m, f) {
      KeyNotProducedBefore(keys, m, f);
      ImageIsNew(keys, m, f);
    }
  }

  lemma {:induction false} RekeyInOrder<V>(h: Hash<V>, n: nat, f: string -> string)
    requires Valid(h) && n <= |h.keys|
    requires forall m :: 0 < m <= n ==> FreshStep(h.keys, m, f)
    ensures RekeyPrefix(h, n, f).hash.keys == h.keys[n..] + Images(h.keys, n, f)
    decreases n
  {
    if n == 0 {
      assert h.keys[0..] == h.keys;
    } else {
      RekeyInOrder(h, n - 1, f);
      var prev, k := RekeyPrefix(h, n - 1, f), h.keys[n - 1];
      assert FreshStep(h.keys, n, f);
      RekeyNewKeys(h, n - 1, f);
      RekeyKeepsValid(h, n - 1, f);
      FrontOfRest(h, n);
      StepInOrder(prev, k, h.values[k], f, h.keys[n..], Images(h.keys, n - 1, f));
      RekeyPrefixNext(h, n - 1, f);
    }
  }

  /** The keys of a hash left in order are the images of the original keys, one by one. */
  lemma KeysInOrder<V>(h: Hash<V>, f: string -> string)
    requires Valid(h) && forall m :: 0 < m <= |h.keys| ==> FreshStep(h.keys, m, f)
    ensures var r := TransformKeys(h, f);
      && |r.keys| == |h.keys|
      && forall i :: 0 <= i < |h.keys| ==> r.keys[i] == f(h.keys[i])
  {
    var n := |h.keys|;
    RekeyInOrder(h, n, f);
    assert TransformKeys(h, f).keys == Images(h.keys, n, f) by {
      assert h.keys[n..] == [];
    }
    ImagesPointwise(h.keys, n, f);
  }

  /** When no two keys share an image and `f` leaves images alone,
      transform_keys! keeps the order of the entries and only maps the keys. */
  lemma TransformKeysInOrder<V>(h: Hash<V>, f: string -> string)
    requires Valid(h) && ImagesDistinct(h.keys, f) && IdempotentOn(h.keys, f)
    ensures var r := TransformKeys(h, f);
      && |r.keys| == |h.keys|
      && forall i :: 0 <= i < |h.keys| ==> r.keys[i] == f(h.keys[i])
  {
    FreshSteps(h.keys, f);
    KeysInOrder(h, f);
  }

  /** When no two keys share an image, every entry's value moves to its key's image. */
  lemma TransformKeysKeepsValues<V>(h: Hash<V>, f: string -> string)
    requires Valid(h) && ImagesDistinct(h.keys, f)
    ensures var r := TransformKeys(h, f);
      forall i :: 0 <= i < |h.keys| ==> f(h.keys[i]) in r.values && r.values[f(h.keys[i])] == h.values[h.keys[i]]
  {
    var n := |h.keys|;
    TransformKeysSpec(h, f);
    ImageSetMembers(h.keys, n, f);
    forall i | 0 <= i < n
      ensures f(h.keys[i]) in TransformKeys(h, f).values
      ensures LastValue(h, n, f(h.keys[i]), f) == Some(h.values[h.keys[i]])
    {
      LastValueIsLast(h, n, f(h.keys[i]), f, i);
    }
  }

  /** The state after `i + 1` entries is one step past the state after `i`. */
  lemma RekeyPrefixNext<V>(h: Hash<V>, i: nat, f: string -> string)
    requires Valid(h) && i < |h.keys|
    ensures RekeyPrefix(h, i + 1, f) == RekeyStep(RekeyPrefix(h, i, f), h.keys[i], h.values[h.keys[i]], f)
  {
  }

  /** One turn of transform_keys!'s loop, on entry `i` of the snapshot: delete
      the old key unless an earlier entry produced it, then store the value
      under the new key. */
  method RekeyEntry<V>(h: Hash<V>, i: nat, f: string -> string, r: Hash<V>, newKeys: set<string>)
    returns (r': Hash<V>, newKeys': set<string>)
    requires Valid(h) && i < |h.keys|
    requires Rekeying(r, newKeys) == RekeyPrefix(h, i, f)
    ensures Rekeying(r', newKeys') == RekeyPrefix(h, i + 1, f)
  {
    RekeyPrefixNext(h, i, f);
    var key := h.keys[i];
    var newKey := f(key);
    r' := r;
    if key !in newKeys {
      r' := Delete(r', key);
    }
    r' := Store(r', newKey, h.values[key]);
    newKeys' := newKeys + {newKey};
  }

  /** Hash#transform_keys!: rewrites the hash entry by entry. */
  method TransformKeysInPlace<V>(h: Hash<V>, f: string -> string) returns (r: Hash<V>)
    requires Valid(h)
    ensures r == TransformKeys(h, f)
  {
    r := h;
    var newKeys: set<string> := {};
    for i := 0 to |h.keys|
      invariant Rekeying(r, newKeys) == RekeyPrefix(h, i, f)
    {
      r, newKeys := RekeyEntry(h, i, f, r, newKeys);
    }
  }

  // ---------------------------------------------------------------------------
  // Hash#transform_values! with a block `f` that either gives the new value or
  // raises (None). Keys and their order stay as they are.

  /** The hash transform_values! leaves, or None when the block raises. */
  function TransformValues<V, W>(h: Hash<V>, f: V -> Option<W>): Option<Hash<W>> {
    if forall k :: k in h.values ==> f(h.values[k]).Some? then
      Some(Hash(h.keys, map k | k in h.values :: f(h.values[k]).value))
    else
      None
  }

  /** transform_values! raises exactly when the block rejects some value;
      otherwise it keeps the keys in their order and maps every value. */
  lemma TransformValuesSpec<V, W>(h: Hash<V>, f: V -> Option<W>)
    requires Valid(h)
    ensures TransformValues(h, f).None? <==> exists i :: 0 <= i < |h.keys| && f(h.values[h.keys[i]]).None?
    ensures TransformValues(h, f).Some? ==>
      var r := TransformValues(h, f).value;
      && Valid(r) && r.keys == h.keys
      && forall k :: k in h.values ==> k in r.values && Some(r.values[k]) == f(h.values[k])
  {
    if TransformValues(h, f).None? {
      var k :| k in h.values && f(h.values[k]).None?;
      var i :| 0 <= i < |h.keys| && h.keys[i] == k;
    }
  }

  /** Hash#transform_values!: replaces the values one entry at a time, in key
      order, stopping at the first value the block rejects. */
  method TransformValuesInPlace<V, W>(h: Hash<V>, f: V -> Option<W>) returns (r: Option<Hash<W>>)
    requires Valid(h)
    ensures r == TransformValues(h, f)
  {
    var values: map<string, W> := map[];
    for i := 0 to |h.keys|
      invariant forall k :: k in values <==> k in h.keys[..i]
      invariant forall k :: k in values ==> Some(values[k]) == f(h.values[k])
    {
      var key := h.keys[i];
      var v := f(h.values[key]);
      if v.None? {
        return None;
      }
      values := values[key := v.value];
      assert h.keys[..i + 1] == h.keys[..i] + [key];
    }
    assert h.keys[..|h.keys|] == h.keys;
    AllValuesMapped(h, f, values);
    return Some(Hash(h.keys, values));
  }

  /** Once every key has been visited, the new values are those transform_values! leaves. */
  lemma AllValuesMapped<V, W>(h: Hash<V>, f: V -> Option<W>, values: map<string, W>)
    requires Valid(h)
    requires forall k :: k in values <==> k in h.keys
    requires forall k :: k in values ==> Some(values[k]) == f(h.values[k])
    ensures TransformValues(h, f) == Some(Hash(h.keys, values))
  {
    assert forall k :: k in h.values ==> k in values;
    assert values == map k | k in h.values :: f(h.values[k]).value;
  }

  /** transform_keys! followed by transform_values!: the second raises
      exactly when the block rejects the last value given to some new key. */
  lemma TransformKeysThenValues<V, W>(h: Hash<V>, f: string -> string, g: V -> Option<W>)
    requires Valid(h)
    ensures TransformValues(TransformKeys(h, f), g).None? <==>
      exists x :: LastValue(h, |h.keys|, x, f).Some? && g(LastValue(h, |h.keys|, x, f).value).None?
  {
    var r := TransformKeys(h, f);
    TransformKeysSpec(h, f);
    if TransformValues(r, g).None? {
      var x :| x in r.values && g(r.values[x]).None?;
      assert LastValue(h, |h.keys|, x, f).Some?;
    } else {
      forall x | LastValue(h, |h.keys|, x, f).Some? ensures g(LastValue(h, |h.keys|, x, f).value).Some? {
        LastValueOfImage(h, |h.keys|, x, f);
        assert x in r.values;
      }
    }
  }
}
