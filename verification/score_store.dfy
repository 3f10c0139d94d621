/**
  The personalised score store (`PersonalizedScoreManager`): a
  capacity-bounded, access-ordered map from a word's full path to its score
  and last access time.

  The store is a key order (least recently accessed first) beside a map of
  records. Every read of a present key, including the reads inside
  `setPathScore`, `promoteWordScore` and `getEffectiveScore`, moves the key
  to the most recent end; inserting a new key past the capacity drops the
  least recently accessed one. The clock, the JSON codec and the
  effective-score formula are parameters.
 */
module ScoreStore {
  import opened Common

  const Capacity: nat := 2000

  /** A record: the score and the time of the last write, in milliseconds. */
  datatype ScoreData = ScoreData(score: int, lastAccessTime: int)

  /** One saved record, in access order. */
  datatype Entry = Entry(key: string, data: ScoreData)

  datatype Store = Store(order: seq<string>, data: map<string, ScoreData>, valueChanged: bool)

  /** The order lists each stored key once and nothing else, and never more than the capacity. */
  ghost predicate StoreInv(st: Store) {
    && Distinct(st.order)
    && (forall k :: k in st.data <==> k in st.order)
    && |st.order| <= Capacity
  }

  function EmptyStore(): (st: Store)
    ensures StoreInv(st) && st.order == [] && st.data == map[] && !st.valueChanged
  {
    Store([], map[], false)
  }

  // ---------------------------------------------------------------------
  // Key order.

  /** `s` without `k`, the rest in the same order. */
  function RemoveKey(s: seq<string>, k: string): (r: seq<string>)
    ensures forall x :: x in r <==> x in s && x != k
    ensures k !in s ==> r == s
    ensures |r| <= |s|
    ensures Distinct(s) ==> Distinct(r)
  {
    if s == [] then []
    else
      var rest := RemoveKey(s[1..], k);
      assert s == [s[0]] + s[1..];
      if s[0] == k then rest
      else
        assert Distinct(s) ==> s[0] !in rest;
        [s[0]] + rest
  }

  /** In a key order without repeats, removing the key at `i` splices it out. */
  lemma {:induction false} RemoveKeyAt(s: seq<string>, k: string, i: nat)
    requires Distinct(s) && i < |s| && s[i] == k
    ensures RemoveKey(s, k) == s[..i] + s[i + 1..]
  {
    assert s == [s[0]] + s[1..];
    if i == 0 {
      assert k !in s[1..];
    } else {
      RemoveKeyAt(s[1..], k, i - 1);
      assert s[1..][..i - 1] == s[1..i];
      assert s[1..][i..] == s[i + 1..];
      assert s[..i] == [s[0]] + s[1..i];
    }
  }

  /** The key moved to the most recent end (`afterNodeAccess`). */
  function MoveToEnd(s: seq<string>, k: string): (r: seq<string>)
    ensures |r| > 0 && r[|r| - 1] == k
    ensures forall x :: x in r <==> x in s || x == k
    ensures Distinct(s) ==> Distinct(r)
    ensures Distinct(s) && k in s ==> |r| == |s|
  {
    var rest := RemoveKey(s, k);
    assert Distinct(s) && k in s ==> |rest| == |s| - 1 by {
      if Distinct(s) && k in s {
        var i :| 0 <= i < |s| && s[i] == k;
        RemoveKeyAt(s, k, i);
      }
    }
    rest + [k]
  }

  // ---------------------------------------------------------------------
  // Map primitives of the access-ordered map.

  /** `map[k]`: the record, and a present key becomes the most recent. */
  function Get(st: Store, k: string): (r: (Option<ScoreData>, Store))
    requires StoreInv(st)
    ensures StoreInv(r.1)
    ensures k !in st.data ==> r == (None, st)
    ensures k in st.data ==>
      && r.0 == Some(st.data[k])
      && r.1 == st.(order := MoveToEnd(st.order, k))
  {
    if k in st.data then (Some(st.data[k]), st.(order := MoveToEnd(st.order, k)))
    else (None, st)
  }

  /**
    `map[k] = v`: an existing key takes the new record and becomes the most
    recent; a new key is appended, and if that takes the store past its
    capacity the least recently accessed key is dropped and the change
    flag raised.
   */
  function Put(st: Store, k: string, v: ScoreData): (r: Store)
    requires StoreInv(st)
    ensures StoreInv(r)
    ensures k in r.data && r.data[k] == v && r.order[|r.order| - 1] == k
    ensures k in st.data ==> r == st.(order := MoveToEnd(st.order, k), data := st.data[k := v])
    ensures k !in st.data && |st.order| < Capacity ==>
      r == st.(order := st.order + [k], data := st.data[k := v])
    ensures k !in st.data && |st.order| == Capacity ==>
      && r.order == st.order[1..] + [k]
      && r.data == (st.data - {st.order[0]})[k := v]
      && r.valueChanged
  {
    if k in st.data then
      var r := st.(order := MoveToEnd(st.order, k), data := st.data[k := v]);
      assert |r.order| == |st.order|;
      r
    else if |st.order| < Capacity then
      AppendFresh(st.order, k);
      st.(order := st.order + [k], data := st.data[k := v])
    else
      Evict(st, k, v);
      st.(order := st.order[1..] + [k], data := (st.data - {st.order[0]})[k := v], valueChanged := true)
  }

  lemma AppendFresh(s: seq<string>, k: string)
    requires Distinct(s) && k !in s
    ensures Distinct(s + [k])
  {
  }

  /** Dropping the eldest key of a full store and appending a new one keeps the invariant. */
  lemma Evict(st: Store, k: string, v: ScoreData)
    requires StoreInv(st) && k !in st.data && |st.order| == Capacity
    ensures StoreInv(st.(order := st.order[1..] + [k], data := (st.data - {st.order[0]})[k := v]))
  {
    var eldest := st.order[0];
    var rest := st.order[1..];
    assert st.order == [eldest] + rest;
    assert eldest !in rest;
    AppendFresh(rest, k);
    var d := (st.data - {eldest})[k := v];
    forall j ensures j in d <==> j in rest + [k] {
      assert j in st.order <==> j == eldest || j in rest;
    }
  }

  /** `map.remove(k)`. */
  function Delete(st: Store, k: string): (r: Store)
    requires StoreInv(st)
    ensures StoreInv(r)
    ensures r.order == RemoveKey(st.order, k) && r.data == st.data - {k}
    ensures r.valueChanged == st.valueChanged
  {
    st.(order := RemoveKey(st.order, k), data := st.data - {k})
  }

  // ---------------------------------------------------------------------
  // The operations of the store.

  /**
    `getEffectiveScore(path)`: 0 for an absent key; otherwise the record's
    effective score (a formula the store does not define, passed in as
    `effective`), and the key becomes the most recent.
   */
  function GetEffectiveScore(st: Store, k: string, effective: ScoreData -> int): (r: (int, Store))
    requires StoreInv(st)
    ensures StoreInv(r.1)
    ensures k !in st.data ==> r == (0, st)
    ensures k in st.data ==> r.0 == effective(st.data[k]) && r.1.data == st.data && r.1.order[|r.1.order| - 1] == k
  {
    match Get(st, k).0
    case None => (0, st)
    case Some(d) => (effective(d), Get(st, k).1)
  }

  /**
    `setPathScore(path, score, time)`: the key holds exactly the new score
    and time (last write wins), becomes the most recent, and the change
    flag is raised.
   */
  function SetPathScore(st: Store, k: string, score: int, time: int): (r: Store)
    requires StoreInv(st)
    ensures StoreInv(r)
    ensures k in r.data && r.data[k] == ScoreData(score, time) && r.order[|r.order| - 1] == k
    ensures r.valueChanged
    ensures forall j :: j in st.data && j != k && j in r.data ==> r.data[j] == st.data[j]
    ensures forall j :: j in st.data && j !in r.data ==> k !in st.data && |st.order| == Capacity && j == st.order[0]
    ensures forall j :: j in r.data ==> j == k || j in st.data
    ensures k in st.data ==> r.order == MoveToEnd(st.order, k)
    ensures k !in st.data ==> r.order == (if |st.order| < Capacity then st.order else st.order[1..]) + [k]
  {
    if k in st.data then
      var st1 := Get(st, k).1;
      st1.(data := st1.data[k := ScoreData(score, time)], valueChanged := true)
    else
      Put(st, k, ScoreData(score, time)).(valueChanged := true)
  }

  /**
    `promoteWordScore(word, delta)` at time `now`: an existing record gains
    `delta` and takes the time; an absent key starts at `(delta, now)`.
   */
  function PromoteWordScore(st: Store, k: string, delta: int, now: int): (r: Store)
    requires StoreInv(st)
    ensures StoreInv(r)
    ensures k in st.data ==> r.data == st.data[k := ScoreData(st.data[k].score + delta, now)]
    ensures k !in st.data ==> k in r.data && r.data[k] == ScoreData(delta, now)
    ensures r.order[|r.order| - 1] == k && r.valueChanged
    ensures k in st.data ==> r.order == MoveToEnd(st.order, k)
    ensures k !in st.data ==> r.order == (if |st.order| < Capacity then st.order else st.order[1..]) + [k]
  {
    if k in st.data then
      var st1 := Get(st, k).1;
      st1.(data := st1.data[k := ScoreData(st.data[k].score + delta, now)], valueChanged := true)
    else
      Put(st, k, ScoreData(delta, now)).(valueChanged := true)
  }

  /** Promoting is setting the old score (0 when absent) plus `delta`. */
  lemma PromoteIsSetPathScore(st: Store, k: string, delta: int, now: int)
    requires StoreInv(st)
    ensures PromoteWordScore(st, k, delta, now) ==
      SetPathScore(st, k, (if k in st.data then st.data[k].score else 0) + delta, now)
  {
  }

  /** Promoting a new key keeps every other record; only the eldest key of a full store can go. */
  lemma PromoteNewKeyKeepsOthers(st: Store, k: string, delta: int, now: int)
    requires StoreInv(st) && k !in st.data
    ensures var r := PromoteWordScore(st, k, delta, now);
      && (forall j :: j in st.data && j in r.data ==> r.data[j] == st.data[j])
      && (forall j :: j in st.data && j !in r.data ==> |st.order| == Capacity && j == st.order[0])
  {
    PromoteIsSetPathScore(st, k, delta, now);
  }

  /** `removePath(path)`: only that key goes, and the change flag is raised. */
  function RemovePath(st: Store, k: string): (r: Store)
    requires StoreInv(st)
    ensures StoreInv(r)
    ensures k !in r.data && forall j :: j != k ==> (j in r.data <==> j in st.data)
    ensures forall j :: j in r.data ==> r.data[j] == st.data[j]
    ensures r.valueChanged
  {
    Delete(st, k).(valueChanged := true)
  }

  /** `clearScoreDatabase()`: the store is empty and the change flag raised. */
  function ClearScoreDatabase(st: Store): (r: Store)
    ensures StoreInv(r) && r.order == [] && r.data == map[] && r.valueChanged
  {
    Store([], map[], true)
  }

  // ---------------------------------------------------------------------
  // Save and load.

  /** `saveToJson()`, before encoding: the records in access order. */
  function Save(st: Store): (r: seq<Entry>)
    requires StoreInv(st)
    ensures |r| == |st.order|
    ensures forall i :: 0 <= i < |r| ==> r[i] == Entry(st.order[i], st.data[st.order[i]])
  {
    seq(|st.order|, i requires 0 <= i < |st.order| => Entry(st.order[i], st.data[st.order[i]]))
  }

  /** The keys of a list of entries, in order. */
  function Keys(es: seq<Entry>): (r: seq<string>)
    ensures |r| == |es| && forall i :: 0 <= i < |es| ==> r[i] == es[i].key
  {
    seq(|es|, i requires 0 <= i < |es| => es[i].key)
  }

  /** `putAll(entries)`: the entries put one after another, in order. */
  function PutAll(st: Store, es: seq<Entry>): (r: Store)
    requires StoreInv(st)
    ensures StoreInv(r)
    decreases |es|
  {
    if es == [] then st else PutAll(Put(st, es[0].key, es[0].data), es[1..])
  }

  /**
    `loadFromJson(json)`, after decoding: `decoded` is `None` when the text
    does not decode or repeats a key (the decoder then throws before the
    store is cleared, so nothing changes); otherwise the store is cleared,
    refilled in the decoded order and marked unchanged.
   */
  function LoadFromJson(st: Store, decoded: Option<seq<Entry>>): (r: Store)
    requires StoreInv(st)
    ensures StoreInv(r)
    ensures decoded.None? ==> r == st
    ensures decoded.Some? && !Distinct(Keys(decoded.value)) ==> r == st
    ensures decoded.Some? && Distinct(Keys(decoded.value)) ==> !r.valueChanged
    ensures decoded.Some? && Distinct(Keys(decoded.value)) && |decoded.value| <= Capacity ==>
      Save(r) == decoded.value
    ensures decoded.Some? && Distinct(Keys(decoded.value)) && |decoded.value| > Capacity ==>
      Save(r) == decoded.value[|decoded.value| - Capacity..]
  {
    match decoded
    case None => st
    case Some(es) =>
      if !Distinct(Keys(es)) then st
      else
        var filled := PutAll(ClearScoreDatabase(st), es);
        assert |es| <= Capacity ==> Save(filled) == es by {
          if |es| <= Capacity {
            PutAllFresh(ClearScoreDatabase(st), es);
          }
        }
        assert |es| > Capacity ==> Save(filled) == es[|es| - Capacity..] by {
          if |es| > Capacity {
            LoadKeepsLast(st, es);
          }
        }
        filled.(valueChanged := false)
  }

  /**
    Putting distinct new keys that fit appends them in order with their
    records, and leaves what was stored before untouched.
   */
  lemma {:induction false} PutAllFresh(st: Store, es: seq<Entry>)
    requires StoreInv(st) && Distinct(Keys(es)) && |st.order| + |es| <= Capacity
    requires forall i :: 0 <= i < |es| ==> es[i].key !in st.data
    ensures Save(PutAll(st, es)) == Save(st) + es
    decreases |es|
  {
    if es != [] {
      var st1 := Put(st, es[0].key, es[0].data);
      var tail := es[1..];
      FreshTail(st, es);
      PutAllFresh(st1, tail);
      SaveAppend(st, es[0].key, es[0].data);
      assert es[0] == Entry(es[0].key, es[0].data);
      assert PutAll(st, es) == PutAll(st1, tail);
      AppendAssoc(Save(st), [es[0]], tail);
      assert [es[0]] + tail == es;
    }
  }

  /**
    Putting distinct new keys one after another saves the last `Capacity`
    records of the old records followed by the new ones: every new key past
    the capacity evicts the least recently accessed record.
   */
  lemma {:induction false} PutAllKeepsLast(st: Store, es: seq<Entry>)
    requires StoreInv(st) && FreshRun(st, es)
    ensures Save(PutAll(st, es)) == (Save(st) + es)[Max(0, |st.order| + |es| - Capacity)..]
    decreases |es|
  {
    if es == [] {
      assert Save(st) + es == Save(st);
    } else {
      PutAllKeepsLast(Put(st, es[0].key, es[0].data), es[1..]);
      PutAllUnfold(st, es);
      PutOneFreshHead(st, es);
      PutAllKeepsLastStep(st, Put(st, es[0].key, es[0].data), es, Save(PutAll(st, es)));
    }
  }

  /** Every record of the run puts a key that is new at the moment it is put. */
  ghost predicate FreshRun(st: Store, es: seq<Entry>)
    requires StoreInv(st)
    decreases |es|
  {
    es == [] || (es[0].key !in st.data && FreshRun(Put(st, es[0].key, es[0].data), es[1..]))
  }

  /** Distinct keys that are all new to the store make a fresh run. */
  lemma {:induction false} DistinctNewIsFreshRun(st: Store, es: seq<Entry>)
    requires StoreInv(st) && Distinct(Keys(es))
    requires forall i :: 0 <= i < |es| ==> es[i].key !in st.data
    ensures FreshRun(st, es)
    decreases |es|
  {
    if es != [] {
      FreshAfterPut(st, es);
      DistinctNewIsFreshRun(Put(st, es[0].key, es[0].data), es[1..]);
    }
  }

  /**
    One step of `PutAllKeepsLast`: `st1` is the store after the first put of
    the run, and `x` what putting the rest of the run into it saves.
   */
  lemma PutAllKeepsLastStep(st: Store, st1: Store, es: seq<Entry>, x: seq<Entry>)
    requires StoreInv(st) && StoreInv(st1) && es != []
    requires Save(st1) == (Save(st) + [es[0]])[Max(0, |st.order| + 1 - Capacity)..]
    requires x == (Save(st1) + es[1..])[Max(0, |st1.order| + |es[1..]| - Capacity)..]
    ensures x == (Save(st) + es)[Max(0, |st.order| + |es| - Capacity)..]
  {
    ConsTail(es);
    KeepLastStep(Save(st), es[0], es[1..], es, Save(st1), x, |st.order|, |st1.order|);
  }

  /** Putting a run saves what putting its tail after its first record saves. */
  lemma PutAllUnfold(st: Store, es: seq<Entry>)
    requires StoreInv(st) && es != []
    ensures Save(PutAll(st, es)) == Save(PutAll(Put(st, es[0].key, es[0].data), es[1..]))
  {
  }

  /** `PutOneFresh` for the first record of a run. */
  lemma PutOneFreshHead(st: Store, es: seq<Entry>)
    requires StoreInv(st) && es != [] && es[0].key !in st.data
    ensures Save(Put(st, es[0].key, es[0].data)) == (Save(st) + [es[0]])[Max(0, |st.order| + 1 - Capacity)..]
  {
    PutOneFresh(st, es[0].key, es[0].data);
    assert es[0] == Entry(es[0].key, es[0].data);
  }

  /**
    The arithmetic of one step of `PutAllKeepsLast`, on the saved lists alone:
    `n` and `n1` are the lengths of `s` and `s1`, and `x` the list saved after the whole run.
   */
  lemma KeepLastStep<T>(s: seq<T>, e: T, tail: seq<T>, es: seq<T>, s1: seq<T>, x: seq<T>, n: nat, n1: nat)
    requires n == |s| <= Capacity && n1 == |s1| && es == [e] + tail
    requires s1 == (s + [e])[Max(0, n + 1 - Capacity)..]
    requires x == (s1 + tail)[Max(0, n1 + |tail| - Capacity)..]
    ensures x == (s + es)[Max(0, n + |es| - Capacity)..]
  {
    var d1 := Max(0, |s| + 1 - Capacity);
    DropDrop(s, e, tail, d1, Max(0, |s1| + |tail| - Capacity));
    AppendAssoc(s, [e], tail);
  }

  /** A non-empty sequence is its head followed by its tail. */
  lemma ConsTail<T>(s: seq<T>)
    requires s != []
    ensures s == [s[0]] + s[1..]
  {
  }

  /** Dropping `d1` then `d2` from a sequence grown at the end drops `d1 + d2`. */
  lemma DropDrop<T>(s: seq<T>, e: T, tail: seq<T>, d1: nat, d2: nat)
    requires d1 <= |s| + 1 && d2 <= |s| + 1 - d1 + |tail|
    ensures ((s + [e])[d1..] + tail)[d2..] == ((s + [e]) + tail)[d1 + d2..]
  {
    assert (s + [e])[d1..] + tail == ((s + [e]) + tail)[d1..];
  }

  /** After putting the first of a run of distinct new keys, the rest are still new and distinct. */
  lemma FreshAfterPut(st: Store, es: seq<Entry>)
    requires StoreInv(st) && Distinct(Keys(es)) && es != []
    requires forall i :: 0 <= i < |es| ==> es[i].key !in st.data
    ensures var st1 := Put(st, es[0].key, es[0].data);
      && Distinct(Keys(es[1..]))
      && forall i :: 0 <= i < |es[1..]| ==> es[1..][i].key !in st1.data
  {
    assert Keys(es[1..]) == Keys(es)[1..];
    DistinctTail(Keys(es));
    forall i | 0 <= i < |es[1..]| ensures es[1..][i].key !in Put(st, es[0].key, es[0].data).data {
      assert Keys(es)[i + 1] != Keys(es)[0];
    }
  }

  /** Loading more records than fit keeps the last `Capacity` of them. */
  lemma LoadKeepsLast(st: Store, es: seq<Entry>)
    requires StoreInv(st) && Distinct(Keys(es)) && |es| > Capacity
    ensures Save(PutAll(ClearScoreDatabase(st), es)) == es[|es| - Capacity..]
  {
    var e := ClearScoreDatabase(st);
    DistinctNewIsFreshRun(e, es);
    PutAllKeepsLast(e, es);
    DropAfterEmpty(e, es, Save(PutAll(e, es)));
  }

  /** Keeping the last `Capacity` records of an empty store followed by `es` keeps the last `Capacity` of `es`. */
  lemma DropAfterEmpty(e: Store, es: seq<Entry>, x: seq<Entry>)
    requires StoreInv(e) && e.order == [] && |es| > Capacity
    requires x == (Save(e) + es)[Max(0, |e.order| + |es| - Capacity)..]
    ensures x == es[|es| - Capacity..]
  {
    assert Save(e) + es == es;
  }

  /** Putting one new key saves the old records and the new one, less the eldest when over capacity. */
  lemma PutOneFresh(st: Store, k: string, d: ScoreData)
    requires StoreInv(st) && k !in st.data
    ensures Save(Put(st, k, d)) == (Save(st) + [Entry(k, d)])[Max(0, |st.order| + 1 - Capacity)..]
  {
    if |st.order| < Capacity {
      SaveAppend(st, k, d);
      assert (Save(st) + [Entry(k, d)])[0..] == Save(st) + [Entry(k, d)];
    } else {
      SaveEvict(st, k, d);
    }
  }

  /** Putting one new key into a full store saves the old records less the eldest, then the new one. */
  lemma SaveEvict(st: Store, k: string, d: ScoreData)
    requires StoreInv(st) && k !in st.data && |st.order| == Capacity
    ensures Save(Put(st, k, d)) == (Save(st) + [Entry(k, d)])[1..]
  {
    var st1 := Put(st, k, d);
    var a := Save(st1);
    var b := (Save(st) + [Entry(k, d)])[1..];
    assert |a| == |b|;
    forall i | 0 <= i < |a| ensures a[i] == b[i] {
      if i < Capacity - 1 {
        assert st1.order[i] == st.order[i + 1];
        assert st.order[i + 1] != st.order[0];
      }
    }
  }

  /** After putting the first of a run of new keys, the rest are still new and distinct. */
  lemma FreshTail(st: Store, es: seq<Entry>)
    requires StoreInv(st) && Distinct(Keys(es)) && |st.order| + |es| <= Capacity && es != []
    requires forall i :: 0 <= i < |es| ==> es[i].key !in st.data
    ensures var st1 := Put(st, es[0].key, es[0].data);
      && Distinct(Keys(es[1..])) && |st1.order| + |es[1..]| <= Capacity
      && forall i :: 0 <= i < |es[1..]| ==> es[1..][i].key !in st1.data
  {
    var st1 := Put(st, es[0].key, es[0].data);
    assert Keys(es[1..]) == Keys(es)[1..];
    DistinctTail(Keys(es));
    forall i | 0 <= i < |es[1..]| ensures es[1..][i].key !in st1.data {
      assert Keys(es)[i + 1] != Keys(es)[0];
    }
  }

  /** Putting one new key that fits appends its entry to the saved list. */
  lemma SaveAppend(st: Store, k: string, d: ScoreData)
    requires StoreInv(st) && k !in st.data && |st.order| < Capacity
    ensures Save(Put(st, k, d)) == Save(st) + [Entry(k, d)]
  {
    var st1 := Put(st, k, d);
    assert st1.order == st.order + [k];
    var a := Save(st1);
    var b := Save(st) + [Entry(k, d)];
    assert |a| == |b|;
    forall i | 0 <= i < |a| ensures a[i] == b[i] {
      if i < |st.order| {
        assert st.order[i] != k;
      }
    }
  }

  lemma DistinctTail(s: seq<string>)
    requires Distinct(s) && s != []
    ensures Distinct(s[1..])
  {
  }

  /**
    Save, clear, then load reproduces the store: the same keys in the same
    order with the same scores and times, and the change flag cleared.
   */
  lemma SaveClearLoadRoundTrip(st: Store)
    requires StoreInv(st)
    ensures var r := LoadFromJson(ClearScoreDatabase(st), Some(Save(st)));
      r.order == st.order && r.data == st.data && !r.valueChanged && Save(r) == Save(st)
  {
    var es := Save(st);
    assert Keys(es) == st.order;
    var r := LoadFromJson(ClearScoreDatabase(st), Some(es));
    assert Save(r) == es;
    assert |r.order| == |st.order|;
    forall i | 0 <= i < |st.order| ensures r.order[i] == st.order[i] {
      assert Save(r)[i] == es[i];
    }
    forall j | j in r.data ensures j in st.data && r.data[j] == st.data[j] {
      var i :| 0 <= i < |r.order| && r.order[i] == j;
      assert Save(r)[i] == es[i];
    }
    assert r.data.Keys == st.data.Keys;
  }

  /** Writing a new key into a store with room appends it. */
  lemma SetNewKey(st: Store, k: string, score: int, time: int)
    requires StoreInv(st) && k !in st.data && |st.order| < Capacity
    ensures SetPathScore(st, k, score, time) ==
      Store(st.order + [k], st.data[k := ScoreData(score, time)], true)
  {
  }

  /** Rewriting the most recent key keeps the order. */
  lemma SetLastKey(st: Store, k: string, score: int, time: int)
    requires StoreInv(st) && st.order != [] && st.order[|st.order| - 1] == k
    ensures SetPathScore(st, k, score, time) ==
      Store(st.order, st.data[k := ScoreData(score, time)], true)
  {
    assert k in st.data by {
      assert st.order[|st.order| - 1] in st.order;
    }
    MoveLastToEnd(st.order, k);
    assert Get(st, k).1 == st;
  }

  /** Moving the most recent key to the end changes nothing. */
  lemma MoveLastToEnd(s: seq<string>, k: string)
    requires Distinct(s) && s != [] && s[|s| - 1] == k
    ensures MoveToEnd(s, k) == s
  {
    var n := |s| - 1;
    RemoveKeyAt(s, k, n);
    assert s[..n] + [k] == s;
  }

  // The stores the score-map test passes through.
  function TestS1(): Store { Store(["abc測"], map["abc測" := ScoreData(1, 1749620089400)], true) }
  function TestS2(): Store {
    Store(["abc測", "abd測"], TestS1().data["abd測" := ScoreData(1, 1749620089401)], true)
  }
  function TestS3(): Store {
    Store(["abc測", "abd測", "cde試"], TestS2().data["cde試" := ScoreData(1, 1749620089308)], true)
  }
  function TestS4(): Store {
    Store(["abc測", "abd測", "cde試"], TestS3().data["cde試" := ScoreData(2, 1749620089401)], true)
  }
  function TestS5(): Store {
    Store(["abc測", "abd測", "cde試", "a試"], TestS4().data["a試" := ScoreData(5, 1749620089405)], true)
  }

  lemma TestStep1(st: Store)
    ensures SetPathScore(ClearScoreDatabase(st), "abc測", 1, 1749620089400) == TestS1()
  {
    SetNewKey(ClearScoreDatabase(st), "abc測", 1, 1749620089400);
  }

  lemma TestStep2()
    ensures SetPathScore(TestS1(), "abd測", 1, 1749620089401) == TestS2()
  {
    assert StoreInv(TestS1());
    SetNewKey(TestS1(), "abd測", 1, 1749620089401);
  }

  lemma TestStep3()
    ensures SetPathScore(TestS2(), "cde試", 1, 1749620089308) == TestS3()
  {
    assert StoreInv(TestS2());
    SetNewKey(TestS2(), "cde試", 1, 1749620089308);
  }

  lemma TestStep4()
    ensures SetPathScore(TestS3(), "cde試", 2, 1749620089401) == TestS4()
  {
    assert StoreInv(TestS3());
    SetLastKey(TestS3(), "cde試", 2, 1749620089401);
  }

  lemma TestStep5()
    ensures SetPathScore(TestS4(), "a試", 5, 1749620089405) == TestS5()
  {
    assert StoreInv(TestS4());
    SetNewKey(TestS4(), "a試", 5, 1749620089405);
  }

  lemma TestSave()
    ensures Save(TestS5()) == [
      Entry("abc測", ScoreData(1, 1749620089400)),
      Entry("abd測", ScoreData(1, 1749620089401)),
      Entry("cde試", ScoreData(2, 1749620089401)),
      Entry("a試", ScoreData(5, 1749620089405))]
  {
    assert StoreInv(TestS5());
  }

  /**
    The score-map test: five writes (one overwriting an earlier key) leave
    four records in first-write order, the overwritten one holding its
    second score and time; saving, clearing and loading gives them back.
   */
  lemma ScoreMapScenario(st: Store)
    ensures
      var s0 := ClearScoreDatabase(st);
      var s1 := SetPathScore(s0, "abc測", 1, 1749620089400);
      var s2 := SetPathScore(s1, "abd測", 1, 1749620089401);
      var s3 := SetPathScore(s2, "cde試", 1, 1749620089308);
      var s4 := SetPathScore(s3, "cde試", 2, 1749620089401);
      var s5 := SetPathScore(s4, "a試", 5, 1749620089405);
      && Save(s5) == [
           Entry("abc測", ScoreData(1, 1749620089400)),
           Entry("abd測", ScoreData(1, 1749620089401)),
           Entry("cde試", ScoreData(2, 1749620089401)),
           Entry("a試", ScoreData(5, 1749620089405))]
      && Save(LoadFromJson(ClearScoreDatabase(s5), Some(Save(s5)))) == Save(s5)
  {
    TestStep1(st);
    TestStep2();
    TestStep3();
    TestStep4();
    TestStep5();
    TestSave();
    SaveClearLoadRoundTrip(TestS5());
  }
}
