/** Properties of the linear-hash index: what an insert does to every lookup,
    the bucket invariant, and the difference between the tail-only duplicate
    check of `Insert::exec` and a chain-wide one, under which a key is stored
    at most once. */
module LinHashProofs {
  import opened Bytes
  import opened Errors
  import opened Codec
  import opened Addressing
  import opened Calibration
  import opened LinHash

  /** The table with its page capacity set to m. */
  function Recalibrated(t: Table, m: Option<nat>): (u: Table)
    ensures u.main == t.main && u.overflow == t.overflow && u.st.maxKv == m
    ensures u.st == t.st.(maxKv := m)
  {
    t.(st := t.st.(maxKv := m))
  }

  /** Chains, their keys, tails and lookups do not depend on the page
      capacity. */
  lemma CapacityIrrelevant(t: Table, m: Option<nat>, id: PageId)
    requires Valid(t) && Present(t, id)
    ensures Valid(Recalibrated(t, m)) && Present(Recalibrated(t, m), id)
    ensures ChainKeys(Recalibrated(t, m), id) == ChainKeys(t, id)
    ensures Chain(Recalibrated(t, m), id) == Chain(t, id)
    ensures Tail(Recalibrated(t, m), id) == Tail(t, id)
    ensures forall k :: LookupFrom(Recalibrated(t, m), id, k) == LookupFrom(t, id, k)
  {
    RecalibratedChainKeys(t, m, id);
    RecalibratedChain(t, m, id);
    RecalibratedTail(t, m, id);
    forall k ensures LookupFrom(Recalibrated(t, m), id, k) == LookupFrom(t, id, k) {
      RecalibratedLookup(t, m, id, k);
    }
  }

  lemma {:induction false} RecalibratedChainKeys(t: Table, m: Option<nat>, id: PageId)
    requires Valid(t) && Present(t, id)
    ensures Valid(Recalibrated(t, m)) && Present(Recalibrated(t, m), id)
    ensures ChainKeys(Recalibrated(t, m), id) == ChainKeys(t, id)
    decreases Measure(t, id)
  {
    NextIsPresent(t, id);
    if PageAt(t, id).overflowId.Some? {
      RecalibratedChainKeys(t, m, Overflow(PageAt(t, id).overflowId.value));
    }
  }

  lemma {:induction false} RecalibratedChain(t: Table, m: Option<nat>, id: PageId)
    requires Valid(t) && Present(t, id)
    ensures Valid(Recalibrated(t, m)) && Present(Recalibrated(t, m), id)
    ensures Chain(Recalibrated(t, m), id) == Chain(t, id)
    decreases Measure(t, id)
  {
    var u := Recalibrated(t, m);
    NextIsPresent(t, id);
    assert Valid(u) && PageAt(u, id) == PageAt(t, id);
    if PageAt(t, id).overflowId.Some? {
      var l := PageAt(t, id).overflowId.value;
      RecalibratedChain(t, m, Overflow(l));
      assert Chain(u, id) == [id] + Chain(u, Overflow(l));
    }
  }

  lemma {:induction false} RecalibratedTail(t: Table, m: Option<nat>, id: PageId)
    requires Valid(t) && Present(t, id)
    ensures Valid(Recalibrated(t, m)) && Present(Recalibrated(t, m), id)
    ensures Tail(Recalibrated(t, m), id) == Tail(t, id)
    decreases Measure(t, id)
  {
    NextIsPresent(t, id);
    if PageAt(t, id).overflowId.Some? {
      RecalibratedTail(t, m, Overflow(PageAt(t, id).overflowId.value));
    }
  }

  lemma {:induction false} RecalibratedLookup(t: Table, m: Option<nat>, id: PageId, k: Bytes)
    requires Valid(t) && Present(t, id)
    ensures Valid(Recalibrated(t, m)) && Present(Recalibrated(t, m), id)
    ensures LookupFrom(Recalibrated(t, m), id, k) == LookupFrom(t, id, k)
    decreases Measure(t, id)
  {
    NextIsPresent(t, id);
    if k !in PageAt(t, id).kvPairs && PageAt(t, id).overflowId.Some? {
      RecalibratedLookup(t, m, Overflow(PageAt(t, id).overflowId.value), k);
    }
  }

  /** At the tail itself a Place changes no lookup but the placed key's. */
  lemma PlaceKeepsTailLookup(t: Table, tailId: PageId, key: Bytes, value: Bytes, k: Bytes)
    requires Valid(t) && Present(t, tailId) && PageAt(t, tailId).overflowId.None?
    requires t.st.maxKv.Some? && k != key
    ensures Valid(Place(t, tailId, key, value))
    ensures LookupFrom(Place(t, tailId, key, value), tailId, k) == LookupFrom(t, tailId, k)
  {
    var r := Place(t, tailId, key, value);
    PlaceKeepsValid(t, tailId, key, value);
    var p := PageAt(r, tailId);
    assert k in p.kvPairs <==> k in PageAt(t, tailId).kvPairs;
    if k !in p.kvPairs && p.overflowId.Some? {
      var n := t.st.nextOverflow;
      assert p.overflowId == Some(n);
      assert PageAt(r, Overflow(n)) == Page(map[key := value], None);
      assert LookupFrom(r, Overflow(n), k) == None;
    }
  }

  /** A Place leaves the lookup of key k from page id unchanged when k is not
      the placed key, when the placed-on tail is not on id's chain, or when an
      earlier page of the chain already holds k (the scan stops there). */
  lemma {:induction false} PlaceKeepsLookup(t: Table, tailId: PageId, key: Bytes, value: Bytes, id: PageId, k: Bytes)
    requires Valid(t) && Present(t, tailId) && PageAt(t, tailId).overflowId.None?
    requires t.st.maxKv.Some?
    requires Present(t, id)
    requires || k != key
             || tailId !in Chain(t, id)
             || (k in ChainKeys(t, id) && k !in PageAt(t, tailId).kvPairs)
    ensures Valid(Place(t, tailId, key, value))
    ensures Present(Place(t, tailId, key, value), id)
    ensures LookupFrom(Place(t, tailId, key, value), id, k) == LookupFrom(t, id, k)
    decreases Measure(t, id)
  {
    var r := Place(t, tailId, key, value);
    PlaceKeepsValid(t, tailId, key, value);
    if id == tailId {
      assert Chain(t, id)[0] == tailId;
      assert ChainKeys(t, id) == PageAt(t, tailId).kvPairs.Keys;
      PlaceKeepsTailLookup(t, tailId, key, value, k);
    } else {
      var p := PageAt(t, id);
      assert PageAt(r, id) == p;
      NextIsPresent(t, id);
      if k !in p.kvPairs && p.overflowId.Some? {
        var l := p.overflowId.value;
        assert Chain(t, id) == [id] + Chain(t, Overflow(l));
        PlaceKeepsLookup(t, tailId, key, value, Overflow(l), k);
      }
    }
  }

  /** A Place on the tail of id's chain makes the placed key's lookup from id
      find the placed value, provided the chain did not hold the key. */
  lemma {:induction false} PlaceFindsKey(t: Table, tailId: PageId, key: Bytes, value: Bytes, id: PageId)
    requires Valid(t) && Present(t, tailId) && PageAt(t, tailId).overflowId.None?
    requires t.st.maxKv.Some?
    requires Present(t, id) && Tail(t, id) == tailId && key !in ChainKeys(t, id)
    ensures Valid(Place(t, tailId, key, value))
    ensures Present(Place(t, tailId, key, value), id)
    ensures LookupFrom(Place(t, tailId, key, value), id, key) == Some(value)
    decreases Measure(t, id)
  {
    var r := Place(t, tailId, key, value);
    PlaceKeepsValid(t, tailId, key, value);
    NextIsPresent(t, id);
    NextIsPresent(r, id);
    if id != tailId {
      var l := PageAt(t, id).overflowId.value;
      PlaceFindsKey(t, tailId, key, value, Overflow(l));
    } else {
      var n := t.st.nextOverflow;
      if PageAt(r, id).overflowId.Some? {
        assert PageAt(r, Overflow(n)) == Page(map[key := value], None);
      }
    }
  }

  /** Every page on a chain contributes its keys to the chain's key set. */
  lemma {:induction false} ChainMemberKeys(t: Table, id: PageId, member: PageId)
    requires Valid(t) && Present(t, id) && member in Chain(t, id)
    ensures Present(t, member) && PageAt(t, member).kvPairs.Keys <= ChainKeys(t, id)
    decreases Measure(t, id)
  {
    NextIsPresent(t, id);
    if member != id {
      var l := PageAt(t, id).overflowId.value;
      assert Chain(t, id) == [id] + Chain(t, Overflow(l));
      ChainMemberKeys(t, Overflow(l), member);
    }
  }

  /** The bucket invariant: every key stored on bucket b's chain is addressed
      to b. */
  ghost predicate BucketsOk(t: Table)
    requires Valid(t)
  {
    forall b :: 0 <= b < MainPageCount(t.st) ==> BucketOk(t, b)
  }

  /** Every key on bucket b's chain is addressed to b. */
  ghost predicate BucketOk(t: Table, b: nat)
    requires Valid(t) && b < MainPageCount(t.st)
  {
    forall k :: k in ChainKeys(t, Main(b)) ==> |k| >= 8 && BucketOf(t.st, k) == b
  }

  /** Under the bucket invariant the tail of bucket b lies on no other
      bucket's chain: a main tail is b's own main page, and an overflow tail
      holds a key, which only b's chain may hold. */
  lemma {:induction false} TailOnOwnChainOnly(t: Table, b: nat, b2: nat)
    requires Valid(t) && BucketsOk(t)
    requires b < MainPageCount(t.st) && b2 < MainPageCount(t.st) && b != b2
    ensures Tail(t, Main(b)) !in Chain(t, Main(b2))
  {
    var tailId := Tail(t, Main(b));
    TailIsLast(t, Main(b));
    if tailId.Main? {
      MainOnlyAtHead(t, Main(b2), tailId);
    } else if tailId in Chain(t, Main(b2)) {
      SharedPageSharesKey(t, Main(b), Main(b2), tailId);
      var k :| k in ChainKeys(t, Main(b)) && k in ChainKeys(t, Main(b2));
      BucketOfChainKey(t, b, k);
      BucketOfChainKey(t, b2, k);
    }
  }

  /** One instance of the bucket invariant. */
  lemma BucketOfChainKey(t: Table, b: nat, k: Bytes)
    requires Valid(t) && BucketsOk(t) && b < MainPageCount(t.st)
    requires Present(t, Main(b)) && k in ChainKeys(t, Main(b))
    ensures |k| >= 8 && BucketOf(t.st, k) == b
  {
    assert BucketOk(t, b);
  }

  /** A main page occurs on a chain only as its head. */
  lemma {:induction false} MainOnlyAtHead(t: Table, id: PageId, m: PageId)
    requires Valid(t) && Present(t, id) && m.Main?
    ensures m in Chain(t, id) ==> m == id
  {
    var c := Chain(t, id);
    if m in c {
      var i :| 0 <= i < |c| && c[i] == m;
      assert i == 0;
    }
  }

  /** An overflow page on two chains gives the two chains a common key. */
  lemma {:induction false} SharedPageSharesKey(t: Table, id1: PageId, id2: PageId, o: PageId)
    requires Valid(t) && Present(t, id1) && Present(t, id2) && o.Overflow?
    requires o in Chain(t, id1) && o in Chain(t, id2)
    ensures exists k :: k in ChainKeys(t, id1) && k in ChainKeys(t, id2)
  {
    ChainMemberKeys(t, id1, o);
    ChainMemberKeys(t, id2, o);
    assert |t.overflow[o.id].kvPairs| > 0;
    var k := PickKey(PageAt(t, o).kvPairs);
    assert k in ChainKeys(t, id1) && k in ChainKeys(t, id2);
  }

  /** Some key of a non-empty map. */
  ghost function PickKey(m: map<Bytes, Bytes>): (k: Bytes)
    requires |m| > 0
    ensures k in m
  {
    var k :| k in m; k
  }

  /** A fresh table satisfies the bucket invariant. */
  lemma NewBucketsOk(main: map<nat, Page>, overflow: map<nat, Page>)
    requires 0 !in main
    ensures Valid(New(main, overflow)) && BucketsOk(New(main, overflow))
  {
    var t := New(main, overflow);
    forall b | 0 <= b < MainPageCount(t.st) ensures BucketOk(t, b) {
      assert PageAt(t, Main(b)) == EmptyPage();
      assert ChainKeys(t, Main(b)) == {};
    }
  }

  /** Setting the page capacity keeps the bucket invariant. */
  lemma {:induction false} RecalibratedBucketsOk(t: Table, m: Option<nat>)
    requires Valid(t) && BucketsOk(t)
    ensures Valid(Recalibrated(t, m)) && BucketsOk(Recalibrated(t, m))
  {
    var u := Recalibrated(t, m);
    CapacityIrrelevant(t, m, Main(0));
    forall b | 0 <= b < MainPageCount(u.st) ensures BucketOk(u, b) {
      CapacityIrrelevant(t, m, Main(b));
      assert BucketOk(t, b);
    }
  }

  /** Placing a key at the tail of its own bucket keeps the bucket invariant:
      the key joins that bucket's chain and no other. */
  lemma {:induction false} PlaceKeepsBuckets(t: Table, key: Bytes, value: Bytes)
    requires Valid(t) && BucketsOk(t) && |key| >= 8 && t.st.maxKv.Some?
    ensures Valid(Place(t, Tail(t, Main(BucketOf(t.st, key))), key, value))
    ensures BucketsOk(Place(t, Tail(t, Main(BucketOf(t.st, key))), key, value))
  {
    var r := Place(t, Tail(t, Main(BucketOf(t.st, key))), key, value);
    PlaceKeepsValid(t, Tail(t, Main(BucketOf(t.st, key))), key, value);
    forall b | 0 <= b < MainPageCount(r.st) ensures BucketOk(r, b) {
      PlacedBucketOk(t, key, value, b);
    }
  }

  /** One bucket of PlaceKeepsBuckets. */
  lemma {:induction false} PlacedBucketOk(t: Table, key: Bytes, value: Bytes, b: nat)
    requires Valid(t) && BucketsOk(t) && |key| >= 8 && t.st.maxKv.Some?
    requires b < MainPageCount(t.st)
    ensures Valid(Place(t, Tail(t, Main(BucketOf(t.st, key))), key, value))
    ensures BucketOk(Place(t, Tail(t, Main(BucketOf(t.st, key))), key, value), b)
  {
    var bk := BucketOf(t.st, key);
    var tailId := Tail(t, Main(bk));
    var r := Place(t, tailId, key, value);
    PlaceKeepsValid(t, tailId, key, value);
    forall k | k in ChainKeys(r, Main(b)) ensures |k| >= 8 && BucketOf(r.st, k) == b {
      if k != key {
        PlaceKeepsLookup(t, tailId, key, value, Main(b), k);
        BucketOfChainKey(t, b, k);
      } else if b != bk {
        TailOnOwnChainOnly(t, bk, b);
        PlaceKeepsLookup(t, tailId, key, value, Main(b), k);
        BucketOfChainKey(t, b, k);
      }
    }
  }

  /** Every insert, whichever duplicate check it applies, keeps the bucket
      invariant. */
  lemma {:induction false} AdmitKeepsBuckets(codec: Codec<Page>, t: Table, key: Bytes, value: Bytes, duplicate: bool)
    requires Valid(t) && BucketsOk(t) && |key| >= 8
    ensures BucketsOk(Admit(codec, t, key, value, duplicate).table)
  {
    var s := Admit(codec, t, key, value, duplicate);
    var t1 := Recalibrated(t, s.table.st.maxKv);
    RecalibratedBucketsOk(t, s.table.st.maxKv);
    if s.outcome.Done? {
      var bk := BucketOf(t.st, key);
      CapacityIrrelevant(t, s.table.st.maxKv, Main(bk));
      assert BucketOf(t1.st, key) == bk;
      PlaceKeepsBuckets(t1, key, value);
      assert s.table == Place(t1, Tail(t1, Main(bk)), key, value);
    } else {
      assert s.table == t1 || s.table == t;
    }
  }

  /** After an insert of a key its bucket does not hold, the key reads back
      its value and every other key reads back what it did before. */
  lemma {:induction false} InsertThenGet(codec: Codec<Page>, t: Table, key: Bytes, value: Bytes, k: Bytes)
    requires Valid(t) && |key| >= 8 && |k| >= 8
    requires Get(t, key).None?
    requires Calibrate(codec, t.st, |key|, |value|).Ok?
    ensures var s := Insert(codec, t, key, value);
      && s.outcome == Done
      && s.table.st.nItems == t.st.nItems + 1
      && Get(s.table, key) == Some(value)
      && (k != key ==> Get(s.table, k) == Get(t, k))
  {
    var s := Insert(codec, t, key, value);
    var r := s.table;
    var t1 := Recalibrated(t, r.st.maxKv);
    var bk := BucketOf(t.st, key);
    var tailId := Tail(t, Main(bk));
    CapacityIrrelevant(t, r.st.maxKv, Main(bk));
    assert r == Place(t1, tailId, key, value);
    PlaceFindsKey(t1, tailId, key, value, Main(bk));
    if k != key {
      var b := BucketOf(t.st, k);
      CapacityIrrelevant(t, r.st.maxKv, Main(b));
      PlaceKeepsLookup(t1, tailId, key, value, Main(b), k);
    }
  }

  /** The corrected insert refuses a key its bucket already holds and then
      changes no lookup, so every key keeps the value it was first given. */
  lemma InsertRefusesDuplicate(codec: Codec<Page>, t: Table, key: Bytes, value: Bytes, k: Bytes)
    requires Valid(t) && |key| >= 8 && |k| >= 8
    requires Get(t, key).Some?
    requires Calibrate(codec, t.st, |key|, |value|).Ok?
    ensures var s := Insert(codec, t, key, value);
      && s.outcome == Failed(KeyAlreadyExists)
      && s.table.st.nItems == t.st.nItems
      && Get(s.table, k) == Get(t, k)
  {
    var s := Insert(codec, t, key, value);
    CapacityIrrelevant(t, s.table.st.maxKv, Main(BucketOf(t.st, k)));
    assert s.table == Recalibrated(t, s.table.st.maxKv);
  }

  // ---------------------------------------------------------------------
  // Sequences of inserts

  /** Every key is long enough for the hash, which reads its first 8 bytes. */
  predicate KeysAddressable(kvs: seq<(Bytes, Bytes)>)
  {
    forall i :: 0 <= i < |kvs| ==> |kvs[i].0| >= 8
  }

  /** Insert the pairs in order, stopping at the first failure. */
  function InsertAll(codec: Codec<Page>, t: Table, kvs: seq<(Bytes, Bytes)>): (s: Step)
    requires Valid(t) && KeysAddressable(kvs)
    ensures Valid(s.table)
    decreases |kvs|
  {
    if |kvs| == 0 then Step(t, Done)
    else
      var s := Insert(codec, t, kvs[0].0, kvs[0].1);
      if s.outcome.Failed? then s else InsertAll(codec, s.table, kvs[1..])
  }

  /** The loop of the index test, over `insert` as written: the pairs in
      order, stopping at the first failure. */
  function InsertAllAsWritten(codec: Codec<Page>, t: Table, kvs: seq<(Bytes, Bytes)>): (s: Step)
    requires Valid(t) && KeysAddressable(kvs)
    ensures Valid(s.table)
    decreases |kvs|
  {
    if |kvs| == 0 then Step(t, Done)
    else
      var s := InsertAsWritten(codec, t, kvs[0].0, kvs[0].1);
      if s.outcome.Failed? then s else InsertAllAsWritten(codec, s.table, kvs[1..])
  }

  /** On pairwise distinct keys that the table does not hold, the run of
      inserts as written is the corrected run: no key ever reaches the
      tail-only duplicate check while sitting on an earlier page. */
  lemma {:induction false} AsWrittenRunAgrees(codec: Codec<Page>, t: Table, kvs: seq<(Bytes, Bytes)>)
    requires Valid(t) && KeysAddressable(kvs)
    requires DistinctKeys(kvs) && AllAbsent(t, kvs)
    ensures InsertAllAsWritten(codec, t, kvs) == InsertAll(codec, t, kvs)
    decreases |kvs|
  {
    if |kvs| > 0 {
      assert Get(t, kvs[0].0).None?;
      InsertAgreesWhenAbsent(codec, t, kvs[0].0, kvs[0].1);
      var s1 := Insert(codec, t, kvs[0].0, kvs[0].1);
      if !s1.outcome.Failed? {
        RestStillAbsent(codec, t, kvs);
        AsWrittenRunAgrees(codec, s1.table, kvs[1..]);
      }
    }
  }

  /** After a successful insert of the first of pairwise distinct absent
      keys, the remaining keys are still distinct and absent. */
  lemma RestStillAbsent(codec: Codec<Page>, t: Table, kvs: seq<(Bytes, Bytes)>)
    requires Valid(t) && |kvs| > 0 && KeysAddressable(kvs)
    requires DistinctKeys(kvs) && AllAbsent(t, kvs)
    requires !Insert(codec, t, kvs[0].0, kvs[0].1).outcome.Failed?
    ensures var s1 := Insert(codec, t, kvs[0].0, kvs[0].1);
      && KeysAddressable(kvs[1..]) && DistinctKeys(kvs[1..])
      && AllAbsent(s1.table, kvs[1..])
  {
    RestOfAbsent(t, kvs);
    RestOfDistinct(kvs);
    assert Calibrate(codec, t.st, |kvs[0].0|, |kvs[0].1|).Ok?;
    InsertOne(codec, t, kvs[0].0, kvs[0].1);
    StillAbsent(t, Insert(codec, t, kvs[0].0, kvs[0].1).table, kvs[0].0, kvs[1..]);
  }

  /** The first of the absent keys is absent, and so are the rest. */
  lemma RestOfAbsent(t: Table, kvs: seq<(Bytes, Bytes)>)
    requires |kvs| > 0 && KeysAddressable(kvs) && AllAbsent(t, kvs)
    ensures |kvs[0].0| >= 8 && Get(t, kvs[0].0).None?
    ensures KeysAddressable(kvs[1..]) && AllAbsent(t, kvs[1..])
  {
    var rest := kvs[1..];
    assert forall i :: 0 <= i < |rest| ==> rest[i] == kvs[i + 1];
  }

  /** One successful insert of a key the table does not hold, stated for
      every other key at once. */
  lemma {:induction false} InsertOne(codec: Codec<Page>, t: Table, key: Bytes, value: Bytes)
    requires Valid(t) && |key| >= 8 && Get(t, key).None?
    requires Calibrate(codec, t.st, |key|, |value|).Ok?
    ensures var s := Insert(codec, t, key, value);
      && s.outcome == Done && s.table.st.maxKv.Some?
      && s.table.st.nItems == t.st.nItems + 1
      && Get(s.table, key) == Some(value)
      && forall k :: |k| >= 8 && k != key ==> Get(s.table, k) == Get(t, k)
  {
    InsertThenGet(codec, t, key, value, key);
    forall k | |k| >= 8 && k != key
      ensures Get(Insert(codec, t, key, value).table, k) == Get(t, k)
    {
      InsertThenGet(codec, t, key, value, k);
    }
  }

  /** No key of kvs equals k. */
  predicate KeyAbsent(kvs: seq<(Bytes, Bytes)>, k: Bytes)
  {
    forall i :: 0 <= i < |kvs| ==> kvs[i].0 != k
  }

  /** The keys of kvs are pairwise distinct. */
  predicate DistinctKeys(kvs: seq<(Bytes, Bytes)>)
  {
    forall i, j :: 0 <= i < j < |kvs| ==> kvs[i].0 != kvs[j].0
  }

  /** The table holds none of the keys of kvs. */
  ghost predicate AllAbsent(t: Table, kvs: seq<(Bytes, Bytes)>)
  {
    && Valid(t)
    && forall i :: 0 <= i < |kvs| ==> |kvs[i].0| >= 8 && Get(t, kvs[i].0).None?
  }

  /** Every key of kvs reads back its value in t. */
  ghost predicate AllPresent(t: Table, kvs: seq<(Bytes, Bytes)>)
  {
    && Valid(t)
    && forall i :: 0 <= i < |kvs| ==> |kvs[i].0| >= 8 && Get(t, kvs[i].0) == Some(kvs[i].1)
  }

  /** The tail of a list of pairs with distinct keys. */
  lemma RestOfDistinct(kvs: seq<(Bytes, Bytes)>)
    requires |kvs| > 0 && DistinctKeys(kvs)
    ensures DistinctKeys(kvs[1..]) && KeyAbsent(kvs[1..], kvs[0].0)
  {
    var rest := kvs[1..];
    assert forall i :: 0 <= i < |rest| ==> rest[i] == kvs[i + 1];
  }

  /** Keys that were absent stay absent when only another key's lookup
      changed. */
  lemma {:induction false} StillAbsent(t: Table, t1: Table, key: Bytes, kvs: seq<(Bytes, Bytes)>)
    requires Valid(t) && Valid(t1) && KeysAddressable(kvs)
    requires forall k :: |k| >= 8 && k != key ==> Get(t1, k) == Get(t, k)
    requires KeyAbsent(kvs, key) && AllAbsent(t, kvs)
    ensures AllAbsent(t1, kvs)
  {
    forall i | 0 <= i < |kvs| ensures Get(t1, kvs[i].0).None? {
      assert kvs[i].0 != key;
    }
  }

  /** Inserting pairwise distinct keys that the table does not hold succeeds
      for every one of them: the item count grows by their number, each key
      reads back its own value, and every other key reads back what it did
      before. Stated for the corrected insert; DistinctAsWrittenReadBack
      carries it to the inserts as written. */
  lemma {:induction false} DistinctInsertsReadBack(codec: Codec<Page>, t: Table, kvs: seq<(Bytes, Bytes)>)
    requires Valid(t) && KeysAddressable(kvs)
    requires DistinctKeys(kvs) && AllAbsent(t, kvs)
    requires t.st.maxKv.Some? || (|kvs| > 0 && CalcMaxKvPerPage(codec, |kvs[0].0|, |kvs[0].1|).Ok?)
    ensures var s := InsertAll(codec, t, kvs);
      && s.outcome == Done
      && s.table.st.nItems == t.st.nItems + |kvs|
      && AllPresent(s.table, kvs)
      && (forall k :: |k| >= 8 && KeyAbsent(kvs, k) ==> Get(s.table, k) == Get(t, k))
    decreases |kvs|
  {
    if |kvs| > 0 {
      var s1 := Insert(codec, t, kvs[0].0, kvs[0].1);
      var rest := kvs[1..];
      InsertOne(codec, t, kvs[0].0, kvs[0].1);
      RestOfDistinct(kvs);
      assert KeysAddressable(rest) by {
        assert forall i :: 0 <= i < |rest| ==> rest[i] == kvs[i + 1];
      }
      assert AllAbsent(t, rest) by {
        assert forall i :: 0 <= i < |rest| ==> rest[i] == kvs[i + 1];
      }
      StillAbsent(t, s1.table, kvs[0].0, rest);
      DistinctInsertsReadBack(codec, s1.table, rest);
      var s := InsertAll(codec, s1.table, rest);
      assert InsertAll(codec, t, kvs) == s;
      ExtendResults(t, s1.table, s.table, kvs);
    }
  }

  /** The same for the inserts as written, which the index test runs. */
  lemma DistinctAsWrittenReadBack(codec: Codec<Page>, t: Table, kvs: seq<(Bytes, Bytes)>)
    requires Valid(t) && KeysAddressable(kvs)
    requires DistinctKeys(kvs) && AllAbsent(t, kvs)
    requires t.st.maxKv.Some? || (|kvs| > 0 && CalcMaxKvPerPage(codec, |kvs[0].0|, |kvs[0].1|).Ok?)
    ensures var s := InsertAllAsWritten(codec, t, kvs);
      && s.outcome == Done
      && s.table.st.nItems == t.st.nItems + |kvs|
      && AllPresent(s.table, kvs)
      && (forall k :: |k| >= 8 && KeyAbsent(kvs, k) ==> Get(s.table, k) == Get(t, k))
  {
    DistinctInsertsReadBack(codec, t, kvs);
    AsWrittenRunAgrees(codec, t, kvs);
  }

  /** The induction step's bookkeeping: results for the rest of the pairs and
      for the first pair combine into results for all of them. */
  lemma {:induction false} ExtendResults(t: Table, t1: Table, t2: Table, kvs: seq<(Bytes, Bytes)>)
    requires Valid(t) && Valid(t1) && Valid(t2)
    requires |kvs| > 0 && KeysAddressable(kvs)
    requires KeyAbsent(kvs[1..], kvs[0].0)
    requires Get(t1, kvs[0].0) == Some(kvs[0].1)
    requires forall k :: |k| >= 8 && k != kvs[0].0 ==> Get(t1, k) == Get(t, k)
    requires AllPresent(t2, kvs[1..])
    requires forall k :: |k| >= 8 && KeyAbsent(kvs[1..], k) ==> Get(t2, k) == Get(t1, k)
    ensures AllPresent(t2, kvs)
    ensures forall k :: |k| >= 8 && KeyAbsent(kvs, k) ==> Get(t2, k) == Get(t, k)
  {
    ExtendPresent(t2, kvs);
    forall k | |k| >= 8 && KeyAbsent(kvs, k) ensures Get(t2, k) == Get(t, k) {
      assert k != kvs[0].0;
      assert KeyAbsent(kvs[1..], k) by {
        assert forall i :: 0 <= i < |kvs[1..]| ==> kvs[1..][i] == kvs[i + 1];
      }
    }
  }

  /** A table holding the rest of the pairs and the first pair holds all. */
  lemma ExtendPresent(t2: Table, kvs: seq<(Bytes, Bytes)>)
    requires |kvs| > 0 && KeysAddressable(kvs)
    requires AllPresent(t2, kvs[1..])
    requires Valid(t2) && Get(t2, kvs[0].0) == Some(kvs[0].1)
    ensures AllPresent(t2, kvs)
  {
    var rest := kvs[1..];
    forall i | 0 <= i < |kvs| ensures Get(t2, kvs[i].0) == Some(kvs[i].1) {
      if i > 0 { assert kvs[i] == rest[i - 1]; }
    }
  }

  /** A fresh table holds no key. */
  lemma NewHoldsNothing(main: map<nat, Page>, overflow: map<nat, Page>, k: Bytes)
    requires 0 !in main && |k| >= 8
    ensures Valid(New(main, overflow)) && Get(New(main, overflow), k) == None
  {
    var t := New(main, overflow);
    assert PageAt(t, Main(BucketOf(t.st, k))) == EmptyPage();
  }

  /** Reopening a main space whose page 0 already links to an overflow page:
      `new` restarts `next_overflow_id` at 0 whatever the files hold, so the
      table breaks the chain invariant, and the next overflow page it
      allocates is page 0 again. */
  lemma ReopenedNotValid(main: map<nat, Page>, overflow: map<nat, Page>)
    requires 0 in main && main[0].overflowId.Some?
    ensures New(main, overflow).st.nextOverflow == 0
    ensures !Valid(New(main, overflow))
  {
    var t := New(main, overflow);
    assert 0 < MainPageCount(t.st);
    assert !LinkWithin(t.main[0].overflowId, -1, t.st.nextOverflow);
  }

  /** The pairs (i, i) for i = 0 .. n-1, each written as an 8-byte
      little-endian integer. */
  function CountingPairs(n: nat): (kvs: seq<(Bytes, Bytes)>)
    ensures |kvs| == n
    ensures forall i :: 0 <= i < n ==> kvs[i] == (LeBytes(i, 8), LeBytes(i, 8))
    ensures KeysAddressable(kvs)
  {
    seq(n, i requires 0 <= i => (LeBytes(i, 8), LeBytes(i, 8)))
  }

  /** Distinct integers below 2^64 have distinct 8-byte encodings. */
  lemma CountingPairsDistinct(n: nat)
    requires n <= TWO_64
    ensures DistinctKeys(CountingPairs(n))
  {
    var kvs := CountingPairs(n);
    assert Pow256(8) == TWO_64;
    forall i, j | 0 <= i < j < |kvs| ensures kvs[i].0 != kvs[j].0 {
      if kvs[i].0 == kvs[j].0 {
        LeBytesInjective(i, j, 8);
      }
    }
  }

  /** A fresh table holds none of the keys of kvs. */
  lemma {:induction false} NewAllAbsent(main: map<nat, Page>, overflow: map<nat, Page>, kvs: seq<(Bytes, Bytes)>)
    requires 0 !in main && KeysAddressable(kvs)
    ensures Valid(New(main, overflow)) && AllAbsent(New(main, overflow), kvs)
  {
    forall i | 0 <= i < |kvs| ensures Get(New(main, overflow), kvs[i].0).None? {
      NewHoldsNothing(main, overflow, kvs[i].0);
    }
  }

  /** A run of inserts as written into a fresh table (main page 0 absent). */
  function FreshRun(codec: Codec<Page>, main: map<nat, Page>, overflow: map<nat, Page>, kvs: seq<(Bytes, Bytes)>): (s: Step)
    requires 0 !in main && KeysAddressable(kvs)
    ensures Valid(s.table)
  {
    InsertAllAsWritten(codec, New(main, overflow), kvs)
  }

  /** Distinct keys inserted as written into a fresh table all read back,
      and the table counts exactly them. */
  lemma {:induction false} FreshInsertsReadBack(codec: Codec<Page>, main: map<nat, Page>, overflow: map<nat, Page>, kvs: seq<(Bytes, Bytes)>)
    requires 0 !in main && |kvs| > 0
    requires KeysAddressable(kvs)
    requires DistinctKeys(kvs)
    requires CalcMaxKvPerPage(codec, |kvs[0].0|, |kvs[0].1|).Ok?
    ensures var s := FreshRun(codec, main, overflow, kvs);
      && s.outcome == Done
      && s.table.st.nItems == |kvs|
      && AllPresent(s.table, kvs)
  {
    NewAllAbsent(main, overflow, kvs);
    DistinctAsWrittenReadBack(codec, New(main, overflow), kvs);
  }

  /** The index test: given that calibration succeeds for the test's 8-byte
      keys and values, inserting the n keys 0, 1, ..., n-1 (each with itself
      as value) into a fresh table succeeds every time, the table counts n
      items and every key reads back its value. */
  lemma {:induction false} CountingKeysReadBack(codec: Codec<Page>, main: map<nat, Page>, overflow: map<nat, Page>, n: nat)
    requires 0 !in main
    requires 0 < n <= TWO_64
    requires CalcMaxKvPerPage(codec, |CountingPairs(n)[0].0|, |CountingPairs(n)[0].1|).Ok?
    ensures var s := FreshRun(codec, main, overflow, CountingPairs(n));
      && s.outcome == Done
      && s.table.st.nItems == n
      && AllPresent(s.table, CountingPairs(n))
  {
    CountingPairsDistinct(n);
    FreshInsertsReadBack(codec, main, overflow, CountingPairs(n));
  }


  // ---------------------------------------------------------------------
  // The tail-only duplicate check

  /** Under the tail-only check, a key held on its bucket's chain but not on
      the tail page is accepted again: the insert reports success and counts
      one more item, yet the lookup still returns the OLD value, because the
      scan stops at the earlier copy. */
  lemma {:induction false} AsWrittenStoresDuplicate(codec: Codec<Page>, t: Table, key: Bytes, value: Bytes)
    requires Valid(t) && |key| >= 8 && t.st.maxKv.Some?
    requires Get(t, key).Some?
    requires key !in PageAt(t, Tail(t, Main(BucketOf(t.st, key)))).kvPairs
    ensures var s := InsertAsWritten(codec, t, key, value);
      && s.outcome == Done
      && s.table.st.nItems == t.st.nItems + 1
      && Get(s.table, key) == Get(t, key)
  {
    var s := InsertAsWritten(codec, t, key, value);
    var bk := BucketOf(t.st, key);
    var tailId := Tail(t, Main(bk));
    assert Recalibrated(t, t.st.maxKv) == t;
    assert s.table == Place(t, tailId, key, value);
    PlaceKeepsLookup(t, tailId, key, value, Main(bk), key);
  }

  /** A key whose first byte is even is addressed to main page 0 at level 1
      before any split. */
  lemma EvenKeyInBucketZero(st: TableState, key: Bytes)
    requires st.level == 1 && st.split == 0 && |key| >= 8 && key[0] % 2 == 0
    ensures Addressable(st) && BucketOf(st, key) == 0
  {
    var h := Hash(key);
    assert LeBytes(h, 8)[0] == key[0];
    assert h % 2 == 0;
    assert LowBits(h, 1) == 0;
  }

  /** Three distinct keys addressed to main page 0 at level 1 before any
      split. */
  predicate ExampleKeys(a: Bytes, b: Bytes, c: Bytes)
  {
    && |a| >= 8 && |b| >= 8 && |c| >= 8
    && a[0] % 2 == 0 && b[0] % 2 == 0 && c[0] % 2 == 0
    && a != b && a != c && b != c
  }

  /** A table that the invariants allow, with capacity two: bucket 0 holds
      keys a and b on its main page and key c on an overflow page. */
  function DuplicateExample(a: Bytes, b: Bytes, c: Bytes): (t: Table)
    ensures Valid(t)
  {
    Table(map[0 := Page(map[a := [1], b := [1]], Some(0)), 1 := EmptyPage()],
          map[0 := Page(map[c := [1]], None)],
          TableState(1, 0, 1, 3, Some(2)))
  }

  /** The keys of the example's chains. */
  lemma DuplicateExampleChains(a: Bytes, b: Bytes, c: Bytes)
    ensures ChainKeys(DuplicateExample(a, b, c), Main(0)) == {a, b, c}
    ensures ChainKeys(DuplicateExample(a, b, c), Main(1)) == {}
  {
    var t := DuplicateExample(a, b, c);
    assert ChainKeys(t, Overflow(0)) == {c};
    assert PageAt(t, Main(0)).kvPairs.Keys == {a, b};
  }

  /** The example satisfies the bucket invariant. */
  lemma DuplicateExampleBucketsOk(a: Bytes, b: Bytes, c: Bytes)
    requires ExampleKeys(a, b, c)
    ensures BucketsOk(DuplicateExample(a, b, c))
  {
    var t := DuplicateExample(a, b, c);
    DuplicateExampleChains(a, b, c);
    EvenKeyInBucketZero(t.st, a);
    EvenKeyInBucketZero(t.st, b);
    EvenKeyInBucketZero(t.st, c);
    assert MainPageCount(t.st) == 2;
    forall bk | 0 <= bk < MainPageCount(t.st) ensures BucketOk(t, bk) {
      forall k | k in ChainKeys(t, Main(bk)) ensures |k| >= 8 && BucketOf(t.st, k) == bk {
        assert bk == 0;
        assert k == a || k == b || k == c;
      }
    }
  }

  /** On that table, inserting key a again with a new value succeeds under the
      tail-only check and leaves key a reading its old value, whereas the
      chain-wide check refuses it. (Keys 0, 2 and 4 as 8-byte little-endian
      integers are such keys.) */
  lemma {:induction false} DuplicateExampleShowsIt(codec: Codec<Page>, a: Bytes, b: Bytes, c: Bytes)
    requires ExampleKeys(a, b, c)
    ensures var t := DuplicateExample(a, b, c);
      && BucketsOk(t)
      && Get(t, a) == Some([1])
      && InsertAsWritten(codec, t, a, [2]).outcome == Done
      && Get(InsertAsWritten(codec, t, a, [2]).table, a) == Some([1])
      && Insert(codec, t, a, [2]).outcome == Failed(KeyAlreadyExists)
  {
    var t := DuplicateExample(a, b, c);
    DuplicateExampleBucketsOk(a, b, c);
    EvenKeyInBucketZero(t.st, a);
    assert PageAt(t, Main(0)).overflowId == Some(0);
    assert Tail(t, Overflow(0)) == Overflow(0);
    assert Tail(t, Main(0)) == Overflow(0);
    assert a !in PageAt(t, Overflow(0)).kvPairs;
    assert Get(t, a) == Some([1]);
    AsWrittenStoresDuplicate(codec, t, a, [2]);
  }
}
