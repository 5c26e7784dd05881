/** foreverhash: the sibling hash engine whose pages keep a parallel array of
    32-bit key digests (xxh32, seed 0) beside the list of key/value pairs, so a
    scan compares keys only where the digest matches. Its addressing and
    calibration are those of the `Addressing` and `Calibration` modules; its
    insert, lookup and split operations are not part of this model. */
module ForeverHash {
  import opened Bytes
  import opened Errors
  import opened Codec
  import opened Addressing
  import opened Calibration

  datatype Page = Page(hashes: seq<U32>, kvPairs: seq<(Bytes, Bytes)>, overflowId: Option<nat>)

  function EmptyPage(): Page
  {
    Page([], [], None)
  }

  /** The digest invariant: one digest per pair, each the digest of its key. */
  ghost predicate DigestsOk(xxh: Digest, p: Page)
  {
    && |p.hashes| == |p.kvPairs|
    && forall i :: 0 <= i < |p.hashes| ==> p.hashes[i] == xxh(p.kvPairs[i].0)
  }

  /** `Page::push`: append the key's digest and the pair. */
  function Push(xxh: Digest, p: Page, key: Bytes, value: Bytes): (q: Page)
    ensures |q.hashes| == |p.hashes| + 1 && |q.kvPairs| == |p.kvPairs| + 1
    ensures q.hashes[..|p.hashes|] == p.hashes && q.kvPairs[..|p.kvPairs|] == p.kvPairs
    ensures q.hashes[|p.hashes|] == xxh(key) && q.kvPairs[|p.kvPairs|] == (key, value)
    ensures q.overflowId == p.overflowId
    ensures DigestsOk(xxh, p) ==> DigestsOk(xxh, q)
  {
    var q := Page(p.hashes + [xxh(key)], p.kvPairs + [(key, value)], p.overflowId);
    assert q.hashes[..|p.hashes|] == p.hashes && q.kvPairs[..|p.kvPairs|] == p.kvPairs;
    q
  }

  // ---------------------------------------------------------------------
  // Reference definitions: a plain key search

  /** Some pair has key k. */
  ghost predicate HasKey(kvs: seq<(Bytes, Bytes)>, k: Bytes)
  {
    exists i :: 0 <= i < |kvs| && kvs[i].0 == k
  }

  /** The lowest index whose key is k. */
  ghost function KeyIndex(kvs: seq<(Bytes, Bytes)>, k: Bytes): (i: nat)
    requires HasKey(kvs, k)
    ensures i < |kvs| && kvs[i].0 == k
    ensures forall j :: 0 <= j < i ==> kvs[j].0 != k
  {
    if kvs[0].0 == k then 0
    else
      var j :| 0 <= j < |kvs| && kvs[j].0 == k;
      assert kvs[1..][j - 1].0 == k;
      1 + KeyIndex(kvs[1..], k)
  }

  /** Position i passes the digest filter and holds key k. */
  predicate DigestHitAt(p: Page, h: U32, k: Bytes, i: nat)
    requires |p.hashes| <= |p.kvPairs|
  {
    i < |p.hashes| && p.hashes[i] == h && p.kvPairs[i].0 == k
  }

  /** Some position passes the digest filter and holds key k. */
  ghost predicate DigestHit(xxh: Digest, p: Page, k: Bytes)
    requires |p.hashes| <= |p.kvPairs|
  {
    exists i: nat :: DigestHitAt(p, xxh(k), k, i)
  }

  /** Under the digest invariant the digest filter loses nothing: a position
      holds key k exactly when it passes the filter and holds k. */
  lemma DigestFilterExact(xxh: Digest, p: Page, k: Bytes, i: nat)
    requires DigestsOk(xxh, p) && i < |p.kvPairs|
    ensures DigestHitAt(p, xxh(k), k, i) <==> p.kvPairs[i].0 == k
  {
  }

  // ---------------------------------------------------------------------
  // The scans

  /** `Page::exists`: scan the digests; where one matches, compare the key.
      The Rust code indexes `kv_pairs` by the digest position, so a page with
      more digests than pairs is outside its contract. */
  method Exists(xxh: Digest, p: Page, key: Bytes) returns (found: bool)
    requires |p.hashes| <= |p.kvPairs|
    ensures found <==> DigestHit(xxh, p, key)
    ensures DigestsOk(xxh, p) ==> (found <==> HasKey(p.kvPairs, key))
  {
    var h2 := xxh(key);
    var i := 0;
    while i < |p.hashes|
      invariant 0 <= i <= |p.hashes|
      invariant forall j: nat :: j < i ==> !DigestHitAt(p, h2, key, j)
    {
      if p.hashes[i] == h2 && p.kvPairs[i].0 == key {
        assert DigestHitAt(p, h2, key, i);
        if DigestsOk(xxh, p) {
          assert HasKey(p.kvPairs, key);
        }
        return true;
      }
      i := i + 1;
    }
    found := false;
    if DigestsOk(xxh, p) && HasKey(p.kvPairs, key) {
      var j :| 0 <= j < |p.kvPairs| && p.kvPairs[j].0 == key;
      DigestFilterExact(xxh, p, key, j);
    }
  }

  /** `PageRef::get_value` on the page the frame's payload archives: the same
      scan, returning the value of the first position that passes the filter
      and holds the key. */
  method GetValue(xxh: Digest, p: Page, key: Bytes) returns (r: Option<Bytes>)
    requires |p.hashes| <= |p.kvPairs|
    ensures r.Some? <==> DigestHit(xxh, p, key)
    ensures r.Some? ==> exists i: nat :: DigestHitAt(p, xxh(key), key, i) && p.kvPairs[i] == (key, r.value)
    ensures DigestsOk(xxh, p) ==> (r.None? <==> !HasKey(p.kvPairs, key))
    ensures DigestsOk(xxh, p) && r.Some? ==> r.value == p.kvPairs[KeyIndex(p.kvPairs, key)].1
  {
    var h2 := xxh(key);
    var i := 0;
    while i < |p.hashes|
      invariant 0 <= i <= |p.hashes|
      invariant forall j: nat :: j < i ==> !DigestHitAt(p, h2, key, j)
    {
      if p.hashes[i] == h2 {
        var kv := p.kvPairs[i];
        if kv.0 == key {
          assert DigestHitAt(p, h2, key, i);
          r := Some(kv.1);
          if DigestsOk(xxh, p) {
            assert HasKey(p.kvPairs, key);
            var m := KeyIndex(p.kvPairs, key);
            if m < i {
              DigestFilterExact(xxh, p, key, m);
            }
          }
          return;
        }
      }
      i := i + 1;
    }
    r := None;
    if DigestsOk(xxh, p) && HasKey(p.kvPairs, key) {
      var j :| 0 <= j < |p.kvPairs| && p.kvPairs[j].0 == key;
      DigestFilterExact(xxh, p, key, j);
    }
  }

  /** The zero-copy lookup and `Page::exists` agree on every page, with or
      without the digest invariant: one returns a value exactly when the
      other answers true. */
  method LookupAgreesWithExists(xxh: Digest, p: Page, key: Bytes) returns (r: Option<Bytes>, found: bool)
    requires |p.hashes| <= |p.kvPairs|
    ensures r.Some? <==> found
    ensures r.Some? ==> exists i: nat :: DigestHitAt(p, xxh(key), key, i) && p.kvPairs[i] == (key, r.value)
  {
    r := GetValue(xxh, p, key);
    found := Exists(xxh, p, key);
  }

  /** `PageRef::overflow_id`: the link of the page the payload archives. The
      archived view is modelled as the decoded page, so the link read from the
      payload of a page the codec round-trips is that page's own link. */
  function OverflowIdOf(codec: Codec<Page>, data: Bytes): (r: Option<nat>)
    requires codec.decode(data).Some?
    ensures forall p :: RoundTrips(codec, p) && data == codec.encode(p) ==> r == p.overflowId
  {
    codec.decode(data).value.overflowId
  }

  /** The link read from a written payload is the page's own link. */
  lemma OverflowIdRoundTrip(codec: Codec<Page>, p: Page)
    requires RoundTrips(codec, p)
    ensures codec.decode(codec.encode(p)).Some?
    ensures OverflowIdOf(codec, codec.encode(p)) == p.overflowId
  {
  }

  // ---------------------------------------------------------------------
  // Calibration (`calc_max_kv_per_page`)

  /** The synthetic page with i entries, built by `push` from an empty page
      with link `Some(1)`: entry j has key `vec![j; ksize]` and value
      `vec![j; vsize]` (j is a u8). */
  function SyntheticPage(xxh: Digest, i: nat, ksize: nat, vsize: nat): Page
  {
    if i == 0 then Page([], [], Some(1))
    else Push(xxh, SyntheticPage(xxh, i - 1, ksize, vsize), Repeat((i - 1) % 256, ksize), Repeat((i - 1) % 256, vsize))
  }

  /** The synthetic page holds exactly the i synthetic entries, in order,
      under the digest invariant. */
  lemma {:induction false} SyntheticPageContents(xxh: Digest, i: nat, ksize: nat, vsize: nat)
    ensures var p := SyntheticPage(xxh, i, ksize, vsize);
      && |p.kvPairs| == i && p.overflowId == Some(1)
      && DigestsOk(xxh, p)
      && forall j :: 0 <= j < i ==> p.kvPairs[j] == (Repeat(j % 256, ksize), Repeat(j % 256, vsize))
  {
    if i > 0 {
      SyntheticPageContents(xxh, i - 1, ksize, vsize);
      var q := SyntheticPage(xxh, i - 1, ksize, vsize);
      var p := SyntheticPage(xxh, i, ksize, vsize);
      assert forall j :: 0 <= j < i - 1 ==> p.kvPairs[j] == p.kvPairs[..|q.kvPairs|][j];
    }
  }

  /** The encoded size of the synthetic page with c entries. */
  function SyntheticSizes(codec: Codec<Page>, xxh: Digest, ksize: nat, vsize: nat): nat -> nat
  {
    c => |codec.encode(SyntheticPage(xxh, c, ksize, vsize))|
  }

  /** `calc_max_kv_per_page(ksize, vsize)` with the page codec as parameter. */
  function CalcMaxKvPerPage(codec: Codec<Page>, xxh: Digest, ksize: nat, vsize: nat): (r: Result<nat>)
    ensures r.Ok? ==> 2 <= r.value <= 255
    ensures r.Ok? ==> forall c :: 0 <= c <= r.value ==>
      |codec.encode(SyntheticPage(xxh, c, ksize, vsize))| <= PAYLOAD_MAX
    ensures r.Ok? && r.value < 255 ==>
      |codec.encode(SyntheticPage(xxh, r.value + 1, ksize, vsize))| > PAYLOAD_MAX
    ensures r.Err? <==> exists c :: 0 <= c <= 2 && |codec.encode(SyntheticPage(xxh, c, ksize, vsize))| > PAYLOAD_MAX
  {
    var size := SyntheticSizes(codec, xxh, ksize, vsize);
    assert forall c :: size(c) == |codec.encode(SyntheticPage(xxh, c, ksize, vsize))|;
    var r := MaxPerPage(size);
    assert r.Err? ==> exists c :: 0 <= c <= 2 && |codec.encode(SyntheticPage(xxh, c, ksize, vsize))| > PAYLOAD_MAX by {
      if r.Err? {
        var c :| 0 <= c <= 2 && size(c) > PAYLOAD_MAX;
        assert |codec.encode(SyntheticPage(xxh, c, ksize, vsize))| > PAYLOAD_MAX;
      }
    }
    r
  }

  // ---------------------------------------------------------------------
  // The table

  datatype Table = Table(main: map<nat, Page>, overflow: map<nat, Page>, st: TableState)

  /** `ForeverHash::new` over the current contents of the two page spaces:
      when main page 0 is missing, main pages 0 and 1 are written empty. */
  function New(main: map<nat, Page>, overflow: map<nat, Page>): (t: Table)
    ensures t.st == Initial()
    ensures t.overflow == overflow
    ensures 0 in main ==> t.main == main
    ensures 0 !in main ==> t.main == main[0 := EmptyPage()][1 := EmptyPage()]
    ensures 0 !in main ==> forall b :: 0 <= b < MainPageCount(t.st) ==> b in t.main && t.main[b] == EmptyPage()
  {
    var m := if 0 in main then main else main[0 := EmptyPage()][1 := EmptyPage()];
    Table(m, overflow, Initial())
  }
}
