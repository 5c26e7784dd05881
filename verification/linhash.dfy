/** The linear-hash index of foreverdb (`LinHash`, `op::Insert`, `op::Get`).
    The two page spaces (main and overflow files) are maps from page id to the
    decoded page; framing is the `Device` module's concern. A bucket is the
    chain that starts at its main page and follows `overflow_id` links through
    the overflow space. The split operation is not modelled: level and split
    pointer stay fixed. */
module LinHash {
  import opened Bytes
  import opened Errors
  import opened Codec
  import opened Addressing
  import opened Calibration

  /** A bucket page: a hash map of key/value pairs and an optional link. */
  datatype Page = Page(kvPairs: map<Bytes, Bytes>, overflowId: Option<nat>)

  function EmptyPage(): Page
  {
    Page(map[], None)
  }

  datatype PageId = Main(id: nat) | Overflow(id: nat)

  datatype Table = Table(main: map<nat, Page>, overflow: map<nat, Page>, st: TableState)

  /** A mutating operation's new table together with its `Result<()>`. */
  datatype Step = Step(table: Table, outcome: Outcome)

  // ---------------------------------------------------------------------
  // Calibration (`calc_max_kv_per_page`)

  /** The entries of the synthetic page with i entries: key `vec![j; ksize]`
      and value `vec![j; vsize]` for j = 0 .. i-1 (j is a u8), inserted in order
      into a hash map. */
  function SyntheticPairs(i: nat, ksize: nat, vsize: nat): map<Bytes, Bytes>
  {
    if i == 0 then map[]
    else SyntheticPairs(i - 1, ksize, vsize)[Repeat((i - 1) % 256, ksize) := Repeat((i - 1) % 256, vsize)]
  }

  function SyntheticPage(i: nat, ksize: nat, vsize: nat): Page
  {
    Page(SyntheticPairs(i, ksize, vsize), Some(1))
  }

  /** `calc_max_kv_per_page(ksize, vsize)` with the page codec as parameter. */
  function CalcMaxKvPerPage(codec: Codec<Page>, ksize: nat, vsize: nat): (r: Result<nat>)
    ensures r.Ok? ==> 2 <= r.value <= 255
    ensures r.Ok? ==> forall c :: 0 <= c <= r.value ==>
      |codec.encode(SyntheticPage(c, ksize, vsize))| <= PAYLOAD_MAX
    ensures r.Ok? && r.value < 255 ==>
      |codec.encode(SyntheticPage(r.value + 1, ksize, vsize))| > PAYLOAD_MAX
    ensures r.Err? <==> exists c :: 0 <= c <= 2 && |codec.encode(SyntheticPage(c, ksize, vsize))| > PAYLOAD_MAX
    ensures r.Err? ==> r.error == CapacityTooSmall
  {
    var size := SyntheticSizes(codec, ksize, vsize);
    assert forall c :: size(c) == |codec.encode(SyntheticPage(c, ksize, vsize))|;
    MaxPerPage(size)
  }

  /** The encoded size of the synthetic page with c entries. */
  function SyntheticSizes(codec: Codec<Page>, ksize: nat, vsize: nat): nat -> nat
  {
    c => |codec.encode(SyntheticPage(c, ksize, vsize))|
  }

  /** The lazy calibration at the start of `Insert::exec`: computed from the
      first inserted key and value sizes, never recomputed once set. */
  function Calibrate(codec: Codec<Page>, st: TableState, ksize: nat, vsize: nat): (r: Result<TableState>)
    ensures st.maxKv.Some? ==> r == Ok(st)
    ensures r.Ok? ==> r.value.maxKv.Some? && r.value == st.(maxKv := r.value.maxKv)
    ensures st.maxKv.None? ==>
      && (r.Ok? <==> CalcMaxKvPerPage(codec, ksize, vsize).Ok?)
      && (r.Ok? ==> r.value.maxKv == Some(CalcMaxKvPerPage(codec, ksize, vsize).value))
    ensures r.Err? ==> r.error == CapacityTooSmall
  {
    if st.maxKv.Some? then Ok(st)
    else match CalcMaxKvPerPage(codec, ksize, vsize)
      case Ok(m) => Ok(st.(maxKv := Some(m)))
      case Err(e) => Err(e)
  }

  // ---------------------------------------------------------------------
  // Pages, chains and the table invariant

  /** A page id that is in use: a main page below the main-page count, or an
      overflow page below `next_overflow_id`. */
  predicate Present(t: Table, id: PageId)
  {
    match id
    case Main(b) => b < MainPageCount(t.st) && b in t.main
    case Overflow(o) => o < t.st.nextOverflow && o in t.overflow
  }

  function PageAt(t: Table, id: PageId): Page
    requires Present(t, id)
  {
    match id
    case Main(b) => t.main[b]
    case Overflow(o) => t.overflow[o]
  }

  /** A link that, when present, lies strictly between `above` and `below`. */
  predicate LinkWithin(link: Option<nat>, above: int, below: nat)
  {
    link.Some? ==> above < link.value < below
  }

  /** The chain invariant: every page in use exists; a link out of a main page
      is below `next_overflow_id`; a link out of overflow page o is above o and
      below `next_overflow_id` (so chains are acyclic); overflow pages are
      never empty. */
  ghost predicate Valid(t: Table)
  {
    && Addressable(t.st)
    && (forall b :: 0 <= b < MainPageCount(t.st) ==>
          b in t.main && LinkWithin(t.main[b].overflowId, -1, t.st.nextOverflow))
    && (forall o :: 0 <= o < t.st.nextOverflow ==>
          && o in t.overflow
          && LinkWithin(t.overflow[o].overflowId, o, t.st.nextOverflow)
          && |t.overflow[o].kvPairs| > 0)
  }

  /** Decreases along every link of a valid table. */
  function Measure(t: Table, id: PageId): nat
  {
    match id
    case Main(_) => t.st.nextOverflow + 1
    case Overflow(o) => if o < t.st.nextOverflow then t.st.nextOverflow - o else 0
  }

  lemma NextIsPresent(t: Table, id: PageId)
    requires Valid(t) && Present(t, id)
    ensures PageAt(t, id).overflowId.Some? ==>
      Present(t, Overflow(PageAt(t, id).overflowId.value))
      && Measure(t, Overflow(PageAt(t, id).overflowId.value)) < Measure(t, id)
  {
  }

  /** The ids of the chain from id: follow links until a page has none. */
  function Chain(t: Table, id: PageId): (c: seq<PageId>)
    requires Valid(t) && Present(t, id)
    ensures |c| >= 1 && c[0] == id
    ensures forall i :: 0 <= i < |c| ==> Present(t, c[i])
    ensures forall i :: 1 <= i < |c| ==> c[i].Overflow?
    ensures forall i :: 0 <= i < |c| - 1 ==> PageAt(t, c[i]).overflowId == Some(c[i + 1].id)
    ensures PageAt(t, c[|c| - 1]).overflowId.None?
    decreases Measure(t, id)
  {
    NextIsPresent(t, id);
    match PageAt(t, id).overflowId
    case None => [id]
    case Some(l) => [id] + Chain(t, Overflow(l))
  }

  /** The tail-page walk of `Insert::exec`. */
  function Tail(t: Table, id: PageId): (r: PageId)
    requires Valid(t) && Present(t, id)
    ensures Present(t, r) && PageAt(t, r).overflowId.None?
    ensures r.Main? ==> r == id
    decreases Measure(t, id)
  {
    NextIsPresent(t, id);
    match PageAt(t, id).overflowId
    case None => id
    case Some(l) => Tail(t, Overflow(l))
  }

  /** The tail is the last page of the chain. */
  lemma {:induction false} TailIsLast(t: Table, id: PageId)
    requires Valid(t) && Present(t, id)
    ensures Tail(t, id) == Chain(t, id)[|Chain(t, id)| - 1]
    ensures Tail(t, id) in Chain(t, id)
    decreases Measure(t, id)
  {
    NextIsPresent(t, id);
    if PageAt(t, id).overflowId.Some? {
      TailIsLast(t, Overflow(PageAt(t, id).overflowId.value));
    }
  }

  /** Every key stored on the chain from id. */
  function ChainKeys(t: Table, id: PageId): set<Bytes>
    requires Valid(t) && Present(t, id)
    decreases Measure(t, id)
  {
    NextIsPresent(t, id);
    var here := PageAt(t, id).kvPairs.Keys;
    match PageAt(t, id).overflowId
    case None => here
    case Some(l) => here + ChainKeys(t, Overflow(l))
  }

  /** The pages of the chain from id, in chain order. */
  function ChainPages(t: Table, id: PageId): (ps: seq<Page>)
    requires Valid(t) && Present(t, id)
    ensures |ps| == |Chain(t, id)|
    ensures forall i :: 0 <= i < |ps| ==> ps[i] == PageAt(t, Chain(t, id)[i])
    decreases Measure(t, id)
  {
    NextIsPresent(t, id);
    match PageAt(t, id).overflowId
    case None => [PageAt(t, id)]
    case Some(l) => [PageAt(t, id)] + ChainPages(t, Overflow(l))
  }

  /** No page before position i holds the key. */
  predicate NoneBefore(ps: seq<Page>, key: Bytes, i: nat)
    requires i <= |ps|
  {
    forall j :: 0 <= j < i ==> key !in ps[j].kvPairs
  }

  /** The first page of ps that holds the key maps it to v. */
  ghost predicate FirstHit(ps: seq<Page>, key: Bytes, v: Bytes)
  {
    exists i :: 0 <= i < |ps| && key in ps[i].kvPairs && ps[i].kvPairs[key] == v && NoneBefore(ps, key, i)
  }

  /** Prepending a page without the key keeps the first hit. */
  lemma FirstHitPrepend(p: Page, ps: seq<Page>, key: Bytes, v: Bytes)
    requires key !in p.kvPairs && FirstHit(ps, key, v)
    ensures FirstHit([p] + ps, key, v)
  {
    var qs := [p] + ps;
    var i :| 0 <= i < |ps| && key in ps[i].kvPairs && ps[i].kvPairs[key] == v && NoneBefore(ps, key, i);
    assert qs[i + 1] == ps[i];
    assert NoneBefore(qs, key, i + 1) by {
      forall j | 0 <= j < i + 1 ensures key !in qs[j].kvPairs {
        if j > 0 { assert qs[j] == ps[j - 1]; }
      }
    }
  }

  /** The scan of `Get::exec` from page id: stop at the first page holding
      the key, else follow the link; no link means no value. */
  function LookupFrom(t: Table, id: PageId, key: Bytes): (r: Option<Bytes>)
    requires Valid(t) && Present(t, id)
    ensures r.Some? <==> key in ChainKeys(t, id)
    decreases Measure(t, id)
  {
    NextIsPresent(t, id);
    var p := PageAt(t, id);
    if key in p.kvPairs then Some(p.kvPairs[key])
    else match p.overflowId
      case None => None
      case Some(l) => LookupFrom(t, Overflow(l), key)
  }

  /** The lookup returns the value on the first page of the chain, in chain
      order, that holds the key, and None exactly when no page of the chain
      holds it. */
  lemma {:induction false} LookupIsFirstHit(t: Table, id: PageId, key: Bytes)
    requires Valid(t) && Present(t, id)
    ensures LookupFrom(t, id, key).Some? ==> FirstHit(ChainPages(t, id), key, LookupFrom(t, id, key).value)
    ensures LookupFrom(t, id, key).None? <==> NoneBefore(ChainPages(t, id), key, |ChainPages(t, id)|)
    decreases Measure(t, id)
  {
    NextIsPresent(t, id);
    var p := PageAt(t, id);
    var ps := ChainPages(t, id);
    if key in p.kvPairs {
      assert ps[0] == p && NoneBefore(ps, key, 0);
    } else if p.overflowId.Some? {
      var l := p.overflowId.value;
      var r := LookupFrom(t, Overflow(l), key);
      var qs := ChainPages(t, Overflow(l));
      LookupIsFirstHit(t, Overflow(l), key);
      assert ps == [p] + qs;
      if r.Some? {
        FirstHitPrepend(p, qs, key, r.value);
        assert !NoneBefore(ps, key, |ps|) by {
          var i :| 0 <= i < |ps| && key in ps[i].kvPairs && ps[i].kvPairs[key] == r.value && NoneBefore(ps, key, i);
        }
      } else {
        assert NoneBefore(ps, key, |ps|) by {
          forall j | 0 <= j < |ps| ensures key !in ps[j].kvPairs {
            if j > 0 { assert ps[j] == qs[j - 1]; }
          }
        }
      }
    }
  }

  /** `Get::exec`: look the key up along its bucket's chain. */
  function Get(t: Table, key: Bytes): (r: Option<Bytes>)
    requires Valid(t) && |key| >= 8
    ensures r.Some? <==> key in ChainKeys(t, Main(BucketOf(t.st, key)))
  {
    LookupFrom(t, Main(BucketOf(t.st, key)), key)
  }

  // ---------------------------------------------------------------------
  // Creation

  /** `LinHash::new` over the current contents of the two page spaces: when
      main page 0 is missing, main pages 0 and 1 are written empty. */
  function New(main: map<nat, Page>, overflow: map<nat, Page>): (t: Table)
    ensures t.st == Initial()
    ensures t.overflow == overflow
    ensures 0 in main ==> t.main == main
    ensures 0 !in main ==> t.main == main[0 := EmptyPage()][1 := EmptyPage()]
    ensures 0 !in main ==> Valid(t)
  {
    var m := if 0 in main then main else main[0 := EmptyPage()][1 := EmptyPage()];
    Table(m, overflow, Initial())
  }

  // ---------------------------------------------------------------------
  // Insertion

  function WritePageAt(t: Table, id: PageId, p: Page): Table
  {
    match id
    case Main(b) => t.(main := t.main[b := p])
    case Overflow(o) => t.(overflow := t.overflow[o := p])
  }

  /** The second half of `Insert::exec`, once the tail page is known and holds
      no copy of the key: append in place when the tail has room, otherwise
      write a new overflow page holding just the pair at id `next_overflow_id`
      and link the old tail to it. Either way `n_items` grows by one. */
  function Place(t: Table, tailId: PageId, key: Bytes, value: Bytes): (r: Table)
    requires Valid(t) && Present(t, tailId) && PageAt(t, tailId).overflowId.None?
    requires t.st.maxKv.Some?
    ensures r.st.nItems == t.st.nItems + 1
    ensures r.st.level == t.st.level && r.st.split == t.st.split && r.st.maxKv == t.st.maxKv
    ensures Present(r, tailId)
    ensures forall id :: Present(t, id) ==> Present(r, id)
    ensures forall id :: Present(t, id) && id != tailId ==> PageAt(r, id) == PageAt(t, id)
    ensures var tail, n := PageAt(t, tailId), t.st.nextOverflow;
      if |tail.kvPairs| < t.st.maxKv.value then
        && r.st.nextOverflow == n
        && PageAt(r, tailId) == tail.(kvPairs := tail.kvPairs[key := value])
        && r.overflow.Keys == t.overflow.Keys
      else
        && r.st.nextOverflow == n + 1
        && Present(r, Overflow(n))
        && PageAt(r, Overflow(n)) == Page(map[key := value], None)
        && PageAt(r, tailId) == tail.(overflowId := Some(n))
  {
    var tail := PageAt(t, tailId);
    if |tail.kvPairs| < t.st.maxKv.value then
      var t1 := WritePageAt(t, tailId, tail.(kvPairs := tail.kvPairs[key := value]));
      t1.(st := t1.st.(nItems := t.st.nItems + 1))
    else
      var n := t.st.nextOverflow;
      var t1 := t.(overflow := t.overflow[n := Page(map[key := value], None)],
                   st := t.st.(nextOverflow := n + 1));
      var t2 := WritePageAt(t1, tailId, tail.(overflowId := Some(n)));
      t2.(st := t2.st.(nItems := t.st.nItems + 1))
  }

  /** Place keeps the chain invariant. */
  lemma PlaceKeepsValid(t: Table, tailId: PageId, key: Bytes, value: Bytes)
    requires Valid(t) && Present(t, tailId) && PageAt(t, tailId).overflowId.None?
    requires t.st.maxKv.Some?
    ensures Valid(Place(t, tailId, key, value))
  {
    var r := Place(t, tailId, key, value);
    var n := t.st.nextOverflow;
    forall b | 0 <= b < MainPageCount(r.st)
      ensures b in r.main && LinkWithin(r.main[b].overflowId, -1, r.st.nextOverflow)
    {
      assert Present(t, Main(b));
      assert PageAt(r, Main(b)) == r.main[b];
    }
    forall o | 0 <= o < r.st.nextOverflow
      ensures o in r.overflow
      ensures LinkWithin(r.overflow[o].overflowId, o, r.st.nextOverflow)
      ensures |r.overflow[o].kvPairs| > 0
    {
      if o < n {
        assert Present(t, Overflow(o));
        assert PageAt(r, Overflow(o)) == r.overflow[o];
        if Overflow(o) == tailId {
          assert |r.overflow[o].kvPairs| >= |t.overflow[o].kvPairs|;
        }
      } else {
        assert o == n;
        assert PageAt(r, Overflow(n)) == r.overflow[o];
      }
    }
  }

  /** The shared body of `Insert::exec`: calibrate, then either refuse the
      key (`duplicate`) or place it at the tail of its bucket's chain. A
      refused key keeps the calibration but changes no page. */
  function Admit(codec: Codec<Page>, t: Table, key: Bytes, value: Bytes, duplicate: bool): (s: Step)
    requires Valid(t) && |key| >= 8
    ensures Valid(s.table)
    ensures s.table.st.level == t.st.level && s.table.st.split == t.st.split
    ensures t.st.maxKv.Some? ==> s.table.st.maxKv == t.st.maxKv
    ensures Calibrate(codec, t.st, |key|, |value|).Err? ==>
      s == Step(t, Failed(CapacityTooSmall))
    ensures Calibrate(codec, t.st, |key|, |value|).Ok? ==>
      (s.outcome == Failed(KeyAlreadyExists) <==> duplicate)
    ensures s.outcome == Failed(KeyAlreadyExists) ==>
      s.table.main == t.main && s.table.overflow == t.overflow
      && s.table.st == t.st.(maxKv := s.table.st.maxKv)
    ensures s.outcome == Done ==>
      s.table.st.nItems == t.st.nItems + 1 && s.table.st.maxKv.Some?
  {
    match Calibrate(codec, t.st, |key|, |value|)
    case Err(e) => Step(t, Failed(e))
    case Ok(st1) =>
      var t1 := t.(st := st1);
      var tailId := Tail(t, Main(BucketOf(t.st, key)));
      SameShape(t, t1, tailId);
      Settle(t1, tailId, key, value, duplicate)
  }

  /** A table with the same pages, level, split pointer and overflow counter
      is valid too, with the same pages in use. */
  lemma SameShape(t: Table, t1: Table, id: PageId)
    requires Valid(t) && Present(t, id)
    requires t1.main == t.main && t1.overflow == t.overflow
    requires t1.st.level == t.st.level && t1.st.split == t.st.split
    requires t1.st.nextOverflow == t.st.nextOverflow
    ensures Valid(t1) && Present(t1, id) && PageAt(t1, id) == PageAt(t, id)
  {
  }

  /** Once the capacity is known and the tail found: refuse the key, changing
      nothing, or place it. */
  function Settle(t: Table, tailId: PageId, key: Bytes, value: Bytes, duplicate: bool): (s: Step)
    requires Valid(t) && Present(t, tailId) && PageAt(t, tailId).overflowId.None?
    requires t.st.maxKv.Some?
    ensures Valid(s.table)
    ensures s.table.st.level == t.st.level && s.table.st.split == t.st.split
    ensures s.table.st.maxKv == t.st.maxKv
    ensures s.outcome == Failed(KeyAlreadyExists) <==> duplicate
    ensures s.outcome.Failed? ==> s.table == t
    ensures s.outcome == Done ==> s.table.st.nItems == t.st.nItems + 1
  {
    if duplicate then Step(t, Failed(KeyAlreadyExists))
    else
      PlaceKeepsValid(t, tailId, key, value);
      Step(Place(t, tailId, key, value), Done)
  }

  /** `Insert::exec` as written: the key is refused only if the TAIL page of
      its bucket's chain holds it. */
  function InsertAsWritten(codec: Codec<Page>, t: Table, key: Bytes, value: Bytes): (s: Step)
    requires Valid(t) && |key| >= 8
    ensures Valid(s.table)
    ensures Calibrate(codec, t.st, |key|, |value|).Ok? ==>
      (s.outcome == Failed(KeyAlreadyExists) <==>
        key in PageAt(t, Tail(t, Main(BucketOf(t.st, key)))).kvPairs)
  {
    Admit(codec, t, key, value, key in PageAt(t, Tail(t, Main(BucketOf(t.st, key)))).kvPairs)
  }

  /** `Insert::exec` corrected: a key is stored at most once, so the insert
      reports `KeyAlreadyExists` (insert.rs:30-31) when ANY page of its
      bucket's chain holds it, not only the tail page, and never updates. */
  function Insert(codec: Codec<Page>, t: Table, key: Bytes, value: Bytes): (s: Step)
    requires Valid(t) && |key| >= 8
    ensures Valid(s.table)
    ensures Calibrate(codec, t.st, |key|, |value|).Ok? ==>
      (s.outcome == Failed(KeyAlreadyExists) <==> Get(t, key).Some?)
  {
    Admit(codec, t, key, value, Get(t, key).Some?)
  }

  /** The two inserts differ only when the key sits on the chain but not on
      its tail page; for a key absent from its bucket they coincide. */
  lemma InsertAgreesWhenAbsent(codec: Codec<Page>, t: Table, key: Bytes, value: Bytes)
    requires Valid(t) && |key| >= 8 && Get(t, key).None?
    ensures Insert(codec, t, key, value) == InsertAsWritten(codec, t, key, value)
  {
    var tailId := Tail(t, Main(BucketOf(t.st, key)));
    TailKeysInChain(t, Main(BucketOf(t.st, key)));
  }

  /** The tail's keys are keys of the chain. */
  lemma TailKeysInChain(t: Table, id: PageId)
    requires Valid(t) && Present(t, id)
    ensures PageAt(t, Tail(t, id)).kvPairs.Keys <= ChainKeys(t, id)
    decreases Measure(t, id)
  {
    NextIsPresent(t, id);
    if PageAt(t, id).overflowId.Some? {
      TailKeysInChain(t, Overflow(PageAt(t, id).overflowId.value));
    }
  }
}
