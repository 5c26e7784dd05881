/** Linear-hashing addressing shared by both index engines (`LinHash` in
    foreverdb and `ForeverHash` in foreverhash declare the same table state and
    the same address function): the table state, the key hash, the bucket a key
    lives in, the main-page count, and the growth trigger. */
module Addressing {
  import opened Bytes
  import opened Errors

  /** 2^n */
  function Pow2(n: nat): (r: nat)
    ensures r >= 1
  {
    if n == 0 then 1 else 2 * Pow2(n - 1)
  }

  /** The in-memory table state: `main_base_level`, `next_split_main_page_id`,
      `next_overflow_id`, `n_items` and the calibrated `max_kv_per_page`. */
  datatype TableState = TableState(
    level: nat,
    split: nat,
    nextOverflow: nat,
    nItems: nat,
    maxKv: Option<nat>)

  /** The state `new` starts from: two main pages addressed by one bit, nothing
      split, no overflow page, no item, capacity not yet calibrated. */
  function Initial(): (st: TableState)
    ensures st.level == 1 && st.split == 0 && st.nextOverflow == 0
    ensures st.nItems == 0 && st.maxKv == None
    ensures Addressable(st) && MainPageCount(st) == 2
  {
    TableState(1, 0, 0, 0, None)
  }

  /** The shifts `1 << level` and `1 << (level + 1)` stay within 64 bits and the
      split pointer is below 2^level. */
  predicate Addressable(st: TableState)
  {
    st.level < 63 && st.split < Pow2(st.level)
  }

  /** The number of main pages currently in use (`n_main_pages`): 2^level
      base pages plus one sibling per bucket already split. While the split
      pointer is below 2^level that is at least 2^level and below 2^(level+1). */
  function MainPageCount(st: TableState): (n: nat)
    ensures Pow2(st.level) <= n
    ensures Addressable(st) ==> n < Pow2(st.level + 1)
  {
    Pow2(st.level) + st.split
  }

  /** `hash`: the first eight key bytes read as a little-endian u64. The key
      must be at least 64 bits long. */
  function Hash(key: Bytes): (h: U64)
    requires |key| >= 8
    ensures LeBytes(h, 8) == key[..8]
  {
    Le64Value(key[..8])
  }

  /** The low n bits of h: `h & ((1 << n) - 1)`. */
  function LowBits(h: nat, n: nat): (r: nat)
    ensures r < Pow2(n)
  {
    if n == 0 then 0 else h % 2 + 2 * LowBits(h / 2, n - 1)
  }

  /** Taking one more low bit of h either keeps the value or adds 2^n. */
  lemma {:induction false} LowBitsNext(h: nat, n: nat)
    ensures LowBits(h, n + 1) == LowBits(h, n) || LowBits(h, n + 1) == LowBits(h, n) + Pow2(n)
  {
    if n > 0 {
      LowBitsNext(h / 2, n - 1);
    }
  }

  /** `calc_main_page_id` on a hash: the low `level` bits, or `level + 1` bits
      for a bucket below the split pointer (it has already been split). */
  function MainPageId(h: nat, level: nat, split: nat): (r: nat)
    requires level < 63
    ensures r < Pow2(level + 1)
    ensures LowBits(h, level) >= split ==> r == LowBits(h, level)
    ensures LowBits(h, level) < split ==>
      r == LowBits(h, level + 1) && (r == LowBits(h, level) || r == LowBits(h, level) + Pow2(level))
    ensures r >= Pow2(level) ==> LowBits(h, level) < split
    ensures split <= Pow2(level) ==> r < Pow2(level) + split
  {
    LowBitsNext(h, level);
    var b := LowBits(h, level);
    if b < split then LowBits(h, level + 1) else b
  }

  /** The main page (bucket) a key is addressed to under state st. */
  function BucketOf(st: TableState, key: Bytes): (b: nat)
    requires |key| >= 8 && Addressable(st)
    ensures b < MainPageCount(st)
    ensures b == LowBits(Hash(key), st.level) || b == LowBits(Hash(key), st.level) + Pow2(st.level)
  {
    MainPageId(Hash(key), st.level, st.split)
  }

  // ---------------------------------------------------------------------
  // Growth trigger (the split itself is not part of this model).

  /** The item capacity of the main pages, `n_main_pages * max_kv_per_page`:
      a whole number of full pages, one per main page in use. */
  function Capacity(st: TableState): (c: nat)
    requires st.maxKv.Some?
    ensures st.maxKv.value > 0 ==> c % st.maxKv.value == 0 && c / st.maxKv.value == MainPageCount(st)
    ensures st.maxKv.value == 0 ==> c == 0
  {
    var m := st.maxKv.value;
    var c := MainPageCount(st) * m;
    if m > 0 then MulDivExact(MainPageCount(st), m); c else c
  }

  /** foreverhash's trigger `n_items / (n_main_pages * max) > 0.8`, evaluated
      over exact rationals (f64 rounding is not modelled). The f64 quotient by
      a zero capacity is +inf for a positive count and NaN for a zero count,
      so the trigger then fires exactly when the table holds an item. */
  function SplitDue(st: TableState): (due: bool)
    requires st.maxKv.Some?
    ensures due <==> 5 * st.nItems > 4 * Capacity(st)
  {
    var c := Capacity(st);
    if c == 0 then
      // f64: a positive count over zero capacity is +inf; 0/0 is NaN.
      st.nItems > 0
    else
      QuotientAbove(st.nItems, c)
  }

  /** foreverdb's trigger as written, `n_items / n_main_pages * max > 0.8`,
      over exact rationals: Rust evaluates the division first, then the
      product. */
  function SplitDueAsWritten(st: TableState): (due: bool)
    requires st.maxKv.Some?
    ensures due <==> 5 * (st.nItems * st.maxKv.value) > 4 * MainPageCount(st)
  {
    QuotientTimesAbove(st.nItems, MainPageCount(st), st.maxKv.value)
  }

  /** The intended trigger fires exactly when the table holds more than 80% of
      its main-page capacity, and never while it holds at most one item per
      main page (for capacities of at least two entries per page). */
  lemma SplitDueMeansEightyPercent(st: TableState)
    requires st.maxKv.Some?
    ensures SplitDue(st) <==> 5 * st.nItems > 4 * Capacity(st)
    ensures st.maxKv.value >= 2 && st.nItems <= MainPageCount(st) ==> !SplitDue(st)
  {
    var m, p := st.maxKv.value, MainPageCount(st);
    if m >= 2 && st.nItems <= p {
      assert p * m >= 2 * p;
    }
  }

  /** The trigger as written fires on the very first insert into a new table
      for every calibrated capacity, although one item fills at most half of
      one of the two main pages. */
  lemma SplitDueAsWrittenAfterFirstInsert(m: nat)
    requires m >= 2
    ensures var st := Initial().(nItems := 1, maxKv := Some(m));
      SplitDueAsWritten(st) && !SplitDue(st)
  {
    var st := Initial().(nItems := 1, maxKv := Some(m));
    assert MainPageCount(st) == 2;
    SplitDueMeansEightyPercent(st);
  }

  // ---------------------------------------------------------------------
  // Arithmetic used by the triggers

  /** (a * m) / m == a and (a * m) % m == 0. */
  lemma MulDivExact(a: nat, m: nat)
    requires m > 0
    ensures (a * m) % m == 0 && (a * m) / m == a
  {
    var q, r := (a * m) / m, (a * m) % m;
    assert a * m == q * m + r;
    assert (a - q) * m == r;
    if a - q >= 1 {
      MulNonneg(a - q - 1, m);
    } else if a - q <= -1 {
      MulNonneg(q - a - 1, m);
    }
  }

  lemma MulNonneg(a: int, b: int)
    requires a >= 0 && b >= 0
    ensures a * b >= 0
  {
  }

  /** Scaling by a positive factor keeps a strict order. */
  lemma ScaleMono(a: real, b: real, c: real)
    requires c > 0.0 && a < b
    ensures a * c < b * c
  {
  }

  /** A quotient q = x / c exceeds 4/5 exactly when x exceeds 4/5 of c. */
  lemma AboveScaled(q: real, c: real, x: real)
    requires c > 0.0 && q * c == x
    ensures q > 0.8 <==> x > 0.8 * c
  {
    if q > 0.8 {
      ScaleMono(0.8, q, c);
    } else if q < 0.8 {
      ScaleMono(q, 0.8, c);
    }
  }

  /** x / c > 4/5 exactly when 5x > 4c, for a positive c. */
  function QuotientAbove(x: nat, c: nat): (above: bool)
    requires c > 0
    ensures above <==> 5 * x > 4 * c
  {
    AboveScaled((x as real) / (c as real), c as real, x as real);
    (x as real) / (c as real) > 0.8
  }

  /** Dividing first and then multiplying is multiplying first. */
  lemma DivThenMul(a: real, b: real, c: real)
    requires b > 0.0
    ensures a / b * c == (a * c) / b
  {
    var q, r := a / b, (a * c) / b;
    assert q * b == a && r * b == a * c;
    assert (q * c - r) * b == 0.0;
  }

  /** x / p * m > 4/5, evaluated left to right over exact rationals. */
  function QuotientTimesAbove(x: nat, p: nat, m: nat): (above: bool)
    requires p > 0
    ensures above <==> 5 * (x * m) > 4 * p
  {
    DivThenMul(x as real, p as real, m as real);
    assert (x as real) * (m as real) == (x * m) as real;
    AboveScaled((x as real) / (p as real) * (m as real), p as real, (x * m) as real);
    (x as real) / (p as real) * (m as real) > 0.8
  }
}
