/** The probe-limited table of swallowed zeroes, and the finite map it implements. */
module UnitTable {
  import opened Words
  import opened Bits
  import opened VisibleItems

  const UNIT_TABLE_LEN: nat := 0x407
  const UNIT_PROBE_LIMIT: nat := 32

  datatype Key = Key(guid: u64, slot: u32)

  datatype UnitEntry = UnitEntry(guid: u64, slot: u32, stamp: u32, unitRef: u32, used: bool) {
    function ItsKey(): Key { Key(guid, slot) }
  }

  const EMPTY_UNIT := UnitEntry(0, 0, 0, 0, false)

  /** What the table remembers about one pending key. */
  datatype Swallowed = Swallowed(stamp: u32, unitRef: u32)

  /** The two 32-bit words the hash of a key is joined from. */
  datatype Mixed = Mixed(hi: nat, lo: nat)

  function Mix(key: Key): Mixed {
    var p := 0x9e37_79b1 * key.slot;
    var a := Xor(p % TWO32, key.guid % TWO32);
    var d := Xor(p / TWO32, key.guid / TWO32);
    var folded := Xor(Half(d), a);
    var q := folded * 0xed55_8ccd;
    var hi := (folded * 0xff51_afd7 + q / TWO32 + d * 0xed55_8ccd) % TWO32;
    Mixed(hi, Xor(Half(hi), q % TWO32))
  }

  /** Both words are 32 bits wide, so they do not overlap when joined. */
  lemma MixedWords(key: Key)
    ensures Mix(key).hi < TWO32 && Mix(key).lo < TWO32
    ensures Or(Mix(key).hi * TWO32, Mix(key).lo) == Mix(key).hi * TWO32 + Mix(key).lo < TWO64
  {
    var m := Mix(key);
    Pow2Of32();
    var p := 0x9e37_79b1 * key.slot;
    var a := Xor(p % TWO32, key.guid % TWO32);
    var d := Xor(p / TWO32, key.guid / TWO32);
    XorStaysInWidth(Half(m.hi), Xor(Half(d), a) * 0xed55_8ccd % TWO32, 32);
    JoinIsSum(m.hi, m.lo, 32);
  }

  /** The high 31 bits of a 64-bit number folded onto its low ones. */
  function Folded(x: nat): nat { Xor(x, x / 0x2_0000_0000) }

  /** A wrapping 64-bit product. */
  function Scrambled(x: nat): nat { x * 0xff51_afd7_ed55_8ccd % TWO64 }

  /** The 64-bit mix that the two 32-bit words are worked out for. */
  function WideMix(key: Key): nat {
    Folded(Scrambled(Folded(Xor(key.guid, 0x9e37_79b1 * key.slot))))
  }

  /** Exclusive or on words of 32 bits. */
  lemma XorOfWords(a: nat, b: nat, c: nat, d: nat)
    requires b < TWO32 && d < TWO32
    ensures Xor(a * TWO32 + b, c * TWO32 + d) == Xor(a, c) * TWO32 + Xor(b, d)
  {
    Pow2Of32();
    DoubledIsProduct(a, 32);
    DoubledIsProduct(c, 32);
    DoubledIsProduct(Xor(a, c), 32);
    XorByWords(a, b, c, d, 32);
  }

  /** Folding leaves the high word and folds half of it onto the low one. */
  lemma FoldedWords(hi: nat, lo: nat)
    requires hi < TWO32 && lo < TWO32
    ensures Folded(hi * TWO32 + lo) == hi * TWO32 + Xor(lo, Half(hi))
  {
    Pow2Of32();
    assert (hi * TWO32 + lo) / 0x2_0000_0000 == Half(hi);
    XorZero(hi);
    XorOfWords(hi, lo, 0, Half(hi));
  }

  /** The product of two numbers below 2^64, modulo 2^64, word by word. */
  lemma ProductByWords(d: nat, f: nat, k1: nat, k0: nat)
    ensures (d * TWO32 + f) * (k1 * TWO32 + k0) % TWO64 ==
            (f * k1 + f * k0 / TWO32 + d * k0) % TWO32 * TWO32 + f * k0 % TWO32
  {
    var q, h := f * k0, f * k1 + f * k0 / TWO32 + d * k0;
    ProductExpanded(d, f, k1, k0);
    assert (d * TWO32 + f) * (k1 * TWO32 + k0) == (d * k1 + h / TWO32) * TWO64 + (h % TWO32 * TWO32 + q % TWO32);
    RemainderIs((d * TWO32 + f) * (k1 * TWO32 + k0), TWO64, d * k1 + h / TWO32, h % TWO32 * TWO32 + q % TWO32);
  }

  lemma ProductExpanded(d: nat, f: nat, k1: nat, k0: nat)
    ensures (d * TWO32 + f) * (k1 * TWO32 + k0) == d * k1 * TWO64 + (f * k1 + d * k0) * TWO32 + f * k0
  {
    assert (d * TWO32 + f) * (k1 * TWO32 + k0) ==
      d * TWO32 * (k1 * TWO32) + d * TWO32 * k0 + f * (k1 * TWO32) + f * k0;
  }

  /** The words of the product, from the words of the input. */
  function HighWord(d: nat, f: nat): nat {
    (f * 0xff51_afd7 + f * 0xed55_8ccd / TWO32 + d * 0xed55_8ccd) % TWO32
  }

  function LowWord(f: nat): nat {
    f * 0xed55_8ccd % TWO32
  }

  lemma ScrambledWords(d: nat, f: nat)
    ensures Scrambled(d * TWO32 + f) == HighWord(d, f) * TWO32 + LowWord(f)
    ensures HighWord(d, f) < TWO32 && LowWord(f) < TWO32
  {
    ProductByWords(d, f, 0xff51_afd7, 0xed55_8ccd);
  }

  /** What folding makes of a number of two words. */
  function LowerFolded(hi: nat, lo: nat): nat { Xor(Half(hi), lo) }

  predicate Joins(x: nat, hi: nat, lo: nat) {
    x == hi * TWO32 + lo && hi < TWO32 && lo < TWO32
  }

  lemma FoldedJoins(x: nat, hi: nat, lo: nat)
    requires Joins(x, hi, lo)
    ensures Joins(Folded(x), hi, LowerFolded(hi, lo))
  {
    Pow2Of32();
    FoldedWords(hi, lo);
    XorCommutes(lo, Half(hi));
    XorStaysInWidth(Half(hi), lo, 32);
  }

  lemma ScrambledJoins(x: nat, d: nat, f: nat)
    requires Joins(x, d, f)
    ensures Joins(Scrambled(x), HighWord(d, f), LowWord(f))
  {
    ScrambledWords(d, f);
  }

  /** The words of the mix, step by step. */
  lemma MixOfWords(x: nat, d: nat, a: nat, f: nat, hi: nat, low: nat, lo: nat)
    requires Joins(x, d, a) && f == LowerFolded(d, a) && hi == HighWord(d, f) && low == LowWord(f)
    requires lo == LowerFolded(hi, low)
    ensures Joins(Folded(Scrambled(Folded(x))), hi, lo)
  {
    FoldedJoins(x, d, a);
    ScrambledJoins(Folded(x), d, f);
    FoldedJoins(Scrambled(Folded(x)), hi, low);
  }

  lemma MixUnfolds(key: Key, a: nat, d: nat, f: nat, hi: nat)
    requires a == Xor(0x9e37_79b1 * key.slot % TWO32, key.guid % TWO32)
    requires d == Xor(0x9e37_79b1 * key.slot / TWO32, key.guid / TWO32)
    requires f == LowerFolded(d, a) && hi == HighWord(d, f)
    ensures Mix(key) == Mixed(hi, LowerFolded(hi, LowWord(f)))
  {
  }

  /** The two words are those of the 64-bit mix. */
  lemma MixIsWide(key: Key)
    ensures Joins(WideMix(key), Mix(key).hi, Mix(key).lo)
  {
    var p := 0x9e37_79b1 * key.slot;
    var a, d := Xor(p % TWO32, key.guid % TWO32), Xor(p / TWO32, key.guid / TWO32);
    var f := LowerFolded(d, a);
    var hi, low := HighWord(d, f), LowWord(f);
    MixedInput(key, p, a, d);
    MixUnfolds(key, a, d, f, hi);
    MixOfWords(Xor(key.guid, p), d, a, f, hi, low, LowerFolded(hi, low));
  }

  lemma MixedInput(key: Key, p: nat, a: nat, d: nat)
    requires p == 0x9e37_79b1 * key.slot
    requires a == Xor(p % TWO32, key.guid % TWO32) && d == Xor(p / TWO32, key.guid / TWO32)
    ensures Xor(key.guid, p) == d * TWO32 + a && a < TWO32 && d < TWO32
  {
    Pow2Of32();
    XorCommutes(key.guid, p);
    XorOfWords(p / TWO32, p % TWO32, key.guid / TWO32, key.guid % TWO32);
    XorStaysInWidth(p % TWO32, key.guid % TWO32, 32);
    XorStaysInWidth(p / TWO32, key.guid / TWO32, 32);
  }

  /** Table cell a key probes from: the remainder of the 64-bit number the two words make. */
  function UnitBucket(key: Key): (b: nat)
    ensures b < UNIT_TABLE_LEN && b == (Mix(key).hi * TWO32 + Mix(key).lo) % UNIT_TABLE_LEN
  {
    MixedWords(key);
    Or(Mix(key).hi * TWO32, Mix(key).lo) % UNIT_TABLE_LEN
  }

  /** What a table probes from; every result below holds whatever the bucket function is. */
  type Hash = Key -> nat

  /** The cell probed `step` places after `start`. */
  function Probe(start: nat, step: nat): (i: nat)
    ensures i < UNIT_TABLE_LEN
  {
    (start + step) % UNIT_TABLE_LEN
  }

  /** Cell `i` is one of the cells a search for `key` looks at. */
  predicate InWindow(hash: Hash, key: Key, i: nat) {
    (i - hash(key)) % UNIT_TABLE_LEN < UNIT_PROBE_LIMIT
  }

  lemma WindowStep(start: nat, i: nat)
    requires i < UNIT_TABLE_LEN
    ensures Probe(start, (i - start) % UNIT_TABLE_LEN) == i
  {
  }

  /** Some cell a search for `key` looks at is unoccupied. */
  ghost predicate HasRoom(hash: Hash, us: seq<UnitEntry>, key: Key)
    requires |us| == UNIT_TABLE_LEN
  {
    exists step :: 0 <= step < UNIT_PROBE_LIMIT && !us[Probe(hash(key), step)].used
  }

  predicate Due(e: UnitEntry, now: u32) {
    e.used && WrapSub(now, e.stamp) >= RESTORE_WINDOW_MS
  }

  /** No cell from `lo` up to `hi` is aged. */
  predicate NoneDue(us: seq<UnitEntry>, lo: nat, hi: nat, now: u32)
    requires hi <= |us|
  {
    forall i :: lo <= i < hi ==> !Due(us[i], now)
  }

  /** Freeing the first aged cell leaves none aged up to and including it. */
  lemma NoneDueStep(us: seq<UnitEntry>, freed: seq<UnitEntry>, from: nat, idx: nat, now: u32)
    requires from <= idx < |us| == |freed| && NoneDue(us, 0, from, now) && NoneDue(us, from, idx, now)
    requires freed == us[idx := freed[idx]] && !freed[idx].used
    ensures NoneDue(freed, 0, idx + 1, now)
  {
  }

  /** Verdict and new pending map for one write; `room` says whether an absent key could be stored. */
  function UnitWriteOf(pending: map<Key, Swallowed>, room: bool, key: Key, value: u32, current: u32, now: u32)
    : (bool, map<Key, Swallowed>)
  {
    if value != 0 then
      (key in pending && WrapSub(now, pending[key].stamp) < RESTORE_WINDOW_MS && value == current, pending - {key})
    else if current == 0 then
      (false, pending)
    else if key in pending then
      (true, pending[key := pending[key].(stamp := now)])
    else if room then
      (true, pending[key := Swallowed(now, 0)])
    else
      (false, pending)
  }

  /** `UnitWriteOf`, with the unit reference recorded beside a swallowed zero. */
  function UnitWriteRefOf(pending: map<Key, Swallowed>, room: bool, key: Key,
                          value: u32, current: u32, now: u32, unitRef: u32)
    : (bool, map<Key, Swallowed>)
  {
    var (swallowed, after) := UnitWriteOf(pending, room, key, value, current, now);
    (swallowed, if swallowed && value == 0 then after[key := Swallowed(now, unitRef)] else after)
  }

  /** `cell` says where each pending key sits, every used cell is claimed, and no key sits outside its window. */
  ghost predicate Represents(hash: Hash, us: seq<UnitEntry>, cell: map<Key, nat>) {
    && |us| == UNIT_TABLE_LEN
    && (forall k :: k in cell ==> cell[k] < |us| && us[cell[k]].used && us[cell[k]].ItsKey() == k)
    && (forall i :: 0 <= i < |us| && us[i].used ==>
          us[i].ItsKey() in cell && cell[us[i].ItsKey()] == i && InWindow(hash, us[i].ItsKey(), i))
  }

  /** The table as the finite map it implements. */
  ghost function PendingOf(hash: Hash, us: seq<UnitEntry>, cell: map<Key, nat>): map<Key, Swallowed>
    requires Represents(hash, us, cell)
  {
    map k | k in cell :: Swallowed(us[cell[k]].stamp, us[cell[k]].unitRef)
  }

  lemma EmptyTable(hash: Hash, us: seq<UnitEntry>)
    requires |us| == UNIT_TABLE_LEN && forall i :: 0 <= i < |us| ==> !us[i].used
    ensures Represents(hash, us, map[]) && PendingOf(hash, us, map[]) == map[]
  {
  }

  /** Filling a free cell of an absent key's window adds exactly that key. */
  lemma Occupy(hash: Hash, us: seq<UnitEntry>, cell: map<Key, nat>, i: nat, e: UnitEntry)
    requires Represents(hash, us, cell) && i < |us| && !us[i].used
    requires e.used && e.ItsKey() !in cell && InWindow(hash, e.ItsKey(), i)
    ensures Represents(hash, us[i := e], cell[e.ItsKey() := i])
    ensures PendingOf(hash, us[i := e], cell[e.ItsKey() := i]) ==
            PendingOf(hash, us, cell)[e.ItsKey() := Swallowed(e.stamp, e.unitRef)]
    ensures |cell[e.ItsKey() := i]| == |cell| + 1
  {
  }

  /** Clearing a used cell removes exactly its key and leaves a hole no search stops at. */
  lemma Vacate(hash: Hash, us: seq<UnitEntry>, cell: map<Key, nat>, i: nat)
    requires Represents(hash, us, cell) && i < |us| && us[i].used
    ensures Represents(hash, us[i := us[i].(used := false)], cell - {us[i].ItsKey()})
    ensures PendingOf(hash, us[i := us[i].(used := false)], cell - {us[i].ItsKey()}) ==
            PendingOf(hash, us, cell) - {us[i].ItsKey()}
    ensures |cell - {us[i].ItsKey()}| == |cell| - 1
  {
    var key := us[i].ItsKey();
    assert (cell - {key}).Keys == cell.Keys - {key};
    assert |(cell - {key}).Keys| == |cell.Keys| - 1;
  }

  /** Overwriting a used cell's stamp or unit reference changes only that key's record. */
  lemma Refresh(hash: Hash, us: seq<UnitEntry>, cell: map<Key, nat>, i: nat, stamp: u32, unitRef: u32)
    requires Represents(hash, us, cell) && i < |us| && us[i].used
    ensures Represents(hash, us[i := us[i].(stamp := stamp, unitRef := unitRef)], cell)
    ensures PendingOf(hash, us[i := us[i].(stamp := stamp, unitRef := unitRef)], cell)
         == PendingOf(hash, us, cell)[us[i].ItsKey() := Swallowed(stamp, unitRef)]
  {
  }

  /** No table holds more pending keys than cells, so the 32-bit count cannot wrap. */
  lemma {:induction false} CountFits(hash: Hash, us: seq<UnitEntry>, cell: map<Key, nat>)
    requires Represents(hash, us, cell)
    ensures |cell| <= UNIT_TABLE_LEN
    ensures |cell| == |set i | 0 <= i < |us| && us[i].used|
  {
    var live := set i | 0 <= i < |us| && us[i].used;
    CountByCell(hash, us, cell, cell.Keys, live);
    SizeBelow(live, |us|);
  }

  lemma {:induction false} CountByCell(hash: Hash, us: seq<UnitEntry>, cell: map<Key, nat>,
                                       keys: set<Key>, live: set<int>)
    requires Represents(hash, us, cell) && keys <= cell.Keys
    requires forall i :: i in live <==> 0 <= i < |us| && us[i].used && us[i].ItsKey() in keys
    ensures |keys| == |live|
    decreases keys
  {
    if keys == {} {
      assert forall i :: i !in live;
    } else {
      var k :| k in keys;
      CountByCell(hash, us, cell, keys - {k}, live - {cell[k]});
    }
  }

  lemma {:induction false} SizeBelow(s: set<int>, n: nat)
    requires forall i :: i in s ==> 0 <= i < n
    ensures |s| <= n
  {
    if n == 0 {
      assert forall i :: i !in s;
    } else {
      SizeBelow(s - {n - 1}, n - 1);
    }
  }
}
