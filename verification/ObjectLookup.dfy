/** GUID lookup over an intrusive hash chain in wrapping 32-bit memory. */
module ObjectLookup {
  import opened Words
  import opened Bits

  datatype Probe = Visit | HashMiss | LowMiss | HighMiss

  /** Stable memory: every address reads the same word throughout a call. */
  type Memory = u32 -> u32

  datatype Match = Hit | Miss(why: Probe)

  predicate Live(node: u32) {
    node != 0 && node % 2 == 0
  }

  /** The three comparisons against one node, in order. */
  function Compare(read: Memory, node: u32, low: u32, high: u32): Match {
    if read(WrapAdd(node, 0x18)) != low then Miss(HashMiss)
    else if read(WrapAdd(node, 0x30)) != low then Miss(LowMiss)
    else if read(WrapAdd(node, 0x34)) != high then Miss(HighMiss)
    else Hit
  }

  function Bucket(read: Memory, manager: u32, low: u32): u32 {
    WrapAdd(read(WrapAdd(manager, 0x1c)), And(low, read(WrapAdd(manager, 0x24))) * 12 % TWO32)
  }

  /** The manager's table exists. */
  predicate IsSet(read: Memory, manager: u32) {
    read(WrapAdd(manager, 0x24)) != 0xffff_ffff
  }

  function FirstNode(read: Memory, bucket: u32): u32 {
    read(WrapAdd(bucket, 8))
  }

  function NextNode(read: Memory, bucket: u32, node: u32): u32 {
    read(WrapAdd(node, WrapAdd(read(bucket), 4)))
  }

  /** Node `k` is live and its link leads to node `k + 1`. */
  predicate Linked(read: Memory, bucket: u32, chain: seq<u32>, k: nat)
    requires k + 1 < |chain|
  {
    Live(chain[k]) && chain[k + 1] == NextNode(read, bucket, chain[k])
  }

  /** A finite chain: the live nodes in link order, then the terminator. */
  ghost predicate IsChain(read: Memory, bucket: u32, chain: seq<u32>) {
    && chain != [] && chain[0] == FirstNode(read, bucket) && !Live(chain[|chain| - 1])
    && forall k: nat :: k + 1 < |chain| ==> Linked(read, bucket, chain, k)
  }

  /** A bucket is the entry, twelve bytes wide, whose number is the low half reduced to the table's size. */
  lemma BucketIsEntry(read: Memory, manager: u32, low: u32, k: nat)
    requires read(WrapAdd(manager, 0x24)) == Pow2(k) - 1
    ensures Bucket(read, manager, low) == (read((manager + 0x1c) % TWO32) + 12 * (low % Pow2(k))) % TWO32
  {
    WrapAddIsSum(manager, 0x1c);
    MaskedBucket(read(WrapAdd(manager, 0x1c)), low, read(WrapAdd(manager, 0x24)), k);
  }

  lemma MaskedBucket(base: u32, low: u32, mask: u32, k: nat)
    requires mask == Pow2(k) - 1
    ensures WrapAdd(base, And(low, mask) * 12 % TWO32) == (base + 12 * (low % Pow2(k))) % TWO32
  {
    MaskedLow(low, mask, k);
    EntryAddress(base, low % Pow2(k));
  }

  lemma MaskedLow(low: u32, mask: u32, k: nat)
    requires mask == Pow2(k) - 1
    ensures And(low, mask) == low % Pow2(k)
  {
    AndIsRemainder(low, k, mask + 1);
  }

  lemma EntryAddress(base: u32, entry: nat)
    ensures WrapAdd(base, entry * 12 % TWO32) == (base + 12 * entry) % TWO32
  {
  }

  /** Where the nodes of a chain are found: the head in the bucket's third word, each link past the bucket's offset. */
  lemma ChainIsLaidOut(read: Memory, bucket: u32, chain: seq<u32>, k: nat)
    requires IsChain(read, bucket, chain) && k + 1 < |chain|
    ensures chain[0] == read((bucket + 8) % TWO32)
    ensures chain[k] != 0 && chain[k] % 2 == 0
    ensures chain[k + 1] == read((chain[k] + read(bucket) + 4) % TWO32)
  {
    assert Linked(read, bucket, chain, k);
  }

  predicate Misses(read: Memory, node: u32, low: u32, high: u32) {
    Compare(read, node, low, high).Miss?
  }

  /** None of the first `k` nodes matches. */
  ghost predicate Passed(read: Memory, chain: seq<u32>, low: u32, high: u32, k: nat) {
    k < |chain| && forall i :: 0 <= i < k ==> Misses(read, chain[i], low, high)
  }

  /** `k` is the first live node that matches, or the terminator when none does. */
  ghost predicate FirstMatch(read: Memory, chain: seq<u32>, low: u32, high: u32, k: nat) {
    Passed(read, chain, low, high, k) && (k + 1 < |chain| ==> !Misses(read, chain[k], low, high))
  }

  /** Where a search that has passed the first `from` nodes stops. */
  function StopFrom(read: Memory, chain: seq<u32>, low: u32, high: u32, from: nat): (stop: nat)
    requires from < |chain|
    ensures from <= stop < |chain|
    ensures forall i :: from <= i < stop ==> Misses(read, chain[i], low, high)
    ensures stop + 1 < |chain| ==> !Misses(read, chain[stop], low, high)
    decreases |chain| - from
  {
    if from + 1 == |chain| || !Misses(read, chain[from], low, high) then from
    else StopFrom(read, chain, low, high, from + 1)
  }

  /** Where a search of the chain stops. */
  function Stop(read: Memory, chain: seq<u32>, low: u32, high: u32): (stop: nat)
    requires chain != []
    ensures FirstMatch(read, chain, low, high, stop)
  {
    StopFrom(read, chain, low, high, 0)
  }

  /** A chain has one first match. */
  lemma FirstMatchIsStop(read: Memory, chain: seq<u32>, low: u32, high: u32, k: nat)
    requires FirstMatch(read, chain, low, high, k)
    ensures k == Stop(read, chain, low, high)
  {
  }

  /** The node found at `k`, or zero at the terminator. */
  function Answer(chain: seq<u32>, k: nat): u32
    requires k < |chain|
  {
    if k + 1 < |chain| then chain[k] else 0
  }

  /** How many nodes a search that stops at `k` visits. */
  function Visited(chain: seq<u32>, k: nat): nat
    requires k < |chain|
  {
    if k + 1 < |chain| then k + 1 else k
  }

  /** What an observer is told about one node. */
  function Told(m: Match): seq<Probe> {
    match m
    case Hit => [Visit]
    case Miss(why) => [Visit, why]
  }

  /** What an observer is told about the first `k` nodes. */
  function Observed(read: Memory, chain: seq<u32>, low: u32, high: u32, k: nat): seq<Probe>
    requires k <= |chain|
  {
    if k == 0 then []
    else Observed(read, chain, low, high, k - 1) + Told(Compare(read, chain[k - 1], low, high))
  }

  method Matches(read: Memory, node: u32, low: u32, high: u32, observed: seq<Probe>)
    returns (hit: bool, seen: seq<Probe>)
    ensures hit <==> Compare(read, node, low, high).Hit?
    ensures seen == observed + Told(Compare(read, node, low, high))
    ensures var hash, itsLow, itsHigh :=
      read((node + 0x18) % TWO32), read((node + 0x30) % TWO32), read((node + 0x34) % TWO32);
      && (hit <==> hash == low && itsLow == low && itsHigh == high)
      && seen == observed + if hash != low then [Visit, HashMiss]
                            else if itsLow != low then [Visit, LowMiss]
                            else if itsHigh != high then [Visit, HighMiss]
                            else [Visit]
  {
    seen := observed + [Visit];
    if read(WrapAdd(node, 0x18)) != low {
      return false, seen + [HashMiss];
    }
    if read(WrapAdd(node, 0x30)) != low {
      return false, seen + [LowMiss];
    }
    if read(WrapAdd(node, 0x34)) != high {
      return false, seen + [HighMiss];
    }
    hit := true;
  }

  /** The terminator is the only node of a chain that is not live, and every other node leads to the next. */
  lemma OnChain(read: Memory, bucket: u32, chain: seq<u32>, k: nat)
    requires IsChain(read, bucket, chain) && k < |chain|
    ensures Live(chain[k]) <==> k + 1 < |chain|
    ensures k + 1 < |chain| ==> chain[k + 1] == NextNode(read, bucket, chain[k])
  {
    if k + 1 < |chain| {
      assert Linked(read, bucket, chain, k);
    }
  }

  /** Compare the next node of a chain, all before it having missed. */
  method MatchesNext(read: Memory, node: u32, low: u32, high: u32, observed: seq<Probe>,
                     ghost chain: seq<u32>, ghost k: nat) returns (hit: bool, seen: seq<Probe>)
    requires k + 1 < |chain| && node == chain[k] && Passed(read, chain, low, high, k)
    requires observed == Observed(read, chain, low, high, k)
    ensures seen == Observed(read, chain, low, high, k + 1)
    ensures if hit then FirstMatch(read, chain, low, high, k) else Passed(read, chain, low, high, k + 1)
  {
    hit, seen := Matches(read, node, low, high, observed);
  }

  /** Walk one bucket along its chain until a live node matches or the chain ends. */
  method Walk(bucket: u32, low: u32, high: u32, read: Memory, ghost chain: seq<u32>)
    returns (found: u32, seen: seq<Probe>, ghost stop: nat)
    requires IsChain(read, bucket, chain)
    ensures FirstMatch(read, chain, low, high, stop)
    ensures found == Answer(chain, stop) && seen == Observed(read, chain, low, high, Visited(chain, stop))
  {
    stop, seen := 0, [];
    var node := read(WrapAdd(bucket, 8));
    OnChain(read, bucket, chain, 0);
    if !Live(node) {
      return 0, [], 0;
    }
    var hit;
    hit, seen := MatchesNext(read, node, low, high, seen, chain, 0);
    if hit {
      return node, seen, 0;
    }
    var nextOffset := WrapAdd(read(bucket), 4);
    while true
      invariant stop + 1 < |chain| && node == chain[stop]
      invariant Passed(read, chain, low, high, stop + 1)
      invariant seen == Observed(read, chain, low, high, stop + 1)
      decreases |chain| - stop
    {
      OnChain(read, bucket, chain, stop);
      node := read(WrapAdd(node, nextOffset));
      stop := stop + 1;
      OnChain(read, bucket, chain, stop);
      if !Live(node) {
        return 0, seen, stop;
      }
      hit, seen := MatchesNext(read, node, low, high, seen, chain, stop);
      if hit {
        return node, seen, stop;
      }
    }
  }

  /** The whole search: an unset table answers zero without looking. */
  method LookupObserved(manager: u32, low: u32, high: u32, read: Memory, ghost chain: seq<u32>)
    returns (found: u32, seen: seq<Probe>)
    requires IsSet(read, manager) ==> IsChain(read, Bucket(read, manager, low), chain)
    ensures !IsSet(read, manager) ==> found == 0 && seen == []
    ensures IsSet(read, manager) ==>
      && found == Answer(chain, Stop(read, chain, low, high))
      && seen == Observed(read, chain, low, high, Visited(chain, Stop(read, chain, low, high)))
  {
    var mask := read(WrapAdd(manager, 0x24));
    if mask == 0xffff_ffff {
      return 0, [];
    }
    var buckets := read(WrapAdd(manager, 0x1c));
    var bucket := WrapAdd(buckets, And(low, mask) * 12 % TWO32);
    ghost var stop;
    found, seen, stop := Walk(bucket, low, high, read, chain);
    FirstMatchIsStop(read, chain, low, high, stop);
  }

  function Count(seen: seq<Probe>, p: Probe): nat {
    if seen == [] then 0 else Count(seen[..|seen| - 1], p) + if seen[|seen| - 1] == p then 1 else 0
  }

  lemma CountSnoc(seen: seq<Probe>, q: Probe, p: Probe)
    ensures Count(seen + [q], p) == Count(seen, p) + if q == p then 1 else 0
  {
    assert (seen + [q])[..|seen|] == seen;
  }

  lemma CountTold(seen: seq<Probe>, m: Match, p: Probe)
    ensures Count(seen + Told(m), p) == Count(seen, p) + (if p == Visit then 1 else 0) + (if m == Miss(p) then 1 else 0)
  {
    CountSnoc(seen, Visit, p);
    if m.Miss? {
      CountSnoc(seen + [Visit], m.why, p);
      assert seen + Told(m) == seen + [Visit] + [m.why];
    }
  }

  function MissCount(seen: seq<Probe>): nat {
    Count(seen, HashMiss) + Count(seen, LowMiss) + Count(seen, HighMiss)
  }

  lemma ToldBalance(seen: seq<Probe>, m: Match)
    requires m.Hit? || m.why in [HashMiss, LowMiss, HighMiss]
    ensures Count(seen + Told(m), Visit) == Count(seen, Visit) + 1
    ensures MissCount(seen + Told(m)) == MissCount(seen) + if m.Hit? then 0 else 1
  {
    CountTold(seen, m, Visit);
    CountTold(seen, m, HashMiss);
    CountTold(seen, m, LowMiss);
    CountTold(seen, m, HighMiss);
  }

  /** A search visits one node per miss, and one more when it ends in a match. */
  lemma {:induction false} VisitsAreMisses(read: Memory, chain: seq<u32>, low: u32, high: u32, k: nat, visited: nat)
    requires FirstMatch(read, chain, low, high, k) && visited <= Visited(chain, k)
    ensures var seen := Observed(read, chain, low, high, visited);
      Count(seen, Visit) == visited == MissCount(seen) + if visited == k + 1 then 1 else 0
  {
    if visited > 0 {
      VisitsAreMisses(read, chain, low, high, k, visited - 1);
      var last := chain[visited - 1];
      assert visited <= k ==> Misses(read, last, low, high);
      ToldBalance(Observed(read, chain, low, high, visited - 1), Compare(read, last, low, high));
    }
  }

  /** A table that represents `objects`: every bucket's chain is finite and holds exactly the objects hashed to it. */
  ghost predicate Represents(read: Memory, manager: u32, objects: map<(u32, u32), u32>, chains: u32 -> seq<u32>) {
    && IsSet(read, manager)
    && (forall low: u32 :: IsChain(read, Bucket(read, manager, low), chains(low)))
    && (forall low: u32, high: u32, k: nat :: k + 1 < |chains(low)| && !Misses(read, chains(low)[k], low, high) ==>
          (low, high) in objects && objects[(low, high)] == chains(low)[k])
    && (forall low: u32, high: u32 :: (low, high) in objects ==>
          exists k :: 0 <= k < |chains(low)| - 1 && !Misses(read, chains(low)[k], low, high))
  }

  /** On such a table the first match is the map's answer. */
  lemma FirstMatchIsMapLookup(read: Memory, manager: u32, objects: map<(u32, u32), u32>, chains: u32 -> seq<u32>,
                              low: u32, high: u32, k: nat)
    requires Represents(read, manager, objects, chains)
    requires FirstMatch(read, chains(low), low, high, k)
    ensures Answer(chains(low), k) == if (low, high) in objects then objects[(low, high)] else 0
  {
  }

  // ---- The table as it is laid out ---------------------------------------

  /** The two halves of the GUID a node holds. */
  function KeyOf(read: Memory, node: u32): (u32, u32) {
    (read(WrapAdd(node, 0x30)), read(WrapAdd(node, 0x34)))
  }

  /** `node` is one of the live nodes of the chain. */
  predicate OnBucket(chain: seq<u32>, node: u32) {
    exists k :: 0 <= k < |chain| - 1 && chain[k] == node
  }

  /**
   * A well-formed table of `nodes`: every bucket's chain is finite and links nodes of the table only,
   * a node's hash word is the low half of its GUID, it is linked into that half's own bucket, and no
   * two nodes hold the same GUID.
   */
  ghost predicate WellFormed(read: Memory, manager: u32, nodes: set<u32>, chains: u32 -> seq<u32>) {
    && IsSet(read, manager)
    && (forall low: u32 :: IsChain(read, Bucket(read, manager, low), chains(low)))
    && (forall low: u32, k: nat :: k + 1 < |chains(low)| ==> chains(low)[k] in nodes)
    && (forall n :: n in nodes ==> read(WrapAdd(n, 0x18)) == KeyOf(read, n).0)
    && (forall n :: n in nodes ==> OnBucket(chains(KeyOf(read, n).0), n))
    && (forall n, m :: n in nodes && m in nodes && KeyOf(read, n) == KeyOf(read, m) ==> n == m)
  }

  /** The map from GUID to node that a table implements. */
  ghost function Objects(read: Memory, nodes: set<u32>): (objects: map<(u32, u32), u32>)
    requires forall n, m :: n in nodes && m in nodes && KeyOf(read, n) == KeyOf(read, m) ==> n == m
    ensures forall n :: n in nodes ==> KeyOf(read, n) in objects && objects[KeyOf(read, n)] == n
    ensures forall key :: key in objects ==> objects[key] in nodes && KeyOf(read, objects[key]) == key
  {
    map n | n in nodes :: KeyOf(read, n) := n
  }

  /** A node of a well-formed table passes the three comparisons exactly for the GUID it holds. */
  lemma NodeMatchesItsKey(read: Memory, node: u32, low: u32, high: u32)
    requires read(WrapAdd(node, 0x18)) == KeyOf(read, node).0
    ensures !Misses(read, node, low, high) <==> KeyOf(read, node) == (low, high)
  {
  }

  lemma WellFormedRepresents(read: Memory, manager: u32, nodes: set<u32>, chains: u32 -> seq<u32>)
    requires WellFormed(read, manager, nodes, chains)
    ensures Represents(read, manager, Objects(read, nodes), chains)
  {
    var objects := Objects(read, nodes);
    forall low: u32, high: u32, k: nat | k + 1 < |chains(low)| && !Misses(read, chains(low)[k], low, high)
      ensures (low, high) in objects && objects[(low, high)] == chains(low)[k]
    {
      NodeMatchesItsKey(read, chains(low)[k], low, high);
    }
    forall low: u32, high: u32 | (low, high) in objects
      ensures exists k :: 0 <= k < |chains(low)| - 1 && !Misses(read, chains(low)[k], low, high)
    {
      var node := objects[(low, high)];
      NodeMatchesItsKey(read, node, low, high);
      assert OnBucket(chains(low), node);
    }
  }

  /** No node of a well-formed table is null: chained nodes are live. */
  lemma NodesAreLive(read: Memory, manager: u32, nodes: set<u32>, chains: u32 -> seq<u32>, node: u32)
    requires WellFormed(read, manager, nodes, chains) && node in nodes
    ensures Live(node)
  {
    var low := KeyOf(read, node).0;
    var k :| 0 <= k < |chains(low)| - 1 && chains(low)[k] == node;
    OnChain(read, Bucket(read, manager, low), chains(low), k);
  }

  /** Lookup by GUID: the node that holds it, and zero exactly when there is none. */
  method Lookup(manager: u32, low: u32, high: u32, read: Memory, ghost nodes: set<u32>, ghost chains: u32 -> seq<u32>)
    returns (found: u32)
    requires WellFormed(read, manager, nodes, chains)
    ensures found == if (low, high) in Objects(read, nodes) then Objects(read, nodes)[(low, high)] else 0
    ensures found == 0 <==> (low, high) !in Objects(read, nodes)
  {
    var seen;
    found, seen := LookupObserved(manager, low, high, read, chains(low));
    WellFormedRepresents(read, manager, nodes, chains);
    FirstMatchIsMapLookup(read, manager, Objects(read, nodes), chains, low, high, Stop(read, chains(low), low, high));
    if (low, high) in Objects(read, nodes) {
      NodesAreLive(read, manager, nodes, chains, found);
    }
  }

  /** The flags in the third word of the object's descriptor have a bit in common with the mask. */
  ghost predicate Meets(read: Memory, node: u32, mask: u32) {
    var descriptor := read((node + 8) % TWO32);
    exists p: nat :: HasBit(read((descriptor + 8) % TWO32), p) && HasBit(mask, p)
  }

  lemma MaskedFlags(read: Memory, node: u32, mask: u32, descriptor: u32, flags: u32)
    requires descriptor == read(WrapAdd(node, 8)) && flags == read(WrapAdd(descriptor, 8))
    ensures And(flags, mask) != 0 <==> Meets(read, node, mask)
  {
    WrapAddIsSum(node, 8);
    WrapAddIsSum(descriptor, 8);
    if Meets(read, node, mask) {
      var p: nat :| HasBit(flags, p) && HasBit(mask, p);
      BitInBoth(flags, mask, p);
    } else {
      NoBitInBoth(flags, mask);
    }
  }

  /** A nonzero GUID of the table whose object's descriptor has a type flag in common with the mask. */
  ghost predicate Resolves(read: Memory, nodes: set<u32>, low: u32, high: u32, mask: u32)
    requires forall n, m :: n in nodes && m in nodes && KeyOf(read, n) == KeyOf(read, m) ==> n == m
  {
    (low, high) != (0, 0) && (low, high) in Objects(read, nodes) && Meets(read, Objects(read, nodes)[(low, high)], mask)
  }

  /** Resolve a nonzero GUID and keep the object only when its descriptor's type flags meet the mask. */
  method Typed(manager: u32, low: u32, high: u32, mask: u32, read: Memory,
               ghost nodes: set<u32>, ghost chains: u32 -> seq<u32>) returns (found: u32)
    requires WellFormed(read, manager, nodes, chains)
    ensures found != 0 <==> Resolves(read, nodes, low, high, mask)
    ensures found != 0 ==> found == Objects(read, nodes)[(low, high)]
  {
    if low == 0 && high == 0 {
      return 0;
    }
    var candidate := Lookup(manager, low, high, read, nodes, chains);
    if candidate == 0 {
      return 0;
    }
    var descriptor := read(WrapAdd(candidate, 8));
    var flags := read(WrapAdd(descriptor, 8));
    MaskedFlags(read, candidate, mask, descriptor, flags);
    return if And(flags, mask) == 0 then 0 else candidate;
  }
}
