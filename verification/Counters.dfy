/** The sharded table of function counters and the samples made from it
    (profiling/src/lib.rs). Unsigned 64-bit sums saturate where the source's do. */
module Counters {
  import opened ByteStrings
  import opened Sorting

  const MAX_U64: nat := 0xffff_ffff_ffff_ffff

  const SHARD_COUNT: nat := 256

  function Saturated(n: nat): nat { if n > MAX_U64 then MAX_U64 else n }

  datatype Cell = Cell(name: string, units: nat)

  type Table = map<nat, Cell>

  type Units = map<nat, nat>

  /** Units are added up per key; the name is that of the first writer. */
  function Recorded(table: Table, key: nat, name: string, units: nat): Table {
    table[key := if key in table then Cell(table[key].name, Saturated(table[key].units + units)) else Cell(name, units)]
  }

  function UnitsOf(table: Table): Units {
    map key | key in table :: table[key].units
  }

  function NameOf(table: Table, key: nat): string {
    if key in table then table[key].name else ""
  }

  /** What a key gained between two snapshots. */
  function Delta(before: Units, after: Units, key: nat): nat {
    var now := if key in after then after[key] else 0;
    var was := if key in before then before[key] else 0;
    if now > was then now - was else 0
  }

  /** A key lives in the shard given by its remainder. */
  ghost predicate Represents(shards: seq<Table>, flat: Table) {
    && |shards| == SHARD_COUNT
    && (forall i, key :: 0 <= i < SHARD_COUNT && key in shards[i] ==> key % SHARD_COUNT == i)
    && (forall key :: key in flat <==> key in shards[key % SHARD_COUNT])
    && (forall key :: key in flat ==> flat[key] == shards[key % SHARD_COUNT][key])
  }

  class FunctionTable {
    const hash: string -> nat
    const shards: array<Table>
    ghost var flat: Table

    ghost predicate Valid()
      reads this, shards
    {
      Represents(shards[..], flat)
    }

    constructor (hash: string -> nat)
      ensures Valid() && fresh(shards) && flat == map[] && this.hash == hash
    {
      this.hash := hash;
      shards := new Table[SHARD_COUNT](_ => map[]);
      flat := map[];
    }

    method RecordFunctionUnits(name: string, units: nat)
      requires Valid()
      modifies this, shards
      ensures Valid()
      ensures flat == if units == 0 || name == "" then old(flat) else Recorded(old(flat), hash(name), name, units)
    {
      if units == 0 || name == "" {
        return;
      }
      var key := hash(name);
      var cells := shards[key % SHARD_COUNT];
      ghost var before := shards[..];
      if key in cells {
        cells := cells[key := Cell(cells[key].name, Saturated(cells[key].units + units))];
      } else {
        cells := cells[key := Cell(name, units)];
      }
      shards[key % SHARD_COUNT] := cells;
      RecordedShard(before, flat, key, name, units, cells);
      assert shards[..] == before[key % SHARD_COUNT := cells];
      flat := Recorded(flat, key, name, units);
    }

    method FunctionUnitsSnapshot() returns (snapshot: Units)
      requires Valid()
      ensures snapshot == UnitsOf(flat)
    {
      assert shards.Length == SHARD_COUNT;
      hide Represents;
      snapshot := map[];
      for i := 0 to SHARD_COUNT
        invariant forall key :: key in snapshot <==> key in flat && key % SHARD_COUNT < i
        invariant forall key :: key in snapshot ==> snapshot[key] == flat[key].units
      {
        var cells := shards[i];
        RepresentsShard(shards[..], flat, i);
        assert cells == shards[..][i];
        var left := cells.Keys;
        while left != {}
          invariant left <= cells.Keys
          invariant forall key :: key in snapshot <==> key in flat && (key % SHARD_COUNT < i || (key in cells && key !in left))
          invariant forall key :: key in snapshot ==> snapshot[key] == flat[key].units
          decreases left
        {
          var key :| key in left;
          snapshot := snapshot[key := cells[key].units];
          left := left - {key};
        }
      }
    }

    method FunctionName(key: nat) returns (name: string)
      requires Valid()
      ensures name == NameOf(flat, key)
    {
      var cells := shards[key % SHARD_COUNT];
      assert cells == shards[..][key % SHARD_COUNT];
      name := if key in cells then cells[key].name else "";
    }

    /** Lists the keys that gained, the largest gain first. */
    method FunctionUnitsDiff(before: Units, after: Units) returns (diffs: seq<Gain>)
      requires Valid()
      ensures IsDiff(flat, before, after, diffs)
    {
      diffs := [];
      var left := after.Keys;
      while left != {}
        invariant left <= after.Keys
        invariant NoDuplicates(diffs)
        invariant forall g :: g in diffs <==> g.key !in left && IsGain(flat, before, after, g)
        decreases left
      {
        var key :| key in left;
        var delta := Delta(before, after, key);
        if delta != 0 {
          var name := FunctionName(key);
          AddGain(flat, before, after, diffs, left, Gain(key, name, delta));
          diffs := diffs + [Gain(key, name, delta)];
        }
        left := left - {key};
      }
      SortedDiff(flat, before, after, diffs);
      diffs := Sort(diffs, Larger);
    }

    /** Shares the CPU time of a window out over the gains, in proportion. */
    method CollectFunctions(before: Units, after: Units, cpu: nat, limit: nat) returns (samples: seq<Sample>)
      requires Valid()
      ensures exists gains :: IsDiff(flat, before, after, gains) && SharedOut(gains, samples, cpu, limit)
    {
      hide IsDiff, Sum, Represents;
      var diffs := FunctionUnitsDiff(before, after);
      PositiveSum(flat, before, after, diffs);
      var total := TotalUnits(diffs);
      samples := ShareOut(diffs, cpu, total);
      SharesSum(cpu, GainUnits(diffs));
      assert SampleCpu(samples) == Shares(cpu, GainUnits(diffs), total);
      if |samples| > limit {
        SumPrefix(SampleCpu(samples), limit);
        assert SampleCpu(samples[..limit]) == SampleCpu(samples)[..limit];
        samples := samples[..limit];
      }
      assert SharedOut(diffs, samples, cpu, limit);
    }
  }

  /** The first gains, each with its share. As long as the units add up within 64 bits the
      shares never exceed the whole; if the product does too and nothing is cut off, they
      fall short by less than their number. */
  ghost predicate SharedOut(gains: seq<Gain>, samples: seq<Sample>, cpu: nat, limit: nat) {
    && |samples| == (if |gains| < limit then |gains| else limit)
    && (forall i :: 0 <= i < |samples| ==> samples[i].name == gains[i].name && samples[i].units == gains[i].units)
    && (Sum(GainUnits(gains)) <= MAX_U64 ==>
          && (forall i :: 0 <= i < |samples| ==> samples[i].cpu == Share(cpu, gains[i].units, Sum(GainUnits(gains))))
          && Sum(SampleCpu(samples)) <= cpu
          && (0 < |gains| <= limit && cpu * Sum(GainUnits(gains)) <= MAX_U64 ==> cpu - |gains| < Sum(SampleCpu(samples))))
  }

  /** The sum of the units; it wraps around at 64 bits. */
  method TotalUnits(diffs: seq<Gain>) returns (total: nat)
    ensures total == Sum(GainUnits(diffs)) % (MAX_U64 + 1)
  {
    hide Sum;
    total := 0;
    EmptySum();
    for i := 0 to |diffs|
      invariant total == Sum(GainUnits(diffs)[..i]) % (MAX_U64 + 1)
    {
      SumAppend(GainUnits(diffs)[..i], diffs[i].units);
      assert GainUnits(diffs)[..i + 1] == GainUnits(diffs)[..i] + [diffs[i].units];
      total := (total + diffs[i].units) % (MAX_U64 + 1);
    }
    assert GainUnits(diffs)[..|diffs|] == GainUnits(diffs);
  }

  method ShareOut(diffs: seq<Gain>, cpu: nat, total: nat) returns (samples: seq<Sample>)
    ensures |samples| == |diffs|
    ensures forall i :: 0 <= i < |diffs| ==> samples[i] == Sample(diffs[i].name, diffs[i].units, Share(cpu, diffs[i].units, total))
  {
    hide Share;
    samples := [];
    for i := 0 to |diffs|
      invariant |samples| == i
      invariant forall j :: 0 <= j < i ==>
        samples[j] == Sample(diffs[j].name, diffs[j].units, Share(cpu, diffs[j].units, total))
    {
      samples := samples + [Sample(diffs[i].name, diffs[i].units, Share(cpu, diffs[i].units, total))];
    }
  }

  lemma EmptySum()
    ensures forall s: seq<nat> :: s == [] ==> Sum(s) == 0
  {
  }

  lemma PositiveSum(flat: Table, before: Units, after: Units, diffs: seq<Gain>)
    requires IsDiff(flat, before, after, diffs)
    ensures diffs != [] ==> Sum(GainUnits(diffs)) > 0
  {
    if diffs != [] {
      assert diffs[0] in diffs;
      assert GainUnits(diffs)[0] == diffs[0].units;
    }
    hide StrictlySorted, Larger;
  }

  lemma RepresentsShard(shards: seq<Table>, flat: Table, i: nat)
    requires Represents(shards, flat) && i < SHARD_COUNT
    ensures i < |shards|
    ensures forall key :: key in shards[i] <==> key in flat && key % SHARD_COUNT == i
    ensures forall key :: key in shards[i] ==> shards[i][key] == flat[key]
  {
  }

  lemma RecordedShard(shards: seq<Table>, flat: Table, key: nat, name: string, units: nat, cells: Table)
    requires Represents(shards, flat) && cells == Recorded(shards[key % SHARD_COUNT], key, name, units)
    ensures Represents(shards[key % SHARD_COUNT := cells], Recorded(flat, key, name, units))
  {
  }

  // ----- Gains -----

  datatype Gain = Gain(key: nat, name: string, units: nat)

  ghost predicate IsGain(flat: Table, before: Units, after: Units, g: Gain) {
    g.key in after && g.units == Delta(before, after, g.key) > 0 && g.name == NameOf(flat, g.key)
  }

  /** More units first, then by name. Gains equal in both look the same from outside, so
      their order by key does not show. */
  predicate Larger(a: Gain, b: Gain) {
    a.units > b.units
    || (a.units == b.units && (StringLess(a.name, b.name) || (a.name == b.name && a.key < b.key)))
  }

  /** Every gain once, in order. */
  ghost predicate IsDiff(flat: Table, before: Units, after: Units, diffs: seq<Gain>) {
    && StrictlySorted(diffs, Larger)
    && forall g :: g in diffs <==> IsGain(flat, before, after, g)
  }

  lemma LargerIsOrder()
    ensures StrictTotalOrder(Larger)
  {
    forall a, b
      ensures !Larger(a, a) && (a == b || Larger(a, b) || Larger(b, a))
    {
      StringLessTrichotomy(a.name, b.name);
    }
    forall a, b, c | Larger(a, b) && Larger(b, c)
      ensures Larger(a, c)
    {
      if StringLess(a.name, b.name) && StringLess(b.name, c.name) {
        StringLessTransitive(a.name, b.name, c.name);
      }
    }
  }

  lemma AddGain(flat: Table, before: Units, after: Units, diffs: seq<Gain>, left: set<nat>, g: Gain)
    requires NoDuplicates(diffs) && g.key in left && IsGain(flat, before, after, g)
    requires forall h :: h in diffs <==> h.key !in left && IsGain(flat, before, after, h)
    ensures NoDuplicates(diffs + [g])
    ensures forall h :: h in diffs + [g] <==> h.key !in left - {g.key} && IsGain(flat, before, after, h)
  {
    assert g !in diffs;
    assert forall h :: h in diffs + [g] <==> h in diffs || h == g;
    assert forall h :: IsGain(flat, before, after, h) && h.key == g.key ==> h == g;
  }

  lemma SortedDiff(flat: Table, before: Units, after: Units, diffs: seq<Gain>)
    requires NoDuplicates(diffs) && forall g :: g in diffs <==> IsGain(flat, before, after, g)
    ensures IsDiff(flat, before, after, Sort(diffs, Larger))
  {
    hide Larger, IsGain;
    LargerIsOrder();
    SortSorted(diffs, Larger);
    SortMembers(diffs, Larger);
    NoDuplicatesMultiset(diffs);
    NoDuplicatesMultiset(Sort(diffs, Larger));
    StrictlySortedIsSorted(Sort(diffs, Larger), Larger);
  }

  // ----- Shares of CPU time -----

  datatype Sample = Sample(name: string, units: nat, cpu: nat)

  function Sum(s: seq<nat>): nat {
    if s == [] then 0 else s[0] + Sum(s[1..])
  }

  function GainUnits(diffs: seq<Gain>): (units: seq<nat>)
    ensures |units| == |diffs| && forall i :: 0 <= i < |diffs| ==> units[i] == diffs[i].units
  {
    seq(|diffs|, i requires 0 <= i < |diffs| => diffs[i].units)
  }

  function SampleCpu(samples: seq<Sample>): (cpus: seq<nat>)
    ensures |cpus| == |samples| && forall i :: 0 <= i < |samples| ==> cpus[i] == samples[i].cpu
  {
    seq(|samples|, i requires 0 <= i < |samples| => samples[i].cpu)
  }

  /** The product saturates before the division rounds down. */
  function Share(cpu: nat, units: nat, total: nat): nat {
    if total > 0 then Saturated(cpu * units) / total else 0
  }

  function Shares(cpu: nat, units: seq<nat>, total: nat): (shares: seq<nat>)
    ensures |shares| == |units| && forall i :: 0 <= i < |units| ==> shares[i] == Share(cpu, units[i], total)
  {
    seq(|units|, i requires 0 <= i < |units| => Share(cpu, units[i], total))
  }

  lemma {:induction false} SumAppend(s: seq<nat>, x: nat)
    ensures Sum(s + [x]) == Sum(s) + x
  {
    if s == [] {
      assert s + [x] == [x];
    } else {
      SumAppend(s[1..], x);
      assert (s + [x])[1..] == s[1..] + [x];
    }
  }

  lemma {:induction false} SumPrefix(s: seq<nat>, k: nat)
    requires k <= |s|
    ensures Sum(s[..k]) <= Sum(s)
  {
    if k > 0 {
      SumPrefix(s[1..], k - 1);
      assert s[..k][1..] == s[1..][..k - 1];
    }
  }

  lemma ShareBounds(cpu: nat, units: nat, total: nat)
    requires total > 0
    ensures Share(cpu, units, total) * total <= cpu * units
    ensures cpu * units <= MAX_U64 ==> cpu * units < Share(cpu, units, total) * total + total
  {
    var product := Saturated(cpu * units);
    assert product == product / total * total + product % total;
  }

  lemma {:induction false} SharesBounds(cpu: nat, units: seq<nat>, total: nat)
    requires total > 0
    ensures Sum(Shares(cpu, units, total)) * total <= cpu * Sum(units)
    ensures cpu * Sum(units) <= MAX_U64 ==> cpu * Sum(units) + |units| <= (Sum(Shares(cpu, units, total)) + |units|) * total
  {
    var shares := Shares(cpu, units, total);
    if units != [] {
      assert shares[1..] == Shares(cpu, units[1..], total);
      SharesBounds(cpu, units[1..], total);
      ShareBounds(cpu, units[0], total);
      assert |units[1..]| == |units| - 1;
      assert shares[0] == Share(cpu, units[0], total);
      BoundsStep(cpu, total, units[0], Sum(units[1..]), shares[0], Sum(shares[1..]), |units| - 1);
    }
  }

  lemma BoundsStep(cpu: nat, total: nat, unit: nat, units: nat, share: nat, shares: nat, n: nat)
    requires share * total <= cpu * unit && shares * total <= cpu * units
    requires cpu * unit <= MAX_U64 ==> cpu * unit < share * total + total
    requires cpu * units <= MAX_U64 ==> cpu * units + n <= (shares + n) * total
    ensures (share + shares) * total <= cpu * (unit + units)
    ensures cpu * (unit + units) <= MAX_U64 ==> cpu * (unit + units) + (n + 1) <= (share + shares + (n + 1)) * total
  {
    Distribute(cpu, unit, units);
    Distribute(total, share, shares);
    Distribute(total, share + shares, n + 1);
    Distribute(total, shares, n);
    Distribute(total, n, 1);
    Commute(share, total);
    Commute(shares, total);
    Commute(shares + n, total);
    Commute(share + shares, total);
    Commute(share + shares + (n + 1), total);
  }

  lemma Distribute(a: nat, b: nat, c: nat)
    ensures a * (b + c) == a * b + a * c
    ensures a * b <= a * (b + c) && a * c <= a * (b + c)
  {
  }

  lemma Commute(a: nat, b: nat)
    ensures a * b == b * a
  {
  }

  /** The shares add up to at most the whole and fall short by less than their number. */
  lemma SharesSum(cpu: nat, units: seq<nat>)
    ensures Sum(Shares(cpu, units, Sum(units))) <= cpu
    ensures units != [] && Sum(units) > 0 && cpu * Sum(units) <= MAX_U64 ==> cpu - |units| < Sum(Shares(cpu, units, Sum(units)))
  {
    if Sum(units) > 0 {
      SharesSumOf(cpu, units, Sum(units));
    } else {
      NoShares(cpu, units);
    }
  }

  lemma SharesSumOf(cpu: nat, units: seq<nat>, total: nat)
    requires total == Sum(units) > 0
    ensures Sum(Shares(cpu, units, total)) <= cpu
    ensures units != [] && cpu * total <= MAX_U64 ==> cpu - |units| < Sum(Shares(cpu, units, total))
  {
    SharesBounds(cpu, units, total);
    Conclude(Sum(Shares(cpu, units, total)), cpu, total, |units|);
  }

  lemma Conclude(sum: nat, cpu: nat, total: nat, n: nat)
    requires total > 0 && sum * total <= cpu * total
    requires cpu * total <= MAX_U64 ==> cpu * total + n <= (sum + n) * total
    ensures sum <= cpu
    ensures n > 0 && cpu * total <= MAX_U64 ==> cpu - n < sum
  {
    Cancel(sum, cpu, total);
    Cancel(sum + n, cpu, total);
  }

  lemma Cancel(a: nat, b: nat, c: nat)
    requires c > 0
    ensures a * c <= b * c ==> a <= b
    ensures b * c < a * c ==> b < a
  {
    if a > b {
      Distribute(c, b, a - b);
      Distribute(c, 1, a - b - 1);
    } else {
      Distribute(c, a, b - a);
    }
    Commute(a, c);
    Commute(b, c);
  }

  lemma {:induction false} NoShares(cpu: nat, units: seq<nat>)
    ensures Sum(Shares(cpu, units, 0)) == 0
  {
    if units != [] {
      NoShares(cpu, units[1..]);
      assert Shares(cpu, units, 0)[1..] == Shares(cpu, units[1..], 0);
    }
  }

  // ----- The byte budget for stacks -----

  datatype Stack = Stack(folded: Bytes, samples: nat)

  function Cost(stack: Stack): nat { |stack.folded| + 32 }

  function Costs(stacks: seq<Stack>): (costs: seq<nat>)
    ensures |costs| == |stacks| && forall i :: 0 <= i < |stacks| ==> costs[i] == Cost(stacks[i])
  {
    seq(|stacks|, i requires 0 <= i < |stacks| => Cost(stacks[i]))
  }

  /** The stacks at the kept positions. */
  function Picked(stacks: seq<Stack>, kept: seq<bool>): (r: seq<Stack>)
    requires |kept| == |stacks|
    ensures |r| <= |stacks|
  {
    if stacks == [] then []
    else Picked(stacks[..|stacks| - 1], kept[..|kept| - 1]) + if kept[|kept| - 1] then [stacks[|stacks| - 1]] else []
  }

  /** What the stacks kept before position `i` cost. */
  function UsedBefore(stacks: seq<Stack>, kept: seq<bool>, i: nat): nat
    requires |kept| == |stacks| && i <= |stacks|
  {
    Sum(Costs(Picked(stacks[..i], kept[..i])))
  }

  /** A stack is kept exactly if it fits beside the ones kept before it. */
  ghost predicate Greedy(stacks: seq<Stack>, kept: seq<bool>, budget: nat) {
    && |kept| == |stacks|
    && forall i :: 0 <= i < |stacks| ==> (kept[i] <==> UsedBefore(stacks, kept, i) + Cost(stacks[i]) <= budget)
  }

  /** Which stacks are kept: each one that fits beside those kept before it. */
  function Kept(stacks: seq<Stack>, budget: nat): (kept: seq<bool>)
    ensures |kept| == |stacks|
  {
    if stacks == [] then []
    else
      var before := stacks[..|stacks| - 1];
      var kept := Kept(before, budget);
      kept + [Sum(Costs(Picked(before, kept))) + Cost(stacks[|stacks| - 1]) <= budget]
  }

  function KeptStacks(stacks: seq<Stack>, budget: nat): seq<Stack> {
    Picked(stacks, Kept(stacks, budget))
  }

  /** The sum that is compared with the budget saturates and the running sum wraps around;
      neither happens to stacks that fit in memory together. */
  method KeepWithinBudget(stacks: seq<Stack>, budget: nat, limit: nat) returns (r: seq<Stack>)
    ensures Sum(Costs(stacks)) <= MAX_U64 ==>
              r == if |KeptStacks(stacks, budget)| > limit then KeptStacks(stacks, budget)[..limit] else KeptStacks(stacks, budget)
    ensures Sum(Costs(stacks)) <= MAX_U64 ==> Sum(Costs(r)) <= budget
  {
    hide KeptStacks, Sum, Cost;
    r := [];
    var used: nat := 0;
    EmptySum();
    assert KeptStacks([], budget) == [] by {
      NothingKept(budget);
    }
    for i := 0 to |stacks|
      invariant Sum(Costs(stacks)) <= MAX_U64 ==>
        && r == KeptStacks(stacks[..i], budget)
        && used == Sum(Costs(r)) <= Sum(Costs(stacks[..i]))
        && used <= budget
    {
      if Sum(Costs(stacks)) <= MAX_U64 {
        CostsStep(stacks, i);
        KeptStep(stacks, i, budget);
      }
      if Saturated(used + Cost(stacks[i])) <= budget {
        assert Costs(r + [stacks[i]]) == Costs(r) + [Cost(stacks[i])];
        SumAppend(Costs(r), Cost(stacks[i]));
        r := r + [stacks[i]];
        used := (used + Cost(stacks[i])) % (MAX_U64 + 1);
      }
    }
    assert stacks[..|stacks|] == stacks;
    if |r| > limit {
      SumPrefix(Costs(r), limit);
      assert Costs(r[..limit]) == Costs(r)[..limit];
      r := r[..limit];
    }
  }

  lemma NothingKept(budget: nat)
    ensures KeptStacks([], budget) == []
  {
  }

  lemma KeptStep(stacks: seq<Stack>, i: nat, budget: nat)
    requires i < |stacks|
    ensures var before := KeptStacks(stacks[..i], budget);
            KeptStacks(stacks[..i + 1], budget) == before + if Sum(Costs(before)) + Cost(stacks[i]) <= budget then [stacks[i]] else []
  {
    hide Sum, Costs, Cost, Picked;
    var before, next := stacks[..i], stacks[..i + 1];
    assert next[..|next| - 1] == before && next == before + [stacks[i]];
    PickedLast(before, Kept(before, budget), stacks[i], Kept(next, budget)[i]);
  }

  /** The kept stacks are exactly the ones that fit beside those kept before them. */
  lemma {:induction false} KeptGreedy(stacks: seq<Stack>, budget: nat)
    ensures Greedy(stacks, Kept(stacks, budget), budget)
  {
    if stacks == [] {
      NothingPicked(budget);
    } else {
      var n := |stacks| - 1;
      var before := Kept(stacks[..n], budget);
      KeptGreedy(stacks[..n], budget);
      assert stacks[..n + 1] == stacks;
      hide Greedy, Picked, Sum, Costs, Cost;
      GreedyStep(stacks, n, before, Kept(stacks, budget)[n], budget);
    }
  }

  lemma CostsStep(stacks: seq<Stack>, i: nat)
    requires i < |stacks|
    ensures Sum(Costs(stacks[..i + 1])) == Sum(Costs(stacks[..i])) + Cost(stacks[i])
    ensures Sum(Costs(stacks[..i + 1])) <= Sum(Costs(stacks))
  {
    hide Sum, Cost;
    assert Costs(stacks[..i + 1]) == Costs(stacks[..i]) + [Cost(stacks[i])];
    SumAppend(Costs(stacks[..i]), Cost(stacks[i]));
    SumPrefix(Costs(stacks), i + 1);
    assert Costs(stacks[..i + 1]) == Costs(stacks)[..i + 1];
  }

  lemma NothingPicked(budget: nat)
    ensures Greedy([], [], budget) && Picked([], []) == []
  {
  }

  lemma GreedyStep(stacks: seq<Stack>, i: nat, kept: seq<bool>, fits: bool, budget: nat)
    requires i < |stacks| && Greedy(stacks[..i], kept, budget)
    requires fits <==> Sum(Costs(Picked(stacks[..i], kept))) + Cost(stacks[i]) <= budget
    ensures Greedy(stacks[..i + 1], kept + [fits], budget)
    ensures Picked(stacks[..i + 1], kept + [fits]) == Picked(stacks[..i], kept) + if fits then [stacks[i]] else []
  {
    hide UsedBefore, Sum, Cost, Costs, Picked;
    var before := stacks[..i];
    assert stacks[..i + 1] == before + [stacks[i]];
    PickedLast(before, kept, stacks[i], fits);
    UsedBeforeLast(before, kept, stacks[i], fits);
    forall j | 0 <= j < i + 1
      ensures (kept + [fits])[j] <==> UsedBefore(before + [stacks[i]], kept + [fits], j) + Cost(stacks[j]) <= budget
    {
      if j < i {
        assert before[j] == stacks[j];
      }
    }
  }

  lemma UsedBeforeLast(stacks: seq<Stack>, kept: seq<bool>, stack: Stack, fits: bool)
    requires |kept| == |stacks|
    ensures forall j :: 0 <= j < |stacks| ==> UsedBefore(stacks + [stack], kept + [fits], j) == UsedBefore(stacks, kept, j)
    ensures UsedBefore(stacks + [stack], kept + [fits], |stacks|) == Sum(Costs(Picked(stacks, kept)))
  {
    hide Sum, Costs, Picked;
    forall j | 0 <= j <= |stacks|
      ensures (stacks + [stack])[..j] == stacks[..j] && (kept + [fits])[..j] == kept[..j]
    {
    }
    assert stacks[..|stacks|] == stacks && kept[..|kept|] == kept;
  }

  lemma PickedLast(stacks: seq<Stack>, kept: seq<bool>, stack: Stack, fits: bool)
    requires |kept| == |stacks|
    ensures Picked(stacks + [stack], kept + [fits]) == Picked(stacks, kept) + if fits then [stack] else []
  {
    assert (stacks + [stack])[..|stacks|] == stacks && (kept + [fits])[..|kept|] == kept;
  }

  // ----- When the budget cuts off the end -----

  /** What the first `n` stacks cost together. */
  function Running(stacks: seq<Stack>, n: nat): nat
    requires n <= |stacks|
  {
    Sum(Costs(stacks[..n]))
  }

  /** The first position from `i` on whose running cost exceeds the budget. */
  function FirstOver(stacks: seq<Stack>, budget: nat, i: nat): (p: nat)
    requires i <= |stacks|
    ensures i <= p <= |stacks|
    ensures forall j :: i < j <= p ==> Running(stacks, j) <= budget
    ensures p < |stacks| ==> Running(stacks, p + 1) > budget
    decreases |stacks| - i
  {
    if i == |stacks| || Running(stacks, i + 1) > budget then i else FirstOver(stacks, budget, i + 1)
  }

  /** The stack fits beside the first `p`. */
  predicate FitsBeside(stacks: seq<Stack>, budget: nat, p: nat, i: nat)
    requires p <= i < |stacks|
  {
    Running(stacks, p) + Cost(stacks[i]) <= budget
  }

  /** The stacks kept among the first `n`. */
  function PickedOf(stacks: seq<Stack>, kept: seq<bool>, n: nat): seq<Stack>
    requires |kept| == |stacks| && n <= |stacks|
  {
    Picked(stacks[..n], kept[..n])
  }

  /** While the first `p` stacks are the kept ones, the next is kept exactly if it fits beside them. */
  lemma KeptNext(stacks: seq<Stack>, kept: seq<bool>, budget: nat, p: nat, i: nat)
    requires |kept| == |stacks| && Greedy(stacks, kept, budget) && p <= i < |stacks| && PickedOf(stacks, kept, i) == stacks[..p]
    ensures kept[i] <==> FitsBeside(stacks, budget, p, i)
    ensures PickedOf(stacks, kept, i + 1) == stacks[..p] + if FitsBeside(stacks, budget, p, i) then [stacks[i]] else []
  {
    hide Sum, Costs, Cost, Picked;
    assert UsedBefore(stacks, kept, i) == Running(stacks, p);
    PickedStep(stacks, kept, i);
  }

  lemma {:induction false} AllKept(stacks: seq<Stack>, kept: seq<bool>, budget: nat, n: nat)
    requires |kept| == |stacks| && Greedy(stacks, kept, budget) && n <= FirstOver(stacks, budget, 0)
    ensures PickedOf(stacks, kept, n) == stacks[..n]
  {
    hide Greedy, PickedOf, Running, Cost;
    if n == 0 {
      PickedNone(stacks, kept);
    } else {
      AllKept(stacks, kept, budget, n - 1);
      RunningStep(stacks, n - 1);
      KeptNext(stacks, kept, budget, n - 1, n - 1);
      assert stacks[..n] == stacks[..n - 1] + [stacks[n - 1]];
    }
  }

  lemma {:induction false} NoneKept(stacks: seq<Stack>, kept: seq<bool>, budget: nat, p: nat, n: nat)
    requires |kept| == |stacks| && Greedy(stacks, kept, budget) && p <= n <= |stacks| && PickedOf(stacks, kept, p) == stacks[..p]
    requires forall i :: p <= i < n ==> !FitsBeside(stacks, budget, p, i)
    ensures PickedOf(stacks, kept, n) == stacks[..p]
    decreases n
  {
    hide Greedy, PickedOf, FitsBeside;
    if n > p {
      NoneKept(stacks, kept, budget, p, n - 1);
      KeptNext(stacks, kept, budget, p, n - 1);
    }
  }

  lemma PickedNone(stacks: seq<Stack>, kept: seq<bool>)
    requires |kept| == |stacks|
    ensures PickedOf(stacks, kept, 0) == []
  {
  }

  lemma RunningStep(stacks: seq<Stack>, i: nat)
    requires i < |stacks|
    ensures Running(stacks, i + 1) == Running(stacks, i) + Cost(stacks[i])
  {
    hide Sum, Costs, Cost;
    CostsStep(stacks, i);
  }

  lemma PickedStep(stacks: seq<Stack>, kept: seq<bool>, i: nat)
    requires |kept| == |stacks| && i < |stacks|
    ensures PickedOf(stacks, kept, i + 1) == PickedOf(stacks, kept, i) + if kept[i] then [stacks[i]] else []
  {
    hide Picked;
    PickedLast(stacks[..i], kept[..i], stacks[i], kept[i]);
    assert stacks[..i + 1] == stacks[..i] + [stacks[i]] && kept[..i + 1] == kept[..i] + [kept[i]];
  }

  lemma {:induction false} PickedGrows(stacks: seq<Stack>, kept: seq<bool>, n: nat, m: nat)
    requires |kept| == |stacks| && n <= m <= |stacks|
    ensures PickedOf(stacks, kept, n) <= PickedOf(stacks, kept, m)
    decreases m
  {
    hide PickedOf;
    if n < m {
      PickedGrows(stacks, kept, n, m - 1);
      PickedStep(stacks, kept, m - 1);
    }
  }

  /** A stack that fits beside the first ones where the next of them did not is kept in its place. */
  lemma KeptOutOfTurn(stacks: seq<Stack>, kept: seq<bool>, budget: nat, p: nat, j: nat)
    requires |kept| == |stacks| && Greedy(stacks, kept, budget) && p < j < |stacks| && PickedOf(stacks, kept, p) == stacks[..p]
    requires Running(stacks, p + 1) > budget && FitsBeside(stacks, budget, p, j)
    requires forall i :: p <= i < j ==> !FitsBeside(stacks, budget, p, i)
    ensures !(PickedOf(stacks, kept, |stacks|) <= stacks)
  {
    hide Greedy, PickedOf, Running, FitsBeside, Cost;
    NoneKept(stacks, kept, budget, p, j);
    KeptNext(stacks, kept, budget, p, j);
    PickedGrows(stacks, kept, j + 1, |stacks|);
    assert PickedOf(stacks, kept, |stacks|)[p] == stacks[j];
    Cheaper(stacks, budget, p, j);
  }

  lemma Cheaper(stacks: seq<Stack>, budget: nat, p: nat, j: nat)
    requires p < j < |stacks| && Running(stacks, p + 1) > budget && FitsBeside(stacks, budget, p, j)
    ensures stacks[p] != stacks[j]
  {
    RunningStep(stacks, p);
  }

  lemma GreedyPrefix(stacks: seq<Stack>, kept: seq<bool>, budget: nat)
    requires |kept| == |stacks| && Greedy(stacks, kept, budget)
    ensures Picked(stacks, kept) <= stacks <==>
      var p := FirstOver(stacks, budget, 0);
      forall i :: p <= i < |stacks| ==> !FitsBeside(stacks, budget, p, i)
  {
    hide Greedy, Picked, Running, Cost;
    var p, n := FirstOver(stacks, budget, 0), |stacks|;
    assert stacks[..n] == stacks && kept[..n] == kept;
    assert PickedOf(stacks, kept, n) == Picked(stacks, kept);
    AllKept(stacks, kept, budget, p);
    if j :| FirstFitting(stacks, budget, p, j) {
      RunningStep(stacks, p);
      KeptOutOfTurn(stacks, kept, budget, p, j);
    } else {
      FirstFit(stacks, budget, p, n);
      NoneKept(stacks, kept, budget, p, n);
    }
  }

  ghost predicate FirstFitting(stacks: seq<Stack>, budget: nat, p: nat, j: nat) {
    p <= j < |stacks| && FitsBeside(stacks, budget, p, j) && forall i :: p <= i < j ==> !FitsBeside(stacks, budget, p, i)
  }

  /** If some stack fits, there is a first one. */
  lemma {:induction false} FirstFit(stacks: seq<Stack>, budget: nat, p: nat, n: nat)
    requires p <= n <= |stacks| && !exists j :: FirstFitting(stacks, budget, p, j)
    ensures forall i :: p <= i < n ==> !FitsBeside(stacks, budget, p, i)
    decreases n
  {
    hide FitsBeside;
    if n > p {
      FirstFit(stacks, budget, p, n - 1);
      assert !FirstFitting(stacks, budget, p, n - 1);
    }
  }

  /** The kept stacks are the first ones exactly if, past the first position whose running
      cost exceeds the budget, no stack fits beside those before it. */
  lemma KeptPrefixExactly(stacks: seq<Stack>, budget: nat)
    ensures KeptStacks(stacks, budget) <= stacks <==>
      var p := FirstOver(stacks, budget, 0);
      forall i :: p <= i < |stacks| ==> !FitsBeside(stacks, budget, p, i)
  {
    hide Greedy, Picked, FirstOver, FitsBeside;
    KeptGreedy(stacks, budget);
    GreedyPrefix(stacks, Kept(stacks, budget), budget);
  }

  /** The budget is not always such a cut: a stack can be dropped and a later one kept. */
  lemma BudgetIsNoPrefix()
    ensures var stacks := [Stack([1, 2, 3, 4], 2), Stack([1], 1)];
            KeptStacks(stacks, 33) == [stacks[1]] && !(KeptStacks(stacks, 33) <= stacks)
  {
    var stacks := [Stack([1, 2, 3, 4], 2), Stack([1], 1)];
    assert stacks[..0] == [] && stacks[..1] == [stacks[0]] && stacks[..2] == stacks;
    NothingKept(33);
    KeptStep(stacks, 0, 33);
    KeptStep(stacks, 1, 33);
    assert stacks[0] != stacks[1];
  }
}
