/** Will it fit: what planned downloads want from each volume, and the worst volume that cannot give it. */
module DiskSpace {
  import opened Text

  const MAX: int := 0xFFFF_FFFF_FFFF_FFFF

  type u64 = n: int | 0 <= n <= MAX witness 0

  /** Left unspoken for on every volume. */
  const RESERVE: u64 := 64 * 1024 * 1024

  datatype Need<P> = Need(work: P, save: P, total: Option<u64>, downloaded: u64)

  datatype Shortfall<P> = Shortfall(path: P, needed: u64, available: u64)

  function SaturatingAdd(a: u64, b: u64): u64 {
    if a + b > MAX then MAX else a + b
  }

  function SaturatingSub(a: u64, b: u64): u64 {
    if a >= b then a - b else 0
  }

  function Capped(n: nat): u64 {
    if n > MAX then MAX else n
  }

  // ---------------------------------------------------------------------------
  // The true demand

  /** A folder and the bytes wanted in it. */
  type Charge<P> = (P, u64)

  /** The parts need what is left to fetch and the finished file needs all of it; an unknown length counts
      nothing. */
  function Charges<P>(need: Need<P>): seq<Charge<P>> {
    if need.total.Some? && need.total.value > 0
    then [(need.work, SaturatingSub(need.total.value, need.downloaded)), (need.save, need.total.value)]
    else []
  }

  /** What charges add up to on volume `k`, without any bound. */
  function Sum<P, K(==)>(cs: seq<Charge<P>>, volume: P -> K, k: K): nat {
    if cs == [] then 0
    else Sum(cs[..|cs| - 1], volume, k) + if volume(cs[|cs| - 1].0) == k then cs[|cs| - 1].1 else 0
  }

  function AllCharges<P>(needs: seq<Need<P>>): seq<Charge<P>> {
    if needs == [] then [] else AllCharges(needs[..|needs| - 1]) + Charges(needs[|needs| - 1])
  }

  /** What one download wants of volume `k`: what is left of its parts, if they are there, and the whole file,
      if it is saved there. */
  function Wanted<P, K(==)>(need: Need<P>, volume: P -> K, k: K): nat {
    match need.total
    case None => 0
    case Some(n) =>
      (if volume(need.work) == k && need.downloaded < n then n - need.downloaded else 0)
      + if volume(need.save) == k then n else 0
  }

  function Demand<P, K(==)>(needs: seq<Need<P>>, volume: P -> K, k: K): nat {
    if needs == [] then 0 else Demand(needs[..|needs| - 1], volume, k) + Wanted(needs[|needs| - 1], volume, k)
  }

  lemma {:induction false} ChargesAreDemand<P, K>(needs: seq<Need<P>>, volume: P -> K, k: K)
    ensures Sum(AllCharges(needs), volume, k) == Demand(needs, volume, k)
    decreases |needs|
  {
    if needs != [] {
      var init, need := needs[..|needs| - 1], needs[|needs| - 1];
      ChargesAreDemand(init, volume, k);
      SumOfCharges(AllCharges(init), need, volume, k);
    }
  }

  lemma SumOfCharges<P, K>(cs: seq<Charge<P>>, need: Need<P>, volume: P -> K, k: K)
    ensures Sum(cs + Charges(need), volume, k) == Sum(cs, volume, k) + Wanted(need, volume, k)
  {
    var more := Charges(need);
    if more == [] {
      assert cs + more == cs;
    } else {
      assert cs + more == (cs + [more[0]]) + [more[1]];
      assert (cs + [more[0]])[..|cs|] == cs && (cs + more)[..|cs| + 1] == cs + [more[0]];
    }
  }

  // ---------------------------------------------------------------------------
  // The tally

  /** The tally holds, for exactly the volumes something is wanted on, the capped sum and a folder there. */
  ghost predicate Tallies<P, K(!new)>(out: map<K, (P, u64)>, cs: seq<Charge<P>>, volume: P -> K) {
    && (forall k :: k in out <==> Sum(cs, volume, k) > 0)
    && (forall k :: k in out ==> out[k].1 == Capped(Sum(cs, volume, k)) && volume(out[k].0) == k)
  }

  lemma TallyOne<P, K(!new)>(out: map<K, (P, u64)>, cs: seq<Charge<P>>, volume: P -> K, c: Charge<P>)
    requires Tallies(out, cs, volume)
    ensures var key := volume(c.0);
            var was := if key in out then out[key] else (c.0, 0);
            Tallies(if c.1 == 0 then out else out[key := (was.0, SaturatingAdd(was.1, c.1))], cs + [c], volume)
  {
    assert (cs + [c])[..|cs|] == cs;
    var key := volume(c.0);
    var was := if key in out then out[key] else (c.0, 0);
    var out' := if c.1 == 0 then out else out[key := (was.0, SaturatingAdd(was.1, c.1))];
    forall k ensures Sum(cs + [c], volume, k) == Sum(cs, volume, k) + if volume(c.0) == k then c.1 else 0 {}
    forall k ensures k in out' <==> Sum(cs + [c], volume, k) > 0 {}
    forall k | k in out' ensures out'[k].1 == Capped(Sum(cs + [c], volume, k)) && volume(out'[k].0) == k {}
  }

  /** `required_by_volume`. */
  method RequiredByVolume<P, K(==, !new)>(needs: seq<Need<P>>, volume: P -> K) returns (out: map<K, (P, u64)>)
    ensures forall k :: k in out <==> Demand(needs, volume, k) > 0
    ensures forall k :: k in out ==> out[k].1 == Capped(Demand(needs, volume, k)) && volume(out[k].0) == k
  {
    out := map[];
    for i := 0 to |needs|
      invariant Tallies(out, AllCharges(needs[..i]), volume)
    {
      var cs := Charges(needs[i]);
      ghost var before := AllCharges(needs[..i]);
      assert needs[..i + 1][..i] == needs[..i];
      assert cs[..0] == [] && before + [] == before;
      for j := 0 to |cs|
        invariant Tallies(out, before + cs[..j], volume)
      {
        var (dir, bytes) := cs[j];
        TallyOne(out, before + cs[..j], volume, cs[j]);
        assert before + cs[..j] + [cs[j]] == before + cs[..j + 1];
        if bytes == 0 {
          continue;
        }
        var key := volume(dir);
        var entry := if key in out then out[key] else (dir, 0);
        out := out[key := (entry.0, SaturatingAdd(entry.1, bytes))];
      }
      assert cs[..|cs|] == cs;
    }
    assert needs[..|needs|] == needs;
    forall k ensures Sum(AllCharges(needs), volume, k) ==
        Demand(needs, volume, k) { ChargesAreDemand(needs, volume, k); }
  }

  // ---------------------------------------------------------------------------
  // The shortfall

  /** A measurable volume that lacks room once the reserve is kept. */
  predicate IsShort(needed: u64, available: Option<u64>) {
    available.Some? && needed > SaturatingSub(available.value, RESERVE)
  }

  function Deficit(needed: u64, available: u64): u64 {
    SaturatingSub(needed, available)
  }

  /** A shortfall says what is wanted at a short folder and what there is. */
  ghost predicate Reports<P>(s: Shortfall<P>, path: P, needed: u64, free: P -> Option<u64>) {
    s.path == path && s.needed == needed && free(path) == Some(s.available) && IsShort(needed, Some(s.available))
  }

  /** What is missing here, beyond nothing at all, is not more than what the shortfall reports missing. */
  predicate NoShorter<P>(needed: u64, available: u64, worst: Shortfall<P>) {
    needed <= available || needed - available <= worst.needed - worst.available
  }

  /** `shortfall`, over the entries in whatever order the map yields them: the last of the worst. */
  method WorstShortfall<P>(entries: seq<(P, u64)>, free: P -> Option<u64>) returns (worst: Option<Shortfall<P>>)
    ensures worst.None? <==> forall i :: 0 <= i < |entries| ==> !IsShort(entries[i].1, free(entries[i].0))
    ensures worst.Some? ==> exists i :: 0 <= i < |entries| && Reports(worst.value, entries[i].0, entries[i].1, free)
    ensures worst.Some? ==> forall i :: 0 <= i < |entries| && IsShort(entries[i].1, free(entries[i].0)) ==>
              NoShorter(entries[i].1, free(entries[i].0).value, worst.value)
  {
    worst := None;
    for i := 0 to |entries|
      invariant worst.None? <==> forall j :: 0 <= j < i ==> !IsShort(entries[j].1, free(entries[j].0))
      invariant worst.Some? ==> exists j :: 0 <= j < i && Reports(worst.value, entries[j].0, entries[j].1, free)
      invariant worst.Some? ==> forall j :: 0 <= j < i && IsShort(entries[j].1, free(entries[j].0)) ==>
        Deficit(entries[j].1, free(entries[j].0).value) <= Deficit(worst.value.needed, worst.value.available)
    {
      var (path, needed) := entries[i];
      var available := free(path);
      if IsShort(needed, available) {
        if worst.None? || Deficit(needed, available.value) >= Deficit(worst.value.needed, worst.value.available) {
          worst := Some(Shortfall(path, needed, available.value));
        }
      }
    }
  }

  /** The tally for a volume is below its cap and the room measured there is enough exactly when the true
      demand and the reserve fit, whatever the demand adds up to. */
  lemma ShortExactly(demand: nat, available: u64)
    requires demand > 0
    ensures !IsShort(Capped(demand), Some(available)) <==> demand + 67_108_864 <= available
  {
  }

  /** The check before a start: nothing short means that on every measurable volume with demand the true sum
      of everything planned there fits beside the reserve; otherwise the volume named is short, and no other
      lacks more. */
  method CheckSpace<P, K(==, !new)>(needs: seq<Need<P>>, volume: P -> K, free: P -> Option<u64>)
    returns (worst: Option<Shortfall<P>>, folder: map<K, P>)
    ensures forall k :: k in folder <==> Demand(needs, volume, k) > 0
    ensures forall k :: k in folder ==> volume(folder[k]) == k
    ensures worst.None? <==> forall k :: k in folder && free(folder[k]).Some? ==>
              Demand(needs, volume, k) + 67_108_864 <= free(folder[k]).value
    ensures worst.Some? ==>
              exists k :: k in folder && Reports(worst.value, folder[k], Capped(Demand(needs, volume, k)), free)
                          && Demand(needs, volume, k) + 67_108_864 > worst.value.available
    ensures worst.Some? ==> forall k :: k in folder && IsShort(Capped(Demand(needs, volume, k)), free(folder[k])) ==>
              NoShorter(Capped(Demand(needs, volume, k)), free(folder[k]).value, worst.value)
  {
    var required := RequiredByVolume(needs, volume);
    folder := map k | k in required :: required[k].0;
    var entries: seq<(P, u64)> := [];
    ghost var keys: seq<K> := [];
    var todo := required.Keys;
    while todo != {}
      invariant todo <= required.Keys && |keys| == |entries|
      invariant forall i :: 0 <= i < |keys| ==> keys[i] in required && entries[i] == required[keys[i]]
      invariant forall k :: k in required && k !in todo ==> exists i :: 0 <= i < |keys| && keys[i] == k
      decreases todo
    {
      var k :| k in todo;
      ghost var old_ := keys;
      entries, keys, todo := entries + [required[k]], keys + [k], todo - {k};
      assert forall i :: 0 <= i < |old_| ==> keys[i] == old_[i];
      assert keys[|old_|] == k;
    }
    worst := WorstShortfall(entries, free);
    forall k | k in required && free(required[k].0).Some?
      ensures IsShort(required[k].1, free(required[k].0)) <==>
                Demand(needs, volume, k) + RESERVE > free(required[k].0).value
    {
      ShortExactly(Demand(needs, volume, k), free(required[k].0).value);
    }
  }
}
