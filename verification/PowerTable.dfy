/** The F3 power table of miner_disruption_vectors.go: filter, shares, sort, and
    the weighted draw. Shares are real numbers and powers are exact. */
module PowerTable {

  /** A miner's ID address and power, as a node reports them. */
  datatype Entry = Entry(addr: nat, power: nat)

  datatype Miner = Miner(addr: nat, power: nat, pct: real)

  function Total(t: seq<Miner>): nat {
    if t == [] then 0 else t[0].power + Total(t[1..])
  }

  function SumShares(t: seq<Miner>): real {
    if t == [] then 0.0 else t[0].pct + SumShares(t[1..])
  }

  function Share(power: nat, total: nat): real
    requires total > 0
  {
    power as real * 100.0 / total as real
  }

  /** The reported entries whose miner is not slashed, in order. */
  function Unslashed(entries: seq<Entry>, slashed: set<nat>): seq<Entry> {
    if entries == [] then []
    else (if entries[0].addr in slashed then [] else [entries[0]]) + Unslashed(entries[1..], slashed)
  }

  function EntryTotal(entries: seq<Entry>): nat {
    if entries == [] then 0 else entries[0].power + EntryTotal(entries[1..])
  }

  function Bare(t: seq<Miner>): (es: seq<Entry>)
    ensures |es| == |t|
  {
    seq(|t|, i requires 0 <= i < |t| => Entry(t[i].addr, t[i].power))
  }

  ghost predicate Descending(t: seq<Miner>) {
    forall i, j :: 0 <= i < j < |t| ==> t[i].power >= t[j].power
  }

  /** t is the power table of these entries: the unslashed ones, most powerful
      first, each with its share of their total. */
  ghost predicate IsTable(t: seq<Miner>, entries: seq<Entry>, slashed: set<nat>) {
    var kept := Unslashed(entries, slashed);
    && multiset(Bare(t)) == multiset(kept)
    && Descending(t)
    && Total(t) == EntryTotal(kept) > 0
    && forall i :: 0 <= i < |t| ==> t[i].pct == Share(t[i].power, Total(t))
  }

  // ------------------------------------------------------------- building a table

  lemma {:induction false} TotalSnoc(t: seq<Miner>, m: Miner)
    ensures Total(t + [m]) == Total(t) + m.power
    ensures SumShares(t + [m]) == SumShares(t) + m.pct
  {
    if t == [] {
      assert t + [m] == [m];
    } else {
      TotalSnoc(t[1..], m);
      assert (t + [m])[1..] == t[1..] + [m];
    }
  }

  lemma {:induction false} TotalOfBare(t: seq<Miner>)
    ensures EntryTotal(Bare(t)) == Total(t)
  {
    if t != [] {
      TotalOfBare(t[1..]);
      assert Bare(t)[1..] == Bare(t[1..]);
    }
  }

  lemma {:induction false} TotalConcat(s: seq<Miner>, t: seq<Miner>)
    ensures Total(s + t) == Total(s) + Total(t)
  {
    if s == [] {
      assert s + t == t;
    } else {
      TotalConcat(s[1..], t);
      assert (s + t)[1..] == s[1..] + t;
    }
  }

  lemma InsertKeepsOrder(s: seq<Miner>, m: Miner, k: nat)
    requires k <= |s| && Descending(s)
    requires k > 0 ==> s[k - 1].power >= m.power
    requires forall j :: k <= j < |s| ==> s[j].power < m.power
    ensures Descending(s[..k] + [m] + s[k..])
  {
    var t := s[..k] + [m] + s[k..];
    forall i, j | 0 <= i < j < |t| ensures t[i].power >= t[j].power {
      assert t[i] == if i < k then s[i] else if i == k then m else s[i - 1];
      assert t[j] == if j < k then s[j] else if j == k then m else s[j - 1];
    }
  }

  lemma InsertMultiset<T>(s: seq<T>, x: T, k: nat)
    requires k <= |s|
    ensures multiset(s[..k] + [x] + s[k..]) == multiset(s) + multiset{x}
  {
    assert s == s[..k] + s[k..];
  }

  lemma InsertTotal(s: seq<Miner>, m: Miner, k: nat)
    requires k <= |s|
    ensures Total(s[..k] + [m] + s[k..]) == Total(s) + m.power
  {
    var front, back := s[..k], s[k..];
    assert s == front + back;
    TotalConcat(front, back);
    TotalSnoc(front, m);
    TotalConcat(front + [m], back);
  }

  lemma InsertBare(s: seq<Miner>, m: Miner, k: nat)
    requires k <= |s|
    ensures multiset(Bare(s[..k] + [m] + s[k..])) == multiset(Bare(s)) + multiset{Entry(m.addr, m.power)}
  {
    var t, es, e := s[..k] + [m] + s[k..], Bare(s), Entry(m.addr, m.power);
    assert Bare(t) == es[..k] + [e] + es[k..] by {
      assert |Bare(t)| == |es| + 1;
    }
    hide Bare;
    InsertMultiset(es, e, k);
  }

  method InsertByPower(sorted: seq<Miner>, m: Miner) returns (result: seq<Miner>)
    requires Descending(sorted)
    ensures Descending(result)
    ensures multiset(result) == multiset(sorted) + multiset{m}
    ensures multiset(Bare(result)) == multiset(Bare(sorted)) + multiset{Entry(m.addr, m.power)}
    ensures Total(result) == Total(sorted) + m.power
  {
    hide Descending, Bare, Total;
    var k := |sorted|;
    while k > 0 && sorted[k - 1].power < m.power
      invariant 0 <= k <= |sorted|
      invariant forall j :: k <= j < |sorted| ==> sorted[j].power < m.power
    {
      k := k - 1;
    }
    InsertKeepsOrder(sorted, m, k);
    InsertMultiset(sorted, m, k);
    InsertBare(sorted, m, k);
    InsertTotal(sorted, m, k);
    result := sorted[..k] + [m] + sorted[k..];
  }

  lemma NothingSorted()
    ensures Descending([]) && Bare([]) == [] && Total([]) == 0
  {
  }

  lemma OneMoreMiner(t: seq<Miner>, i: nat)
    requires i < |t|
    ensures multiset(t[..i + 1]) == multiset(t[..i]) + multiset{t[i]}
    ensures multiset(Bare(t[..i + 1])) == multiset(Bare(t[..i])) + multiset{Entry(t[i].addr, t[i].power)}
    ensures Total(t[..i + 1]) == Total(t[..i]) + t[i].power
  {
    assert t[..i + 1] == t[..i] + [t[i]];
    assert Bare(t[..i] + [t[i]]) == Bare(t[..i]) + [Entry(t[i].addr, t[i].power)];
    TotalSnoc(t[..i], t[i]);
  }

  /** sort.Slice with "more power first": any arrangement that is sorted. Ties
      may come out in any order. */
  method SortByPower(t: seq<Miner>) returns (sorted: seq<Miner>)
    ensures Descending(sorted)
    ensures multiset(sorted) == multiset(t) && multiset(Bare(sorted)) == multiset(Bare(t))
    ensures Total(sorted) == Total(t)
  {
    hide Descending, Bare, Total;
    NothingSorted();
    sorted := [];
    assert t[..0] == [];
    for i := 0 to |t|
      invariant Descending(sorted)
      invariant multiset(sorted) == multiset(t[..i]) && multiset(Bare(sorted)) == multiset(Bare(t[..i]))
      invariant Total(sorted) == Total(t[..i])
    {
      OneMoreMiner(t, i);
      sorted := InsertByPower(sorted, t[i]);
    }
    assert t[..|t|] == t;
  }

  /** The miners that are not slashed, in order. */
  function Keep(t: seq<Miner>, slashed: set<nat>): seq<Miner> {
    if t == [] then []
    else (if t[0].addr in slashed then [] else [t[0]]) + Keep(t[1..], slashed)
  }

  lemma {:induction false} KeepSnoc(t: seq<Miner>, m: Miner, slashed: set<nat>)
    ensures Keep(t + [m], slashed) == Keep(t, slashed) + (if m.addr in slashed then [] else [m])
  {
    if t == [] {
      assert t + [m] == [m];
    } else {
      KeepSnoc(t[1..], m, slashed);
      assert (t + [m])[1..] == t[1..] + [m];
    }
  }

  lemma {:induction false} KeepIsUnslashed(t: seq<Miner>, slashed: set<nat>)
    ensures Bare(Keep(t, slashed)) == Unslashed(Bare(t), slashed)
  {
    if t == [] {
      assert Bare(t) == [];
    } else {
      KeepIsUnslashed(t[1..], slashed);
      assert Bare(t)[1..] == Bare(t[1..]);
      var kept := Keep(t[1..], slashed);
      assert Bare([t[0]] + kept) == [Bare(t)[0]] + Bare(kept);
      assert [] + kept == kept;
    }
  }

  /** Filters the table within its own storage: the kept miners end up, in
      order, in the first n slots, and the running total loses the dropped power. */
  method FilterSlashed(table: array<Miner>, slashed: set<nat>, totalPower: nat) returns (n: nat, remaining: int)
    requires totalPower == Total(table[..])
    modifies table
    ensures n <= table.Length
    ensures table[..n] == Keep(old(table[..]), slashed)
    ensures remaining == Total(table[..n])
  {
    hide Keep, Total;
    ghost var all := table[..];
    n, remaining := 0, totalPower;
    FilterBase(all, slashed);
    assert table[..0] == [] && all[..0] == [];
    for i := 0 to table.Length
      invariant n <= i
      invariant forall j :: i <= j < table.Length ==> table[j] == all[j]
      invariant table[..n] == Keep(all[..i], slashed)
      invariant remaining == Total(table[..n]) + Total(all[i..])
    {
      var m := table[i];
      FilterStep(all, i, slashed);
      if m.addr !in slashed {
        ghost var head := table[..n];
        TotalSnoc(head, m);
        table[n] := m;
        n := n + 1;
        assert table[..n] == head + [m];
      } else {
        remaining := remaining - m.power;
      }
    }
    assert all[..table.Length] == all;
  }

  lemma FilterBase(all: seq<Miner>, slashed: set<nat>)
    ensures Keep([], slashed) == [] && Total([]) == 0
    ensures all[0..] == all && Total(all[|all|..]) == 0
  {
  }

  lemma FilterStep(all: seq<Miner>, i: nat, slashed: set<nat>)
    requires i < |all|
    ensures Total(all[i..]) == all[i].power + Total(all[i + 1..])
    ensures Keep(all[..i + 1], slashed)
         == Keep(all[..i], slashed) + (if all[i].addr in slashed then [] else [all[i]])
  {
    assert all[i..][1..] == all[i + 1..];
    assert all[..i + 1] == all[..i] + [all[i]];
    KeepSnoc(all[..i], all[i], slashed);
  }

  method LoadTable(entries: seq<Entry>) returns (table: array<Miner>, totalPower: nat)
    ensures fresh(table)
    ensures Bare(table[..]) == entries && totalPower == Total(table[..])
  {
    totalPower := 0;
    table := new Miner[|entries|](_ => Miner(0, 0, 0.0));
    for i := 0 to |entries|
      invariant Bare(table[..i]) == entries[..i]
      invariant totalPower == Total(table[..i])
    {
      ghost var loaded := table[..i];
      var p := entries[i].power;
      table[i] := Miner(entries[i].addr, p, 0.0);
      totalPower := totalPower + p;
      assert table[..i + 1] == loaded + [table[i]];
      assert Bare(loaded + [table[i]]) == Bare(loaded) + [entries[i]];
      TotalSnoc(loaded, table[i]);
    }
    assert table[..] == table[..|entries|] && entries[..|entries|] == entries;
  }

  method SetShares(table: array<Miner>, n: nat, totalPower: nat)
    requires n <= table.Length && totalPower > 0
    modifies table
    ensures Bare(table[..n]) == old(Bare(table[..n]))
    ensures forall i :: 0 <= i < n ==> table[i].pct == Share(table[i].power, totalPower)
  {
    for i := 0 to n
      invariant Bare(table[..n]) == old(Bare(table[..n]))
      invariant forall j :: 0 <= j < i ==> table[j].pct == Share(table[j].power, totalPower)
    {
      ghost var before := table[..n];
      table[i] := table[i].(pct := table[i].power as real * 100.0 / totalPower as real);
      assert Bare(table[..n]) == Bare(before);
    }
  }

  /** The part of getF3PowerTable after the entries are fetched. No table when
      the unslashed power is zero. */
  method BuildTable(entries: seq<Entry>, slashed: set<nat>) returns (result: seq<Miner>)
    ensures EntryTotal(Unslashed(entries, slashed)) == 0 ==> result == []
    ensures EntryTotal(Unslashed(entries, slashed)) > 0 ==> IsTable(result, entries, slashed)
    ensures result == [] <==> forall i :: 0 <= i < |entries| ==> entries[i].addr in slashed || entries[i].power == 0
  {
    hide Keep, Bare, Total, EntryTotal, Unslashed;
    UnslashedPower(entries, slashed);
    var table, totalPower := LoadTable(entries);
    KeepIsUnslashed(table[..], slashed);
    var n, remaining := FilterSlashed(table, slashed, totalPower);
    TotalOfBare(table[..n]);
    if remaining == 0 {
      return [];
    }
    SetShares(table, n, remaining);
    TotalOfBare(table[..n]);
    result := SortByPower(table[..n]);
    SharesKept(result, table[..n], remaining);
    NoPower();
  }

  lemma NoPower()
    ensures Total([]) == 0
  {
  }

  lemma SharesKept(s: seq<Miner>, t: seq<Miner>, total: nat)
    requires multiset(s) == multiset(t) && total > 0
    requires forall i :: 0 <= i < |t| ==> t[i].pct == Share(t[i].power, total)
    ensures forall i :: 0 <= i < |s| ==> s[i].pct == Share(s[i].power, total)
  {
    forall i | 0 <= i < |s| ensures s[i].pct == Share(s[i].power, total) {
      assert s[i] in multiset(s);
      assert s[i] in multiset(t);
      var k :| 0 <= k < |t| && t[k] == s[i];
    }
  }

  /** No slashed miner is in a table. */
  lemma TableSkipsSlashed(t: seq<Miner>, entries: seq<Entry>, slashed: set<nat>, i: nat)
    requires IsTable(t, entries, slashed) && i < |t|
    ensures t[i].addr !in slashed
  {
    var e := Bare(t)[i];
    assert e in multiset(Bare(t));
    assert e in multiset(Unslashed(entries, slashed));
    var k :| 0 <= k < |Unslashed(entries, slashed)| && Unslashed(entries, slashed)[k] == e;
    UnslashedSkips(entries, slashed, k);
  }

  lemma {:induction false} UnslashedCounts(entries: seq<Entry>, slashed: set<nat>, e: Entry)
    ensures multiset(Unslashed(entries, slashed))[e] == if e.addr in slashed then 0 else multiset(entries)[e]
  {
    if entries != [] {
      UnslashedCounts(entries[1..], slashed, e);
      FirstCounts(entries[0], entries[1..], e);
      FirstCounts(entries[0], Unslashed(entries[1..], slashed), e);
      assert entries == [entries[0]] + entries[1..];
      assert [] + Unslashed(entries[1..], slashed) == Unslashed(entries[1..], slashed);
    }
  }

  lemma FirstCounts(first: Entry, rest: seq<Entry>, e: Entry)
    ensures multiset([first] + rest)[e] == multiset(rest)[e] + if first == e then 1 else 0
  {
  }

  lemma {:induction false} UnslashedPower(entries: seq<Entry>, slashed: set<nat>)
    ensures EntryTotal(Unslashed(entries, slashed)) > 0 <==>
              exists i :: 0 <= i < |entries| && entries[i].addr !in slashed && entries[i].power > 0
  {
    if entries != [] {
      var rest := entries[1..];
      var kept := Unslashed(rest, slashed);
      UnslashedPower(rest, slashed);
      assert forall i :: 0 <= i < |rest| ==> rest[i] == entries[i + 1];
      assert ([entries[0]] + kept)[1..] == kept && [] + kept == kept;
      if i :| 0 <= i < |rest| && rest[i].addr !in slashed && rest[i].power > 0 {
        assert entries[i + 1].power > 0;
      }
    }
  }

  /** A table holds every reported entry of a miner that is not slashed, as often as
      it was reported, and nothing else. */
  lemma TableHoldsExactly(t: seq<Miner>, entries: seq<Entry>, slashed: set<nat>, e: Entry)
    requires IsTable(t, entries, slashed)
    ensures multiset(Bare(t))[e] == if e.addr in slashed then 0 else multiset(entries)[e]
    ensures exists i :: 0 <= i < |entries| && entries[i].addr !in slashed && entries[i].power > 0
  {
    UnslashedCounts(entries, slashed, e);
    UnslashedPower(entries, slashed);
  }

  lemma {:induction false} UnslashedSkips(entries: seq<Entry>, slashed: set<nat>, k: nat)
    requires k < |Unslashed(entries, slashed)|
    ensures Unslashed(entries, slashed)[k].addr !in slashed
  {
    if entries[0].addr in slashed {
      UnslashedSkips(entries[1..], slashed, k);
    } else if k > 0 {
      UnslashedSkips(entries[1..], slashed, k - 1);
    }
  }

  // --------------------------------------------------------------------- shares

  lemma {:induction false} SumOfShares(t: seq<Miner>, total: nat)
    requires total > 0 && forall i :: 0 <= i < |t| ==> t[i].pct == Share(t[i].power, total)
    ensures SumShares(t) == Share(Total(t), total)
  {
    if t != [] {
      SumOfShares(t[1..], total);
      ShareAdds(t[0].power, Total(t[1..]), total);
    }
  }

  lemma ShareAdds(p: nat, q: nat, total: nat)
    requires total > 0
    ensures Share(p + q, total) == Share(p, total) + Share(q, total)
  {
    var n, x, y := total as real, Share(p, total), Share(q, total);
    assert x * n == p as real * 100.0 && y * n == q as real * 100.0;
    assert (p + q) as real * 100.0 == (x + y) * n;
    Quotient((p + q) as real * 100.0, n, x + y);
  }

  /** The shares of a table sum to 100. */
  lemma SharesSumTo100(t: seq<Miner>, entries: seq<Entry>, slashed: set<nat>)
    requires IsTable(t, entries, slashed)
    ensures SumShares(t) == 100.0
  {
    SumOfShares(t, Total(t));
    ShareOfAll(Total(t));
  }

  lemma ShareOfAll(total: nat)
    requires total > 0
    ensures Share(total, total) == 100.0
  {
  }

  lemma {:induction false} TotalCovers(t: seq<Miner>, i: nat)
    requires i < |t|
    ensures t[i].power <= Total(t)
    ensures i > 0 ==> t[0].power + t[i].power <= Total(t)
  {
    if i > 0 {
      TotalCovers(t[1..], i - 1);
    }
  }

  /** In a star split the largest miner is the hub; every other one alone holds
      at most half of the power, far from the 67% quorum. */
  lemma SpokeHoldsAtMostHalf(t: seq<Miner>, entries: seq<Entry>, slashed: set<nat>, i: nat)
    requires IsTable(t, entries, slashed) && 0 < i < |t|
    ensures t[i].pct <= 50.0
  {
    TotalCovers(t, i);
    var p, total := t[i].power as real, Total(t) as real;
    assert 2.0 * p <= total;
    assert p * 100.0 <= 50.0 * total;
    HalfBound(p, total);
  }

  lemma HalfBound(p: real, total: real)
    requires total > 0.0 && p * 100.0 <= 50.0 * total
    ensures p * 100.0 / total <= 50.0
  {
  }

  // ---------------------------------------------------------------- weighted draw

  datatype Selection = Biggest | Smallest | Weighted

  /** The entry the cumulative sum picks for r. */
  function DrawIndex(t: seq<Miner>, r: nat): (i: nat)
    requires r < Total(t)
    ensures i < |t|
  {
    if r < t[0].power then 0 else 1 + DrawIndex(t[1..], r - t[0].power)
  }

  /** r is rngIntn(total): below the total, or zero when the total is zero. */
  method PickMinerByStrategy(t: seq<Miner>, selection: Selection, r: nat) returns (m: Miner)
    requires t != [] && (r < Total(t) || (Total(t) == 0 && r == 0))
    ensures selection == Biggest ==> m == t[0]
    ensures selection == Smallest ==> m == t[|t| - 1]
    ensures selection == Weighted && Total(t) > 0 ==> m == t[DrawIndex(t, r)]
    ensures selection == Weighted && Total(t) == 0 ==> m == t[0]
  {
    match selection {
      case Biggest => m := t[0];
      case Smallest => m := t[|t| - 1];
      case Weighted =>
        var cumulative := 0;
        for i := 0 to |t|
          invariant cumulative == Total(t[..i]) && cumulative <= r
          invariant cumulative + Total(t[i..]) == Total(t)
          invariant Total(t) > 0 ==> DrawIndex(t, r) == i + DrawIndex(t[i..], r - cumulative)
        {
          assert t[..i + 1] == t[..i] + [t[i]];
          TotalSnoc(t[..i], t[i]);
          assert t[i..][1..] == t[i + 1..];
          cumulative := cumulative + t[i].power;
          if r < cumulative {
            return t[i];
          }
        }
        assert Total(t[|t|..]) == 0;
        m := t[0];
    }
  }

  /** Power of the entries before i. */
  function Before(t: seq<Miner>, i: nat): nat
    requires i <= |t|
  {
    Total(t[..i])
  }

  lemma {:induction false} DrawIsInterval(t: seq<Miner>, r: nat, i: nat)
    requires r < Total(t) && i < |t|
    ensures DrawIndex(t, r) == i <==> Before(t, i) <= r < Before(t, i) + t[i].power
  {
    var first := t[0].power;
    if i == 0 {
      assert t[..0] == [];
    } else {
      assert t[..i][0] == t[0] && t[..i][1..] == t[1..][..i - 1];
      if r >= first {
        DrawIsInterval(t[1..], r - first, i - 1);
      }
    }
  }

  /** The random values below the total for which entry i is drawn. */
  function Drawing(t: seq<Miner>, i: nat): set<nat> {
    set r: nat | r < Total(t) && DrawIndex(t, r) == i
  }

  function Interval(lo: nat, n: nat): (s: set<nat>)
    ensures |s| == n
    ensures forall r: nat :: r in s <==> lo <= r < lo + n
  {
    if n == 0 then {} else Interval(lo, n - 1) + {lo + n - 1}
  }

  /** Every entry is drawn by exactly as many of the random values as it has power. */
  lemma DrawIsProportional(t: seq<Miner>, i: nat)
    requires i < |t|
    ensures |Drawing(t, i)| == t[i].power
  {
    var lo := Before(t, i);
    assert t == t[..i] + t[i..];
    TotalConcat(t[..i], t[i..]);
    assert lo + t[i].power <= Total(t);
    forall r: nat | r < Total(t) ensures DrawIndex(t, r) == i <==> lo <= r < lo + t[i].power {
      DrawIsInterval(t, r, i);
    }
    assert Drawing(t, i) == Interval(lo, t[i].power);
  }

  /** The power of the last entry of a miner; 0 without one. */
  function PowerOf(t: seq<Miner>, target: nat): nat {
    if t == [] then 0
    else if t[|t| - 1].addr == target then t[|t| - 1].power
    else PowerOf(t[..|t| - 1], target)
  }

  /** Entry i is the miner's last one in the table. */
  ghost predicate LastEntry(t: seq<Miner>, target: nat, i: nat) {
    i < |t| && t[i].addr == target && forall j :: i < j < |t| ==> t[j].addr != target
  }

  lemma {:induction false} PowerOfExactly(t: seq<Miner>, target: nat)
    ensures forall i: nat :: LastEntry(t, target, i) ==> PowerOf(t, target) == t[i].power
    ensures (forall i :: 0 <= i < |t| ==> t[i].addr != target) ==> PowerOf(t, target) == 0
    ensures PowerOf(t, target) <= Total(t)
  {
    if t != [] {
      var front, last := t[..|t| - 1], |t| - 1;
      PowerOfExactly(front, target);
      assert t == front + [t[last]];
      TotalSnoc(front, t[last]);
      forall i: nat | LastEntry(t, target, i) ensures PowerOf(t, target) == t[i].power {
        if i < last {
          assert front[i] == t[i] && t[last].addr != target;
          assert forall j :: i < j < |front| ==> front[j] == t[j];
          assert LastEntry(front, target, i);
        }
      }
    }
  }

  method RemainingPowerPct(t: seq<Miner>, target: nat) returns (pct: real)
    ensures Total(t) == 0 ==> pct == 0.0
    ensures Total(t) > 0 ==> pct == 100.0 - Share(PowerOf(t, target), Total(t))
  {
    var total, targetPower := 0, 0;
    for i := 0 to |t|
      invariant total == Total(t[..i])
      invariant targetPower == PowerOf(t[..i], target)
    {
      assert t[..i + 1] == t[..i] + [t[i]];
      TotalSnoc(t[..i], t[i]);
      total := total + t[i].power;
      if t[i].addr == target {
        targetPower := t[i].power;
      }
    }
    assert t[..|t|] == t;
    if total == 0 {
      return 0.0;
    }
    pct := (total - targetPower) as real * 100.0 / total as real;
    RemainingShare(targetPower, total);
  }

  lemma RemainingShare(power: nat, total: nat)
    requires total > 0
    ensures (total - power) as real * 100.0 / total as real == 100.0 - Share(power, total)
  {
    var p, n, x := power as real, total as real, Share(power, total);
    assert (total - power) as real == n - p;
    assert x * n == p * 100.0;
    assert (n - p) * 100.0 == n * 100.0 - p * 100.0 == (100.0 - x) * n;
    Quotient((n - p) * 100.0, n, 100.0 - x);
  }

  lemma Quotient(a: real, n: real, q: real)
    requires n > 0.0 && a == q * n
    ensures a / n == q
  {
  }

  lemma ShareBounds(power: nat, total: nat)
    requires power <= total && total > 0
    ensures Share(power, total) * total as real == power as real * 100.0
    ensures 0.0 <= Share(power, total) <= 100.0
    ensures power == 0 ==> Share(power, total) == 0.0
  {
    var n, x := total as real, Share(power, total);
    assert x * n == power as real * 100.0;
    assert 0.0 <= x * n <= 100.0 * n;
    Bounds(x, n);
  }

  lemma Bounds(q: real, n: real)
    requires n > 0.0 && 0.0 <= q * n <= 100.0 * n
    ensures 0.0 <= q <= 100.0
  {
  }

  /** What is left of the table's power without the miner's last entry, in percent:
      everything when the miner has none. */
  lemma RemainingExactly(t: seq<Miner>, target: nat)
    requires Total(t) > 0
    ensures var pct := 100.0 - Share(PowerOf(t, target), Total(t));
            && 0.0 <= pct <= 100.0
            && (forall i: nat ::
                  LastEntry(t, target, i) ==> pct * Total(t) as real == (Total(t) - t[i].power) as real * 100.0)
            && ((forall i :: 0 <= i < |t| ==> t[i].addr != target) ==> pct == 100.0)
  {
    hide LastEntry, Share, PowerOf, Total;
    PowerOfExactly(t, target);
    ShareBounds(PowerOf(t, target), Total(t));
    var pct, n := 100.0 - Share(PowerOf(t, target), Total(t)), Total(t) as real;
    assert pct * n == 100.0 * n - Share(PowerOf(t, target), Total(t)) * n;
  }
}
