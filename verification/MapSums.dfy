/** The sum of a dictionary's values. */
module MapSums {
  import opened SetFacts

  ghost function Sum(m: map<int, int>): int
    decreases |m|
  {
    if exists k :: k in m then
      var k :| k in m;
      SizeDrop(m, k);
      m[k] + Sum(m - {k})
    else
      0
  }

  lemma SumNone()
    ensures Sum(map[]) == 0
  {
  }

  lemma {:induction false} SumPick(m: map<int, int>, k: int)
    requires k in m
    ensures Sum(m) == m[k] + Sum(m - {k})
    decreases |m|
  {
    var p :| p in m && Sum(m) == m[p] + Sum(m - {p});
    if p != k {
      SizeDrop(m, k);
      SizeDrop(m, p);
      SumPick(m - {p}, k);
      SumPick(m - {k}, p);
      assert m - {p} - {k} == m - {k} - {p};
    }
  }

  lemma SumSet(m: map<int, int>, k: int, v: int)
    ensures Sum(m[k := v]) == Sum(m) + v - if k in m then m[k] else 0
  {
    var r := m[k := v];
    SumPick(r, k);
    if k in m {
      SumPick(m, k);
      assert r - {k} == m - {k};
    } else {
      assert r - {k} == m;
    }
  }

  lemma SumDrop(m: map<int, int>, k: int)
    requires k in m
    ensures Sum(m - {k}) == Sum(m) - m[k]
  {
    SumPick(m, k);
  }

  lemma SizeSet(m: map<int, int>, k: int, v: int)
    ensures |m[k := v]| == |m| + if k in m then 0 else 1
  {
    assert m[k := v].Keys == m.Keys + {k};
  }

  lemma SizeDrop<V>(m: map<int, V>, k: int)
    requires k in m
    ensures |m - {k}| == |m| - 1
  {
    assert (m - {k}).Keys == m.Keys - {k};
  }

  /** The sum, taken in whatever order the dictionary has its keys. */
  method SumValues(m: map<int, int>) returns (total: int)
    ensures total == Sum(m)
  {
    total := 0;
    var rest := m;
    while rest.Keys != {}
      invariant total + Sum(rest) == Sum(m)
      decreases |rest|
    {
      ghost var some := Pick(rest.Keys);
      var k :| k in rest;
      SumDrop(rest, k);
      SizeDrop(rest, k);
      total := total + rest[k];
      rest := rest - {k};
    }
    assert rest == map[];
    SumNone();
  }
}
