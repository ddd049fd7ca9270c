/**
  The colour tally of one cluster and the choice of its dominant colour
  (main.py: `Counter(boids[i].color for i in comp)` and
  `max(cnt.items(), key=lambda x: x[1])`).

  A `Counter` is a dictionary that remembers insertion order; it is
  modelled as a sequence of (colour, count) entries in that order.
 */
module Counting {
  import opened Colors
  import opened Seqs

  /** The keys of a tally, in insertion order. */
  function Keys(cnt: seq<(Color, nat)>): (ks: seq<Color>)
    ensures |ks| == |cnt|
    ensures forall e :: 0 <= e < |cnt| ==> ks[e] == cnt[e].0
  {
    seq(|cnt|, e requires 0 <= e < |cnt| => cnt[e].0)
  }

  /** The colours occurring in `cs`, each once, in order of first occurrence. */
  function Distinct(cs: seq<Color>): seq<Color>
  {
    if cs == [] then []
    else
      var ds0 := Distinct(cs[..|cs| - 1]);
      if cs[|cs| - 1] in ds0 then ds0 else ds0 + [cs[|cs| - 1]]
  }

  /** Distinct lists every colour of cs, and each only once. */
  lemma {:induction false} DistinctSpec(cs: seq<Color>)
    ensures NoDup(Distinct(cs))
    ensures forall c :: c in Distinct(cs) <==> c in cs
  {
    if cs != [] {
      var init, c := cs[..|cs| - 1], cs[|cs| - 1];
      assert cs == init + [c];
      DistinctSpec(init);
    }
  }

  /** `cnt[c] += 1` on a Counter: bump an existing key in place, or append a new key with count 1. */
  function Bump(cnt: seq<(Color, nat)>, c: Color): seq<(Color, nat)>
  {
    if c in Keys(cnt) then
      seq(|cnt|, e requires 0 <= e < |cnt| => if cnt[e].0 == c then (c, cnt[e].1 + 1) else cnt[e])
    else
      cnt + [(c, 1)]
  }

  /** The Counter built from the colours `cs`, fed one by one. */
  function Tally(cs: seq<Color>): seq<(Color, nat)>
  {
    if cs == [] then [] else Bump(Tally(cs[..|cs| - 1]), cs[|cs| - 1])
  }

  /**
    The keys of the Counter are the distinct colours in order of first
    occurrence, and each count is the number of times that colour occurs.
   */
  lemma {:induction false} TallySpec(cs: seq<Color>)
    ensures Keys(Tally(cs)) == Distinct(cs)
    ensures forall e :: 0 <= e < |Tally(cs)| ==> Tally(cs)[e].1 == multiset(cs)[Tally(cs)[e].0]
  {
    if cs != [] {
      var init, c := cs[..|cs| - 1], cs[|cs| - 1];
      assert cs == init + [c];
      TallySpec(init);
      DistinctSpec(init);
      var cnt0 := Tally(init);
      var cnt := Tally(cs);
      assert cnt == Bump(cnt0, c);
      if c in Keys(cnt0) {
        forall e | 0 <= e < |cnt|
          ensures cnt[e].1 == multiset(cs)[cnt[e].0]
        {
          assert cnt[e].0 == cnt0[e].0;
        }
        assert Keys(cnt) == Keys(cnt0);
      } else {
        assert Keys(cnt) == Keys(cnt0) + [c];
        forall e | 0 <= e < |cnt|
          ensures cnt[e].1 == multiset(cs)[cnt[e].0]
        {
          if e < |cnt0| {
            assert cnt[e] == cnt0[e];
            assert Keys(cnt0)[e] == cnt0[e].0;
          } else {
            assert c !in init;
          }
        }
      }
    }
  }

  /**
    Python's `max` with a key keeps the first item whose key is largest:
    a later item replaces the current best only when its count is strictly
    greater. The result is the index of that item.
   */
  function MaxIndex(cnt: seq<(Color, nat)>): (m: nat)
    requires |cnt| > 0
    ensures m < |cnt|
    ensures forall e :: 0 <= e < |cnt| ==> cnt[e].1 <= cnt[m].1
    ensures forall e :: 0 <= e < m ==> cnt[e].1 < cnt[m].1
  {
    if |cnt| == 1 then 0
    else
      var m0 := MaxIndex(cnt[..|cnt| - 1]);
      if cnt[|cnt| - 1].1 > cnt[m0].1 then |cnt| - 1 else m0
  }

  /** The colour `max(Counter(cs).items(), key=count)[0]` picks. */
  function Dominant(cs: seq<Color>): Color
    requires |cs| > 0
  {
    TallySpec(cs);
    DistinctSpec(cs);
    var cnt := Tally(cs);
    assert cs[0] in Distinct(cs);
    cnt[MaxIndex(cnt)].0
  }

  /** The distinct colours of a prefix are a prefix of the distinct colours of the whole. */
  lemma {:induction false} DistinctPrefix(cs: seq<Color>, k: nat)
    requires k <= |cs|
    ensures |Distinct(cs[..k])| <= |Distinct(cs)|
    ensures Distinct(cs[..k]) == Distinct(cs)[..|Distinct(cs[..k])|]
    decreases |cs|
  {
    if k < |cs| {
      var init := cs[..|cs| - 1];
      assert cs[..k] == init[..k];
      DistinctPrefix(init, k);
    } else {
      assert cs[..k] == cs;
    }
  }

  /** The position where c first occurs in cs. */
  function FirstIndex(cs: seq<Color>, c: Color): (i: nat)
    requires c in cs
    ensures i < |cs| && cs[i] == c
    ensures forall j :: 0 <= j < i ==> cs[j] != c
  {
    if cs[0] == c then 0 else 1 + FirstIndex(cs[1..], c)
  }

  /**
    The dominant colour occurs in the cluster and no colour occurs more
    often; of the colours that occur equally often it is the one seen
    first: every member seen before its first occurrence has a colour that
    occurs strictly fewer times.
   */
  lemma {:induction false} DominantSpec(cs: seq<Color>)
    requires |cs| > 0
    ensures Dominant(cs) in cs
    ensures forall c :: multiset(cs)[c] <= multiset(cs)[Dominant(cs)]
    ensures forall q :: 0 <= q < FirstIndex(cs, Dominant(cs)) ==> multiset(cs)[cs[q]] < multiset(cs)[Dominant(cs)]
  {
    DominantIsMax(cs);
    forall q | 0 <= q < FirstIndex(cs, Dominant(cs))
      ensures multiset(cs)[cs[q]] < multiset(cs)[Dominant(cs)]
    {
      NoTieBefore(cs, q);
    }
  }

  lemma {:induction false} DominantIsMax(cs: seq<Color>)
    requires |cs| > 0
    ensures Dominant(cs) in cs
    ensures forall c :: multiset(cs)[c] <= multiset(cs)[Dominant(cs)]
  {
    TallySpec(cs);
    DistinctSpec(cs);
    var cnt := Tally(cs);
    var ds := Distinct(cs);
    assert cs[0] in ds;
    var m := MaxIndex(cnt);
    var d := cnt[m].0;
    assert d == ds[m];
    forall c
      ensures multiset(cs)[c] <= multiset(cs)[d]
    {
      if c in cs {
        assert c in ds;
        var e :| 0 <= e < |ds| && ds[e] == c;
        assert cnt[e].0 == c;
      }
    }
  }

  /** A colour seen before the dominant colour first occurs is strictly less frequent. */
  lemma {:induction false} NoTieBefore(cs: seq<Color>, q: nat)
    requires |cs| > 0 && Dominant(cs) in cs
    requires q < FirstIndex(cs, Dominant(cs))
    ensures multiset(cs)[cs[q]] < multiset(cs)[Dominant(cs)]
  {
    DominantIsMax(cs);
    TallySpec(cs);
    DistinctSpec(cs);
    var cnt := Tally(cs);
    var ds := Distinct(cs);
    assert cs[0] in ds;
    var m := MaxIndex(cnt);
    var d := cnt[m].0;
    assert d == ds[m];
    var y := cs[q];
    assert y in ds;
    var e :| 0 <= e < |ds| && ds[e] == y;
    assert cnt[e].0 == y;
    assert d !in cs[..q + 1];
    EarlierFirstSeen(cs, q, e, m);
  }

  /**
    A colour seen at position q comes, in first-occurrence order, before a
    colour that does not occur up to q.
   */
  lemma {:induction false} EarlierFirstSeen(cs: seq<Color>, q: nat, e: nat, m: nat)
    requires q < |cs| && e < |Distinct(cs)| && m < |Distinct(cs)|
    requires Distinct(cs)[e] == cs[q]
    requires Distinct(cs)[m] !in cs[..q + 1]
    ensures e < m
  {
    var ds := Distinct(cs);
    DistinctSpec(cs);
    var pre := cs[..q + 1];
    DistinctPrefix(cs, q + 1);
    DistinctSpec(pre);
    var dp := Distinct(pre);
    assert pre[q] == cs[q];
    var e' :| 0 <= e' < |dp| && dp[e'] == cs[q];
    assert ds[e'] == cs[q];
    assert e' == e;
    assert ds[m] !in dp;
  }

  /** A cluster of one colour has that colour as its only tally entry, counted once per member. */
  lemma {:induction false} TallyUniform(cs: seq<Color>, c: Color)
    requires |cs| > 0
    requires forall a :: 0 <= a < |cs| ==> cs[a] == c
    ensures Tally(cs) == [(c, |cs|)]
  {
    UniformFacts(cs, c);
    TallySpec(cs);
    var cnt := Tally(cs);
    assert Keys(cnt) == [c];
    assert cnt[0].0 == c;
  }

  lemma {:induction false} UniformFacts(cs: seq<Color>, c: Color)
    requires forall a :: 0 <= a < |cs| ==> cs[a] == c
    ensures Distinct(cs) == if cs == [] then [] else [c]
    ensures multiset(cs) == multiset{} [c := |cs|]
  {
    if cs != [] {
      var init := cs[..|cs| - 1];
      assert cs == init + [c];
      UniformFacts(init, c);
    }
  }
}
