/**
  The second phase of `color_clusters` (main.py): every cluster found by
  the search gets one colour. A cluster whose tally is exactly {WHITE} is
  new and takes the next palette colour; any other cluster takes the most
  frequent colour of its tally (WHITE included), the first one seen on a tie.

  The boids' colours are the array `color` of a `Flock`, indexed like the
  boid list; the module-level counter `_color_idx` is its field `colorIdx`.
 */
module Coloring {
  import opened Colors
  import opened Counting
  import opened Components

  /** The colours of the members of comp in member order: what the Counter is fed. */
  function MemberColors(cols: seq<Color>, comp: seq<nat>): (cs: seq<Color>)
    requires forall a :: 0 <= a < |comp| ==> comp[a] < |cols|
    ensures |cs| == |comp|
    ensures forall a {:trigger cs[a]} :: 0 <= a < |comp| ==> cs[a] == cols[comp[a]]
  {
    seq(|comp|, a requires 0 <= a < |comp| => cols[comp[a]])
  }

  ghost predicate AllWhite(cs: seq<Color>)
  {
    forall a :: 0 <= a < |cs| ==> cs[a] == White
  }

  /** The test `len(cnt) == 1 and WHITE in cnt` on the tally of cs. */
  predicate IsNew(cs: seq<Color>)
  {
    var cnt := Tally(cs);
    |cnt| == 1 && White in Keys(cnt)
  }

  /** A non-empty cluster passes the test exactly when every member is still WHITE. */
  lemma {:induction false} NewIffAllWhite(cs: seq<Color>)
    requires |cs| > 0
    ensures IsNew(cs) <==> AllWhite(cs)
  {
    if AllWhite(cs) {
      TallyUniform(cs, White);
      assert Keys(Tally(cs))[0] == White;
    }
    if IsNew(cs) {
      TallySpec(cs);
      DistinctSpec(cs);
      var ds := Distinct(cs);
      assert ds == [White];
      forall a | 0 <= a < |cs|
        ensures cs[a] == White
      {
        assert cs[a] in ds;
      }
    }
  }

  /**
    The colour a cluster with member colours cs receives when the palette
    counter reads idx, and the counter afterwards. A cluster passes the
    Counter test exactly when it is all WHITE (NewIffAllWhite).
   */
  ghost function ChooseColor(cs: seq<Color>, idx: nat): (Color, nat)
    requires |cs| > 0
  {
    if AllWhite(cs) then (PaletteColor(idx), idx + 1) else (Dominant(cs), idx)
  }

  /**
    What ChooseColor promises: a new cluster gets the palette entry under
    the counter and the counter advances; any other cluster keeps the
    counter and gets one of its own colours that no colour outnumbers,
    the first seen among those that tie.
   */
  lemma {:induction false} ChooseColorSpec(cs: seq<Color>, idx: nat)
    requires |cs| > 0
    ensures AllWhite(cs) ==> ChooseColor(cs, idx) == (PaletteColor(idx), idx + 1)
    ensures !AllWhite(cs) ==> ChooseColor(cs, idx).1 == idx && ChooseColor(cs, idx).0 in cs
    ensures !AllWhite(cs) ==> forall c :: multiset(cs)[c] <= multiset(cs)[ChooseColor(cs, idx).0]
    ensures !AllWhite(cs) ==>
              forall q :: 0 <= q < FirstIndex(cs, ChooseColor(cs, idx).0) ==>
                multiset(cs)[cs[q]] < multiset(cs)[ChooseColor(cs, idx).0]
  {
    DominantSpec(cs);
  }

  /** The colours after `for idx in comp: boids[idx].color = c`. */
  function Paint(cols: seq<Color>, comp: seq<nat>, c: Color): seq<Color>
  {
    seq(|cols|, x requires 0 <= x < |cols| => if x in comp then c else cols[x])
  }

  /**
    The colours and the counter after `for comp in clusters:` has handled
    every cluster in order, each cluster's tally taken from the colours as
    the earlier clusters left them.
   */
  ghost function Recolor(cols: seq<Color>, clusters: seq<seq<nat>>, idx: nat): (r: (seq<Color>, nat))
    requires ClustersIn(clusters, |cols|)
    ensures |r.0| == |cols|
    decreases |clusters|
  {
    if clusters == [] then (cols, idx)
    else
      var prev := Recolor(cols, clusters[..|clusters| - 1], idx);
      var comp := clusters[|clusters| - 1];
      var choice := ChooseColor(MemberColors(prev.0, comp), prev.1);
      (Paint(prev.0, comp, choice.0), choice.1)
  }

  /** How many of the clusters are entirely WHITE in cols. */
  ghost function NewCount(cols: seq<Color>, clusters: seq<seq<nat>>): nat
    requires ClustersIn(clusters, |cols|)
    decreases |clusters|
  {
    if clusters == [] then 0
    else
      NewCount(cols, clusters[..|clusters| - 1]) +
      (if AllWhite(MemberColors(cols, clusters[|clusters| - 1])) then 1 else 0)
  }

  /** The first k clusters are again clusters of indices below n. */
  lemma {:induction false} ClustersPrefix(clusters: seq<seq<nat>>, n: nat, k: nat)
    requires ClustersIn(clusters, n) && k <= |clusters|
    ensures ClustersIn(clusters[..k], n)
  {
    assert forall t :: 0 <= t < k ==> clusters[..k][t] == clusters[t];
  }

  /** The first k of disjoint clusters are disjoint. */
  lemma {:induction false} DisjointPrefix(clusters: seq<seq<nat>>, k: nat)
    requires Disjoint(clusters) && k <= |clusters|
    ensures Disjoint(clusters[..k])
  {
    var init := clusters[..k];
    forall t1, t2, a, b | 0 <= t1 < t2 < k && 0 <= a < |init[t1]| && 0 <= b < |init[t2]|
      ensures Member(init, t1, a) != Member(init, t2, b)
    {
      assert Member(clusters, t1, a) != Member(clusters, t2, b);
    }
  }

  /** An index in no cluster keeps its colour. */
  lemma {:induction false} RecolorOutside(cols: seq<Color>, clusters: seq<seq<nat>>, idx: nat)
    requires ClustersIn(clusters, |cols|)
    ensures forall x :: 0 <= x < |cols| && !InEarlier(clusters, |clusters|, x) ==>
              Recolor(cols, clusters, idx).0[x] == cols[x]
    decreases |clusters|
  {
    if clusters != [] {
      var L := |clusters| - 1;
      var init := clusters[..L];
      ClustersPrefix(clusters, |cols|, L);
      RecolorOutside(cols, init, idx);
      forall x | 0 <= x < |cols| && !InEarlier(clusters, |clusters|, x)
        ensures Recolor(cols, clusters, idx).0[x] == cols[x]
      {
        assert x !in clusters[L];
        forall u | 0 <= u < L
          ensures x !in init[u]
        {
          assert init[u] == clusters[u];
        }
      }
    }
  }

  /**
    The earlier clusters leave the last cluster's colours alone, since the
    clusters are disjoint: the last cluster's tally is taken from the
    original colours.
   */
  lemma {:induction false} LastUntouched(cols: seq<Color>, clusters: seq<seq<nat>>, idx: nat)
    requires ClustersIn(clusters, |cols|) && Disjoint(clusters) && clusters != []
    ensures ClustersIn(clusters[..|clusters| - 1], |cols|)
    ensures MemberColors(Recolor(cols, clusters[..|clusters| - 1], idx).0, clusters[|clusters| - 1]) ==
            MemberColors(cols, clusters[|clusters| - 1])
  {
    var L := |clusters| - 1;
    var init, comp := clusters[..L], clusters[L];
    ClustersPrefix(clusters, |cols|, L);
    RecolorOutside(cols, init, idx);
    var prev := Recolor(cols, init, idx);
    forall a | 0 <= a < |comp|
      ensures prev.0[comp[a]] == cols[comp[a]]
    {
      forall u | 0 <= u < L
        ensures comp[a] !in init[u]
      {
        forall a' | 0 <= a' < |init[u]|
          ensures init[u][a'] != comp[a]
        {
          assert Member(clusters, u, a') != Member(clusters, L, a);
        }
      }
      assert !InEarlier(init, L, comp[a]);
    }
  }

  /** The counter ends advanced once per cluster that was entirely WHITE. */
  lemma {:induction false} RecolorCounter(cols: seq<Color>, clusters: seq<seq<nat>>, idx: nat)
    requires ClustersIn(clusters, |cols|) && Disjoint(clusters)
    ensures Recolor(cols, clusters, idx).1 == idx + NewCount(cols, clusters)
    decreases |clusters|
  {
    if clusters != [] {
      var L := |clusters| - 1;
      var init, comp := clusters[..L], clusters[L];
      LastUntouched(cols, clusters, idx);
      DisjointPrefix(clusters, L);
      RecolorCounter(cols, init, idx);
      var prev := Recolor(cols, init, idx);
      var cs := MemberColors(cols, comp);
      assert Recolor(cols, clusters, idx).1 == ChooseColor(cs, prev.1).1;
    }
  }

  /**
    Because the clusters are disjoint, handling them one after another is
    the same as deciding each from the original colours: every member of
    cluster t gets the colour ChooseColor picks from the cluster's original
    colours, with the counter advanced once per earlier new cluster.
   */
  lemma {:induction false} RecolorMembers(cols: seq<Color>, clusters: seq<seq<nat>>, idx: nat)
    requires ClustersIn(clusters, |cols|) && Disjoint(clusters)
    ensures forall t, a {:trigger Recolor(cols, clusters, idx).0[clusters[t][a]]} ::
              0 <= t < |clusters| && 0 <= a < |clusters[t]| ==>
              Recolor(cols, clusters, idx).0[clusters[t][a]] ==
              ChooseColor(MemberColors(cols, clusters[t]), idx + NewCount(cols, clusters[..t])).0
  {
    forall t, a {:trigger Recolor(cols, clusters, idx).0[clusters[t][a]]} | 0 <= t < |clusters| && 0 <= a < |clusters[t]|
      ensures Recolor(cols, clusters, idx).0[clusters[t][a]] ==
              ChooseColor(MemberColors(cols, clusters[t]), idx + NewCount(cols, clusters[..t])).0
    {
      MemberColor(cols, clusters, idx, t, a);
    }
  }

  /** The colour member a of cluster t ends with. */
  lemma {:induction false} MemberColor(cols: seq<Color>, clusters: seq<seq<nat>>, idx: nat, t: nat, a: nat)
    requires ClustersIn(clusters, |cols|) && Disjoint(clusters)
    requires t < |clusters| && a < |clusters[t]|
    ensures Recolor(cols, clusters, idx).0[clusters[t][a]] ==
            ChooseColor(MemberColors(cols, clusters[t]), idx + NewCount(cols, clusters[..t])).0
    decreases |clusters|, 1
  {
    if t < |clusters| - 1 {
      EarlierMemberColor(cols, clusters, idx, t, a);
    } else {
      LastMember(cols, clusters, idx, a);
      assert clusters[..t] == clusters[..|clusters| - 1];
    }
  }

  lemma {:induction false} EarlierMemberColor(cols: seq<Color>, clusters: seq<seq<nat>>, idx: nat, t: nat, a: nat)
    requires ClustersIn(clusters, |cols|) && Disjoint(clusters)
    requires t < |clusters| - 1 && a < |clusters[t]|
    ensures Recolor(cols, clusters, idx).0[clusters[t][a]] ==
            ChooseColor(MemberColors(cols, clusters[t]), idx + NewCount(cols, clusters[..t])).0
    decreases |clusters|, 0
  {
    var L := |clusters| - 1;
    var init := clusters[..L];
    EarlierMember(cols, clusters, idx, t, a);
    DisjointPrefix(clusters, L);
    assert init[t] == clusters[t] && init[..t] == clusters[..t];
    MemberColor(cols, init, idx, t, a);
    assert Recolor(cols, clusters, idx).0[clusters[t][a]] == Recolor(cols, init, idx).0[init[t][a]];
  }

  /** Handling the last cluster leaves the members of the earlier clusters alone. */
  lemma {:induction false} EarlierMember(cols: seq<Color>, clusters: seq<seq<nat>>, idx: nat, t: nat, a: nat)
    requires ClustersIn(clusters, |cols|) && Disjoint(clusters)
    requires t < |clusters| - 1 && a < |clusters[t]|
    ensures ClustersIn(clusters[..|clusters| - 1], |cols|)
    ensures Recolor(cols, clusters, idx).0[clusters[t][a]] ==
            Recolor(cols, clusters[..|clusters| - 1], idx).0[clusters[t][a]]
  {
    var L := |clusters| - 1;
    var comp := clusters[L];
    ClustersPrefix(clusters, |cols|, L);
    var prev := Recolor(cols, clusters[..L], idx);
    var choice := ChooseColor(MemberColors(prev.0, comp), prev.1);
    assert Recolor(cols, clusters, idx).0 == Paint(prev.0, comp, choice.0);
    forall b | 0 <= b < |comp|
      ensures comp[b] != clusters[t][a]
    {
      assert Member(clusters, t, a) != Member(clusters, L, b);
    }
  }

  /** The members of the last cluster take the colour chosen from their original colours. */
  lemma {:induction false} LastMember(cols: seq<Color>, clusters: seq<seq<nat>>, idx: nat, a: nat)
    requires ClustersIn(clusters, |cols|) && Disjoint(clusters)
    requires clusters != [] && a < |clusters[|clusters| - 1]|
    ensures ClustersIn(clusters[..|clusters| - 1], |cols|)
    ensures Recolor(cols, clusters, idx).0[clusters[|clusters| - 1][a]] ==
            ChooseColor(MemberColors(cols, clusters[|clusters| - 1]), idx + NewCount(cols, clusters[..|clusters| - 1])).0
  {
    var L := |clusters| - 1;
    var init, comp := clusters[..L], clusters[L];
    LastUntouched(cols, clusters, idx);
    DisjointPrefix(clusters, L);
    RecolorCounter(cols, init, idx);
    var prev := Recolor(cols, init, idx);
    var choice := ChooseColor(MemberColors(cols, comp), prev.1);
    assert Recolor(cols, clusters, idx).0 == Paint(prev.0, comp, choice.0);
    assert comp[a] in comp;
  }

  /** All members of a cluster end with the same colour. */
  lemma {:induction false} ClustersUniform(cols: seq<Color>, clusters: seq<seq<nat>>, idx: nat)
    requires ClustersIn(clusters, |cols|) && Disjoint(clusters)
    ensures forall t, a, b :: 0 <= t < |clusters| && 0 <= a < |clusters[t]| && 0 <= b < |clusters[t]| ==>
              Recolor(cols, clusters, idx).0[clusters[t][a]] == Recolor(cols, clusters, idx).0[clusters[t][b]]
  {
    RecolorMembers(cols, clusters, idx);
  }

  /** Starting from palette colours and WHITE, recolouring produces nothing else. */
  lemma {:induction false} ColorsStayInPalette(cols: seq<Color>, clusters: seq<seq<nat>>, idx: nat)
    requires ClustersIn(clusters, |cols|) && Disjoint(clusters)
    requires forall x :: 0 <= x < |cols| ==> ValidColor(cols[x])
    ensures forall x :: 0 <= x < |cols| ==> ValidColor(Recolor(cols, clusters, idx).0[x])
  {
    RecolorMembers(cols, clusters, idx);
    RecolorOutside(cols, clusters, idx);
    var r := Recolor(cols, clusters, idx);
    forall x | 0 <= x < |cols|
      ensures ValidColor(r.0[x])
    {
      if t :| 0 <= t < |clusters| && x in clusters[t] {
        var a :| 0 <= a < |clusters[t]| && clusters[t][a] == x;
        var cs := MemberColors(cols, clusters[t]);
        var c := ChooseColor(cs, idx + NewCount(cols, clusters[..t])).0;
        ChooseColorSpec(cs, idx + NewCount(cols, clusters[..t]));
        if !AllWhite(cs) {
          var q :| 0 <= q < |cs| && cs[q] == c;
          assert c == cols[clusters[t][q]];
        }
      }
    }
  }

  /** A cluster that was entirely WHITE ends with a palette colour, so it is not new on the next pass. */
  lemma {:induction false} NewClusterColored(cols: seq<Color>, clusters: seq<seq<nat>>, idx: nat, t: nat)
    requires ClustersIn(clusters, |cols|) && Disjoint(clusters)
    requires t < |clusters| && AllWhite(MemberColors(cols, clusters[t]))
    ensures var r := Recolor(cols, clusters, idx);
            forall a :: 0 <= a < |clusters[t]| ==>
              r.0[clusters[t][a]] == PaletteColor(idx + NewCount(cols, clusters[..t])) && r.0[clusters[t][a]] != White
    ensures !IsNew(MemberColors(Recolor(cols, clusters, idx).0, clusters[t]))
  {
    RecolorMembers(cols, clusters, idx);
    var r := Recolor(cols, clusters, idx);
    var n := idx + NewCount(cols, clusters[..t]);
    var choice := ChooseColor(MemberColors(cols, clusters[t]), n);
    assert choice.0 == PaletteColor(n);
    forall a | 0 <= a < |clusters[t]|
      ensures r.0[clusters[t][a]] == PaletteColor(n)
    {
      assert r.0[clusters[t][a]] == choice.0;
    }
    var cs := MemberColors(r.0, clusters[t]);
    NewIffAllWhite(cs);
    assert cs[0] != White;
  }

  /** The counter never decreases along the clusters, and each new cluster advances it. */
  lemma {:induction false} NewCountGrows(cols: seq<Color>, clusters: seq<seq<nat>>, k1: nat, k2: nat)
    requires ClustersIn(clusters, |cols|)
    requires k1 < k2 <= |clusters|
    ensures NewCount(cols, clusters[..k1]) + (if AllWhite(MemberColors(cols, clusters[k1])) then 1 else 0)
              <= NewCount(cols, clusters[..k2])
    decreases k2
  {
    assert clusters[..k2][..k2 - 1] == clusters[..k2 - 1];
    if k1 + 1 == k2 {
      assert clusters[..k2][k2 - 1] == clusters[k1];
    } else {
      NewCountGrows(cols, clusters, k1, k2 - 1);
    }
  }

  /**
    While at most nine new clusters appear in one pass, no two of them
    receive the same palette colour.
   */
  lemma {:induction false} NewClustersDistinct(cols: seq<Color>, clusters: seq<seq<nat>>, idx: nat, t1: nat, t2: nat)
    requires ClustersIn(clusters, |cols|) && Disjoint(clusters)
    requires t1 < t2 < |clusters|
    requires AllWhite(MemberColors(cols, clusters[t1])) && AllWhite(MemberColors(cols, clusters[t2]))
    requires NewCount(cols, clusters) <= |ClusterColors|
    ensures Recolor(cols, clusters, idx).0[clusters[t1][0]] != Recolor(cols, clusters, idx).0[clusters[t2][0]]
  {
    ClustersPrefix(clusters, |cols|, t1);
    ClustersPrefix(clusters, |cols|, t2);
    var n1 := idx + NewCount(cols, clusters[..t1]);
    var n2 := idx + NewCount(cols, clusters[..t2]);
    NewCountGrows(cols, clusters, t1, t2);
    NewCountGrows(cols, clusters, t2, |clusters|);
    assert clusters[..|clusters|] == clusters;
    CycleDistinct(n1, n2);
    MemberColor(cols, clusters, idx, t1, 0);
    MemberColor(cols, clusters, idx, t2, 0);
  }

  /**
    Colours that are already uniform per cluster and not WHITE are left as
    they are, and the counter does not move: a second pass over the same
    clusters changes nothing.
   */
  lemma {:induction false} RecolorStable(cols: seq<Color>, clusters: seq<seq<nat>>, idx: nat)
    requires ClustersIn(clusters, |cols|) && Disjoint(clusters)
    requires forall t, a :: 0 <= t < |clusters| && 0 <= a < |clusters[t]| ==>
               cols[clusters[t][a]] == cols[clusters[t][0]] && cols[clusters[t][a]] != White
    ensures Recolor(cols, clusters, idx) == (cols, idx)
  {
    RecolorCounter(cols, clusters, idx);
    NoneNew(cols, clusters);
    var r := Recolor(cols, clusters, idx);
    forall x | 0 <= x < |cols|
      ensures r.0[x] == cols[x]
    {
      StableAt(cols, clusters, idx, x);
    }
    assert r.0 == cols;
  }

  lemma {:induction false} StableAt(cols: seq<Color>, clusters: seq<seq<nat>>, idx: nat, x: nat)
    requires ClustersIn(clusters, |cols|) && Disjoint(clusters)
    requires forall t, a :: 0 <= t < |clusters| && 0 <= a < |clusters[t]| ==>
               cols[clusters[t][a]] == cols[clusters[t][0]] && cols[clusters[t][a]] != White
    requires x < |cols|
    ensures Recolor(cols, clusters, idx).0[x] == cols[x]
  {
    if t :| 0 <= t < |clusters| && x in clusters[t] {
      var a :| 0 <= a < |clusters[t]| && clusters[t][a] == x;
      MemberColor(cols, clusters, idx, t, a);
      ClustersPrefix(clusters, |cols|, t);
      var n := idx + NewCount(cols, clusters[..t]);
      UniformChoice(MemberColors(cols, clusters[t]), cols[clusters[t][0]], n);
    } else {
      RecolorOutside(cols, clusters, idx);
      assert !InEarlier(clusters, |clusters|, x);
    }
  }

  /** A cluster whose members all have one colour other than WHITE keeps that colour and the counter. */
  lemma {:induction false} UniformChoice(cs: seq<Color>, c: Color, idx: nat)
    requires |cs| > 0 && c != White
    requires forall a :: 0 <= a < |cs| ==> cs[a] == c
    ensures ChooseColor(cs, idx) == (c, idx)
  {
    TallyUniform(cs, c);
    assert cs[0] != White;
  }

  lemma {:induction false} NoneNew(cols: seq<Color>, clusters: seq<seq<nat>>)
    requires ClustersIn(clusters, |cols|)
    requires forall t :: 0 <= t < |clusters| ==> cols[clusters[t][0]] != White
    ensures NewCount(cols, clusters) == 0
    decreases |clusters|
  {
    if clusters != [] {
      var L := |clusters| - 1;
      assert MemberColors(cols, clusters[L])[0] != White;
      NoneNew(cols, clusters[..L]);
    }
  }

  /**
    The pass is idempotent once no cluster came out WHITE: running it again
    on the same clusters leaves colours and counter unchanged.
   */
  lemma {:induction false} SecondPassStable(cols: seq<Color>, clusters: seq<seq<nat>>, idx: nat)
    requires ClustersIn(clusters, |cols|) && Disjoint(clusters)
    requires forall t :: 0 <= t < |clusters| ==> Recolor(cols, clusters, idx).0[clusters[t][0]] != White
    ensures var r := Recolor(cols, clusters, idx);
            Recolor(r.0, clusters, r.1) == r
  {
    ClustersUniform(cols, clusters, idx);
    var r := Recolor(cols, clusters, idx);
    RecolorStable(r.0, clusters, r.1);
  }

  /**
    The tally counts WHITE like any other colour: a cluster that is not
    entirely WHITE but where WHITE outnumbers every other colour is
    repainted entirely WHITE, so on the next pass it is treated as new.
   */
  lemma {:induction false} WhiteMajority(cols: seq<Color>, clusters: seq<seq<nat>>, idx: nat, t: nat)
    requires ClustersIn(clusters, |cols|) && Disjoint(clusters) && t < |clusters|
    requires !AllWhite(MemberColors(cols, clusters[t]))
    requires forall c :: c != White ==>
               multiset(MemberColors(cols, clusters[t]))[c] < multiset(MemberColors(cols, clusters[t]))[White]
    ensures forall a :: 0 <= a < |clusters[t]| ==> Recolor(cols, clusters, idx).0[clusters[t][a]] == White
    ensures IsNew(MemberColors(Recolor(cols, clusters, idx).0, clusters[t]))
  {
    RecolorMembers(cols, clusters, idx);
    var cs := MemberColors(cols, clusters[t]);
    var n := idx + NewCount(cols, clusters[..t]);
    ChooseColorSpec(cs, n);
    assert ChooseColor(cs, n).0 == White;
    var r := Recolor(cols, clusters, idx);
    forall a | 0 <= a < |clusters[t]|
      ensures r.0[clusters[t][a]] == White
    {
      assert r.0[clusters[t][a]] == ChooseColor(cs, n).0;
    }
    NewIffAllWhite(MemberColors(r.0, clusters[t]));
  }

  /** Counts {WHITE: 2, A: 1}: the cluster takes WHITE and the counter stays. */
  lemma {:induction false} WhiteMajorityExample(cs: seq<Color>, idx: nat)
    requires cs == [White, White, Entry(0)]
    ensures ChooseColor(cs, idx) == (White, idx)
  {
    ChooseColorSpec(cs, idx);
    assert cs[2] != White;
    assert multiset(cs)[White] == 2 && multiset(cs)[Entry(0)] == 1;
  }

  /** Counts {A: 3, B: 5, WHITE: 2}: the cluster takes B and the counter stays. */
  lemma {:induction false} DominantExample(cs: seq<Color>, idx: nat)
    requires cs == [Entry(0), White, Entry(1), Entry(0), Entry(1), Entry(1), White, Entry(0), Entry(1), Entry(1)]
    ensures ChooseColor(cs, idx) == (Entry(1), idx)
  {
    ChooseColorSpec(cs, idx);
    assert cs[0] != White;
    assert multiset(cs)[Entry(0)] == 3 && multiset(cs)[Entry(1)] == 5 && multiset(cs)[White] == 2;
  }

  /** A tie goes to the colour seen first: counts {A: 2, B: 2} with A first give A. */
  lemma {:induction false} TieExample(cs: seq<Color>, idx: nat)
    requires cs == [Entry(0), Entry(1), Entry(1), Entry(0)]
    ensures ChooseColor(cs, idx) == (Entry(0), idx)
  {
    ChooseColorSpec(cs, idx);
    assert cs[0] != White;
    assert multiset(cs)[Entry(0)] == 2 && multiset(cs)[Entry(1)] == 2;
    assert cs[..1] == [Entry(0)];
  }

  /**
    The boids as far as `color_clusters` is concerned: the colour of each
    boid, indexed like the boid list, and the palette counter.
   */
  class Flock {
    var color: array<Color>
    var colorIdx: nat

    /** n boids, all WHITE as `Boid.__init__` leaves them, and the counter at 0. */
    constructor (n: nat)
      ensures fresh(color) && color.Length == n
      ensures forall x :: 0 <= x < n ==> color[x] == White
      ensures colorIdx == 0
    {
      color := new Color[n](_ => White);
      colorIdx := 0;
    }

    /** `_next_color`: the palette entry under the counter; the counter advances by one. */
    method NextColor() returns (col: Color)
      modifies this
      ensures col == PaletteColor(old(colorIdx))
      ensures colorIdx == old(colorIdx) + 1
      ensures color == old(color)
    {
      col := Entry(colorIdx % |ClusterColors|);
      colorIdx := colorIdx + 1;
    }

    /** `for idx in comp: boids[idx].color = c`. */
    method PaintMembers(comp: seq<nat>, c: Color)
      requires forall a :: 0 <= a < |comp| ==> comp[a] < color.Length
      modifies color
      ensures color[..] == Paint(old(color[..]), comp, c)
    {
      for a := 0 to |comp|
        invariant color[..] == Paint(old(color[..]), comp[..a], c)
      {
        assert comp[..a + 1] == comp[..a] + [comp[a]];
        color[comp[a]] := c;
      }
      assert comp[..|comp|] == comp;
    }

    /**
      The body of `for comp in clusters:` in `color_clusters`: tally the
      members' colours; a tally of exactly {WHITE} takes the next palette
      colour, any other the first most frequent colour; paint the members.
     */
    method ColorCluster(comp: seq<nat>)
      requires |comp| > 0 && forall a :: 0 <= a < |comp| ==> comp[a] < color.Length
      modifies this, color
      ensures color == old(color)
      ensures var choice := ChooseColor(MemberColors(old(color[..]), comp), old(colorIdx));
              color[..] == Paint(old(color[..]), comp, choice.0) && colorIdx == choice.1
    {
      var cs := MemberColors(color[..], comp);
      var cnt := Tally(cs);
      TallySpec(cs);
      DistinctSpec(cs);
      NewIffAllWhite(cs);
      assert cs[0] in Distinct(cs);
      if |cnt| == 1 && White in Keys(cnt) {
        var col := NextColor();
        PaintMembers(comp, col);
      } else {
        var m := MaxIndex(cnt);
        PaintMembers(comp, cnt[m].0);
      }
    }

    /**
      `color_clusters`: split the boids into clusters with the search, then
      give each cluster its colour in order. Only the colours and the
      counter change; `near` stands for the distance test on the positions.
      The clusters are not returned by the program; here they are a ghost
      result so that the contract can name them.
     */
    method ColorClusters(near: (nat, nat) -> bool) returns (ghost clusters: seq<seq<nat>>)
      modifies this, color
      ensures color == old(color)
      ensures clusters == AllClusters(near, color.Length)
      ensures IsSearchResult(near, color.Length, clusters)
      ensures (color[..], colorIdx) == Recolor(old(color[..]), clusters, old(colorIdx))
      ensures colorIdx == old(colorIdx) + NewCount(old(color[..]), clusters)
    {
      ghost var cols0, idx0 := color[..], colorIdx;
      var found := FindClusters(color.Length, near);
      clusters := found;
      ColorAll(found);
      RecolorCounter(cols0, found, idx0);
    }

    /**
      The loop `for comp in clusters:` of `color_clusters` (main.py:178-191):
      each cluster in turn takes its colour from the colours the earlier
      clusters left.
     */
    method ColorAll(clusters: seq<seq<nat>>)
      requires ClustersIn(clusters, color.Length)
      modifies this, color
      ensures color == old(color)
      ensures (color[..], colorIdx) == Recolor(old(color[..]), clusters, old(colorIdx))
    {
      ghost var cols0, idx0 := color[..], colorIdx;
      for t := 0 to |clusters|
        invariant color == old(color)
        invariant (color[..], colorIdx) == Recolor(cols0, clusters[..t], idx0)
      {
        assert clusters[..t + 1][..t] == clusters[..t];
        ColorCluster(clusters[t]);
      }
      assert clusters[..|clusters|] == clusters;
    }
  }
}
