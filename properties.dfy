/**
 What the filter guarantees about the table it writes: the fate of every
 locus, no locus twice, the no-reference rescue rule, the order of the
 rescued rows, and what happens when the filter is run on its own output.
 */
module RecodeProperties {
  import opened Text
  import opened Sequences
  import opened Counting
  import opened Variants
  import opened RecodeMulti

  lemma UniqueSub<K(!new)>(s: seq<K>, t: seq<K>)
    requires Unique(s) && multiset(t) <= multiset(s)
    ensures Unique(t)
  {
    forall x ensures Occurrences(t, x) <= 1 {
      assert Occurrences(s, x) <= 1;
    }
  }

  /** The loci with a given count come in the order of their first appearance,
      each once. */
  lemma LociWithCountOrder(loci: seq<string>, n: nat)
    ensures Unique(LociWithCount(loci, n))
    ensures forall a, b :: 0 <= a < b < |LociWithCount(loci, n)| ==>
              FirstIndex(loci, LociWithCount(loci, n)[a]) < FirstIndex(loci, LociWithCount(loci, n)[b])
  {
    var d := Distinct(loci);
    FilterCount(d, HasCount(loci, n));
    UniqueSub(d, LociWithCount(loci, n));
    LociWithCountIncreasing(loci, n);
    var selected := LociWithCount(loci, n);
    forall a, b | 0 <= a < b < |selected|
      ensures FirstIndex(loci, selected[a]) < FirstIndex(loci, selected[b])
    {
      assert FirstIndexIn(loci)(selected[a]) < FirstIndexIn(loci)(selected[b]);
    }
  }

  /** A locus ranked by its first appearance in `loci`. */
  function FirstIndexIn(loci: seq<string>): string -> int
  {
    (l: string) => FirstIndex(loci, l)
  }

  lemma LociWithCountIncreasing(loci: seq<string>, n: nat)
    ensures IncreasingBy(LociWithCount(loci, n), FirstIndexIn(loci))
  {
    var d := Distinct(loci);
    DistinctInFirstAppearanceOrder(loci);
    assert IncreasingBy(d, FirstIndexIn(loci)) by {
      forall i, j | 0 <= i < j < |d| ensures FirstIndexIn(loci)(d[i]) < FirstIndexIn(loci)(d[j]) {
      }
    }
    FilterIncreasing(d, HasCount(loci, n), FirstIndexIn(loci));
  }

  /** `keep_goodloci` at one locus: a locus with one row keeps it when its REF
      is known; every other locus loses all its rows. */
  lemma KeptAtLocus<AF(!new)>(chunk: Frame<AF>, k: string)
    ensures var at := RowsAt(chunk, k);
            RowsAt(KeepGoodLoci(chunk), k) == if |at| == 1 && RefKnown(at[0]) then at else []
  {
    var at := RowsAt(chunk, k);
    var good := LociWithCount(Loci(chunk), 1);
    var single := Filter(chunk, InLoci(good));
    assert KeepGoodLoci(chunk) == Filter(single, RefKnown);
    FilterCommute(single, RefKnown, AtLocus(k));
    FilterCommute(chunk, InLoci(good), AtLocus(k));
    assert Filter(single, AtLocus(k)) == Filter(at, InLoci(good));
    LocusCount(chunk, k);
    InLociWithCount(Loci(chunk), 1, k);
    if |at| == 1 {
      FilterAll(at, InLoci(good));
      assert at == [at[0]];
    } else {
      FilterNone(at, InLoci(good));
    }
  }

  /** The rows `keep_goodloci` is meant to keep: the locus occurs once in
      `chunk` and REF is known. */
  function SingleAndKnown<AF>(chunk: Frame<AF>): Row<AF> -> bool
  {
    (r: Row<AF>) => Occurrences(Loci(chunk), r.locus) == 1 && RefKnown(r)
  }

  /** `keep_goodloci` is one selection over the table in its original order. */
  lemma KeepGoodLociInOrder<AF(!new)>(chunk: Frame<AF>)
    ensures KeepGoodLoci(chunk) == Filter(chunk, SingleAndKnown(chunk))
  {
    var good := LociWithCount(Loci(chunk), 1);
    forall r | r in chunk
      ensures SingleAndKnown(chunk)(r) == (InLoci(good)(r) && RefKnown(r))
    {
      InLociWithCount(Loci(chunk), 1, r.locus);
    }
    FilterBoth(chunk, InLoci(good), RefKnown, SingleAndKnown(chunk));
  }

  /** No locus appears twice among the rows `keep_goodloci` keeps. */
  lemma KeptLociUnique<AF(!new)>(chunk: Frame<AF>)
    ensures Unique(Loci(KeepGoodLoci(chunk)))
  {
    forall k ensures Occurrences(Loci(KeepGoodLoci(chunk)), k) <= 1 {
      KeptAtLocus(chunk, k);
      LocusCount(KeepGoodLoci(chunk), k);
    }
  }

  /** Only the rescued row of a locus (if any) has that locus. */
  lemma RescueLocusAt<AF(!new)>(df: Frame<AF>, l: string, k: string)
    ensures RowsAt(RescueLocus(df, l), k) == if l == k then RescueLocus(df, l) else []
  {
    var at := RowsAt(df, l);
    if |at| == 2 && Rescuable(at) {
      assert at[0] in at;
      assert RescueLocus(df, l) == [Merge(at)];
      assert Merge(at).locus == l;
    }
  }

  lemma {:induction false} RescueAllAt<AF(!new)>(df: Frame<AF>, loci: seq<string>, k: string)
    requires Unique(loci)
    ensures RowsAt(RescueAll(df, loci), k) == if k in loci then RescueLocus(df, k) else []
  {
    if loci != [] {
      var init, last := loci[..|loci| - 1], loci[|loci| - 1];
      assert loci == init + [last];
      assert Unique(init) && (k == last ==> k !in init) by {
        assert multiset(loci) == multiset(init) + multiset{last};
        UniqueSub(loci, init);
        if k == last {
          assert Occurrences(loci, k) == Occurrences(init, k) + 1;
        }
      }
      var before, here := RescueAll(df, init), RescueLocus(df, last);
      assert RescueAll(df, loci) == before + here;
      RescueAllAt(df, init, k);
      FilterConcat(before, here, AtLocus(k));
      RescueLocusAt(df, last, k);
      assert k in loci <==> k in init || k == last;
    }
  }

  /** `get_noref_snps` at one locus: a locus with exactly two rows yields its
      rescued row or nothing; every other locus yields nothing. */
  lemma RescuedAtLocus<AF(!new)>(df: Frame<AF>, k: string)
    ensures RowsAt(NorefSnps(df), k) == if Occurrences(Loci(df), k) == 2 then RescueLocus(df, k) else []
  {
    LociWithCountOrder(Loci(df), 2);
    RescueAllAt(df, LociWithCount(Loci(df), 2), k);
    InLociWithCount(Loci(df), 2, k);
  }

  /** Every rescued row stands for a locus of exactly two rows that meets the
      rescue rule, and is built from the first of the two; no locus is rescued twice. */
  lemma RescuedRowsFromPairs<AF(!new)>(df: Frame<AF>)
    ensures forall r :: r in NorefSnps(df) ==>
              Occurrences(Loci(df), r.locus) == 2 && |RowsAt(df, r.locus)| == 2 &&
              Rescuable(RowsAt(df, r.locus)) && r == Merge(RowsAt(df, r.locus))
    ensures Unique(Loci(NorefSnps(df)))
  {
    var rescued := NorefSnps(df);
    forall r | r in rescued
      ensures Occurrences(Loci(df), r.locus) == 2 && |RowsAt(df, r.locus)| == 2
      ensures Rescuable(RowsAt(df, r.locus)) && r == Merge(RowsAt(df, r.locus))
    {
      RescuedAtLocus(df, r.locus);
      assert r in RowsAt(rescued, r.locus);
      LocusCount(df, r.locus);
    }
    forall k ensures Occurrences(Loci(rescued), k) <= 1 {
      RescuedAtLocus(df, k);
      LocusCount(rescued, k);
    }
  }

  lemma {:induction false} RescueAllLoci<AF(!new)>(df: Frame<AF>, loci: seq<string>)
    ensures forall r :: r in RescueAll(df, loci) ==> r.locus in loci
  {
    if loci != [] {
      var init, last := loci[..|loci| - 1], loci[|loci| - 1];
      RescueAllLoci(df, init);
      RescueLocusAt(df, last, last);
      forall r | r in RescueAll(df, loci) ensures r.locus in loci {
        if r in RescueLocus(df, last) {
          assert r in RowsAt(RescueLocus(df, last), last);
        } else {
          assert r.locus in init;
        }
      }
    }
  }

  /** A row ranked by the position of its locus in `keys`. */
  function LocusRank<AF>(keys: seq<string>): Row<AF> -> int
  {
    (r: Row<AF>) => FirstIndex(keys, r.locus)
  }

  lemma {:induction false} RescueAllOrder<AF(!new)>(df: Frame<AF>, loci: seq<string>, keys: seq<string>)
    requires forall a, b :: 0 <= a < b < |loci| ==> FirstIndex(keys, loci[a]) < FirstIndex(keys, loci[b])
    ensures IncreasingBy(RescueAll(df, loci), LocusRank(keys))
  {
    if loci != [] {
      var init, last := loci[..|loci| - 1], loci[|loci| - 1];
      assert forall a, b :: 0 <= a < b < |init| ==> FirstIndex(keys, init[a]) < FirstIndex(keys, init[b]) by {
        forall a, b | 0 <= a < b < |init| ensures FirstIndex(keys, init[a]) < FirstIndex(keys, init[b]) {
          assert init[a] == loci[a] && init[b] == loci[b];
        }
      }
      RescueAllOrder(df, init, keys);
      assert forall a :: 0 <= a < |init| ==> FirstIndex(keys, init[a]) < FirstIndex(keys, last) by {
        forall a | 0 <= a < |init| ensures FirstIndex(keys, init[a]) < FirstIndex(keys, last) {
          assert init[a] == loci[a] && last == loci[|loci| - 1];
        }
      }
      RescuedBefore(df, init, last, keys);
      assert RescueAll(df, loci) == RescueAll(df, init) + RescueLocus(df, last);
      IncreasingConcat(RescueAll(df, init), RescueLocus(df, last), LocusRank(keys));
    }
  }

  /** The rows rescued over loci that all rank below `last` rank below the row
      rescued at `last`. */
  lemma RescuedBefore<AF(!new)>(df: Frame<AF>, init: seq<string>, last: string, keys: seq<string>)
    requires forall a :: 0 <= a < |init| ==> FirstIndex(keys, init[a]) < FirstIndex(keys, last)
    ensures forall x, y :: x in RescueAll(df, init) && y in RescueLocus(df, last) ==>
              LocusRank(keys)(x) < LocusRank(keys)(y)
  {
    RescueAllLoci(df, init);
    RescueLocusAt(df, last, last);
    forall x, y | x in RescueAll(df, init) && y in RescueLocus(df, last)
      ensures LocusRank(keys)(x) < LocusRank(keys)(y)
    {
      assert y in RowsAt(RescueLocus(df, last), last);
      var a :| 0 <= a < |init| && init[a] == x.locus;
    }
  }

  /** The rescued rows come in the order in which their loci first appear in the table. */
  lemma RescuedInFirstAppearanceOrder<AF(!new)>(df: Frame<AF>)
    ensures var rescued := NorefSnps(df);
            forall i, j :: 0 <= i < j < |rescued| ==>
              FirstIndex(Loci(df), rescued[i].locus) < FirstIndex(Loci(df), rescued[j].locus)
  {
    LociWithCountOrder(Loci(df), 2);
    RescueAllOrder(df, LociWithCount(Loci(df), 2), Loci(df));
    var rescued := NorefSnps(df);
    assert IncreasingBy(rescued, LocusRank(Loci(df)));
    forall i, j | 0 <= i < j < |rescued|
      ensures FirstIndex(Loci(df), rescued[i].locus) < FirstIndex(Loci(df), rescued[j].locus)
    {
      assert LocusRank(Loci(df))(rescued[i]) < LocusRank(Loci(df))(rescued[j]);
    }
  }

  /** The fate of every locus in the written table: a locus with one row keeps
      it unchanged when its REF is known; a locus with two rows is replaced by
      one merged row when it passes the rescue rule; every other locus, and
      every locus that fails these rules, is gone. */
  lemma OutputAtLocus<AF(!new)>(rows: Frame<AF>, k: string)
    ensures var at := RowsAt(AssignLoci(rows), k);
            RowsAt(Recoded(rows), k) ==
              if |at| == 1 && RefKnown(at[0]) then at
              else if |at| == 2 && Rescuable(at) then [Merge(at)]
              else []
  {
    var df := AssignLoci(rows);
    FilterConcat(NorefSnps(df), KeepGoodLoci(df), AtLocus(k));
    RescuedAtLocus(df, k);
    KeptAtLocus(df, k);
    LocusCount(df, k);
  }

  /** No locus appears twice in the written table. */
  lemma OutputLociUnique<AF(!new)>(rows: Frame<AF>)
    ensures Unique(Loci(Recoded(rows)))
  {
    forall k ensures Occurrences(Loci(Recoded(rows)), k) <= 1 {
      OutputAtLocus(rows, k);
      LocusCount(Recoded(rows), k);
    }
  }

  /** A locus with two rows survives exactly when REF (from its first row) is in
      neither row's cleaned genotypes and neither ALT is `*`; it then survives as
      its first row with ALT `alt1+alt2` and the second row's AF. */
  lemma TwoRowLocus<AF(!new)>(rows: Frame<AF>, k: string)
    requires |RowsAt(AssignLoci(rows), k)| == 2
    ensures var at := RowsAt(AssignLoci(rows), k);
            RowsAt(Recoded(rows), k) ==
              if !Contains(CleanedGenotypes(at[0].gts), at[0].ref) &&
                 !Contains(CleanedGenotypes(at[1].gts), at[0].ref) &&
                 at[0].alt != "*" && at[1].alt != "*"
              then [at[0].(af := at[1].af, alt := at[0].alt + "+" + at[1].alt)]
              else []
  {
    OutputAtLocus(rows, k);
    RescuableIff(RowsAt(AssignLoci(rows), k));
  }

  /** The rescue rule for a two-row locus, written out. */
  lemma RescuableIff<AF>(smalldf: Frame<AF>)
    requires |smalldf| == 2
    ensures Rescuable(smalldf) <==>
              !Contains(CleanedGenotypes(smalldf[0].gts), smalldf[0].ref) &&
              !Contains(CleanedGenotypes(smalldf[1].gts), smalldf[0].ref) &&
              smalldf[0].alt != "*" && smalldf[1].alt != "*"
  {
  }

  /** With REF `N` the REF test always passes: `N` is stripped from the genotypes first. */
  lemma RefNNeverFound(gts: seq<string>)
    ensures !Contains(CleanedGenotypes(gts), "N")
  {
    ContainsChar(CleanedGenotypes(gts), 'N');
  }

  /** A two-row locus with REF `N` is rescued unless an ALT is `*`. */
  lemma RefNPairRescued<AF>(smalldf: Frame<AF>)
    requires |smalldf| == 2 && !RefKnown(smalldf[0])
    ensures Rescuable(smalldf) <==> smalldf[0].alt != "*" && smalldf[1].alt != "*"
  {
    RefNNeverFound(smalldf[0].gts);
    RefNNeverFound(smalldf[1].gts);
  }

  /** Every row of the written table carries its own locus key. */
  lemma RecodedKeyed<AF(!new)>(rows: Frame<AF>)
    ensures Keyed(Recoded(rows))
  {
    var df := AssignLoci(rows);
    AssignLociKeys(rows);
    KeyedMembers(df);
    RescuedKeyed(df);
    var out := Recoded(rows);
    forall i | 0 <= i < |out| ensures out[i].locus == LocusKey(out[i].chrom, out[i].pos) {
      assert out[i] in NorefSnps(df) || out[i] in KeepGoodLoci(df);
    }
  }

  lemma KeyedMembers<AF(!new)>(rows: Frame<AF>)
    requires Keyed(rows)
    ensures forall r :: r in rows ==> r.locus == LocusKey(r.chrom, r.pos)
  {
    forall r | r in rows ensures r.locus == LocusKey(r.chrom, r.pos) {
      var j :| 0 <= j < |rows| && rows[j] == r;
    }
  }

  /** A rescued row of a keyed table carries its own key. */
  lemma RescuedKeyed<AF(!new)>(df: Frame<AF>)
    requires forall r :: r in df ==> r.locus == LocusKey(r.chrom, r.pos)
    ensures forall r :: r in NorefSnps(df) ==> r.locus == LocusKey(r.chrom, r.pos)
  {
    RescuedRowsFromPairs(df);
    forall r | r in NorefSnps(df) ensures r.locus == LocusKey(r.chrom, r.pos) {
      var at := RowsAt(df, r.locus);
      assert at[0] in at;
    }
  }

  /** Running the filter on its own output drops exactly the rows whose REF is `N`. */
  lemma RerunDropsOnlyRefN<AF(!new)>(rows: Frame<AF>)
    ensures Recoded(Recoded(rows)) == Filter(Recoded(rows), RefKnown)
  {
    var out := Recoded(rows);
    RecodedKeyed(rows);
    AssignLociKeys(out);
    assert AssignLoci(out) == out;
    OutputLociUnique(rows);
    var loci := Loci(out);
    assert forall l :: Occurrences(loci, l) <= 1;
    FilterNone(Distinct(loci), HasCount(loci, 2));
    assert NorefSnps(out) == [];
    var good := LociWithCount(loci, 1);
    forall r | r in out ensures InLoci(good)(r) {
      LocusInLoci(out, r.locus);
      InLociWithCount(loci, 1, r.locus);
    }
    FilterAll(out, InLoci(good));
    assert KeepGoodLoci(out) == Filter(out, RefKnown);
    assert Recoded(out) == [] + Filter(out, RefKnown);
  }

  /** So a rescued row with REF `N` disappears when the output is filtered again. */
  lemma RescuedRefNLostOnRerun<AF(!new)>(rows: Frame<AF>, r: Row<AF>)
    requires r in NorefSnps(AssignLoci(rows)) && !RefKnown(r)
    ensures r in Recoded(rows) && r !in Recoded(Recoded(rows))
  {
    RerunDropsOnlyRefN(rows);
  }

  /** When no rescued row has REF `N`, running the filter on its own output
      changes nothing. */
  lemma RecodeIdempotent<AF(!new)>(rows: Frame<AF>)
    requires forall r :: r in NorefSnps(AssignLoci(rows)) ==> RefKnown(r)
    ensures Recoded(Recoded(rows)) == Recoded(rows)
  {
    RerunDropsOnlyRefN(rows);
    FilterAll(Recoded(rows), RefKnown);
  }

  /** A `|` inside a genotype survives the cleaning: only a genotype that is
      a lone `|` (once its `/` are gone) is blanked. */
  lemma BarSurvivesCleaning(gts: seq<string>)
    ensures '|' in CleanedGenotypes(gts) <==>
              exists i :: 0 <= i < |gts| && '|' in gts[i] && DeleteAll(gts[i], '/') != "|"
  {
    CleanedGenotypesChars(gts, '|');
    forall i | 0 <= i < |gts| ensures '|' in CleanGenotype(gts[i]) <==> '|' in gts[i] && DeleteAll(gts[i], '/') != "|" {
      CleanGenotypeChars(gts[i], '|');
    }
  }

  /** The genotype `x/x` without its `/` is `xx`. */
  lemma HomozygousSlashDeleted(x: char)
    requires x != '/'
    ensures DeleteAll([x, '/', x], '/') == [x, x]
  {
    assert [x, '/', x] == [x] + (['/'] + ([x] + []));
    DeleteAllCons(x, ['/'] + ([x] + []), '/');
    DeleteAllCons('/', [x] + [], '/');
    DeleteAllCons(x, [], '/');
    assert DeleteAll([], '/') == [];
  }

  /** A homozygous genotype `x/x` contributes `xx` to the cleaned string. */
  lemma HomozygousCleaned(x: char)
    requires x != '/' && x != 'N'
    ensures DeleteAll(CleanGenotype([x, '/', x]), 'N') == [x, x]
  {
    HomozygousSlashDeleted(x);
    DeleteAllAbsent([x, x], 'N');
  }

  /** Two samples' cleaned genotypes, the first sample's first. */
  lemma CleanedGenotypesPair(g0: string, g1: string)
    ensures CleanedGenotypes([g0, g1]) == DeleteAll(CleanGenotype(g0), 'N') + DeleteAll(CleanGenotype(g1), 'N')
  {
    var c0, c1 := DeleteAll(CleanGenotype(g0), 'N'), DeleteAll(CleanGenotype(g1), 'N');
    var none: seq<string> := [];
    assert CleanedGenotypes(none) == [] by {
      assert CleanEach(none) == [];
      assert DeleteAll([], 'N') == [];
    }
    assert CleanedGenotypes([g0]) == c0 by {
      CleanedGenotypesAppend(none, g0);
      assert none + [g0] == [g0];
    }
    CleanedGenotypesAppend([g0], g1);
    assert [g0] + [g1] == [g0, g1];
  }

  /** Two homozygous samples `a/a`, `b/b` give the cleaned string `aabb`. */
  lemma HomozygousPairCleaned(a: char, b: char)
    requires a != '/' && a != 'N' && b != '/' && b != 'N'
    ensures CleanedGenotypes([[a, '/', a], [b, '/', b]]) == [a, a, b, b]
  {
    CleanedGenotypesPair([a, '/', a], [b, '/', b]);
    HomozygousCleaned(a);
    HomozygousCleaned(b);
  }

  /** The REF test looks for REF in the joined genotypes of all samples: the
      two-base REF `ab` is found when one sample is homozygous `a` and the next
      homozygous `b`, though no sample carries the allele `ab`. */
  lemma RefFoundAcrossSamples(a: char, b: char)
    requires a != '/' && a != 'N' && b != '/' && b != 'N'
    ensures Contains(CleanedGenotypes([[a, '/', a], [b, '/', b]]), [a, b])
  {
    HomozygousPairCleaned(a, b);
    var s := [a, a, b, b];
    assert OccursAt(s, [a, b], 1) by { assert s[1..3] == [a, b]; }
  }

  /** A one-base REF that no sample's genotype contains is not found. */
  lemma BaseAbsentNotFound(gts: seq<string>, c: char)
    requires c != 'N' && c != '/'
    requires forall i | 0 <= i < |gts| :: c !in gts[i]
    ensures !Contains(CleanedGenotypes(gts), [c])
  {
    forall i | 0 <= i < |gts| ensures c !in CleanGenotype(gts[i]) {
      CleanGenotypeChars(gts[i], c);
    }
    CleanedGenotypesChars(gts, c);
    ContainsChar(CleanedGenotypes(gts), c);
  }

  /** Only an ALT equal to `*` blocks the rescue: an ALT such as `A*` does not,
      whatever the samples' genotypes, as long as none holds the REF base. */
  lemma StarInsideAltRescued(g0: string, g1: string)
    requires 'G' !in g0 && 'G' !in g1
    ensures Rescuable([Row("chr1", 100, "G", "A*", 0.25, [g0], "chr1-100"),
                       Row("chr1", 100, "G", "C", 0.5, [g1], "chr1-100")])
  {
    var r0 := Row("chr1", 100, "G", "A*", 0.25, [g0], "chr1-100");
    var r1 := Row("chr1", 100, "G", "C", 0.5, [g1], "chr1-100");
    BaseAbsentNotFound(r0.gts, 'G');
    BaseAbsentNotFound(r1.gts, 'G');
    assert [r0, r1][0] == r0 && [r0, r1][1] == r1;
    assert "*" !in [r0.alt, r1.alt];
  }
}
