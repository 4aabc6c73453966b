/**
 The filter of `scripts/recode_multi.py` without its file I/O: key every row
 by locus, rescue the two-ALT loci whose REF allele no sample carries, keep
 the loci with a single ALT and a known REF, and put the two together.
 */
module RecodeMulti {
  import opened Text
  import opened Sequences
  import opened Counting
  import opened Variants

  /** `df['locus'].isin(loci)`. */
  function InLoci<AF>(loci: seq<string>): Row<AF> -> bool
  {
    (r: Row<AF>) => r.locus in loci
  }

  /** `c[l] == n` for the Counter `c` of `loci`. */
  function HasCount(loci: seq<string>, n: nat): string -> bool
  {
    (l: string) => Occurrences(loci, l) == n
  }

  /** `[l for l in table(loci) if table(loci)[l] == n]`: the loci with exactly
      `n` rows, in the Counter's key order. */
  function LociWithCount(loci: seq<string>, n: nat): seq<string>
  {
    Filter(Distinct(loci), HasCount(loci, n))
  }

  lemma InLociWithCount(loci: seq<string>, n: nat, l: string)
    requires n > 0
    ensures l in LociWithCount(loci, n) <==> Occurrences(loci, l) == n
  {
  }

  /** `keep_goodloci(chunk)` (and the logic of `rm_multiallelic`): keep the rows
      of loci with exactly one row, then drop those whose REF is `N`. */
  function KeepGoodLoci<AF(!new)>(chunk: Frame<AF>): (kept: Frame<AF>)
    ensures forall r :: r in kept <==> r in chunk && Occurrences(Loci(chunk), r.locus) == 1 && RefKnown(r)
  {
    var loccount := Loci(chunk);
    var goodloci := LociWithCount(loccount, 1);
    forall l ensures l in goodloci <==> Occurrences(loccount, l) == 1 {
      InLociWithCount(loccount, 1, l);
    }
    var single := Filter(chunk, InLoci(goodloci));
    Filter(single, RefKnown)
  }

  /** One sample's genotype as cleaned on line 124: every `/` deleted
      (`.str.replace`), then a value that is exactly `|` blanked
      (`Series.replace` matches whole values only). */
  function CleanGenotype(gt: string): string
  {
    var s := DeleteAll(gt, '/');
    if s == "|" then "" else s
  }

  /** Every genotype of a row cleaned, in column order. */
  function CleanEach(gts: seq<string>): (cleaned: seq<string>)
    ensures |cleaned| == |gts|
    ensures forall i :: 0 <= i < |gts| ==> cleaned[i] == CleanGenotype(gts[i])
  {
    seq(|gts|, i requires 0 <= i < |gts| => CleanGenotype(gts[i]))
  }

  /** The genotypes of one row cleaned, joined, and stripped of `N`. */
  function CleanedGenotypes(gts: seq<string>): (s: string)
    ensures 'N' !in s && '/' !in s
  {
    var cleaned := CleanEach(gts);
    var joined := Join(cleaned);
    assert '/' !in joined by {
      forall i | 0 <= i < |cleaned| ensures '/' !in cleaned[i] {
        assert '/' !in DeleteAll(gts[i], '/');
      }
    }
    DeleteAll(joined, 'N')
  }

  /** The cleaned genotype string is built sample by sample, in column order:
      one more sample appends its cleaned genotype, without `N`, after the others. */
  lemma CleanedGenotypesAppend(gts: seq<string>, gt: string)
    ensures CleanedGenotypes(gts + [gt]) == CleanedGenotypes(gts) + DeleteAll(CleanGenotype(gt), 'N')
  {
    assert CleanEach(gts + [gt]) == CleanEach(gts) + [CleanGenotype(gt)];
    JoinAppend(CleanEach(gts), CleanGenotype(gt));
    DeleteAllConcat(Join(CleanEach(gts)), CleanGenotype(gt), 'N');
  }

  /** A character other than `/` survives the cleaning of one genotype exactly
      when it is in the genotype and the genotype is not a lone `|` once its
      `/` are gone. */
  lemma CleanGenotypeChars(gt: string, c: char)
    requires c != '/'
    ensures c in CleanGenotype(gt) <==> c in gt && DeleteAll(gt, '/') != "|"
  {
  }

  /** A character other than `N` and `/` is in the cleaned genotype string of
      a row exactly when it survives the cleaning of one of its genotypes. */
  lemma CleanedGenotypesChars(gts: seq<string>, c: char)
    requires c != 'N' && c != '/'
    ensures c in CleanedGenotypes(gts) <==> exists i :: 0 <= i < |gts| && c in CleanGenotype(gts[i])
  {
    var cleaned := CleanEach(gts);
    assert c in CleanedGenotypes(gts) <==> c in Join(cleaned);
  }

  /** The REF of the locus occurs in no row's cleaned genotypes. */
  predicate RefAbsent<AF>(ref: string, smalldf: Frame<AF>)
  {
    forall j | 0 <= j < |smalldf| :: !Contains(CleanedGenotypes(smalldf[j].gts), ref)
  }

  /** A two-row locus is kept as a no-reference site: REF (from the first row)
      is in no sample, and neither ALT is the `*` deletion marker (list
      membership, so an ALT such as `A*` does not count). */
  predicate Rescuable<AF>(smalldf: Frame<AF>)
    requires |smalldf| == 2
  {
    RefAbsent(smalldf[0].ref, smalldf) && "*" !in [smalldf[0].alt, smalldf[1].alt]
  }

  /** The row that stands for a rescued pair: `adjust_freqs` applied to the
      pair, then its first row. */
  function Merge<AF>(smalldf: Frame<AF>): Row<AF>
    requires |smalldf| == 2
  {
    smalldf[0].(af := smalldf[1].af, alt := smalldf[0].alt + "+" + smalldf[1].alt)
  }

  /** What one locus of `df` contributes to the rescued rows. */
  function RescueLocus<AF(!new)>(df: Frame<AF>, locus: string): Frame<AF>
  {
    var smalldf := RowsAt(df, locus);
    if |smalldf| == 2 && Rescuable(smalldf) then [Merge(smalldf)] else []
  }

  /** The rescued rows of `loci`, taken in order. */
  function RescueAll<AF(!new)>(df: Frame<AF>, loci: seq<string>): Frame<AF>
  {
    if loci == [] then []
    else RescueAll(df, loci[..|loci| - 1]) + RescueLocus(df, loci[|loci| - 1])
  }

  /** The rows `get_noref_snps(df)` returns, as one table. */
  function NorefSnps<AF(!new)>(df: Frame<AF>): Frame<AF>
  {
    RescueAll(df, LociWithCount(Loci(df), 2))
  }

  /** `adjust_freqs(smalldf, alts)`: in the zeroth row, AF becomes the first
      row's AF and ALT becomes `alt1+alt2`; nothing else changes. */
  method AdjustFreqs<AF>(smalldf: array<Row<AF>>, alts: seq<string>)
    requires smalldf.Length == 2 && |alts| == 2
    modifies smalldf
    ensures smalldf[0] == old(smalldf[0]).(af := old(smalldf[1].af), alt := alts[0] + "+" + alts[1])
    ensures smalldf[1] == old(smalldf[1])
  {
    var alt1, alt2 := alts[0], alts[1];
    smalldf[0] := smalldf[0].(af := smalldf[1].af);
    smalldf[0] := smalldf[0].(alt := alt1 + "+" + alt2);
  }

  /** Lines 118-132 of `get_noref_snps` for one two-row locus: look for REF in
      each row's cleaned genotypes, stopping at the first hit, and yield the
      adjusted zeroth row as a one-row frame when the locus qualifies. */
  method RescuePair<AF>(smalldf: Frame<AF>) returns (found: seq<Frame<AF>>)
    requires |smalldf| == 2
    ensures found == if Rescuable(smalldf) then [[Merge(smalldf)]] else []
  {
    var ref := smalldf[0].ref;
    var alts := [smalldf[0].alt, smalldf[1].alt];
    var keep := true;
    for row := 0 to 2
      invariant keep && RefAbsent(ref, smalldf[..row])
    {
      var gts := CleanedGenotypes(smalldf[row].gts);
      if Contains(gts, ref) {
        keep := false;
        break;
      }
      assert smalldf[..row + 1] == smalldf[..row] + [smalldf[row]];
    }
    assert keep ==> smalldf[..2] == smalldf;
    found := [];
    if keep && "*" !in alts {
      var newsmalldf := new Row<AF>[2] [smalldf[0], smalldf[1]];
      AdjustFreqs(newsmalldf, alts);
      found := [[newsmalldf[0]]];
    }
  }

  /** Lines 104-107 of `get_noref_snps`: count the locus column and list the
      loci counted twice, in the Counter's key order. */
  method LociWithTwoRows<AF>(df: Frame<AF>) returns (nloci: seq<string>)
    ensures nloci == LociWithCount(Loci(df), 2)
  {
    var ncount := Table(Loci(df));
    var twoRows := (l: string) => ncount.Get(l) == 2;
    nloci := Filter(ncount.keys, twoRows);
    CounterSelect(Loci(df), ncount, 2, twoRows);
  }

  /** `get_noref_snps(df)`: one single-row frame per rescued locus, visiting
      the loci with exactly two rows in the Counter's key order. */
  method GetNorefSnps<AF(!new)>(df: Frame<AF>) returns (dfs: seq<Frame<AF>>)
    ensures Concat(dfs) == NorefSnps(df)
    ensures forall i :: 0 <= i < |dfs| ==> |dfs[i]| == 1
  {
    var nloci := LociWithTwoRows(df);
    var ndf := Filter(df, InLoci(nloci));
    dfs := [];
    for k := 0 to |nloci|
      invariant dfs == RescueFrames(df, nloci[..k])
    {
      var locus := nloci[k];
      var smalldf := RowsAt(ndf, locus);
      SameRowsAt(df, nloci, k);
      assert |smalldf| == 2;  // the guard on line 116 always holds
      var found := RescuePair(smalldf);
      RescueFramesStep(df, nloci, k);
      dfs := dfs + found;
    }
    assert nloci[..|nloci|] == nloci;
    RescueFramesRows(df, nloci);
  }

  /** What one locus adds to the list of frames: its rescued row as a
      one-row frame, if it has one. */
  function RescueFrame<AF(!new)>(df: Frame<AF>, locus: string): seq<Frame<AF>>
  {
    if RescueLocus(df, locus) == [] then [] else [RescueLocus(df, locus)]
  }

  /** The list of frames found over `loci`, taken in order. */
  function RescueFrames<AF(!new)>(df: Frame<AF>, loci: seq<string>): seq<Frame<AF>>
  {
    if loci == [] then []
    else RescueFrames(df, loci[..|loci| - 1]) + RescueFrame(df, loci[|loci| - 1])
  }

  lemma RescueFramesStep<AF(!new)>(df: Frame<AF>, loci: seq<string>, k: nat)
    requires k < |loci|
    ensures RescueFrames(df, loci[..k + 1]) == RescueFrames(df, loci[..k]) + RescueFrame(df, loci[k])
  {
    assert loci[..k + 1][..k] == loci[..k];
  }

  /** The frames found are one row each and, laid end to end, are the rescued rows. */
  lemma {:induction false} RescueFramesRows<AF(!new)>(df: Frame<AF>, loci: seq<string>)
    ensures Concat(RescueFrames(df, loci)) == RescueAll(df, loci)
    ensures forall i :: 0 <= i < |RescueFrames(df, loci)| ==> |RescueFrames(df, loci)[i]| == 1
  {
    if loci != [] {
      var init, last := loci[..|loci| - 1], loci[|loci| - 1];
      RescueFramesRows(df, init);
      var front, step := RescueFrames(df, init), RescueFrame(df, last);
      if step == [] {
        assert front + step == front;
      } else {
        ConcatAppend(front, RescueLocus(df, last));
      }
      forall i | 0 <= i < |front + step| ensures |(front + step)[i]| == 1 {
        if i >= |front| {
          assert (front + step)[i] == step[i - |front|];
        }
      }
    }
  }

  /** `[l for l in c if c[l] == n]` for the Counter `c` of `loci` selects the
      loci with exactly `n` rows, in the Counter's key order. */
  lemma CounterSelect(loci: seq<string>, c: Counter<string>, n: nat, sel: string -> bool)
    requires c.keys == Distinct(loci) && forall l :: c.Get(l) == Occurrences(loci, l)
    requires forall l :: sel(l) == (c.Get(l) == n)
    ensures Filter(c.keys, sel) == LociWithCount(loci, n)
  {
    FilterCongruent(c.keys, sel, HasCount(loci, n));
  }

  /** Within `get_noref_snps`, the rows of a two-row locus taken from the
      reduced table are that locus's rows of the whole table, and there are two. */
  lemma SameRowsAt<AF(!new)>(df: Frame<AF>, nloci: seq<string>, k: nat)
    requires nloci == LociWithCount(Loci(df), 2) && k < |nloci|
    ensures RowsAt(Filter(df, InLoci(nloci)), nloci[k]) == RowsAt(df, nloci[k])
    ensures |RowsAt(df, nloci[k])| == 2
  {
    FilterNarrow(df, InLoci(nloci), AtLocus(nloci[k]));
    LocusCount(df, nloci[k]);
    InLociWithCount(Loci(df), 2, nloci[k]);
  }

  /** The caller's list of frames, which `recombine` extends in place. */
  class FrameList<AF> {
    var frames: seq<Frame<AF>>

    constructor (frames: seq<Frame<AF>>)
      ensures this.frames == frames
    {
      this.frames := frames;
    }
  }

  /** `recombine(dfs, df)`: the rescued rows, then the clean rows. When both are
      present the clean frame is appended to the caller's list first. */
  method Recombine<AF(!new)>(dfs: FrameList<AF>, df: Frame<AF>) returns (out: Frame<AF>)
    modifies dfs
    ensures dfs.frames == if |old(dfs.frames)| > 0 && |df| > 0 then old(dfs.frames) + [df] else old(dfs.frames)
    ensures out == Concat(old(dfs.frames)) + df
  {
    out := df;
    if |dfs.frames| > 0 {
      if |df| > 0 {
        dfs.frames := dfs.frames + [df];
        assert dfs.frames[..|dfs.frames| - 1] == old(dfs.frames);
        out := Concat(dfs.frames);
      } else {
        out := Concat(dfs.frames);
      }
    }
  }

  /** The table `main` writes for the table it reads. */
  function Recoded<AF(!new)>(rows: Frame<AF>): Frame<AF>
  {
    var df := AssignLoci(rows);
    NorefSnps(df) + KeepGoodLoci(df)
  }

  /** `main(tablefile, outfile)` between reading and writing. */
  method Recode<AF(!new)>(rows: Frame<AF>) returns (out: Frame<AF>)
    ensures out == Recoded(rows)
  {
    var df := AssignLoci(rows);
    var found := GetNorefSnps(df);
    var clean := KeepGoodLoci(df);
    var dfs := new FrameList(found);
    out := Recombine(dfs, clean);
  }
}
