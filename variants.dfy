/**
 The rows of a variant table (one row per locus and ALT allele, as written
 by a variants-to-table export) and the locus key `CHROM-POS` that groups
 them. The allele frequency is a type parameter: the filter only ever
 copies it.
 */
module Variants {
  import opened Text
  import opened Sequences
  import opened Counting

  datatype Option<T> = None | Some(value: T)

  /** One table row: `CHROM`, `POS`, `REF`, `ALT`, `AF`, the sample genotype
      columns (`*.GT`) in column order, and the derived `locus` column. */
  datatype Row<AF> = Row(
    chrom: string,
    pos: int,
    ref: string,
    alt: string,
    af: AF,
    gts: seq<string>,
    locus: string)

  /** A rows table, as a pandas frame: its rows in order. */
  type Frame<AF> = seq<Row<AF>>

  /** `"%s-%s" % (chrom, pos)`. */
  function LocusKey(chrom: string, pos: int): string
  {
    chrom + "-" + Decimal(pos)
  }

  /** Index of the last `-` in `key`, or -1 when it has none. */
  function LastDash(key: string): (i: int)
    ensures -1 <= i < |key|
    ensures i >= 0 ==> key[i] == '-'
    ensures forall j :: i < j < |key| ==> key[j] != '-'
  {
    if key == [] then -1
    else if key[|key| - 1] == '-' then |key| - 1
    else LastDash(key[..|key| - 1])
  }

  /** Reads a locus key back: the chromosome before the last `-`, the position after it. */
  function ParseLocusKey(key: string): Option<(string, int)>
  {
    var i := LastDash(key);
    if i < 0 then None
    else
      var digits := key[i + 1..];
      if digits != [] && forall c :: c in digits ==> IsDigit(c)
      then Some((key[..i], ParseDigits(digits)))
      else None
  }

  /** For the non-negative positions of a genome, the key determines chromosome and position. */
  lemma LocusKeyRoundTrip(chrom: string, pos: int)
    requires pos >= 0
    ensures ParseLocusKey(LocusKey(chrom, pos)) == Some((chrom, pos))
  {
    var key, digits := LocusKey(chrom, pos), Digits(pos);
    assert key == chrom + "-" + digits;
    assert key[|chrom|] == '-';
    forall j | |chrom| < j < |key| ensures key[j] != '-' {
      assert key[j] == digits[j - |chrom| - 1];
      assert digits[j - |chrom| - 1] in digits;
    }
    assert LastDash(key) == |chrom|;
    assert key[|chrom| + 1..] == digits && key[..|chrom|] == chrom;
    DigitsRoundTrip(pos);
  }

  lemma LocusKeyInjective(chrom1: string, pos1: int, chrom2: string, pos2: int)
    requires pos1 >= 0 && pos2 >= 0
    requires LocusKey(chrom1, pos1) == LocusKey(chrom2, pos2)
    ensures chrom1 == chrom2 && pos1 == pos2
  {
    LocusKeyRoundTrip(chrom1, pos1);
    LocusKeyRoundTrip(chrom2, pos2);
  }

  /** A negative position can give another locus's key. */
  lemma NegativePositionKeyCollides()
    ensures LocusKey("a", -1) == LocusKey("a-", 1)
  {
  }

  /** `df['locus'] = [...]`: every row gets the key of its chromosome and position. */
  function AssignLoci<AF>(rows: seq<Row<AF>>): Frame<AF>
  {
    seq(|rows|, i requires 0 <= i < |rows| => rows[i].(locus := LocusKey(rows[i].chrom, rows[i].pos)))
  }

  /** Every row's locus column holds its own key. */
  predicate Keyed<AF>(rows: seq<Row<AF>>)
  {
    forall i | 0 <= i < |rows| :: rows[i].locus == LocusKey(rows[i].chrom, rows[i].pos)
  }

  /** The keyer leaves every other column alone, makes the table keyed, and is
      the identity on a table that already is. */
  lemma AssignLociKeys<AF>(rows: seq<Row<AF>>)
    ensures |AssignLoci(rows)| == |rows|
    ensures forall i :: 0 <= i < |rows| ==> AssignLoci(rows)[i].(locus := rows[i].locus) == rows[i]
    ensures Keyed(AssignLoci(rows))
    ensures Keyed(rows) ==> AssignLoci(rows) == rows
  {
    var keyed := AssignLoci(rows);
    if Keyed(rows) {
      forall i | 0 <= i < |rows| ensures keyed[i] == rows[i] {
      }
    }
  }

  /** `df['locus']`: the locus column. */
  function Loci<AF>(rows: seq<Row<AF>>): seq<string>
  {
    seq(|rows|, i requires 0 <= i < |rows| => rows[i].locus)
  }

  /** `df['locus'] == locus`: the mask of one locus. */
  function AtLocus<AF>(locus: string): Row<AF> -> bool
  {
    (r: Row<AF>) => r.locus == locus
  }

  /** `df[df['locus'] == locus]`: the rows of one locus, in file order. */
  function RowsAt<AF(!new)>(rows: seq<Row<AF>>, locus: string): Frame<AF>
  {
    Filter(rows, AtLocus(locus))
  }

  /** `df['REF'] != 'N'`: the reference base is known. */
  predicate RefKnown<AF>(r: Row<AF>)
  {
    r.ref != "N"
  }

  /** The count of a locus in the locus column is the number of its rows. */
  lemma {:induction false} LocusCount<AF(!new)>(rows: seq<Row<AF>>, locus: string)
    ensures Occurrences(Loci(rows), locus) == |RowsAt(rows, locus)|
  {
    if rows != [] {
      LocusCount(rows[1..], locus);
      assert Loci(rows) == [rows[0].locus] + Loci(rows[1..]);
      assert rows == [rows[0]] + rows[1..];
    }
  }

  /** A locus occurs in the locus column exactly when some row has it. */
  lemma LocusInLoci<AF>(rows: seq<Row<AF>>, locus: string)
    ensures locus in Loci(rows) <==> exists r :: r in rows && r.locus == locus
  {
    if locus in Loci(rows) {
      var i :| 0 <= i < |rows| && Loci(rows)[i] == locus;
      assert rows[i] in rows;
    }
    if exists r :: r in rows && r.locus == locus {
      var r :| r in rows && r.locus == locus;
      var i :| 0 <= i < |rows| && rows[i] == r;
      assert Loci(rows)[i] == locus;
    }
  }
}
