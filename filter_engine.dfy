/** The multi-dimension filter: the table is narrowed one dimension at a time,
    each non-empty selection keeping the rows whose field is one of the
    selected values. */
module FilterEngine {
  import opened Records
  import opened Seqs

  datatype Dim = YearDim | GenderDim | RegionDim | CertDim

  /** Whether the selection for dimension `d` lets row `r` through: an empty
      selection lets everything through, a non-empty one acts as `isin`. */
  predicate Passes(d: Dim, f: Filters, r: Record)
  {
    match d
    case YearDim => f.years == [] || r.year in f.years
    case GenderDim => f.genders == [] || r.gender in f.genders
    case RegionDim => f.regions == [] || r.region in f.regions
    case CertDim => f.certs == [] || r.cert in f.certs
  }

  /** The combined predicate: AND across dimensions, OR within one. */
  predicate Admits(f: Filters, r: Record)
  {
    Passes(YearDim, f, r) && Passes(GenderDim, f, r) && Passes(RegionDim, f, r) && Passes(CertDim, f, r)
  }

  function PassTest(d: Dim, f: Filters): Record -> bool
  {
    r => Passes(d, f, r)
  }

  function AdmitTest(f: Filters): Record -> bool
  {
    r => Admits(f, r)
  }

  /** The rows of `rows` that every selection admits, in table order. */
  function Matching(rows: seq<Record>, f: Filters): seq<Record>
  {
    Filter(rows, AdmitTest(f))
  }

  /** `filtered[filtered[col].isin(sel)]` for one dimension. */
  method Narrow(rows: seq<Record>, d: Dim, f: Filters) returns (out: seq<Record>)
    ensures out == Filter(rows, PassTest(d, f))
  {
    out := [];
    var i := 0;
    while i < |rows|
      invariant 0 <= i <= |rows|
      invariant out == Filter(rows[..i], PassTest(d, f))
    {
      if Passes(d, f, rows[i]) {
        out := out + [rows[i]];
      }
      assert rows[..i + 1][..i] == rows[..i];
      i := i + 1;
    }
    assert rows[..i] == rows;
  }

  /** The filter block: start from a copy of the table and narrow it by each
      dimension whose selection is non-empty. The table itself is a value and
      is left as it was. */
  method ApplyFilter(df: seq<Record>, f: Filters) returns (filtered: seq<Record>)
    ensures filtered == Matching(df, f)
  {
    filtered := df;
    if f.years != [] {
      filtered := Narrow(filtered, YearDim, f);
    } else {
      FilterAll(filtered, PassTest(YearDim, f));
    }
    if f.genders != [] {
      filtered := Narrow(filtered, GenderDim, f);
    } else {
      FilterAll(filtered, PassTest(GenderDim, f));
    }
    if f.regions != [] {
      filtered := Narrow(filtered, RegionDim, f);
    } else {
      FilterAll(filtered, PassTest(RegionDim, f));
    }
    if f.certs != [] {
      filtered := Narrow(filtered, CertDim, f);
    } else {
      FilterAll(filtered, PassTest(CertDim, f));
    }
    StepwiseIsConjunction(df, f);
  }

  /** Narrowing by year, then gender, then region, then certificate type
      keeps exactly the rows the combined predicate admits. */
  lemma StepwiseIsConjunction(rows: seq<Record>, f: Filters)
    ensures Filter(Filter(Filter(Filter(rows, PassTest(YearDim, f)), PassTest(GenderDim, f)),
                          PassTest(RegionDim, f)), PassTest(CertDim, f))
            == Matching(rows, f)
  {
    var y := PassTest(YearDim, f);
    var yg: Record -> bool := r => Passes(YearDim, f, r) && Passes(GenderDim, f, r);
    var ygr: Record -> bool := r => yg(r) && Passes(RegionDim, f, r);
    FilterFilter(rows, y, PassTest(GenderDim, f), yg);
    FilterFilter(rows, yg, PassTest(RegionDim, f), ygr);
    FilterFilter(rows, ygr, PassTest(CertDim, f), AdmitTest(f));
  }

  /** A row is kept if and only if it is a row of the table that every
      non-empty selection admits, and it is kept as often as it occurs. */
  lemma MatchingMembers(rows: seq<Record>, f: Filters, r: Record)
    ensures r in Matching(rows, f) <==>
              && r in rows
              && (f.years == [] || r.year in f.years)
              && (f.genders == [] || r.gender in f.genders)
              && (f.regions == [] || r.region in f.regions)
              && (f.certs == [] || r.cert in f.certs)
    ensures multiset(Matching(rows, f))[r] == if Admits(f, r) then multiset(rows)[r] else 0
  {
    FilterMember(rows, AdmitTest(f), r);
    FilterCount(rows, AdmitTest(f), r);
  }

  /** The result keeps the table's row order. */
  lemma MatchingKeepsOrder(rows: seq<Record>, f: Filters)
    ensures IsSubseq(Matching(rows, f), rows)
  {
    FilterIsSubseq(rows, AdmitTest(f));
  }

  /** With every selection empty, the result is the whole table. */
  lemma MatchingUnconstrained(rows: seq<Record>)
    ensures Matching(rows, NoFilters) == rows
  {
    FilterAll(rows, AdmitTest(NoFilters));
  }
}
