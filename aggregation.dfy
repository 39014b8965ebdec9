/** The summaries drawn from the filtered rows: yearly counts and the peak
    year, the male and female counts and the female share, the top region and
    its map lookup, the age brackets, and the top-5 certificate ranking. */
module Aggregation {
  import opened Wrappers
  import opened Records
  import opened Seqs
  import opened Counting

  function Min(a: int, b: int): int
  {
    if a <= b then a else b
  }

  // ---------------------------------------------------------------------------
  // Acquisitions per year and the peak year

  /** `filtered.groupby("year").size()`. */
  function YearCounts(rows: seq<Record>): seq<Entry<int>>
  {
    GroupCounts(YearsOf(rows))
  }

  /** One entry per year that occurs, in ascending year order, each with the
      (positive) number of rows of that year; the counts add up to the number
      of rows. */
  lemma YearCountsSpec(rows: seq<Record>)
    ensures var t := YearCounts(rows);
            && (forall i, j :: 0 <= i < j < |t| ==> t[i].key < t[j].key)
            && (forall i :: 0 <= i < |t| ==> 0 < t[i].count == multiset(YearsOf(rows))[t[i].key])
            && (forall r :: r in rows ==> r.year in Keys(t))
            && Sum(t) == |rows|
  {
    var t := YearCounts(rows);
    forall i | 0 <= i < |t| ensures 0 < t[i].count {
      assert t[i].key in multiset(YearsOf(rows));
    }
    forall r | r in rows ensures r.year in Keys(t) {
      var i :| 0 <= i < |rows| && rows[i] == r;
      assert YearsOf(rows)[i] == r.year;
    }
  }

  /** `year_counts.loc[year_counts["count"].idxmax()]`, shown only when the
      table has rows. */
  function PeakYear(t: seq<Entry<int>>): Option<Entry<int>>
  {
    if t == [] then None else Some(t[FirstMax(t)])
  }

  /** The peak is reported exactly when there are rows; it is the earliest
      year whose count is the largest. */
  lemma PeakYearSpec(rows: seq<Record>)
    ensures var t := YearCounts(rows);
            var p := PeakYear(t);
            && (p.Some? <==> rows != [])
            && (p.Some? ==>
                  && p.value in t
                  && (forall e :: e in t ==> e.count <= p.value.count)
                  && (forall e :: e in t && e.key < p.value.key ==> e.count < p.value.count))
  {
    var t := YearCounts(rows);
    EmptyTable(t, YearsOf(rows));
    assert |YearsOf(rows)| == |rows|;
    if t != [] {
      EarliestPeak(t);
    }
  }

  // ---------------------------------------------------------------------------
  // Gender counts and the female share

  /** `filtered["gender"].value_counts()`. */
  function GenderCounts(rows: seq<Record>): seq<Entry<string>>
  {
    ValueCounts(GendersOf(rows))
  }

  /** `_gender_counts.get("남성", 0)`. */
  function MaleCount(rows: seq<Record>): nat
  {
    Get(GenderCounts(rows), Male)
  }

  /** `_gender_counts.get("여성", 0)`. */
  function FemaleCount(rows: seq<Record>): nat
  {
    Get(GenderCounts(rows), Female)
  }

  lemma {:induction false} TwoCounts(xs: seq<string>, a: string, b: string)
    requires a != b
    ensures multiset(xs)[a] + multiset(xs)[b] <= |xs|
  {
    if xs != [] {
      assert xs == xs[..|xs| - 1] + [xs[|xs| - 1]];
      TwoCounts(xs[..|xs| - 1], a, b);
    }
  }

  /** The two counts are the numbers of male and female rows, 0 when there
      are none, and together they never exceed the number of rows. */
  lemma GenderCountsSpec(rows: seq<Record>)
    ensures MaleCount(rows) == multiset(GendersOf(rows))[Male]
    ensures FemaleCount(rows) == multiset(GendersOf(rows))[Female]
    ensures (forall r :: r in rows ==> r.gender != Male) ==> MaleCount(rows) == 0
    ensures (forall r :: r in rows ==> r.gender != Female) ==> FemaleCount(rows) == 0
    ensures MaleCount(rows) + FemaleCount(rows) <= |rows|
  {
    var gs := GendersOf(rows);
    GetCounts(GenderCounts(rows), gs, Male);
    GetCounts(GenderCounts(rows), gs, Female);
    if Male in gs {
      var i :| 0 <= i < |gs| && gs[i] == Male;
      assert rows[i] in rows;
    }
    if Female in gs {
      var i :| 0 <= i < |gs| && gs[i] == Female;
      assert rows[i] in rows;
    }
    assert Male != Female by {
      assert Male[0] != Female[0];
    }
    TwoCounts(gs, Male, Female);
  }

  /** A percentage kept exact: `num / den` percent. */
  datatype Share = Share(num: nat, den: nat)

  /** The female-share caption: computed only when the gender table has rows;
      `female / total * 100`, or 0 when there is no female row. */
  function FemaleShare(rows: seq<Record>): Option<Share>
  {
    var counts := GenderCounts(rows);
    if counts == [] then None
    else
      match Lookup(counts, Female)
      case None => Some(Share(0, 1))
      case Some(female) => Some(Share(female * 100, Sum(counts)))
  }

  /** The share exists exactly when there are rows; it is then exactly
      100 * female / rows, at most 100, and 0 without female rows. */
  lemma FemaleShareSpec(rows: seq<Record>)
    ensures FemaleShare(rows).None? <==> rows == []
    ensures FemaleShare(rows).Some? ==>
              var s := FemaleShare(rows).value;
              && s.den > 0
              && s.num * |rows| == 100 * FemaleCount(rows) * s.den
              && s.num <= 100 * s.den
    ensures FemaleShare(rows).Some? && FemaleCount(rows) == 0 ==> FemaleShare(rows).value.num == 0
  {
    var counts := GenderCounts(rows);
    var gs := GendersOf(rows);
    GetCounts(counts, gs, Female);
    if rows == [] {
      assert gs == [];
    } else {
      assert gs[0] in gs;
      GenderCountsSpec(rows);
      PercentOf(FemaleCount(rows), |rows|);
    }
  }

  lemma PercentOf(part: nat, whole: nat)
    requires part <= whole
    ensures (part * 100) * whole == 100 * part * whole
    ensures part * 100 <= 100 * whole
  {
  }

  // ---------------------------------------------------------------------------
  // Regions

  /** `filtered["region"].value_counts()`. */
  function RegionCounts(rows: seq<Record>): seq<Entry<string>>
  {
    ValueCounts(RegionsOf(rows))
  }

  /** `_region_counts.index[0]`, or "-" for an empty table. */
  function TopRegion(rows: seq<Record>): string
  {
    var counts := RegionCounts(rows);
    if counts == [] then "-" else counts[0].key
  }

  /** "-" when there are no rows; otherwise a region of the rows that
      no other region outnumbers. */
  lemma TopRegionSpec(rows: seq<Record>)
    ensures rows == [] ==> TopRegion(rows) == "-"
    ensures rows != [] ==>
              && TopRegion(rows) in RegionsOf(rows)
              && forall g :: g in RegionsOf(rows) ==>
                   multiset(RegionsOf(rows))[g] <= multiset(RegionsOf(rows))[TopRegion(rows)]
  {
    var counts := RegionCounts(rows);
    EmptyTable(counts, RegionsOf(rows));
    assert |RegionsOf(rows)| == |rows|;
    if counts != [] {
      FirstIsMostFrequent(counts, RegionsOf(rows));
    }
  }

  /** `region_coords[r]` for each region of the count table, in order: the
      first region without an entry raises, reported here as a failure naming
      it. The coordinates themselves are not modelled, so success returns the
      table unchanged. */
  function CoordLookup(counts: seq<Entry<string>>): (r: Result<seq<Entry<string>>, string>)
    ensures r.Success? <==> forall i :: 0 <= i < |counts| ==> counts[i].key in RegionCoordKeys
    ensures r.Success? ==> r.value == counts
    ensures r.Failure? ==> exists i :: 0 <= i < |counts| && counts[i].key == r.error && r.error !in RegionCoordKeys &&
                             forall j :: 0 <= j < i ==> counts[j].key in RegionCoordKeys
  {
    if counts == [] then Success([])
    else if counts[0].key !in RegionCoordKeys then Failure(counts[0].key)
    else
      match CoordLookup(counts[1..])
      case Success(rest) => Success([counts[0]] + rest)
      case Failure(k) =>
        var i :| 0 <= i < |counts[1..]| && counts[1..][i].key == k && k !in RegionCoordKeys &&
                 forall j :: 0 <= j < i ==> counts[1..][j].key in RegionCoordKeys;
        assert counts[i + 1].key == k;
        Failure(k)
  }

  /** The map is drawn without error if and only if every region of the rows
      has a coordinate entry. */
  lemma RegionMapDefined(rows: seq<Record>)
    ensures CoordLookup(RegionCounts(rows)).Success? <==>
              forall r :: r in rows ==> r.region in RegionCoordKeys
  {
    var rs := RegionsOf(rows);
    CountsWithin(RegionCounts(rows), rs, RegionCoordKeys);
    if forall r :: r in rows ==> r.region in RegionCoordKeys {
      forall x | x in rs ensures x in RegionCoordKeys {
        var k :| 0 <= k < |rs| && rs[k] == x;
        assert rows[k] in rows;
      }
    } else {
      var r :| r in rows && r.region !in RegionCoordKeys;
      var k :| 0 <= k < |rows| && rows[k] == r;
      assert rs[k] == r.region;
    }
  }

  // ---------------------------------------------------------------------------
  // Age brackets

  const Twenties: string := "20대"
  const Thirties: string := "30대"
  const FortiesUp: string := "40대 이상"

  /** `age_group(age)`. */
  function AgeGroup(age: int): string
  {
    if age < 30 then Twenties
    else if age < 40 then Thirties
    else FortiesUp
  }

  /** Each bracket label is given to exactly its age range (29, 30 and 40 fall
      into the three brackets in turn). */
  lemma AgeGroupBrackets(age: int)
    ensures AgeGroup(age) == Twenties <==> age < 30
    ensures AgeGroup(age) == Thirties <==> 30 <= age < 40
    ensures AgeGroup(age) == FortiesUp <==> 40 <= age
    ensures AgeGroup(29) == Twenties && AgeGroup(30) == Thirties && AgeGroup(40) == FortiesUp
  {
    assert Twenties[0] != Thirties[0] && Twenties[0] != FortiesUp[0] && Thirties[0] != FortiesUp[0];
  }

  /** The `age_group` column. */
  function AgeLabels(rows: seq<Record>): seq<string>
  {
    seq(|rows|, i requires 0 <= i < |rows| => AgeGroup(rows[i].age))
  }

  /** `filtered["age_group"] = filtered["age"].apply(age_group)`: the column
      is filled row by row. */
  method AddAgeGroupColumn(rows: seq<Record>) returns (column: seq<string>)
    ensures |column| == |rows|
    ensures forall i :: 0 <= i < |rows| ==> column[i] == AgeGroup(rows[i].age)
    ensures column == AgeLabels(rows)
  {
    column := [];
    var i := 0;
    while i < |rows|
      invariant 0 <= i <= |rows|
      invariant |column| == i
      invariant forall k :: 0 <= k < i ==> column[k] == AgeGroup(rows[k].age)
    {
      column := column + [AgeGroup(rows[i].age)];
      i := i + 1;
    }
  }

  /** `filtered["age_group"].value_counts()`. */
  function AgeCounts(rows: seq<Record>): seq<Entry<string>>
  {
    ValueCounts(AgeLabels(rows))
  }

  function InBracket(group: string): Record -> bool
  {
    (r: Record) => AgeGroup(r.age) == group
  }

  lemma {:induction false} BracketCount(rows: seq<Record>, group: string)
    ensures multiset(AgeLabels(rows))[group] == |Filter(rows, InBracket(group))|
  {
    if rows != [] {
      var init := rows[..|rows| - 1];
      assert AgeLabels(rows) == AgeLabels(init) + [AgeGroup(rows[|rows| - 1].age)];
      BracketCount(init, group);
    }
  }

  /** Only the three bracket labels occur; each bracket's count is the number
      of rows whose age falls in it; the counts add up to the number of rows
      and are listed largest first. */
  lemma AgeCountsSpec(rows: seq<Record>)
    ensures var t := AgeCounts(rows);
            && (forall i :: 0 <= i < |t| ==> t[i].key in {Twenties, Thirties, FortiesUp})
            && Get(t, Twenties) == |Filter(rows, InBracket(Twenties))|
            && Get(t, Thirties) == |Filter(rows, InBracket(Thirties))|
            && Get(t, FortiesUp) == |Filter(rows, InBracket(FortiesUp))|
            && Sum(t) == |rows|
            && NonIncreasing(t)
  {
    var t := AgeCounts(rows);
    var labels := AgeLabels(rows);
    forall i | 0 <= i < |t| ensures t[i].key in {Twenties, Thirties, FortiesUp} {
      var k :| 0 <= k < |labels| && labels[k] == t[i].key;
    }
    GetCounts(t, labels, Twenties);
    GetCounts(t, labels, Thirties);
    GetCounts(t, labels, FortiesUp);
    BracketCount(rows, Twenties);
    BracketCount(rows, Thirties);
    BracketCount(rows, FortiesUp);
  }

  // ---------------------------------------------------------------------------
  // Top-5 certificates

  /** One row of the ranking: type, count and description. */
  datatype Ranked = Ranked(cert: string, count: nat, description: string)

  function YearIs(y: int): Record -> bool
  {
    (r: Record) => r.year == y
  }

  /** The rows the ranking counts: with exactly one year selected, only that
      year's rows; otherwise all the filtered rows. */
  function CertPool(filtered: seq<Record>, yearSel: seq<int>): seq<Record>
  {
    if |yearSel| == 1 then Filter(filtered, YearIs(yearSel[0])) else filtered
  }

  /** `value_counts().head(5)` over the pool's certificate types, each with
      its description. */
  function TopCertificates(filtered: seq<Record>, yearSel: seq<int>): seq<Ranked>
  {
    var counts := ValueCounts(CertsOf(CertPool(filtered, yearSel)));
    Rank(counts[..Min(5, |counts|)])
  }

  /** Attach each entry's description. */
  function Rank(top: seq<Entry<string>>): seq<Ranked>
  {
    seq(|top|, i requires 0 <= i < |top| => Ranked(top[i].key, top[i].count, Describe(top[i].key)))
  }

  function RankedCerts(r: seq<Ranked>): seq<string>
  {
    seq(|r|, i requires 0 <= i < |r| => r[i].cert)
  }

  /** With a single selected year, the pool holds exactly the filtered rows
      of that year, each as often as it occurs there, in table order;
      otherwise the pool is everything. */
  lemma CertPoolSpec(filtered: seq<Record>, yearSel: seq<int>)
    ensures |yearSel| == 1 ==> forall r :: r in CertPool(filtered, yearSel) <==> r in filtered && r.year == yearSel[0]
    ensures |yearSel| == 1 ==> forall r :: multiset(CertPool(filtered, yearSel))[r] ==
                                             if r.year == yearSel[0] then multiset(filtered)[r] else 0
    ensures IsSubseq(CertPool(filtered, yearSel), filtered)
    ensures |yearSel| != 1 ==> CertPool(filtered, yearSel) == filtered
  {
    if |yearSel| == 1 {
      forall r ensures r in CertPool(filtered, yearSel) <==> r in filtered && r.year == yearSel[0] {
        FilterMember(filtered, YearIs(yearSel[0]), r);
      }
      forall r ensures multiset(CertPool(filtered, yearSel))[r] ==
                         if r.year == yearSel[0] then multiset(filtered)[r] else 0 {
        FilterCount(filtered, YearIs(yearSel[0]), r);
      }
      FilterIsSubseq(filtered, YearIs(yearSel[0]));
    } else {
      var all := (r: Record) => true;
      FilterAll(filtered, all);
      FilterIsSubseq(filtered, all);
    }
  }

  /** The ranking lists min(5, number of distinct types) different types with
      non-increasing counts; each count is that type's number of pooled rows
      and each description is its `CERT_DESC` entry or "설명 없음"; a type that
      is left out has no more rows than the last one listed. */
  lemma TopCertificatesSpec(filtered: seq<Record>, yearSel: seq<int>)
    ensures var certs := CertsOf(CertPool(filtered, yearSel));
            var r := TopCertificates(filtered, yearSel);
            && |r| == Min(5, |set c | c in certs|)
            && (forall i, j :: 0 <= i < j < |r| ==> r[i].count >= r[j].count && r[i].cert != r[j].cert)
            && (forall i :: 0 <= i < |r| ==>
                  && r[i].cert in certs
                  && r[i].count == multiset(certs)[r[i].cert]
                  && r[i].description == (if r[i].cert in CertDesc then CertDesc[r[i].cert] else NoDescription))
            && (forall c :: c in certs && c !in RankedCerts(r) ==> multiset(certs)[c] <= r[|r| - 1].count)
  {
    var certs := CertsOf(CertPool(filtered, yearSel));
    var counts := ValueCounts(certs);
    CountsOfSize(counts, certs);
    RankTop(counts, certs);
    RankCutoff(counts, certs);
  }

  /** The ranking properties for any table of a column listed largest first. */
  lemma RankTop(counts: seq<Entry<string>>, certs: seq<string>)
    requires CountsOf(counts, certs) && NonIncreasing(counts)
    ensures var r := Rank(counts[..Min(5, |counts|)]);
            && |r| == Min(5, |counts|)
            && (forall i, j :: 0 <= i < j < |r| ==> r[i].count >= r[j].count && r[i].cert != r[j].cert)
            && (forall i :: 0 <= i < |r| ==>
                  && r[i].cert in certs
                  && r[i].count == multiset(certs)[r[i].cert]
                  && r[i].description == (if r[i].cert in CertDesc then CertDesc[r[i].cert] else NoDescription))
  {
  }

  /** No type left out of a ranking drawn from a table listed largest first
      has a larger count than the last one listed. */
  lemma RankCutoff(counts: seq<Entry<string>>, certs: seq<string>)
    requires CountsOf(counts, certs) && NonIncreasing(counts)
    ensures var r := Rank(counts[..Min(5, |counts|)]);
            forall c :: c in certs && c !in RankedCerts(r) ==> multiset(certs)[c] <= r[|r| - 1].count
  {
    var top := counts[..Min(5, |counts|)];
    var r := Rank(top);
    assert RankedCerts(r) == Keys(top);
    forall c | c in certs && c !in RankedCerts(r)
      ensures multiset(certs)[c] <= r[|r| - 1].count
    {
      OutsidePrefix(counts, certs, |top|, c);
    }
  }
}
