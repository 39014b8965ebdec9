/** The loaded table of certificate acquisitions and the fixed lookup tables
    that the dashboard carries beside it. */
module Records {

  /** One row of the table: who acquired which certificate, when and where.
      The `acquired_at` timestamp is not part of this model (nothing in the
      filter or the summaries reads it). */
  datatype Record = Record(
    year: int,
    gender: string,
    age: int,
    birthYear: int,
    region: string,
    cert: string)

  /** Four inclusion lists, one per dimension. This is both the result of the
      free-text parser and the shape of the four selection slots; an empty list
      means "no constraint on this dimension". */
  datatype Filters = Filters(
    years: seq<int>,
    genders: seq<string>,
    regions: seq<string>,
    certs: seq<string>)

  const NoFilters: Filters := Filters([], [], [], [])

  /** The values observed in the loaded table, per dimension: the year column's
      unique values and `ALL_GENDERS`, `ALL_REGIONS`, `ALL_CERTS`. Only
      membership is ever asked of them, so they are sets here. */
  datatype Vocab = Vocab(
    years: set<int>,
    genders: set<string>,
    regions: set<string>,
    certs: set<string>)

  function VocabOf(df: seq<Record>): Vocab
  {
    Vocab(
      set r | r in df :: r.year,
      set r | r in df :: r.gender,
      set r | r in df :: r.region,
      set r | r in df :: r.cert)
  }

  // ---------------------------------------------------------------------------
  // Columns of a table

  function YearsOf(rows: seq<Record>): seq<int>
  {
    seq(|rows|, i requires 0 <= i < |rows| => rows[i].year)
  }

  function GendersOf(rows: seq<Record>): seq<string>
  {
    seq(|rows|, i requires 0 <= i < |rows| => rows[i].gender)
  }

  function RegionsOf(rows: seq<Record>): seq<string>
  {
    seq(|rows|, i requires 0 <= i < |rows| => rows[i].region)
  }

  function CertsOf(rows: seq<Record>): seq<string>
  {
    seq(|rows|, i requires 0 <= i < |rows| => rows[i].cert)
  }

  // ---------------------------------------------------------------------------
  // Fixed tables

  const Male: string := "남성"
  const Female: string := "여성"

  /** Description of each known certificate type. */
  const CertDesc: map<string, string> := map[
    "정보처리기사" := "IT 시스템 개발 및 운영 능력 인증",
    "전기기사" := "전기 설계 및 시공 전문가",
    "건축기사" := "건축 설계·감리 기술자",
    "토목기사" := "토목 구조물 설계 및 관리",
    "기계기사" := "기계 설계·제작 능력 인증",
    "산업안전기사" := "산업현장 안전관리 전문가",
    "화공기사" := "화학공정 운영·관리 능력",
    "환경기사" := "환경오염 방지 기술자",
    "통신기사" := "통신 시스템 설계·운영",
    "소방설비기사" := "소방 설비 설계·시공 전문가"
  ]

  /** What the ranking shows for a certificate type missing from `CertDesc`. */
  const NoDescription: string := "설명 없음"

  /** `CERT_DESC.get(c, "설명 없음")`. */
  function Describe(c: string): (d: string)
    ensures c in CertDesc ==> d == CertDesc[c]
    ensures d == NoDescription <==> c !in CertDesc
  {
    SentinelNotADescription();
    if c in CertDesc then CertDesc[c] else NoDescription
  }

  /** No known certificate type is described by the fallback text, so the
      fallback tells exactly which types are unknown. */
  lemma SentinelNotADescription()
    ensures forall c :: c in CertDesc ==> CertDesc[c] != NoDescription
  {
    forall c | c in CertDesc ensures CertDesc[c] != NoDescription {
      assert CertDesc[c][0] != NoDescription[0];
    }
  }

  /** The keys of the region-centroid table: the 17 province-level regions.
      The coordinates themselves are floating-point values and are not part of
      this model; only which regions have an entry matters. */
  const RegionCoordKeys: set<string> := {
    "서울", "부산", "대구", "인천", "광주", "대전", "울산", "세종",
    "경기", "강원", "충북", "충남", "전북", "전남", "경북", "경남", "제주"
  }
}
