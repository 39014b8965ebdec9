/** The free-text search box: `parse_search` splits the query on whitespace and
    files each token under every dimension whose vocabulary contains it. */
module QueryParser {
  import opened Records
  import opened Seqs

  // ---------------------------------------------------------------------------
  // Splitting on whitespace (`query.strip().split()`)

  /** The characters Python's argument-less `str.split()` treats as separators. */
  predicate IsSpace(c: char)
  {
    || c == ' '
    || ('\t' <= c <= '\r')
    || ('\U{1C}' <= c <= '\U{1F}')
    || c == '\U{85}' || c == '\U{A0}' || c == '\U{1680}'
    || ('\U{2000}' <= c <= '\U{200A}')
    || c == '\U{2028}' || c == '\U{2029}' || c == '\U{202F}' || c == '\U{205F}' || c == '\U{3000}'
  }

  /** A non-empty run of non-separator characters. */
  predicate IsWord(t: string)
  {
    t != [] && forall i :: 0 <= i < |t| ==> !IsSpace(t[i])
  }

  predicate IsBlank(s: string)
  {
    forall i :: 0 <= i < |s| ==> IsSpace(s[i])
  }

  /** Length of the leading run of non-separators. */
  function WordLen(s: string): (n: nat)
    ensures n <= |s|
    ensures forall i :: 0 <= i < n ==> !IsSpace(s[i])
    ensures n < |s| ==> IsSpace(s[n])
  {
    if s == [] || IsSpace(s[0]) then 0 else 1 + WordLen(s[1..])
  }

  /** The maximal runs of non-separators, in order. Leading and trailing
      separators produce no token, so the `strip()` before `split()` changes
      nothing and is not modelled separately. */
  function Tokens(s: string): (ts: seq<string>)
    ensures forall t :: t in ts ==> IsWord(t)
    ensures ts == [] <==> IsBlank(s)
    decreases |s|
  {
    if s == [] then []
    else if IsSpace(s[0]) then
      var rest := Tokens(s[1..]);
      assert IsBlank(s) <==> IsBlank(s[1..]) by {
        if IsBlank(s[1..]) {
          forall i | 0 <= i < |s| ensures IsSpace(s[i]) {
            if i > 0 { assert s[i] == s[1..][i - 1]; }
          }
        }
      }
      rest
    else
      var n := WordLen(s);
      [s[..n]] + Tokens(s[n..])
  }

  /** Words separated by single spaces: the inverse of `Tokens`. */
  function Join(ts: seq<string>): string
  {
    if ts == [] then ""
    else if |ts| == 1 then ts[0]
    else ts[0] + " " + Join(ts[1..])
  }

  lemma {:induction false} WordLenOfWord(t: string, rest: string)
    requires IsWord(t)
    requires rest == [] || IsSpace(rest[0])
    ensures WordLen(t + rest) == |t|
    decreases |t|
  {
    if |t| > 1 {
      assert (t + rest)[1..] == t[1..] + rest;
      WordLenOfWord(t[1..], rest);
    } else {
      assert (t + rest)[1..] == rest;
    }
  }

  /** Splitting words joined by spaces gives the words back. */
  lemma {:induction false} TokensJoin(ts: seq<string>)
    requires forall t :: t in ts ==> IsWord(t)
    ensures Tokens(Join(ts)) == ts
  {
    if ts != [] {
      var t := ts[0];
      if |ts| == 1 {
        WordLenOfWord(t, []);
        assert t + [] == t;
        assert t[|t|..] == [];
        assert t[..|t|] == t;
      } else {
        var rest := " " + Join(ts[1..]);
        WordLenOfWord(t, rest);
        assert Join(ts) == t + rest;
        assert (t + rest)[..|t|] == t;
        assert (t + rest)[|t|..] == rest;
        assert rest[1..] == Join(ts[1..]);
        TokensJoin(ts[1..]);
        assert ts == [t] + ts[1..];
      }
    }
  }

  /** A word's leading run is unchanged by what follows it, as long as that
      starts with a separator. */
  lemma {:induction false} WordLenExtend(a: string, r: string)
    requires r == [] || IsSpace(r[0])
    ensures WordLen(a + r) == WordLen(a)
    decreases |a|
  {
    if a == [] {
      assert a + r == r;
    } else if !IsSpace(a[0]) {
      assert (a + r)[1..] == a[1..] + r;
      WordLenExtend(a[1..], r);
    }
  }

  /** A separator splits the text in two: the tokens of the whole are the
      tokens of the part before it followed by those of the part after it.
      With `TokensJoin` for a single word, this pins `Tokens` down as
      `str.split()` on any mix and run of separators. */
  lemma {:induction false} TokensSplit(a: string, c: char, b: string)
    requires IsSpace(c)
    ensures Tokens(a + [c] + b) == Tokens(a) + Tokens(b)
    decreases |a|
  {
    var s := a + [c] + b;
    if a == [] {
      assert s == [c] + b;
      assert s[1..] == b;
    } else if IsSpace(a[0]) {
      assert s[1..] == a[1..] + [c] + b;
      TokensSplit(a[1..], c, b);
    } else {
      var m := WordLen(a);
      WordLenExtend(a, [c] + b);
      assert s == a + ([c] + b);
      assert s[..m] == a[..m];
      assert s[m..] == a[m..] + [c] + b;
      TokensSplit(a[m..], c, b);
    }
  }

  // ---------------------------------------------------------------------------
  // Classifying tokens

  /** `tok.isdigit()`, for the ASCII digits. */
  predicate IsDigits(t: string)
  {
    t != [] && forall i :: 0 <= i < |t| ==> '0' <= t[i] <= '9'
  }

  /** `int(tok)` for a string of decimal digits. */
  function DigitsValue(t: string): int
  {
    if t == [] then 0
    else DigitsValue(t[..|t| - 1]) * 10 + (t[|t| - 1] as int - '0' as int)
  }

  /** The year test: an all-digit token whose value is a year of the data. */
  predicate IsYearToken(t: string, years: set<int>)
  {
    IsDigits(t) && DigitsValue(t) in years
  }

  /** What one token adds to the four lists: each dimension is matched on its
      own, so a token can land in several of them, or in none. */
  function AddToken(f: Filters, t: string, v: Vocab): Filters
  {
    Filters(
      f.years + (if IsYearToken(t, v.years) then [DigitsValue(t)] else []),
      f.genders + (if t in v.genders then [t] else []),
      f.regions + (if t in v.regions then [t] else []),
      f.certs + (if t in v.certs then [t] else []))
  }

  /** The four lists built from a token sequence, in token order. */
  function ParseTokens(ts: seq<string>, v: Vocab): Filters
  {
    if ts == [] then NoFilters
    else AddToken(ParseTokens(ts[..|ts| - 1], v), ts[|ts| - 1], v)
  }

  /** `parse_search(query)`: one pass over the tokens, appending matches. */
  method ParseSearch(query: string, v: Vocab) returns (f: Filters)
    ensures f == ParseTokens(Tokens(query), v)
  {
    var tokens := Tokens(query);
    var years: seq<int> := [];
    var genders: seq<string> := [];
    var regions: seq<string> := [];
    var certs: seq<string> := [];
    var i := 0;
    while i < |tokens|
      invariant 0 <= i <= |tokens|
      invariant Filters(years, genders, regions, certs) == ParseTokens(tokens[..i], v)
    {
      var tok := tokens[i];
      if IsDigits(tok) && DigitsValue(tok) in v.years {
        years := years + [DigitsValue(tok)];
      }
      if tok in v.genders {
        genders := genders + [tok];
      }
      if tok in v.regions {
        regions := regions + [tok];
      }
      if tok in v.certs {
        certs := certs + [tok];
      }
      assert tokens[..i + 1][..i] == tokens[..i];
      i := i + 1;
    }
    assert tokens[..i] == tokens;
    f := Filters(years, genders, regions, certs);
  }

  // ---------------------------------------------------------------------------
  // What the parser promises

  function InSet(s: set<string>): string -> bool
  {
    t => t in s
  }

  function YearTest(years: set<int>): string -> bool
  {
    t => IsYearToken(t, years)
  }

  function Values(ts: seq<string>): seq<int>
  {
    seq(|ts|, i requires 0 <= i < |ts| => DigitsValue(ts[i]))
  }

  /** The token loop is the same as testing every dimension separately over
      the whole token sequence: each list keeps, in token order and with
      repetitions, exactly the tokens of that dimension's vocabulary. */
  lemma {:induction false} ParseByDimension(ts: seq<string>, v: Vocab)
    ensures ParseTokens(ts, v) == Filters(
      Values(Filter(ts, YearTest(v.years))),
      Filter(ts, InSet(v.genders)),
      Filter(ts, InSet(v.regions)),
      Filter(ts, InSet(v.certs)))
  {
    if ts != [] {
      ParseByDimension(ts[..|ts| - 1], v);
      var init := Filter(ts[..|ts| - 1], YearTest(v.years));
      if IsYearToken(ts[|ts| - 1], v.years) {
        assert Values(init + [ts[|ts| - 1]]) == Values(init) + [DigitsValue(ts[|ts| - 1])];
      }
    }
  }

  /** An empty or all-whitespace query constrains nothing. */
  lemma ParseBlank(query: string, v: Vocab)
    requires IsBlank(query)
    ensures ParseTokens(Tokens(query), v) == NoFilters
  {
  }

  /** A token lands in the gender, region or certificate list if and only if it
      is in that vocabulary; every occurrence is kept, so a token repeated in
      the query is repeated in the list; and the list follows token order. */
  lemma ParseStrings(query: string, v: Vocab, t: string)
    ensures var f := ParseTokens(Tokens(query), v);
            var ts := Tokens(query);
            && (t in f.genders <==> t in ts && t in v.genders)
            && (t in f.regions <==> t in ts && t in v.regions)
            && (t in f.certs <==> t in ts && t in v.certs)
            && multiset(f.genders)[t] == (if t in v.genders then multiset(ts)[t] else 0)
            && multiset(f.regions)[t] == (if t in v.regions then multiset(ts)[t] else 0)
            && multiset(f.certs)[t] == (if t in v.certs then multiset(ts)[t] else 0)
            && IsSubseq(f.genders, ts) && IsSubseq(f.regions, ts) && IsSubseq(f.certs, ts)
  {
    var ts := Tokens(query);
    ParseByDimension(ts, v);
    FilterMember(ts, InSet(v.genders), t);
    FilterMember(ts, InSet(v.regions), t);
    FilterMember(ts, InSet(v.certs), t);
    FilterCount(ts, InSet(v.genders), t);
    FilterCount(ts, InSet(v.regions), t);
    FilterCount(ts, InSet(v.certs), t);
    FilterIsSubseq(ts, InSet(v.genders));
    FilterIsSubseq(ts, InSet(v.regions));
    FilterIsSubseq(ts, InSet(v.certs));
  }

  /** A year is in the year list if and only if it is a year of the data and
      some all-digit token spells it; a number that is not a year of the data
      adds nothing. */
  lemma ParseYears(query: string, v: Vocab, y: int)
    ensures var f := ParseTokens(Tokens(query), v);
            var ts := Tokens(query);
            y in f.years <==> y in v.years && exists t :: t in ts && IsDigits(t) && DigitsValue(t) == y
  {
    var ts := Tokens(query);
    ParseByDimension(ts, v);
    var hits := Filter(ts, YearTest(v.years));
    if y in Values(hits) {
      var i :| 0 <= i < |hits| && Values(hits)[i] == y;
      assert hits[i] in hits;
    }
    if y in v.years && exists t :: t in ts && IsDigits(t) && DigitsValue(t) == y {
      var t :| t in ts && IsDigits(t) && DigitsValue(t) == y;
      FilterMember(ts, YearTest(v.years), t);
      var i :| 0 <= i < |hits| && hits[i] == t;
      assert Values(hits)[i] == y;
    }
  }

  /** With the vocabularies built from a table, everything the parser outputs
      is a value that occurs in that table. */
  lemma ParseDrawsFromData(query: string, df: seq<Record>)
    ensures var f := ParseTokens(Tokens(query), VocabOf(df));
            && (forall y :: y in f.years ==> exists r :: r in df && r.year == y)
            && (forall g :: g in f.genders ==> exists r :: r in df && r.gender == g)
            && (forall g :: g in f.regions ==> exists r :: r in df && r.region == g)
            && (forall c :: c in f.certs ==> exists r :: r in df && r.cert == c)
  {
    var v := VocabOf(df);
    forall y | y in ParseTokens(Tokens(query), v).years
      ensures exists r :: r in df && r.year == y
    {
      ParseYears(query, v, y);
    }
    forall t | t in Tokens(query)
      ensures t in ParseTokens(Tokens(query), v).genders ==> exists r :: r in df && r.gender == t
      ensures t in ParseTokens(Tokens(query), v).regions ==> exists r :: r in df && r.region == t
      ensures t in ParseTokens(Tokens(query), v).certs ==> exists r :: r in df && r.cert == t
    {
      ParseStrings(query, v, t);
    }
    forall t ensures t in ParseTokens(Tokens(query), v).genders ==> t in Tokens(query) {
      ParseStrings(query, v, t);
    }
    forall t ensures t in ParseTokens(Tokens(query), v).regions ==> t in Tokens(query) {
      ParseStrings(query, v, t);
    }
    forall t ensures t in ParseTokens(Tokens(query), v).certs ==> t in Tokens(query) {
      ParseStrings(query, v, t);
    }
  }

  lemma ExampleTokens()
    ensures Tokens("서울 2020 여성") == ["서울", "2020", "여성"]
  {
    var ts := ["서울", "2020", "여성"];
    assert IsWord("서울") && IsWord("2020") && IsWord("여성");
    assert Join(ts) == "서울 2020 여성";
    TokensJoin(ts);
  }

  lemma Value2020()
    ensures IsDigits("2020") && DigitsValue("2020") == 2020
  {
    assert "2020"[..3] == "202" && "202"[..2] == "20" && "20"[..1] == "2" && "2"[..0] == "";
  }

  lemma ParseThree(a: string, b: string, c: string, v: Vocab)
    ensures ParseTokens([a, b, c], v) == AddToken(AddToken(AddToken(NoFilters, a, v), b, v), c, v)
  {
    var ts := [a, b, c];
    assert ts[..1] == [a] && ts[..1][..0] == [];
    assert ParseTokens(ts[..1], v) == AddToken(NoFilters, a, v);
    assert ts[..2][..1] == ts[..1];
    assert ParseTokens(ts[..2], v) == AddToken(ParseTokens(ts[..1], v), b, v);
    assert ts[..|ts| - 1] == ts[..2];
  }

  /** The example of the search box's placeholder text, "서울 2020 여성". */
  lemma ParseExample(v: Vocab)
    requires "서울" in v.regions && 2020 in v.years && "여성" in v.genders
    requires "서울" !in v.genders && "서울" !in v.certs
    requires "여성" !in v.regions && "여성" !in v.certs
    requires "2020" !in v.genders && "2020" !in v.regions && "2020" !in v.certs
    ensures ParseTokens(Tokens("서울 2020 여성"), v) == Filters([2020], ["여성"], ["서울"], [])
  {
    ExampleTokens();
    ParseThree("서울", "2020", "여성", v);
    Value2020();
    assert !('0' <= "서울"[0] <= '9') && !('0' <= "여성"[0] <= '9');
    var f1 := AddToken(NoFilters, "서울", v);
    assert f1 == Filters([], [], ["서울"], []);
    var f2 := AddToken(f1, "2020", v);
    assert f2 == Filters([2020], [], ["서울"], []);
  }

  /** A number that is not a year of the data constrains nothing. */
  lemma ParseUnknownYear(v: Vocab)
    requires 9999 !in v.years
    requires "9999" !in v.genders && "9999" !in v.regions && "9999" !in v.certs
    ensures ParseTokens(Tokens("9999"), v) == NoFilters
  {
    TokensJoin(["9999"]);
    assert DigitsValue("9999") == 9999 by {
      assert "9999"[..3] == "999" && "999"[..2] == "99" && "99"[..1] == "9" && "9"[..0] == "";
    }
  }

  /** Whatever the string vocabularies hold, a year missing from the data never becomes a year filter. */
  lemma ParseUnknownYearNoYear(v: Vocab)
    requires 9999 !in v.years
    ensures ParseTokens(Tokens("9999"), v).years == []
  {
    TokensJoin(["9999"]);
    assert DigitsValue("9999") == 9999 by {
      assert "9999"[..3] == "999" && "999"[..2] == "99" && "99"[..1] == "9" && "9"[..0] == "";
    }
  }
}
