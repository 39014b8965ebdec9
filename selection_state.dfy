/** The dashboard's selection state: four multi-select slots and the search
    text, held across reruns, plus one saved snapshot of all five. */
module SelectionState {
  import opened Wrappers
  import opened Records
  import opened QueryParser

  /** The five slots as the save button records them. */
  datatype Snapshot = Snapshot(sel: Filters, query: string)

  const Initial: Snapshot := Snapshot(NoFilters, "")

  /** Free text wins: a dimension the query matched takes the parsed list in
      place of the selection; a dimension it did not match keeps the selection. */
  function Override(sel: Filters, parsed: Filters): Filters
  {
    Filters(
      if parsed.years != [] then parsed.years else sel.years,
      if parsed.genders != [] then parsed.genders else sel.genders,
      if parsed.regions != [] then parsed.regions else sel.regions,
      if parsed.certs != [] then parsed.certs else sel.certs)
  }

  /** Applying the same parsed query twice changes nothing the second time, so
      the override that runs on every rerun is stable. */
  lemma OverrideIdempotent(sel: Filters, parsed: Filters)
    ensures Override(Override(sel, parsed), parsed) == Override(sel, parsed)
  {
  }

  /** After a reset the query is empty, so the override leaves the cleared
      selection cleared. */
  lemma ResetThenOverride(v: Vocab)
    ensures Override(NoFilters, ParseTokens(Tokens(Initial.query), v)) == NoFilters
  {
    assert IsBlank(Initial.query);
  }

  class FilterState {
    var yearSel: seq<int>
    var genderSel: seq<string>
    var regionSel: seq<string>
    var certSel: seq<string>
    var searchQ: string
    var saved: Option<Snapshot>

    /** The four selection slots. */
    function Selected(): Filters
      reads this
    {
      Filters(yearSel, genderSel, regionSel, certSel)
    }

    /** The five slots. */
    function Current(): Snapshot
      reads this
    {
      Snapshot(Selected(), searchQ)
    }

    /** The defaults set on the first run: empty selections, empty query,
        nothing saved. */
    constructor ()
      ensures Current() == Initial && saved == None
    {
      yearSel, genderSel, regionSel, certSel := [], [], [], [];
      searchQ := "";
      saved := None;
    }

    /** The four multi-select widgets writing their slots. */
    method Choose(sel: Filters)
      modifies this
      ensures Selected() == sel
      ensures searchQ == old(searchQ) && saved == old(saved)
    {
      yearSel, genderSel, regionSel, certSel := sel.years, sel.genders, sel.regions, sel.certs;
    }

    /** The search box writing its slot. */
    method Type(q: string)
      modifies this
      ensures searchQ == q
      ensures Selected() == old(Selected()) && saved == old(saved)
    {
      searchQ := q;
    }

    /** Parse the search text and let every non-empty parsed dimension replace
        that dimension's selection. */
    method ApplySearch(v: Vocab) returns (parsed: Filters)
      modifies this
      ensures parsed == ParseTokens(Tokens(old(searchQ)), v)
      ensures Selected() == Override(old(Selected()), parsed)
      ensures searchQ == old(searchQ) && saved == old(saved)
    {
      parsed := ParseSearch(searchQ, v);
      if parsed.years != [] {
        yearSel := parsed.years;
      }
      if parsed.genders != [] {
        genderSel := parsed.genders;
      }
      if parsed.regions != [] {
        regionSel := parsed.regions;
      }
      if parsed.certs != [] {
        certSel := parsed.certs;
      }
    }

    /** The reset button: every selection empty and the query "". The saved
        snapshot is kept. */
    method Reset()
      modifies this
      ensures Current() == Initial
      ensures saved == old(saved)
    {
      yearSel, genderSel, regionSel, certSel := [], [], [], [];
      searchQ := "";
    }

    /** The save button: snapshot the five slots. */
    method Save()
      modifies this
      ensures saved == Some(old(Current()))
      ensures Current() == old(Current())
    {
      saved := Some(Current());
    }

    /** The load button: restore the snapshot, or do nothing without one. */
    method Load()
      modifies this
      ensures old(saved).Some? ==> Current() == old(saved).value
      ensures old(saved).None? ==> Current() == old(Current())
      ensures saved == old(saved)
    {
      match saved
      case Some(snap) =>
        yearSel, genderSel, regionSel, certSel := snap.sel.years, snap.sel.genders, snap.sel.regions, snap.sel.certs;
        searchQ := snap.query;
      case None =>
    }
  }

  /** One user action between two passes: a multi-select change, typing in
      the search box, the override pass with the loaded vocabularies, or the
      reset button. */
  datatype Edit = ChooseEdit(sel: Filters) | TypeEdit(q: string) | SearchEdit(v: Vocab) | ResetEdit

  /** Whatever sequence of edits happens between a save and a load, the load
      brings back exactly the five saved values. */
  method SaveEditLoad(st: FilterState, edits: seq<Edit>)
    modifies st
    ensures st.Current() == old(st.Current())
    ensures st.saved == Some(old(st.Current()))
  {
    st.Save();
    for i := 0 to |edits|
      invariant st.saved == Some(old(st.Current()))
    {
      match edits[i]
      case ChooseEdit(sel) => st.Choose(sel);
      case TypeEdit(q) => st.Type(q);
      case SearchEdit(v) => var _ := st.ApplySearch(v);
      case ResetEdit => st.Reset();
    }
    st.Load();
  }

  /** On a fresh session the load button changes nothing. */
  method LoadWithoutSnapshot() returns (st: FilterState)
    ensures st.Current() == Initial && st.saved == None
  {
    st := new FilterState();
    st.Load();
  }
}
