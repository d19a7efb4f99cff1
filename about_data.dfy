/** The three data hooks of hooks/use-about-data.ts. Each holds its data, a
    `loading` flag (true until the first fetch settles) and an `error`
    message; a fetch clears the error, applies the query's answer, and
    always ends with `loading` false. The query answers are inputs. */
module AboutData {
  import opened Wrappers
  import Grouping
  import Queries

  /** What a list select answers: the rows, or an error. */
  datatype ListResponse<T> = Rows(rows: seq<T>) | ListError(message: string)

  /** The state every hook keeps. */
  datatype HookState<D> = HookState(data: D, loading: bool, error: Option<string>)

  // ---------------------------------------------------------------------
  // useProfile

  /** `fetchProfile`: a row becomes the profile; "no rows" is no profile and
      no error; any other error keeps the old profile and reports a fixed
      message. */
  function FetchedProfile(s: HookState<Option<Queries.Profile>>,
                          resp: Queries.SingleResponse<Queries.Profile>): (r: HookState<Option<Queries.Profile>>)
    ensures !r.loading
    ensures resp.Row? ==> r.data == Some(resp.row) && r.error == None
    ensures resp.Failed? && resp.code == Queries.NO_ROWS ==> r.data == None && r.error == None
    ensures resp.Failed? && resp.code != Queries.NO_ROWS ==>
              r.data == s.data && r.error == Some("Failed to load profile")
  {
    match resp
    case Row(p) => HookState(Some(p), false, None)
    case Failed(code, _) =>
      if code == Queries.NO_ROWS then HookState(None, false, None)
      else HookState(s.data, false, Some("Failed to load profile"))
  }

  /** The hook and the query agree on what "no profile" means: wherever the
      query answers null the hook shows no profile and no error, and wherever
      the query throws the hook reports an error. */
  lemma ProfileHookMatchesQuery(s: HookState<Option<Queries.Profile>>, resp: Queries.SingleResponse<Queries.Profile>)
    ensures Queries.ProfileAttempt(resp).Returned? <==> FetchedProfile(s, resp).error == None
    ensures Queries.ProfileAttempt(resp).Returned? ==>
              FetchedProfile(s, resp).data == Queries.ProfileAttempt(resp).value
  {
  }

  class ProfileHook {
    var profile: Option<Queries.Profile>
    var loading: bool
    var error: Option<string>

    constructor ()
      ensures profile == None && loading && error == None
    {
      profile, loading, error := None, true, None;
    }

    method FetchProfile(resp: Queries.SingleResponse<Queries.Profile>)
      modifies this
      ensures HookState(profile, loading, error) == FetchedProfile(HookState(old(profile), old(loading), old(error)), resp)
    {
      error := None;
      if resp.Failed? {
        if resp.code == Queries.NO_ROWS {
          profile := None;
        } else {
          error := Some("Failed to load profile");
        }
      } else {
        profile := Some(resp.row);
      }
      loading := false;
    }
  }

  // ---------------------------------------------------------------------
  // useTimelineItems

  datatype TimelineItem = TimelineItem(id: string, category: string, sortOrder: int)

  datatype TimelineCategory = TimelineCategory(category: string, items: seq<TimelineItem>)

  function ItemCategory(item: TimelineItem): string { item.category }

  function ToTimelineCategory(g: Grouping.Group<TimelineItem>): TimelineCategory {
    TimelineCategory(g.key, g.items)
  }

  /** The timeline groups of the fetched rows. */
  function TimelineGroups(items: seq<TimelineItem>): (r: seq<TimelineCategory>)
    ensures |r| == |Grouping.GroupBy(items, ItemCategory)|
    ensures forall i :: 0 <= i < |r| ==> r[i] == ToTimelineCategory(Grouping.GroupBy(items, ItemCategory)[i])
  {
    var gs := Grouping.GroupBy(items, ItemCategory);
    seq(|gs|, i requires 0 <= i < |gs| => ToTimelineCategory(gs[i]))
  }

  /** The timeline groups: as many as there are distinct categories, with
      distinct categories, each holding exactly its category's items in
      input order, whether or not those items were adjacent. */
  lemma TimelineGroupSpec(items: seq<TimelineItem>, i: nat)
    requires i < |TimelineGroups(items)|
    ensures |TimelineGroups(items)| == |set n | 0 <= n < |items| :: items[n].category|
    ensures TimelineGroups(items)[i].items == Grouping.Only(items, TimelineGroups(items)[i].category, ItemCategory)
    ensures forall j :: 0 <= j < |TimelineGroups(items)| && j != i ==>
              TimelineGroups(items)[j].category != TimelineGroups(items)[i].category
  {
    var gs := Grouping.GroupBy(items, ItemCategory);
    Grouping.GroupBySpec(items, ItemCategory);
    Grouping.GroupCount(items, ItemCategory);
    assert (set n | 0 <= n < |items| :: items[n].category) == Grouping.KeySet(items, ItemCategory);
    forall j | 0 <= j < |gs| && j != i ensures TimelineGroups(items)[j].category != TimelineGroups(items)[i].category {
      assert Grouping.Keys(gs)[j] == gs[j].key && Grouping.Keys(gs)[i] == gs[i].key;
    }
  }

  /** An illustration of `TimelineGroupSpec` on three rows: rows ordered
      only by sort order can interleave categories; they still end up in one
      group per category, in input order. */
  lemma InterleavedCategoriesGroupTogether(a: TimelineItem, b: TimelineItem, c: TimelineItem)
    requires a.category == c.category != b.category
    ensures TimelineGroups([a, b, c]) ==
              [TimelineCategory(a.category, [a, c]), TimelineCategory(b.category, [b])]
  {
    var xs := [a, b, c];
    assert xs[..2][..1] == [a];
    assert xs[..2] == [a, b];
    assert Grouping.GroupBy([a], ItemCategory) == [Grouping.Group(a.category, [a])];
    assert Grouping.GroupBy([a, b], ItemCategory) == [Grouping.Group(a.category, [a]), Grouping.Group(b.category, [b])];
    var g2 := [Grouping.Group(a.category, [a]), Grouping.Group(b.category, [b])];
    assert Grouping.FindIndex(g2, c.category) == 0;
    assert xs[2] == c && xs[..|xs| - 1] == [a, b];
    assert Grouping.GroupBy(xs, ItemCategory) == Grouping.Add(g2, c, ItemCategory);
    var g3 := [Grouping.Group(a.category, [a, c]), Grouping.Group(b.category, [b])];
    assert ItemCategory(c) == c.category;
    assert Grouping.FindIndex(g2, ItemCategory(c)) == 0;
    assert Grouping.Add(g2, c, ItemCategory) == g2[0 := Grouping.Group(a.category, [a] + [c])];
    assert [a] + [c] == [a, c];
    assert g2[0 := Grouping.Group(a.category, [a, c])] == g3;
    assert TimelineGroups(xs)[0] == ToTimelineCategory(g3[0]);
    assert TimelineGroups(xs)[1] == ToTimelineCategory(g3[1]);
  }

  /** `fetchTimeline`: grouped rows, or the old groups and a fixed message. */
  function FetchedTimeline(s: HookState<seq<TimelineCategory>>, resp: ListResponse<TimelineItem>)
    : (r: HookState<seq<TimelineCategory>>)
    ensures !r.loading
    ensures resp.Rows? ==> r.data == TimelineGroups(resp.rows) && r.error == None
    ensures resp.ListError? ==> r.data == s.data && r.error == Some("Failed to load timeline")
  {
    match resp
    case Rows(rows) => HookState(TimelineGroups(rows), false, None)
    case ListError(_) => HookState(s.data, false, Some("Failed to load timeline"))
  }

  class TimelineHook {
    var timelineCategories: seq<TimelineCategory>
    var loading: bool
    var error: Option<string>

    constructor ()
      ensures timelineCategories == [] && loading && error == None
    {
      timelineCategories, loading, error := [], true, None;
    }

    method FetchTimeline(resp: ListResponse<TimelineItem>)
      modifies this
      ensures HookState(timelineCategories, loading, error)
           == FetchedTimeline(HookState(old(timelineCategories), old(loading), old(error)), resp)
    {
      error := None;
      if resp.ListError? {
        error := Some("Failed to load timeline");
      } else {
        var gs := Grouping.GroupRows(resp.rows, ItemCategory);
        var grouped := [];
        for i := 0 to |gs|
          invariant |grouped| == i
          invariant forall j :: 0 <= j < i ==> grouped[j] == ToTimelineCategory(gs[j])
        {
          grouped := grouped + [ToTimelineCategory(gs[i])];
        }
        assert grouped == TimelineGroups(resp.rows);
        timelineCategories := grouped;
      }
      loading := false;
    }
  }

  // ---------------------------------------------------------------------
  // useFunFactsCategories

  /** `fetchFunFacts`: the same grouping as `getFunFactsByCategory`. */
  function FetchedFunFacts(s: HookState<seq<Queries.FunFactsByCategory>>, resp: ListResponse<Queries.FunFact>)
    : (r: HookState<seq<Queries.FunFactsByCategory>>)
    ensures !r.loading
    ensures resp.Rows? ==> r.data == Queries.FunFactGroups(resp.rows) && r.error == None
    ensures resp.ListError? ==> r.data == s.data && r.error == Some("Failed to load fun facts")
  {
    match resp
    case Rows(rows) => HookState(Queries.FunFactGroups(rows), false, None)
    case ListError(_) => HookState(s.data, false, Some("Failed to load fun facts"))
  }

  class FunFactsHook {
    var funFactsCategories: seq<Queries.FunFactsByCategory>
    var loading: bool
    var error: Option<string>

    constructor ()
      ensures funFactsCategories == [] && loading && error == None
    {
      funFactsCategories, loading, error := [], true, None;
    }

    method FetchFunFacts(resp: ListResponse<Queries.FunFact>)
      modifies this
      ensures HookState(funFactsCategories, loading, error)
           == FetchedFunFacts(HookState(old(funFactsCategories), old(loading), old(error)), resp)
    {
      error := None;
      if resp.ListError? {
        error := Some("Failed to load fun facts");
      } else {
        var grouped := Queries.GroupFunFacts(resp.rows);
        funFactsCategories := grouped;
      }
      loading := false;
    }
  }
}
