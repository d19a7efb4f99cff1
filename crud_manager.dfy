/** The generic admin list manager of hooks/use-crud-manager.ts: the loaded
    items, the search-filtered view of them, the create/edit dialog flags,
    the selected item and the form contents. `T` is the row type and `F`
    the form type; the page supplies the search filter, the empty form and
    the copy of a row into a form (`{ ...item }`). The fetch outcome is an
    input. */
module CrudManager {
  import opened Wrappers
  import JsText
  import Queries

  datatype CrudState<T, F> = CrudState(
    items: seq<T>,
    filteredItems: seq<T>,
    loading: bool,
    searchTerm: string,
    selectedItem: Option<T>,
    isCreateDialogOpen: bool,
    isEditDialogOpen: bool,
    formData: F)

  /** The notifications the manager raises. */
  datatype Toast = LoadFailed | CreateComingSoon | UpdateComingSoon | DeleteComingSoon

  predicate Blank(s: string) {
    forall i :: 0 <= i < |s| ==> JsText.IsJsWhitespace(s[i])
  }

  /** The filter effect's view of `items`: every item for a blank search
      term, otherwise what the page's filter keeps for the lower-cased term. */
  function Filtered<T>(items: seq<T>, searchTerm: string, searchFilter: (seq<T>, string) -> seq<T>): (r: seq<T>)
    ensures Blank(searchTerm) ==> r == items
    ensures !Blank(searchTerm) ==> r == searchFilter(items, JsText.ToLower(searchTerm))
  {
    JsText.TrimEmptyIffBlank(searchTerm);
    if JsText.Trim(searchTerm) == "" then items else searchFilter(items, JsText.ToLower(searchTerm))
  }

  /** Lower-casing the term first changes nothing: the filter already
      receives it lower-cased, and case never makes a term blank. */
  lemma FilterIgnoresCase<T>(items: seq<T>, searchTerm: string, searchFilter: (seq<T>, string) -> seq<T>)
    ensures Filtered(items, JsText.ToLower(searchTerm), searchFilter) == Filtered(items, searchTerm, searchFilter)
  {
    var lower := JsText.ToLower(searchTerm);
    assert Blank(lower) <==> Blank(searchTerm) by {
      forall i | 0 <= i < |searchTerm|
        ensures JsText.IsJsWhitespace(lower[i]) <==> JsText.IsJsWhitespace(searchTerm[i])
      {
        assert lower[i] == JsText.LowerChar(searchTerm[i]);
      }
    }
    JsText.ToLowerIdempotent(searchTerm);
  }

  /** The filter effect, run after `items` or `searchTerm` change. */
  function FilterEffect<T, F>(s: CrudState<T, F>, searchFilter: (seq<T>, string) -> seq<T>): (r: CrudState<T, F>)
    ensures r.(filteredItems := s.filteredItems) == s
    ensures Blank(s.searchTerm) ==> r.filteredItems == s.items
    ensures r.filteredItems == Filtered(r.items, r.searchTerm, searchFilter)
  {
    s.(filteredItems := Filtered(s.items, s.searchTerm, searchFilter))
  }

  /** `openCreateDialog`. */
  function OpenCreate<T, F>(s: CrudState<T, F>, initialFormData: F): (r: CrudState<T, F>)
    ensures r.isCreateDialogOpen && r.selectedItem == None && r.formData == initialFormData
    ensures r.(isCreateDialogOpen := s.isCreateDialogOpen, selectedItem := s.selectedItem, formData := s.formData) == s
  {
    s.(formData := initialFormData, selectedItem := None, isCreateDialogOpen := true)
  }

  /** `openEditDialog(item)`. */
  function OpenEdit<T, F>(s: CrudState<T, F>, item: T, copy: T -> F): (r: CrudState<T, F>)
    ensures r.isEditDialogOpen && r.selectedItem == Some(item) && r.formData == copy(item)
    ensures r.(isEditDialogOpen := s.isEditDialogOpen, selectedItem := s.selectedItem, formData := s.formData) == s
  {
    s.(selectedItem := Some(item), formData := copy(item), isEditDialogOpen := true)
  }

  /** `closeDialogs`. */
  function Close<T, F>(s: CrudState<T, F>, initialFormData: F): (r: CrudState<T, F>)
    ensures !r.isCreateDialogOpen && !r.isEditDialogOpen && r.selectedItem == None && r.formData == initialFormData
    ensures r.items == s.items && r.filteredItems == s.filteredItems && r.loading == s.loading && r.searchTerm == s.searchTerm
  {
    s.(isCreateDialogOpen := false, isEditDialogOpen := false, selectedItem := None, formData := initialFormData)
  }

  /** `loadData`: a fetched list replaces both `items` and the filtered
      view; a failure keeps both and raises a toast; loading ends false. */
  function Load<T, F>(s: CrudState<T, F>, fetched: Queries.Outcome<seq<T>>): (r: (CrudState<T, F>, Option<Toast>))
    ensures !r.0.loading
    ensures fetched.Returned? ==> r.0.items == fetched.value && r.0.filteredItems == fetched.value && r.1 == None
    ensures fetched.Threw? ==> r.0 == s.(loading := false) && r.1 == Some(LoadFailed)
  {
    match fetched
    case Returned(data) => (s.(items := data, filteredItems := data, loading := false), None)
    case Threw(_) => (s.(loading := false), Some(LoadFailed))
  }

  /** Closing the dialogs undoes opening either of them: nothing the open
      set survives the close. */
  lemma CloseUndoesOpen<T, F>(s: CrudState<T, F>, item: T, copy: T -> F, initialFormData: F)
    ensures Close(OpenEdit(s, item, copy), initialFormData) == Close(s, initialFormData)
    ensures Close(OpenCreate(s, initialFormData), initialFormData) == Close(s, initialFormData)
    ensures Close(Close(s, initialFormData), initialFormData) == Close(s, initialFormData)
  {
  }

  /** The dialog handlers touch neither the list nor the search: `items`,
      `filteredItems`, `loading` and `searchTerm` are as before. */
  lemma DialogsKeepList<T, F>(s: CrudState<T, F>, item: T, copy: T -> F, initialFormData: F)
    ensures var o := OpenEdit(s, item, copy);
      o.items == s.items && o.filteredItems == s.filteredItems && o.searchTerm == s.searchTerm && o.loading == s.loading
    ensures var o := OpenCreate(s, initialFormData);
      o.items == s.items && o.filteredItems == s.filteredItems && o.searchTerm == s.searchTerm && o.loading == s.loading
    ensures var o := Close(s, initialFormData);
      o.items == s.items && o.filteredItems == s.filteredItems && o.searchTerm == s.searchTerm && o.loading == s.loading
  {
  }

  /** Opening the create dialog leaves the edit dialog's flag alone, so from
      a closed state "edit, then create" leaves both dialogs open, with the
      empty form and no selection. */
  lemma BothDialogsCanBeOpen<T, F>(s: CrudState<T, F>, item: T, copy: T -> F, initialFormData: F)
    ensures var o := OpenCreate(OpenEdit(Close(s, initialFormData), item, copy), initialFormData);
      o.isCreateDialogOpen && o.isEditDialogOpen && o.selectedItem == None && o.formData == initialFormData
  {
  }

  /** A successful load followed by the filter effect shows the fetched
      list filtered by the search term that was already there. */
  lemma LoadThenFilter<T, F>(s: CrudState<T, F>, data: seq<T>, searchFilter: (seq<T>, string) -> seq<T>)
    ensures var r := FilterEffect(Load(s, Queries.Returned(data)).0, searchFilter);
      r.items == data && !r.loading &&
      (Blank(s.searchTerm) ==> r.filteredItems == data) &&
      (!Blank(s.searchTerm) ==> r.filteredItems == searchFilter(data, JsText.ToLower(s.searchTerm)))
  {
  }

  /** The hook's state, updated in place by its handlers. */
  class CrudManager<T, F> {
    const searchFilter: (seq<T>, string) -> seq<T>
    const initialFormData: F
    const copy: T -> F

    var items: seq<T>
    var filteredItems: seq<T>
    var loading: bool
    var searchTerm: string
    var selectedItem: Option<T>
    var isCreateDialogOpen: bool
    var isEditDialogOpen: bool
    var formData: F

    function State(): CrudState<T, F>
      reads this
    {
      CrudState(items, filteredItems, loading, searchTerm, selectedItem, isCreateDialogOpen, isEditDialogOpen, formData)
    }

    constructor (searchFilter: (seq<T>, string) -> seq<T>, initialFormData: F, copy: T -> F)
      ensures this.searchFilter == searchFilter && this.initialFormData == initialFormData && this.copy == copy
      ensures State() == CrudState([], [], true, "", None, false, false, initialFormData)
    {
      this.searchFilter := searchFilter;
      this.initialFormData := initialFormData;
      this.copy := copy;
      items, filteredItems, loading, searchTerm := [], [], true, "";
      selectedItem, isCreateDialogOpen, isEditDialogOpen, formData := None, false, false, initialFormData;
    }

    /** The effect that recomputes `filteredItems`. */
    method ApplyFilter()
      modifies this
      ensures State() == FilterEffect(old(State()), searchFilter)
    {
      if JsText.Trim(searchTerm) == "" {
        filteredItems := items;
      } else {
        filteredItems := searchFilter(items, JsText.ToLower(searchTerm));
      }
    }

    method SetSearchTerm(term: string)
      modifies this
      ensures State() == old(State()).(searchTerm := term)
    {
      searchTerm := term;
    }

    method SetFormData(data: F)
      modifies this
      ensures State() == old(State()).(formData := data)
    {
      formData := data;
    }

    method OpenCreateDialog()
      modifies this
      ensures State() == OpenCreate(old(State()), initialFormData)
    {
      formData := initialFormData;
      selectedItem := None;
      isCreateDialogOpen := true;
    }

    method OpenEditDialog(item: T)
      modifies this
      ensures State() == OpenEdit(old(State()), item, copy)
    {
      selectedItem := Some(item);
      formData := copy(item);
      isEditDialogOpen := true;
    }

    method CloseDialogs()
      modifies this
      ensures State() == Close(old(State()), initialFormData)
    {
      isCreateDialogOpen := false;
      isEditDialogOpen := false;
      selectedItem := None;
      formData := initialFormData;
    }

    /** The create handler: a placeholder toast, then the dialogs close. */
    method HandleCreate() returns (toast: Toast)
      modifies this
      ensures toast == CreateComingSoon
      ensures State() == Close(old(State()), initialFormData)
    {
      toast := CreateComingSoon;
      CloseDialogs();
    }

    /** The update handler: a placeholder toast, then the dialogs close. */
    method HandleUpdate() returns (toast: Toast)
      modifies this
      ensures toast == UpdateComingSoon
      ensures State() == Close(old(State()), initialFormData)
    {
      toast := UpdateComingSoon;
      CloseDialogs();
    }

    /** The delete handler only raises a placeholder toast; no state changes. */
    method HandleDelete(item: T) returns (toast: Toast)
      ensures toast == DeleteComingSoon
    {
      toast := DeleteComingSoon;
    }

    /** `loadData`, with the fetch's outcome as input. */
    method LoadData(fetched: Queries.Outcome<seq<T>>) returns (toast: Option<Toast>)
      modifies this
      ensures (State(), toast) == Load(old(State()), fetched)
    {
      loading := true;
      toast := None;
      if fetched.Returned? {
        items := fetched.value;
        filteredItems := fetched.value;
      } else {
        toast := Some(LoadFailed);
      }
      loading := false;
    }
  }
}
