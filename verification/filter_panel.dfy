/** The filter-state updates of the filter panel
    (`src/components/FilterPanel.tsx`): each handler maps the current
    `FilterOptions` to the options the panel hands to `filterFiles`. */
module FilterPanel {
  import opened Wrappers
  import opened Seqs
  import opened Metadata
  import opened MetadataManager

  /** `handleAIFilterChange`: sets the tool criterion, or removes it with
      `None`; nothing else changes. */
  function HandleAiFilterChange(filters: FilterOptions, ai: Option<Ai>): (r: FilterOptions)
    ensures r.ai == ai
    ensures r.tags == filters.tags && r.startDate == filters.startDate
            && r.endDate == filters.endDate && r.dependencies == filters.dependencies
  {
    filters.(ai := ai)
  }

  /** `handleTagToggle`: an absent tag is appended, a present one is removed
      everywhere it occurs, and an empty result becomes `None`. */
  function HandleTagToggle(filters: FilterOptions, tag: string): (r: FilterOptions)
    ensures r.ai == filters.ai && r.startDate == filters.startDate
            && r.endDate == filters.endDate && r.dependencies == filters.dependencies
    ensures r.tags.Some? ==> |r.tags.value| > 0
    ensures tag !in filters.tags.GetOr([]) ==> r.tags == Some(filters.tags.GetOr([]) + [tag])
    ensures tag in filters.tags.GetOr([]) ==>
              && tag !in r.tags.GetOr([])
              && IsSubsequence(r.tags.GetOr([]), filters.tags.GetOr([]))
              && forall t {:trigger multiset(r.tags.GetOr([]))[t]} ::
                   t != tag ==> multiset(r.tags.GetOr([]))[t] == multiset(filters.tags.GetOr([]))[t]
  {
    var current := filters.tags.GetOr([]);
    var newTags := if tag in current then Filter(current, (t: string) => t != tag) else current + [tag];
    filters.(tags := if |newTags| > 0 then Some(newTags) else None)
  }

  /** `clearFilters`: the options `{}`. */
  function ClearFilters(): (r: FilterOptions)
    ensures r.ai.None? && r.tags.None? && r.startDate.None? && r.endDate.None? && r.dependencies.None?
  {
    NoFilters
  }

  /** `hasActiveFilters`: a tool is chosen or some tag is selected. */
  function HasActiveFilters(filters: FilterOptions): (active: bool)
    ensures active ==> !NoCriteria(filters)
  {
    filters.ai.Some? || (filters.tags.Some? && |filters.tags.value| > 0)
  }

  /** Clearing shows every record: the cleared options filter nothing out
      and are not reported as active. */
  lemma ClearFiltersShowsAll(files: seq<FileMetadata>)
    ensures !HasActiveFilters(ClearFilters())
    ensures FilterFiles(files, ClearFilters()) == files
  {
  }

  /** Without active panel filters, and with no date or dependency criterion,
      filtering returns its input. */
  lemma InactivePanelFiltersNothing(files: seq<FileMetadata>, filters: FilterOptions)
    requires !HasActiveFilters(filters)
    requires filters.startDate.None? && filters.endDate.None? && !DependencyCriterionActive(filters)
    ensures FilterFiles(files, filters) == files
  {
  }

  /** Toggling a tag makes the panel's filters active exactly when the tag
      was not selected or other tags remain. */
  lemma ToggleActivates(filters: FilterOptions, tag: string)
    requires filters.ai.None?
    ensures HasActiveFilters(HandleTagToggle(filters, tag))
            <==> (tag !in filters.tags.GetOr([]) || exists t :: t in filters.tags.GetOr([]) && t != tag)
  {
    var current := filters.tags.GetOr([]);
    if tag in current {
      var kept := Filter(current, (t: string) => t != tag);
      assert (exists t :: t in current && t != tag) <==> |kept| > 0 by {
        if exists t :: t in current && t != tag {
          var t :| t in current && t != tag;
          assert t in kept;
        }
        if |kept| > 0 {
          assert kept[0] in kept;
        }
      }
    }
  }

  /** Toggling an unselected tag twice restores the tag list, whether it was
      absent or non-empty. */
  lemma ToggleTwiceRestores(filters: FilterOptions, tag: string)
    requires filters.tags.None? || (|filters.tags.value| > 0 && tag !in filters.tags.value)
    ensures HandleTagToggle(HandleTagToggle(filters, tag), tag) == filters
  {
    var twice := HandleTagToggle(HandleTagToggle(filters, tag), tag);
    ToggleTwiceTags(filters, tag);
    assert twice.tags.GetOr([]) == filters.tags.GetOr([]);
  }

  /** Toggling an unselected tag twice gives back the same tag list. */
  lemma ToggleTwiceTags(filters: FilterOptions, tag: string)
    requires tag !in filters.tags.GetOr([])
    ensures HandleTagToggle(HandleTagToggle(filters, tag), tag).tags.GetOr([]) == filters.tags.GetOr([])
  {
    var current := filters.tags.GetOr([]);
    var s := current + [tag];
    var p := (t: string) => t != tag;
    var once := HandleTagToggle(filters, tag);
    var r := HandleTagToggle(once, tag).tags.GetOr([]);
    assert once.tags.GetOr([]) == s;
    assert current == Filter(s, p) by {
      assert multiset(s) == multiset(current) + multiset{tag};
      AppendSubsequence(current, [tag]);
      assert multiset(current)[tag] == 0;
      FilterUnique(current, s, p);
    }
    assert r == Filter(s, p) by {
      assert tag in s;
      assert multiset(r)[tag] == 0;
      FilterUnique(r, s, p);
    }
  }

  lemma {:induction false} AppendSubsequence<T>(a: seq<T>, b: seq<T>)
    ensures IsSubsequence(a, a + b)
    decreases |a|
  {
    if a != [] {
      assert (a + b)[1..] == a[1..] + b;
      AppendSubsequence(a[1..], b);
    }
  }
}
