# Dashboard sub-tab registry

A Dafny model of the Course Builder dashboard's sub-tab registry
(`coursebuilder/modules/dashboard/tabs.py`). Feature modules register named
sub-tabs into groups (for example the tabs under Dashboard > Analytics); each
group's list is kept in non-decreasing `placement` order, tab names are
unique within a group, and the dashboard looks tabs up by group and name and
builds each tab's link.

Files:

- `wrappers.dfy` — module `Wrappers`: `Option` (Python's `None`) and `Result`
  (a value or the `ValueError` that would be raised).
- `tabs.dfy` — module `Tabs`:
  - `Placement`, `Compare` and `NavTab`: `BaseTab.__cmp__` (comparison on
    placement only) and `NavTab`, whose falsy placement becomes +infinity;
  - `Tab`, `NewTab`, `MatchesNamePattern`, `ComputedHref`: `Registry._Tab`,
    its name check, its placement default of 1000000 and its link;
  - `UpperBound`, `InsortRight`, `BisectRight`: `bisect.insort`, specified as
    "insert right after the longest prefix whose placements are at most the
    new tab's", with the binary search itself proved against it;
  - `FindByName`: the first-match lookup of `get_tab`;
  - class `Registry`: the class-level `_tabs_by_group` dictionary becomes the
    field `tabsByGroup: map<string, seq<Tab>>` of one registry object;
    `Register` and `UnregisterGroup` change it, `GetTab`, `GetTabGroup` and
    `GroupNameForTab` read it. `Valid()` is the invariant every operation
    keeps: each present group is non-empty, sorted by placement, has unique
    names that pass the name check, and holds only tabs of that group.

Behaviours of the code a reader might not expect:

- `register` checks for a duplicate name first and validates the name second
  (tabs.py:103-110). The order cannot change which error is raised: every
  stored name already passed the name check (`StoredNamePassesCheck`), so a
  duplicate is always reported as `DuplicateTab`.
- The name check is Python's `re.match('^[a-z0-9_]+$', name)`, whose `$`
  also matches before one final newline: `"scores\n"` is accepted.
  `NamePatternIff` states the accepted set exactly.
- A tab registered without a placement gets 1000000. It goes after every tab
  whose placement is at most 1000000. It does not go after an explicit
  placement larger than that (`UnplacedGoesAfterPlaced`).
- `computed_href` tests `href` for truthiness, so an empty `href` counts as
  no `href` (`HasHref`).

## Model

| member | source | states |
|---|---|---|
| `Tabs.Compare` | coursebuilder/modules/dashboard/tabs.py:23-26 | three-way result in {-1,0,1}; 0 exactly for equal placements; finite placements ordered as integers; every finite placement below +infinity |
| `Tabs.CompareAntisymmetric` | coursebuilder/modules/dashboard/tabs.py:24-26 | swapping the operands flips the sign of the comparison |
| `Tabs.CompareTransitive` | coursebuilder/modules/dashboard/tabs.py:24-26 | "at most" under the comparison is transitive (a total preorder, usable by insort) |
| `Tabs.NewNavTab` | coursebuilder/modules/dashboard/tabs.py:41-45 | name and title kept; placement is +infinity exactly when none or 0 is given, otherwise the given integer |
| `Tabs.NavTabUnplacedSortsLast` | coursebuilder/modules/dashboard/tabs.py:42-45 | a NavTab with non-zero placement compares below one given none; one given 0 compares equal to it |
| `Tabs.MatchesNamePattern` | coursebuilder/modules/dashboard/tabs.py:55 | the regex match of the name: every non-empty name of [a-z0-9_] characters is accepted, and an accepted name is non-empty and starts with such a character |
| `Tabs.NamePatternIff` | coursebuilder/modules/dashboard/tabs.py:55-58 | a name passes exactly when it is non-empty, starts with a character of [a-z0-9_], and every character is in [a-z0-9_] except possibly one final newline |
| `Tabs.AcceptedNameHasNoDelimiters` | coursebuilder/modules/dashboard/tabs.py:55-58 | an accepted name contains no '=', '&' or '?' |
| `Tabs.NewTab` | coursebuilder/modules/dashboard/tabs.py:52-68 | fails with InvalidTabName exactly when the name check fails; otherwise keeps every field, keeps an explicit placement (0 included) and gives 1000000 when none is given |
| `Tabs.HasHref` | coursebuilder/modules/dashboard/tabs.py:87 | Python truthiness of href: an absent or empty href is false, a true one is non-empty |
| `Tabs.ComputedHref` | coursebuilder/modules/dashboard/tabs.py:86-91 | with a non-empty href the link is '/' followed by href; otherwise it is the destination, then "?action=", the group verbatim, then "&tab=" and the name, with the exact length of that concatenation |
| `Tabs.DefaultDestinationExample` | coursebuilder/modules/dashboard/tabs.py:86-91 | with the default destination '/dashboard', a tab of group "analytics" named "scores" without href links to "/dashboard?action=analytics&tab=scores" |
| `Tabs.HrefIgnoresDestination` | coursebuilder/modules/dashboard/tabs.py:86-88 | with a non-empty href the destination does not affect the link |
| `Tabs.TabNameIsLastParameter` | coursebuilder/modules/dashboard/tabs.py:89-91 | for a tab with an accepted name and no href, the text after the last '=' of its link is exactly its name, whatever the destination and group contain |
| `Tabs.UpperBound` | coursebuilder/modules/dashboard/tabs.py:111 | the insertion index of insort: every tab before it has placement at most p, the tab at it (if any) has placement greater than p |
| `Tabs.InsortRight` | coursebuilder/modules/dashboard/tabs.py:111 | the group after insort: one tab longer (where the tab lands and what stays is stated by InsortRightKeepsOrder and InsortRightSorted) |
| `Tabs.UpperBoundSorted` | coursebuilder/modules/dashboard/tabs.py:111 | in a sorted list, an index is before the insertion point exactly when its placement is at most p |
| `Tabs.BisectRight` | coursebuilder/modules/dashboard/tabs.py:111 | the binary search over a sorted group, comparing as BaseTab does, returns exactly the insertion index UpperBound |
| `Tabs.Insort` | coursebuilder/modules/dashboard/tabs.py:111 | the binary search followed by the list insert at the index found gives exactly InsortRight of the sorted group |
| `Tabs.InsortRightKeepsOrder` | coursebuilder/modules/dashboard/tabs.py:111 | insort makes the list one longer, puts the new tab at the insertion index, keeps the earlier tabs in their relative order, and adds exactly that tab to the multiset |
| `Tabs.InsortRightSorted` | coursebuilder/modules/dashboard/tabs.py:111 | insort keeps a sorted list sorted; in the result, every tab before the new one has placement at most its own (so equal placements stay ahead of it) and every tab after it has a greater placement |
| `Tabs.UnplacedGoesAfterPlaced` | coursebuilder/modules/dashboard/tabs.py:66-68 | a tab with the default placement is inserted after every existing tab whose placement is at most 1000000, which keep their positions |
| `Tabs.InsortExamples` | coursebuilder/modules/dashboard/tabs.py:111 | placements 50, 10, 30 inserted in that order end up as 10, 30, 50; two tabs of placement 5 keep their insertion order |
| `Tabs.FindByName` | coursebuilder/modules/dashboard/tabs.py:121-123 | None exactly when no tab has the name; otherwise the tab at the first index holding the name |
| `Tabs.FindByNameUnique` | coursebuilder/modules/dashboard/tabs.py:120-123 | in a group with unique names, the lookup returns t exactly when t is in the group under that name |
| `Tabs.FindInserted` | coursebuilder/modules/dashboard/tabs.py:103-111 | after a successful insert of a fresh name, looking that name up returns the new tab |
| `Tabs.FindOtherAfterInsort` | coursebuilder/modules/dashboard/tabs.py:111 | an insert does not change the lookup of any other name |
| `Tabs.InsortRightUnique` | coursebuilder/modules/dashboard/tabs.py:103-111 | inserting a tab whose name is not yet in the group keeps names unique |
| `Tabs.InsortWellFormed` | coursebuilder/modules/dashboard/tabs.py:97-111 | inserting a fresh, accepted tab into a well-formed or absent group gives a well-formed (non-empty, sorted, uniquely named) group |
| `Tabs.StoredNamePassesCheck` | coursebuilder/modules/dashboard/tabs.py:103-110 | a name already stored in a well-formed group passes the name check, so the duplicate check running first cannot hide an InvalidTabName |
| `Tabs.Registry.constructor` | coursebuilder/modules/dashboard/tabs.py:97 | the registry starts with no groups and satisfies its invariant |
| `Tabs.Registry.TabsOf` | coursebuilder/modules/dashboard/tabs.py:121 | `_tabs_by_group.get(g, [])`: the empty list for an absent group, the stored list otherwise; under the invariant it is sorted with unique names |
| `Tabs.Registry.GetTab` | coursebuilder/modules/dashboard/tabs.py:119-123 | None exactly when the group is absent or has no tab of that name; otherwise a tab of that group with that name, which records that group |
| `Tabs.Registry.GetTabGroup` | coursebuilder/modules/dashboard/tabs.py:125-127 | the stored list exactly when the group is present, None otherwise; a stored list is non-empty and sorted |
| `Tabs.Registry.Register` | coursebuilder/modules/dashboard/tabs.py:99-111 | DuplicateTab exactly when the name is already in the group; otherwise InvalidTabName exactly when the name check fails; on either error the map is unchanged (no group created); on success the group becomes the insort of the new tab into the old list (created if absent), lookup finds the new tab, the group grows by one, no other group or lookup changes, and the invariant holds |
| `Tabs.Registry.UnregisterGroup` | coursebuilder/modules/dashboard/tabs.py:113-117 | removes exactly the key g, so get_tab_group(g) is None afterwards; a no-op when g is absent; the invariant holds |
| `Tabs.Registry.GroupNameForTab` | coursebuilder/modules/dashboard/tabs.py:129-134 | returns some present group in which the name is found, and None exactly when no group holds a tab of that name |

## Left out

- `coursebuilder/modules/i18n_dashboard/templates/download_translations.js`:
  browser-side DOM and form handling, with no registry logic.
- The `contents` setter and the `contents` value itself: contents is an
  opaque handle (`Handle`) that the registry stores but never reads.
- Aliasing: `get_tab_group` returns the stored list itself, so a caller
  could change it behind the registry's back; the model returns a value.
- Tabs.ComputedHref: strings are sequences of characters; Python 2's
  str/unicode split, and `str.format` raising `UnicodeEncodeError` on a
  non-ASCII unicode href, group or destination, are not modelled.
- Placements are integers; Python 2's cross-type comparisons and the
  `assert isinstance` in `__cmp__` are not modelled, and `float('inf')` is
  `Placement.Infinity`.
- Tabs.Registry.GroupNameForTab: returns some matching group, not the first
  one in dictionary order, because that order is unspecified.
- Exception message texts; the two `ValueError`s are the two
  `RegistryError` values.
- Concurrency: registration is sequential in the source and in the model.
