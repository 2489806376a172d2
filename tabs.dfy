/** The dashboard sub-tab registry: tabs grouped by name, each group kept in
    non-decreasing placement order, looked up by group and tab name. */
module Tabs {
  import opened Wrappers

  // ---------------------------------------------------------------------
  // BaseTab ordering and NavTab
  // ---------------------------------------------------------------------

  /** A placement as BaseTab compares it: an integer, or +infinity (the
      placement a NavTab gets when it is given none). */
  datatype Placement = Finite(n: int) | Infinity

  /** BaseTab.__cmp__: a three-way comparison on placement alone. */
  function Compare(a: Placement, b: Placement): (r: int)
    ensures r == -1 || r == 0 || r == 1
    ensures r == 0 <==> a == b
    ensures a.Finite? && b.Finite? ==> (r < 0 <==> a.n < b.n)
    ensures a.Finite? && b.Infinity? ==> r < 0
  {
    match (a, b)
    case (Infinity, Infinity) => 0
    case (Infinity, Finite(_)) => 1
    case (Finite(_), Infinity) => -1
    case (Finite(x), Finite(y)) => if x < y then -1 else if x == y then 0 else 1
  }

  /** Swapping the operands of the comparison flips its sign. */
  lemma CompareAntisymmetric(a: Placement, b: Placement)
    ensures Compare(a, b) == -Compare(b, a)
  {
  }

  /** "At most" under the comparison is transitive, so it is a total preorder. */
  lemma CompareTransitive(a: Placement, b: Placement, c: Placement)
    requires Compare(a, b) <= 0 && Compare(b, c) <= 0
    ensures Compare(a, c) <= 0
  {
  }

  /** A top-level navigation entry. */
  datatype NavTab = NavTab(name: string, title: string, placement: Placement)

  /** NavTab.__init__: a falsy placement (none given, or 0) becomes +infinity;
      any other placement is kept. */
  function NewNavTab(name: string, title: string, placement: Option<int>): (t: NavTab)
    ensures t.name == name && t.title == title
    ensures t.placement.Infinity? <==> placement == None || placement == Some(0)
    ensures t.placement.Finite? ==> placement == Some(t.placement.n)
  {
    var p := if placement.None? || placement.value == 0 then Infinity else Finite(placement.value);
    NavTab(name, title, p)
  }

  /** A NavTab given a non-zero placement sorts strictly before one given
      none; one given 0 compares equal to one given none. */
  lemma NavTabUnplacedSortsLast(a: string, b: string, p: int, c: string, d: string)
    ensures Compare(NewNavTab(a, b, Some(p)).placement, NewNavTab(c, d, None).placement)
            == if p == 0 then 0 else -1
  {
  }

  // ---------------------------------------------------------------------
  // Registry._Tab
  // ---------------------------------------------------------------------

  /** The opaque `contents` handle; the registry never looks inside it. */
  type Handle = nat

  /** A registered sub-tab (Registry._Tab). */
  datatype Tab = Tab(
    group: string,
    name: string,
    title: string,
    contents: Option<Handle>,
    href: Option<string>,
    target: Option<string>,
    placement: int)

  /** The two ValueErrors that Registry.register raises. */
  datatype RegistryError = DuplicateTab | InvalidTabName

  /** The placement a _Tab gets when it is registered without one. */
  const DefaultPlacement: int := 1000000

  /** The destination computed_href uses when the caller gives none. */
  const DefaultDestination: string := "/dashboard"

  /** The key a _Tab is compared by (BaseTab.__cmp__ reads only placement). */
  function Key(t: Tab): Placement
  {
    Finite(t.placement)
  }

  /** A character of the class [a-z0-9_]. */
  predicate IsNameChar(c: char)
  {
    'a' <= c <= 'z' || '0' <= c <= '9' || c == '_'
  }

  /** A non-empty string of characters from [a-z0-9_]. */
  predicate IsNameBody(s: string)
  {
    |s| > 0 && forall i :: 0 <= i < |s| ==> IsNameChar(s[i])
  }

  /** re.match('^[a-z0-9_]+$', name) in Python's semantics, where `$` matches
      at the end of the string and also just before one final newline. */
  predicate MatchesNamePattern(name: string)
    ensures IsNameBody(name) ==> MatchesNamePattern(name)
    ensures MatchesNamePattern(name) ==> |name| > 0 && IsNameChar(name[0])
  {
    if |name| > 0 && name[|name| - 1] == '\n' then IsNameBody(name[..|name| - 1]) else IsNameBody(name)
  }

  /** The name check accepts exactly the non-empty names made of [a-z0-9_],
      each optionally followed by a single newline. */
  lemma NamePatternIff(name: string)
    ensures MatchesNamePattern(name) <==>
      |name| > 0 && IsNameChar(name[0]) &&
      forall i :: 0 <= i < |name| ==> IsNameChar(name[i]) || (i == |name| - 1 && name[i] == '\n')
  {
    if |name| > 0 && name[|name| - 1] == '\n' {
      var body := name[..|name| - 1];
      assert forall i :: 0 <= i < |body| ==> body[i] == name[i];
    }
  }

  /** An accepted name never holds '=', '&' or '?', so it stays one
      query-string value inside a computed link. */
  lemma AcceptedNameHasNoDelimiters(name: string)
    requires MatchesNamePattern(name)
    ensures '=' !in name && '&' !in name && '?' !in name
  {
    NamePatternIff(name);
    forall i | 0 <= i < |name|
      ensures name[i] != '=' && name[i] != '&' && name[i] != '?'
    {
    }
  }

  /** Registry._Tab.__init__: rejects a name the pattern does not match, keeps
      every given field, and defaults a missing placement to 1000000 (an
      explicit placement, 0 included, is kept as given). */
  function NewTab(
    group: string, name: string, title: string, contents: Option<Handle>,
    href: Option<string>, placement: Option<int>, target: Option<string>): (r: Result<Tab, RegistryError>)
    ensures r.Err? <==> !MatchesNamePattern(name)
    ensures r.Err? ==> r.error == InvalidTabName
    ensures r.Ok? ==> r.value.group == group && r.value.name == name && r.value.title == title
    ensures r.Ok? ==> r.value.contents == contents && r.value.href == href && r.value.target == target
    ensures r.Ok? && placement.Some? ==> r.value.placement == placement.value
    ensures r.Ok? && placement.None? ==> r.value.placement == DefaultPlacement
  {
    if !MatchesNamePattern(name) then
      Err(InvalidTabName)
    else
      var p := if placement.None? then DefaultPlacement else placement.value;
      Ok(Tab(group, name, title, contents, href, target, p))
  }

  /** Python truthiness of `href`: set and non-empty. */
  predicate HasHref(t: Tab)
    ensures t.href == None || t.href == Some("") ==> !HasHref(t)
    ensures HasHref(t) ==> |t.href.value| > 0
  {
    t.href.Some? && t.href.value != ""
  }

  /** _Tab.computed_href: '/' + href when href is set, otherwise the
      destination with `action` and `tab` query parameters, unescaped. */
  function ComputedHref(t: Tab, destination: string): (url: string)
    ensures HasHref(t) ==> |url| > 1 && url[0] == '/' && url[1..] == t.href.value
    ensures !HasHref(t) ==> |url| == |destination| + |t.group| + |t.name| + 13
    ensures !HasHref(t) ==> url[..|destination|] == destination
    ensures !HasHref(t) ==> url[|destination|..|destination| + 8] == "?action="
    ensures !HasHref(t) ==> url[|destination| + 8..|destination| + 8 + |t.group|] == t.group
    ensures !HasHref(t) ==> url[|url| - |t.name| - 5..] == "&tab=" + t.name
  {
    if HasHref(t) then
      "/" + t.href.value
    else
      destination + "?action=" + t.group + "&tab=" + t.name
  }

  /** A tab of group "analytics" named "scores" without href links to
      "/dashboard?action=analytics&tab=scores" under the default destination. */
  lemma DefaultDestinationExample(t: Tab)
    requires t.group == "analytics" && t.name == "scores" && t.href == None
    ensures ComputedHref(t, DefaultDestination) == "/dashboard?action=analytics&tab=scores"
  {
  }

  /** With href set, the link does not depend on the destination. */
  lemma HrefIgnoresDestination(t: Tab, d1: string, d2: string)
    requires HasHref(t)
    ensures ComputedHref(t, d1) == ComputedHref(t, d2)
  {
  }

  /** The text after the last occurrence of c in s (all of s if c is absent). */
  function AfterLast(s: string, c: char): (r: string)
    ensures |r| <= |s| && r == s[|s| - |r|..]
    ensures c !in r
    ensures |r| < |s| ==> s[|s| - |r| - 1] == c
  {
    if s == [] then []
    else if s[|s| - 1] == c then []
    else AfterLast(s[..|s| - 1], c) + [s[|s| - 1]]
  }

  /** Whatever follows the last occurrence of c, when c is absent from the
      tail, is that tail. */
  lemma {:induction false} AfterLastOfJoin(prefix: string, c: char, tail: string)
    requires c !in tail
    ensures AfterLast(prefix + [c] + tail, c) == tail
    decreases |tail|
  {
    var s := prefix + [c] + tail;
    if tail == [] {
      assert s[|s| - 1] == c;
    } else {
      var init := tail[..|tail| - 1];
      assert s[..|s| - 1] == prefix + [c] + init;
      assert s[|s| - 1] == tail[|tail| - 1];
      AfterLastOfJoin(prefix, c, init);
      assert init + [tail[|tail| - 1]] == tail;
    }
  }

  /** For a registered tab without href, the tab name is exactly the value
      after the last '=' of its computed link, whatever the destination and
      group hold. */
  lemma TabNameIsLastParameter(t: Tab, destination: string)
    requires MatchesNamePattern(t.name) && !HasHref(t)
    ensures AfterLast(ComputedHref(t, destination), '=') == t.name
  {
    AcceptedNameHasNoDelimiters(t.name);
    assert ComputedHref(t, destination) == destination + "?action=" + t.group + "&tab" + ['='] + t.name;
    AfterLastOfJoin(destination + "?action=" + t.group + "&tab", '=', t.name);
  }

  // ---------------------------------------------------------------------
  // Ordered insertion (bisect.insort)
  // ---------------------------------------------------------------------

  /** Non-decreasing placement order. */
  predicate Sorted(s: seq<Tab>)
  {
    forall i, j :: 0 <= i <= j < |s| ==> s[i].placement <= s[j].placement
  }

  /** The length of the longest prefix of s whose placements are all at most p:
      where bisect_right puts a tab of placement p. */
  function UpperBound(s: seq<Tab>, p: int): (k: nat)
    ensures k <= |s|
    ensures forall i :: 0 <= i < k ==> s[i].placement <= p
    ensures k < |s| ==> p < s[k].placement
  {
    if s == [] || p < s[0].placement then 0 else 1 + UpperBound(s[1..], p)
  }

  /** bisect.insort(s, t): t inserted at UpperBound(s, t.placement). */
  function InsortRight(s: seq<Tab>, t: Tab): (r: seq<Tab>)
    ensures |r| == |s| + 1
  {
    var k := UpperBound(s, t.placement);
    s[..k] + [t] + s[k..]
  }

  /** In a sorted list the tabs before UpperBound are exactly those whose
      placement is at most p. */
  lemma UpperBoundSorted(s: seq<Tab>, p: int)
    requires Sorted(s)
    ensures forall i :: 0 <= i < |s| ==> (i < UpperBound(s, p) <==> s[i].placement <= p)
  {
    var k := UpperBound(s, p);
    forall i | k <= i < |s|
      ensures p < s[i].placement
    {
      assert s[k].placement <= s[i].placement;
    }
  }

  /** UpperBound is the only index splitting s into placements at most p
      followed by placements greater than p. */
  lemma {:induction false} UpperBoundUnique(s: seq<Tab>, p: int, k: nat)
    requires k <= |s|
    requires forall i :: 0 <= i < k ==> s[i].placement <= p
    requires forall i :: k <= i < |s| ==> p < s[i].placement
    ensures k == UpperBound(s, p)
  {
    if k > 0 {
      assert s[0].placement <= p;
      assert forall i :: 0 <= i < k - 1 ==> s[1..][i] == s[i + 1];
      assert forall i :: k - 1 <= i < |s| - 1 ==> s[1..][i] == s[i + 1];
      UpperBoundUnique(s[1..], p, k - 1);
    } else if s != [] {
      assert p < s[0].placement;
    }
  }

  /** bisect_right's binary search, comparing tabs as BaseTab.__cmp__ does. */
  method BisectRight(s: seq<Tab>, t: Tab) returns (lo: nat)
    requires Sorted(s)
    ensures lo == UpperBound(s, t.placement)
  {
    lo := 0;
    var hi := |s|;
    while lo < hi
      invariant 0 <= lo <= hi <= |s|
      invariant forall i :: 0 <= i < lo ==> s[i].placement <= t.placement
      invariant forall i :: hi <= i < |s| ==> t.placement < s[i].placement
    {
      var mid := (lo + hi) / 2;
      if Compare(Key(t), Key(s[mid])) < 0 {
        hi := mid;
      } else {
        lo := mid + 1;
      }
    }
    UpperBoundUnique(s, t.placement, lo);
  }

  /** bisect.insort(s, t): the binary search, then the list insert at the
      index it found. */
  method Insort(s: seq<Tab>, t: Tab) returns (r: seq<Tab>)
    requires Sorted(s)
    ensures r == InsortRight(s, t)
  {
    var k := BisectRight(s, t);
    r := s[..k] + [t] + s[k..];
  }

  /** Position by position, InsortRight(s, t) is s with t at UpperBound. */
  lemma InsortRightAt(s: seq<Tab>, t: Tab)
    ensures var r := InsortRight(s, t); var k := UpperBound(s, t.placement);
      && |r| == |s| + 1
      && (forall i :: 0 <= i < k ==> r[i] == s[i])
      && r[k] == t
      && (forall i :: k < i < |r| ==> r[i] == s[i - 1])
  {
  }

  /** insort adds exactly t and keeps the tabs already there in their
      relative order: taking t out again gives back s. */
  lemma InsortRightKeepsOrder(s: seq<Tab>, t: Tab)
    ensures var r := InsortRight(s, t); var k := UpperBound(s, t.placement);
      && |r| == |s| + 1
      && r[k] == t
      && r[..k] + r[k + 1..] == s
      && multiset(r) == multiset(s) + multiset{t}
  {
    var k := UpperBound(s, t.placement);
    SpliceOfInsort(s, t);
    SpliceFacts(s[..k], s[k..], t);
  }

  /** Splicing t between front and back: removing it again gives front + back,
      and the multiset grows by exactly t. */
  lemma SpliceFacts(front: seq<Tab>, back: seq<Tab>, t: Tab)
    ensures var r := front + [t] + back; var k := |front|;
      && r[k] == t
      && r[..k] == front && r[k + 1..] == back
      && multiset(r) == multiset(front + back) + multiset{t}
  {
    var r := front + [t] + back;
    assert r[..|front|] == front;
    assert r[|front| + 1..] == back;
  }

  /** insort keeps a sorted list sorted, with t right after every tab whose
      placement is at most t's (so after every tab of equal placement) and
      before every tab of greater placement. */
  lemma InsortRightSorted(s: seq<Tab>, t: Tab)
    requires Sorted(s)
    ensures Sorted(InsortRight(s, t))
    ensures var r := InsortRight(s, t); var k := UpperBound(s, t.placement);
      forall i :: 0 <= i < |r| && i != k ==> (i < k <==> r[i].placement <= t.placement)
  {
    var r := InsortRight(s, t);
    var k := UpperBound(s, t.placement);
    UpperBoundSorted(s, t.placement);
    InsortRightAt(s, t);
    forall i | 0 <= i < |r| && i != k
      ensures i < k <==> r[i].placement <= t.placement
    {
      if i < k {
        assert r[i] == s[i];
      } else {
        assert r[i] == s[i - 1];
      }
    }
    forall i, j | 0 <= i <= j < |r|
      ensures r[i].placement <= r[j].placement
    {
      if j < k {
        assert r[i] == s[i] && r[j] == s[j];
      } else if j == k {
        assert i < k ==> r[i] == s[i];
      } else if i < k {
        assert r[i] == s[i] && r[j] == s[j - 1];
      } else if i > k {
        assert r[i] == s[i - 1] && r[j] == s[j - 1];
      }
    }
  }

  /** A tab registered without a placement goes after every tab whose
      placement is at most 1000000, in particular every explicitly placed
      tab with a smaller placement. */
  lemma UnplacedGoesAfterPlaced(s: seq<Tab>, t: Tab, i: nat)
    requires Sorted(s) && t.placement == DefaultPlacement
    requires i < |s| && s[i].placement <= DefaultPlacement
    ensures InsortRight(s, t)[i] == s[i]
    ensures InsortRight(s, t)[UpperBound(s, t.placement)] == t
    ensures i < UpperBound(s, t.placement)
  {
    InsortRightSorted(s, t);
    InsortRightAt(s, t);
  }

  /** Three tabs inserted with placements 50, 10, 30, in that order, end up
      ordered 10, 30, 50; two tabs of equal placement keep their insertion
      order. */
  lemma InsortExamples(a: Tab, b: Tab, c: Tab, x: Tab, y: Tab)
    requires a.placement == 50 && b.placement == 10 && c.placement == 30
    requires x.placement == 5 && y.placement == 5
    ensures InsortRight(InsortRight(InsortRight([], a), b), c) == [b, c, a]
    ensures InsortRight(InsortRight([], x), y) == [x, y]
  {
    var r1 := InsortRight([], a);
    assert r1 == [a] by {
      assert UpperBound([], 50) == 0;
    }
    var r2 := InsortRight(r1, b);
    assert r2 == [b, a] by {
      assert UpperBound([a], 10) == 0;
      assert [a][..0] == [] && [a][0..] == [a];
    }
    assert InsortRight(r2, c) == [b, c, a] by {
      assert [b, a][1..] == [a];
      assert UpperBound([a], 30) == 0;
      assert UpperBound([b, a], 30) == 1;
      assert [b, a][..1] == [b] && [b, a][1..] == [a];
    }
    var q1 := InsortRight([], x);
    assert q1 == [x] by {
      assert UpperBound([], 5) == 0;
    }
    assert InsortRight(q1, y) == [x, y] by {
      assert [x][1..] == [];
      assert UpperBound([x], 5) == 1;
      assert [x][..1] == [x] && [x][1..] == [];
    }
  }

  // ---------------------------------------------------------------------
  // Lookup within a group
  // ---------------------------------------------------------------------

  /** Tabs within a group have distinct names. */
  predicate UniqueNames(s: seq<Tab>)
  {
    forall i, j :: 0 <= i < j < |s| ==> s[i].name != s[j].name
  }

  /** i is the first index of s holding a tab named n. */
  predicate FirstNamed(s: seq<Tab>, n: string, i: int)
  {
    0 <= i < |s| && s[i].name == n && forall j :: 0 <= j < i ==> s[j].name != n
  }

  /** get_tab's comprehension followed by `matches[0]`: the first tab named n. */
  function FindByName(s: seq<Tab>, n: string): (r: Option<Tab>)
    ensures r.None? <==> forall i :: 0 <= i < |s| ==> s[i].name != n
    ensures r.Some? ==> exists i :: FirstNamed(s, n, i) && s[i] == r.value
  {
    if s == [] then None
    else if s[0].name == n then
      assert FirstNamed(s, n, 0);
      Some(s[0])
    else
      var r := FindByName(s[1..], n);
      if r.Some? then
        var i :| FirstNamed(s[1..], n, i) && s[1..][i] == r.value;
        assert FirstNamed(s, n, i + 1);
        r
      else
        r
  }

  /** When names are unique, the lookup finds t exactly when t is in the list
      under that name. */
  lemma FindByNameUnique(s: seq<Tab>, n: string, t: Tab)
    requires UniqueNames(s)
    ensures FindByName(s, n) == Some(t) <==> t in s && t.name == n
  {
    if t in s && t.name == n {
      var i :| 0 <= i < |s| && s[i] == t;
      var r := FindByName(s, n);
      var j :| FirstNamed(s, n, j) && s[j] == r.value;
      assert i == j;
    }
  }

  /** The lookup returns the tab at the first index holding the name. */
  lemma FindByNameFirst(s: seq<Tab>, n: string, i: int)
    requires FirstNamed(s, n, i)
    ensures FindByName(s, n) == Some(s[i])
  {
    var f := FindByName(s, n);
    var j :| FirstNamed(s, n, j) && s[j] == f.value;
    assert i == j;
  }

  /** After insort, t is found under its name if that name was free. */
  lemma {:induction false} FindInserted(s: seq<Tab>, t: Tab)
    requires FindByName(s, t.name).None?
    ensures FindByName(InsortRight(s, t), t.name) == Some(t)
  {
    var r := InsortRight(s, t);
    var k := UpperBound(s, t.placement);
    InsortRightAt(s, t);
    forall j | 0 <= j < k
      ensures r[j].name != t.name
    {
      assert r[j] == s[j];
    }
    assert FirstNamed(r, t.name, k);
    FindByNameFirst(r, t.name, k);
  }

  /** Looking a name up in a + b finds it in a if a has it, else in b. */
  lemma {:induction false} FindByNameConcat(a: seq<Tab>, b: seq<Tab>, n: string)
    ensures FindByName(a + b, n) == if FindByName(a, n).Some? then FindByName(a, n) else FindByName(b, n)
  {
    if a == [] {
      assert a + b == b;
    } else {
      assert (a + b)[0] == a[0];
      assert (a + b)[1..] == a[1..] + b;
      FindByNameConcat(a[1..], b, n);
    }
  }

  /** InsortRight splices t into s at UpperBound, and the two halves of that
      split rebuild s. */
  lemma SpliceOfInsort(s: seq<Tab>, t: Tab)
    ensures var k := UpperBound(s, t.placement);
      InsortRight(s, t) == s[..k] + [t] + s[k..] && s[..k] + s[k..] == s
  {
    var k := UpperBound(s, t.placement);
    var front, back := s[..k], s[k..];
    assert front + back == s;
  }

  /** Splicing a tab into a list does not change the lookup of any other name. */
  lemma FindOtherInSplice(front: seq<Tab>, back: seq<Tab>, t: Tab, n: string)
    requires n != t.name
    ensures FindByName(front + [t] + back, n) == FindByName(front + back, n)
  {
    FindByNameConcat(front + [t], back, n);
    FindByNameConcat(front, [t], n);
    FindByNameConcat(front, back, n);
  }

  /** insort leaves the lookup of every other name as it was. */
  lemma FindOtherAfterInsort(s: seq<Tab>, t: Tab, n: string)
    requires n != t.name
    ensures FindByName(InsortRight(s, t), n) == FindByName(s, n)
  {
    var k := UpperBound(s, t.placement);
    SpliceOfInsort(s, t);
    FindOtherInSplice(s[..k], s[k..], t, n);
  }

  /** insort of a tab whose name is free keeps the names unique. */
  lemma InsortRightUnique(s: seq<Tab>, t: Tab)
    requires UniqueNames(s) && FindByName(s, t.name).None?
    ensures UniqueNames(InsortRight(s, t))
  {
    var k := UpperBound(s, t.placement);
    var r := InsortRight(s, t);
    InsortRightAt(s, t);
    forall i, j | 0 <= i < j < |r|
      ensures r[i].name != r[j].name
    {
      var si := if i < k then i else i - 1;
      var sj := if j < k then j else j - 1;
      if i == k {
        assert r[j] == s[sj];
      } else if j == k {
        assert r[i] == s[si];
      } else {
        assert r[i] == s[si] && r[j] == s[sj] && si < sj;
      }
    }
  }

  // ---------------------------------------------------------------------
  // The registry
  // ---------------------------------------------------------------------

  /** What every group of the registry satisfies: non-empty, sorted by
      placement, names unique and accepted by the name check, and every tab
      recording the group it lives in. */
  predicate WellFormedGroup(g: string, s: seq<Tab>)
  {
    && |s| > 0
    && Sorted(s)
    && UniqueNames(s)
    && forall i :: 0 <= i < |s| ==> s[i].group == g && MatchesNamePattern(s[i].name)
  }

  /** insort of a valid, freshly named tab of group g into g's list (or into
      the empty list of an absent group) gives a well-formed group. */
  lemma InsortWellFormed(g: string, s: seq<Tab>, t: Tab)
    requires s == [] || WellFormedGroup(g, s)
    requires t.group == g && MatchesNamePattern(t.name) && FindByName(s, t.name).None?
    ensures WellFormedGroup(g, InsortRight(s, t))
  {
    var r := InsortRight(s, t);
    var k := UpperBound(s, t.placement);
    InsortRightSorted(s, t);
    InsortRightUnique(s, t);
    InsortRightAt(s, t);
    forall i | 0 <= i < |r|
      ensures r[i].group == g && MatchesNamePattern(r[i].name)
    {
      if i < k {
        assert r[i] == s[i];
      } else if i > k {
        assert r[i] == s[i - 1];
      }
    }
  }

  /** A name already stored in a well-formed group passed the name check, so
      the order of register's two checks cannot change which error a
      duplicate raises. */
  lemma StoredNamePassesCheck(g: string, s: seq<Tab>, name: string)
    requires WellFormedGroup(g, s)
    requires FindByName(s, name).Some?
    ensures MatchesNamePattern(name)
  {
    var i :| FirstNamed(s, name, i) && s[i] == FindByName(s, name).value;
    assert s[i].name == name;
  }

  /** Registry, whose class-level `_tabs_by_group` becomes a field. */
  class Registry {
    /** _tabs_by_group: group name to its list of tabs. */
    var tabsByGroup: map<string, seq<Tab>>

    ghost predicate Valid()
      reads this
    {
      forall g :: g in tabsByGroup ==> WellFormedGroup(g, tabsByGroup[g])
    }

    /** The empty registry of process start. */
    constructor ()
      ensures Valid() && tabsByGroup == map[]
    {
      tabsByGroup := map[];
    }

    /** `_tabs_by_group.get(g, [])`. */
    function TabsOf(g: string): (r: seq<Tab>)
      reads this
      ensures g !in tabsByGroup ==> r == []
      ensures g in tabsByGroup ==> r == tabsByGroup[g]
      ensures Valid() ==> Sorted(r) && UniqueNames(r)
    {
      if g in tabsByGroup then tabsByGroup[g] else []
    }

    /** get_tab: the tab named n in group g, or None when the group is absent
        or holds no such tab. */
    function GetTab(g: string, n: string): (r: Option<Tab>)
      reads this
      ensures r.None? <==> g !in tabsByGroup || forall i :: 0 <= i < |tabsByGroup[g]| ==> tabsByGroup[g][i].name != n
      ensures r.Some? ==> g in tabsByGroup && r.value in tabsByGroup[g] && r.value.name == n
      ensures r.Some? && Valid() ==> r.value.group == g
    {
      FindByName(TabsOf(g), n)
    }

    /** get_tab_group: the stored list of group g, or None. A stored list is
        never empty and always sorted. */
    function GetTabGroup(g: string): (r: Option<seq<Tab>>)
      reads this
      ensures r.Some? <==> g in tabsByGroup
      ensures r.Some? ==> r.value == tabsByGroup[g]
      ensures r.Some? && Valid() ==> |r.value| > 0 && Sorted(r.value)
    {
      if g in tabsByGroup then Some(tabsByGroup[g]) else None
    }

    /** register: raises on a duplicate name (checked first), then on a name
        the pattern rejects; either error changes nothing, not even creating
        the group. Otherwise the new tab is insorted into its group, which is
        created if absent, and no other group changes. */
    method Register(
      g: string, name: string, title: string, contents: Option<Handle>,
      href: Option<string>, target: Option<string>, placement: Option<int>)
      returns (err: Option<RegistryError>)
      requires Valid()
      modifies this
      ensures Valid()
      ensures err == Some(DuplicateTab) <==> old(GetTab(g, name)).Some?
      ensures err == Some(InvalidTabName) <==> old(GetTab(g, name)).None? && !MatchesNamePattern(name)
      ensures err.Some? ==> tabsByGroup == old(tabsByGroup)
      ensures err.None? ==>
        var t := NewTab(g, name, title, contents, href, placement, target);
        && t.Ok?
        && tabsByGroup == old(tabsByGroup)[g := InsortRight(old(TabsOf(g)), t.value)]
        && GetTab(g, name) == Some(t.value)
        && |tabsByGroup[g]| == |old(TabsOf(g))| + 1
      ensures forall h, m :: h != g || m != name ==> GetTab(h, m) == old(GetTab(h, m))
    {
      if GetTab(g, name).Some? {
        return Some(DuplicateTab);
      }
      var made := NewTab(g, name, title, contents, href, placement, target);
      if made.Err? {
        return Some(made.error);
      }
      var t := made.value;
      var s := TabsOf(g);
      var inserted := Insort(s, t);
      InsortWellFormed(g, s, t);
      FindInserted(s, t);
      forall m | m != name
        ensures FindByName(InsortRight(s, t), m) == FindByName(s, m)
      {
        FindOtherAfterInsort(s, t, m);
      }
      tabsByGroup := tabsByGroup[g := inserted];
      err := None;
    }

    /** unregister_group: removes group g, if present; every other group is
        unchanged. */
    method UnregisterGroup(g: string)
      requires Valid()
      modifies this
      ensures Valid()
      ensures tabsByGroup == old(tabsByGroup) - {g}
      ensures GetTabGroup(g) == None
      ensures g !in old(tabsByGroup) ==> tabsByGroup == old(tabsByGroup)
    {
      if g in tabsByGroup {
        tabsByGroup := tabsByGroup - {g};
      }
    }

    /** get_group_name_for_tab: some group holding a tab named n, or None when
        no group does. Groups are visited in an unspecified order. */
    method GroupNameForTab(n: string) returns (r: Option<string>)
      ensures r.Some? ==> r.value in tabsByGroup && GetTab(r.value, n).Some?
      ensures r.None? <==> forall g :: g in tabsByGroup ==> GetTab(g, n).None?
    {
      var remaining := tabsByGroup.Keys;
      while remaining != {}
        invariant remaining <= tabsByGroup.Keys
        invariant forall g :: g in tabsByGroup && g !in remaining ==> GetTab(g, n).None?
        decreases remaining
      {
        var g :| g in remaining;
        var group := tabsByGroup[g];
        var i := 0;
        while i < |group|
          invariant 0 <= i <= |group|
          invariant forall j :: 0 <= j < i ==> group[j].name != n
        {
          if group[i].name == n {
            return Some(g);
          }
          i := i + 1;
        }
        remaining := remaining - {g};
      }
      return None;
    }
  }
}
