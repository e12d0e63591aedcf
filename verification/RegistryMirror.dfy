/** Paging through the search results until a short page: the client's loop against the server's pages. */
module RegistryMirror {
  import opened Wrappers
  import opened StringOrder
  import opened RegistryNames
  import opened RegistryVersions
  import opened RegistryServer

  datatype SearchEntry = SearchEntry(name: string, latest: string)

  const PAGE_CAP: nat := 100
  const DEFAULT_LIMIT: nat := 50
  const MAX_SEARCH_BYTES: nat := 2 * 1024 * 1024

  // ----- the server's answer -----

  function LowerChar(c: char): char {
    if 'A' <= c <= 'Z' then c - 'A' + 'a' else c
  }

  function Lower(s: string): string {
    seq(|s|, i requires 0 <= i < |s| => LowerChar(s[i]))
  }

  predicate OccursAt(s: string, needle: string, i: nat) {
    i + |needle| <= |s| && s[i..i + |needle|] == needle
  }

  predicate Contains(s: string, needle: string) {
    exists i | 0 <= i <= |s| :: OccursAt(s, needle, i)
  }

  /** The entry of a package, unless it does not match or has nothing but yanked versions. */
  function EntryOf(ops: Semver, package: StoredPackage, needle: string): Option<SearchEntry> {
    if needle != "" && !Contains(Lower(package.name), needle) then None
    else
      var latest := Latest(ops, package.versions, None);
      if latest.None? then None else Some(SearchEntry(package.name, latest.value.version))
  }

  function Entries(ops: Semver, registry: Registry, needle: string, names: seq<string>): seq<SearchEntry>
    requires forall name | name in names :: name in registry
  {
    if names == [] then []
    else
      var entry := EntryOf(ops, registry[names[0]], needle);
      (if entry.Some? then [entry.value] else []) + Entries(ops, registry, needle, names[1..])
  }

  function Page<T>(s: seq<T>, offset: nat, limit: nat): seq<T> {
    var rest := if offset <= |s| then s[offset..] else [];
    if limit <= |rest| then rest[..limit] else rest
  }

  /** All matches, by ascending name. */
  ghost function Matches(ops: Semver, registry: Registry, needle: string): seq<SearchEntry> {
    Entries(ops, registry, needle, Listed(registry.Keys))
  }

  // ----- an ascending listing of a set of names -----

  ghost function Listed(names: set<string>): (r: seq<string>)
    ensures Ascending(r) && Elements(r) == names
  {
    ListingExists(names);
    var r :| Ascending(r) && Elements(r) == names;
    r
  }

  lemma {:induction false} ListingExists(names: set<string>)
    ensures exists r :: Ascending(r) && Elements(r) == names
    decreases names
  {
    if names == {} {
      assert Ascending([]) && Elements([]) == names;
    } else {
      var name :| name in names;
      ListingExists(names - {name});
      var r :| Ascending(r) && Elements(r) == names - {name};
      var k := Position(r, name);
      InsertedAt(r, name, k);
      assert Elements(r[..k] + [name] + r[k..]) == names;
    }
  }

  /** How many of an ascending list stand before the name. */
  function Position(s: seq<string>, name: string): (k: nat)
    ensures k <= |s|
  {
    if s == [] || !Less(s[0], name) then 0 else 1 + Position(s[1..], name)
  }

  lemma {:induction false} PositionSplits(s: seq<string>, name: string)
    requires Ascending(s) && name !in s
    ensures forall i | 0 <= i < |s| :: if i < Position(s, name) then Less(s[i], name) else Less(name, s[i])
  {
    if s != [] {
      assert s[0] in s;
      LessIsTotal(s[0], name);
      if Less(s[0], name) {
        PositionSplits(s[1..], name);
      } else {
        forall i | 0 < i < |s| ensures Less(name, s[i]) {
          LessIsTransitive(name, s[0], s[i]);
        }
      }
    }
  }

  lemma InsertedAt(s: seq<string>, name: string, k: nat)
    requires Ascending(s) && name !in s && k == Position(s, name)
    ensures var r := s[..k] + [name] + s[k..];
            Ascending(r) && Elements(r) == Elements(s) + {name}
  {
    PositionSplits(s, name);
    hide Less, Position;
    var r := s[..k] + [name] + s[k..];
    assert forall i | 0 <= i < |r| :: r[i] == if i < k then s[i] else if i == k then name else s[i - 1];
    assert Ascending(r);
    ElementsAround(s, name, k);
  }

  lemma ElementsAround(s: seq<string>, name: string, k: nat)
    requires k <= |s|
    ensures Elements(s[..k] + [name] + s[k..]) == Elements(s) + {name}
  {
    var r := s[..k] + [name] + s[k..];
    assert s == s[..k] + s[k..];
  }

  method SortedNames(names: set<string>) returns (r: seq<string>)
    ensures r == Listed(names)
  {
    r := [];
    var rest := names;
    while rest != {}
      invariant rest <= names && Ascending(r) && Elements(r) == names - rest
      decreases rest
    {
      var name :| name in rest;
      InsertedAt(r, name, Position(r, name));
      r := r[..Position(r, name)] + [name] + r[Position(r, name)..];
      rest := rest - {name};
    }
    AscendingListingIsUnique(r, Listed(names));
  }

  lemma {:induction false} EntriesSnoc(ops: Semver, registry: Registry, needle: string, names: seq<string>, name: string)
    requires name in registry && forall n | n in names :: n in registry
    ensures var entry := EntryOf(ops, registry[name], needle);
            var all := Entries(ops, registry, needle, names + [name]);
            all == if entry.Some? then Entries(ops, registry, needle, names) + [entry.value]
                   else Entries(ops, registry, needle, names)
  {
    if names == [] {
      assert names + [name] == [name];
      assert Entries(ops, registry, needle, [name][1..]) == [];
    } else {
      assert (names + [name])[1..] == names[1..] + [name];
      EntriesSnoc(ops, registry, needle, names[1..], name);
    }
  }

  method MatchesOf(ops: Semver, registry: Registry, needle: string) returns (matches: seq<SearchEntry>)
    ensures matches == Matches(ops, registry, needle)
  {
    hide EntryOf, Entries;
    var names := SortedNames(registry.Keys);
    matches := [];
    NoEntries(ops, registry, needle);
    var i := 0;
    while i < |names|
      invariant i <= |names|
      invariant matches == Entries(ops, registry, needle, names[..i])
    {
      var entry := EntryOf(ops, registry[names[i]], needle);
      assert names[..i + 1] == names[..i] + [names[i]];
      EntriesSnoc(ops, registry, needle, names[..i], names[i]);
      if entry.Some? { matches := matches + [entry.value]; }
      i := i + 1;
    }
    assert names[..i] == names;
  }

  lemma NoEntries(ops: Semver, registry: Registry, needle: string)
    ensures Entries(ops, registry, needle, []) == []
  {
  }

  /** `search_response`. Keys are the names, in every state the loader accepts, so the map's order is the
      order by name. */
  method Search(ops: Semver, registry: Registry, query: Option<string>, limit: Option<nat>, offset: Option<nat>)
    returns (page: seq<SearchEntry>)
    requires LoaderAccepts(ops, registry)
    ensures page == Page(
              Matches(ops, registry, Lower(if query.Some? then query.value else "")),
              if offset.Some? then offset.value else 0,
              if limit.None? then DEFAULT_LIMIT else if limit.value <= PAGE_CAP then limit.value else PAGE_CAP)
  {
    hide *;
    var needle := Lower(if query.Some? then query.value else "");
    var capped := if limit.None? then DEFAULT_LIMIT else if limit.value <= PAGE_CAP then limit.value else PAGE_CAP;
    var matches := MatchesOf(ops, registry, needle);
    page := Page(matches, if offset.Some? then offset.value else 0, capped);
  }

  // ----- the client's loop -----

  predicate HasLiveVersion(package: StoredPackage) {
    exists v | v in package.versions :: !v.yanked
  }

  lemma EntryIffLive(ops: Semver, registry: Registry, name: string)
    requires ops.Lawful() && LoaderAccepts(ops, registry) && name in registry
    ensures var entry := EntryOf(ops, registry[name], "");
            && (entry.Some? <==> HasLiveVersion(registry[name]))
            && (entry.Some? ==> entry.value.name == name)
  {
    var package := registry[name];
    assert LoaderAcceptsPackage(ops, name, package);
    LatestIsLatest(ops, package.versions, None);
    assert forall v | v in package.versions :: LoaderAcceptsVersion(ops, v);
    if HasLiveVersion(package) {
      var v :| v in package.versions && !v.yanked;
      assert Candidate(ops, v, None);
    } else {
      assert forall v | v in package.versions :: !Candidate(ops, v, None);
    }
  }

  function NamesOf(entries: seq<SearchEntry>): (r: set<string>)
    ensures forall x :: x in r <==> exists i | 0 <= i < |entries| :: entries[i].name == x
  {
    set i | 0 <= i < |entries| :: entries[i].name
  }

  function Live(registry: Registry, names: seq<string>): (r: set<string>)
    requires forall name | name in names :: name in registry
  {
    set name | name in names && HasLiveVersion(registry[name])
  }

  lemma {:induction false} EntriesAreTheLive(ops: Semver, registry: Registry, names: seq<string>)
    requires ops.Lawful() && LoaderAccepts(ops, registry)
    requires forall name | name in names :: name in registry
    ensures NamesOf(Entries(ops, registry, "", names)) == Live(registry, names)
  {
    if names != [] {
      EntriesAreTheLive(ops, registry, names[1..]);
      EntryIffLive(ops, registry, names[0]);
      var rest := Entries(ops, registry, "", names[1..]);
      var entry := EntryOf(ops, registry[names[0]], "");
      var all := Entries(ops, registry, "", names);
      assert forall name :: name in names <==> name == names[0] || name in names[1..];
      hide HasLiveVersion, EntryOf;
      if entry.Some? {
        assert all == [entry.value] + rest;
        NamesOfConcat([entry.value], rest);
        assert NamesOf([entry.value]) == {names[0]} by { assert [entry.value][0] == entry.value; }
      } else {
        assert all == rest;
      }
    }
  }

  lemma NamesOfConcat(a: seq<SearchEntry>, b: seq<SearchEntry>)
    ensures NamesOf(a + b) == NamesOf(a) + NamesOf(b)
  {
    forall x | x in NamesOf(a) + NamesOf(b) ensures x in NamesOf(a + b) {
      if x in NamesOf(a) {
        var i :| 0 <= i < |a| && a[i].name == x;
        assert (a + b)[i].name == x;
      } else {
        var i :| 0 <= i < |b| && b[i].name == x;
        assert (a + b)[|a| + i].name == x;
      }
    }
  }

  lemma PageExtends(all: seq<SearchEntry>, offset: nat, limit: nat)
    requires offset <= |all|
    ensures var page := Page(all, offset, limit);
            if |page| < limit then all[..offset] + page == all
            else offset + limit <= |all| && all[..offset] + page == all[..offset + limit]
    ensures NamesOf(all[..offset] + Page(all, offset, limit)) == NamesOf(all[..offset]) + NamesOf(Page(all, offset, limit))
  {
    NamesOfConcat(all[..offset], Page(all, offset, limit));
  }

  /** Checks the names of a page and adds them to those found before. */
  method Collect(found: set<string>, page: seq<SearchEntry>) returns (r: Option<set<string>>)
    ensures r.Some? <==> forall entry | entry in page :: ValidPackageName(entry.name)
    ensures r.Some? ==> r.value == found + NamesOf(page)
  {
    hide ValidPackageName;
    var names, i := found, 0;
    while i < |page|
      invariant i <= |page|
      invariant names == found + NamesOf(page[..i])
      invariant forall k | 0 <= k < i :: ValidPackageName(page[k].name)
    {
      if !ValidPackageName(page[i].name) {
        assert page[i] in page;
        return None;
      }
      assert page[..i + 1] == page[..i] + [page[i]];
      NamesOfConcat(page[..i], [page[i]]);
      assert NamesOf([page[i]]) == {page[i].name} by { assert [page[i]][0] == page[i]; }
      names := names + {page[i].name};
      i := i + 1;
    }
    assert page[..i] == page;
    r := Some(names);
  }

  /** The answer with the page after so many full ones is not longer than what the client reads. */
  predicate PageFits(size: seq<SearchEntry> -> nat, all: seq<SearchEntry>, full: nat) {
    size(Page(all, PAGE_CAP * full, PAGE_CAP)) <= MAX_SEARCH_BYTES
  }

  /** Every page that is asked for fits. */
  ghost predicate PagesFit(size: seq<SearchEntry> -> nat, all: seq<SearchEntry>) {
    forall full: nat | PAGE_CAP * full <= |all| :: PageFits(size, all, full)
  }

  /** The loop of `mirror`: it ends, and if every page it asks for is short enough, and only then, it succeeds;
      it has then found exactly the packages with a version that is not yanked. */
  method Mirror(ops: Semver, size: seq<SearchEntry> -> nat, registry: Registry) returns (r: Result<set<string>, ()>)
    requires ops.Lawful() && LoaderAccepts(ops, registry)
    ensures r.Ok? <==> PagesFit(size, Matches(ops, registry, ""))
    ensures r.Ok? ==> r.value == set name | name in registry && HasLiveVersion(registry[name])
  {
    hide *;
    ghost var all, full := Matches(ops, registry, ""), 0;
    var limit := 100;
    var found, offset, more := {}, 0, true;
    MirrorStarts(size, all);
    while more
      invariant MirrorAt(size, all, found, offset, more, full)
      invariant more ==> offset <= |all|
      decreases |all| - offset, more
    {
      var page := SearchAll(ops, registry, limit, offset);
      FullPages(size, all, found, offset, more, full);
      if size(page) > MAX_SEARCH_BYTES {
        PagesDontFit(size, all, full);
        return Err(());
      }
      AllNamesValid(ops, registry, page, offset);
      MirrorStep(size, all, found, offset, full);
      var collected := Collect(found, page);
      if collected.None? { return Err(()); }
      found := collected.value;
      if |page| < limit {
        more := false;
      } else {
        offset := offset + limit;
        full := full + 1;
      }
    }
    MirrorEnds(ops, size, registry, found, offset, full);
    r := Ok(found);
  }

  /** The search without a query. */
  method SearchAll(ops: Semver, registry: Registry, limit: nat, offset: nat) returns (page: seq<SearchEntry>)
    requires LoaderAccepts(ops, registry) && limit == 100
    ensures page == Page(Matches(ops, registry, ""), offset, 100)
  {
    hide Matches, Page, LoaderAccepts;
    assert Lower("") == "";
    page := Search(ops, registry, Some(""), Some(limit), Some(offset));
  }

  /** Where the loop stands after so many full pages. */
  predicate MirrorAt(size: seq<SearchEntry> -> nat, all: seq<SearchEntry>, found: set<string>, offset: nat, more: bool,
                     full: nat)
  {
    && offset == PAGE_CAP * full
    && (forall k: nat | k < full :: PageFits(size, all, k))
    && (if more then offset <= |all| && found == NamesOf(all[..offset])
        else |all| < offset + PAGE_CAP && PageFits(size, all, full) && found == NamesOf(all))
  }

  lemma MirrorStarts(size: seq<SearchEntry> -> nat, all: seq<SearchEntry>)
    ensures MirrorAt(size, all, {}, 0, true, 0)
  {
    assert NamesOf(all[..0]) == {};
  }

  lemma FullPages(size: seq<SearchEntry> -> nat, all: seq<SearchEntry>, found: set<string>, offset: nat, more: bool,
                  full: nat)
    requires MirrorAt(size, all, found, offset, more, full) && more
    ensures PAGE_CAP * full <= |all|
    ensures PageFits(size, all, full) <==> size(Page(all, offset, 100)) <= MAX_SEARCH_BYTES
  {
  }

  lemma MirrorStep(size: seq<SearchEntry> -> nat, all: seq<SearchEntry>, found: set<string>, offset: nat, full: nat)
    requires MirrorAt(size, all, found, offset, true, full) && PageFits(size, all, full)
    ensures var page := Page(all, offset, 100);
            if |page| < 100 then MirrorAt(size, all, found + NamesOf(page), offset, false, full)
            else MirrorAt(size, all, found + NamesOf(page), offset + 100, true, full + 1) && offset + 100 <= |all|
  {
    hide PageFits;
    PageExtends(all, offset, 100);
  }

  lemma MirrorEnds(ops: Semver, size: seq<SearchEntry> -> nat, registry: Registry, found: set<string>, offset: nat,
                   full: nat)
    requires ops.Lawful() && LoaderAccepts(ops, registry)
    requires MirrorAt(size, Matches(ops, registry, ""), found, offset, false, full)
    ensures PagesFit(size, Matches(ops, registry, ""))
    ensures found == set name | name in registry && HasLiveVersion(registry[name])
  {
    hide PageFits, PagesFit, Live, HasLiveVersion, LoaderAccepts;
    PagesAllFit(size, Matches(ops, registry, ""), full);
    EntriesAreTheLive(ops, registry, Listed(registry.Keys));
    AllLive(registry);
  }

  lemma PagesDontFit(size: seq<SearchEntry> -> nat, all: seq<SearchEntry>, full: nat)
    requires PAGE_CAP * full <= |all| && !PageFits(size, all, full)
    ensures !PagesFit(size, all)
  {
  }

  lemma PagesAllFit(size: seq<SearchEntry> -> nat, all: seq<SearchEntry>, full: nat)
    requires |all| < PAGE_CAP * full + PAGE_CAP && forall k: nat | k <= full :: PageFits(size, all, k)
    ensures PagesFit(size, all)
  {
    forall k: nat | PAGE_CAP * k <= |all| ensures PageFits(size, all, k) {
      assert k <= full;
    }
  }

  lemma AllLive(registry: Registry)
    ensures Live(registry, Listed(registry.Keys)) == set name | name in registry && HasLiveVersion(registry[name])
  {
    assert forall name :: name in Elements(Listed(registry.Keys)) <==> name in registry.Keys;
  }

  lemma AllNamesValid(ops: Semver, registry: Registry, page: seq<SearchEntry>, offset: nat)
    requires ops.Lawful() && LoaderAccepts(ops, registry)
    requires page == Page(Matches(ops, registry, ""), offset, 100)
    ensures forall entry | entry in page :: ValidPackageName(entry.name)
  {
    var all := Matches(ops, registry, "");
    EntriesAreTheLive(ops, registry, Listed(registry.Keys));
    forall i | 0 <= i < |page| ensures ValidPackageName(page[i].name) {
      assert page[i] == all[offset + i] && page[i].name in NamesOf(all);
      assert LoaderAcceptsPackage(ops, page[i].name, registry[page[i].name]);
    }
  }
}
