// Linking library addresses into contract bytecode, on hexadecimal strings.
module Linker {
  datatype Fixup = Fixup(start: nat, length: nat)

  // The entries of `linkReferences`: file, then library, then fixups, in iteration order.
  type FileReferences = seq<(string, seq<Fixup>)>
  type LinkReferences = seq<(string, FileReferences)>

  // One place to patch, with the library it wants.
  datatype Site = Site(lib: string, fixup: Fixup)
  {
    function From(): nat {
      2 + fixup.start * 2
    }

    function To(): nat {
      2 + (fixup.start + fixup.length) * 2
    }
  }

  type Libraries = map<string, string>

  /** `s.substr(0, n)` and `s.substr(n)`: both stop at the end of the string. */
  function Head(s: string, n: nat): string {
    if n <= |s| then s[..n] else s
  }

  function Tail(s: string, n: nat): string {
    if n <= |s| then s[n..] else []
  }

  /** Cut anywhere, even past its end, a string is its two parts. */
  lemma Cut(s: string, n: nat)
    ensures Head(s, n) + Tail(s, n) == s
    ensures |Head(s, n)| == if n <= |s| then n else |s|
  {
  }

  /** One splice; a library without an address leaves the bytecode as it is. */
  function Patch(bytecode: string, site: Site, libraries: Libraries): string {
    if site.lib !in libraries then bytecode
    else Head(bytecode, site.From()) + Tail(libraries[site.lib], 2) + Tail(bytecode, site.To())
  }

  function PatchAll(bytecode: string, sites: seq<Site>, libraries: Libraries): string {
    if sites == [] then bytecode
    else Patch(PatchAll(bytecode, sites[..|sites| - 1], libraries), sites[|sites| - 1], libraries)
  }

  lemma {:induction false} PatchAllConcat(bytecode: string, a: seq<Site>, b: seq<Site>, libraries: Libraries)
    ensures PatchAll(bytecode, a + b, libraries) == PatchAll(PatchAll(bytecode, a, libraries), b, libraries)
    decreases |b|
  {
    if b == [] {
      assert a + b == a;
    } else {
      assert (a + b)[..|a + b| - 1] == a + b[..|b| - 1];
      PatchAllConcat(bytecode, a, b[..|b| - 1], libraries);
    }
  }

  // ---------------------------------------------------------------------------
  // The sites of an artifact, in iteration order
  // ---------------------------------------------------------------------------

  function SitesOfLibrary(lib: string, fixups: seq<Fixup>): seq<Site> {
    seq(|fixups|, i requires 0 <= i < |fixups| => Site(lib, fixups[i]))
  }

  function SitesOfFile(references: FileReferences): seq<Site> {
    if references == [] then []
    else
      var (lib, fixups) := references[|references| - 1];
      SitesOfFile(references[..|references| - 1]) + SitesOfLibrary(lib, fixups)
  }

  function SitesOf(references: LinkReferences): seq<Site> {
    if references == [] then []
    else SitesOf(references[..|references| - 1]) + SitesOfFile(references[|references| - 1].1)
  }

  lemma PatchAllStep(start: string, sites: seq<Site>, k: nat, libraries: Libraries)
    requires k < |sites|
    ensures PatchAll(start, sites[..k + 1], libraries) == Patch(PatchAll(start, sites[..k], libraries), sites[k], libraries)
  {
    assert sites[..k + 1][..k] == sites[..k];
  }

  lemma PatchOf(bytecode: string, lib: string, fixup: Fixup, libraries: Libraries)
    requires lib in libraries
    ensures Patch(bytecode, Site(lib, fixup), libraries) ==
            Head(bytecode, 2 + fixup.start * 2) + Tail(libraries[lib], 2) + Tail(bytecode, 2 + (fixup.start + fixup.length) * 2)
  {
  }

  method LinkLibrary(start: string, lib: string, fixups: seq<Fixup>, libraries: Libraries) returns (bytecode: string)
    ensures bytecode == PatchAll(start, SitesOfLibrary(lib, fixups), libraries)
  {
    bytecode := start;
    ghost var sites := SitesOfLibrary(lib, fixups);
    if lib !in libraries {
      NothingToPatch(start, sites, libraries);
      return;
    }
    var addr := libraries[lib];
    for k := 0 to |fixups|
      invariant bytecode == PatchAll(start, sites[..k], libraries)
    {
      var fixup := fixups[k];
      PatchAllStep(start, sites, k, libraries);
      PatchOf(bytecode, lib, fixup, libraries);
      bytecode := Head(bytecode, 2 + fixup.start * 2) + Tail(addr, 2) + Tail(bytecode, 2 + (fixup.start + fixup.length) * 2);
    }
    assert sites[..|fixups|] == sites;
  }

  lemma {:induction false} NothingToPatch(bytecode: string, sites: seq<Site>, libraries: Libraries)
    requires forall k | 0 <= k < |sites| :: sites[k].lib !in libraries
    ensures PatchAll(bytecode, sites, libraries) == bytecode
    decreases |sites|
  {
    if sites != [] {
      NothingToPatch(bytecode, sites[..|sites| - 1], libraries);
    }
  }

  method LinkBytecode(start: string, references: LinkReferences, libraries: Libraries) returns (bytecode: string)
    ensures bytecode == PatchAll(start, SitesOf(references), libraries)
    ensures Linkable(start, references, libraries) ==> Linked(bytecode, start, references, libraries)
  {
    bytecode := start;
    for i := 0 to |references|
      invariant bytecode == PatchAll(start, SitesOf(references[..i]), libraries)
    {
      var file := references[i].1;
      ghost var before := bytecode;
      for j := 0 to |file|
        invariant bytecode == PatchAll(before, SitesOfFile(file[..j]), libraries)
      {
        assert file[..j + 1][..j] == file[..j];
        PatchAllConcat(before, SitesOfFile(file[..j]), SitesOfLibrary(file[j].0, file[j].1), libraries);
        bytecode := LinkLibrary(bytecode, file[j].0, file[j].1, libraries);
      }
      assert file[..|file|] == file;
      assert references[..i + 1][..i] == references[..i];
      PatchAllConcat(start, SitesOf(references[..i]), SitesOfFile(file), libraries);
    }
    assert references[..|references|] == references;
    LinksReferences(start, references, libraries);
  }

  // ---------------------------------------------------------------------------
  // Linking is simultaneous substitution
  // ---------------------------------------------------------------------------

  /** The site lies inside the bytecode and its address, if known, has the length of the placeholder. */
  predicate Fits(bytecode: string, site: Site, libraries: Libraries) {
    && site.To() <= |bytecode|
    && (site.lib in libraries ==> |libraries[site.lib]| == 2 + 2 * site.fixup.length)
  }

  /** The same site may be listed twice. */
  predicate Apart(a: Site, b: Site) {
    a == b || a.To() <= b.From() || b.To() <= a.From()
  }

  predicate WellPlaced(bytecode: string, sites: seq<Site>, libraries: Libraries) {
    && (forall k | 0 <= k < |sites| :: Fits(bytecode, sites[k], libraries))
    && (forall j, k | 0 <= j < k < |sites| :: Apart(sites[j], sites[k]))
  }

  /** A site of an unresolved library keeps its placeholder, any other shows its library's address. */
  predicate Shows(linked: string, bytecode: string, site: Site, libraries: Libraries)
    requires |linked| == |bytecode| && Fits(bytecode, site, libraries)
  {
    linked[site.From()..site.To()] ==
    if site.lib in libraries then libraries[site.lib][2..] else bytecode[site.From()..site.To()]
  }

  /** Position `p` belongs to no site. */
  predicate Outside(p: nat, sites: seq<Site>) {
    forall k | 0 <= k < |sites| :: p < sites[k].From() || sites[k].To() <= p
  }

  /** Every site shows what it should and every other character is that of the original. */
  predicate Substituted(linked: string, bytecode: string, sites: seq<Site>, libraries: Libraries)
    requires WellPlaced(bytecode, sites, libraries)
  {
    && |linked| == |bytecode|
    && (forall k | 0 <= k < |sites| :: Shows(linked, bytecode, sites[k], libraries))
    && (forall p | 0 <= p < |bytecode| && Outside(p, sites) :: linked[p] == bytecode[p])
  }

  /** One splice rewrites its own range and nothing else. */
  lemma PatchIsLocal(bytecode: string, site: Site, libraries: Libraries)
    requires Fits(bytecode, site, libraries)
    ensures var patched := Patch(bytecode, site, libraries);
            && |patched| == |bytecode|
            && Shows(patched, bytecode, site, libraries)
            && (forall p | 0 <= p < |bytecode| && (p < site.From() || site.To() <= p) :: patched[p] == bytecode[p])
  {
  }

  lemma LastSiteApart(bytecode: string, sites: seq<Site>, libraries: Libraries, p: nat)
    requires sites != [] && WellPlaced(bytecode, sites, libraries)
    requires sites[|sites| - 1] !in sites[..|sites| - 1]
    requires sites[|sites| - 1].From() <= p < sites[|sites| - 1].To()
    ensures Outside(p, sites[..|sites| - 1])
  {
    forall k | 0 <= k < |sites| - 1
      ensures p < sites[k].From() || sites[k].To() <= p
    {
      assert Apart(sites[k], sites[|sites| - 1]) && sites[k] in sites[..|sites| - 1];
    }
  }

  /** What holds of the last site before it is patched. */
  lemma LastSiteBefore(middle: string, bytecode: string, sites: seq<Site>, libraries: Libraries)
    requires sites != [] && WellPlaced(bytecode, sites, libraries)
    requires Substituted(middle, bytecode, sites[..|sites| - 1], libraries)
    ensures sites[|sites| - 1].lib !in libraries ==> Shows(middle, bytecode, sites[|sites| - 1], libraries)
  {
    var last, front := sites[|sites| - 1], sites[..|sites| - 1];
    if last in front {
      var k :| 0 <= k < |front| && front[k] == last;
      assert Shows(middle, bytecode, front[k], libraries);
    } else {
      forall p | last.From() <= p < last.To()
        ensures middle[p] == bytecode[p]
      {
        LastSiteApart(bytecode, sites, libraries, p);
      }
      assert middle[last.From()..last.To()] == bytecode[last.From()..last.To()];
    }
  }

  lemma LastSiteShown(middle: string, bytecode: string, sites: seq<Site>, libraries: Libraries)
    requires sites != [] && WellPlaced(bytecode, sites, libraries)
    requires Substituted(middle, bytecode, sites[..|sites| - 1], libraries)
    ensures var last := sites[|sites| - 1];
            |Patch(middle, last, libraries)| == |bytecode| && Shows(Patch(middle, last, libraries), bytecode, last, libraries)
  {
    PatchIsLocal(middle, sites[|sites| - 1], libraries);
    LastSiteBefore(middle, bytecode, sites, libraries);
  }

  lemma EarlierSitesKept(middle: string, linked: string, bytecode: string, sites: seq<Site>, libraries: Libraries, k: nat)
    requires sites != [] && WellPlaced(bytecode, sites, libraries) && k < |sites| - 1
    requires Substituted(middle, bytecode, sites[..|sites| - 1], libraries)
    requires linked == Patch(middle, sites[|sites| - 1], libraries)
    ensures |linked| == |bytecode| && Shows(linked, bytecode, sites[k], libraries)
  {
    var site := sites[k];
    assert sites[..|sites| - 1][k] == site && Shows(middle, bytecode, site, libraries);
    assert Apart(site, sites[|sites| - 1]);
    PatchIsLocal(middle, sites[|sites| - 1], libraries);
    if site == sites[|sites| - 1] {
      LastSiteShown(middle, bytecode, sites, libraries);
    } else {
      assert linked[site.From()..site.To()] == middle[site.From()..site.To()];
    }
  }

  lemma OutsidePrefix(p: nat, sites: seq<Site>)
    requires sites != [] && Outside(p, sites)
    ensures Outside(p, sites[..|sites| - 1])
    ensures p < sites[|sites| - 1].From() || sites[|sites| - 1].To() <= p
  {
    var front := sites[..|sites| - 1];
    forall k | 0 <= k < |front|
      ensures p < front[k].From() || front[k].To() <= p
    {
      assert front[k] == sites[k];
    }
  }

  lemma RestKept(middle: string, linked: string, bytecode: string, sites: seq<Site>, libraries: Libraries, p: nat)
    requires sites != [] && WellPlaced(bytecode, sites, libraries) && p < |bytecode| && Outside(p, sites)
    requires Substituted(middle, bytecode, sites[..|sites| - 1], libraries)
    requires linked == Patch(middle, sites[|sites| - 1], libraries)
    ensures |linked| == |bytecode| && linked[p] == bytecode[p]
  {
    OutsidePrefix(p, sites);
    PatchIsLocal(middle, sites[|sites| - 1], libraries);
  }

  lemma LastPatch(middle: string, linked: string, bytecode: string, sites: seq<Site>, libraries: Libraries)
    requires sites != [] && WellPlaced(bytecode, sites, libraries)
    requires Substituted(middle, bytecode, sites[..|sites| - 1], libraries)
    requires linked == Patch(middle, sites[|sites| - 1], libraries)
    ensures Substituted(linked, bytecode, sites, libraries)
  {
    LastSiteShown(middle, bytecode, sites, libraries);
    forall k | 0 <= k < |sites|
      ensures Shows(linked, bytecode, sites[k], libraries)
    {
      if k < |sites| - 1 {
        EarlierSitesKept(middle, linked, bytecode, sites, libraries, k);
      }
    }
    forall p: nat | p < |bytecode| && Outside(p, sites)
      ensures linked[p] == bytecode[p]
    {
      RestKept(middle, linked, bytecode, sites, libraries, p);
    }
  }

  /** For sites inside the bytecode, pairwise equal or disjoint, whose addresses have their length, linking is
      substitution at all sites at once. */
  lemma {:induction false} LinkingSubstitutes(bytecode: string, sites: seq<Site>, libraries: Libraries)
    requires WellPlaced(bytecode, sites, libraries)
    ensures Substituted(PatchAll(bytecode, sites, libraries), bytecode, sites, libraries)
    decreases |sites|
  {
    if sites != [] {
      var front := sites[..|sites| - 1];
      LinkingSubstitutes(bytecode, front, libraries);
      LastPatch(PatchAll(bytecode, front, libraries), PatchAll(bytecode, sites, libraries), bytecode, sites, libraries);
    }
  }

  lemma SameCoverage(a: seq<Site>, b: seq<Site>, p: nat)
    requires forall site :: site in a <==> site in b
    requires Outside(p, a)
    ensures Outside(p, b)
  {
    forall k | 0 <= k < |b|
      ensures p < b[k].From() || b[k].To() <= p
    {
      assert b[k] in a;
    }
  }

  /** The order in which the sites are visited does not matter. */
  lemma OrderIrrelevant(bytecode: string, a: seq<Site>, b: seq<Site>, libraries: Libraries)
    requires WellPlaced(bytecode, a, libraries) && WellPlaced(bytecode, b, libraries)
    requires forall site :: site in a <==> site in b
    ensures PatchAll(bytecode, a, libraries) == PatchAll(bytecode, b, libraries)
  {
    LinkingSubstitutes(bytecode, a, libraries);
    LinkingSubstitutes(bytecode, b, libraries);
    var x, y := PatchAll(bytecode, a, libraries), PatchAll(bytecode, b, libraries);
    forall p: nat | p < |bytecode|
      ensures x[p] == y[p]
    {
      if Outside(p, a) {
        SameCoverage(a, b, p);
      } else {
        var k :| 0 <= k < |a| && a[k].From() <= p < a[k].To();
        assert a[k] in b;
        var m :| 0 <= m < |b| && b[m] == a[k];
        assert Shows(y, bytecode, b[m], libraries);
        ShownAlike(bytecode, a[k], libraries, x, y, p);
      }
    }
  }

  lemma ShownAlike(bytecode: string, site: Site, libraries: Libraries, x: string, y: string, p: nat)
    requires |x| == |y| == |bytecode| && Fits(bytecode, site, libraries) && site.From() <= p < site.To()
    requires Shows(x, bytecode, site, libraries) && Shows(y, bytecode, site, libraries)
    ensures x[p] == y[p]
  {
    SameInside(x, y, site.From(), site.To(), p);
  }

  // ---------------------------------------------------------------------------
  // In terms of the artifact's references
  // ---------------------------------------------------------------------------

  predicate ListedInFile(file: FileReferences, lib: string, f: Fixup) {
    exists j | 0 <= j < |file| :: file[j].0 == lib && f in file[j].1
  }

  /** Some file lists `f` among the fixups of `lib`. */
  predicate Listed(references: LinkReferences, lib: string, f: Fixup) {
    exists i | 0 <= i < |references| :: ListedInFile(references[i].1, lib, f)
  }

  lemma LibrarySites(lib: string, fixups: seq<Fixup>, site: Site)
    ensures site in SitesOfLibrary(lib, fixups) <==> site.lib == lib && site.fixup in fixups
  {
    if site.lib == lib && site.fixup in fixups {
      var k :| 0 <= k < |fixups| && fixups[k] == site.fixup;
      assert SitesOfLibrary(lib, fixups)[k] == site;
    }
  }

  lemma {:induction false} FileSites(file: FileReferences, site: Site)
    ensures site in SitesOfFile(file) <==> ListedInFile(file, site.lib, site.fixup)
    decreases |file|
  {
    if file != [] {
      var n := |file| - 1;
      FileSites(file[..n], site);
      LibrarySites(file[n].0, file[n].1, site);
      assert forall j | 0 <= j < n :: file[..n][j] == file[j];
    }
  }

  lemma ListedSplits(references: LinkReferences, lib: string, f: Fixup)
    requires references != []
    ensures Listed(references, lib, f) <==>
              Listed(references[..|references| - 1], lib, f) || ListedInFile(references[|references| - 1].1, lib, f)
  {
    var front := references[..|references| - 1];
    assert forall i | 0 <= i < |front| :: front[i] == references[i];
  }

  /** The sites that linking visits are exactly the fixups that the artifact lists. */
  lemma {:induction false} SitesAreListed(references: LinkReferences, site: Site)
    ensures site in SitesOf(references) <==> Listed(references, site.lib, site.fixup)
    decreases |references|
  {
    if references != [] {
      var n := |references| - 1;
      SitesAreListed(references[..n], site);
      FileSites(references[n].1, site);
      ListedSplits(references, site.lib, site.fixup);
    }
  }

  /** Every listed fixup lies in the bytecode, its library's address has its length, and two listed fixups
      either are the same entry or do not overlap. */
  ghost predicate Linkable(bytecode: string, references: LinkReferences, libraries: Libraries) {
    && (forall lib, f | Listed(references, lib, f) ::
          && 2 + 2 * (f.start + f.length) <= |bytecode|
          && (lib in libraries ==> |libraries[lib]| == 2 + 2 * f.length))
    && (forall lib, f, lib', f' | Listed(references, lib, f) && Listed(references, lib', f') ::
          (lib == lib' && f == f') || f.start + f.length <= f'.start || f'.start + f'.length <= f.start)
  }

  /** Every listed fixup of a library with an address shows the address, every other character is the original's. */
  ghost predicate Linked(linked: string, bytecode: string, references: LinkReferences, libraries: Libraries) {
    && |linked| == |bytecode|
    && (forall lib, f | Listed(references, lib, f) && lib in libraries ::
          && 2 + 2 * (f.start + f.length) <= |linked| && |libraries[lib]| >= 2
          && linked[2 + 2 * f.start..2 + 2 * (f.start + f.length)] == libraries[lib][2..])
    && (forall p | 0 <= p < |bytecode| && Unlisted(p, references, libraries) :: linked[p] == bytecode[p])
  }

  /** No fixup of a library with an address covers `p`. */
  ghost predicate Unlisted(p: nat, references: LinkReferences, libraries: Libraries) {
    forall lib, f | Listed(references, lib, f) && lib in libraries ::
      p < 2 + 2 * f.start || 2 + 2 * (f.start + f.length) <= p
  }

  lemma LinkableSites(bytecode: string, references: LinkReferences, libraries: Libraries)
    requires Linkable(bytecode, references, libraries)
    ensures WellPlaced(bytecode, SitesOf(references), libraries)
  {
    var sites := SitesOf(references);
    forall k | 0 <= k < |sites|
      ensures Fits(bytecode, sites[k], libraries)
    {
      SitesAreListed(references, sites[k]);
    }
    forall j, k | 0 <= j < k < |sites|
      ensures Apart(sites[j], sites[k])
    {
      SitesAreListed(references, sites[j]);
      SitesAreListed(references, sites[k]);
    }
  }

  lemma SameInside(x: string, y: string, from: nat, to: nat, p: nat)
    requires from <= p < to <= |x| == |y| && x[from..to] == y[from..to]
    ensures x[p] == y[p]
  {
    assert x[p] == x[from..to][p - from] && y[p] == y[from..to][p - from];
  }

  lemma UnlistedKept(linked: string, bytecode: string, references: LinkReferences, libraries: Libraries, p: nat)
    requires WellPlaced(bytecode, SitesOf(references), libraries)
    requires Substituted(linked, bytecode, SitesOf(references), libraries)
    requires p < |bytecode| && Unlisted(p, references, libraries)
    ensures linked[p] == bytecode[p]
  {
    var sites := SitesOf(references);
    if !Outside(p, sites) {
      var k :| 0 <= k < |sites| && sites[k].From() <= p < sites[k].To();
      var site := sites[k];
      SitesAreListed(references, site);
      assert site.lib !in libraries;
      assert Shows(linked, bytecode, sites[k], libraries);
      SameInside(linked, bytecode, site.From(), site.To(), p);
    }
  }

  lemma ListedShown(linked: string, bytecode: string, references: LinkReferences, libraries: Libraries,
                    lib: string, f: Fixup)
    requires WellPlaced(bytecode, SitesOf(references), libraries)
    requires Substituted(linked, bytecode, SitesOf(references), libraries)
    requires Listed(references, lib, f) && lib in libraries
    ensures 2 + 2 * (f.start + f.length) <= |linked| && |libraries[lib]| >= 2
    ensures linked[2 + 2 * f.start..2 + 2 * (f.start + f.length)] == libraries[lib][2..]
  {
    var sites, site := SitesOf(references), Site(lib, f);
    SitesAreListed(references, site);
    var k :| 0 <= k < |sites| && sites[k] == site;
    assert Shows(linked, bytecode, sites[k], libraries);
  }

  /** Linking puts every library's address at every fixup the artifact lists for it, and changes nothing else. */
  lemma LinksReferences(bytecode: string, references: LinkReferences, libraries: Libraries)
    ensures Linkable(bytecode, references, libraries) ==>
              Linked(PatchAll(bytecode, SitesOf(references), libraries), bytecode, references, libraries)
  {
    if Linkable(bytecode, references, libraries) {
      var linked := PatchAll(bytecode, SitesOf(references), libraries);
      LinkableSites(bytecode, references, libraries);
      LinkingSubstitutes(bytecode, SitesOf(references), libraries);
      forall lib, f | Listed(references, lib, f) && lib in libraries
        ensures && 2 + 2 * (f.start + f.length) <= |linked| && |libraries[lib]| >= 2
                && linked[2 + 2 * f.start..2 + 2 * (f.start + f.length)] == libraries[lib][2..]
      {
        ListedShown(linked, bytecode, references, libraries, lib, f);
      }
      forall p: nat | p < |bytecode| && Unlisted(p, references, libraries)
        ensures linked[p] == bytecode[p]
      {
        UnlistedKept(linked, bytecode, references, libraries, p);
      }
    }
  }

  // ---------------------------------------------------------------------------
  // The order of the loops, which matters where fixups overlap or addresses have other lengths
  // ---------------------------------------------------------------------------

  lemma FirstSite(bytecode: string, first: seq<Site>, all: seq<Site>, rest: seq<Site>, libraries: Libraries)
    requires all == first + rest
    ensures PatchAll(bytecode, all, libraries) == PatchAll(PatchAll(bytecode, first, libraries), rest, libraries)
  {
    PatchAllConcat(bytecode, first, rest, libraries);
  }

  lemma OnePatch(bytecode: string, site: Site, libraries: Libraries)
    ensures PatchAll(bytecode, [site], libraries) == Patch(bytecode, site, libraries)
  {
    assert [site][..0] == [];
  }

  lemma OneMorePatch(bytecode: string, site: Site, sites: seq<Site>, all: seq<Site>, libraries: Libraries)
    requires all == [site] + sites
    ensures PatchAll(bytecode, all, libraries) == PatchAll(Patch(bytecode, site, libraries), sites, libraries)
  {
    FirstSite(bytecode, [site], all, sites, libraries);
    OnePatch(bytecode, site, libraries);
  }

  lemma FirstFixup(lib: string, f: Fixup, rest: seq<Fixup>)
    ensures SitesOfLibrary(lib, [f] + rest) == [Site(lib, f)] + SitesOfLibrary(lib, rest)
  {
  }

  /** The fixups of a library are spliced first to last. */
  lemma FixupsInOrder(bytecode: string, lib: string, f: Fixup, rest: seq<Fixup>, libraries: Libraries)
    requires lib in libraries
    ensures var head, tail := Head(bytecode, 2 + f.start * 2), Tail(bytecode, 2 + (f.start + f.length) * 2);
            PatchAll(bytecode, SitesOfLibrary(lib, [f] + rest), libraries) ==
            PatchAll(head + Tail(libraries[lib], 2) + tail, SitesOfLibrary(lib, rest), libraries)
  {
    var all, site, sites := SitesOfLibrary(lib, [f] + rest), Site(lib, f), SitesOfLibrary(lib, rest);
    FirstFixup(lib, f, rest);
    OneMorePatch(bytecode, site, sites, all, libraries);
    PatchOf(bytecode, lib, f, libraries);
  }

  lemma LastOfLonger<T>(first: T, rest: seq<T>)
    requires rest != []
    ensures ([first] + rest)[..|[first] + rest| - 1] == [first] + rest[..|rest| - 1]
    ensures ([first] + rest)[|[first] + rest| - 1] == rest[|rest| - 1]
  {
  }

  lemma {:induction false} FileFromFront(first: (string, seq<Fixup>), rest: FileReferences)
    ensures SitesOfFile([first] + rest) == SitesOfLibrary(first.0, first.1) + SitesOfFile(rest)
    decreases |rest|
  {
    if rest == [] {
      assert [first] + rest == [first] && [first][..0] == [];
      assert SitesOfFile([]) == [];
    } else {
      LastOfLonger(first, rest);
      FileFromFront(first, rest[..|rest| - 1]);
    }
  }

  /** The libraries of a file are linked first to last. */
  lemma LibrariesInOrder(bytecode: string, first: (string, seq<Fixup>), rest: FileReferences, libraries: Libraries)
    ensures PatchAll(bytecode, SitesOfFile([first] + rest), libraries) ==
            PatchAll(PatchAll(bytecode, SitesOfLibrary(first.0, first.1), libraries), SitesOfFile(rest), libraries)
  {
    FileFromFront(first, rest);
    FirstSite(bytecode, SitesOfLibrary(first.0, first.1), SitesOfFile([first] + rest), SitesOfFile(rest), libraries);
  }

  lemma {:induction false} ArtifactFromFront(first: (string, FileReferences), rest: LinkReferences)
    ensures SitesOf([first] + rest) == SitesOfFile(first.1) + SitesOf(rest)
    decreases |rest|
  {
    if rest == [] {
      assert [first] + rest == [first] && [first][..0] == [];
      assert SitesOf([]) == [];
    } else {
      LastOfLonger(first, rest);
      ArtifactFromFront(first, rest[..|rest| - 1]);
    }
  }

  /** The files of an artifact are linked first to last. */
  lemma FilesInOrder(bytecode: string, first: (string, FileReferences), rest: LinkReferences, libraries: Libraries)
    ensures PatchAll(bytecode, SitesOf([first] + rest), libraries) ==
            PatchAll(PatchAll(bytecode, SitesOfFile(first.1), libraries), SitesOf(rest), libraries)
  {
    ArtifactFromFront(first, rest);
    FirstSite(bytecode, SitesOfFile(first.1), SitesOf([first] + rest), SitesOf(rest), libraries);
  }
}
