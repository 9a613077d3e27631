/** Project labels, corpus routing and delivery drops across daemon backends. */
module Routing {
  import opened Counting
  import opened Wrappers
  import opened Text
  import opened Sorting
  import opened Delivery

  const PRIMARY_CORPUS_ID := "primary"

  // ---------------------------------------------------------------- labels

  /** The characters with the Unicode property White_Space. */
  predicate IsSpace(c: char) {
    var n := c as int;
    || 0x09 <= n <= 0x0d || n == 0x20 || n == 0x85 || n == 0xa0 || n == 0x1680 || 0x2000 <= n <= 0x200a
    || n == 0x2028 || n == 0x2029 || n == 0x202f || n == 0x205f || n == 0x3000
  }

  /** There are 25 of them. */
  lemma SpacesExact(c: char)
    ensures IsSpace(c)
            <==> c as int in {0x09, 0x0a, 0x0b, 0x0c, 0x0d, 0x20, 0x85, 0xa0, 0x1680,
                              0x2000, 0x2001, 0x2002, 0x2003, 0x2004, 0x2005, 0x2006, 0x2007, 0x2008, 0x2009, 0x200a,
                              0x2028, 0x2029, 0x202f, 0x205f, 0x3000}
  {
  }

  function Trim(s: string): (t: string)
    ensures t != [] ==> !IsSpace(t[0]) && !IsSpace(t[|t| - 1])
    ensures |t| <= |s|
  {
    if s == [] then []
    else if IsSpace(s[0]) then Trim(s[1..])
    else if IsSpace(s[|s| - 1]) then Trim(s[..|s| - 1])
    else s
  }

  function LowerChar(c: char): char {
    if 'A' <= c <= 'Z' then ((c as int) + 32) as char else c
  }

  predicate EqIgnoreAsciiCase(a: string, b: string) {
    |a| == |b| && forall i :: 0 <= i < |a| ==> LowerChar(a[i]) == LowerChar(b[i])
  }

  /** One call of `PrimaryLabel::set`: only a first, non-blank label is recorded. */
  function AfterSet(held: Option<string>, name: string): Option<string> {
    if Trim(name) != [] && held.None? then Some(Trim(name)) else held
  }

  predicate LabelMatches(held: Option<string>, candidate: string) {
    held.Some? && EqIgnoreAsciiCase(held.value, Trim(candidate))
  }

  /** A label as stored: trimmed and not blank. */
  predicate StoredLabel(held: Option<string>) {
    held.Some? ==> held.value != [] && Trim(held.value) == held.value
  }

  function AfterSets(names: seq<string>): Option<string> {
    if names == [] then None else AfterSet(AfterSets(names[..|names| - 1]), names[|names| - 1])
  }

  lemma {:induction false} TrimIdempotent(s: string)
    ensures Trim(Trim(s)) == Trim(s)
  {
    if s != [] {
      if IsSpace(s[0]) {
        TrimIdempotent(s[1..]);
      } else if IsSpace(s[|s| - 1]) {
        TrimIdempotent(s[..|s| - 1]);
      }
    }
  }

  predicate Blank(s: string) {
    forall i :: 0 <= i < |s| ==> IsSpace(s[i])
  }

  /** Trimming takes blanks off both ends and nothing else. */
  lemma {:induction false} TrimCuts(s: string) returns (front: string, back: string)
    ensures Blank(front) && Blank(back) && s == front + Trim(s) + back
  {
    if s == [] {
      front, back := [], [];
    } else if IsSpace(s[0]) {
      front, back := TrimCuts(s[1..]);
      CutFirst(s, front, Trim(s[1..]), back);
      front := [s[0]] + front;
    } else if IsSpace(s[|s| - 1]) {
      front, back := TrimCuts(s[..|s| - 1]);
      CutLast(s, front, Trim(s[..|s| - 1]), back);
      back := back + [s[|s| - 1]];
    } else {
      front, back := [], [];
    }
  }

  lemma CutFirst(s: string, front: string, core: string, back: string)
    requires s != [] && s[1..] == front + core + back
    ensures s == ([s[0]] + front) + core + back
  {
    assert s == [s[0]] + s[1..];
  }

  lemma CutLast(s: string, front: string, core: string, back: string)
    requires s != [] && s[..|s| - 1] == front + core + back
    ensures s == front + core + (back + [s[|s| - 1]])
  {
    assert s == s[..|s| - 1] + [s[|s| - 1]];
  }

  predicate Bare(s: string) {
    s != [] && !IsSpace(s[0]) && !IsSpace(s[|s| - 1])
  }

  lemma {:induction false} TrimOf(front: string, core: string, back: string)
    requires Blank(front) && Blank(back) && Bare(core)
    ensures Trim(front + core + back) == core
  {
    var s := front + core + back;
    if front != [] {
      assert s[1..] == front[1..] + core + back;
      TrimOf(front[1..], core, back);
    } else if back != [] {
      assert s[0] == core[0] && s[|s| - 1] == back[|back| - 1];
      assert s[..|s| - 1] == front + core + back[..|back| - 1];
      TrimOf(front, core, back[..|back| - 1]);
    } else {
      assert s == core;
    }
  }

  /** The same character, or the same ASCII letter in the other case. */
  predicate SameLetter(a: char, b: char) {
    || a == b
    || ('A' <= a <= 'Z' && (b as int) == (a as int) + 32)
    || ('A' <= b <= 'Z' && (a as int) == (b as int) + 32)
  }

  predicate SameLetters(a: string, b: string) {
    |a| == |b| && forall i :: 0 <= i < |a| ==> SameLetter(a[i], b[i])
  }

  lemma CaseExact(a: string, b: string)
    ensures EqIgnoreAsciiCase(a, b) <==> SameLetters(a, b)
  {
    forall i | 0 <= i < |a| && i < |b| ensures LowerChar(a[i]) == LowerChar(b[i]) <==> SameLetter(a[i], b[i]) {
    }
  }

  /** `name` is the label, up to blanks around it and the case of ASCII letters. */
  ghost predicate Spells(name: string, stored: string) {
    exists front, core, back :: SpelledAs(name, stored, front, core, back)
  }

  predicate SpelledAs(name: string, stored: string, front: string, core: string, back: string) {
    Blank(front) && Blank(back) && name == front + core + back && SameLetters(stored, core)
  }

  /** A stored label matches exactly the spellings of it: surrounding blanks and ASCII case do not matter, anything
      else does. */
  lemma MatchExact(held: Option<string>, candidate: string)
    requires StoredLabel(held)
    ensures LabelMatches(held, candidate) <==> held.Some? && Spells(candidate, held.value)
  {
    if held.Some? {
      if LabelMatches(held, candidate) {
        var front, back := TrimCuts(candidate);
        CaseExact(held.value, Trim(candidate));
        assert SpelledAs(candidate, held.value, front, Trim(candidate), back);
      }
      if front, core, back :| SpelledAs(candidate, held.value, front, core, back) {
        StoredIsBare(held.value);
        TrimOf(front, core, back);
        CaseExact(held.value, core);
      }
    }
  }

  lemma StoredIsBare(stored: string)
    requires stored != [] && Trim(stored) == stored
    ensures Bare(stored)
  {
  }

  /** Whatever is set later, the first non-blank label stays. */
  lemma {:induction false} FirstLabelStays(names: seq<string>, i: nat)
    requires i < |names| && Trim(names[i]) != [] && forall k :: 0 <= k < i ==> Trim(names[k]) == []
    ensures AfterSets(names) == Some(Trim(names[i])) && StoredLabel(AfterSets(names))
  {
    TrimIdempotent(names[i]);
    var init := names[..|names| - 1];
    if i < |init| {
      FirstLabelStays(init, i);
    } else {
      AllBlank(init);
    }
  }

  lemma {:induction false} AllBlank(names: seq<string>)
    requires forall k :: 0 <= k < |names| ==> Trim(names[k]) == []
    ensures AfterSets(names) == None
  {
    if names != [] { AllBlank(names[..|names| - 1]); }
  }

  /** The set-once holder. */
  class PrimaryLabel {
    var cell: Option<string>
    /** Every label offered, oldest first. */
    ghost var offered: seq<string>

    ghost predicate Valid()
      reads this
    {
      cell == AfterSets(offered) && StoredLabel(cell)
    }

    constructor ()
      ensures Valid() && cell == None && offered == []
    {
      cell, offered := None, [];
    }

    method Set(name: string)
      requires Valid()
      modifies this
      ensures Valid() && offered == old(offered) + [name]
      ensures cell == old(AfterSet(cell, name))
      ensures old(cell).Some? ==> cell == old(cell)
    {
      TrimIdempotent(name);
      offered := offered + [name];
      assert offered[..|offered| - 1] == old(offered);
      if Trim(name) != [] {
        if cell.None? {
          cell := Some(Trim(name));
        }
      }
    }
  }

  // ---------------------------------------------------------------- the multi-corpus router

  datatype Daemon = Daemon(corpusId: string, sessionId: Option<string>)
  datatype Link = Link(name: string, daemon: Daemon)

  /** `links` lists the label map in its iteration order; labels are distinct. */
  datatype Router = Router(primary: Daemon, links: seq<Link>, primaryLabel: Option<string>)

  datatype UnknownProject = UnknownProject(requested: string, available: seq<string>)

  ghost predicate ValidRouter(r: Router) {
    && StoredLabel(r.primaryLabel)
    && forall i, j :: 0 <= i < j < |r.links| ==> r.links[i].name != r.links[j].name
  }

  function ByName(links: seq<Link>, name: string): (d: Option<Daemon>)
    ensures d.Some? <==> exists i :: 0 <= i < |links| && links[i].name == name
    ensures d.Some? ==> Link(name, d.value) in links
  {
    if links == [] then None
    else if links[0].name == name then Some(links[0].daemon)
    else
      assert forall i :: 0 < i < |links| ==> links[i] == links[1..][i - 1];
      ByName(links[1..], name)
  }

  function ByCorpus(links: seq<Link>, corpusId: string): (d: Option<Daemon>)
    ensures d.Some? <==> exists i :: 0 <= i < |links| && links[i].daemon.corpusId == corpusId
    ensures d.Some? ==> d.value.corpusId == corpusId && exists i :: 0 <= i < |links| && links[i].daemon == d.value
  {
    if links == [] then None
    else if links[0].daemon.corpusId == corpusId then assert links[0].daemon.corpusId == corpusId; Some(links[0].daemon)
    else
      assert forall i :: 0 < i < |links| ==> links[i] == links[1..][i - 1];
      ByCorpus(links[1..], corpusId)
  }

  predicate RouteIsPrimary(r: Router, name: string) {
    LabelMatches(r.primaryLabel, name) || r.primary.corpusId == name
  }

  predicate StringLe(a: string, b: string) {
    !Before(b, a)
  }

  function Names(links: seq<Link>): (names: seq<string>)
    ensures |names| == |links|
  {
    seq(|links|, i requires 0 <= i < |links| => links[i].name)
  }

  /** `labels`: the linked labels in lexical order. */
  function Labels(r: Router): seq<string> {
    Sort(StringLe, Names(r.links))
  }

  function AvailableRoutes(r: Router): seq<string> {
    (if r.primaryLabel.Some? then [r.primaryLabel.value] else []) + Labels(r)
  }

  /** `for_project`. */
  function ForProject(r: Router, project: Option<string>): Result<Daemon, UnknownProject> {
    match project
    case None => Ok(r.primary)
    case Some(name) =>
      match ByName(r.links, name)
      case Some(d) => Ok(d)
      case None =>
        if RouteIsPrimary(r, name) then Ok(r.primary)
        else
          match ByCorpus(r.links, name)
          case Some(d) => Ok(d)
          case None => Err(UnknownProject(name, AvailableRoutes(r)))
  }

  ghost predicate LinkedName(r: Router, name: string) {
    exists i :: 0 <= i < |r.links| && r.links[i].name == name
  }

  ghost predicate LinkedCorpus(r: Router, corpusId: string) {
    exists i :: 0 <= i < |r.links| && r.links[i].daemon.corpusId == corpusId
  }

  /** Not a linked label, and the primary's corpus id or a spelling of its label. */
  ghost predicate MeansPrimary(r: Router, name: string) {
    && !LinkedName(r, name)
    && (name == r.primary.corpusId || (r.primaryLabel.Some? && Spells(name, r.primaryLabel.value)))
  }

  /** No project is the primary; a linked label is its own backend and always wins; then come the primary's label and
      corpus id, then the corpus ids of linked backends; every other name is refused with the accepted routes. */
  lemma ResolutionExact(r: Router, name: string)
    requires ValidRouter(r)
    ensures ForProject(r, None) == Ok(r.primary)
    ensures forall i :: 0 <= i < |r.links| && r.links[i].name == name ==>
              ForProject(r, Some(name)) == Ok(r.links[i].daemon)
    ensures MeansPrimary(r, name) ==> ForProject(r, Some(name)) == Ok(r.primary)
    ensures !LinkedName(r, name) && !MeansPrimary(r, name) && LinkedCorpus(r, name) ==>
              exists i :: 0 <= i < |r.links| && r.links[i].daemon.corpusId == name
                          && ForProject(r, Some(name)) == Ok(r.links[i].daemon)
    ensures !LinkedName(r, name) && !MeansPrimary(r, name) && !LinkedCorpus(r, name) ==>
              ForProject(r, Some(name)) == Err(UnknownProject(name, AvailableRoutes(r)))
  {
    MatchExact(r.primaryLabel, name);
  }

  lemma StringLeIsTotal()
    ensures TotalOrder(StringLe)
    ensures forall s :: Untied(StringLe, s)
  {
    forall a: string, b: string
      ensures StringLe(a, b) || StringLe(b, a)
      ensures StringLe(a, b) && StringLe(b, a) ==> a == b
    {
      BeforeTotal(a, b);
      if Before(a, b) && Before(b, a) {
        BeforeTransitive(a, b, a);
        BeforeIrreflexive(a);
      }
    }
    forall a: string, b: string, c: string | StringLe(a, b) && StringLe(b, c) ensures StringLe(a, c) {
      BeforeTotal(a, b);
      BeforeTotal(b, c);
      if Before(c, a) && a != b && b != c {
        BeforeTransitive(c, a, b);
        BeforeTransitive(b, c, b);
        BeforeIrreflexive(b);
      }
    }
  }

  /** The labels are the linked labels, sorted. */
  lemma LabelsSorted(r: Router)
    ensures Sorted(StringLe, Labels(r)) && multiset(Labels(r)) == multiset(Names(r.links))
  {
    StringLeIsTotal();
    SortIsSorted(StringLe, Names(r.links));
  }

  /** The iteration order of the map does not show. */
  lemma LabelsDeterministic(r: Router, other: Router)
    requires multiset(Names(r.links)) == multiset(Names(other.links))
    ensures Labels(r) == Labels(other)
  {
    StringLeIsTotal();
    LabelsSorted(r);
    LabelsSorted(other);
    SortedUnique(StringLe, Labels(r), Labels(other));
  }

  function Without<T>(s: seq<T>, k: nat): seq<T>
    requires k < |s|
  {
    s[..k] + s[k + 1..]
  }

  lemma WithoutOne<T>(s: seq<T>, k: nat)
    requires k < |s|
    ensures multiset(s) == multiset{s[k]} + multiset(Without(s, k))
  {
    assert s == s[..k] + [s[k]] + s[k + 1..];
  }

  lemma NamesWithoutOne(links: seq<Link>, k: nat)
    requires k < |links|
    ensures multiset(Names(links)) == multiset{links[k].name} + multiset(Names(Without(links, k)))
  {
    WithoutOne(Names(links), k);
    assert Without(Names(links), k) == Names(Without(links, k));
  }

  lemma SameWithoutOne<T>(a: seq<T>, i: nat, b: seq<T>, k: nat)
    requires multiset(a) == multiset(b) && i < |a| && k < |b| && a[i] == b[k]
    ensures multiset(Without(a, i)) == multiset(Without(b, k))
  {
    WithoutOne(a, i);
    WithoutOne(b, k);
    assert multiset(Without(a, i)) == multiset(a) - multiset{a[i]};
    assert multiset(Without(b, k)) == multiset(b) - multiset{b[k]};
  }

  lemma {:induction false} NamesOfSame(links: seq<Link>, other: seq<Link>)
    requires multiset(links) == multiset(other)
    ensures multiset(Names(links)) == multiset(Names(other))
  {
    if links == [] {
      assert |multiset(other)| == 0;
    } else {
      SameMembers(links, other);
      assert links[0] in links;
      var k :| 0 <= k < |other| && other[k] == links[0];
      SameWithoutOne(links, 0, other, k);
      NamesOfSame(Without(links, 0), Without(other, k));
      NamesWithoutOne(links, 0);
      NamesWithoutOne(other, k);
    }
  }

  /** The same router with its label map iterated in another order. */
  ghost predicate SameMap(r: Router, other: Router) {
    other.primary == r.primary && other.primaryLabel == r.primaryLabel && multiset(other.links) == multiset(r.links)
  }

  /** Links that serve one corpus are one backend. */
  ghost predicate CorpusAgrees(links: seq<Link>, corpusId: string) {
    forall a, b :: a in links && b in links && a.daemon.corpusId == corpusId == b.daemon.corpusId ==>
      a.daemon == b.daemon
  }

  lemma SameMembers<T>(a: seq<T>, b: seq<T>)
    requires multiset(a) == multiset(b)
    ensures forall x :: x in a <==> x in b
  {
    forall x ensures x in a <==> x in b {
      assert x in multiset(a) <==> x in multiset(b);
    }
  }

  /** A linked name finds its one link, whatever the order. */
  lemma SameByName(r: Router, other: Router, name: string)
    requires ValidRouter(r) && SameMap(r, other)
    ensures ByName(other.links, name) == ByName(r.links, name)
  {
    SameMembers(r.links, other.links);
    if ByName(other.links, name).Some? {
      assert Link(name, ByName(other.links, name).value) in r.links;
    }
    if ByName(r.links, name).Some? {
      assert Link(name, ByName(r.links, name).value) in other.links;
    }
  }

  lemma SameByCorpus(r: Router, other: Router, name: string)
    requires SameMap(r, other) && CorpusAgrees(r.links, name)
    ensures ByCorpus(other.links, name) == ByCorpus(r.links, name)
  {
    SameMembers(r.links, other.links);
    ServedIn(r, name);
    ServedIn(other, name);
    if ByCorpus(r.links, name).Some? {
      var i :| 0 <= i < |r.links| && r.links[i].daemon == ByCorpus(r.links, name).value;
      var j :| 0 <= j < |other.links| && other.links[j].daemon == ByCorpus(other.links, name).value;
      assert r.links[i] in r.links && other.links[j] in r.links;
    }
  }

  lemma OrderDoesNotShow(r: Router, other: Router, name: string)
    requires ValidRouter(r) && SameMap(r, other)
    requires LinkedName(r, name) || RouteIsPrimary(r, name) || CorpusAgrees(r.links, name)
    ensures ForProject(other, Some(name)) == ForProject(r, Some(name))
  {
    SameByName(r, other, name);
    if ByName(r.links, name).None? && !RouteIsPrimary(r, name) {
      SameByCorpus(r, other, name);
      NamesOfSame(r.links, other.links);
      LabelsDeterministic(r, other);
    }
  }

  lemma NamedIn(r: Router, name: string)
    ensures LinkedName(r, name) <==> exists l :: l in r.links && l.name == name
  {
  }

  lemma ServedIn(r: Router, corpusId: string)
    ensures LinkedCorpus(r, corpusId) <==> exists l :: l in r.links && l.daemon.corpusId == corpusId
  {
  }

  /** Iterating link `l` first makes it the one found by corpus id. */
  lemma FirstFound(r: Router, name: string, l: Link)
    requires l in r.links && l.daemon.corpusId == name && !LinkedName(r, name) && !RouteIsPrimary(r, name)
    ensures exists other :: SameMap(r, other) && ForProject(other, Some(name)) == Ok(l.daemon)
  {
    var i :| 0 <= i < |r.links| && r.links[i] == l;
    assert r.links == r.links[..i] + [l] + r.links[i + 1..];
    var other := r.(links := [l] + (r.links[..i] + r.links[i + 1..]));
    assert SameMap(r, other);
    SameMembers(r.links, other.links);
    assert !LinkedName(other, name) by { NamedIn(r, name); NamedIn(other, name); }
  }

  /** The iteration order of the label map never shows in a resolution if and only if the name is a linked or
      primary one, or all links that serve a corpus of that name are one backend. */
  lemma ResolutionDeterministic(r: Router, name: string)
    requires ValidRouter(r)
    ensures (forall other :: SameMap(r, other) ==> ForProject(other, Some(name)) == ForProject(r, Some(name)))
            <==> LinkedName(r, name) || RouteIsPrimary(r, name) || CorpusAgrees(r.links, name)
  {
    if LinkedName(r, name) || RouteIsPrimary(r, name) || CorpusAgrees(r.links, name) {
      forall other | SameMap(r, other) ensures ForProject(other, Some(name)) == ForProject(r, Some(name)) {
        OrderDoesNotShow(r, other, name);
      }
    } else {
      var a, b :| a in r.links && b in r.links && a.daemon.corpusId == name == b.daemon.corpusId
                  && a.daemon != b.daemon;
      FirstFound(r, name, a);
      FirstFound(r, name, b);
    }
  }

  /** The listed routes are the primary's label, if it has one, and then exactly the linked labels. */
  lemma RoutesExact(r: Router, route: string)
    ensures route in AvailableRoutes(r) <==> r.primaryLabel == Some(route) || LinkedName(r, route)
    ensures r.primaryLabel.Some? ==> AvailableRoutes(r) != [] && AvailableRoutes(r)[0] == r.primaryLabel.value
    ensures |AvailableRoutes(r)| == |r.links| + if r.primaryLabel.Some? then 1 else 0
  {
    LabelsSorted(r);
    StringLeIsTotal();
    SortLength(StringLe, Names(r.links));
    SameMembers(Labels(r), Names(r.links));
    if route in Names(r.links) {
      var i :| 0 <= i < |r.links| && Names(r.links)[i] == route;
      assert r.links[i].name == route;
    }
    if i :| 0 <= i < |r.links| && r.links[i].name == route {
      assert Names(r.links)[i] == route;
    }
  }

  lemma SelfMatches(held: Option<string>)
    requires StoredLabel(held) && held.Some?
    ensures LabelMatches(held, held.value)
  {
  }

  /** Every route an unknown-project error lists is accepted. */
  lemma ListedRoutesResolve(r: Router, project: Option<string>, route: string)
    requires ValidRouter(r) && ForProject(r, project).Err? && route in ForProject(r, project).error.available
    ensures ForProject(r, Some(route)).Ok?
  {
    LabelsSorted(r);
    if r.primaryLabel == Some(route) {
      SelfMatches(r.primaryLabel);
    } else {
      assert route in Labels(r);
      assert route in multiset(Labels(r));
      assert route in Names(r.links);
      var i :| 0 <= i < |r.links| && Names(r.links)[i] == route;
      assert r.links[i].name == route;
    }
  }

  // ---------------------------------------------------------------- every kind of backend

  datatype Backend =
    | Local(name: Option<string>)
    | Single(daemon: Daemon, name: Option<string>)
    | Multi(router: Router)
    | Registry

  ghost predicate ValidBackend(b: Backend) {
    match b
    case Local(name) => StoredLabel(name)
    case Single(_, name) => StoredLabel(name)
    case Multi(router) => ValidRouter(router)
    case Registry => true
  }

  predicate NamesPrimary(b: Backend, project: string) {
    var p := Trim(project);
    match b
    case Local(name) => LabelMatches(name, p) || p == PRIMARY_CORPUS_ID
    case Single(daemon, name) => LabelMatches(name, p) || daemon.corpusId == p
    case Multi(router) => RouteIsPrimary(router, p)
    case Registry => false
  }

  function BackendRoutes(b: Backend): seq<string> {
    match b
    case Local(name) => if name.Some? then [name.value] else []
    case Single(_, name) => if name.Some? then [name.value] else []
    case Multi(router) => AvailableRoutes(router)
    case Registry => []
  }

  /** `validate_project_route`: single-corpus backends accept only the primary. */
  function ValidateRoute(b: Backend, project: Option<string>): Option<UnknownProject> {
    if project.None? then None
    else if (b.Local? || b.Single?) && !NamesPrimary(b, project.value)
    then Some(UnknownProject(project.value, BackendRoutes(b)))
    else None
  }

  /** `routed_corpus_id`. */
  function RoutedCorpusId(b: Backend, project: Option<string>): Result<string, UnknownProject> {
    match ValidateRoute(b, project)
    case Some(e) => Err(e)
    case None =>
      match b
      case Local(_) => Ok(PRIMARY_CORPUS_ID)
      case Single(daemon, _) => Ok(daemon.corpusId)
      case Multi(router) =>
        (match ForProject(router, project)
         case Ok(daemon) => Ok(daemon.corpusId)
         case Err(e) => Err(e))
      case Registry => Ok(if project.Some? then project.value else PRIMARY_CORPUS_ID)
  }

  lemma TrimmedLabelMatches(held: Option<string>)
    requires StoredLabel(held) && held.Some?
    ensures LabelMatches(held, Trim(held.value))
  {
    SelfMatches(held);
  }

  /** The routes an error lists: the label of the session's own corpus and the linked labels. */
  lemma BackendRoutesExact(b: Backend, route: string)
    ensures b.Local? || b.Single? ==> (route in BackendRoutes(b) <==> b.name == Some(route))
    ensures b.Multi? ==>
              (route in BackendRoutes(b) <==> b.router.primaryLabel == Some(route) || LinkedName(b.router, route))
    ensures b.Registry? ==> BackendRoutes(b) == []
  {
    if b.Multi? { RoutesExact(b.router, route); }
  }

  /** Which corpus a routed call goes to. Local and single-daemon backends serve their one corpus to callers that name
      no project, its label or its id, blanks around them ignored, and refuse all others; a multi-daemon backend
      serves the corpus of the backend the name resolves to; the registry takes the name itself for the id. */
  lemma RoutedCorpusExact(b: Backend, project: Option<string>)
    requires ValidBackend(b)
    ensures b.Local? ==>
              RoutedCorpusId(b, project)
              == if OwnCorpus(b.name, PRIMARY_CORPUS_ID, project) then Ok(PRIMARY_CORPUS_ID)
                 else Err(UnknownProject(project.value, BackendRoutes(b)))
    ensures b.Single? ==>
              RoutedCorpusId(b, project)
              == if OwnCorpus(b.name, b.daemon.corpusId, project) then Ok(b.daemon.corpusId)
                 else Err(UnknownProject(project.value, BackendRoutes(b)))
    ensures b.Multi? ==>
              match ForProject(b.router, project)
              case Ok(daemon) => RoutedCorpusId(b, project) == Ok(daemon.corpusId)
              case Err(e) => RoutedCorpusId(b, project) == Err(e)
    ensures b.Registry? ==>
              RoutedCorpusId(b, project) == Ok(if project.Some? then project.value else PRIMARY_CORPUS_ID)
  {
    if project.Some? && (b.Local? || b.Single?) {
      MatchExact(b.name, Trim(project.value));
      TrimIdempotent(project.value);
      MatchExact(b.name, project.value);
    }
  }

  /** The caller names no project, the label, or the corpus id with blanks around it. */
  ghost predicate OwnCorpus(held: Option<string>, corpusId: string, project: Option<string>) {
    project.Some? ==> (held.Some? && Spells(project.value, held.value)) || Trim(project.value) == corpusId
  }

  /** On every backend an unknown route is refused with routes that are all accepted, and only Local,
      single-daemon and multi-daemon backends ever refuse. */
  lemma ListedRoutesAccepted(b: Backend, project: Option<string>, route: string)
    requires ValidBackend(b) && RoutedCorpusId(b, project).Err?
    requires route in RoutedCorpusId(b, project).error.available
    ensures RoutedCorpusId(b, Some(route)).Ok?
    ensures project.Some? && RoutedCorpusId(b, project).error.requested == project.value
  {
    match b
    case Local(name) => TrimmedLabelMatches(name);
    case Single(_, name) => TrimmedLabelMatches(name);
    case Multi(router) => ListedRoutesResolve(router, project, route);
    case Registry => assert false;
  }

  // ---------------------------------------------------------------- dropping deliveries

  predicate CorpusLe(a: Daemon, b: Daemon) {
    StringLe(a.corpusId, b.corpusId)
  }

  lemma CorpusLeIsTotal()
    ensures TotalOrder(CorpusLe)
  {
    StringLeIsTotal();
  }

  function Daemons(links: seq<Link>): (daemons: seq<Daemon>)
    ensures |daemons| == |links|
  {
    seq(|links|, i requires 0 <= i < |links| => links[i].daemon)
  }

  /** `all_backends`: the primary first, then the linked ones by corpus id. */
  function AllBackends(r: Router): seq<Daemon> {
    [r.primary] + Sort(CorpusLe, Daemons(r.links))
  }

  /** Every linked backend appears once, in corpus-id order, after the primary. */
  lemma BackendsSorted(r: Router)
    ensures AllBackends(r)[0] == r.primary && Sorted(CorpusLe, AllBackends(r)[1..])
    ensures multiset(AllBackends(r)[1..]) == multiset(Daemons(r.links))
  {
    CorpusLeIsTotal();
    SortIsSorted(CorpusLe, Daemons(r.links));
    assert AllBackends(r)[1..] == Sort(CorpusLe, Daemons(r.links));
  }

  // ---------------------------------------------------------------- ties among backends

  /** The first backend of a corpus. */
  function FirstOf(daemons: seq<Daemon>, corpusId: string): Option<Daemon> {
    if daemons == [] then None
    else if daemons[0].corpusId == corpusId then Some(daemons[0])
    else FirstOf(daemons[1..], corpusId)
  }

  lemma {:induction false} FirstOfAppend(daemons: seq<Daemon>, d: Daemon, corpusId: string)
    ensures FirstOf(daemons + [d], corpusId)
         == if FirstOf(daemons, corpusId).Some? then FirstOf(daemons, corpusId)
            else if d.corpusId == corpusId then Some(d) else None
  {
    if daemons != [] {
      assert (daemons + [d])[1..] == daemons[1..] + [d];
      FirstOfAppend(daemons[1..], d, corpusId);
    }
  }

  lemma {:induction false} NoneOf(daemons: seq<Daemon>, corpusId: string)
    requires forall i :: 0 <= i < |daemons| ==> daemons[i].corpusId != corpusId
    ensures FirstOf(daemons, corpusId) == None
  {
    if daemons != [] { NoneOf(daemons[1..], corpusId); }
  }

  /** Inserting after everything that may stand before keeps the first backend of each corpus. */
  lemma {:induction false} InsertKeepsFirst(d: Daemon, daemons: seq<Daemon>, corpusId: string)
    requires Sorted(CorpusLe, daemons)
    ensures FirstOf(Insert(CorpusLe, d, daemons), corpusId)
         == if FirstOf(daemons, corpusId).Some? then FirstOf(daemons, corpusId)
            else if d.corpusId == corpusId then Some(d) else None
  {
    if daemons != [] {
      if CorpusLe(daemons[0], d) {
        InsertKeepsFirst(d, daemons[1..], corpusId);
      } else {
        assert ([d] + daemons)[1..] == daemons;
        if d.corpusId == corpusId {
          SameCorpusLe(daemons, d);
          NoneOf(daemons, corpusId);
        }
      }
    }
  }

  lemma SameCorpusLe(daemons: seq<Daemon>, d: Daemon)
    requires daemons != [] && Sorted(CorpusLe, daemons) && !CorpusLe(daemons[0], d)
    ensures forall i :: 0 <= i < |daemons| ==> daemons[i].corpusId != d.corpusId
  {
    forall i | 0 <= i < |daemons| ensures daemons[i].corpusId != d.corpusId {
      if i > 0 {
        assert CorpusLe(daemons[0], daemons[i]);
      } else {
        BeforeIrreflexive(d.corpusId);
      }
    }
  }

  /** The sort is stable. */
  lemma {:induction false} SortKeepsFirst(daemons: seq<Daemon>, corpusId: string)
    ensures FirstOf(Sort(CorpusLe, daemons), corpusId) == FirstOf(daemons, corpusId)
  {
    if daemons != [] {
      var init, d := daemons[..|daemons| - 1], daemons[|daemons| - 1];
      assert daemons == init + [d];
      SortKeepsFirst(init, corpusId);
      CorpusLeIsTotal();
      SortIsSorted(CorpusLe, init);
      InsertKeepsFirst(d, Sort(CorpusLe, init), corpusId);
      FirstOfAppend(init, d, corpusId);
    }
  }

  /** Links that serve one corpus are one backend, for every corpus. */
  ghost predicate CorporaAgree(links: seq<Link>) {
    forall a, b :: a in links && b in links && a.daemon.corpusId == b.daemon.corpusId ==> a.daemon == b.daemon
  }

  lemma AgreeingOrder(r: Router, other: Router)
    requires SameMap(r, other) && CorporaAgree(r.links)
    ensures AllBackends(other) == AllBackends(r)
  {
    CorpusLeIsTotal();
    SortIsSorted(CorpusLe, Daemons(r.links));
    SortIsSorted(CorpusLe, Daemons(other.links));
    DaemonsOfSame(r.links, other.links);
    AgreeingIsUntied(r.links);
    SortedUnique(CorpusLe, Sort(CorpusLe, Daemons(r.links)), Sort(CorpusLe, Daemons(other.links)));
  }

  lemma AgreeingIsUntied(links: seq<Link>)
    requires CorporaAgree(links)
    ensures Untied(CorpusLe, Sort(CorpusLe, Daemons(links)))
  {
    var sorted := Sort(CorpusLe, Daemons(links));
    CorpusLeIsTotal();
    StringLeIsTotal();
    SortIsSorted(CorpusLe, Daemons(links));
    SameMembers(sorted, Daemons(links));
    forall x, y | x in sorted && y in sorted && CorpusLe(x, y) && CorpusLe(y, x) ensures x == y {
      var i :| 0 <= i < |links| && Daemons(links)[i] == x;
      var j :| 0 <= j < |links| && Daemons(links)[j] == y;
      assert Untied(StringLe, [x.corpusId, y.corpusId]);
      assert links[i] in links && links[j] in links;
    }
  }

  lemma DaemonsWithoutOne(links: seq<Link>, k: nat)
    requires k < |links|
    ensures multiset(Daemons(links)) == multiset{links[k].daemon} + multiset(Daemons(Without(links, k)))
  {
    WithoutOne(Daemons(links), k);
    assert Without(Daemons(links), k) == Daemons(Without(links, k));
  }

  lemma {:induction false} DaemonsOfSame(links: seq<Link>, other: seq<Link>)
    requires multiset(links) == multiset(other)
    ensures multiset(Daemons(links)) == multiset(Daemons(other))
  {
    if links == [] {
      assert |multiset(other)| == 0;
    } else {
      SameMembers(links, other);
      assert links[0] in links;
      var k :| 0 <= k < |other| && other[k] == links[0];
      SameWithoutOne(links, 0, other, k);
      DaemonsOfSame(Without(links, 0), Without(other, k));
      DaemonsWithoutOne(links, 0);
      DaemonsWithoutOne(other, k);
    }
  }

  /** Iterating link `l` first makes its backend the first of its corpus. */
  lemma IteratedFirst(r: Router, l: Link) returns (other: Router)
    requires l in r.links
    ensures SameMap(r, other)
    ensures FirstOf(AllBackends(other)[1..], l.daemon.corpusId) == Some(l.daemon)
  {
    var i :| 0 <= i < |r.links| && r.links[i] == l;
    assert r.links == r.links[..i] + [l] + r.links[i + 1..];
    other := r.(links := [l] + (r.links[..i] + r.links[i + 1..]));
    SortKeepsFirst(Daemons(other.links), l.daemon.corpusId);
    assert AllBackends(other)[1..] == Sort(CorpusLe, Daemons(other.links));
    assert Daemons(other.links)[0] == l.daemon;
  }

  /** The order of all backends, which is promised to be deterministic, is the same for every iteration order of the
      label map if and only if links that serve one corpus are one backend. */
  lemma BackendsDeterministic(r: Router)
    ensures (forall other :: SameMap(r, other) ==> AllBackends(other) == AllBackends(r)) <==> CorporaAgree(r.links)
  {
    if CorporaAgree(r.links) {
      forall other | SameMap(r, other) ensures AllBackends(other) == AllBackends(r) {
        AgreeingOrder(r, other);
      }
    } else {
      var a, b :| a in r.links && b in r.links && a.daemon.corpusId == b.daemon.corpusId && a.daemon != b.daemon;
      var first := IteratedFirst(r, a);
      var second := IteratedFirst(r, b);
      assert AllBackends(first) != AllBackends(second);
    }
  }

  // ---------------------------------------------------------------- drops

  datatype DropCall = DropCall(daemon: Daemon, owned: seq<DeliveryIdentity>, legacy: seq<string>)

  function Owned(identities: seq<DeliveryIdentity>, corpusId: string): seq<DeliveryIdentity> {
    if identities == [] then [] else
      var last := identities[|identities| - 1];
      Owned(identities[..|identities| - 1], corpusId) + if last.corpusId == corpusId then [last] else []
  }

  function CallFor(r: Router, d: Daemon, identities: seq<DeliveryIdentity>, contentIds: seq<string>): DropCall {
    DropCall(d, Owned(identities, d.corpusId), if d.corpusId == r.primary.corpusId then contentIds else [])
  }

  function CallsFor(r: Router, daemons: seq<Daemon>, identities: seq<DeliveryIdentity>, contentIds: seq<string>)
    : (calls: seq<DropCall>)
    ensures |calls| == |daemons|
  {
    seq(|daemons|, i requires 0 <= i < |daemons| => CallFor(r, daemons[i], identities, contentIds))
  }

  /** The multi-daemon case of `drop_deliveries`: one call per backend, stopping at the first failure. */
  method DropDeliveries(r: Router, identities: seq<DeliveryIdentity>, contentIds: seq<string>, fails: Daemon -> bool)
    returns (calls: seq<DropCall>, ok: bool)
    ensures calls <= CallsFor(r, AllBackends(r), identities, contentIds)
    ensures ok ==> calls == CallsFor(r, AllBackends(r), identities, contentIds)
    ensures ok <==> forall i :: 0 <= i < |calls| ==> !fails(calls[i].daemon)
    ensures !ok ==> calls != [] && fails(calls[|calls| - 1].daemon)
                    && forall i :: 0 <= i < |calls| - 1 ==> !fails(calls[i].daemon)
  {
    var backends := AllBackends(r);
    ghost var plan := CallsFor(r, backends, identities, contentIds);
    calls := [];
    for i := 0 to |backends|
      invariant calls == plan[..i]
      invariant forall k :: 0 <= k < i ==> !fails(plan[k].daemon)
    {
      var d := backends[i];
      var legacy := if d.corpusId == r.primary.corpusId then contentIds else [];
      calls := calls + [DropCall(d, Owned(identities, d.corpusId), legacy)];
      assert plan[i] == CallFor(r, d, identities, contentIds);
      assert calls == plan[..i + 1];
      if fails(d) {
        assert calls[i].daemon == d;
        return calls, false;
      }
    }
    ok := true;
  }

  /** How often an identity is dropped over a list of calls. */
  function Dropped(calls: seq<DropCall>, x: DeliveryIdentity): nat {
    if calls == [] then 0 else
      Dropped(calls[..|calls| - 1], x) + multiset(calls[|calls| - 1].owned)[x]
  }

  /** How many backends serve a corpus. */
  function Owners(daemons: seq<Daemon>, corpusId: string): nat {
    if daemons == [] then 0 else
      Owners(daemons[..|daemons| - 1], corpusId) + if daemons[|daemons| - 1].corpusId == corpusId then 1 else 0
  }

  lemma {:induction false} OwnedCount(identities: seq<DeliveryIdentity>, corpusId: string, x: DeliveryIdentity)
    ensures multiset(Owned(identities, corpusId))[x]
         == if x.corpusId == corpusId then multiset(identities)[x] else 0
  {
    if identities != [] {
      var init, last := identities[..|identities| - 1], identities[|identities| - 1];
      assert identities == init + [last];
      OwnedCount(init, corpusId, x);
    }
  }

  lemma CallsAppend(r: Router, init: seq<Daemon>, d: Daemon, identities: seq<DeliveryIdentity>,
                    contentIds: seq<string>)
    ensures CallsFor(r, init + [d], identities, contentIds)
         == CallsFor(r, init, identities, contentIds) + [CallFor(r, d, identities, contentIds)]
  {
  }

  lemma DroppedAppend(calls: seq<DropCall>, call: DropCall, x: DeliveryIdentity)
    ensures Dropped(calls + [call], x) == Dropped(calls, x) + multiset(call.owned)[x]
  {
    assert (calls + [call])[..|calls|] == calls;
  }

  lemma OneMore(x: nat, k: nat, m: nat, hit: bool)
    requires IsProduct(x, k, m)
    ensures IsProduct(x + if hit then m else 0, k + if hit then 1 else 0, m)
  {
  }

  lemma {:induction false} DropProduct(r: Router, daemons: seq<Daemon>, identities: seq<DeliveryIdentity>,
                                       contentIds: seq<string>, x: DeliveryIdentity)
    ensures IsProduct(Dropped(CallsFor(r, daemons, identities, contentIds), x), Owners(daemons, x.corpusId),
                      multiset(identities)[x])
  {
    if daemons != [] {
      var init, d := daemons[..|daemons| - 1], daemons[|daemons| - 1];
      DropProduct(r, init, identities, contentIds, x);
      assert daemons == init + [d];
      DropsOfOneMore(r, init, d, identities, contentIds, x);
      OneMore(Dropped(CallsFor(r, init, identities, contentIds), x), Owners(init, x.corpusId),
              multiset(identities)[x], x.corpusId == d.corpusId);
    }
  }

  /** Conservation: over all calls each occurrence of an identity is dropped once per backend of its corpus. */
  lemma {:induction false} DropConservation(r: Router, daemons: seq<Daemon>, identities: seq<DeliveryIdentity>,
                                            contentIds: seq<string>, x: DeliveryIdentity)
    ensures Dropped(CallsFor(r, daemons, identities, contentIds), x)
         == Owners(daemons, x.corpusId) * multiset(identities)[x]
  {
    DropProduct(r, daemons, identities, contentIds, x);
  }

  lemma DropsOfOneMore(r: Router, init: seq<Daemon>, d: Daemon, identities: seq<DeliveryIdentity>,
                       contentIds: seq<string>, x: DeliveryIdentity)
    ensures Dropped(CallsFor(r, init + [d], identities, contentIds), x)
         == Dropped(CallsFor(r, init, identities, contentIds), x)
            + if x.corpusId == d.corpusId then multiset(identities)[x] else 0
  {
    CallsAppend(r, init, d, identities, contentIds);
    DroppedAppend(CallsFor(r, init, identities, contentIds), CallFor(r, d, identities, contentIds), x);
    OwnedCount(identities, d.corpusId, x);
  }

  predicate DistinctCorpora(daemons: seq<Daemon>) {
    forall i, j :: 0 <= i < j < |daemons| ==> daemons[i].corpusId != daemons[j].corpusId
  }

  lemma {:induction false} DistinctOwners(daemons: seq<Daemon>, corpusId: string)
    requires DistinctCorpora(daemons)
    ensures Owners(daemons, corpusId)
         == if exists i :: 0 <= i < |daemons| && daemons[i].corpusId == corpusId then 1 else 0
  {
    if daemons != [] {
      var init, d := daemons[..|daemons| - 1], daemons[|daemons| - 1];
      DistinctOwners(init, corpusId);
      assert forall i :: 0 <= i < |init| ==> init[i] == daemons[i];
      if d.corpusId == corpusId {
        assert daemons[|daemons| - 1].corpusId == corpusId;
      }
    }
  }

  /** With distinct corpus ids each dropped identity goes to exactly its owner, or to none if unowned,
      and only the primary is told the bare content ids. */
  lemma EachIdentityToItsOwner(r: Router, identities: seq<DeliveryIdentity>, contentIds: seq<string>,
                               x: DeliveryIdentity)
    requires DistinctCorpora(AllBackends(r))
    ensures var calls := CallsFor(r, AllBackends(r), identities, contentIds);
            && Dropped(calls, x) == (if exists i :: 0 <= i < |calls| && calls[i].daemon.corpusId == x.corpusId
                                     then multiset(identities)[x] else 0)
            && (forall i :: 0 <= i < |calls| && x in calls[i].owned ==> calls[i].daemon.corpusId == x.corpusId)
            && (forall i :: 0 <= i < |calls| ==> calls[i].legacy == if i == 0 then contentIds else [])
  {
    var all := AllBackends(r);
    var calls := CallsFor(r, all, identities, contentIds);
    DropConservation(r, all, identities, contentIds, x);
    DistinctOwners(all, x.corpusId);
    forall i | 0 <= i < |calls| && x in calls[i].owned ensures calls[i].daemon.corpusId == x.corpusId {
      OwnedCount(identities, all[i].corpusId, x);
    }
    assert forall i :: 0 <= i < |calls| ==> calls[i].daemon == all[i];
    forall i | 0 <= i < |calls| ensures calls[i].legacy == if i == 0 then contentIds else [] {
      assert all[0] == r.primary;
      assert i > 0 ==> all[0].corpusId != all[i].corpusId;
    }
  }

  lemma {:induction false} OwnersAtLeast(daemons: seq<Daemon>, i: nat, j: nat)
    requires i < j < |daemons| && daemons[i].corpusId == daemons[j].corpusId
    ensures Owners(daemons, daemons[i].corpusId) >= 2
  {
    var init, c := daemons[..|daemons| - 1], daemons[i].corpusId;
    if j < |init| {
      OwnersAtLeast(init, i, j);
    } else {
      OwnerAtLeast(init, i);
    }
  }

  lemma {:induction false} OwnerAtLeast(daemons: seq<Daemon>, i: nat)
    requires i < |daemons|
    ensures Owners(daemons, daemons[i].corpusId) >= 1
  {
    var init := daemons[..|daemons| - 1];
    if i < |init| { OwnerAtLeast(init, i); }
  }

  /** The condition is needed: identities of a corpus that two backends serve are dropped at least twice. */
  lemma SharedCorpusDropsTwice(r: Router, identities: seq<DeliveryIdentity>, contentIds: seq<string>,
                               i: nat, j: nat, x: DeliveryIdentity)
    requires i < j < |AllBackends(r)|
    requires AllBackends(r)[i].corpusId == AllBackends(r)[j].corpusId == x.corpusId
    ensures Dropped(CallsFor(r, AllBackends(r), identities, contentIds), x) >= 2 * multiset(identities)[x]
  {
    var all := AllBackends(r);
    DropConservation(r, all, identities, contentIds, x);
    OwnersAtLeast(all, i, j);
    ScaleAtLeast(Owners(all, x.corpusId), multiset(identities)[x]);
  }

  lemma ScaleAtLeast(k: nat, m: nat)
    requires k >= 2
    ensures k * m >= 2 * m
  {
  }

  lemma ProductIsOne(k: nat, m: nat)
    requires m > 0
    ensures (k * m == m <==> k == 1) && (k * m <= m <==> k <= 1)
  {
    if k >= 2 {
      ScaleAtLeast(k, m);
    }
  }

  /** An identity that is dropped at all is dropped as often as asked if and only if exactly one backend serves its
      corpus. */
  lemma DroppedOnceExact(r: Router, identities: seq<DeliveryIdentity>, contentIds: seq<string>, x: DeliveryIdentity)
    requires x in identities
    ensures Dropped(CallsFor(r, AllBackends(r), identities, contentIds), x) == multiset(identities)[x]
            <==> Owners(AllBackends(r), x.corpusId) == 1
  {
    assert x in multiset(identities);
    DropConservation(r, AllBackends(r), identities, contentIds, x);
    ProductIsOne(Owners(AllBackends(r), x.corpusId), multiset(identities)[x]);
  }

  ghost predicate NeverTwice(r: Router, identities: seq<DeliveryIdentity>, x: DeliveryIdentity) {
    Dropped(CallsFor(r, AllBackends(r), identities, []), x) <= multiset(identities)[x]
  }

  /** No identity is ever dropped twice if and only if corpus ids are distinct. */
  lemma NeverTwiceExact(r: Router)
    ensures (forall identities, x :: NeverTwice(r, identities, x)) <==> DistinctCorpora(AllBackends(r))
  {
    var all := AllBackends(r);
    if DistinctCorpora(all) {
      forall identities, x ensures NeverTwice(r, identities, x) {
        EachIdentityToItsOwner(r, identities, [], x);
      }
    } else {
      var i, j :| 0 <= i < j < |all| && all[i].corpusId == all[j].corpusId;
      var x := DeliveryIdentity(all[i].corpusId, "", "");
      SharedCorpusDropsTwice(r, [x], [], i, j, x);
      assert multiset([x])[x] == 1;
      assert !NeverTwice(r, [x], x);
    }
  }
}
