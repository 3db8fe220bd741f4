/**
 * The anchor tracker: a registry of link fragments contributed by child links,
 * the rule that picks the active link from the positions of their targets, and
 * the Idle/Animating state that suppresses scroll handling during a
 * programmatic scroll.
 *
 * The DOM is abstracted: a document is a map from element id to the layout
 * facts `getOffsetTop` reads, and the scroll container is a value.
 */
module Anchor {
  import opened Wrappers

  // ---------------------------------------------------------------------------
  // Layout

  /** What `getOffsetTop` reads of a target element: the number of client
      rects and its bounding rectangle (viewport coordinates). */
  datatype Element = Element(clientRects: nat, top: real, width: real, height: real)

  /** The scroll container: the window (carrying the root element's `clientTop`)
      or an element (carrying the top of its bounding rectangle). */
  datatype Container = Viewport(rootClientTop: real) | ScrollBox(boxTop: real)

  /** The page as the tracker sees it. `hasDocument` is false when rendering
      without a DOM; `elements` is `document.getElementById`. */
  datatype Env = Env(hasDocument: bool, elements: map<string, Element>, container: Container)

  /** The props the tracker logic reads. Absent props are `None`;
      `getCurrentAnchor` is the string the override function returns. */
  datatype Props = Props(
    offsetTop: Option<real>,
    bounds: Option<real>,
    targetOffset: Option<real>,
    getCurrentAnchor: Option<string>)

  /** A registered link whose target's top is below the threshold, with that top. */
  datatype Section = Section(link: string, top: real)

  /** Defaults of `getCurrentActiveLink`'s parameters. */
  const DefaultOffsetTop: real := 0.0
  const DefaultBounds: real := 5.0

  /** `getOffsetTop`: the top of an element relative to the container. */
  function OffsetTop(element: Option<Element>, container: Container): real
  {
    match element
    case None => 0.0
    case Some(e) =>
      if e.clientRects == 0 then 0.0
      else if e.width != 0.0 || e.height != 0.0 then
        match container
        case Viewport(clientTop) => e.top - clientTop
        case ScrollBox(boxTop) => e.top - boxTop
      else e.top
  }

  /** A missing element or one without a layout box sits at 0; a zero-size box
      gives its raw top; a visible element
      inside an element container keeps its offset when both are moved by the
      same amount (the offset is relative to the container); a visible element
      in the window moves with its own top. */
  lemma OffsetTopRelative(e: Element, container: Container, d: real)
    ensures OffsetTop(None, container) == 0.0
    ensures e.clientRects == 0 ==> OffsetTop(Some(e), container) == 0.0
    ensures e.clientRects > 0 && e.width == 0.0 && e.height == 0.0 ==> OffsetTop(Some(e), container) == e.top
    ensures e.clientRects > 0 && (e.width != 0.0 || e.height != 0.0) && container.ScrollBox? ==>
      OffsetTop(Some(e.(top := e.top + d)), ScrollBox(container.boxTop + d)) == OffsetTop(Some(e), container)
    ensures e.clientRects > 0 && (e.width != 0.0 || e.height != 0.0) && container.Viewport? ==>
      OffsetTop(Some(e.(top := e.top + d)), container) == OffsetTop(Some(e), container) + d
  {
  }

  // ---------------------------------------------------------------------------
  // Fragment extraction: the capture group of /#([^#]+)$/

  /** The text after the last `#`, or `None` when the string has no `#`. */
  function SuffixAfterLastHash(s: string): Option<string>
    decreases |s|
  {
    if |s| == 0 then None
    else if s[|s| - 1] == '#' then Some("")
    else
      match SuffixAfterLastHash(s[..|s| - 1])
      case None => None
      case Some(t) => Some(t + [s[|s| - 1]])
  }

  /** The fragment id of a link: the non-empty text after its last `#`. */
  function Fragment(link: string): Option<string>
  {
    match SuffixAfterLastHash(link)
    case Some(t) => if |t| > 0 then Some(t) else None
    case None => None
  }

  lemma {:induction false} SuffixOfSplit(p: string, f: string)
    requires '#' !in f
    ensures SuffixAfterLastHash(p + "#" + f) == Some(f)
    decreases |f|
  {
    var s := p + "#" + f;
    if f == [] {
      assert s[|s| - 1] == '#';
    } else {
      var f' := f[..|f| - 1];
      assert s[..|s| - 1] == p + "#" + f';
      assert s[|s| - 1] == f[|f| - 1];
      SuffixOfSplit(p, f');
      assert f' + [f[|f| - 1]] == f;
    }
  }

  lemma {:induction false} SuffixIsAfterLastHash(s: string)
    ensures SuffixAfterLastHash(s).None? <==> '#' !in s
    ensures SuffixAfterLastHash(s).Some? ==>
      var t := SuffixAfterLastHash(s).value;
      |t| < |s| && s[|s| - |t| - 1] == '#' && s[|s| - |t|..] == t && '#' !in t
    decreases |s|
  {
    if |s| > 0 && s[|s| - 1] != '#' {
      var s' := s[..|s| - 1];
      SuffixIsAfterLastHash(s');
      assert s == s' + [s[|s| - 1]];
      if SuffixAfterLastHash(s').Some? {
        var t := SuffixAfterLastHash(s').value;
        assert s[|s| - |t| - 2] == s'[|s'| - |t| - 1];
        assert s[|s| - |t| - 1..] == s'[|s'| - |t|..] + [s[|s| - 1]];
      }
    }
  }

  /** A link has fragment `f` exactly when `f` is non-empty, holds no `#`, and
      the link ends with `#` followed by `f`. */
  lemma FragmentIff(link: string, f: string)
    ensures Fragment(link) == Some(f) <==>
      (|f| > 0 && '#' !in f && |f| < |link| && link[|link| - |f| - 1] == '#' && link[|link| - |f|..] == f)
  {
    SuffixIsAfterLastHash(link);
    if |f| > 0 && '#' !in f && |f| < |link| && link[|link| - |f| - 1] == '#' && link[|link| - |f|..] == f {
      var p := link[..|link| - |f| - 1];
      assert link == p + "#" + f;
      SuffixOfSplit(p, f);
    }
  }

  /** A link has no fragment exactly when it holds no `#` or ends with one. */
  lemma FragmentNoneIff(link: string)
    ensures Fragment(link).None? <==> ('#' !in link || link[|link| - 1] == '#')
  {
    SuffixIsAfterLastHash(link);
    if '#' in link && link[|link| - 1] != '#' {
      var t := SuffixAfterLastHash(link).value;
      assert |t| > 0;
    }
  }

  // ---------------------------------------------------------------------------
  // Active-link selection

  /** The top of a link's target, when the link has a fragment and the element exists. */
  function TargetTop(link: string, env: Env): Option<real>
  {
    match Fragment(link)
    case None => None
    case Some(id) =>
      if id in env.elements then Some(OffsetTop(Some(env.elements[id]), env.container)) else None
  }

  /** A link takes part in the selection when its target resolves with a top below `limit`. */
  predicate IsCandidate(link: string, env: Env, limit: real)
  {
    TargetTop(link, env).Some? && TargetTop(link, env).value < limit
  }

  /** The sections the `forEach` loop collects, in registry order. */
  function Sections(links: seq<string>, env: Env, limit: real): seq<Section>
  {
    if links == [] then []
    else
      var rest := Sections(links[..|links| - 1], env, limit);
      var link := links[|links| - 1];
      if IsCandidate(link, env, limit) then rest + [Section(link, TargetTop(link, env).value)] else rest
  }

  /** `linkSections.reduce((prev, curr) => curr.top > prev.top ? curr : prev)`:
      a section of the list whose top is maximal. */
  function MaxSection(s: seq<Section>): (r: Section)
    requires |s| > 0
    ensures r in s
    ensures forall j :: 0 <= j < |s| ==> s[j].top <= r.top
  {
    if |s| == 1 then s[0]
    else
      var prev := MaxSection(s[..|s| - 1]);
      var curr := s[|s| - 1];
      if curr.top > prev.top then curr else prev
  }

  /** The default selection: the link of the section with the largest top, or "". */
  function SelectActiveLink(links: seq<string>, env: Env, offsetTop: real, bounds: real): string
  {
    var sections := Sections(links, env, offsetTop + bounds);
    if |sections| > 0 then MaxSection(sections).link else ""
  }

  /** `getCurrentActiveLink(offsetTop, bounds)` once its defaults are applied. */
  function CurrentActiveLink(links: seq<string>, getCurrentAnchor: Option<string>, env: Env,
                             offsetTop: real, bounds: real): string
  {
    if getCurrentAnchor.Some? then getCurrentAnchor.value
    else if !env.hasDocument then ""
    else SelectActiveLink(links, env, offsetTop, bounds)
  }

  /** Link `i` is the winner: a candidate whose top is maximal among the
      candidates, and the first such in registry order. */
  ghost predicate IsBest(links: seq<string>, env: Env, limit: real, i: int)
  {
    && 0 <= i < |links|
    && IsCandidate(links[i], env, limit)
    && (forall j :: 0 <= j < |links| && IsCandidate(links[j], env, limit) ==>
          TargetTop(links[j], env).value <= TargetTop(links[i], env).value)
    && (forall j :: 0 <= j < i && IsCandidate(links[j], env, limit) ==>
          TargetTop(links[j], env).value < TargetTop(links[i], env).value)
  }

  ghost predicate NoCandidate(links: seq<string>, env: Env, limit: real)
  {
    forall i :: 0 <= i < |links| ==> !IsCandidate(links[i], env, limit)
  }

  /** There is at most one winner. */
  lemma BestIsUnique(links: seq<string>, env: Env, limit: real, i: int, k: int)
    requires IsBest(links, env, limit, i) && IsBest(links, env, limit, k)
    ensures i == k
  {
  }

  lemma {:induction false} SectionsEmptyIff(links: seq<string>, env: Env, limit: real)
    ensures |Sections(links, env, limit)| == 0 <==> NoCandidate(links, env, limit)
    decreases |links|
  {
    if links != [] {
      var init := links[..|links| - 1];
      SectionsEmptyIff(init, env, limit);
      assert forall i :: 0 <= i < |init| ==> init[i] == links[i];
    }
  }

  /** Appending a non-candidate keeps the winner. */
  lemma BestSkipsNonCandidate(links: seq<string>, env: Env, limit: real, i: int)
    requires |links| > 0 && !IsCandidate(links[|links| - 1], env, limit)
    requires IsBest(links[..|links| - 1], env, limit, i)
    ensures IsBest(links, env, limit, i)
  {
    var init := links[..|links| - 1];
    assert forall j :: 0 <= j < |init| ==> init[j] == links[j];
  }

  /** Appending a candidate with a strictly larger top than every earlier candidate makes it the winner. */
  lemma BestTakesHigher(links: seq<string>, env: Env, limit: real)
    requires |links| > 0 && IsCandidate(links[|links| - 1], env, limit)
    requires forall j :: 0 <= j < |links| - 1 && IsCandidate(links[j], env, limit) ==>
      TargetTop(links[j], env).value < TargetTop(links[|links| - 1], env).value
    ensures IsBest(links, env, limit, |links| - 1)
  {
  }

  /** Appending a candidate with a top no larger than the winner's keeps the winner. */
  lemma BestKeepsOnTie(links: seq<string>, env: Env, limit: real, i: int)
    requires |links| > 0 && IsCandidate(links[|links| - 1], env, limit)
    requires IsBest(links[..|links| - 1], env, limit, i)
    requires TargetTop(links[|links| - 1], env).value <= TargetTop(links[i], env).value
    ensures IsBest(links, env, limit, i)
  {
    var init := links[..|links| - 1];
    assert forall j :: 0 <= j < |init| ==> init[j] == links[j];
  }

  /** The reduce picks the first candidate of maximal top. */
  lemma {:induction false} MaxSectionIsBest(links: seq<string>, env: Env, limit: real)
    requires |Sections(links, env, limit)| > 0
    ensures exists i :: IsBest(links, env, limit, i) && links[i] == MaxSection(Sections(links, env, limit)).link
                && TargetTop(links[i], env).value == MaxSection(Sections(links, env, limit)).top
    decreases |links|
  {
    var init := links[..|links| - 1];
    var x := links[|links| - 1];
    var s, s' := Sections(links, env, limit), Sections(init, env, limit);
    if !IsCandidate(x, env, limit) {
      assert s == s';
      MaxSectionIsBest(init, env, limit);
      var i :| IsBest(init, env, limit, i) && init[i] == MaxSection(s').link
                && TargetTop(init[i], env).value == MaxSection(s').top;
      BestSkipsNonCandidate(links, env, limit, i);
      assert links[i] == init[i];
    } else if |s'| == 0 {
      SectionsEmptyIff(init, env, limit);
      assert s == [Section(x, TargetTop(x, env).value)];
      assert forall j :: 0 <= j < |links| - 1 ==> links[j] == init[j];
      BestTakesHigher(links, env, limit);
    } else {
      MaxSectionIsBest(init, env, limit);
      var i :| IsBest(init, env, limit, i) && init[i] == MaxSection(s').link
                && TargetTop(init[i], env).value == MaxSection(s').top;
      assert s[..|s| - 1] == s';
      assert links[i] == init[i];
      var m' := MaxSection(s');
      if TargetTop(x, env).value > m'.top {
        assert MaxSection(s) == s[|s| - 1];
        assert forall j :: 0 <= j < |links| - 1 ==> links[j] == init[j];
        BestTakesHigher(links, env, limit);
      } else {
        assert MaxSection(s) == m';
        BestKeepsOnTie(links, env, limit, i);
      }
    }
  }

  /** The selection returns "" exactly when no registered link qualifies, and
      otherwise the first registered link whose target has the largest top (the
      lowest-placed target, nearest the line) among those with a top below
      `offsetTop + bounds`. */
  lemma SelectActiveLinkIsBest(links: seq<string>, env: Env, offsetTop: real, bounds: real)
    ensures var r := SelectActiveLink(links, env, offsetTop, bounds);
      && (r == "" <==> NoCandidate(links, env, offsetTop + bounds))
      && (r != "" ==> exists i :: IsBest(links, env, offsetTop + bounds, i) && links[i] == r)
  {
    var limit := offsetTop + bounds;
    SectionsEmptyIff(links, env, limit);
    if |Sections(links, env, limit)| > 0 {
      MaxSectionIsBest(links, env, limit);
      var i :| IsBest(links, env, limit, i) && links[i] == MaxSection(Sections(links, env, limit)).link
                && TargetTop(links[i], env).value == MaxSection(Sections(links, env, limit)).top;
    }
  }

  /** A supplied `getCurrentAnchor` decides the result on its own; without a
      document the result is "". */
  lemma CurrentActiveLinkOverride(links: seq<string>, getCurrentAnchor: Option<string>, env: Env,
                                  offsetTop: real, bounds: real)
    ensures getCurrentAnchor.Some? ==>
      CurrentActiveLink(links, getCurrentAnchor, env, offsetTop, bounds) == getCurrentAnchor.value
    ensures getCurrentAnchor.None? && !env.hasDocument ==>
      CurrentActiveLink(links, getCurrentAnchor, env, offsetTop, bounds) == ""
  {
  }

  /** `targetOffset !== undefined ? targetOffset : offsetTop || 0`. */
  function EffectiveOffset(props: Props): real
  {
    if props.targetOffset.Some? then props.targetOffset.value
    else if props.offsetTop.Some? && props.offsetTop.value != 0.0 then props.offsetTop.value
    else 0.0
  }

  // ---------------------------------------------------------------------------
  // Link registry

  predicate NoDuplicates(s: seq<string>)
  {
    forall i, j :: 0 <= i < j < |s| ==> s[i] != s[j]
  }

  /** `Array.prototype.indexOf`: the first index of `x`, or -1. */
  function IndexOf(s: seq<string>, x: string): (r: int)
    ensures -1 <= r < |s|
    ensures r == -1 <==> x !in s
    ensures r >= 0 ==> s[r] == x && x !in s[..r]
  {
    if s == [] then -1
    else if s[0] == x then 0
    else
      var k := IndexOf(s[1..], x);
      if k == -1 then -1
      else
        assert s[..k + 1] == [s[0]] + s[1..][..k];
        k + 1
  }

  /** The registry after `registerLink(x)`. */
  function Registered(s: seq<string>, x: string): seq<string>
  {
    if x in s then s else s + [x]
  }

  /** `s` with every occurrence of `x` dropped, the rest in order. */
  function Without(s: seq<string>, x: string): (r: seq<string>)
  {
    if s == [] then [] else (if s[0] == x then [] else [s[0]]) + Without(s[1..], x)
  }

  lemma {:induction false} WithoutMembers(s: seq<string>, x: string)
    ensures forall y :: y in Without(s, x) <==> y in s && y != x
    ensures x !in s ==> Without(s, x) == s
    decreases |s|
  {
    if s != [] {
      WithoutMembers(s[1..], x);
      assert s == [s[0]] + s[1..];
    }
  }

  lemma {:induction false} WithoutNoDuplicates(s: seq<string>, x: string)
    requires NoDuplicates(s)
    ensures NoDuplicates(Without(s, x))
    decreases |s|
  {
    if s != [] {
      assert NoDuplicates(s[1..]) by {
        forall i, j | 0 <= i < j < |s[1..]| ensures s[1..][i] != s[1..][j] {
          assert s[1..][i] == s[i + 1] && s[1..][j] == s[j + 1];
        }
      }
      WithoutNoDuplicates(s[1..], x);
      WithoutMembers(s[1..], x);
      var r := Without(s, x);
      if s[0] != x {
        assert s[0] !in s[1..];
        assert s[0] !in Without(s[1..], x);
        forall i, j | 0 <= i < j < |r| ensures r[i] != r[j] {
          if i == 0 {
            assert r[j] == Without(s[1..], x)[j - 1];
          } else {
            assert r[i] == Without(s[1..], x)[i - 1] && r[j] == Without(s[1..], x)[j - 1];
          }
        }
      }
    }
  }

  /** Splicing out the entry at `i` of a duplicate-free registry drops exactly
      that link and keeps the others in order. */
  lemma {:induction false} SpliceIsWithout(s: seq<string>, i: nat)
    requires NoDuplicates(s) && i < |s|
    ensures s[..i] + s[i + 1..] == Without(s, s[i])
    decreases i
  {
    var x := s[i];
    var t := s[1..];
    assert NoDuplicates(t) by {
      forall a, b | 0 <= a < b < |t| ensures t[a] != t[b] {
        assert t[a] == s[a + 1] && t[b] == s[b + 1];
      }
    }
    if i == 0 {
      assert x !in t by {
        forall k | 0 <= k < |t| ensures t[k] != x { assert t[k] == s[k + 1]; }
      }
      WithoutMembers(t, x);
      assert s[..0] + s[1..] == t;
    } else {
      assert t[i - 1] == x;
      SpliceIsWithout(t, i - 1);
      assert s[0] != x;
      assert s[..i] == [s[0]] + t[..i - 1];
      assert s[i + 1..] == t[i..];
    }
  }

  /** Registering is idempotent and keeps the registry duplicate-free; the
      registry then holds the old links and `x`. */
  lemma RegisteredFacts(s: seq<string>, x: string)
    ensures Registered(Registered(s, x), x) == Registered(s, x)
    ensures NoDuplicates(s) ==> NoDuplicates(Registered(s, x))
    ensures forall y :: y in Registered(s, x) <==> y in s || y == x
    ensures x in s ==> Registered(s, x) == s
  {
  }

  /** A call a child link makes on the registry. */
  datatype RegistryCall = Register(link: string) | Unregister(link: string)

  function Apply(s: seq<string>, call: RegistryCall): seq<string>
  {
    match call
    case Register(x) => Registered(s, x)
    case Unregister(x) => Without(s, x)
  }

  /** The registry after a sequence of calls. */
  function Replay(s: seq<string>, calls: seq<RegistryCall>): seq<string>
  {
    if calls == [] then s else Apply(Replay(s, calls[..|calls| - 1]), calls[|calls| - 1])
  }

  /** The last call in `calls` that names `x`, if any. */
  function LastCallOn(calls: seq<RegistryCall>, x: string): Option<RegistryCall>
  {
    if calls == [] then None
    else if calls[|calls| - 1].link == x then Some(calls[|calls| - 1])
    else LastCallOn(calls[..|calls| - 1], x)
  }

  /** After any sequence of register/unregister calls the registry has no
      duplicates and holds exactly the links whose last call was a register
      (plus the untouched initial links). */
  lemma {:induction false} ReplayRegistry(s: seq<string>, calls: seq<RegistryCall>, x: string)
    requires NoDuplicates(s)
    ensures NoDuplicates(Replay(s, calls))
    ensures x in Replay(s, calls) <==>
      match LastCallOn(calls, x)
      case None => x in s
      case Some(c) => c.Register?
    decreases |calls|
  {
    if calls != [] {
      var prev := Replay(s, calls[..|calls| - 1]);
      ReplayRegistry(s, calls[..|calls| - 1], x);
      match calls[|calls| - 1]
      case Register(y) =>
        RegisteredFacts(prev, y);
      case Unregister(y) =>
        WithoutMembers(prev, y);
        WithoutNoDuplicates(prev, y);
    }
  }

  // ---------------------------------------------------------------------------
  // The tracker's state

  /** `setCurrentActiveLink(link)` took the active link from `before` to
      `after` while the change log went from `log` to `log'`. */
  predicate ActiveLinkSet(before: Option<string>, log: seq<string>, link: string,
                          after: Option<string>, log': seq<string>)
  {
    if before == Some(link) then after == before && log' == log
    else after == Some(link) && log' == log + [link]
  }

  /** After a set the active link is `link`, and a change is emitted (with
      `link`) exactly when the active link was something else. */
  lemma ActiveLinkSetEmitsIffChanged(before: Option<string>, log: seq<string>, link: string,
                                     after: Option<string>, log': seq<string>)
    requires ActiveLinkSet(before, log, link, after, log')
    ensures after == Some(link)
    ensures log' != log <==> before != Some(link)
    ensures log' != log ==> log' == log + [link]
  {
  }

  class Tracker {
    /** `data.links`: the registered links, in registration order. */
    var links: seq<string>
    /** `data.activeLink`: `None` is the initial `null`. */
    var activeLink: Option<string>
    /** `data.animating`: a programmatic scroll is in flight. */
    var animating: bool
    /** The arguments of the emitted `change` events, oldest first. */
    var changes: seq<string>

    ghost predicate Valid()
      reads this`links
    {
      NoDuplicates(links)
    }

    constructor ()
      ensures Valid()
      ensures links == [] && activeLink == None && !animating && changes == []
    {
      links := [];
      activeLink := None;
      animating := false;
      changes := [];
    }

    /** `registerLink`: appends the link when it is not yet registered. */
    method RegisterLink(link: string)
      requires Valid()
      modifies this`links
      ensures Valid()
      ensures links == Registered(old(links), link)
    {
      if link !in links {
        links := links + [link];
      }
      RegisteredFacts(old(links), link);
    }

    /** `unregisterLink`: splices the link out when it is registered. */
    method UnregisterLink(link: string)
      requires Valid()
      modifies this`links
      ensures Valid()
      ensures links == Without(old(links), link)
    {
      var index := IndexOf(links, link);
      if index != -1 {
        SpliceIsWithout(links, index);
        links := links[..index] + links[index + 1..];
      } else {
        WithoutMembers(links, link);
      }
      WithoutNoDuplicates(old(links), link);
    }

    /** `getCurrentActiveLink(offsetTop, bounds)`; absent arguments take the defaults 0 and 5. */
    method GetCurrentActiveLink(offsetTop: Option<real>, bounds: Option<real>,
                                getCurrentAnchor: Option<string>, env: Env) returns (r: string)
      ensures r == CurrentActiveLink(links, getCurrentAnchor, env,
                                     offsetTop.GetOr(DefaultOffsetTop), bounds.GetOr(DefaultBounds))
    {
      var top0 := offsetTop.GetOr(DefaultOffsetTop);
      var bounds0 := bounds.GetOr(DefaultBounds);
      if getCurrentAnchor.Some? {
        return getCurrentAnchor.value;
      }
      if !env.hasDocument {
        return "";
      }
      var linkSections: seq<Section> := [];
      var i := 0;
      while i < |links|
        invariant 0 <= i <= |links|
        invariant linkSections == Sections(links[..i], env, top0 + bounds0)
      {
        var link := links[i];
        var sharpLinkMatch := Fragment(link);
        if sharpLinkMatch.Some? && sharpLinkMatch.value in env.elements {
          var top := OffsetTop(Some(env.elements[sharpLinkMatch.value]), env.container);
          if top < top0 + bounds0 {
            linkSections := linkSections + [Section(link, top)];
          }
        }
        assert links[..i + 1][..i] == links[..i];
        i := i + 1;
      }
      assert links[..i] == links;
      if |linkSections| > 0 {
        r := MaxSection(linkSections).link;
      } else {
        r := "";
      }
    }

    /** `setCurrentActiveLink`: updates and emits `change` only on a new value. */
    method SetCurrentActiveLink(link: string)
      modifies this`activeLink, this`changes
      ensures ActiveLinkSet(old(activeLink), old(changes), link, activeLink, changes)
    {
      if activeLink != Some(link) {
        activeLink := Some(link);
        changes := changes + [link];
      }
    }

    /** `handleScroll`: ignored while animating; otherwise recomputes the
        active link from the effective offset and the `bounds` prop. */
    method HandleScroll(props: Props, env: Env)
      modifies this`activeLink, this`changes
      ensures old(animating) ==> activeLink == old(activeLink) && changes == old(changes)
      ensures !old(animating) ==>
        ActiveLinkSet(old(activeLink), old(changes),
                      CurrentActiveLink(links, props.getCurrentAnchor, env,
                                        EffectiveOffset(props), props.bounds.GetOr(DefaultBounds)),
                      activeLink, changes)
    {
      if animating {
        return;
      }
      var currentActiveLink := GetCurrentActiveLink(Some(EffectiveOffset(props)), props.bounds,
                                                    props.getCurrentAnchor, env);
      SetCurrentActiveLink(currentActiveLink);
    }

    /** `handleScrollTo`: marks the link active at once; when its target
        resolves, starts the animation and returns the scroll destination
        `scrollTop + eleOffsetTop - effective offset`. `scrollTop` is what
        `getScroll` reported for the container. Without a DOM the source
        throws: the default `getContainer` reads `window` before the fragment is
        tested, and the target lookup reads `document`; hence the precondition. */
    method HandleScrollTo(link: string, props: Props, env: Env, scrollTop: real)
      returns (destination: Option<real>)
      requires env.hasDocument
      modifies this`activeLink, this`changes, this`animating
      ensures ActiveLinkSet(old(activeLink), old(changes), link, activeLink, changes)
      ensures destination.Some? <==> TargetTop(link, env).Some?
      ensures destination.Some? ==>
        destination.value == scrollTop + TargetTop(link, env).value - EffectiveOffset(props)
      ensures animating == (destination.Some? || old(animating))
    {
      SetCurrentActiveLink(link);
      var sharpLinkMatch := Fragment(link);
      if sharpLinkMatch.None? {
        return None;
      }
      if sharpLinkMatch.value !in env.elements {
        return None;
      }
      var eleOffsetTop := OffsetTop(Some(env.elements[sharpLinkMatch.value]), env.container);
      var y := scrollTop + eleOffsetTop;
      y := y - EffectiveOffset(props);
      animating := true;
      destination := Some(y);
    }

    /** The `scrollTo` completion callback. */
    method FinishAnimation()
      modifies this`animating
      ensures !animating
    {
      animating := false;
    }
  }
}
