/** The resource loader as a reference-counting protocol: items are loaded with the resources they refer to, shared
    resources are counted once per parent, and unloading revokes exactly what is no longer needed. */
module Loader {
  import opened Wrappers

  type Href = string
  type Url = nat

  /** A manifest item: loaded as it is, loaded after the resources its text refers to, or empty and never loaded. */
  datatype Item = Blob | Text(refs: seq<Href>) | Empty

  type Manifest = map<Href, Item>

  function RefsOf(manifest: Manifest, href: Href): seq<Href> {
    if href in manifest && manifest[href].Text? then manifest[href].refs else []
  }

  /** No item refers to itself, directly or not; references that are not in the manifest do not matter. */
  ghost predicate Acyclic(manifest: Manifest, rank: map<Href, nat>) {
    && manifest.Keys <= rank.Keys
    && forall p, c :: p in manifest && c in RefsOf(manifest, p) && c in manifest ==> rank[c] < rank[p]
  }

  /** Whether loading an item yields a URL. */
  predicate Loadable(manifest: Manifest, href: Href) {
    href in manifest && !manifest[href].Empty?
  }

  // ----- What the maps say

  function Parents(children: map<Href, seq<Href>>, h: Href): set<Href> {
    set p | p in children && h in children[p]
  }

  predicate Distinct(s: seq<Href>) {
    forall i, j :: 0 <= i < j < |s| ==> s[i] != s[j]
  }

  /** The lists of child resources: no duplicates, live children, references of the parent. Parents are live, or still
      open: being loaded or being taken down. */
  ghost predicate Listed(manifest: Manifest, cache: map<Href, Url>, children: map<Href, seq<Href>>, open: set<Href>) {
    && (forall h :: h in cache ==> Loadable(manifest, h))
    && open !! cache.Keys
    && children.Keys <= cache.Keys + open
    && forall p :: p in children ==> ListedUnder(manifest, cache, children[p], p)
  }

  predicate ListedUnder(manifest: Manifest, cache: map<Href, Url>, list: seq<Href>, p: Href) {
    Distinct(list) && forall c :: c in list ==> c in cache && p in manifest && c in RefsOf(manifest, p)
  }

  function ExpectedCount(children: map<Href, seq<Href>>, sections: set<Href>, owed: Option<Href>, h: Href): nat {
    |Parents(children, h)| + (if h in sections then 1 else 0) + (if owed == Some(h) then 1 else 0)
  }

  /** Every live resource is counted once for each parent that lists it, once more as a loaded section, and once more
      when it is owed a decrement; nothing is kept without a reason. */
  ghost predicate Counted(
    cache: map<Href, Url>, children: map<Href, seq<Href>>, refCount: map<Href, int>, sections: set<Href>, owed: Option<Href>)
  {
    && refCount.Keys == cache.Keys
    && sections <= cache.Keys
    && (owed.Some? ==> owed.value in cache)
    && forall h :: h in cache ==> refCount[h] == ExpectedCount(children, sections, owed, h) && refCount[h] >= 1
  }

  /** Every URL created so far belongs to exactly one live resource, or has been revoked exactly once. */
  ghost predicate Accounted(cache: map<Href, Url>, created: nat, revoked: seq<Url>) {
    && (forall h :: h in cache ==> cache[h] < created && cache[h] !in revoked)
    && (forall h, k :: h in cache && k in cache && h != k ==> cache[h] != cache[k])
    && (forall i :: 0 <= i < |revoked| ==> revoked[i] < created)
    && (forall i, j :: 0 <= i < j < |revoked| ==> revoked[i] != revoked[j])
    && (forall u :: 0 <= u < created ==> u in revoked || u in cache.Values)
  }

  lemma ParentsAfterUpdate(children: map<Href, seq<Href>>, p: Href, list: seq<Href>, h: Href)
    ensures Parents(children[p := list], h) == if h in list then Parents(children, h) + {p} else Parents(children, h) - {p}
  {
  }

  lemma ParentsAfterRemoval(children: map<Href, seq<Href>>, p: Href, h: Href)
    ensures Parents(children - {p}, h) == Parents(children, h) - {p}
  {
  }

  function ListOf(children: map<Href, seq<Href>>, p: Href): seq<Href> {
    if p in children then children[p] else []
  }

  lemma ParentIffListed(children: map<Href, seq<Href>>, p: Href, h: Href)
    ensures p in Parents(children, h) <==> h in ListOf(children, p)
  {
  }

  /** Unlisted resources have no parents. */
  lemma NotLiveNotListed(manifest: Manifest, cache: map<Href, Url>, children: map<Href, seq<Href>>, open: set<Href>, h: Href)
    requires Listed(manifest, cache, children, open) && h !in cache
    ensures Parents(children, h) == {}
  {
  }

  /** Listing one more child under a parent raises the expected count of that child alone. */
  lemma CountsAfterListing(children: map<Href, seq<Href>>, sections: set<Href>, owed: Option<Href>, p: Href, c: Href, h: Href)
    requires c !in ListOf(children, p)
    ensures ExpectedCount(children[p := ListOf(children, p) + [c]], sections, owed, h) ==
            ExpectedCount(children, sections, owed, h) + if h == c then 1 else 0
  {
    var list := ListOf(children, p) + [c];
    ParentsAfterUpdate(children, p, list, h);
    ParentIffListed(children, p, h);
    if h == c {
      assert Parents(children[p := list], h) == Parents(children, h) + {p};
    } else {
      assert h in list <==> h in ListOf(children, p);
      assert Parents(children[p := list], h) == Parents(children, h);
    }
  }

  /** Taking the last child off a list lowers the expected count of that child alone. */
  lemma CountsAfterPop(children: map<Href, seq<Href>>, sections: set<Href>, owed: Option<Href>, p: Href, h: Href)
    requires p in children && children[p] != [] && Distinct(children[p])
    ensures var list := children[p];
            ExpectedCount(children[p := list[..|list| - 1]], sections, owed, h) ==
            ExpectedCount(children, sections, owed, h) - if h == list[|list| - 1] then 1 else 0
  {
    var list := children[p];
    var c, rest := list[|list| - 1], list[..|list| - 1];
    ParentsAfterUpdate(children, p, rest, h);
    assert list == rest + [c];
    assert c !in rest;
    if h == c {
      assert p in Parents(children, h);
      assert Parents(children[p := rest], h) == Parents(children, h) - {p};
    } else {
      assert h in rest <==> h in list;
      assert Parents(children[p := rest], h) == Parents(children, h);
    }
  }

  /** Dropping an empty list changes no expected count. */
  lemma CountsAfterRemoval(children: map<Href, seq<Href>>, sections: set<Href>, owed: Option<Href>, p: Href, h: Href)
    requires ListOf(children, p) == []
    ensures ExpectedCount(children - {p}, sections, owed, h) == ExpectedCount(children, sections, owed, h)
  {
    ParentsAfterRemoval(children, p, h);
    ParentIffListed(children, p, h);
    assert Parents(children - {p}, h) == Parents(children, h);
  }

  lemma NotListed(manifest: Manifest, cache: map<Href, Url>, children: map<Href, seq<Href>>, open: set<Href>, p: Href, c: Href)
    requires Listed(manifest, cache, children, open) && c !in cache
    ensures c !in ListOf(children, p)
  {
  }

  // ----- The steps

  /** The loader's maps, with the browser's side: URLs are numbered as they are created, revoked ones kept in order. */
  datatype State = State(
    cache: map<Href, Url>, children: map<Href, seq<Href>>, refCount: map<Href, int>, created: nat, revoked: seq<Url>)

  ghost predicate Consistent(manifest: Manifest, s: State, sections: set<Href>, open: set<Href>, owed: Option<Href>) {
    && Listed(manifest, s.cache, s.children, open)
    && Counted(s.cache, s.children, s.refCount, sections, owed)
    && Accounted(s.cache, s.created, s.revoked)
  }

  /** The parent lists the child. */
  function Push(children: map<Href, seq<Href>>, p: Href, c: Href): map<Href, seq<Href>> {
    children[p := ListOf(children, p) + [c]]
  }

  function Created(s: State, href: Href, parent: Option<Href>): State {
    State(s.cache[href := s.created],
          if parent.Some? then Push(s.children, parent.value, href) else s.children,
          s.refCount[href := 1],
          s.created + 1,
          s.revoked)
  }

  function Referenced(s: State, href: Href, parent: Href): State
    requires href in s.refCount
  {
    if href in ListOf(s.children, parent) then s
    else s.(refCount := s.refCount[href := s.refCount[href] + 1], children := Push(s.children, parent, href))
  }

  function Released(s: State, href: Href): State
    requires href in s.refCount
  {
    s.(refCount := s.refCount[href := s.refCount[href] - 1])
  }

  function TakenDown(s: State, href: Href): State
    requires href in s.cache
  {
    s.(cache := s.cache - {href}, refCount := s.refCount - {href}, revoked := s.revoked + [s.cache[href]])
  }

  function Popped(s: State, href: Href): State
    requires ListOf(s.children, href) != []
  {
    s.(children := s.children[href := s.children[href][..|s.children[href]| - 1]])
  }

  function Closed(s: State, href: Href): State {
    s.(children := s.children - {href})
  }

  /** A child a parent may list: a reference of the parent, which is open or live. */
  predicate MayList(manifest: Manifest, s: State, open: set<Href>, p: Href, c: Href) {
    p in open + s.cache.Keys && p in manifest && c in RefsOf(manifest, p)
  }

  lemma PushKeepsListed(manifest: Manifest, cache: map<Href, Url>, children: map<Href, seq<Href>>, open: set<Href>, p: Href, c: Href)
    requires Listed(manifest, cache, children, open) && c in cache && c !in ListOf(children, p)
    requires p in open + cache.Keys && p in manifest && c in RefsOf(manifest, p)
    ensures Listed(manifest, cache, Push(children, p, c), open)
  {
  }

  lemma NewUrl(cache: map<Href, Url>, created: nat, revoked: seq<Url>, href: Href)
    requires Accounted(cache, created, revoked) && href !in cache
    ensures Accounted(cache[href := created], created + 1, revoked)
  {
    var next := cache[href := created];
    assert next[href] == created;
    forall u | 0 <= u < created + 1
      ensures u in revoked || u in next.Values
    {
      if u < created && u !in revoked {
        assert u in cache.Values;
        var h :| h in cache && cache[h] == u;
        assert next[h] == u;
      }
    }
  }

  lemma LiveKeepsListed(manifest: Manifest, cache: map<Href, Url>, children: map<Href, seq<Href>>, open: set<Href>, href: Href, u: Url)
    requires Listed(manifest, cache, children, open + {href}) && href !in open && Loadable(manifest, href)
    ensures Listed(manifest, cache[href := u], children, open)
  {
  }

  lemma CreatedIsListed(manifest: Manifest, s: State, open: set<Href>, href: Href, parent: Option<Href>)
    requires Listed(manifest, s.cache, s.children, open + {href}) && href !in open && Loadable(manifest, href)
    requires parent.Some? ==> MayList(manifest, s, open, parent.value, href)
    ensures Listed(manifest, Created(s, href, parent).cache, Created(s, href, parent).children, open)
  {
    hide Distinct, RefsOf, Push, Listed;
    LiveKeepsListed(manifest, s.cache, s.children, open, href, s.created);
    NotLive(manifest, s, open, href);
    if parent.Some? {
      NotListed(manifest, s.cache, s.children, open + {href}, parent.value, href);
      PushKeepsListed(manifest, s.cache[href := s.created], s.children, open, parent.value, href);
    }
  }

  lemma NotLive(manifest: Manifest, s: State, open: set<Href>, href: Href)
    requires Listed(manifest, s.cache, s.children, open + {href})
    ensures href !in s.cache
  {
  }

  lemma CreatedIsCounted(s: State, sections: set<Href>, href: Href, parent: Option<Href>)
    requires Counted(s.cache, s.children, s.refCount, sections, None)
    requires href !in s.cache && Parents(s.children, href) == {}
    ensures var next := Created(s, href, parent);
            Counted(next.cache, next.children, next.refCount, sections + (if parent.None? then {href} else {}), None)
  {
    hide ExpectedCount, Parents, Push;
    var next := Created(s, href, parent);
    var sections' := sections + if parent.None? then {href} else {};
    forall h | h in next.cache
      ensures next.refCount[h] == ExpectedCount(next.children, sections', None, h)
    {
      CreatedCounts(s.children, sections, parent, href, h);
    }
  }

  /** A new live item: listed by its parent, or loaded as a section. */
  lemma CreatedIsConsistent(manifest: Manifest, s: State, sections: set<Href>, open: set<Href>, href: Href, parent: Option<Href>)
    requires Consistent(manifest, s, sections, open + {href}, None) && href !in open && Loadable(manifest, href)
    requires parent.Some? ==> MayList(manifest, s, open, parent.value, href)
    ensures Consistent(manifest, Created(s, href, parent), sections + (if parent.None? then {href} else {}), open, None)
  {
    hide Listed, Counted, Accounted, Parents, Push, MayList;
    NotLive(manifest, s, open, href);
    NotLiveNotListed(manifest, s.cache, s.children, open + {href}, href);
    NewUrl(s.cache, s.created, s.revoked, href);
    CreatedIsListed(manifest, s, open, href, parent);
    CreatedIsCounted(s, sections, href, parent);
  }

  lemma CreatedCounts(children: map<Href, seq<Href>>, sections: set<Href>, parent: Option<Href>, href: Href, h: Href)
    requires Parents(children, href) == {} && href !in sections
    ensures var next := if parent.Some? then Push(children, parent.value, href) else children;
            var sections' := sections + if parent.None? then {href} else {};
            ExpectedCount(next, sections', None, h) == if h == href then 1 else ExpectedCount(children, sections, None, h)
  {
    if parent.Some? {
      ParentIffListed(children, parent.value, href);
      CountsAfterListing(children, sections, None, parent.value, href, h);
    }
  }

  /** One more parent for a live item. */
  lemma ReferencedIsConsistent(manifest: Manifest, s: State, sections: set<Href>, open: set<Href>, href: Href, parent: Href)
    requires Consistent(manifest, s, sections, open, None) && href in s.cache && MayList(manifest, s, open, parent, href)
    ensures Consistent(manifest, Referenced(s, href, parent), sections, open, None)
  {
    hide ExpectedCount, Parents, Distinct, RefsOf, Accounted;
    if href !in ListOf(s.children, parent) {
      PushKeepsListed(manifest, s.cache, s.children, open, parent, href);
      forall h | h in s.cache
        ensures ExpectedCount(Push(s.children, parent, href), sections, None, h) ==
                ExpectedCount(s.children, sections, None, h) + if h == href then 1 else 0
      {
        CountsAfterListing(s.children, sections, None, parent, href, h);
      }
    }
  }

  lemma PaidCounts(children: map<Href, seq<Href>>, sections: set<Href>, href: Href, h: Href)
    ensures ExpectedCount(children, sections, Some(href), h) ==
            ExpectedCount(children, sections, None, h) + if h == href then 1 else 0
  {
  }

  /** An owed decrement that leaves something. */
  lemma ReleasedIsConsistent(manifest: Manifest, s: State, sections: set<Href>, open: set<Href>, href: Href)
    requires Consistent(manifest, s, sections, open, Some(href)) && href in s.refCount && s.refCount[href] > 1
    ensures Consistent(manifest, Released(s, href), sections, open, None)
  {
  }

  lemma RevokedUrl(cache: map<Href, Url>, created: nat, revoked: seq<Url>, href: Href)
    requires Accounted(cache, created, revoked) && href in cache
    ensures Accounted(cache - {href}, created, revoked + [cache[href]])
  {
    var next := cache - {href};
    forall u | 0 <= u < created
      ensures u in revoked + [cache[href]] || u in next.Values
    {
      if u !in revoked && u != cache[href] {
        assert u in cache.Values;
        var h :| h in cache && cache[h] == u;
        assert next[h] == u;
      }
    }
  }

  lemma TakenDownIsListed(manifest: Manifest, s: State, open: set<Href>, href: Href)
    requires Listed(manifest, s.cache, s.children, open) && href in s.cache && Parents(s.children, href) == {}
    ensures href !in open && Listed(manifest, TakenDown(s, href).cache, s.children, open + {href})
  {
  }

  lemma TakenDownIsCounted(s: State, sections: set<Href>, href: Href)
    requires Counted(s.cache, s.children, s.refCount, sections, Some(href)) && href !in sections
    ensures var next := TakenDown(s, href); Counted(next.cache, s.children, next.refCount, sections, None)
  {
  }

  lemma LastReference(s: State, sections: set<Href>, href: Href)
    requires Counted(s.cache, s.children, s.refCount, sections, Some(href)) && href in s.refCount && s.refCount[href] <= 1
    ensures Parents(s.children, href) == {} && href !in sections
  {
  }

  /** An owed decrement that leaves nothing: nobody lists the item any more, and its URL is revoked. */
  lemma TakenDownIsConsistent(manifest: Manifest, s: State, sections: set<Href>, open: set<Href>, href: Href)
    requires Consistent(manifest, s, sections, open, Some(href)) && href in s.refCount && s.refCount[href] <= 1
    ensures href in s.cache && href !in open && Consistent(manifest, TakenDown(s, href), sections, open + {href}, None)
  {
    hide Listed, Accounted, ExpectedCount, Parents;
    LastReference(s, sections, href);
    RevokedUrl(s.cache, s.created, s.revoked, href);
    TakenDownIsListed(manifest, s, open, href);
    TakenDownIsCounted(s, sections, href);
  }

  /** Taking the last child off the list of an open item leaves that child owed a decrement. */
  lemma PoppedIsConsistent(manifest: Manifest, s: State, sections: set<Href>, open: set<Href>, href: Href)
    requires Consistent(manifest, s, sections, open, None) && href in s.children && s.children[href] != []
    ensures var list := s.children[href];
            var c := list[|list| - 1];
            c in s.cache && c in RefsOf(manifest, href) && Consistent(manifest, Popped(s, href), sections, open, Some(c))
  {
    hide ExpectedCount, Parents, Accounted, RefsOf;
    var list := s.children[href];
    var c, rest := list[|list| - 1], list[..|list| - 1];
    assert ListedUnder(manifest, s.cache, list, href);
    var next := s.children[href := rest];
    assert forall x :: x in rest ==> x in list;
    forall p | p in next
      ensures ListedUnder(manifest, s.cache, next[p], p)
    {
      assert p in s.children && ListedUnder(manifest, s.cache, s.children[p], p);
    }
    forall h | h in s.cache
      ensures ExpectedCount(next, sections, Some(c), h) == ExpectedCount(s.children, sections, None, h)
    {
      CountsAfterPop(s.children, sections, None, href, h);
      PaidCounts(next, sections, c, h);
    }
  }

  /** An open item without children is closed. */
  lemma ClosedIsConsistent(manifest: Manifest, s: State, sections: set<Href>, open: set<Href>, href: Href)
    requires Consistent(manifest, s, sections, open + {href}, None) && href !in open && ListOf(s.children, href) == []
    ensures Consistent(manifest, Closed(s, href), sections, open, None)
  {
    hide ExpectedCount, Parents, Accounted, RefsOf, Distinct;
    var next := s.children - {href};
    forall p | p in next
      ensures ListedUnder(manifest, s.cache, next[p], p)
    {
      assert ListedUnder(manifest, s.cache, s.children[p], p);
    }
    forall h | h in s.cache
      ensures ExpectedCount(next, sections, None, h) == ExpectedCount(s.children, sections, None, h)
    {
      CountsAfterRemoval(s.children, sections, None, href, h);
    }
  }

  /** A loaded section that is unloaded is owed a decrement instead. */
  lemma DroppedSectionIsOwed(manifest: Manifest, s: State, sections: set<Href>, href: Href)
    requires Consistent(manifest, s, sections, {}, None) && href in sections
    ensures Consistent(manifest, s, sections - {href}, {}, Some(href))
  {
  }

  // ----- Every reference of a live item is listed

  /** The lists leave no reference out; with `Listed`, a live item lists exactly its loadable references. */
  ghost predicate Complete(manifest: Manifest, cache: map<Href, Url>, children: map<Href, seq<Href>>) {
    forall p :: p in cache ==> ListsAll(manifest, ListOf(children, p), RefsOf(manifest, p))
  }

  predicate ListsAll(manifest: Manifest, list: seq<Href>, refs: seq<Href>) {
    forall c :: c in refs && Loadable(manifest, c) ==> c in list
  }

  /** No list loses an entry. */
  ghost predicate ListsGrow(before: map<Href, seq<Href>>, after: map<Href, seq<Href>>) {
    forall p, c :: c in ListOf(before, p) ==> c in ListOf(after, p)
  }

  /** The list of an item that is not live does not matter. */
  lemma CompleteElsewhere(
    manifest: Manifest, cache: map<Href, Url>, before: map<Href, seq<Href>>, after: map<Href, seq<Href>>, href: Href)
    requires Complete(manifest, cache, before) && href !in cache
    requires forall p :: p != href ==> ListOf(before, p) == ListOf(after, p)
    ensures Complete(manifest, cache, after)
  {
  }

  lemma GrowthIsTransitive(a: map<Href, seq<Href>>, b: map<Href, seq<Href>>, c: map<Href, seq<Href>>)
    requires ListsGrow(a, b) && ListsGrow(b, c)
    ensures ListsGrow(a, c)
  {
  }

  // ----- The loader

  class Loader {
    const manifest: Manifest
    ghost const rank: map<Href, nat>
    var cache: map<Href, Url>
    var children: map<Href, seq<Href>>
    var refCount: map<Href, int>
    var created: nat
    var revoked: seq<Url>
    ghost var sections: set<Href>

    ghost function Now(): State
      reads this
    {
      State(cache, children, refCount, created, revoked)
    }

    /** `open` items are being loaded or taken down; one resource may be owed a decrement. */
    ghost predicate Valid(open: set<Href>, owed: Option<Href>)
      reads this
    {
      && Acyclic(manifest, rank)
      && Consistent(manifest, Now(), sections, open, owed)
      && Complete(manifest, cache, children)
    }

    constructor (manifest: Manifest, ghost rank: map<Href, nat>)
      requires Acyclic(manifest, rank)
      ensures Valid({}, None) && this.manifest == manifest && this.rank == rank
      ensures Now() == State(map[], map[], map[], 0, []) && sections == {}
    {
      this.manifest := manifest;
      this.rank := rank;
      cache, children, refCount := map[], map[], map[];
      created, revoked := 0, [];
      sections := {};
    }

    method CreateURL(href: Href, parent: Option<Href>) returns (url: Url)
      modifies `cache, `children, `refCount, `created
      ensures Now() == Created(old(Now()), href, parent)
      ensures url == cache[href]
    {
      assert [] + [href] == [href];
      url := created;
      created := created + 1;
      cache := cache[href := url];
      refCount := refCount[href := 1];
      if parent.Some? {
        if parent.value in children {
          children := children[parent.value := children[parent.value] + [href]];
        } else {
          children := children[parent.value := [href]];
        }
      }
    }

    method Ref(href: Href, parent: Href) returns (url: Url)
      requires href in cache && href in refCount
      modifies `children, `refCount
      ensures Now() == Referenced(old(Now()), href, parent)
      ensures url == cache[href]
    {
      assert [] + [href] == [href];
      if parent !in children || href !in children[parent] {
        refCount := refCount[href := refCount[href] + 1];
        if parent in children {
          children := children[parent := children[parent] + [href]];
        } else {
          children := children[parent := [href]];
        }
      }
      url := cache[href];
    }

    /** Pays one owed decrement; what thereby becomes unused is revoked, with everything only it used. The lists of
        open items are left alone. */
    method Unref(href: Href, ghost open: set<Href>)
      requires Valid(open, if href in refCount then Some(href) else None)
      requires href in rank && forall p :: p in open ==> p in rank && rank[href] < rank[p]
      modifies this
      ensures Valid(open, None) && sections == old(sections)
      ensures forall p :: p in open ==> ListOf(children, p) == old(ListOf(children, p))
      ensures old(revoked) <= revoked && created == old(created)
      decreases rank[href], 1
    {
      hide Listed, Counted, Accounted, Complete, Acyclic;
      if href !in refCount {
        return;
      }
      RefCounted(manifest, Now(), sections, open, Some(href));
      var count := refCount[href] - 1;
      if count < 1 {
        TakenDownIsConsistent(manifest, Now(), sections, open, href);
        CompleteWithout(manifest, cache, children, href);
        revoked := revoked + [cache[href]];
        cache := cache - {href};
        refCount := refCount - {href};
        UnrefChildren(href, open);
        ClosedIsConsistent(manifest, Now(), sections, open, href);
        OpenIsNotLive(manifest, Now(), open + {href}, href);
        CompleteElsewhere(manifest, cache, children, children - {href}, href);
        children := children - {href};
      } else {
        ReleasedIsConsistent(manifest, Now(), sections, open, href);
        refCount := refCount[href := count];
      }
    }

    /** The loop that pops and releases the children of an item that has been taken down. */
    method UnrefChildren(href: Href, ghost open: set<Href>)
      requires Valid(open + {href}, None) && href !in open
      requires href in rank && forall p :: p in open ==> p in rank && rank[href] < rank[p]
      modifies this
      ensures Valid(open + {href}, None) && sections == old(sections)
      ensures ListOf(children, href) == []
      ensures forall p :: p in open ==> ListOf(children, p) == old(ListOf(children, p))
      ensures old(revoked) <= revoked && created == old(created)
      decreases rank[href], 0
    {
      hide Listed, Counted, Accounted, Complete;
      while href in children && children[href] != []
        invariant Valid(open + {href}, None) && sections == old(sections)
        invariant forall p :: p in open ==> ListOf(children, p) == old(ListOf(children, p))
        invariant old(revoked) <= revoked && created == old(created)
        decreases |ListOf(children, href)|
      {
        var list := children[href];
        var c := list[|list| - 1];
        PoppedIsConsistent(manifest, Now(), sections, open + {href}, href);
        ChildRank(manifest, Now(), sections, open + {href}, Some(c), href, c);
        OpenIsNotLive(manifest, Now(), open + {href}, href);
        CompleteElsewhere(manifest, cache, children, children[href := list[..|list| - 1]], href);
        children := children[href := list[..|list| - 1]];
        RefCounted(manifest, Now(), sections, open + {href}, Some(c));
        Unref(c, open + {href});
      }
    }

    /** Loads an item below the parents that are being loaded, resources first. */
    method LoadItem(href: Href, parents: seq<Href>) returns (url: Option<Url>)
      requires Valid(Opened(parents), None) && href in manifest
      requires forall p :: p in parents ==> p in rank && rank[href] < rank[p]
      requires parents != [] ==> parents[|parents| - 1] in manifest && href in RefsOf(manifest, parents[|parents| - 1])
      requires parents == [] ==> href !in cache
      modifies this
      ensures Valid(Opened(parents), None)
      ensures sections == old(sections) + if parents == [] && url.Some? then {href} else {}
      ensures url.Some? <==> Loadable(manifest, href)
      ensures url.Some? ==> href in cache && cache[href] == url.value
      ensures url.Some? && parents != [] ==> href in ListOf(children, parents[|parents| - 1])
      ensures ListsGrow(old(children), children)
      ensures forall h :: h in old(cache) ==> h in cache && cache[h] == old(cache[h])
      ensures revoked == old(revoked)
      decreases rank[href], 1
    {
      hide Listed, Counted, Accounted, Complete, Acyclic, RefsOf, ListsGrow;
      var parent := if parents == [] then None else Some(parents[|parents| - 1]);
      SameLists(children);
      if href in cache {
        RefCounted(manifest, Now(), sections, Opened(parents), None);
        ReferencedIsConsistent(manifest, Now(), sections, Opened(parents), href, parent.value);
        ReferencedGrows(manifest, Now(), href, parent.value);
        LiveIsLoadable(manifest, Now(), sections, Opened(parents), href);
        var u := Ref(href, parent.value);
        return Some(u);
      }
      assert forall p :: p in parents ==> p != href;
      match manifest[href] {
        case Empty =>
          return None;
        case Blob =>
          OpenNew(manifest, Now(), sections, Opened(parents), href);
          NoRefs(manifest, href, children);
        case Text(refs) =>
          OpenNew(manifest, Now(), sections, Opened(parents), href);
          TextRefs(manifest, href, refs);
          LoadReplaced(href, refs, parents);
      }
      CreatedIsConsistent(manifest, Now(), sections, Opened(parents), href, parent);
      CreatedIsComplete(manifest, Now(), href, parent);
      ghost var grown := children;
      var u := CreateURL(href, parent);
      GrowthIsTransitive(old(children), grown, children);
      sections := sections + if parents == [] then {href} else {};
      url := Some(u);
    }

    /** The references of a text, loaded one after the other. */
    method LoadReplaced(href: Href, refs: seq<Href>, parents: seq<Href>)
      requires Valid(Opened(parents) + {href}, None) && href in manifest && manifest[href] == Text(refs)
      requires href !in Opened(parents)
      requires forall p :: p in parents ==> p in rank && rank[href] < rank[p]
      modifies this
      ensures Valid(Opened(parents) + {href}, None) && sections == old(sections)
      ensures ListsAll(manifest, ListOf(children, href), refs)
      ensures ListsGrow(old(children), children)
      ensures forall h :: h in old(cache) ==> h in cache && cache[h] == old(cache[h])
      ensures revoked == old(revoked)
      decreases rank[href], 0
    {
      hide Listed, Counted, Accounted, Complete, ListsGrow;
      SameLists(children);
      var below := parents + [href];
      assert Opened(below) == Opened(parents) + {href};
      for i := 0 to |refs|
        invariant Valid(Opened(below), None) && sections == old(sections)
        invariant ListsAll(manifest, ListOf(children, href), refs[..i])
        invariant ListsGrow(old(children), children)
        invariant forall h :: h in old(cache) ==> h in cache && cache[h] == old(cache[h])
        invariant revoked == old(revoked)
      {
        var c := refs[i];
        ghost var before := children;
        SameLists(children);
        if c in manifest {
          assert c in RefsOf(manifest, href);
          assert below[|below| - 1] == href;
          var url := LoadItem(c, below);
        }
        GrowthIsTransitive(old(children), before, children);
        ListedSoFar(manifest, before, children, href, refs, i);
      }
      assert refs[..|refs|] == refs;
    }

    /** Unloads a section; for anything that is not loaded, nothing happens. */
    method UnloadItem(href: Href)
      requires Valid({}, None) && href in manifest && (href in sections || href !in cache)
      modifies this
      ensures Valid({}, None) && sections == old(sections) - {href}
      ensures old(revoked) <= revoked && created == old(created)
    {
      hide Listed, Counted, Accounted, Complete;
      RefCounted(manifest, Now(), sections, {}, None);
      SectionsAreLive(manifest, Now(), sections, {}, None);
      if href in sections {
        DroppedSectionIsOwed(manifest, Now(), sections, href);
      }
      assert href !in sections ==> sections - {href} == sections;
      sections := sections - {href};
      Unref(href, {});
    }

    /** A whole session: the live items at its end are those that the loaded sections need; when every section has been
        unloaded, nothing is left, and every URL ever created has been revoked exactly once. */
    method Run(steps: seq<Step>)
      requires Valid({}, None) && Legal(manifest, steps, sections)
      modifies this
      ensures Valid({}, None) && sections == LoadedAfter(manifest, steps, old(sections))
      ensures sections == {} ==> Now() == State(map[], map[], map[], created, revoked) && RevokedOnce(created, revoked)
    {
      hide Listed, Counted, Accounted, Complete, NeverReferenced;
      for i := 0 to |steps|
        invariant Valid({}, None)
        invariant Legal(manifest, steps[i..], sections)
        invariant LoadedAfter(manifest, steps[i..], sections) == LoadedAfter(manifest, steps, old(sections))
      {
        assert steps[i..][0] == steps[i] && steps[i..][1..] == steps[i + 1..];
        var h := steps[i].href;
        assert Opened([]) == {};
        if steps[i].Load? {
          NeverReferencedIsNotLive(manifest, Now(), sections, h);
          var url := LoadItem(h, []);
        } else {
          if h !in sections {
            NeverReferencedIsNotLive(manifest, Now(), sections, h);
          }
          UnloadItem(h);
        }
      }
      NothingIsLeft(manifest, rank, Now(), sections);
    }
  }

  // ----- Sessions

  /** A section is loaded or unloaded. */
  datatype Step = Load(href: Href) | Unload(href: Href)

  /** Sections are never resources of other items. */
  ghost predicate NeverReferenced(manifest: Manifest, href: Href) {
    forall p :: p in manifest ==> href !in RefsOf(manifest, p)
  }

  /** Sections are loaded at most once between unloads. */
  ghost predicate Legal(manifest: Manifest, steps: seq<Step>, loaded: set<Href>) {
    steps == [] ||
    (&& steps[0].href in manifest
     && NeverReferenced(manifest, steps[0].href)
     && (steps[0].Load? ==> steps[0].href !in loaded)
     && Legal(manifest, steps[1..], Loaded(manifest, steps[0], loaded)))
  }

  function Loaded(manifest: Manifest, step: Step, loaded: set<Href>): set<Href> {
    match step
    case Load(h) => loaded + if Loadable(manifest, h) then {h} else {}
    case Unload(h) => loaded - {h}
  }

  function LoadedAfter(manifest: Manifest, steps: seq<Step>, loaded: set<Href>): set<Href> {
    if steps == [] then loaded else LoadedAfter(manifest, steps[1..], Loaded(manifest, steps[0], loaded))
  }

  /** A live item that is not a loaded section is listed by a live item that refers to it. */
  lemma LiveItemIsNeeded(manifest: Manifest, s: State, sections: set<Href>, h: Href) returns (p: Href)
    requires Consistent(manifest, s, sections, {}, None) && h in s.cache && h !in sections
    ensures h in manifest && p in manifest && p in s.cache && h in RefsOf(manifest, p)
  {
    hide Accounted, RefsOf, Distinct;
    assert s.refCount[h] == ExpectedCount(s.children, sections, None, h);
    p :| p in Parents(s.children, h);
    assert ListedUnder(manifest, s.cache, s.children[p], p);
  }

  lemma NeverReferencedIsNotLive(manifest: Manifest, s: State, sections: set<Href>, h: Href)
    requires Consistent(manifest, s, sections, {}, None) && h !in sections && NeverReferenced(manifest, h)
    ensures h !in s.cache
  {
  }

  /** In a settled state, whatever a live item lists is live, its URL is usable, and its count is the number of live
      items that list it, plus one for a loaded section. */
  lemma ListedResourcesAreLive(manifest: Manifest, s: State, sections: set<Href>, p: Href, c: Href)
    requires Consistent(manifest, s, sections, {}, None) && Complete(manifest, s.cache, s.children)
    requires p in s.cache
    ensures c in ListOf(s.children, p) <==> c in RefsOf(manifest, p) && Loadable(manifest, c)
    ensures c in ListOf(s.children, p) ==>
              && c in s.cache && s.cache[c] !in s.revoked
              && c in s.refCount
              && s.refCount[c] == |set q | q in s.cache && c in ListOf(s.children, q)| + (if c in sections then 1 else 0)
  {
    hide Distinct, RefsOf, Loadable;
    assert ListsAll(manifest, ListOf(s.children, p), RefsOf(manifest, p));
    if p in s.children {
      assert ListedUnder(manifest, s.cache, s.children[p], p);
    }
    if c in ListOf(s.children, p) {
      assert Parents(s.children, c) == set q | q in s.cache && c in ListOf(s.children, q);
      assert s.refCount[c] == ExpectedCount(s.children, sections, None, c);
    }
  }

  /** A way from one item to another along loadable references. */
  ghost predicate IsWay(manifest: Manifest, way: seq<Href>, from: Href, to: Href) {
    && way != [] && way[0] == from && way[|way| - 1] == to
    && (forall k :: 0 <= k < |way| ==> Loadable(manifest, way[k]))
    && (forall k :: 0 <= k < |way| - 1 ==> IsReference(manifest, way, k))
  }

  predicate IsReference(manifest: Manifest, way: seq<Href>, k: nat)
    requires k + 1 < |way|
  {
    way[k + 1] in RefsOf(manifest, way[k])
  }

  lemma {:induction false} WayIsLive(manifest: Manifest, s: State, sections: set<Href>, way: seq<Href>, from: Href, to: Href)
    requires Consistent(manifest, s, sections, {}, None) && Complete(manifest, s.cache, s.children)
    requires from in s.cache && IsWay(manifest, way, from, to)
    ensures to in s.cache
    decreases |way|
  {
    hide Consistent, Complete, Loadable, RefsOf, ListOf;
    if |way| > 1 {
      var next := way[1];
      assert IsReference(manifest, way, 0) && Loadable(manifest, next);
      ListedResourcesAreLive(manifest, s, sections, from, next);
      var rest := way[1..];
      forall k | 0 <= k < |rest| - 1
        ensures IsReference(manifest, rest, k)
      {
        assert IsReference(manifest, way, k + 1);
      }
      WayIsLive(manifest, s, sections, rest, next, to);
    }
  }

  lemma {:induction false} WayToLive(manifest: Manifest, rank: map<Href, nat>, s: State, sections: set<Href>, h: Href, top: nat)
    returns (way: seq<Href>)
    requires Acyclic(manifest, rank) && Consistent(manifest, s, sections, {}, None) && h in s.cache
    requires forall q :: q in s.cache && q in rank ==> rank[q] <= top
    ensures way != [] && way[0] in sections && IsWay(manifest, way, way[0], h)
    decreases if h in rank && rank[h] <= top then top - rank[h] else 0
  {
    hide Consistent, RefsOf;
    LiveIsLoadable(manifest, s, sections, {}, h);
    if h in sections {
      way := [h];
    } else {
      var p := LiveItemIsNeeded(manifest, s, sections, h);
      var before := WayToLive(manifest, rank, s, sections, p, top);
      way := before + [h];
      forall k | 0 <= k < |way| - 1
        ensures IsReference(manifest, way, k)
      {
        if k < |before| - 1 {
          assert IsReference(manifest, before, k);
        }
      }
    }
  }

  /** In a settled state exactly those items are live to which loadable references lead from a loaded section. */
  lemma LiveIffReachable(manifest: Manifest, rank: map<Href, nat>, s: State, sections: set<Href>, h: Href)
    requires Acyclic(manifest, rank)
    requires Consistent(manifest, s, sections, {}, None) && Complete(manifest, s.cache, s.children)
    ensures h in s.cache <==> exists way :: way != [] && way[0] in sections && IsWay(manifest, way, way[0], h)
  {
    hide Complete, Acyclic, IsWay, Listed, Counted, Accounted;
    SectionsAreLive(manifest, s, sections, {}, None);
    if h in s.cache {
      LiveAreRanked(manifest, rank, s.cache.Keys);
      var top := HighestRank(s.cache.Keys, rank);
      var way := WayToLive(manifest, rank, s, sections, h, rank[top]);
    }
    forall way | way != [] && way[0] in sections && IsWay(manifest, way, way[0], h)
      ensures h in s.cache
    {
      WayIsLive(manifest, s, sections, way, way[0], h);
    }
  }

  lemma LiveAreRanked(manifest: Manifest, rank: map<Href, nat>, items: set<Href>)
    requires Acyclic(manifest, rank) && items <= manifest.Keys
    ensures items <= rank.Keys
  {
  }

  /** A finite set of items has one of highest rank. */
  lemma {:induction false} HighestRank(items: set<Href>, rank: map<Href, nat>) returns (top: Href)
    requires items != {} && items <= rank.Keys
    ensures top in items && forall h :: h in items ==> rank[h] <= rank[top]
    decreases |items|
  {
    var h :| h in items;
    if items == {h} {
      top := h;
    } else {
      var rest := items - {h};
      assert items == rest + {h};
      var t := HighestRank(rest, rank);
      top := if rank[t] < rank[h] then h else t;
    }
  }

  ghost predicate RevokedOnce(created: nat, revoked: seq<Url>) {
    && (forall u :: 0 <= u < created ==> u in revoked)
    && (forall i :: 0 <= i < |revoked| ==> revoked[i] < created)
    && (forall i, j :: 0 <= i < j < |revoked| ==> revoked[i] != revoked[j])
  }

  /** Without loaded sections nothing is live: the item of highest rank would have no parent. */
  lemma NothingIsLive(manifest: Manifest, rank: map<Href, nat>, s: State)
    requires Acyclic(manifest, rank) && Consistent(manifest, s, {}, {}, None)
    ensures s.cache == map[]
  {
    LiveItemsAreRanked(manifest, rank, s);
    hide Listed, Counted, Accounted, RefsOf;
    if s.cache.Keys != {} {
      var top := HighestRank(s.cache.Keys, rank);
      var p := LiveItemIsNeeded(manifest, s, {}, top);
      assert false;
    }
  }

  lemma LiveItemsAreRanked(manifest: Manifest, rank: map<Href, nat>, s: State)
    requires Acyclic(manifest, rank) && Consistent(manifest, s, {}, {}, None)
    ensures s.cache.Keys <= rank.Keys
  {
  }

  lemma NothingIsLeft(manifest: Manifest, rank: map<Href, nat>, s: State, sections: set<Href>)
    requires Acyclic(manifest, rank) && Consistent(manifest, s, sections, {}, None)
    ensures sections == {} ==> s.cache == map[] && s.refCount == map[] && s.children == map[] && RevokedOnce(s.created, s.revoked)
  {
    hide RefsOf, Distinct, Acyclic;
    if sections == {} {
      NothingIsLive(manifest, rank, s);
      assert s.children.Keys == {} && s.refCount.Keys == {};
    }
  }

  function Opened(parents: seq<Href>): set<Href> {
    set p | p in parents
  }

  lemma SameLists(children: map<Href, seq<Href>>)
    ensures ListsGrow(children, children)
  {
  }

  lemma ReferencedGrows(manifest: Manifest, s: State, href: Href, parent: Href)
    requires Complete(manifest, s.cache, s.children) && href in s.refCount
    ensures var next := Referenced(s, href, parent);
            && Complete(manifest, next.cache, next.children)
            && ListsGrow(s.children, next.children)
            && href in ListOf(next.children, parent)
  {
  }

  lemma LiveIsLoadable(manifest: Manifest, s: State, sections: set<Href>, open: set<Href>, href: Href)
    requires Consistent(manifest, s, sections, open, None) && href in s.cache
    ensures Loadable(manifest, href)
  {
  }

  /** An item that is not live can be opened. */
  lemma OpenNew(manifest: Manifest, s: State, sections: set<Href>, open: set<Href>, href: Href)
    requires Consistent(manifest, s, sections, open, None) && href !in s.cache
    ensures Consistent(manifest, s, sections, open + {href}, None)
  {
  }

  lemma TextRefs(manifest: Manifest, href: Href, refs: seq<Href>)
    requires href in manifest && manifest[href] == Text(refs)
    ensures RefsOf(manifest, href) == refs
  {
  }

  lemma NoRefs(manifest: Manifest, href: Href, children: map<Href, seq<Href>>)
    requires href in manifest && manifest[href].Blob?
    ensures ListsAll(manifest, ListOf(children, href), RefsOf(manifest, href))
  {
  }

  lemma CreatedIsComplete(manifest: Manifest, s: State, href: Href, parent: Option<Href>)
    requires Complete(manifest, s.cache, s.children) && ListsAll(manifest, ListOf(s.children, href), RefsOf(manifest, href))
    ensures var next := Created(s, href, parent);
            && Complete(manifest, next.cache, next.children)
            && ListsGrow(s.children, next.children)
            && (parent.Some? ==> href in ListOf(next.children, parent.value))
  {
  }

  lemma ListedSoFar(
    manifest: Manifest, before: map<Href, seq<Href>>, after: map<Href, seq<Href>>, href: Href, refs: seq<Href>, i: nat)
    requires i < |refs| && ListsGrow(before, after) && ListsAll(manifest, ListOf(before, href), refs[..i])
    requires Loadable(manifest, refs[i]) ==> refs[i] in ListOf(after, href)
    ensures ListsAll(manifest, ListOf(after, href), refs[..i + 1])
  {
  }

  lemma SectionsAreLive(manifest: Manifest, s: State, sections: set<Href>, open: set<Href>, owed: Option<Href>)
    requires Consistent(manifest, s, sections, open, owed)
    ensures sections <= s.cache.Keys && s.cache.Keys <= manifest.Keys
  {
  }

  lemma RefCounted(manifest: Manifest, s: State, sections: set<Href>, open: set<Href>, owed: Option<Href>)
    requires Consistent(manifest, s, sections, open, owed)
    ensures s.refCount.Keys == s.cache.Keys && (owed.Some? ==> owed.value in s.refCount)
  {
  }

  lemma OpenIsNotLive(manifest: Manifest, s: State, open: set<Href>, href: Href)
    requires Listed(manifest, s.cache, s.children, open) && href in open
    ensures href !in s.cache
  {
  }

  lemma CompleteWithout(manifest: Manifest, cache: map<Href, Url>, children: map<Href, seq<Href>>, href: Href)
    requires Complete(manifest, cache, children)
    ensures Complete(manifest, cache - {href}, children)
  {
  }

  lemma ChildRank(manifest: Manifest, s: State, sections: set<Href>, open: set<Href>, owed: Option<Href>, href: Href, c: Href)
    requires Consistent(manifest, s, sections, open, None) && c in s.cache && c in RefsOf(manifest, href)
    ensures c in manifest && href in manifest
  {
  }
}
