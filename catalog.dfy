/** The remote catalog walk (`get_remote_files`). One variant is shared by
    etl/loader_pipeline.py and etl/loader.py (it skips malformed listing
    entries and reports failure as `None`); etl/loaderpost.py has the other
    (it indexes listing entries directly, so a malformed one raises, and it
    reports every failure as an empty dict). HTTP is replaced by the sequence
    of responses the listing endpoint gives for pages 1, 2, ... */
module Catalog {
  import opened Base

  /** One element of a listing page: something that is not a JSON object, or
      an object with optional 'type' and 'name' keys. */
  datatype Item = NotAnObject | Item(kind: Option<string>, name: Option<string>)

  /** The response for one page: a failure (timeout, non-2xx status,
      undecodable body), or the listed items and whether a 'next' link is
      present. A page beyond the given sequence reads as an empty page. */
  datatype Page = Failed | Page(items: seq<Item>, hasNext: bool)

  predicate EndsWithJson(s: string) { |s| >= 5 && s[|s| - 5..] == ".json" }

  /** `isinstance(f, dict) and f.get('type') == 'file' and f.get('name', '').endswith('.json')`. */
  predicate Eligible(f: Item)
  {
    f.Item? && f.kind == Some("file") && f.name.Some? && EndsWithJson(f.name.value)
  }

  /** Names of the eligible items of one page, in listing order. */
  function KeptNames(items: seq<Item>): (names: seq<string>)
    ensures forall n :: n in names <==> exists i :: 0 <= i < |items| && Eligible(items[i]) && items[i].name.value == n
  {
    if items == [] then []
    else
      var init, last := items[..|items| - 1], items[|items| - 1];
      var rest := KeptNames(init);
      assert forall i :: 0 <= i < |init| ==> init[i] == items[i];
      if Eligible(last) then rest + [last.name.value] else rest
  }

  /** The dict comprehension `{f['name']: f for f in all_files}` keeps one key
      per name, in order of first appearance. */
  function Dedup(s: seq<string>): (d: seq<string>)
    ensures forall x :: x in d <==> x in s
    ensures forall i, j :: 0 <= i < j < |d| ==> d[i] != d[j]
  {
    if s == [] then []
    else
      var init := Dedup(s[..|s| - 1]);
      assert forall x :: x in s <==> x in s[..|s| - 1] || x == s[|s| - 1];
      if s[|s| - 1] in init then init else init + [s[|s| - 1]]
  }

  /** Names accumulated from page `p` on, or None when a request fails. */
  function WalkFrom(pages: seq<Page>, p: nat): Option<seq<string>>
    decreases |pages| - p
  {
    if p >= |pages| then Some([])
    else match pages[p]
      case Failed => None
      case Page(items, hasNext) =>
        if items == [] then Some([])
        else if !hasNext then Some(KeptNames(items))
        else match WalkFrom(pages, p + 1)
          case None => None
          case Some(rest) => Some(KeptNames(items) + rest)
  }

  /** `get_remote_files()` of etl/loader_pipeline.py and etl/loader.py: the
      catalog's file names (the keys of the returned dict), or None. */
  function RemoteFiles(pages: seq<Page>): Option<seq<string>>
  {
    match WalkFrom(pages, 0)
    case None => None
    case Some(all) => Some(Dedup(all))
  }

  /** Page `q` is requested when the walk starts at `p`: every page from `p`
      up to `q` was fetched, was non-empty and had a 'next' link. */
  ghost predicate RequestedFrom(pages: seq<Page>, p: nat, q: nat)
  {
    p <= q && forall r :: p <= r < q ==> Continues(pages, r)
  }

  /** Page `r` was fetched, was not empty and had a 'next' link. */
  predicate Continues(pages: seq<Page>, r: int)
  {
    0 <= r < |pages| && pages[r].Page? && pages[r].items != [] && pages[r].hasNext
  }

  /** The walk fails exactly when it requests a page that fails; otherwise a
      name is in the catalog exactly when an eligible item with that name is on
      a page it requests. */
  lemma {:induction false} WalkFromSpec(pages: seq<Page>, p: nat)
    ensures WalkFrom(pages, p).None? <==> exists q: nat :: RequestedFrom(pages, p, q) && q < |pages| && pages[q].Failed?
    ensures WalkFrom(pages, p).Some? ==> forall n :: n in WalkFrom(pages, p).value <==>
              exists q: nat, i :: RequestedFrom(pages, p, q) && q < |pages| && pages[q].Page? &&
                             0 <= i < |pages[q].items| && Eligible(pages[q].items[i]) && pages[q].items[i].name.value == n
    decreases |pages| - p
  {
    forall q: nat | RequestedFrom(pages, p, q) && q != p ensures Continues(pages, p) { }
    if Continues(pages, p) {
      WalkFromSpec(pages, p + 1);
      forall q: nat | RequestedFrom(pages, p + 1, q) ensures RequestedFrom(pages, p, q) { }
      forall q: nat | RequestedFrom(pages, p, q) && q != p ensures RequestedFrom(pages, p + 1, q) { }
      assert RequestedFrom(pages, p, p);
    }
  }

  /** The catalog walk holds every eligible name from the pages it requests and
      nothing else, each name once; it is None exactly when a requested page
      fails. */
  lemma RemoteFilesSpec(pages: seq<Page>)
    ensures RemoteFiles(pages).None? <==> exists q: nat :: RequestedFrom(pages, 0, q) && q < |pages| && pages[q].Failed?
    ensures RemoteFiles(pages).Some? ==> forall n :: n in RemoteFiles(pages).value <==>
              exists q: nat, i :: RequestedFrom(pages, 0, q) && q < |pages| && pages[q].Page? &&
                             0 <= i < |pages[q].items| && Eligible(pages[q].items[i]) && pages[q].items[i].name.value == n
    ensures RemoteFiles(pages).Some? ==> forall i, j :: 0 <= i < j < |RemoteFiles(pages).value| ==>
              RemoteFiles(pages).value[i] != RemoteFiles(pages).value[j]
  {
    WalkFromSpec(pages, 0);
  }

  function Prepend(acc: seq<string>, rest: Option<seq<string>>): Option<seq<string>>
  {
    match rest
    case None => None
    case Some(r) => Some(acc + r)
  }

  lemma PrependFacts(a: seq<string>, b: seq<string>, rest: Option<seq<string>>)
    ensures Prepend([], rest) == rest
    ensures Prepend(a, Prepend(b, rest)) == Prepend(a + b, rest)
  {
    if rest.Some? {
      assert [] + rest.value == rest.value;
      assert a + (b + rest.value) == (a + b) + rest.value;
    }
  }

  /** The paginated loop of `get_remote_files` (etl/loader_pipeline.py and
      etl/loader.py): request pages until one is empty or has no 'next' link;
      any failure returns None. */
  method GetRemoteFiles(pages: seq<Page>) returns (r: Option<seq<string>>)
    ensures r == RemoteFiles(pages)
  {
    var page := 0;
    var allFiles: seq<string> := [];
    PrependFacts([], [], WalkFrom(pages, 0));
    while true
      invariant page <= |pages|
      invariant WalkFrom(pages, 0) == Prepend(allFiles, WalkFrom(pages, page))
      decreases |pages| - page
    {
      if page == |pages| {
        assert allFiles + [] == allFiles;
        break;
      }
      match pages[page]
      case Failed =>
        return None;
      case Page(items, hasNext) =>
        if items == [] {
          assert allFiles + [] == allFiles;
          break;
        }
        PrependFacts(allFiles, KeptNames(items), WalkFrom(pages, page + 1));
        allFiles := allFiles + KeptNames(items);
        if !hasNext {
          break;
        }
        page := page + 1;
    }
    r := Some(Dedup(allFiles));
  }

  // ----- etl/loaderpost.py -----

  /** `f['type'] == 'file' and f['name'].endswith('.json')` raises on this item:
      it is not an object, it has no 'type', or it is a file without 'name'. */
  predicate RaisesInFilter(f: Item)
  {
    f.NotAnObject? || f.kind.None? || (f.kind == Some("file") && f.name.None?)
  }

  /** The loaderpost list comprehension: None when some item raises. */
  function PostKeptNames(items: seq<Item>): (r: Option<seq<string>>)
    ensures r.None? <==> exists i :: 0 <= i < |items| && RaisesInFilter(items[i])
    ensures r.Some? ==> r.value == KeptNames(items)
  {
    if items == [] then Some([])
    else
      var init, last := items[..|items| - 1], items[|items| - 1];
      assert forall i :: 0 <= i < |init| ==> init[i] == items[i];
      match PostKeptNames(init)
      case None => None
      case Some(rest) => if RaisesInFilter(last) then None else if Eligible(last) then Some(rest + [last.name.value]) else Some(rest)
  }

  function PostWalkFrom(pages: seq<Page>, p: nat): Option<seq<string>>
    decreases |pages| - p
  {
    if p >= |pages| then Some([])
    else match pages[p]
      case Failed => None
      case Page(items, hasNext) =>
        if items == [] then Some([])
        else match PostKeptNames(items)
          case None => None
          case Some(kept) =>
            if !hasNext then Some(kept)
            else match PostWalkFrom(pages, p + 1)
              case None => None
              case Some(rest) => Some(kept + rest)
  }

  /** `get_remote_files()` of etl/loaderpost.py: every exception yields `{}`. */
  function PostRemoteFiles(pages: seq<Page>): seq<string>
  {
    match PostWalkFrom(pages, 0)
    case None => []
    case Some(all) => Dedup(all)
  }

  /** No requested page holds an item that the loaderpost filter cannot read. */
  ghost predicate WellFormedFrom(pages: seq<Page>, p: nat)
  {
    forall q: nat, i :: RequestedFrom(pages, p, q) && q < |pages| && pages[q].Page? && 0 <= i < |pages[q].items| ==>
      !RaisesInFilter(pages[q].items[i])
  }

  /** The two catalog variants agree on well-formed listings, and where the
      first reports a failure (None) loaderpost reports an empty catalog. */
  lemma {:induction false} PostWalkAgrees(pages: seq<Page>, p: nat)
    ensures WalkFrom(pages, p).None? ==> PostWalkFrom(pages, p).None?
    ensures WellFormedFrom(pages, p) ==> PostWalkFrom(pages, p) == WalkFrom(pages, p)
    decreases |pages| - p
  {
    if p < |pages| && pages[p].Page? && pages[p].items != [] {
      if pages[p].hasNext {
        PostWalkAgrees(pages, p + 1);
        if WellFormedFrom(pages, p) {
          forall q: nat, i | RequestedFrom(pages, p + 1, q) && q < |pages| && pages[q].Page? && 0 <= i < |pages[q].items|
            ensures !RaisesInFilter(pages[q].items[i])
          {
            assert RequestedFrom(pages, p, q);
          }
          assert RequestedFrom(pages, p, p);
        }
      } else if WellFormedFrom(pages, p) {
        assert RequestedFrom(pages, p, p);
      }
    }
  }

  /** An item the loaderpost filter cannot read, on any page the walk
      requests, makes the whole walk fail. */
  lemma {:induction false} PostWalkFailsIfMalformed(pages: seq<Page>, p: nat)
    ensures !WellFormedFrom(pages, p) ==> PostWalkFrom(pages, p).None?
    decreases |pages| - p
  {
    if !WellFormedFrom(pages, p) {
      var q: nat, i :| RequestedFrom(pages, p, q) && q < |pages| && pages[q].Page? && 0 <= i < |pages[q].items| &&
                       RaisesInFilter(pages[q].items[i]);
      if q == p {
        assert PostKeptNames(pages[p].items).None?;
      } else {
        assert Continues(pages, p);
        assert RequestedFrom(pages, p + 1, q);
        PostWalkFailsIfMalformed(pages, p + 1);
      }
    }
  }

  /** loaderpost's catalog is empty exactly where the first variant fails or a
      requested page holds an unreadable item, and agrees with it elsewhere. */
  lemma PostRemoteFilesAgree(pages: seq<Page>)
    ensures RemoteFiles(pages).None? ==> PostRemoteFiles(pages) == []
    ensures !WellFormedFrom(pages, 0) ==> PostRemoteFiles(pages) == []
    ensures WellFormedFrom(pages, 0) && RemoteFiles(pages).Some? ==> PostRemoteFiles(pages) == RemoteFiles(pages).value
  {
    PostWalkAgrees(pages, 0);
    PostWalkFailsIfMalformed(pages, 0);
  }

  /** The paginated loop of `get_remote_files` in etl/loaderpost.py. */
  method PostGetRemoteFiles(pages: seq<Page>) returns (r: seq<string>)
    ensures r == PostRemoteFiles(pages)
  {
    var page := 0;
    var allFiles: seq<string> := [];
    PrependFacts([], [], PostWalkFrom(pages, 0));
    while true
      invariant page <= |pages|
      invariant PostWalkFrom(pages, 0) == Prepend(allFiles, PostWalkFrom(pages, page))
      decreases |pages| - page
    {
      if page == |pages| {
        assert allFiles + [] == allFiles;
        break;
      }
      match pages[page]
      case Failed =>
        return [];
      case Page(items, hasNext) =>
        if items == [] {
          assert allFiles + [] == allFiles;
          break;
        }
        var kept := PostKeptNames(items);
        if kept.None? {
          return [];
        }
        PrependFacts(allFiles, kept.value, PostWalkFrom(pages, page + 1));
        allFiles := allFiles + kept.value;
        if !hasNext {
          break;
        }
        page := page + 1;
    }
    r := Dedup(allFiles);
  }
}
