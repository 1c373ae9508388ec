/** Paging by the key of the last row seen. */
module Keyset {
  import opened Wrappers

  /** Rows are ordered by creation time, then id. */
  datatype Key = Key(created: int, id: nat)

  predicate Less(a: Key, b: Key) { a.created < b.created || (a.created == b.created && a.id < b.id) }

  predicate IsAfter(k: Key, after: Option<Key>) { after.Some? ==> Less(after.value, k) }

  /** The next rows in order, as many as fit, and all of them when they do not fill the page. */
  predicate IsPage(rows: set<Key>, after: Option<Key>, page: seq<Key>, limit: nat) {
    && |page| <= limit
    && (forall i :: 0 <= i < |page| ==> page[i] in rows && IsAfter(page[i], after))
    && (forall i, j :: 0 <= i < j < |page| ==> Less(page[i], page[j]))
    && (forall k <- rows :: IsAfter(k, after) && (|page| < limit || page == [] || !Less(page[|page| - 1], k)) ==>
         k in page)
  }

  function Least(a: Key, b: Key): Key { if Less(b, a) then b else a }

  method LeastOf(rows: set<Key>) returns (least: Key)
    requires rows != {}
    ensures least in rows && forall k <- rows :: k == least || Less(least, k)
  {
    least :| least in rows;
    var rest := rows - {least};
    while rest != {}
      invariant rest <= rows && least in rows
      invariant forall k <- rows :: k in rest || k == least || Less(least, k)
      decreases rest
    {
      var k :| k in rest;
      rest := rest - {k};
      least := Least(least, k);
    }
  }

  method NextPage(rows: set<Key>, after: Option<Key>, limit: nat) returns (page: seq<Key>)
    requires limit > 0
    ensures IsPage(rows, after, page, limit)
  {
    page := [];
    var rest := set k | k in rows && IsAfter(k, after);
    while rest != {} && |page| < limit
      invariant |page| <= limit && rest <= rows
      invariant forall k <- rows :: IsAfter(k, after) <==> k in rest || k in page
      invariant forall i :: 0 <= i < |page| ==> page[i] in rows && IsAfter(page[i], after)
      invariant forall i, j :: 0 <= i < j < |page| ==> Less(page[i], page[j])
      invariant forall i, k :: 0 <= i < |page| && k in rest ==> Less(page[i], k)
      decreases rest
    {
      var least := LeastOf(rest);
      page := page + [least];
      rest := rest - {least};
    }
  }

  // --------------------------------------------------- a scan over changing rows

  /** Each page is read from the rows of its moment, after the last row of the page
      before; the scan ends at the first empty page. */
  datatype Visit = Visit(rows: set<Key>, after: Option<Key>, page: seq<Key>)

  predicate IsVisit(v: Visit, limit: nat) { IsPage(v.rows, v.after, v.page, limit) }

  predicate Follows(v: Visit, w: Visit) { v.page != [] && w.after == Some(v.page[|v.page| - 1]) }

  predicate IsScan(scan: seq<Visit>, limit: nat) {
    && limit > 0 && scan != [] && scan[0].after == None && scan[|scan| - 1].page == []
    && (forall i :: 0 <= i < |scan| ==> IsVisit(scan[i], limit))
    && (forall i :: 0 <= i < |scan| - 1 ==> Follows(scan[i], scan[i + 1]))
  }

  predicate Visited(scan: seq<Visit>, n: nat, k: Key)
    requires n <= |scan|
  {
    exists j :: 0 <= j < n && k in scan[j].page
  }

  /** A row is on the page, or still ahead of the next one. */
  lemma SeenOrNext(v: Visit, w: Visit, limit: nat, k: Key)
    requires IsVisit(v, limit) && Follows(v, w) && k in v.rows && IsAfter(k, v.after)
    ensures k in v.page || IsAfter(k, w.after)
  {
  }

  lemma {:induction false} SeenOrAhead(scan: seq<Visit>, limit: nat, k: Key, i: nat)
    requires IsScan(scan, limit) && i < |scan| && forall j :: 0 <= j < |scan| ==> k in scan[j].rows
    ensures IsAfter(k, scan[i].after) || Visited(scan, i, k)
  {
    hide IsVisit, Follows, IsAfter;
    if i > 0 {
      SeenOrAhead(scan, limit, k, i - 1);
      assert Follows(scan[i - 1], scan[i - 1 + 1]);
      if IsAfter(k, scan[i - 1].after) {
        SeenOrNext(scan[i - 1], scan[i], limit, k);
      }
    } else {
      assert IsAfter(k, None) by { BeforeAll(k); }
    }
  }

  lemma BeforeAll(k: Key)
    ensures IsAfter(k, None)
  {
  }

  /** A row there throughout the scan is visited, whatever rows come and go around it. */
  lemma ScanVisitsAll(scan: seq<Visit>, limit: nat, k: Key)
    requires IsScan(scan, limit) && forall j :: 0 <= j < |scan| ==> k in scan[j].rows
    ensures Visited(scan, |scan|, k)
  {
    hide IsPage;
    var last := |scan| - 1;
    SeenOrAhead(scan, limit, k, last);
    if IsAfter(k, scan[last].after) {
      EmptyPageIsEnd(scan[last], limit, k);
    }
  }

  lemma EmptyPageIsEnd(v: Visit, limit: nat, k: Key)
    requires IsVisit(v, limit) && v.page == [] && k in v.rows
    ensures !IsAfter(k, v.after)
  {
  }

  lemma LessThanNext(v: Visit, w: Visit, limit: nat, b: Key)
    requires IsVisit(v, limit) && IsVisit(w, limit) && Follows(v, w) && b in w.page
    ensures forall a <- v.page :: Less(a, b)
    ensures v.page[|v.page| - 1] in v.page
  {
  }

  lemma {:induction false} PagesAscend(scan: seq<Visit>, limit: nat, i: nat, j: nat, a: Key, b: Key)
    requires IsScan(scan, limit) && i < j < |scan| && a in scan[i].page && b in scan[j].page
    ensures Less(a, b)
  {
    hide IsVisit;
    assert Follows(scan[j - 1], scan[j - 1 + 1]);
    LessThanNext(scan[j - 1], scan[j], limit, b);
    if i < j - 1 {
      PagesAscend(scan, limit, i, j - 1, a, scan[j - 1].page[|scan[j - 1].page| - 1]);
    }
  }

  /** No row is visited twice. */
  lemma VisitedOnce(scan: seq<Visit>, limit: nat, i: nat, j: nat, k: Key)
    requires IsScan(scan, limit) && i < |scan| && j < |scan| && k in scan[i].page && k in scan[j].page
    ensures i == j
  {
    hide IsScan;
    if i < j {
      PagesAscend(scan, limit, i, j, k, k);
    } else if j < i {
      PagesAscend(scan, limit, j, i, k, k);
    }
  }
}
