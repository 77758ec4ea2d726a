/**
 * The directory search wrapper (`Zmbr._lSearch`).  A search is answered by the
 * directory server as a stream of pages, one per `result(lri, 0)` call; the
 * wrapper reads pages until the first page whose data is empty and keeps the
 * data of the search-entry pages, in arrival order.
 */
module Ldap {
  /** The result types a directory server tags a page with. */
  datatype ResultKind = SearchEntry | SearchReference | SearchResult

  /** One directory entry: its DN and every attribute mapped to its list of values. */
  datatype RawEntry = RawEntry(dn: string, attrs: map<string, seq<string>>)

  /** One page of a search response: its result type and its data. */
  datatype Page = Page(kind: ResultKind, data: seq<RawEntry>)

  /** The data of the search-entry pages of `pages`, in order; pages of other kinds are dropped. */
  function Entries(pages: seq<Page>): seq<seq<RawEntry>>
  {
    if pages == [] then []
    else
      var last := pages[|pages| - 1];
      Entries(pages[..|pages| - 1]) + (if last.kind == SearchEntry then [last.data] else [])
  }

  /** Index of the first page with empty data, or `|pages|` when the stream has none. */
  function FirstEmpty(pages: seq<Page>): (n: nat)
    ensures n <= |pages|
    ensures forall i :: 0 <= i < n ==> pages[i].data != []
    ensures n < |pages| ==> pages[n].data == []
  {
    if pages == [] then 0
    else if pages[0].data == [] then 0
    else 1 + FirstEmpty(pages[1..])
  }

  /** What a search returns: the entry pages that arrive before the first empty page. */
  function Drain(pages: seq<Page>): seq<seq<RawEntry>>
  {
    Entries(pages[..FirstEmpty(pages)])
  }

  /** Entry-page data is kept in arrival order: filtering distributes over concatenation. */
  lemma {:induction false} EntriesAppend(p: seq<Page>, q: seq<Page>)
    ensures Entries(p + q) == Entries(p) + Entries(q)
    decreases |q|
  {
    if q == [] {
      assert p + q == p;
    } else {
      var q' := q[..|q| - 1];
      assert (p + q)[..|p + q| - 1] == p + q';
      EntriesAppend(p, q');
    }
  }

  /** Exactly the search-entry pages contribute, and each contributes its whole data. */
  lemma {:induction false} EntriesMember(pages: seq<Page>, x: seq<RawEntry>)
    ensures x in Entries(pages) <==> exists i :: 0 <= i < |pages| && pages[i].kind == SearchEntry && pages[i].data == x
    decreases |pages|
  {
    if pages != [] {
      var init := pages[..|pages| - 1];
      EntriesMember(init, x);
      if x in Entries(init) {
        var i :| 0 <= i < |init| && init[i].kind == SearchEntry && init[i].data == x;
        assert pages[i] == init[i];
      }
      if exists i :: 0 <= i < |pages| && pages[i].kind == SearchEntry && pages[i].data == x {
        var i :| 0 <= i < |pages| && pages[i].kind == SearchEntry && pages[i].data == x;
        if i < |init| {
          assert init[i] == pages[i];
        }
      }
    }
  }

  /** Every list a search returns is a non-empty page of entries. */
  lemma {:induction false} DrainNonEmpty(pages: seq<Page>)
    ensures forall k :: 0 <= k < |Drain(pages)| ==> Drain(pages)[k] != []
  {
    var n := FirstEmpty(pages);
    var before := pages[..n];
    forall k | 0 <= k < |Drain(pages)|
      ensures Drain(pages)[k] != []
    {
      var x := Drain(pages)[k];
      EntriesMember(before, x);
      var i :| 0 <= i < |before| && before[i].kind == SearchEntry && before[i].data == x;
      assert before[i] == pages[i];
    }
  }

  /** Pages after the first empty page are never read. */
  lemma DrainStops(p: seq<Page>, stop: Page, q: seq<Page>)
    requires forall i :: 0 <= i < |p| ==> p[i].data != []
    requires stop.data == []
    ensures Drain(p + [stop] + q) == Entries(p)
  {
    var all := p + [stop] + q;
    var n := FirstEmpty(all);
    assert all[|p|] == stop;
    assert forall i :: 0 <= i < |p| ==> all[i] == p[i];
    assert n == |p|;
    assert all[..n] == p;
  }

  /** `_lSearch`: read pages until the first empty one, keeping search-entry data in order. */
  method LSearch(pages: seq<Page>) returns (result: seq<seq<RawEntry>>)
    ensures result == Drain(pages)
    ensures forall k :: 0 <= k < |result| ==> result[k] != []
  {
    result := [];
    var i := 0;
    while true
      invariant 0 <= i <= |pages|
      invariant forall j :: 0 <= j < i ==> pages[j].data != []
      invariant result == Entries(pages[..i])
      decreases |pages| - i
    {
      if i == |pages| || pages[i].data == [] {
        break;
      }
      if pages[i].kind == SearchEntry {
        result := result + [pages[i].data];
      }
      assert pages[..i + 1][..i] == pages[..i];
      i := i + 1;
    }
    assert i == FirstEmpty(pages);
    DrainNonEmpty(pages);
  }
}
