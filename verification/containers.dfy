/**
 * The container locator and the record collector of `extract_listings`:
 * which elements are taken as listing containers, and which records come
 * out of them, as specification functions with their properties.
 */
module Containers {
  import opened Dom
  import opened Fields

  /** Strategy 1: `div`s whose class contains listing, yard, company or item. */
  const ListingDivQuery: Query := Query(["div"], ["listing", "yard", "company", "item"])

  /** Strategy 2: table rows. */
  const RowQuery: Query := Query(["tr"], [])

  /** Strategy 3: `article` and `section` elements. */
  const SectionQuery: Query := Query(["article", "section"], [])

  /** Python's `rows[1:]`: every row but the first, and nothing when there are no rows. */
  function DropHeaderRow(rows: seq<Node>): (r: seq<Node>)
    ensures |r| == if rows == [] then 0 else |rows| - 1
    ensures forall k :: 0 <= k < |r| ==> r[k] == rows[k + 1]
  {
    if rows == [] then [] else rows[1..]
  }

  /**
   * The containers: the result of the first strategy that yields any
   * element, in document order; the strategies are never merged.
   */
  function Locate(doc: Node): (r: seq<Node>)
    ensures |r| <= |Descendants(doc)|
  {
    var divs := FindAll(ListingDivQuery, doc);
    if divs != [] then divs
    else
      var rows := DropHeaderRow(FindAll(RowQuery, doc));
      if rows != [] then rows else FindAll(SectionQuery, doc)
  }

  /** Some element below `doc` matches `q`. */
  predicate AnyBelow(q: Query, doc: Node)
  {
    exists i :: 0 <= i < |Descendants(doc)| && Matches(q, Descendants(doc)[i])
  }

  lemma FindAllNonEmpty(q: Query, doc: Node)
    ensures FindAll(q, doc) != [] <==> AnyBelow(q, doc)
  {
    FilterSpec(q, Descendants(doc));
    if FindAll(q, doc) != [] {
      var r := FindAll(q, doc);
      assert r[0] in Descendants(doc) && Matches(q, r[0]);
    }
  }

  /**
   * Strategy precedence: when any `div` with a listing/yard/company/item
   * class exists, exactly those divs are the containers, in document order,
   * and table rows, articles and sections are not consulted.
   */
  lemma DivStrategyWins(doc: Node)
    requires AnyBelow(ListingDivQuery, doc)
    ensures Locate(doc) == FindAll(ListingDivQuery, doc)
    ensures forall k :: 0 <= k < |Locate(doc)| ==>
              Locate(doc)[k].tag == "div" && AnyClassHas(Locate(doc)[k].classes, ["listing", "yard", "company", "item"])
  {
    FindAllNonEmpty(ListingDivQuery, doc);
    FilterSpec(ListingDivQuery, Descendants(doc));
  }

  /**
   * Table-row strategy: with no such div, the containers are all table rows
   * but the first, one fewer than there are rows; with at most one row, the
   * containers are the `article` and `section` elements.
   */
  lemma RowStrategy(doc: Node)
    requires !AnyBelow(ListingDivQuery, doc)
    ensures var rows := FindAll(RowQuery, doc);
            && (|rows| >= 2 ==> Locate(doc) == rows[1..] && |Locate(doc)| == |rows| - 1)
            && (|rows| <= 1 ==> Locate(doc) == FindAll(SectionQuery, doc))
  {
    FindAllNonEmpty(ListingDivQuery, doc);
  }

  /** Every container lies below the document and is matched by one of the three strategies' queries. */
  lemma ContainersFromDocument(doc: Node)
    ensures forall k :: 0 <= k < |Locate(doc)| ==>
              && Locate(doc)[k] in Descendants(doc)
              && (Matches(ListingDivQuery, Locate(doc)[k]) || Matches(RowQuery, Locate(doc)[k])
                  || Matches(SectionQuery, Locate(doc)[k]))
  {
    var rows := FindAll(RowQuery, doc);
    FilterSpec(ListingDivQuery, Descendants(doc));
    FilterSpec(RowQuery, Descendants(doc));
    FilterSpec(SectionQuery, Descendants(doc));
    forall k | 0 <= k < |DropHeaderRow(rows)|
      ensures DropHeaderRow(rows)[k] in Descendants(doc) && Matches(RowQuery, DropHeaderRow(rows)[k])
    {
      assert DropHeaderRow(rows)[k] == rows[k + 1];
    }
  }

  /** The extractor's result for each container, in container order. */
  function Results(cs: seq<Node>): (r: seq<Option<Listing>>)
    ensures |r| == |cs| && forall j :: 0 <= j < |cs| ==> r[j] == ListingOf(cs[j])
  {
    seq(|cs|, j requires 0 <= j < |cs| => ListingOf(cs[j]))
  }

  /** The present values of `xs`, in order. */
  function Present<T>(xs: seq<Option<T>>): (r: seq<T>)
    ensures |r| <= |xs|
    ensures forall k :: 0 <= k < |r| ==> Some(r[k]) in xs
  {
    if xs == [] then []
    else
      var init, last := xs[..|xs| - 1], xs[|xs| - 1];
      var r := Present(init);
      assert forall k :: 0 <= k < |r| ==> Some(r[k]) in init;
      if last.Some? then r + [last.value] else r
  }

  /**
   * The records collected from `cs`: the non-None results of the field
   * extractor, in container order.  Each has a non-empty Company; there are
   * never more records than containers.
   */
  function Collect(cs: seq<Node>): (r: seq<Listing>)
    ensures |r| <= |cs|
    ensures forall k :: 0 <= k < |r| ==> r[k].company != ""
  {
    var r := Present(Results(cs));
    assert forall k :: 0 <= k < |r| ==> Some(r[k]) in Results(cs);
    r
  }

  /** Every collected record is the extractor's record for one of the containers. */
  lemma CollectFromContainers(cs: seq<Node>, k: nat)
    requires k < |Collect(cs)|
    ensures exists j :: 0 <= j < |cs| && ListingOf(cs[j]) == Some(Collect(cs)[k])
  {
    assert Some(Collect(cs)[k]) in Results(cs);
  }

  lemma {:induction false} PresentAppend<T>(a: seq<Option<T>>, b: seq<Option<T>>)
    ensures Present(a + b) == Present(a) + Present(b)
    decreases |b|
  {
    if b == [] {
      assert a + b == a;
    } else {
      var init := b[..|b| - 1];
      assert (a + b)[..|a + b| - 1] == a + init;
      assert (a + b)[|a + b| - 1] == b[|b| - 1];
      PresentAppend(a, init);
    }
  }

  /**
   * Order preservation: the records of two runs of containers are the
   * records of the first run followed by those of the second; nothing is
   * reordered, merged or dropped across containers.
   */
  lemma CollectAppend(a: seq<Node>, b: seq<Node>)
    ensures Collect(a + b) == Collect(a) + Collect(b)
  {
    assert Results(a + b) == Results(a) + Results(b);
    PresentAppend(Results(a), Results(b));
  }

  /** One more container adds its record, if it has one, at the end. */
  lemma CollectSnoc(cs: seq<Node>, c: Node)
    ensures Collect(cs + [c]) == if ListingOf(c).Some? then Collect(cs) + [ListingOf(c).value] else Collect(cs)
  {
    CollectAppend(cs, [c]);
    CollectOne(c);
  }

  /**
   * One step of the collector loop: after the first i containers gave
   * `result`, the record of container i, if any, is appended.
   */
  lemma CollectStep(cs: seq<Node>, i: nat, result: seq<Listing>, data: Option<Listing>)
    requires i < |cs| && result == Collect(cs[..i]) && data == ListingOf(cs[i])
    ensures Collect(cs[..i + 1]) == if data.Some? then result + [data.value] else result
  {
    assert cs[..i + 1] == cs[..i] + [cs[i]];
    CollectSnoc(cs[..i], cs[i]);
  }

  /** One container yields its record, or nothing when the extractor returns None. */
  lemma CollectOne(c: Node)
    ensures Collect([c]) == if ListingOf(c).Some? then [ListingOf(c).value] else []
  {
    assert Results([c]) == [ListingOf(c)];
    assert [ListingOf(c)][..0] == [];
  }
}
