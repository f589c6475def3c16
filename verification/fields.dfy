/**
 * The field extractor of `_extract_single_listing` as specification
 * functions: the ordered fallback queries of each field, the synthesized
 * address, the company filter, and what they guarantee.
 */
module Fields {
  import opened Text
  import opened Dom

  /** One extracted record: the four keys of the scraper's listing dictionary. */
  datatype Listing = Listing(company: string, location: string, yardBrief: string, address: string)

  /** Company: `h2`, `h3`, `a.*company*`, `a.*name*`, `*company*`, `*name*`. */
  const CompanyRules: seq<Query> := [
    Query(["h2"], []), Query(["h3"], []),
    Query(["a"], ["company"]), Query(["a"], ["name"]),
    Query([], ["company"]), Query([], ["name"])
  ]

  /** Location: `*location*`, `*city*`, `span.*location*`. */
  const LocationRules: seq<Query> := [
    Query([], ["location"]), Query([], ["city"]), Query(["span"], ["location"])
  ]

  /** YardBrief: `*brief*`, `*description*`, `*summary*`, then any `p`. */
  const BriefRules: seq<Query> := [
    Query([], ["brief"]), Query([], ["description"]), Query([], ["summary"]), Query(["p"], [])
  ]

  /** Address: `*address*`, then `*addr*`. */
  const AddressQuery: Query := Query([], ["address"])
  const AddrQuery: Query := Query([], ["addr"])
  const AddressRules: seq<Query> := [AddressQuery, AddrQuery]

  /** The pieces an address is synthesized from: `span`/`div` with a street, city, state or zip class. */
  const AddressPartQuery: Query := Query(["span", "div"], ["street", "city", "state", "zip"])

  /**
   * A Python `or` chain of `find` calls: the element found by the first
   * query that finds anything.  Later queries are consulted only when every
   * earlier one found nothing; the text of what is found plays no part.
   */
  function Resolve(rules: seq<Query>, root: Node): (r: Option<Node>)
    ensures r.Some? ==> r.value in Descendants(root)
  {
    if rules == [] then None
    else if Find(rules[0], root).Some? then Find(rules[0], root)
    else Resolve(rules[1..], root)
  }

  /**
   * Resolve finds nothing exactly when no query finds anything, and
   * otherwise gives what the k-th query finds, where no query before the
   * k-th finds anything.
   */
  lemma {:induction false} ResolveSpec(rules: seq<Query>, root: Node)
    ensures Resolve(rules, root).None? <==> forall k :: 0 <= k < |rules| ==> Find(rules[k], root).None?
    ensures Resolve(rules, root).Some? ==>
              exists k :: 0 <= k < |rules| && Find(rules[k], root) == Resolve(rules, root)
                          && forall j :: 0 <= j < k ==> Find(rules[j], root).None?
  {
    if rules != [] && Find(rules[0], root).None? {
      ResolveSpec(rules[1..], root);
      assert forall k :: 1 <= k < |rules| ==> rules[k] == rules[1..][k - 1];
      if Resolve(rules, root).Some? {
        var k :| 0 <= k < |rules[1..]| && Find(rules[1..][k], root) == Resolve(rules, root)
                 && forall j :: 0 <= j < k ==> Find(rules[1..][j], root).None?;
        assert Find(rules[k + 1], root) == Resolve(rules, root);
      }
    }
  }

  /** `elem.get_text(strip=True)` of the resolved element, or the default "" when none was found. */
  function FieldText(rules: seq<Query>, root: Node): (r: string)
    ensures IsTrimmed(r)
  {
    match Resolve(rules, root)
    case Some(e) => GetText(e)
    case None => ""
  }

  /** The stripped texts of `elems`, in order. */
  function Texts(elems: seq<Node>): (r: seq<string>)
    ensures |r| == |elems|
  {
    seq(|elems|, i requires 0 <= i < |elems| => GetText(elems[i]))
  }

  /** The texts of one more element are the texts so far followed by its text. */
  lemma TextsSnoc(elems: seq<Node>, i: nat)
    requires i < |elems|
    ensures Texts(elems[..i + 1]) == Texts(elems[..i]) + [GetText(elems[i])]
  {
  }

  /**
   * The address parts collected by the scraper's loop: each text is appended
   * when it is non-empty and not already among the parts.
   */
  function Distinct(texts: seq<string>): (r: seq<string>)
    ensures |r| <= |texts|
  {
    if texts == [] then []
    else
      var parts := Distinct(texts[..|texts| - 1]);
      var last := texts[|texts| - 1];
      if last != "" && last !in parts then parts + [last] else parts
  }

  /**
   * The collected parts hold no empty text, no text twice, only texts of
   * `texts`, and every non-empty text of `texts`.
   */
  lemma {:induction false} DistinctSpec(texts: seq<string>)
    ensures forall k :: 0 <= k < |Distinct(texts)| ==> Distinct(texts)[k] != "" && Distinct(texts)[k] in texts
    ensures forall i, j :: 0 <= i < j < |Distinct(texts)| ==> Distinct(texts)[i] != Distinct(texts)[j]
    ensures forall i :: 0 <= i < |texts| && texts[i] != "" ==> texts[i] in Distinct(texts)
  {
    if texts != [] {
      var init := texts[..|texts| - 1];
      DistinctSpec(init);
      assert forall i :: 0 <= i < |texts| - 1 ==> texts[i] == init[i];
    }
  }

  /** One step of the scraper's loop: a text is appended when it is non-empty and not yet collected. */
  lemma DistinctSnoc(texts: seq<string>, x: string)
    ensures Distinct(texts + [x]) ==
            if x != "" && x !in Distinct(texts) then Distinct(texts) + [x] else Distinct(texts)
  {
    assert (texts + [x])[..|texts|] == texts;
  }

  /** `s` with every copy of `x` removed. */
  function Without(s: seq<string>, x: string): (r: seq<string>)
    ensures |r| <= |s|
    ensures forall y :: y in r <==> y in s && y != x
  {
    if s == [] then [] else (if s[0] == x then [] else [s[0]]) + Without(s[1..], x)
  }

  lemma {:induction false} WithoutAppend(a: seq<string>, b: seq<string>, x: string)
    ensures Without(a + b, x) == Without(a, x) + Without(b, x)
  {
    if a == [] {
      assert a + b == b;
    } else {
      assert (a + b)[0] == a[0] && (a + b)[1..] == a[1..] + b;
      WithoutAppend(a[1..], b, x);
    }
  }

  /**
   * Reference definition of order-preserving deduplication, read from the
   * front: keep the first non-empty text and drop its later copies, then
   * continue with the rest.
   */
  function FirstOccurrences(s: seq<string>): seq<string>
    decreases |s|
  {
    if s == [] then []
    else if s[0] == "" then FirstOccurrences(s[1..])
    else [s[0]] + FirstOccurrences(Without(s[1..], s[0]))
  }

  /** Appending one text to the input appends it to FirstOccurrences exactly when it is new and non-empty. */
  lemma {:induction false} FirstOccurrencesSnoc(s: seq<string>, x: string)
    ensures FirstOccurrences(s + [x]) == FirstOccurrences(s) + (if x != "" && x !in s then [x] else [])
    decreases |s|
  {
    if s == [] {
      assert s + [x] == [x];
      assert Without([], x) == [];
    } else {
      var y, t := s[0], s[1..];
      assert s + [x] == [y] + (t + [x]);
      assert (s + [x])[1..] == t + [x];
      if y == "" {
        FirstOccurrencesSnoc(t, x);
      } else {
        WithoutAppend(t, [x], y);
        if x == y {
          assert Without([x], y) == [];
          assert Without(t, y) + [] == Without(t, y);
        } else {
          assert Without([x], y) == [x];
          FirstOccurrencesSnoc(Without(t, y), x);
        }
      }
    }
  }

  /**
   * The scraper's address parts are the non-empty texts at their first
   * occurrence, in document order, with every later duplicate dropped.
   */
  lemma {:induction false} DistinctIsFirstOccurrences(texts: seq<string>)
    ensures Distinct(texts) == FirstOccurrences(texts)
    decreases |texts|
  {
    if texts != [] {
      var init, last := texts[..|texts| - 1], texts[|texts| - 1];
      assert texts == init + [last];
      DistinctSpec(init);
      DistinctIsFirstOccurrences(init);
      FirstOccurrencesSnoc(init, last);
    }
  }

  /** The address text when no `*address*`/`*addr*` element exists: the distinct part texts joined by ", ". */
  function SynthesizedAddress(c: Node): (r: string)
    ensures IsTrimmed(r)
  {
    var texts := Texts(FindAll(AddressPartQuery, c));
    var parts := Distinct(texts);
    if parts != [] then
      DistinctSpec(texts);
      assert forall k :: 0 <= k < |parts| ==> parts[k] != "" && IsTrimmed(parts[k]);
      JoinTrimmed(parts, ", ");
      Join(parts, ", ")
    else ""
  }

  /** The Address field: the resolved element's text, or else the synthesized address. */
  function AddressText(c: Node): (r: string)
    ensures IsTrimmed(r)
  {
    match Resolve(AddressRules, c)
    case Some(e) => GetText(e)
    case None => SynthesizedAddress(c)
  }

  /** What `_extract_single_listing` returns for one container: a record, or None when Company is empty. */
  function ListingOf(c: Node): (r: Option<Listing>)
    ensures r.Some? ==> r.value.company != ""
    ensures r.Some? ==> && IsTrimmed(r.value.company) && IsTrimmed(r.value.location)
                        && IsTrimmed(r.value.yardBrief) && IsTrimmed(r.value.address)
  {
    var company := FieldText(CompanyRules, c);
    if company != "" then
      Some(Listing(company, FieldText(LocationRules, c), FieldText(BriefRules, c), AddressText(c)))
    else None
  }

  /**
   * The company filter: a record is produced exactly when the Company text is
   * non-empty; the record's Company is then non-empty, and every field is the
   * text its fallback chain resolves to.  Whether the optional fields were
   * found plays no part in the decision.
   */
  lemma CompanyFilter(c: Node)
    ensures ListingOf(c).Some? <==> FieldText(CompanyRules, c) != ""
    ensures ListingOf(c).Some? ==>
      var l := ListingOf(c).value;
      && l.company != ""
      && l.company == FieldText(CompanyRules, c)
      && l.location == FieldText(LocationRules, c)
      && l.yardBrief == FieldText(BriefRules, c)
      && l.address == AddressText(c)
  {
  }

  /**
   * Company is the stripped text of the element found by the k-th query
   * when all earlier queries found nothing, even when that text is empty
   * and a later query would find an element with text.
   */
  lemma CompanyFromFirstFound(c: Node, k: nat, e: Node)
    requires k < |CompanyRules| && Find(CompanyRules[k], c) == Some(e)
    requires forall j :: 0 <= j < k ==> Find(CompanyRules[j], c).None?
    ensures FieldText(CompanyRules, c) == GetText(e)
    ensures ListingOf(c).Some? <==> GetText(e) != ""
  {
    var r := Resolve(CompanyRules, c);
    ResolveSpec(CompanyRules, c);
    var k' :| 0 <= k' < |CompanyRules| && Find(CompanyRules[k'], c) == r
              && forall j :: 0 <= j < k' ==> Find(CompanyRules[j], c).None?;
    assert k' == k;
  }

  /** An empty `h2` makes Company empty, so the container yields no record, whatever follows it. */
  lemma EmptyHeadingDropsRecord(c: Node, h: Node)
    requires Find(Query(["h2"], []), c) == Some(h) && GetText(h) == ""
    ensures ListingOf(c) == None
  {
    CompanyFromFirstFound(c, 0, h);
  }

  /** A container in which no company query finds anything yields no record. */
  lemma NoCompanyElementNoRecord(c: Node)
    requires forall k :: 0 <= k < |CompanyRules| ==> Find(CompanyRules[k], c).None?
    ensures ListingOf(c) == None
  {
    ResolveSpec(CompanyRules, c);
  }

  /** Location, YardBrief and Address fall back to "" when nothing is found, without rejecting the record. */
  lemma OptionalFieldsDefault(c: Node)
    requires FieldText(CompanyRules, c) != ""
    ensures ListingOf(c).Some?
    ensures Resolve(LocationRules, c).None? ==> ListingOf(c).value.location == ""
    ensures Resolve(BriefRules, c).None? ==> ListingOf(c).value.yardBrief == ""
    ensures Resolve(AddressRules, c).None? && FindAll(AddressPartQuery, c) == []
            ==> ListingOf(c).value.address == ""
  {
  }

  /** Every `*address*` class is also an `*addr*` class. */
  lemma AddressMatchIsAddrMatch(n: Node)
    requires Matches(AddressQuery, n)
    ensures Matches(AddrQuery, n)
  {
    var address, addr := AddressQuery.keywords, AddrQuery.keywords;
    assert !AnyClassHas(n.classes, address[1..]);
    assert ClassHas(n.classes, address[0]);
    ClassHasSpec(n.classes, address[0]);
    var i :| 0 <= i < |n.classes| && Contains(Lower(n.classes[i]), address[0]);
    ContainsPrefix(Lower(n.classes[i]), address[0], addr[0]);
    ClassHasSpec(n.classes, addr[0]);
  }

  /**
   * The address is synthesized exactly when no element below the container
   * has a class containing "addr" (which covers "address").
   */
  lemma {:induction false} SynthesisExactlyWithoutAddr(c: Node)
    ensures Resolve(AddressRules, c).None? <==> NoAddrBelow(c)
  {
    var d := Descendants(c);
    forall i | 0 <= i < |d| && Matches(AddressQuery, d[i])
      ensures Matches(AddrQuery, d[i])
    {
      AddressMatchIsAddrMatch(d[i]);
    }
    FirstMatchSpec(AddressQuery, d);
    FirstMatchSpec(AddrQuery, d);
    ResolveSpec(AddressRules, c);
    assert Find(AddressRules[0], c) == FirstMatch(AddressQuery, d);
    assert Find(AddressRules[1], c) == FirstMatch(AddrQuery, d);
    assert |AddressRules| == 2;
  }

  /** No element strictly below `c` has a class containing "addr". */
  predicate NoAddrBelow(c: Node)
  {
    forall i :: 0 <= i < |Descendants(c)| ==> !Matches(AddrQuery, Descendants(c)[i])
  }

  /**
   * The synthesized address: its parts are the non-empty, pairwise distinct
   * part texts in document order of first occurrence, joined by ", ", and it
   * is empty only when every part text is.
   */
  lemma SynthesizedAddressShape(c: Node)
    ensures var texts := Texts(FindAll(AddressPartQuery, c));
            var parts := FirstOccurrences(texts);
            && SynthesizedAddress(c) == Join(parts, ", ")
            && (forall k :: 0 <= k < |parts| ==> parts[k] != "" && parts[k] in texts)
            && (forall i, j :: 0 <= i < j < |parts| ==> parts[i] != parts[j])
            && (SynthesizedAddress(c) == "" <==> forall i :: 0 <= i < |texts| ==> texts[i] == "")
  {
    var texts := Texts(FindAll(AddressPartQuery, c));
    var parts := Distinct(texts);
    DistinctSpec(texts);
    DistinctIsFirstOccurrences(texts);
    if parts != [] {
      JoinNonEmpty(parts, ", ", 0);
    }
  }

  /** The `span.*location*` query can never be reached: `*location*` already finds any such element. */
  lemma LocationSpanRuleUnreachable(c: Node)
    ensures Resolve(LocationRules, c) == Resolve(LocationRules[..2], c)
  {
    var d := Descendants(c);
    if Find(LocationRules[0], c).None? && Find(LocationRules[1], c).None? {
      FirstMatchSpec(LocationRules[0], d);
      FirstMatchSpec(LocationRules[2], d);
      assert forall i :: 0 <= i < |d| ==> !Matches(LocationRules[2], d[i]);
      assert Find(LocationRules[2], c).None?;
      ResolveSpec(LocationRules, c);
      ResolveSpec(LocationRules[..2], c);
    }
  }

  /** Three part texts, the first repeated last, give the first two joined. */
  lemma PhoenixExample()
    ensures Join(Distinct(["Phoenix", "AZ", "Phoenix"]), ", ") == "Phoenix, AZ"
  {
    assert ["Phoenix", "AZ", "Phoenix"][..2] == ["Phoenix", "AZ"];
    assert ["Phoenix", "AZ"][..1] == ["Phoenix"];
    assert ["Phoenix"][..0] == [];
  }
}
