/**
 * An abstract parsed HTML page and the two BeautifulSoup queries the scraper
 * uses on it: `find` (the first matching element below a node, in document
 * order) and `find_all` (every matching element below a node, in document
 * order).  Tag objects are always truthy in BeautifulSoup, so "an element was
 * found" and "a truthy element was found" are the same thing here.
 */
module Dom {
  import opened Text

  datatype Option<T> = None | Some(value: T)

  /**
   * An element: its tag name, the tokens of its `class` attribute (empty
   * when the attribute is absent), its own text and its child elements.
   */
  datatype Node = Node(tag: string, classes: seq<string>, text: string, children: seq<Node>)

  /** Every element strictly below `n`, in document (pre-)order. */
  function Descendants(n: Node): seq<Node>
    decreases n, 1
  {
    Forest(n.children)
  }

  /** Every element of the forest `cs`, each followed by its own descendants. */
  function Forest(cs: seq<Node>): seq<Node>
    decreases cs, 0
  {
    if cs == [] then [] else [cs[0]] + Descendants(cs[0]) + Forest(cs[1..])
  }

  /**
   * `get_text(strip=True)`: every piece of text at or below `n`, each
   * stripped, concatenated with no separator.  The result never starts or
   * ends with whitespace.
   */
  function GetText(n: Node): (r: string)
    ensures IsTrimmed(r)
    decreases n, 1
  {
    var own, rest := Strip(n.text), ForestText(n.children);
    TrimmedConcat(own, rest);
    own + rest
  }

  /** The concatenated `get_text(strip=True)` of a run of elements, which is trimmed as well. */
  function ForestText(cs: seq<Node>): (r: string)
    ensures IsTrimmed(r)
    decreases cs, 0
  {
    if cs == [] then ""
    else
      var first, rest := GetText(cs[0]), ForestText(cs[1..]);
      TrimmedConcat(first, rest);
      first + rest
  }

  /**
   * The scraper's class filter `lambda x: x and kw in str(x).lower()`:
   * some class token, lower-cased, contains `kw`.  (BeautifulSoup also tries
   * the space-joined attribute value; since no keyword contains a space, a
   * match there is always a match inside one token.)
   */
  predicate ClassHas(classes: seq<string>, kw: string)
  {
    |classes| > 0 && (Contains(Lower(classes[0]), kw) || ClassHas(classes[1..], kw))
  }

  /** ClassHas holds exactly when one of the tokens contains the keyword. */
  lemma {:induction false} ClassHasSpec(classes: seq<string>, kw: string)
    ensures ClassHas(classes, kw) <==> exists i :: 0 <= i < |classes| && Contains(Lower(classes[i]), kw)
  {
    if |classes| > 0 {
      ClassHasSpec(classes[1..], kw);
      if ClassHas(classes[1..], kw) {
        var i :| 0 <= i < |classes| - 1 && Contains(Lower(classes[1..][i]), kw);
        assert classes[i + 1] == classes[1..][i];
      }
      if exists i :: 0 <= i < |classes| && Contains(Lower(classes[i]), kw) {
        var i :| 0 <= i < |classes| && Contains(Lower(classes[i]), kw);
        if i > 0 {
          assert classes[1..][i - 1] == classes[i];
        }
      }
    }
  }

  /** Some keyword of `kws` is found in the class tokens (the scraper's `or` of keyword tests). */
  predicate AnyClassHas(classes: seq<string>, kws: seq<string>)
  {
    |kws| > 0 && (ClassHas(classes, kws[0]) || AnyClassHas(classes, kws[1..]))
  }

  /**
   * The class filter ignores case: tokens that lower-case alike match the
   * same keywords, so in particular lower-casing the tokens first changes
   * nothing.
   */
  lemma {:induction false} ClassHasIgnoresCase(classes: seq<string>, other: seq<string>, kw: string)
    requires |classes| == |other|
    requires forall i :: 0 <= i < |classes| ==> Lower(classes[i]) == Lower(other[i])
    ensures ClassHas(classes, kw) <==> ClassHas(other, kw)
  {
    if |classes| > 0 {
      ClassHasIgnoresCase(classes[1..], other[1..], kw);
    }
  }

  /** Lower-casing the class tokens before filtering gives the same match. */
  lemma ClassHasOfLowered(classes: seq<string>, kw: string)
    ensures ClassHas(seq(|classes|, i requires 0 <= i < |classes| => Lower(classes[i])), kw)
            <==> ClassHas(classes, kw)
  {
    var lowered := seq(|classes|, i requires 0 <= i < |classes| => Lower(classes[i]));
    forall i | 0 <= i < |classes|
      ensures Lower(lowered[i]) == Lower(classes[i])
    {
      LowerIdempotent(classes[i]);
    }
    ClassHasIgnoresCase(lowered, classes, kw);
  }

  /**
   * One BeautifulSoup query: a list of tag names (empty: any tag) and a list
   * of class keywords (empty: no class filter).
   */
  datatype Query = Query(tags: seq<string>, keywords: seq<string>)

  predicate Matches(q: Query, n: Node)
  {
    && (q.tags == [] || n.tag in q.tags)
    && (q.keywords == [] || AnyClassHas(n.classes, q.keywords))
  }

  /** The first element of `s` the query matches, if any. */
  function FirstMatch(q: Query, s: seq<Node>): (r: Option<Node>)
    ensures r.Some? ==> r.value in s && Matches(q, r.value)
  {
    if s == [] then None
    else if Matches(q, s[0]) then Some(s[0])
    else FirstMatch(q, s[1..])
  }

  /**
   * FirstMatch finds nothing exactly when no element matches, and otherwise
   * finds a matching element before which no element matches.
   */
  lemma {:induction false} FirstMatchSpec(q: Query, s: seq<Node>)
    ensures FirstMatch(q, s).None? <==> forall i :: 0 <= i < |s| ==> !Matches(q, s[i])
    ensures FirstMatch(q, s).Some? ==>
              exists i :: 0 <= i < |s| && s[i] == FirstMatch(q, s).value && Matches(q, s[i])
                          && forall j :: 0 <= j < i ==> !Matches(q, s[j])
  {
    if s != [] && !Matches(q, s[0]) {
      FirstMatchSpec(q, s[1..]);
      assert forall i :: 1 <= i < |s| ==> s[i] == s[1..][i - 1];
      if FirstMatch(q, s).Some? {
        var i :| 0 <= i < |s[1..]| && s[1..][i] == FirstMatch(q, s).value && Matches(q, s[1..][i])
                 && forall j :: 0 <= j < i ==> !Matches(q, s[1..][j]);
        assert s[i + 1] == FirstMatch(q, s).value;
      }
    } else if s != [] {
      assert s[0] == FirstMatch(q, s).value;
    }
  }

  /** Conversely, an element that matches, with no match before it, is the one FirstMatch finds. */
  lemma {:induction false} FirstMatchAt(q: Query, s: seq<Node>, i: nat)
    requires i < |s| && Matches(q, s[i])
    requires forall j :: 0 <= j < i ==> !Matches(q, s[j])
    ensures FirstMatch(q, s) == Some(s[i])
  {
    if i > 0 {
      assert !Matches(q, s[0]);
      assert s[1..][i - 1] == s[i];
      FirstMatchAt(q, s[1..], i - 1);
    }
  }

  /** The elements of `s` the query matches, in the order of `s`. */
  function Filter(q: Query, s: seq<Node>): (r: seq<Node>)
    ensures |r| <= |s|
  {
    if s == [] then []
    else if Matches(q, s[0]) then [s[0]] + Filter(q, s[1..])
    else Filter(q, s[1..])
  }

  /** Filter keeps every element the query matches and nothing else. */
  lemma {:induction false} FilterSpec(q: Query, s: seq<Node>)
    ensures forall k :: 0 <= k < |Filter(q, s)| ==> Matches(q, Filter(q, s)[k]) && Filter(q, s)[k] in s
    ensures forall i :: 0 <= i < |s| && Matches(q, s[i]) ==> s[i] in Filter(q, s)
  {
    if s != [] {
      FilterSpec(q, s[1..]);
      assert forall i :: 1 <= i < |s| ==> s[i] == s[1..][i - 1];
    }
  }

  /** Filtering keeps relative order: filtering a concatenation concatenates the filtered parts. */
  lemma {:induction false} FilterAppend(q: Query, a: seq<Node>, b: seq<Node>)
    ensures Filter(q, a + b) == Filter(q, a) + Filter(q, b)
  {
    if a == [] {
      assert a + b == b;
    } else {
      assert (a + b)[0] == a[0] && (a + b)[1..] == a[1..] + b;
      FilterAppend(q, a[1..], b);
    }
  }

  /** `find` and `find_all` agree: the first match is the head of the list of all matches. */
  lemma {:induction false} FirstMatchIsFirstOfFilter(q: Query, s: seq<Node>)
    ensures FirstMatch(q, s) == if Filter(q, s) == [] then None else Some(Filter(q, s)[0])
  {
    if s != [] && !Matches(q, s[0]) {
      FirstMatchIsFirstOfFilter(q, s[1..]);
    }
  }

  /** `node.find(...)`: the first matching element strictly below `root`. */
  function Find(q: Query, root: Node): (r: Option<Node>)
    ensures r.Some? ==> r.value in Descendants(root) && Matches(q, r.value)
  {
    FirstMatch(q, Descendants(root))
  }

  /** `node.find_all(...)`: every matching element strictly below `root`, in document order. */
  function FindAll(q: Query, root: Node): (r: seq<Node>)
    ensures |r| <= |Descendants(root)|
  {
    Filter(q, Descendants(root))
  }
}
