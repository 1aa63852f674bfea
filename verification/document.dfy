/** The parsed page as an immutable sequence of elements in document order, with the
    two queries the analyzer uses: find the first match, find all matches. */
module Document {
  import opened Basics

  /** One parsed element: its tag name as the parser reports it (lower case), its
      attributes, `.text` (all descendant text) and `.string` (the single string
      child, `None` when the element has no single string child). */
  datatype Element = Element(tag: string, attrs: map<string, string>, text: string, str: Option<string>)

  /** `el.get(name, default)`. */
  function Get(e: Element, name: string, default: string): string {
    if name in e.attrs then e.attrs[name] else default
  }

  /** Attribute `name` is present with exactly the value `value` (`attrs={name: value}`). */
  predicate HasAttr(e: Element, name: string, value: string) {
    name in e.attrs && e.attrs[name] == value
  }

  /** `i` is the position of the first element of `doc` satisfying `p`. */
  ghost predicate FirstAt(doc: seq<Element>, p: Element -> bool, i: int) {
    0 <= i < |doc| && p(doc[i]) && forall j :: 0 <= j < i ==> !p(doc[j])
  }

  /** `find`: the position of the first element satisfying `p`, if any. */
  function FindFirst(doc: seq<Element>, p: Element -> bool): (r: Option<nat>)
    ensures r.Some? ==> FirstAt(doc, p, r.value)
    ensures r.None? ==> forall j :: 0 <= j < |doc| ==> !p(doc[j])
  {
    if doc == [] then None
    else if p(doc[0]) then Some(0)
    else match FindFirst(doc[1..], p)
      case None => None
      case Some(k) =>
        assert forall j :: 1 <= j <= k + 1 ==> doc[j] == doc[1..][j - 1];
        Some(k + 1)
  }

  /** `find_all`: every element satisfying `p`, in document order. */
  function FindAll(doc: seq<Element>, p: Element -> bool): (r: seq<Element>)
    ensures |r| <= |doc|
    ensures forall i | 0 <= i < |r| :: p(r[i])
    ensures forall e | e in r :: e in doc && p(e)
  {
    if doc == [] then []
    else
      assert forall j | 1 <= j < |doc| :: doc[j] == doc[1..][j - 1];
      (if p(doc[0]) then [doc[0]] else []) + FindAll(doc[1..], p)
  }

  /** `find_all` finds nothing exactly when no element matches. */
  lemma {:induction false} FindAllEmptyIff(doc: seq<Element>, p: Element -> bool)
    ensures FindAll(doc, p) == [] <==> forall j :: 0 <= j < |doc| ==> !p(doc[j])
  {
    if doc != [] {
      FindAllEmptyIff(doc[1..], p);
      assert forall j | 1 <= j < |doc| :: doc[j] == doc[1..][j - 1];
    }
  }

  lemma FindAllSingle(e: Element, p: Element -> bool)
    ensures FindAll([e], p) == if p(e) then [e] else []
  {
    assert [e][1..] == [];
  }

  lemma FindAllPair(a: Element, b: Element, p: Element -> bool)
    ensures FindAll([a, b], p) == (if p(a) then [a] else []) + (if p(b) then [b] else [])
  {
    assert [a, b] == [a] + [b];
    FindAllAppend([a], [b], p);
    FindAllSingle(a, p);
    FindAllSingle(b, p);
  }

  /** `find_all` returns one element per matching position. */
  lemma {:induction false} FindAllCountsMatches(doc: seq<Element>, p: Element -> bool)
    ensures |FindAll(doc, p)| == |Where(doc, p)|
    decreases |doc|
  {
    if doc != [] {
      var prefix := doc[..|doc| - 1];
      var last := doc[|doc| - 1];
      assert doc == prefix + [last];
      FindAllCountsMatches(prefix, p);
      FindAllAppend(prefix, [last], p);
      FindAllSingle(last, p);
      WhereSnoc(prefix, last, p);
    }
  }

  /** `find` succeeds exactly when `find_all` is non-empty, and returns its first entry. */
  lemma {:induction false} FindFirstIsHeadOfFindAll(doc: seq<Element>, p: Element -> bool)
    ensures FindFirst(doc, p).Some? <==> FindAll(doc, p) != []
    ensures FindFirst(doc, p).Some? ==> FindAll(doc, p)[0] == doc[FindFirst(doc, p).value]
  {
    if doc != [] && !p(doc[0]) {
      FindFirstIsHeadOfFindAll(doc[1..], p);
    }
  }

  /** Whatever satisfies `p` also satisfies `q`: `find_all` by `p` finds no more. */
  lemma {:induction false} FindAllWeaker(doc: seq<Element>, p: Element -> bool, q: Element -> bool)
    requires forall e :: p(e) ==> q(e)
    ensures |FindAll(doc, p)| <= |FindAll(doc, q)|
  {
    if doc != [] {
      FindAllWeaker(doc[1..], p, q);
    }
  }

  /** `find_all` over a concatenation is the concatenation of the two `find_all`s. */
  lemma {:induction false} FindAllAppend(a: seq<Element>, b: seq<Element>, p: Element -> bool)
    ensures FindAll(a + b, p) == FindAll(a, p) + FindAll(b, p)
  {
    if a == [] {
      assert a + b == b;
    } else {
      var head := if p(a[0]) then [a[0]] else [];
      calc {
        FindAll(a + b, p);
        == { assert (a + b)[0] == a[0]; assert (a + b)[1..] == a[1..] + b; }
        head + FindAll(a[1..] + b, p);
        == { FindAllAppend(a[1..], b, p); }
        head + (FindAll(a[1..], p) + FindAll(b, p));
        ==
        (head + FindAll(a[1..], p)) + FindAll(b, p);
      }
    }
  }
}
