/** The course catalog: the `courses` table row and the keyword filter
    shared by the chat search and the catalog-search endpoint. */
module Catalog {
  import opened Text

  /** One row of the `courses` table; `keywords` is the comma-joined
      keyword string exactly as stored. */
  datatype Course = Course(
    id: int,
    code: string,
    name: string,
    category: string,
    instructor: string,
    keywords: string)

  /** Which fields a query is matched against: the chat search looks at
      the keyword string only, the catalog-search endpoint also at the name. */
  datatype Scope = KeywordsOnly | KeywordsOrName

  /** Course `c` matches the already lower-cased query `q`: `q` is a
      substring of the lower-cased keyword string, or (for the endpoint)
      of the lower-cased name. */
  predicate Matches(c: Course, q: string, scope: Scope) {
    Contains(Lower(c.keywords), q)
    || (scope == KeywordsOrName && Contains(Lower(c.name), q))
  }

  /** The matching courses, in catalog order. */
  function Hits(catalog: seq<Course>, q: string, scope: Scope): (r: seq<Course>)
    ensures |r| <= |catalog|
  {
    if catalog == [] then []
    else (if Matches(catalog[0], q, scope) then [catalog[0]] else []) + Hits(catalog[1..], q, scope)
  }

  /** Filtering distributes over concatenation: the result keeps catalog order. */
  lemma {:induction false} HitsAppend(a: seq<Course>, b: seq<Course>, q: string, scope: Scope)
    ensures Hits(a + b, q, scope) == Hits(a, q, scope) + Hits(b, q, scope)
  {
    if a == [] {
      assert a + b == b;
    } else {
      assert (a + b)[1..] == a[1..] + b;
      HitsAppend(a[1..], b, q, scope);
      var head := if Matches(a[0], q, scope) then [a[0]] else [];
      assert Hits(a, q, scope) == head + Hits(a[1..], q, scope);
      assert Hits(a + b, q, scope) == head + Hits(a[1..] + b, q, scope);
    }
  }

  /** One more course: it is kept exactly when it matches. */
  lemma HitsSnoc(a: seq<Course>, c: Course, q: string, scope: Scope)
    ensures Hits(a + [c], q, scope) == Hits(a, q, scope) + (if Matches(c, q, scope) then [c] else [])
  {
    HitsAppend(a, [c], q, scope);
    assert [c][1..] == [];
  }

  /** A course is in the result exactly when it is in the catalog and matches. */
  lemma {:induction false} HitsMember(catalog: seq<Course>, q: string, scope: Scope, c: Course)
    ensures c in Hits(catalog, q, scope) <==> c in catalog && Matches(c, q, scope)
  {
    if catalog != [] {
      HitsMember(catalog[1..], q, scope, c);
      assert catalog == [catalog[0]] + catalog[1..];
    }
  }

  /** The result is empty exactly when no course of the catalog matches. */
  lemma HitsEmpty(catalog: seq<Course>, q: string, scope: Scope)
    ensures Hits(catalog, q, scope) == [] <==> forall c :: c in catalog ==> !Matches(c, q, scope)
  {
    if Hits(catalog, q, scope) != [] {
      HitsMember(catalog, q, scope, Hits(catalog, q, scope)[0]);
    }
    forall c | c in catalog && Matches(c, q, scope) ensures Hits(catalog, q, scope) != [] {
      HitsMember(catalog, q, scope, c);
    }
  }

  /** A catalog whose courses all match is returned whole. */
  lemma {:induction false} HitsAll(catalog: seq<Course>, q: string, scope: Scope)
    requires forall k :: 0 <= k < |catalog| ==> Matches(catalog[k], q, scope)
    ensures Hits(catalog, q, scope) == catalog
  {
    if catalog != [] {
      HitsAll(catalog[1..], q, scope);
      assert [catalog[0]] + catalog[1..] == catalog;
    }
  }

  /** A catalog in which exactly the course at index `k` matches filters
      down to that one course. */
  lemma HitsOnly(cs: seq<Course>, k: int, q: string, scope: Scope)
    requires 0 <= k < |cs| && Matches(cs[k], q, scope)
    requires forall j :: 0 <= j < |cs| && j != k ==> !Matches(cs[j], q, scope)
    ensures Hits(cs, q, scope) == [cs[k]]
  {
    var pre, post := cs[..k], cs[k + 1..];
    assert cs == pre + [cs[k]] + post;
    HitsAppend(pre + [cs[k]], post, q, scope);
    HitsSnoc(pre, cs[k], q, scope);
    forall c | c in pre ensures !Matches(c, q, scope) {
      var j :| 0 <= j < |pre| && pre[j] == c;
      assert cs[j] == c;
    }
    forall c | c in post ensures !Matches(c, q, scope) {
      var j :| 0 <= j < |post| && post[j] == c;
      assert cs[k + 1 + j] == c;
    }
    HitsEmpty(pre, q, scope);
    HitsEmpty(post, q, scope);
  }

  /** Every keyword-only hit is also an endpoint hit. */
  lemma KeywordHitsAreNameOrKeywordHits(catalog: seq<Course>, q: string, c: Course)
    requires c in Hits(catalog, q, KeywordsOnly)
    ensures c in Hits(catalog, q, KeywordsOrName)
  {
    HitsMember(catalog, q, KeywordsOnly, c);
    HitsMember(catalog, q, KeywordsOrName, c);
  }
}
