/** The catalog-search endpoint: keep the courses whose keyword string or
    name contains the keyword, copy each into a response record, and
    answer not-found (an HTTP 404) when nothing matches. */
module CourseSearch {
  import opened Text
  import opened Catalog
  import ChatBot

  /** The response record of one course: every column but the row id. */
  datatype CourseData = CourseData(
    code: string,
    name: string,
    category: string,
    instructor: string,
    keywords: string)

  /** The endpoint's outcome: the 404 or the non-empty list of records. */
  datatype SearchResult = NotFound | Found(records: seq<CourseData>)

  /** The response record of course `c`. */
  function ToData(c: Course): (r: CourseData) {
    CourseData(c.code, c.name, c.category, c.instructor, c.keywords)
  }

  /** The record forgets the row id and nothing else: two courses give the
      same record exactly when they agree on every other column. */
  lemma ToDataForgetsOnlyId(c1: Course, c2: Course)
    ensures ToData(c1) == ToData(c2) <==> c1.(id := 0) == c2.(id := 0)
  {
  }

  /** The response records, one per course, same order, fields copied. */
  function Records(cs: seq<Course>): (r: seq<CourseData>)
    ensures |r| == |cs|
    ensures forall k :: 0 <= k < |cs| ==>
      r[k].code == cs[k].code && r[k].name == cs[k].name && r[k].category == cs[k].category
      && r[k].instructor == cs[k].instructor && r[k].keywords == cs[k].keywords
  {
    if cs == [] then [] else [ToData(cs[0])] + Records(cs[1..])
  }

  lemma RecordsSnoc(cs: seq<Course>, c: Course)
    ensures Records(cs + [c]) == Records(cs) + [ToData(c)]
  {
  }

  /** What the endpoint answers for `keyword`. */
  function CatalogSearch(catalog: seq<Course>, keyword: string): (r: SearchResult)
    ensures r == NotFound <==> forall c :: c in catalog ==> !Matches(c, Lower(keyword), KeywordsOrName)
    ensures r.Found? ==> |r.records| > 0
  {
    var hits := Hits(catalog, Lower(keyword), KeywordsOrName);
    HitsEmpty(catalog, Lower(keyword), KeywordsOrName);
    if |hits| == 0 then NotFound else Found(Records(hits))
  }

  /** The body of `search_courses`: a filtering pass over the catalog, the
      404 on an empty result, then a pass copying each hit into a record. */
  method SearchCourses(catalog: seq<Course>, keyword: string) returns (r: SearchResult)
    ensures r == CatalogSearch(catalog, keyword)
    ensures r == NotFound <==> forall c :: c in catalog ==> !Matches(c, Lower(keyword), KeywordsOrName)
    ensures r.Found? ==> r.records == Records(Hits(catalog, Lower(keyword), KeywordsOrName))
  {
    var q := Lower(keyword);
    var found: seq<Course> := [];
    for i := 0 to |catalog|
      invariant found == Hits(catalog[..i], q, KeywordsOrName)
    {
      var c := catalog[i];
      assert catalog[..i + 1] == catalog[..i] + [c];
      HitsSnoc(catalog[..i], c, q, KeywordsOrName);
      if Contains(Lower(c.keywords), q) || Contains(Lower(c.name), q) {
        found := found + [c];
      }
    }
    assert catalog[..|catalog|] == catalog;
    if |found| == 0 {
      return NotFound;
    }
    var result := CopyRecords(found);
    r := Found(result);
  }

  /** The second pass of `search_courses`: one response record per course. */
  method CopyRecords(found: seq<Course>) returns (result: seq<CourseData>)
    ensures result == Records(found)
  {
    result := [];
    for i := 0 to |found|
      invariant result == Records(found[..i])
    {
      var c := found[i];
      assert found[..i + 1] == found[..i] + [c];
      RecordsSnoc(found[..i], c);
      result := result + [CourseData(c.code, c.name, c.category, c.instructor, c.keywords)];
    }
    assert found[..|found|] == found;
  }

  /** Whatever the chat search finds, the endpoint finds too (it also
      looks at the name), so a chat hit never meets a 404. */
  lemma ChatHitMeansEndpointFound(catalog: seq<Course>, keyword: string)
    requires ChatBot.ChatSearchReply(catalog, keyword) != ChatBot.NO_MATCH
    ensures CatalogSearch(catalog, keyword).Found?
  {
  }

  /** Each record of a found result is the copy of a catalog course that
      matches the keyword in one of the two fields. */
  lemma FoundRecordsComeFromMatches(catalog: seq<Course>, keyword: string, k: int)
    requires CatalogSearch(catalog, keyword).Found?
    requires 0 <= k < |CatalogSearch(catalog, keyword).records|
    ensures exists c ::
              && c in catalog && Matches(c, Lower(keyword), KeywordsOrName)
              && CatalogSearch(catalog, keyword).records[k] == ToData(c)
  {
    var hits := Hits(catalog, Lower(keyword), KeywordsOrName);
    HitsMember(catalog, Lower(keyword), KeywordsOrName, hits[k]);
  }

  /** The empty keyword occurs in every string, so it returns the whole
      (non-empty) catalog. */
  lemma EmptyKeywordFindsAll(catalog: seq<Course>)
    requires catalog != []
    ensures CatalogSearch(catalog, "") == Found(Records(catalog))
  {
    assert Lower("") == "";
    forall k | 0 <= k < |catalog| ensures Matches(catalog[k], "", KeywordsOrName) {
      ContainsEmpty(Lower(catalog[k].keywords), "");
    }
    HitsAll(catalog, "", KeywordsOrName);
  }
}
