/** The rule-based chatbot: intent detection by ordered substring tests,
    the keyword search behind the `search_course` intent, and the reply
    composer that dispatches on the intent. */
module ChatBot {
  import opened Text
  import opened Catalog

  /** The closed set of intents the classifier can return. */
  datatype Intent = Greeting | ListCourses | Enroll | SearchCourse | Exit | Unknown

  /** The label stored in the `intent` column and sent back to the client. */
  function Label(i: Intent): (r: string)
    ensures r in LABELS
  {
    match i
    case Greeting => "greeting"
    case ListCourses => "list_courses"
    case Enroll => "enroll"
    case SearchCourse => "search_course"
    case Exit => "exit"
    case Unknown => "unknown"
  }

  const LABELS: set<string> := {"greeting", "list_courses", "enroll", "search_course", "exit", "unknown"}

  /** Every intent has one of the six labels, and different intents have
      different labels. */
  lemma LabelsAreSixDistinct(i: Intent, j: Intent)
    ensures Label(i) in LABELS
    ensures Label(i) == Label(j) ==> i == j
  {
  }

  /** Python's `any(k in msg for k in words)`. */
  function ContainsAny(msg: string, words: seq<string>): (r: bool)
    ensures r <==> exists k :: 0 <= k < |words| && Contains(msg, words[k])
  {
    if words == [] then false
    else Contains(msg, words[0]) || ContainsAny(msg, words[1..])
  }

  /** The classifier: lower-case the message, then apply the rule chain.
      Whatever it returns is the fallback or an intent whose rule fires on
      the lower-cased message. */
  function DetectIntent(message: string): (r: Intent)
    ensures r == Unknown || Fires(Lower(message), r)
  {
    Classify(Lower(message))
  }

  /** The rule chain on an already lower-cased message: the first rule whose
      substring test succeeds decides. */
  function Classify(msg: string): (r: Intent)
    ensures r == Unknown || Fires(msg, r)
    ensures r == Greeting <==> Contains(msg, "hi") || Contains(msg, "hello")
  {
    FiresSpelledOut(msg);
    if Contains(msg, "hi") || Contains(msg, "hello") then Greeting
    else if Contains(msg, "list") || Contains(msg, "show") then ListCourses
    else if Contains(msg, "enroll") then Enroll
    else if ContainsAny(msg, ["python", "ml", "deep learning", "nlp"]) then SearchCourse
    else if Contains(msg, "bye") then Exit
    else Unknown
  }

  // ---------------------------------------------------------------------
  // A reference statement of the classifier: a table of trigger words per
  // intent and a priority order in which the rules are tried.

  /** The trigger substrings of each rule; `Unknown` has none. */
  function Triggers(i: Intent): (r: seq<string>)
    ensures r == [] <==> i == Unknown
  {
    match i
    case Greeting => ["hi", "hello"]
    case ListCourses => ["list", "show"]
    case Enroll => ["enroll"]
    case SearchCourse => ["python", "ml", "deep learning", "nlp"]
    case Exit => ["bye"]
    case Unknown => []
  }

  /** The order in which the rules are tried; `Unknown` is the fallback. */
  const PRIORITY: seq<Intent> := [Greeting, ListCourses, Enroll, SearchCourse, Exit]

  /** The position of an intent in the priority order (the fallback last). */
  function Rank(i: Intent): (r: nat)
    ensures r <= |PRIORITY| && (r < |PRIORITY| <==> i != Unknown)
    ensures r < |PRIORITY| ==> PRIORITY[r] == i
  {
    match i
    case Greeting => 0
    case ListCourses => 1
    case Enroll => 2
    case SearchCourse => 3
    case Exit => 4
    case Unknown => 5
  }

  /** Rule `i` fires on the lower-cased message `msg`. */
  predicate Fires(msg: string, i: Intent) {
    ContainsAny(msg, Triggers(i))
  }

  lemma FiresSpelledOut(msg: string)
    ensures Fires(msg, Greeting) <==> Contains(msg, "hi") || Contains(msg, "hello")
    ensures Fires(msg, ListCourses) <==> Contains(msg, "list") || Contains(msg, "show")
    ensures Fires(msg, Enroll) <==> Contains(msg, "enroll")
    ensures Fires(msg, SearchCourse) <==> ContainsAny(msg, ["python", "ml", "deep learning", "nlp"])
    ensures Fires(msg, Exit) <==> Contains(msg, "bye")
    ensures !Fires(msg, Unknown)
  {
    var g := Triggers(Greeting);
    assert g[0] == "hi" && g[1] == "hello";
    var l := Triggers(ListCourses);
    assert l[0] == "list" && l[1] == "show";
    var e := Triggers(Enroll);
    assert e[0] == "enroll";
    var b := Triggers(Exit);
    assert b[0] == "bye";
  }

  /** First-match semantics: the classifier returns `i` exactly when rule
      `i` fires (or `i` is the fallback) and no rule before it fires. */
  lemma DetectIntentFirstMatch(message: string, i: Intent)
    ensures DetectIntent(message) == i <==>
      (i == Unknown || Fires(Lower(message), i))
      && forall k :: 0 <= k < Rank(i) ==> !Fires(Lower(message), PRIORITY[k])
  {
    var msg := Lower(message);
    FiresSpelledOut(msg);
    assert PRIORITY[0] == Greeting && PRIORITY[1] == ListCourses && PRIORITY[2] == Enroll;
    assert PRIORITY[3] == SearchCourse && PRIORITY[4] == Exit;
    var none := forall k :: 0 <= k < Rank(i) ==> !Fires(msg, PRIORITY[k]);
    if Rank(i) >= 1 && none { assert !Fires(msg, PRIORITY[0]); }
    if Rank(i) >= 2 && none { assert !Fires(msg, PRIORITY[1]); }
    if Rank(i) >= 3 && none { assert !Fires(msg, PRIORITY[2]); }
    if Rank(i) >= 4 && none { assert !Fires(msg, PRIORITY[3]); }
    if Rank(i) >= 5 && none { assert !Fires(msg, PRIORITY[4]); }
    if DetectIntent(message) == i {
      forall k | 0 <= k < Rank(i) ensures !Fires(msg, PRIORITY[k]) {
        assert k in {0, 1, 2, 3, 4};
      }
    }
  }

  /** Greeting wins over everything: a message containing "hi" or "hello"
      (in any case) is a greeting whatever else it contains. */
  lemma GreetingWins(message: string)
    requires Contains(Lower(message), "hi") || Contains(Lower(message), "hello")
    ensures DetectIntent(message) == Greeting
  {
  }

  /** `enroll` is returned only when no greeting or listing word occurs
      and "enroll" does. */
  lemma EnrollIff(message: string)
    ensures DetectIntent(message) == Enroll <==>
      var msg := Lower(message);
      !Contains(msg, "hi") && !Contains(msg, "hello") && !Contains(msg, "list")
      && !Contains(msg, "show") && Contains(msg, "enroll")
  {
  }

  /** `search_course` exactly when none of the first five words occur and
      one of the four topic words does. */
  lemma SearchCourseIff(message: string)
    ensures DetectIntent(message) == SearchCourse <==>
      var msg := Lower(message);
      !Contains(msg, "hi") && !Contains(msg, "hello") && !Contains(msg, "list")
      && !Contains(msg, "show") && !Contains(msg, "enroll")
      && (Contains(msg, "python") || Contains(msg, "ml") || Contains(msg, "deep learning") || Contains(msg, "nlp"))
  {
    var w: seq<string> := ["python", "ml", "deep learning", "nlp"];
    assert w[0] == "python" && w[1] == "ml" && w[2] == "deep learning" && w[3] == "nlp";
  }

  /** The ten trigger words of all rules together. */
  const ALL_TRIGGERS: seq<string> :=
    ["hi", "hello", "list", "show", "enroll", "python", "ml", "deep learning", "nlp", "bye"]

  /** `unknown` exactly when none of the trigger words occurs. */
  lemma UnknownIff(message: string)
    ensures DetectIntent(message) == Unknown <==>
      forall k :: 0 <= k < |ALL_TRIGGERS| ==> !Contains(Lower(message), ALL_TRIGGERS[k])
  {
    var msg := Lower(message);
    var w: seq<string> := ["python", "ml", "deep learning", "nlp"];
    assert w[0] == "python" && w[1] == "ml" && w[2] == "deep learning" && w[3] == "nlp";
    if DetectIntent(message) == Unknown {
      forall k | 0 <= k < |ALL_TRIGGERS| ensures !Contains(msg, ALL_TRIGGERS[k]) {
        assert k in {0, 1, 2, 3, 4, 5, 6, 7, 8, 9};
      }
    } else {
      var k: nat :| k < 10 && Contains(msg, ALL_TRIGGERS[k]) by {
        if Contains(msg, "hi") { assert Contains(msg, ALL_TRIGGERS[0]); }
        else if Contains(msg, "hello") { assert Contains(msg, ALL_TRIGGERS[1]); }
        else if Contains(msg, "list") { assert Contains(msg, ALL_TRIGGERS[2]); }
        else if Contains(msg, "show") { assert Contains(msg, ALL_TRIGGERS[3]); }
        else if Contains(msg, "enroll") { assert Contains(msg, ALL_TRIGGERS[4]); }
        else if Contains(msg, "python") { assert Contains(msg, ALL_TRIGGERS[5]); }
        else if Contains(msg, "ml") { assert Contains(msg, ALL_TRIGGERS[6]); }
        else if Contains(msg, "deep learning") { assert Contains(msg, ALL_TRIGGERS[7]); }
        else if Contains(msg, "nlp") { assert Contains(msg, ALL_TRIGGERS[8]); }
        else { assert Contains(msg, ALL_TRIGGERS[9]); }
      }
    }
  }

  /** The empty message is classified, as `unknown`. */
  lemma EmptyMessageIsUnknown()
    ensures DetectIntent("") == Unknown
  {
    assert Lower("") == "";
  }

  /** Classification ignores case: lower-casing the message first changes
      nothing, and two messages equal up to case get the same intent. */
  lemma DetectIntentCaseInsensitive(m1: string, m2: string)
    requires Lower(m1) == Lower(m2)
    ensures DetectIntent(Lower(m1)) == DetectIntent(m1)
    ensures DetectIntent(m1) == DetectIntent(m2)
  {
    LowerIdempotent(m1);
    assert Lower(Lower(m1)) == Lower(m1);
  }

  // ---------------------------------------------------------------------
  // The chat-side course search.

  const NO_MATCH: string := "No matching courses found."

  /** One result line, `code - name (instructor)`. */
  function Line(c: Course): (r: string)
    ensures |r| > 0 && r[|r| - 1] == ')'
    ensures '\n' !in r <==> '\n' !in c.code && '\n' !in c.name && '\n' !in c.instructor
  {
    c.code + " - " + c.name + " (" + c.instructor + ")"
  }

  /** The result lines of a list of courses, one per course, same order. */
  function Lines(cs: seq<Course>): (r: seq<string>)
    ensures |r| == |cs|
    ensures forall k :: 0 <= k < |cs| ==> r[k] == Line(cs[k])
  {
    if cs == [] then [] else [Line(cs[0])] + Lines(cs[1..])
  }

  lemma LinesSnoc(cs: seq<Course>, c: Course)
    ensures Lines(cs + [c]) == Lines(cs) + [Line(c)]
  {
  }

  /** What `find_courses` answers for `keyword`: the result lines of the
      courses whose keyword string contains the lower-cased keyword, one
      per line, or the sentinel when there is none. */
  function ChatSearchReply(catalog: seq<Course>, keyword: string): (r: string)
    ensures r == NO_MATCH <==> forall c :: c in catalog ==> !Contains(Lower(c.keywords), Lower(keyword))
  {
    var hits := Hits(catalog, Lower(keyword), KeywordsOnly);
    HitsEmpty(catalog, Lower(keyword), KeywordsOnly);
    var found := Lines(hits);
    if |found| > 0 then
      JoinLastChar(found, "\n");
      assert NO_MATCH[|NO_MATCH| - 1] == '.';
      Join(found, "\n")
    else NO_MATCH
  }

  /** A non-sentinel reply splits back, line by line, into exactly the
      matching courses' lines in catalog order (when no course field holds
      a line break). */
  lemma ChatSearchReplyLines(catalog: seq<Course>, keyword: string)
    requires forall c :: c in catalog ==> '\n' !in c.code && '\n' !in c.name && '\n' !in c.instructor
    requires ChatSearchReply(catalog, keyword) != NO_MATCH
    ensures Split(ChatSearchReply(catalog, keyword), '\n') == Lines(Hits(catalog, Lower(keyword), KeywordsOnly))
  {
    var hits := Hits(catalog, Lower(keyword), KeywordsOnly);
    forall k | 0 <= k < |hits| ensures '\n' !in Lines(hits)[k] {
      HitsMember(catalog, Lower(keyword), KeywordsOnly, hits[k]);
    }
    SplitJoin(Lines(hits), '\n');
  }

  /** One more course adds its line exactly when its keyword string holds
      the query. */
  lemma LinesHitsSnoc(cs: seq<Course>, c: Course, q: string)
    ensures Lines(Hits(cs + [c], q, KeywordsOnly)) ==
      Lines(Hits(cs, q, KeywordsOnly)) + (if Contains(Lower(c.keywords), q) then [Line(c)] else [])
  {
    HitsSnoc(cs, c, q, KeywordsOnly);
    LinesSnoc(Hits(cs, q, KeywordsOnly), c);
  }

  /** `ChatBot.find_courses`: one pass over the catalog collecting the
      lines of the matching courses, then join or the sentinel. */
  method FindCourses(catalog: seq<Course>, keyword: string) returns (reply: string)
    ensures reply == ChatSearchReply(catalog, keyword)
    ensures reply == NO_MATCH <==> forall c :: c in catalog ==> !Contains(Lower(c.keywords), Lower(keyword))
  {
    var q := Lower(keyword);
    var found: seq<string> := [];
    for i := 0 to |catalog|
      invariant found == Lines(Hits(catalog[..i], q, KeywordsOnly))
    {
      var c := catalog[i];
      assert catalog[..i + 1] == catalog[..i] + [c];
      LinesHitsSnoc(catalog[..i], c, q);
      if Contains(Lower(c.keywords), q) {
        found := found + [Line(c)];
      }
    }
    assert catalog[..|catalog|] == catalog;
    if |found| > 0 {
      reply := Join(found, "\n");
    } else {
      reply := NO_MATCH;
    }
  }

  // ---------------------------------------------------------------------
  // The reply composer.

  const GREETING_REPLY: string := "Hello! I can help you explore AI/ML courses."
  const LIST_PREFIX: string := "Available courses: "
  const ENROLL_REPLY: string := "To enroll, please provide your course code and details."
  const EXIT_REPLY: string := "Goodbye! Have a great day!"
  const UNKNOWN_REPLY: string := "Sorry, I didn't understand that."

  /** The course names, in catalog order. */
  function Names(catalog: seq<Course>): (r: seq<string>)
    ensures |r| == |catalog|
    ensures forall k :: 0 <= k < |catalog| ==> r[k] == catalog[k].name
  {
    if catalog == [] then [] else [catalog[0].name] + Names(catalog[1..])
  }

  lemma NamesSnoc(catalog: seq<Course>, c: Course)
    ensures Names(catalog + [c]) == Names(catalog) + [c.name]
  {
  }

  /** The `list_courses` reply: the prefix, then every name joined by ", ".
      It always starts with the prefix and is the bare prefix for an empty
      catalog. */
  function CourseListReply(catalog: seq<Course>): (r: string)
    ensures |LIST_PREFIX| <= |r| && r[..|LIST_PREFIX|] == LIST_PREFIX
    ensures catalog == [] ==> r == LIST_PREFIX
  {
    LIST_PREFIX + Join(Names(catalog), ", ")
  }

  /** Adding a course to the catalog appends ", " and its name to the
      listing (just its name after the prefix if the catalog was empty). */
  lemma CourseListReplySnoc(catalog: seq<Course>, c: Course)
    ensures CourseListReply(catalog + [c]) ==
      if catalog == [] then LIST_PREFIX + c.name else CourseListReply(catalog) + ", " + c.name
  {
    NamesSnoc(catalog, c);
    JoinSnoc(Names(catalog), c.name, ", ");
  }

  /** The reply the chatbot gives to `message`. The sentinel comes only
      from the search path, and there exactly when no keyword string holds
      the whole lower-cased message. */
  function Reply(catalog: seq<Course>, message: string): (r: string)
    ensures r == NO_MATCH ==> DetectIntent(message) == SearchCourse
    ensures DetectIntent(message) == SearchCourse ==>
      (r == NO_MATCH <==> forall c :: c in catalog ==> !Contains(Lower(c.keywords), Lower(message)))
  {
    assert NO_MATCH[0] == 'N';
    assert LIST_PREFIX[0] == 'A';
    assert GREETING_REPLY[0] == 'H';
    assert |ENROLL_REPLY| != |NO_MATCH|;
    assert EXIT_REPLY[0] == 'G';
    assert UNKNOWN_REPLY[0] == 'S';
    match DetectIntent(message)
    case Greeting => GREETING_REPLY
    case ListCourses => CourseListReply(catalog)
    case SearchCourse => ChatSearchReply(catalog, message)
    case Enroll => ENROLL_REPLY
    case Exit => EXIT_REPLY
    case Unknown => UNKNOWN_REPLY
  }

  /** On the `search_course` path the whole message is the query: the reply
      lists courses exactly when some course's keyword string contains the
      entire lower-cased message. */
  lemma SearchReplyUsesWholeMessage(catalog: seq<Course>, message: string)
    requires DetectIntent(message) == SearchCourse
    ensures Reply(catalog, message) != NO_MATCH <==>
      exists c :: c in catalog && Contains(Lower(c.keywords), Lower(message))
  {
  }

  /** Hence a search message longer than every keyword string always gets
      the sentinel. */
  lemma LongSearchMessageFindsNothing(catalog: seq<Course>, message: string)
    requires DetectIntent(message) == SearchCourse
    requires forall c :: c in catalog ==> |c.keywords| < |message|
    ensures Reply(catalog, message) == NO_MATCH
  {
    forall c | c in catalog ensures !Contains(Lower(c.keywords), Lower(message)) {
      if Contains(Lower(c.keywords), Lower(message)) {
        ContainsLength(Lower(c.keywords), Lower(message));
      }
    }
  }

  /** The chat reply when the filter keeps exactly one course is that
      course's line. */
  lemma ChatReplyOfOne(catalog: seq<Course>, keyword: string, c: Course)
    requires Hits(catalog, Lower(keyword), KeywordsOnly) == [c]
    ensures ChatSearchReply(catalog, keyword) == Line(c)
  {
    assert Lines([c]) == [Line(c)];
  }

  /** An unfolding helper for worked cases: on the search path the reply is
      the chat search of the whole message, on the listing path the course
      listing. */
  lemma ReplyByIntent(catalog: seq<Course>, message: string)
    ensures DetectIntent(message) == SearchCourse ==> Reply(catalog, message) == ChatSearchReply(catalog, message)
    ensures DetectIntent(message) == ListCourses ==> Reply(catalog, message) == CourseListReply(catalog)
  {
  }

  /** `ChatBot.process_message`: classify, then compose the reply; the
      listing branch collects the names in a loop. */
  method ProcessMessage(catalog: seq<Course>, message: string) returns (reply: string, intent: Intent)
    ensures intent == DetectIntent(message)
    ensures reply == Reply(catalog, message)
    ensures intent == Greeting ==> reply == GREETING_REPLY
    ensures intent == ListCourses ==> reply == LIST_PREFIX + Join(Names(catalog), ", ")
    ensures intent == SearchCourse ==> reply == ChatSearchReply(catalog, message)
    ensures intent == Enroll ==> reply == ENROLL_REPLY
    ensures intent == Exit ==> reply == EXIT_REPLY
    ensures intent == Unknown ==> reply == UNKNOWN_REPLY
  {
    intent := DetectIntent(message);
    match intent
    case Greeting =>
      reply := GREETING_REPLY;
    case ListCourses =>
      var namesList: seq<string> := [];
      for i := 0 to |catalog|
        invariant namesList == Names(catalog[..i])
      {
        var c := catalog[i];
        assert catalog[..i + 1] == catalog[..i] + [c];
        NamesSnoc(catalog[..i], c);
        namesList := namesList + [c.name];
      }
      assert catalog[..|catalog|] == catalog;
      reply := LIST_PREFIX + Join(namesList, ", ");
    case SearchCourse =>
      reply := FindCourses(catalog, message);
    case Enroll =>
      reply := ENROLL_REPLY;
    case Exit =>
      reply := EXIT_REPLY;
    case Unknown =>
      reply := UNKNOWN_REPLY;
  }
}
