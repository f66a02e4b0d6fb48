/** Worked cases over the four sample courses the application seeds its
    database with: the classifier's priority quirks, the whole-message
    query of `search_course`, and the endpoint's extra name match. */
module Scenarios {
  import opened Text
  import opened Catalog
  import opened ChatBot
  import opened CourseSearch

  const CS102 := Course(1, "CS102", "Python for AI", "AI Fundamentals", "Dr. Meera Iyer",
                        "python,beginner,programming,aiml")
  const ML201 := Course(2, "ML201", "ML Fundamentals", "Machine Learning", "Prof. Arjun Nair",
                        "machine learning,ml,supervised")
  const DL301 := Course(3, "DL301", "Deep Learning", "Deep Learning", "Dr. Kavita Reddy",
                        "deep learning,neural networks,tensorflow")
  const NLP201 := Course(4, "NLP201", "NLP Basics", "NLP", "Dr. Rohan Sharma",
                         "nlp,text,language")

  const SAMPLE: seq<Course> := [CS102, ML201, DL301, NLP201]

  // ---------------------------------------------------------------------
  // Classification from evidence: an occurrence of the deciding word, and
  // for each earlier rule's word a character the message lacks in both cases.

  /** A pattern holding a character that the lower-cased `s` lacks does not
      occur in it. */
  lemma Refuted(s: string, banned: seq<char>, pat: string, ch: char)
    requires ch in banned && ch in pat
    requires forall k :: 0 <= k < |s| ==> LowerChar(s[k]) !in banned
    ensures !Contains(Lower(s), pat)
  {
    LowerAvoids(s, banned, ch);
    NotContainsByChar(Lower(s), pat, ch);
  }

  lemma GreetingAt(s: string, w: string, at: int)
    requires (w == "hi" || w == "hello") && OccursAt(Lower(s), w, at)
    ensures DetectIntent(s) == Greeting
  {
    ContainsAt(Lower(s), w, at);
  }

  lemma ListingAt(s: string, banned: seq<char>, w: string, at: int)
    requires |banned| == 2 && banned[0] in "hi" && banned[1] in "hello"
    requires forall k :: 0 <= k < |s| ==> LowerChar(s[k]) !in banned
    requires (w == "list" || w == "show") && OccursAt(Lower(s), w, at)
    ensures DetectIntent(s) == ListCourses
  {
    Refuted(s, banned, "hi", banned[0]);
    Refuted(s, banned, "hello", banned[1]);
    ContainsAt(Lower(s), w, at);
  }

  lemma SearchAt(s: string, banned: seq<char>, w: string, at: int)
    requires |banned| == 5 && banned[0] in "hi" && banned[1] in "hello" && banned[2] in "list"
    requires banned[3] in "show" && banned[4] in "enroll"
    requires forall k :: 0 <= k < |s| ==> LowerChar(s[k]) !in banned
    requires (w == "python" || w == "ml" || w == "deep learning" || w == "nlp") && OccursAt(Lower(s), w, at)
    ensures DetectIntent(s) == SearchCourse
  {
    Refuted(s, banned, "hi", banned[0]);
    Refuted(s, banned, "hello", banned[1]);
    Refuted(s, banned, "list", banned[2]);
    Refuted(s, banned, "show", banned[3]);
    Refuted(s, banned, "enroll", banned[4]);
    ContainsAt(Lower(s), w, at);
    SearchCourseIff(s);
  }

  /** A character absent from `field` in both of its cases is absent from
      the lower-cased field, and so is every query holding it. */
  lemma FieldLacks(field: string, q: string, ch: char, up: char)
    requires ch in q
    requires forall c :: LowerChar(c) == ch ==> c == ch || c == up
    requires forall k :: 0 <= k < |field| ==> field[k] != ch && field[k] != up
    ensures !Contains(Lower(field), q)
  {
    NotContainsByChar(Lower(field), q, ch);
  }

  /** The listing of a four-course catalog. */
  lemma ListOfFour(a: Course, b: Course, c: Course, d: Course)
    ensures CourseListReply([a, b, c, d]) == LIST_PREFIX + a.name + ", " + b.name + ", " + c.name + ", " + d.name
  {
    CourseListReplySnoc([], a);
    assert [] + [a] == [a];
    CourseListReplySnoc([a], b);
    assert [a] + [b] == [a, b];
    CourseListReplySnoc([a, b], c);
    assert [a, b] + [c] == [a, b, c];
    CourseListReplySnoc([a, b, c], d);
    assert [a, b, c] + [d] == [a, b, c, d];
  }

  // ---------------------------------------------------------------------
  // The cases.

  /** "this" contains "hi", so it is a greeting. */
  lemma ThisIsGreeting()
    ensures DetectIntent("this") == Greeting
  {
    assert Lower("this")[1..3] == "hi";
    GreetingAt("this", "hi", 1);
  }

  /** Rule 1 precedes rule 3: "hi, I want to enroll" is a greeting. */
  lemma GreetingBeforeEnroll()
    ensures DetectIntent("hi, I want to enroll") == Greeting
  {
    assert Lower("hi, I want to enroll")[0..2] == "hi";
    GreetingAt("hi, I want to enroll", "hi", 0);
  }

  /** Case does not matter: "HELLO" is a greeting. */
  lemma UpperCaseHello()
    ensures DetectIntent("HELLO") == Greeting
  {
    assert Lower("HELLO")[0..5] == "hello";
    GreetingAt("HELLO", "hello", 0);
  }

  /** A plain substring test: "machine learning" contains "hi" and is
      classified as a greeting, not as a course search. */
  lemma MachineLearningIsGreeting()
    ensures DetectIntent("machine learning") == Greeting
  {
    assert Lower("machine learning")[3..5] == "hi";
    GreetingAt("machine learning", "hi", 3);
  }

  /** "html" contains "ml", so it asks for a course search. */
  lemma HtmlIsSearch()
    ensures DetectIntent("html") == SearchCourse
  {
    // 'i' rules out "hi" and "list", 'e' "hello" and "enroll", 's' "show".
    assert forall k :: 0 <= k < |"html"| ==> LowerChar("html"[k]) !in "ieise";
    assert Lower("html")[2..4] == "ml";
    SearchAt("html", "ieise", "ml", 2);
  }

  /** The message "python" is a search ... */
  lemma PythonIsSearch()
    ensures DetectIntent("python") == SearchCourse
  {
    // 'i' rules out "hi" and "list", 'e' "hello" and "enroll", 's' "show".
    assert forall k :: 0 <= k < |"python"| ==> LowerChar("python"[k]) !in "ieise";
    assert Lower("python")[0..6] == "python";
    SearchAt("python", "ieise", "python", 0);
  }

  // Course by course, "python" is in the keyword string of CS102 and of no
  // other course.

  lemma PythonInCS102()
    ensures Matches(CS102, "python", KeywordsOnly)
  {
    assert Lower(CS102.keywords)[0..6] == "python";
    ContainsAt(Lower(CS102.keywords), "python", 0);
  }

  lemma PythonNotInML201()
    ensures !Matches(ML201, "python", KeywordsOnly)
  {
    FieldLacks("machine learning,ml,supervised", "python", 'y', 'Y');
  }

  lemma PythonNotInDL301()
    ensures !Matches(DL301, "python", KeywordsOnly)
  {
    FieldLacks("deep learning,neural networks,tensorflow", "python", 'y', 'Y');
  }

  lemma PythonNotInNLP201()
    ensures !Matches(NLP201, "python", KeywordsOnly)
  {
    FieldLacks("nlp,text,language", "python", 'y', 'Y');
  }

  /** ... so as a chat query it keeps CS102 alone ... */
  lemma PythonHits()
    ensures Hits(SAMPLE, "python", KeywordsOnly) == [CS102]
  {
    PythonInCS102();
    PythonNotInML201();
    PythonNotInDL301();
    PythonNotInNLP201();
    HitsOnly(SAMPLE, 0, "python", KeywordsOnly);
  }

  /** ... and the chat reply to "python" is the one line of CS102. */
  lemma PythonFindsCS102()
    ensures Reply(SAMPLE, "python") == "CS102" + " - " + "Python for AI" + " (" + "Dr. Meera Iyer" + ")"
  {
    PythonIsSearch();
    ReplyByIntent(SAMPLE, "python");
    PythonChatReply();
    CS102Line();
  }

  lemma PythonChatReply()
    ensures ChatSearchReply(SAMPLE, "python") == Line(CS102)
  {
    assert Lower("python") == "python";
    PythonHits();
    ChatReplyOfOne(SAMPLE, "python", CS102);
  }

  /** The result line of CS102, piece by piece as the f-string builds it. */
  lemma CS102Line()
    ensures Line(CS102) == "CS102" + " - " + "Python for AI" + " (" + "Dr. Meera Iyer" + ")"
  {
  }

  /** A question naming a topic word, "do you have python courses?", is a
      search ... */
  lemma PythonQuestionIsSearch()
    ensures DetectIntent("do you have python courses?") == SearchCourse
  {
    var s := "do you have python courses?";
    // 'i' rules out "hi" and "list", 'l' "hello" and "enroll", 'w' "show".
    assert forall k :: 0 <= k < |s| ==> LowerChar(s[k]) !in "illwl";
    assert Lower(s)[12..18] == "python";
    SearchAt(s, "illwl", "python", 12);
  }

  /** ... but the whole message is the query, and its last character '?'
      occurs in no keyword string, so the reply is the sentinel. */
  lemma PythonQuestionFindsNothing()
    ensures Reply(SAMPLE, "do you have python courses?") == NO_MATCH
  {
    var s := "do you have python courses?";
    PythonQuestionIsSearch();
    ReplyByIntent(SAMPLE, s);
    assert Lower(s)[26] == '?';
    QuestionNotInCS102(Lower(s));
    ML201KeywordsLack(Lower(s), '?');
    QuestionNotInDL301(Lower(s));
    QuestionNotInNLP201(Lower(s));
  }

  // No sample keyword string holds a '?', so no query holding one matches.

  lemma QuestionNotInCS102(q: string)
    requires '?' in q
    ensures !Matches(CS102, q, KeywordsOnly)
  {
    FieldLacks("python,beginner,programming,aiml", q, '?', '?');
  }


  lemma QuestionNotInDL301(q: string)
    requires '?' in q
    ensures !Matches(DL301, q, KeywordsOnly)
  {
    FieldLacks("deep learning,neural networks,tensorflow", q, '?', '?');
  }

  lemma QuestionNotInNLP201(q: string)
    requires '?' in q
    ensures !Matches(NLP201, q, KeywordsOnly)
  {
    FieldLacks("nlp,text,language", q, '?', '?');
  }

  /** "show courses" asks for the listing ... */
  lemma ShowCoursesIsList()
    ensures DetectIntent("show courses") == ListCourses
  {
    // 'i' rules out "hi", 'l' "hello".
    assert forall k :: 0 <= k < |"show courses"| ==> LowerChar("show courses"[k]) !in "il";
    assert Lower("show courses")[0..4] == "show";
    ListingAt("show courses", "il", "show", 0);
  }

  /** ... which names every course in catalog order. */
  lemma ShowCoursesListsAll()
    ensures Reply(SAMPLE, "show courses") ==
      "Available courses: " + "Python for AI" + ", " + "ML Fundamentals" + ", " + "Deep Learning" + ", " + "NLP Basics"
  {
    ShowCoursesIsList();
    ReplyByIntent(SAMPLE, "show courses");
    ListOfFour(CS102, ML201, DL301, NLP201);
  }

  // The message "ML Fundamentals", the name of ML201, lower-cases to
  // Q := "ml fundamentals". Course by course, Q is the name of ML201 and in
  // no keyword string nor any other name: it holds characters those lack.

  const Q: string := "ml fundamentals"

  lemma ML201NameLowered()
    ensures Lower(ML201.name) == Q && Lower("ML Fundamentals") == Q
  {
  }

  lemma QInML201Name()
    ensures Matches(ML201, Q, KeywordsOrName)
  {
    ML201NameLowered();
    ContainsAt(Lower(ML201.name), Q, 0);
  }

  /** The keyword string of ML201 holds neither an 'f' nor a '?' in either
      case, so no query holding one matches it. */
  lemma ML201KeywordsLack(q: string, ch: char)
    requires (ch == 'f' || ch == '?') && ch in q
    ensures !Matches(ML201, q, KeywordsOnly)
  {
    if ch == 'f' {
      FieldLacks("machine learning,ml,supervised", q, 'f', 'F');
    } else {
      FieldLacks("machine learning,ml,supervised", q, '?', '?');
    }
  }

  lemma NoFUInCS102(q: string)
    requires 'f' in q && 'u' in q
    ensures !Matches(CS102, q, KeywordsOrName)
  {
    FieldLacks("python,beginner,programming,aiml", q, 'f', 'F');
    FieldLacks("Python for AI", q, 'u', 'U');
  }

  lemma NoFMInDL301(q: string)
    requires 'f' in q && 'm' in q
    ensures !Matches(DL301, q, KeywordsOrName)
  {
    FieldLacks("deep learning,neural networks,tensorflow", q, 'm', 'M');
    FieldLacks("Deep Learning", q, 'f', 'F');
  }

  lemma NoFInNLP201(q: string)
    requires 'f' in q
    ensures !Matches(NLP201, q, KeywordsOrName)
  {
    FieldLacks("nlp,text,language", q, 'f', 'F');
    FieldLacks("NLP Basics", q, 'f', 'F');
  }

  lemma QNotInCS102()
    ensures !Matches(CS102, Q, KeywordsOrName)
  {
    assert Q[3] == 'f' && Q[4] == 'u';
    NoFUInCS102(Q);
  }

  lemma QNotInML201Keywords()
    ensures !Matches(ML201, Q, KeywordsOnly)
  {
    assert Q[3] == 'f';
    ML201KeywordsLack(Q, 'f');
  }

  lemma QNotInDL301()
    ensures !Matches(DL301, Q, KeywordsOrName)
  {
    assert Q[3] == 'f' && Q[0] == 'm';
    NoFMInDL301(Q);
  }

  lemma QNotInNLP201()
    ensures !Matches(NLP201, Q, KeywordsOrName)
  {
    assert Q[3] == 'f';
    NoFInNLP201(Q);
  }

  /** Asking the chat for a course by its name: "ML Fundamentals" holds
      the topic word "ml", so it is a search ... */
  lemma CourseNameIsSearch()
    ensures DetectIntent("ML Fundamentals") == SearchCourse
  {
    var s := "ML Fundamentals";
    // 'h' rules out "hi", "hello" and "show", 'i' "list", 'o' "enroll".
    assert forall k :: 0 <= k < |s| ==> LowerChar(s[k]) !in "hhiho";
    assert Lower(s)[0..2] == "ml";
    SearchAt(s, "hhiho", "ml", 0);
  }

  /** ... the endpoint, which also matches names, finds ML201 ... */
  lemma NameMatchAtEndpoint()
    ensures CatalogSearch(SAMPLE, "ML Fundamentals") == Found([ToData(ML201)])
  {
    ML201NameLowered();
    QInML201Name();
    QNotInCS102();
    QNotInDL301();
    QNotInNLP201();
    HitsOnly(SAMPLE, 1, Q, KeywordsOrName);
  }

  /** ... while the chat, whose search ignores names, answers the sentinel. */
  lemma NameMatchNotInChat()
    ensures Reply(SAMPLE, "ML Fundamentals") == NO_MATCH
  {
    CourseNameIsSearch();
    ReplyByIntent(SAMPLE, "ML Fundamentals");
    ML201NameLowered();
    QNotInCS102();
    QNotInML201Keywords();
    QNotInDL301();
    QNotInNLP201();
  }
}
