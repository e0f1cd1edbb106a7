/** Worked cases of the pipeline, stated as lemmas over concrete inputs. */
module Scenarios {
  import opened Wrappers
  import opened PyText
  import opened Records
  import opened ResumeBatch
  import opened Extraction
  import opened Scoring
  import opened Ranking

  /** A string with no whitespace at either end is its own `strip()`. */
  lemma StripUnchanged(s: string)
    requires s != [] && !IsSpace(s[0]) && !IsSpace(s[|s| - 1])
    ensures Strip(s) == s
  {
  }

  /** The filter keeps a piece that strips to itself and is not empty. */
  lemma KeepHead(h: string, rest: seq<string>)
    requires h != [] && Strip(h) == h
    ensures StrippedNonEmpty([h] + rest) == [h] + StrippedNonEmpty(rest)
  {
    assert ([h] + rest)[1..] == rest;
  }

  /** The filter drops a piece that strips to nothing. */
  lemma DropHead(h: string, rest: seq<string>)
    requires Strip(h) == []
    ensures StrippedNonEmpty([h] + rest) == StrippedNonEmpty(rest)
  {
    assert ([h] + rest)[1..] == rest;
  }

  /** Filtering four pieces whose third strips to nothing keeps the other three. */
  lemma DropThird(h1: string, h2: string, h3: string, h4: string)
    requires h1 != [] && Strip(h1) == h1 && h2 != [] && Strip(h2) == h2 && h4 != [] && Strip(h4) == h4
    requires Strip(h3) == []
    ensures StrippedNonEmpty([h1, h2, h3, h4]) == [h1, h2, h4]
  {
    var t4 := [h4];
    var t34 := [h3] + t4;
    var t234 := [h2] + t34;
    assert [h1, h2, h3, h4] == [h1] + t234;
    KeepHead(h4, []);
    assert [h4] + [] == t4;
    DropHead(h3, t4);
    KeepHead(h2, t34);
    KeepHead(h1, t234);
  }

  /**
   * Three resumes and a blank segment between the second and the third,
   * joined by the separator: the batch splits into exactly the three resumes.
   * The resumes may mention `C#`; they hold no `###`, and the first two do
   * not end in `#`.
   */
  lemma BlankSegmentDropped(r1: string, r2: string, blank: string, r3: string)
    requires r1 != [] && Strip(r1) == r1 && !Contains(r1, Separator) && r1[|r1| - 1] != '#'
    requires r2 != [] && Strip(r2) == r2 && !Contains(r2, Separator) && r2[|r2| - 1] != '#'
    requires r3 != [] && Strip(r3) == r3 && !Contains(r3, Separator)
    requires forall k :: 0 <= k < |blank| ==> IsSpace(blank[k])
    ensures SplitResumes(Join([r1, r2, blank, r3], Separator)) == [r1, r2, r3]
  {
    var pieces := [r1, r2, blank, r3];
    assert '#' !in blank by {
      forall k | 0 <= k < |blank| ensures blank[k] != '#' { assert IsSpace(blank[k]); }
    }
    SeparatorFreeBlank(r1, r2, blank, r3);
    JoinSplit(pieces, Separator);
    StripEmptyIff(blank);
    DropThird(r1, r2, blank, r3);
  }

  /** The four pieces of `BlankSegmentDropped` are each cut where `find` cuts. */
  lemma SeparatorFreeBlank(r1: string, r2: string, blank: string, r3: string)
    requires !Contains(r1, Separator) && r1 != [] && r1[|r1| - 1] != '#'
    requires !Contains(r2, Separator) && r2 != [] && r2[|r2| - 1] != '#'
    requires '#' !in blank && !Contains(r3, Separator)
    ensures CutsCleanly([r1, r2, blank, r3], Separator)
  {
    MissingFirstChar(blank, Separator);
    CutAfterPieceIff(r1);
    CutAfterPieceIff(r2);
    CutAfterPieceIff(blank);
    var pieces := [r1, r2, blank, r3];
    assert pieces[0] == r1 && pieces[1] == r2 && pieces[2] == blank && pieces[3] == r3;
  }

  /** A reply with chatter around one object: the decoder is handed exactly the object. */
  lemma ReplySpan(pre: string, body: string, post: string)
    requires '{' !in pre && '}' !in post
    requires |body| >= 2 && body[0] == '{' && body[|body| - 1] == '}'
    ensures ResumeJsonText(pre + body + post) == Some(body)
  {
    var raw := pre + body + post;
    var lo, hi := |pre|, |pre| + |body|;
    forall j | 0 <= j < |raw| ensures OccursAt(raw, "{", j) <==> raw[j] == '{' {
      OccursAtChar(raw, '{', j);
    }
    forall j | 0 <= j < |raw| ensures OccursAt(raw, "}", j) <==> raw[j] == '}' {
      OccursAtChar(raw, '}', j);
    }
    assert raw[lo] == '{' && raw[hi - 1] == '}';
    forall j | 0 <= j < lo ensures raw[j] != '{' { assert raw[j] == pre[j]; }
    forall j | hi <= j < |raw| ensures raw[j] != '}' { assert raw[j] == post[j - hi]; }
    LeftmostAt(raw, "{", lo);
    RightmostAt(raw, "}", hi - 1);
    assert raw[lo..hi] == body;
  }

  /** The reply `Here is the result: {"a":1} thanks` hands the decoder `{"a":1}`. */
  lemma ChatterAroundObject()
    ensures ResumeJsonText("Here is the result: {\"a\":1} thanks") == Some("{\"a\":1}")
  {
    var pre, body, post := "Here is the result: ", "{\"a\":1}", " thanks";
    assert pre + body + post == "Here is the result: {\"a\":1} thanks";
    ReplySpan(pre, body, post);
  }

  /** A reply without braces is recorded as a failed parse, whatever the decoder. */
  lemma NoBracesGivesNone(decode: Decoder)
    ensures ParseRaw("no braces here", decode) == None
  {
    assert '{' !in "no braces here";
  }

  /** Ties keep input order: scores [3, 5, 5, 1] for A, B, C, D rank as B, C, A, D. */
  lemma TiesKeepInputOrder()
    ensures SortDesc([("A", 3), ("B", 5), ("C", 5), ("D", 1)]) == [("B", 5), ("C", 5), ("A", 3), ("D", 1)]
  {
    var a, b, c, d := ("A", 3), ("B", 5), ("C", 5), ("D", 1);
    assert [a, b, c, d][1..] == [b, c, d];
    TiesTail();
    TiesInsert();
  }

  /** The last three entries are already in rank order. */
  lemma TiesTail()
    ensures SortDesc([("B", 5), ("C", 5), ("D", 1)]) == [("B", 5), ("C", 5), ("D", 1)]
  {
    var b, c, d := ("B", 5), ("C", 5), ("D", 1);
    assert [b, c, d][1..] == [c, d];
    assert [c, d][1..] == [d];
    assert SortDesc([d]) == [d];
    assert SortDesc([c, d]) == [c, d];
  }

  /** A (score 3) goes after both fives and before the one. */
  lemma TiesInsert()
    ensures InsertDesc(("A", 3), [("B", 5), ("C", 5), ("D", 1)]) == [("B", 5), ("C", 5), ("A", 3), ("D", 1)]
  {
    var a, b, c, d := ("A", 3), ("B", 5), ("C", 5), ("D", 1);
    assert [b, c, d][1..] == [c, d];
    assert [c, d][1..] == [d];
    assert InsertDesc(a, [d]) == [a, d];
    assert InsertDesc(a, [c, d]) == [c, a, d];
  }

  /** "java" against "javascript" matches in either role; "java" against "python" does not. */
  lemma JavaMatchesJavaScript()
    ensures SkillsMatch("java", "javascript") && SkillsMatch("javascript", "java")
    ensures !SkillsMatch("java", "python")
  {
    assert OccursAt("javascript", "java", 0);
    MissingFirstChar("python", "java");
  }

  /** The candidate's skills after lower-casing. */
  lemma ExampleSkillsLowered()
    ensures LowerAll(["Python", "Django"]) == ["python", "django"]
  {
    assert Lower("Python") == "python";
    assert Lower("Django") == "django";
  }

  /** Of python and sql, only python matches a skill of the lower-cased candidate. */
  lemma ExampleMatches()
    ensures HasMatch("python", ["python", "django"])
    ensures !HasMatch("sql", ["python", "django"])
  {
    assert OccursAt("python", "python", 0);
    assert SkillsMatch("python", "python");
    MissingFirstChar("python", "sql");
    MissingFirstChar("django", "sql");
  }

  /**
   * Requirements python and sql with 3 years, a candidate listing Python and
   * Django with 4 years, weights 3 and 2: python matches, experience is met,
   * the score is 1*3 + 1*2 = 5.
   */
  lemma EndToEndScore()
    ensures var data := map["skills" := StrList(["Python", "Django"]), "experience_years" := Num(4.0)];
      var e := Evaluate(Requirements(["python", "sql"], 3.0), data, 3, 2);
      e.matched == {"python"} && e.experienceMet && e.total == 5
  {
    var data := map["skills" := StrList(["Python", "Django"]), "experience_years" := Num(4.0)];
    var req := Requirements(["python", "sql"], 3.0);
    ExampleRecordFields(data);
    ExampleSkillsLowered();
    ExampleMatches();
    var e := Evaluate(req, data, 3, 2);
    forall r ensures r in e.matched <==> r == "python" {
      assert r in req.requiredSkills <==> r == "python" || r == "sql";
    }
    assert e.matched == {"python"};
    assert |e.matched| == 1;
  }

  /** The example record lists the skills Python and Django and four years. */
  lemma ExampleRecordFields(data: Object)
    requires data == map["skills" := StrList(["Python", "Django"]), "experience_years" := Num(4.0)]
    ensures StringsAt(data, "skills") == ["Python", "Django"]
    ensures NumberAt(data, "experience_years") == 4.0
  {
  }
}
