/** The two instruction templates sent to the inference endpoint. A prompt is
    kept as a value holding what varies (language, transcript excerpt, the
    user's question); `Render` produces the exact text of the source's
    f-strings and `Parse` reads that text back. */
module Prompts {
  import opened Text
  import opened Routing

  /** Number of transcript characters a prompt carries at most. */
  const ExcerptBudget: nat := 2000

  datatype Prompt =
    | Summary(language: Language, excerpt: string)
    | Question(language: Language, excerpt: string, question: string)

  const SummaryHead := "Summarize" + " the following YouTube transcript clearly and concisely in "
  const SummaryBody :=
    ".\n\nUse only the transcript below.\nDo not add external knowledge.\n\n"
    + "Return output strictly in this format:\n\n"
    + "\U{1F4CC} 5 Key Points\n1.\n2.\n3.\n4.\n5.\n\n"
    + "\U{23F1} Important Timestamps\n"
    + "- Mention exact timestamp and what happens there (3\U{2013}5 timestamps)\n\n"
    + "\U{1F9E0} Core Takeaway\n- One strong concluding insight\n\nTranscript:\n"

  const QuestionHead := "Answer the question in "
  const QuestionBody :=
    ".\nUse ONLY the transcript below.\nDo not add outside knowledge.\n"
    + "If the answer is not clearly mentioned, say:\n"
    + "\"This topic is not covered in the video.\"\n\nTranscript:\n"
  const QuestionSeparator := "\n\nQuestion:\n"

  /** The summary prompt for transcript `t` asks for `language` and carries the
      first `ExcerptBudget` characters of `t`. */
  function SummaryFor(language: Language, t: string): (p: Prompt)
    ensures p.Summary? && p.language == language
    ensures |p.excerpt| == if |t| <= ExcerptBudget then |t| else ExcerptBudget
    ensures p.excerpt <= t
  {
    Summary(language, Take(t, ExcerptBudget))
  }

  /** The question prompt for stored transcript `t` asks for `language`,
      carries the first `ExcerptBudget` characters of `t` and the question
      verbatim. */
  function QuestionFor(language: Language, t: string, question: string): (p: Prompt)
    ensures p.Question? && p.language == language && p.question == question
    ensures |p.excerpt| == if |t| <= ExcerptBudget then |t| else ExcerptBudget
    ensures p.excerpt <= t
  {
    Question(language, Take(t, ExcerptBudget), question)
  }

  /** The prompt text exactly as the source's templates lay it out. */
  function Render(p: Prompt): string
  {
    match p
    case Summary(l, e) => SummaryHead + (Name(l) + (SummaryBody + (e + "\n")))
    case Question(l, e, q) =>
      QuestionHead + (Name(l) + (QuestionBody + (e + (QuestionSeparator + (q + "\n")))))
  }

  /** The language whose name, followed by `body`, starts `s`. */
  function ParseLanguage(s: string, body: string): Option<Language>
  {
    if NamedBy(s, English, body) then Some(English)
    else if NamedBy(s, Hindi, body) then Some(Hindi)
    else if NamedBy(s, Kannada, body) then Some(Kannada)
    else if NamedBy(s, Tamil, body) then Some(Tamil)
    else None
  }

  /** `s` opens with the name of `l` followed by `body`. */
  predicate NamedBy(s: string, l: Language, body: string)
  {
    Name(l) <= s && body <= s[|Name(l)|..]
  }

  /** Reads a rendered prompt back into its parts. The excerpt of a question
      prompt is read up to the first line break. */
  function Parse(s: string): Option<Prompt>
  {
    if SummaryHead <= s then ParseSummary(s[|SummaryHead|..])
    else if QuestionHead <= s then ParseQuestion(s[|QuestionHead|..])
    else None
  }

  /** Reads what follows the summary template's opening words. */
  function ParseSummary(rest: string): Option<Prompt>
  {
    match ReadLanguage(rest, SummaryBody)
    case None => None
    case Some((l, tail)) =>
      if tail != [] && tail[|tail| - 1] == '\n' then Some(Summary(l, tail[..|tail| - 1]))
      else None
  }

  /** Reads what follows the question template's opening words. */
  function ParseQuestion(rest: string): Option<Prompt>
  {
    match ReadLanguage(rest, QuestionBody)
    case None => None
    case Some((l, tail)) =>
      var e := Span(tail, c => c != '\n');
      var after := tail[e..];
      if QuestionSeparator <= after then
        var q := after[|QuestionSeparator|..];
        if q != [] && q[|q| - 1] == '\n' then Some(Question(l, tail[..e], q[..|q| - 1]))
        else None
      else None
  }

  /** The language named at the start of `s` before `body`, and what follows
      `body`. */
  function ReadLanguage(s: string, body: string): Option<(Language, string)>
  {
    match ParseLanguage(s, body)
    case None => None
    case Some(l) => Some((l, s[|Name(l)| + |body|..]))
  }

  /** The language name that opens `s` is read back, whatever follows it. */
  lemma ParseLanguageName(l: Language, body: string, rest: string)
    ensures ParseLanguage(Name(l) + (body + rest), body) == Some(l)
  {
    var s := Name(l) + (body + rest);
    HeadThenRest(Name(l), body + rest, s);
    HeadThenRest(body, rest, body + rest);
    assert s[0] == Name(l)[0];
  }

  /** Rendering then parsing gives back the prompt, provided the excerpt of a
      question prompt holds no line break. So the text sent for inference
      determines the language, the transcript excerpt and the question. */
  lemma ParseRender(p: Prompt)
    requires p.Question? ==> '\n' !in p.excerpt
    ensures Parse(Render(p)) == Some(p)
  {
    match p
    case Summary(l, e) =>
      var rest := Name(l) + (SummaryBody + (e + "\n"));
      HeadThenRest(SummaryHead, rest, Render(p));
      ParseSummaryRender(l, e);
    case Question(l, e, q) =>
      var rest := Name(l) + (QuestionBody + (e + (QuestionSeparator + (q + "\n"))));
      HeadThenRest(QuestionHead, rest, Render(p));
      assert !(SummaryHead <= Render(p)) by {
        assert Render(p)[0] == QuestionHead[0] == 'A';
        assert SummaryHead[0] == 'S';
      }
      ParseQuestionRender(l, e, q);
  }

  lemma HeadThenRest(head: string, rest: string, s: string)
    requires s == head + rest
    ensures head <= s && s[|head|..] == rest
  {
  }

  /** The language name and the tail are read back from what renders them. */
  lemma ReadLanguageRender(l: Language, body: string, tail: string)
    ensures ReadLanguage(Name(l) + (body + tail), body) == Some((l, tail))
  {
    ParseLanguageName(l, body, tail);
    assert (Name(l) + (body + tail))[|Name(l)| + |body|..] == tail;
  }

  lemma ParseSummaryRender(l: Language, e: string)
    ensures ParseSummary(Name(l) + (SummaryBody + (e + "\n"))) == Some(Summary(l, e))
  {
    ReadLanguageRender(l, SummaryBody, e + "\n");
    assert (e + "\n")[..|e|] == e;
  }

  lemma ParseQuestionRender(l: Language, e: string, q: string)
    requires '\n' !in e
    ensures ParseQuestion(Name(l) + (QuestionBody + (e + (QuestionSeparator + (q + "\n")))))
      == Some(Question(l, e, q))
  {
    var tail := e + (QuestionSeparator + (q + "\n"));
    ReadLanguageRender(l, QuestionBody, tail);
    QuestionTailRender(e, q);
  }

  /** The excerpt ends at the first line break, where the separator starts. */
  lemma QuestionTailRender(e: string, q: string)
    requires '\n' !in e
    ensures var tail := e + (QuestionSeparator + (q + "\n"));
      var n := Span(tail, c => c != '\n');
      && n == |e| && tail[..n] == e
      && QuestionSeparator <= tail[n..]
      && tail[n..][|QuestionSeparator|..] == q + "\n"
  {
    var tail := e + (QuestionSeparator + (q + "\n"));
    var n := Span(tail, c => c != '\n');
    assert tail[|e|] == '\n';
    forall j | 0 <= j < |e| ensures tail[j] != '\n' {
      assert tail[j] == e[j];
    }
    HeadThenRest(e, QuestionSeparator + (q + "\n"), tail);
    HeadThenRest(QuestionSeparator, q + "\n", tail[n..]);
  }

  /** Only rendered prompts parse: a parsed prompt renders back to the very
      text it was read from, and a parsed question excerpt holds no line
      break. */
  lemma RenderParse(s: string)
    ensures Parse(s).Some? ==> Render(Parse(s).value) == s
    ensures Parse(s).Some? && Parse(s).value.Question? ==> '\n' !in Parse(s).value.excerpt
  {
    if SummaryHead <= s {
      var rest := s[|SummaryHead|..];
      assert s == SummaryHead + rest;
      SummaryRenderParse(rest);
    } else if QuestionHead <= s {
      var rest := s[|QuestionHead|..];
      assert s == QuestionHead + rest;
      QuestionRenderParse(rest);
    }
  }

  lemma ReadLanguageParse(s: string, body: string)
    ensures ReadLanguage(s, body).Some? ==>
      var (l, tail) := ReadLanguage(s, body).value;
      s == Name(l) + (body + tail)
  {
    if ParseLanguage(s, body).Some? {
      var l := ParseLanguage(s, body).value;
      var after := s[|Name(l)|..];
      assert s == Name(l) + after;
      assert after == body + after[|body|..];
      assert after[|body|..] == s[|Name(l)| + |body|..];
    }
  }

  lemma SummaryRenderParse(rest: string)
    ensures ParseSummary(rest).Some? ==>
      Render(ParseSummary(rest).value) == SummaryHead + rest
  {
    ReadLanguageParse(rest, SummaryBody);
    match ReadLanguage(rest, SummaryBody)
    case None =>
    case Some((l, tail)) =>
      if tail != [] && tail[|tail| - 1] == '\n' {
        LastLine(tail);
      }
  }

  /** A text ending in a line break is its front followed by that break. */
  lemma LastLine(t: string)
    requires t != [] && t[|t| - 1] == '\n'
    ensures t == t[..|t| - 1] + "\n"
  {
  }

  lemma QuestionRenderParse(rest: string)
    ensures ParseQuestion(rest).Some? ==>
      Render(ParseQuestion(rest).value) == QuestionHead + rest
    ensures ParseQuestion(rest).Some? ==> '\n' !in ParseQuestion(rest).value.excerpt
  {
    ReadLanguageParse(rest, QuestionBody);
    match ReadLanguage(rest, QuestionBody)
    case None =>
    case Some((l, tail)) =>
      QuestionTailParse(tail);
  }

  /** A question tail that parses is its newline-free excerpt, the
      separator, the question and a closing line break. */
  lemma QuestionTailParse(tail: string)
    ensures var e := Span(tail, c => c != '\n');
      var after := tail[e..];
      QuestionSeparator <= after ==>
        var q := after[|QuestionSeparator|..];
        q != [] && q[|q| - 1] == '\n' ==>
          && tail == tail[..e] + (QuestionSeparator + (q[..|q| - 1] + "\n"))
          && '\n' !in tail[..e]
  {
    var e := Span(tail, c => c != '\n');
    var after := tail[e..];
    if QuestionSeparator <= after {
      var q := after[|QuestionSeparator|..];
      if q != [] && q[|q| - 1] == '\n' {
        LastLine(q);
        assert after == QuestionSeparator + q;
        assert tail == tail[..e] + after;
        forall j | 0 <= j < e ensures tail[..e][j] != '\n' {
        }
      }
    }
  }
}
