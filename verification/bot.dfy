/** The per-message decision procedure of `handle_message`, as one pure step
    over an immutable session map. The caption fetch and the inference reply
    are inputs: the step decides what is stored and whether inference is
    called with which prompt, and `Handle` turns the inference outcome into
    the replies the user sees. */
module Bot {
  import opened Text
  import opened Routing
  import opened Captions
  import opened Prompts

  /** A chat user's platform identifier. */
  type UserId = int

  /** Each user's most recently fetched transcript. */
  type Sessions = map<UserId, string>

  const NoTranscriptReply := "No transcript available."
  const FailureReply := "Something went wrong."
  const NeedLinkReply := "Please send a YouTube link first."
  const NoSummaryReply := "No summary generated."
  const NoAnswerReply := "No answer generated."
  const ProcessingNotice := "Processing transcript... \U{23F3}"

  /** Outcome of `get_transcript` for the message: the extraction library or
      the caption download raised, no caption track or a failed download
      made it return `None`, or it produced the raw caption payload and the
      video title. */
  datatype Fetch =
    | FetchRaised
    | NoCaptions
    | Fetched(vtt: string, title: string)

  /** What the step decides: reply with a fixed text and stop, or send the
      notices and then call inference with a prompt, falling back to
      `fallback` when the reply lacks a `response` field. */
  datatype Action =
    | Say(text: string)
    | Infer(notices: seq<string>, prompt: Prompt, fallback: string)

  /** Outcome of the inference request: the request or its JSON decoding
      raised, or the reply decoded to an object with these string fields. */
  datatype Inference =
    | PostFailed
    | Responded(fields: map<string, string>)

  /** The notice announcing the video title. */
  function TitleNotice(title: string): string
  {
    "\U{1F3A5} " + title
  }

  /** A stored transcript as caption cleanup leaves it when it is not empty:
      one line, with no whitespace at either end. */
  predicate IsTranscript(t: string)
  {
    t != [] && '\n' !in t && !IsSpace(t[0]) && !IsSpace(t[|t| - 1])
  }

  /** Every stored transcript is a cleaned, non-empty one. */
  predicate WellFormed(sessions: Sessions)
  {
    forall u :: u in sessions ==> IsTranscript(sessions[u])
  }

  /** The session entry of `u`, if any. */
  function Lookup(sessions: Sessions, u: UserId): Option<string>
  {
    if u in sessions then Some(sessions[u]) else None
  }

  /** One message handled. A video request runs the fetch: a raised error and
      a `None` result both end in the generic failure reply (the tuple
      unpacking of `None` raises), an empty cleaned transcript is refused,
      and otherwise the transcript replaces the sender's entry before the
      summary prompt is built. A question is refused when the sender has no
      entry and otherwise is answered from the stored transcript; it never
      writes. Only the sender's entry can change, no entry is ever removed,
      and every prompt carries the first `ExcerptBudget` characters of the
      sender's entry in the resulting map. */
  function Step(sessions: Sessions, user: UserId, msg: string, fetch: Fetch): (out: (Sessions, Action))
    ensures forall v :: v != user ==> Lookup(out.0, v) == Lookup(sessions, v)
    ensures sessions.Keys <= out.0.Keys
    ensures out.1.Say? ==> out.0 == sessions
    ensures Lookup(out.0, user) != Lookup(sessions, user) ==>
      fetch.Fetched? && out.0[user] == Clean(fetch.vtt) && IsTranscript(out.0[user])
    ensures out.1.Infer? ==>
      && user in out.0
      && out.1.prompt.excerpt == Take(out.0[user], ExcerptBudget)
      && out.1.prompt.language == DetectLanguage(msg)
    ensures out.1.Infer? && out.1.prompt.Question? ==> out.1.prompt.question == msg
  {
    if IsVideoRequest(msg) then
      match fetch
      case FetchRaised => (sessions, Say(FailureReply))
      case NoCaptions => (sessions, Say(FailureReply))
      case Fetched(vtt, title) =>
        var t := Clean(vtt);
        if t == [] then (sessions, Say(NoTranscriptReply))
        else
          var notices := [TitleNotice(title), ProcessingNotice];
          (sessions[user := t], Infer(notices, SummaryFor(DetectLanguage(msg), t), NoSummaryReply))
    else if user !in sessions then
      (sessions, Say(NeedLinkReply))
    else
      var t := sessions[user];
      (sessions, Infer([], QuestionFor(DetectLanguage(msg), t, msg), NoAnswerReply))
  }

  /** `result.get("response", fallback)`. */
  function ResponseText(fields: map<string, string>, fallback: string): string
  {
    if "response" in fields then fields["response"] else fallback
  }

  /** The replies an action produces once the inference outcome is known. */
  function Replies(a: Action, inference: Inference): seq<string>
  {
    match a
    case Say(text) => [text]
    case Infer(notices, _, fallback) =>
      match inference
      case PostFailed => notices + [FailureReply]
      case Responded(fields) => notices + [ResponseText(fields, fallback)]
  }

  /** `handle_message` end to end: the new session map and the replies sent. */
  function Handle(sessions: Sessions, user: UserId, msg: string, fetch: Fetch, inference: Inference)
    : (out: (Sessions, seq<string>))
    ensures out.1 != []
    ensures out.0 == Step(sessions, user, msg, fetch).0
  {
    var (next, action) := Step(sessions, user, msg, fetch);
    (next, Replies(action, inference))
  }

  /** The action belongs to the summary path. */
  predicate SummaryAction(a: Action)
  {
    a == Say(FailureReply) || a == Say(NoTranscriptReply) || (a.Infer? && a.prompt.Summary?)
  }

  /** The action belongs to the question path. */
  predicate QuestionAction(a: Action)
  {
    a == Say(NeedLinkReply) || (a.Infer? && a.prompt.Question?)
  }

  /** Routing is decided by the host substrings alone: the step takes the
      summary path exactly when the message holds "youtube.com" or
      "youtu.be", and the question path exactly otherwise. */
  lemma RoutingDecides(sessions: Sessions, user: UserId, msg: string, fetch: Fetch)
    ensures SummaryAction(Step(sessions, user, msg, fetch).1)
      <==> Occurs(msg, YouTubeHost) || Occurs(msg, ShortHost)
    ensures QuestionAction(Step(sessions, user, msg, fetch).1)
      <==> !(Occurs(msg, YouTubeHost) || Occurs(msg, ShortHost))
  {
  }

  /** A video request whose captions clean to a non-empty transcript stores
      it for the sender, replacing any earlier entry, and asks for a summary
      of its first characters in the detected language after the title and
      processing notices. */
  lemma SummarizeStores(sessions: Sessions, user: UserId, msg: string, vtt: string, title: string)
    requires IsVideoRequest(msg) && Clean(vtt) != []
    ensures var (next, a) := Step(sessions, user, msg, Fetched(vtt, title));
      && next == sessions[user := Clean(vtt)]
      && a == Infer([TitleNotice(title), ProcessingNotice],
                    Summary(DetectLanguage(msg), Take(Clean(vtt), ExcerptBudget)),
                    NoSummaryReply)
  {
  }

  /** A video request whose fetch raises, returns `None`, or yields captions
      that clean to nothing leaves every entry as it was and calls no
      inference: only the empty transcript is reported as unavailable, the
      other two as a generic failure. */
  lemma SummarizeRefused(sessions: Sessions, user: UserId, msg: string, fetch: Fetch)
    requires IsVideoRequest(msg)
    requires !fetch.Fetched? || Clean(fetch.vtt) == []
    ensures Step(sessions, user, msg, fetch).0 == sessions
    ensures Step(sessions, user, msg, fetch).1 ==
      if fetch.Fetched? then Say(NoTranscriptReply) else Say(FailureReply)
  {
  }

  /** A question never writes and never looks at the fetch. Without an entry
      the sender is told to send a link and no inference is called; with one
      the prompt carries the stored transcript's first characters and the
      message verbatim. */
  lemma QuestionReadsOnly(sessions: Sessions, user: UserId, msg: string, fetch: Fetch, other: Fetch)
    requires !IsVideoRequest(msg)
    ensures Step(sessions, user, msg, fetch).0 == sessions
    ensures Step(sessions, user, msg, fetch) == Step(sessions, user, msg, other)
    ensures user !in sessions ==> Step(sessions, user, msg, fetch).1 == Say(NeedLinkReply)
    ensures user in sessions ==>
      (Step(sessions, user, msg, fetch).1 ==
        Infer([], Question(DetectLanguage(msg), Take(sessions[user], ExcerptBudget), msg), NoAnswerReply))
  {
  }

  /** The step keeps every stored transcript a cleaned, non-empty one. */
  lemma StepPreservesWellFormed(sessions: Sessions, user: UserId, msg: string, fetch: Fetch)
    requires WellFormed(sessions)
    ensures WellFormed(Step(sessions, user, msg, fetch).0)
  {
    var next := Step(sessions, user, msg, fetch).0;
    forall u | u in next
      ensures IsTranscript(next[u])
    {
      if u != user || Lookup(next, u) == Lookup(sessions, u) {
        assert Lookup(next, u) == Lookup(sessions, u);
      }
    }
  }

  /** Every session map reached from a well-formed one, in particular from
      the empty map the process starts with, is well-formed. */
  lemma {:induction false} RunWellFormed(sessions: Sessions, msgs: seq<Message>)
    requires WellFormed(sessions)
    ensures WellFormed(Run(sessions, msgs))
    decreases |msgs|
  {
    if msgs != [] {
      StepPreservesWellFormed(sessions, msgs[0].user, msgs[0].text, msgs[0].fetch);
      RunWellFormed(Step(sessions, msgs[0].user, msgs[0].text, msgs[0].fetch).0, msgs[1..]);
    }
  }

  /** With well-formed sessions, the text sent for inference reads back as
      the prompt it was rendered from, so it holds the detected language,
      exactly the first `ExcerptBudget` characters of the sender's stored
      transcript (all of it when shorter) and, for a question, the message
      verbatim. */
  lemma PromptTextCarriesExcerpt(sessions: Sessions, user: UserId, msg: string, fetch: Fetch)
    requires WellFormed(sessions)
    ensures var (next, a) := Step(sessions, user, msg, fetch);
      a.Infer? ==>
        && Parse(Render(a.prompt)) == Some(a.prompt)
        && a.prompt.excerpt == Take(next[user], ExcerptBudget)
        && (|next[user]| <= ExcerptBudget ==> a.prompt.excerpt == next[user])
  {
    var (next, a) := Step(sessions, user, msg, fetch);
    StepPreservesWellFormed(sessions, user, msg, fetch);
    if a.Infer? {
      var t := next[user];
      assert IsTranscript(t);
      var e := a.prompt.excerpt;
      assert e == t[..|e|];
      forall j | 0 <= j < |e| ensures e[j] != '\n' {
        assert e[j] == t[j];
      }
      ParseRender(a.prompt);
    }
  }

  /** The inference outcome decides only the last reply. A refusal ignores
      it; otherwise the notices come first and the last reply is the
      `response` field verbatim when present, the path's own placeholder
      when absent ("No summary generated." for a summary, "No answer
      generated." for a question), and the generic failure reply when the
      request raised. A stored transcript is kept even when inference
      fails. */
  lemma InferenceDecidesLastReply(sessions: Sessions, user: UserId, msg: string, fetch: Fetch,
                                  inference: Inference)
    ensures var (next, a) := Step(sessions, user, msg, fetch);
      var (next', replies) := Handle(sessions, user, msg, fetch, inference);
      && next' == next
      && (a.Say? ==> replies == [a.text])
      && (a.Infer? ==> replies[..|replies| - 1] == a.notices)
      && (a.Infer? && inference.PostFailed? ==> replies[|replies| - 1] == FailureReply)
      && (a.Infer? && inference.Responded? ==>
            replies[|replies| - 1] ==
              if "response" in inference.fields then inference.fields["response"]
              else if IsVideoRequest(msg) then NoSummaryReply
              else NoAnswerReply)
  {
    var (next, a) := Step(sessions, user, msg, fetch);
    if a.Infer? {
      var replies := Handle(sessions, user, msg, fetch, inference).1;
      assert replies[..|replies| - 1] == a.notices;
    }
  }

  /** One incoming text message together with the outcome its fetch would
      have. */
  datatype Message = Message(user: UserId, text: string, fetch: Fetch)

  /** The session map after handling `msgs` in order. */
  function Run(sessions: Sessions, msgs: seq<Message>): Sessions
    decreases |msgs|
  {
    if msgs == [] then sessions
    else Run(Step(sessions, msgs[0].user, msgs[0].text, msgs[0].fetch).0, msgs[1..])
  }

  /** The message stores a transcript: a video request whose captions clean
      to a non-empty text. */
  predicate Stores(m: Message)
  {
    IsVideoRequest(m.text) && m.fetch.Fetched? && Clean(m.fetch.vtt) != []
  }

  /** Reference meaning of a user's entry after a run: the cleaned captions
      of the user's last storing message, or the entry held before the run
      when there is none. */
  function Latest(sessions: Sessions, u: UserId, msgs: seq<Message>): Option<string>
    decreases |msgs|
  {
    if msgs == [] then Lookup(sessions, u)
    else
      var m := msgs[|msgs| - 1];
      if m.user == u && Stores(m) then Some(Clean(m.fetch.vtt))
      else Latest(sessions, u, msgs[..|msgs| - 1])
  }

  /** The one write a step makes: the sender's entry becomes the cleaned
      transcript of a storing message; every other entry, and the sender's
      on any other message, is left as it was. */
  lemma StepEntry(sessions: Sessions, m: Message, u: UserId)
    ensures Lookup(Step(sessions, m.user, m.text, m.fetch).0, u) ==
      if m.user == u && Stores(m) then Some(Clean(m.fetch.vtt)) else Lookup(sessions, u)
  {
  }

  /** Handling one more message is one more step. */
  lemma {:induction false} RunSnoc(sessions: Sessions, msgs: seq<Message>, m: Message)
    ensures Run(sessions, msgs + [m]) == Step(Run(sessions, msgs), m.user, m.text, m.fetch).0
    decreases |msgs|
  {
    if msgs == [] {
      assert [m][1..] == [];
    } else {
      var next := Step(sessions, msgs[0].user, msgs[0].text, msgs[0].fetch).0;
      assert (msgs + [m])[1..] == msgs[1..] + [m];
      RunSnoc(next, msgs[1..], m);
    }
  }

  /** Session overwrite law: after any sequence of messages, each user's
      entry is the transcript of that user's last successful video request,
      whatever came after it. */
  lemma {:induction false} RunIsLatest(sessions: Sessions, msgs: seq<Message>, u: UserId)
    ensures Lookup(Run(sessions, msgs), u) == Latest(sessions, u, msgs)
    decreases |msgs|
  {
    if msgs != [] {
      var front := msgs[..|msgs| - 1];
      var m := msgs[|msgs| - 1];
      assert msgs == front + [m];
      RunSnoc(sessions, front, m);
      RunIsLatest(sessions, front, u);
      StepEntry(Run(sessions, front), m, u);
    }
  }

  /** Two successful video requests by the same user, then a question: the
      question is answered from the second video's transcript only. */
  lemma SecondVideoAnswers(sessions: Sessions, first: Message, second: Message,
                           question: string, fetch: Fetch)
    requires first.user == second.user && Stores(first) && Stores(second)
    requires !IsVideoRequest(question)
    ensures var t := Clean(second.fetch.vtt);
      Step(Run(sessions, [first, second]), second.user, question, fetch).1 ==
        Infer([], Question(DetectLanguage(question), Take(t, ExcerptBudget), question), NoAnswerReply)
  {
    var u := second.user;
    RunIsLatest(sessions, [first, second], u);
    assert [first, second][..1] == [first];
  }
}
