/** The two classifications `handle_message` makes of the raw message text:
    whether it is a video request, and which output language it asks for. */
module Routing {
  import opened Text

  const YouTubeHost := "youtube.com"
  const ShortHost := "youtu.be"

  /** A message is a video request exactly when one of the two host names
      occurs in it, compared case-sensitively; everything else is a question. */
  function IsVideoRequest(msg: string): (r: bool)
    ensures r <==> Occurs(msg, YouTubeHost) || Occurs(msg, ShortHost)
  {
    Contains(msg, YouTubeHost) || Contains(msg, ShortHost)
  }

  datatype Language = English | Hindi | Kannada | Tamil

  /** The language name spliced into the prompt templates. */
  function Name(l: Language): string
  {
    match l
    case English => "English"
    case Hindi => "Hindi"
    case Kannada => "Kannada"
    case Tamil => "Tamil"
  }

  /** `c` is the lower-case ASCII letter `k` written in either case, or equals
      `k` outright. */
  predicate SameLetterIgnoringCase(c: char, k: char)
  {
    c == k || ('a' <= k <= 'z' && c as int == k as int - 32)
  }

  /** The keyword `kw` is spelled at index `i` of `msg`, ignoring ASCII case. */
  ghost predicate MentionsAt(msg: string, kw: string, i: int)
  {
    0 <= i && i + |kw| <= |msg|
    && forall j :: 0 <= j < |kw| ==> SameLetterIgnoringCase(msg[i + j], kw[j])
  }

  /** Reference meaning of a case-insensitive keyword search. */
  ghost predicate Mentions(msg: string, kw: string)
  {
    exists i :: MentionsAt(msg, kw, i)
  }

  /** Every character of `kw` is a lower-case ASCII letter. */
  predicate IsLowerWord(kw: string)
  {
    forall j :: 0 <= j < |kw| ==> 'a' <= kw[j] <= 'z'
  }

  /** For a lower-case keyword, searching the lower-cased message is the same
      as a case-insensitive search of the message itself. */
  lemma ContainsLowerIsMentions(msg: string, kw: string)
    requires IsLowerWord(kw)
    ensures Contains(Lower(msg), kw) <==> Mentions(msg, kw)
  {
    var low := Lower(msg);
    forall i | 0 <= i && i + |kw| <= |msg|
      ensures OccursAt(low, kw, i) <==> MentionsAt(msg, kw, i)
    {
      forall j | 0 <= j < |kw|
        ensures low[i + j] == kw[j] <==> SameLetterIgnoringCase(msg[i + j], kw[j])
      {
      }
      if OccursAt(low, kw, i) {
        forall j | 0 <= j < |kw|
          ensures SameLetterIgnoringCase(msg[i + j], kw[j])
        {
          assert low[i..i + |kw|][j] == low[i + j];
        }
      }
      if MentionsAt(msg, kw, i) {
        assert low[i..i + |kw|] == kw;
      }
    }
    if Mentions(msg, kw) {
      var i :| MentionsAt(msg, kw, i);
      assert OccursAt(low, kw, i);
    }
    if Occurs(low, kw) {
      var i :| OccursAt(low, kw, i);
      assert MentionsAt(msg, kw, i);
    }
  }

  /** The keyword cascade of `handle_message`: the lower-cased message is
      searched for "hindi", then "kannada", then "tamil"; the first hit decides
      and English is the default. Both the summary path and the question path
      use this one definition. */
  function DetectLanguage(msg: string): (r: Language)
    ensures r == Hindi <==> Mentions(msg, "hindi")
    ensures r == Kannada <==> !Mentions(msg, "hindi") && Mentions(msg, "kannada")
    ensures r == Tamil <==>
      !Mentions(msg, "hindi") && !Mentions(msg, "kannada") && Mentions(msg, "tamil")
    ensures r == English <==>
      !Mentions(msg, "hindi") && !Mentions(msg, "kannada") && !Mentions(msg, "tamil")
  {
    ContainsLowerIsMentions(msg, "hindi");
    ContainsLowerIsMentions(msg, "kannada");
    ContainsLowerIsMentions(msg, "tamil");
    var low := Lower(msg);
    if Contains(low, "hindi") then Hindi
    else if Contains(low, "kannada") then Kannada
    else if Contains(low, "tamil") then Tamil
    else English
  }

  /** Changing the ASCII case of any letters of a message never changes the
      language detected for it. */
  lemma {:induction false} DetectLanguageIgnoresCase(a: string, b: string)
    requires |a| == |b|
    requires forall i :: 0 <= i < |a| ==> LowerChar(a[i]) == LowerChar(b[i])
    ensures DetectLanguage(a) == DetectLanguage(b)
  {
    assert Lower(a) == Lower(b);
  }

  /** The worked scenario of a short link followed by "in hindi": the message
      is routed to the summary path and asks for Hindi. */
  lemma ShortLinkInHindi()
    ensures IsVideoRequest("https://youtu.be/xyz in hindi")
    ensures DetectLanguage("https://youtu.be/xyz in hindi") == Hindi
  {
    var msg := "https://youtu.be/xyz in hindi";
    assert OccursAt(msg, ShortHost, 8);
    assert MentionsAt(msg, "hindi", 24);
  }
}
