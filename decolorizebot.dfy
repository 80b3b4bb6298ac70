/** The decision logic of the DecolorizeBot comment handler: the trigger test,
    the file name taken from an image URL's path, the reply text, and the
    per-comment step over the two "already done" lists. Fetching, decoding,
    desaturating and uploading an image (`handle_image_url`) and finding URLs
    in a comment body (`find_urls`) are parameters of the handler. */
module Decolorizer {
  import opened PyStr

  datatype Option<T> = None | Some(value: T)

  /** The token a comment must start with, compared in lower case. */
  const Trigger: string := "decolorizebot"

  /** The first line of every reply. */
  const Preamble: string := "Who needs color?"

  // ---------------------------------------------------------------------------
  // Trigger test

  /** `condition_met`: the lower-cased text starts with the trigger token. */
  function ConditionMet(text: string): (r: bool)
    ensures r <==> |text| >= |Trigger| &&
                   forall i :: 0 <= i < |Trigger| ==> Lower(text[i]) == Trigger[i]
  {
    Trigger <= Lowered(text)
  }

  /** Lower-casing first changes nothing: the test is case-insensitive. */
  lemma ConditionMetIgnoresCase(text: string)
    ensures ConditionMet(Lowered(text)) == ConditionMet(text)
  {
    var low := Lowered(text);
    forall i | 0 <= i < |text|
      ensures Lower(low[i]) == Lower(text[i])
    {
      assert !IsUpper(low[i]);
    }
  }

  /** Only the first |Trigger| characters matter: whatever follows a triggering
      text (or replaces the tail after the token) keeps it triggering. */
  lemma ConditionMetDependsOnHead(text: string, rest: string)
    requires |text| >= |Trigger|
    ensures ConditionMet(text) == ConditionMet(text[..|Trigger|] + rest)
  {
    var other := text[..|Trigger|] + rest;
    assert forall i :: 0 <= i < |Trigger| ==> other[i] == text[i];
  }

  /** Mixed case triggers; the token anywhere but the start does not. */
  lemma ConditionMetExamples()
    ensures ConditionMet("DecolorizeBot please")
    ensures !ConditionMet("please decolorizebot")
  {
    var low := Lowered("DecolorizeBot please");
    assert low[0] == 'd' && low[1] == 'e' && low[2] == 'c' && low[3] == 'o' && low[4] == 'l';
    assert low[5] == 'o' && low[6] == 'r' && low[7] == 'i' && low[8] == 'z' && low[9] == 'e';
    assert low[10] == 'b' && low[11] == 'o' && low[12] == 't';
    assert Lower("please decolorizebot"[0]) != Trigger[0];
  }

  // ---------------------------------------------------------------------------
  // File name from a URL path

  /** `extract_filename`, on the URL's path: the last `/`-separated segment,
      i.e. the suffix after the last `/`, or the whole path if it has none. */
  function ExtractFilename(path: string): (name: string)
    ensures |name| <= |path| && name == path[|path| - |name|..]
    ensures '/' !in name
    ensures |name| == |path| || path[|path| - |name| - 1] == '/'
  {
    LastSegment(path, '/');
    Last(Split(path, '/'))
  }

  /** A path without `/` is its own file name. */
  lemma ExtractFilenameNoSlash(path: string)
    requires '/' !in path
    ensures ExtractFilename(path) == path
  {
  }

  /** The file name of `dir/file` is `file`, whatever `dir` holds. */
  lemma ExtractFilenameAfterSlash(dir: string, file: string)
    requires '/' !in file
    ensures ExtractFilename(dir + "/" + file) == file
  {
    var path := dir + "/" + file;
    var name := ExtractFilename(path);
    assert path[|path| - |file|..] == file;
    assert path[|dir|] == '/';
    if |name| > |file| {
      SuffixHolds(path, name, |dir|);
      assert false;
    } else if |name| < |file| {
      SuffixHolds(path, file, |path| - |name| - 1);
      assert false;
    }
  }

  /** Every character of `s` from where its suffix `suffix` starts is in it. */
  lemma SuffixHolds(s: string, suffix: string, k: int)
    requires |suffix| <= |s| && suffix == s[|s| - |suffix|..]
    requires |s| - |suffix| <= k < |s|
    ensures s[k] in suffix
  {
    assert suffix[k - (|s| - |suffix|)] == s[k];
  }

  // ---------------------------------------------------------------------------
  // Reply text

  /** The reply for `urls`: the preamble, then "\n" and the url, per url in order. */
  function ReplyText(urls: seq<string>): string
    decreases |urls|
  {
    if urls == [] then Preamble
    else ReplyText(urls[..|urls| - 1]) + "\n" + urls[|urls| - 1]
  }

  /** `generate_reply`: accumulates the reply line by line. */
  method GenerateReply(urls: seq<string>) returns (reply: string)
    ensures reply == ReplyText(urls)
    ensures Preamble <= reply
    ensures urls == [] ==> reply == Preamble
  {
    reply := Preamble;
    for i := 0 to |urls|
      invariant reply == ReplyText(urls[..i])
    {
      assert urls[..i + 1][..i] == urls[..i];
      reply := reply + "\n" + urls[i];
    }
    assert urls[..|urls|] == urls;
    ReplyStartsWithPreamble(urls);
  }

  /** Every reply begins with the preamble. */
  lemma {:induction false} ReplyStartsWithPreamble(urls: seq<string>)
    ensures Preamble <= ReplyText(urls)
    decreases |urls|
  {
    if urls != [] {
      ReplyStartsWithPreamble(urls[..|urls| - 1]);
    }
  }

  /** The reply is the preamble and the urls joined by newlines. */
  lemma {:induction false} ReplyTextIsJoin(urls: seq<string>)
    ensures ReplyText(urls) == Join([Preamble] + urls, '\n')
    decreases |urls|
  {
    if urls != [] {
      var init := urls[..|urls| - 1];
      ReplyTextIsJoin(init);
      assert [Preamble] + urls == ([Preamble] + init) + [urls[|urls| - 1]];
      JoinSnoc([Preamble] + init, '\n', urls[|urls| - 1]);
    }
  }

  /** The preamble holds no line break. */
  lemma PreambleIsOneLine()
    ensures '\n' !in Preamble
  {
  }

  /** Read back line by line, a reply is the preamble followed by exactly the
      urls, one per line, in order (for urls without line breaks). */
  lemma ReplyLines(urls: seq<string>)
    requires forall i :: 0 <= i < |urls| ==> '\n' !in urls[i]
    ensures Split(ReplyText(urls), '\n') == [Preamble] + urls
  {
    ReplyTextIsJoin(urls);
    var lines := [Preamble] + urls;
    PreambleIsOneLine();
    forall i | 0 <= i < |lines|
      ensures '\n' !in lines[i]
    {
      if i == 0 {
        assert lines[i] == Preamble;
      } else {
        assert lines[i] == urls[i - 1];
      }
    }
    JoinSplit(lines, '\n');
  }

  // ---------------------------------------------------------------------------
  // The per-comment handler

  /** What the handler reads of a comment: its id, its body and the URL of the
      submission it was posted under ("" when there is none). */
  datatype Comment = Comment(id: string, body: string, submissionUrl: string)

  /** The two lists the bot keeps: ids of handled comments, hosted links posted. */
  datatype Ledger = Ledger(commentsDone: seq<string>, urlsDone: seq<string>)

  /** Links produced so far, and the URLs handed to `handle_image_url`, in order. */
  datatype Scan = Scan(links: seq<string>, tried: seq<string>)

  /** The effect of handling one comment: the new lists, the reply posted (if
      any) and the URLs handed to `handle_image_url`, in call order. */
  datatype Outcome = Outcome(ledger: Ledger, reply: Option<string>, tried: seq<string>)

  /** Python truthiness of `handle_image_url`'s result: a non-empty link. */
  predicate Truthy(link: Option<string>)
  {
    link.Some? && link.value != ""
  }

  /** The loop over the body's URLs (decolorizebot.py:130-136): a URL already
      in `urls_done` (which grows by the links produced on the way) is skipped,
      any other is handed to `handleImageUrl`, and a truthy link is kept. */
  function ScanUrls(urls: seq<string>, done: seq<string>,
                    handleImageUrl: string -> Option<string>): (s: Scan)
    ensures |s.links| <= |s.tried| <= |urls|
    ensures forall u :: u in s.tried ==> u in urls && u !in done
    ensures forall u :: u in urls && u !in done && u !in s.links ==> u in s.tried
    ensures forall l :: l in s.links ==> l != ""
    decreases |urls|
  {
    if urls == [] then Scan([], [])
    else
      var prev := ScanUrls(urls[..|urls| - 1], done, handleImageUrl);
      var url := urls[|urls| - 1];
      if url in done + prev.links then prev
      else
        var link := handleImageUrl(url);
        if Truthy(link) then Scan(prev.links + [link.value], prev.tried + [url])
        else Scan(prev.links, prev.tried + [url])
  }

  /** The body's URLs, then the submission URL as a fallback when they gave no
      link (decolorizebot.py:126-143). */
  function Collect(c: Comment, done: seq<string>, findUrls: string -> seq<string>,
                   handleImageUrl: string -> Option<string>): (s: Scan)
    ensures |s.links| <= |s.tried|
    ensures forall l :: l in s.links ==> l != ""
  {
    var fromBody := ScanUrls(findUrls(c.body), done, handleImageUrl);
    if fromBody.links == [] && c.submissionUrl != "" then
      var link := handleImageUrl(c.submissionUrl);
      Scan(if Truthy(link) then [link.value] else [], fromBody.tried + [c.submissionUrl])
    else fromBody
  }

  /** One call of `func`, as a function of the lists before it. */
  function Step(ledger: Ledger, c: Comment, findUrls: string -> seq<string>,
                handleImageUrl: string -> Option<string>): (o: Outcome)
    ensures ledger.commentsDone <= o.ledger.commentsDone
    ensures ledger.urlsDone <= o.ledger.urlsDone
    ensures o.reply.Some? ==> Preamble <= o.reply.value
  {
    if c.id in ledger.commentsDone || !ConditionMet(c.body) then
      Outcome(ledger, None, [])
    else
      var s := Collect(c, ledger.urlsDone, findUrls, handleImageUrl);
      ReplyStartsWithPreamble(s.links);
      Outcome(Ledger(ledger.commentsDone + [c.id], ledger.urlsDone + s.links),
              if s.links == [] then None else Some(ReplyText(s.links)),
              s.tried)
  }

  /** The links a sequence of `handle_image_url` calls yields: the truthy
      results, in call order. */
  function Successes(tried: seq<string>, handleImageUrl: string -> Option<string>): seq<string>
    decreases |tried|
  {
    if tried == [] then []
    else
      var link := handleImageUrl(tried[|tried| - 1]);
      Successes(tried[..|tried| - 1], handleImageUrl) + (if Truthy(link) then [link.value] else [])
  }

  /** The bot's state: the two lists `func` appends to. */
  class DecolorizeBot {
    var commentsDone: seq<string>
    var urlsDone: seq<string>

    /** A fresh bot has handled nothing. */
    constructor ()
      ensures commentsDone == [] && urlsDone == []
    {
      commentsDone := [];
      urlsDone := [];
    }

    function State(): Ledger
      reads this
    {
      Ledger(commentsDone, urlsDone)
    }

    /** `func`: handle one comment. `reply` is what is posted under the
        comment, and `tried` lists the URLs handed to `handleImageUrl`. */
    method Func(comment: Comment, findUrls: string -> seq<string>,
                handleImageUrl: string -> Option<string>)
      returns (reply: Option<string>, tried: seq<string>)
      modifies this
      ensures Outcome(State(), reply, tried) == Step(old(State()), comment, findUrls, handleImageUrl)
      ensures comment.id in old(commentsDone) || !ConditionMet(comment.body) ==>
                commentsDone == old(commentsDone) && urlsDone == old(urlsDone) &&
                reply == None && tried == []
      ensures comment.id !in old(commentsDone) && ConditionMet(comment.body) ==>
                commentsDone == old(commentsDone) + [comment.id]
      ensures old(urlsDone) <= urlsDone
      ensures reply == if |urlsDone| == |old(urlsDone)| then None
                       else Some(ReplyText(urlsDone[|old(urlsDone)|..]))
    {
      reply, tried := None, [];
      if comment.id !in commentsDone && ConditionMet(comment.body) {
        var commentUrls := findUrls(comment.body);
        var replyUrls: seq<string> := [];
        for i := 0 to |commentUrls|
          invariant Scan(replyUrls, tried) == ScanUrls(commentUrls[..i], old(urlsDone), handleImageUrl)
          invariant urlsDone == old(urlsDone) + replyUrls
          invariant commentsDone == old(commentsDone)
        {
          var url := commentUrls[i];
          assert commentUrls[..i + 1][..i] == commentUrls[..i];
          if url in urlsDone {
            continue;
          }
          var replyUrl := handleImageUrl(url);
          tried := tried + [url];
          if Truthy(replyUrl) {
            replyUrls := replyUrls + [replyUrl.value];
            urlsDone := urlsDone + [replyUrl.value];
          }
        }
        assert commentUrls[..|commentUrls|] == commentUrls;
        if replyUrls == [] {
          // no link from the body: try the submission's URL
          if comment.submissionUrl != "" {
            var replyUrl := handleImageUrl(comment.submissionUrl);
            tried := tried + [comment.submissionUrl];
            if Truthy(replyUrl) {
              replyUrls := replyUrls + [replyUrl.value];
              urlsDone := urlsDone + [replyUrl.value];
            }
          }
        }
        if replyUrls != [] {
          var body := GenerateReply(replyUrls);
          reply := Some(body);
        }
        assert urlsDone[|old(urlsDone)|..] == replyUrls;
        commentsDone := commentsDone + [comment.id];
      }
    }
  }

  // ---------------------------------------------------------------------------
  // Properties of one step

  /** A comment already handled, or one that does not trigger, changes
      nothing, is answered with nothing and hands no URL to the pipeline. */
  lemma IgnoredCommentIsNoOp(ledger: Ledger, c: Comment, findUrls: string -> seq<string>,
                             handleImageUrl: string -> Option<string>)
    requires c.id in ledger.commentsDone || !ConditionMet(c.body)
    ensures Step(ledger, c, findUrls, handleImageUrl) == Outcome(ledger, None, [])
  {
  }

  /** Handling the same comment twice is the same as handling it once. */
  lemma StepIsIdempotent(ledger: Ledger, c: Comment, findUrls: string -> seq<string>,
                         handleImageUrl: string -> Option<string>)
    ensures var once := Step(ledger, c, findUrls, handleImageUrl);
            Step(once.ledger, c, findUrls, handleImageUrl) == Outcome(once.ledger, None, [])
  {
    var once := Step(ledger, c, findUrls, handleImageUrl);
    if c.id !in ledger.commentsDone && ConditionMet(c.body) {
      assert c.id in once.ledger.commentsDone;
    }
  }

  /** A triggering comment not seen before is marked done exactly once, whether
      or not any link was produced; a duplicate-free list stays duplicate-free. */
  lemma CommentMarkedDoneOnce(ledger: Ledger, c: Comment, findUrls: string -> seq<string>,
                              handleImageUrl: string -> Option<string>)
    requires c.id !in ledger.commentsDone && ConditionMet(c.body)
    ensures var after := Step(ledger, c, findUrls, handleImageUrl).ledger.commentsDone;
            after == ledger.commentsDone + [c.id] &&
            multiset(after)[c.id] == 1
  {
    var after := Step(ledger, c, findUrls, handleImageUrl).ledger.commentsDone;
    assert multiset(ledger.commentsDone)[c.id] == 0;
    assert multiset(after) == multiset(ledger.commentsDone) + multiset{c.id};
  }

  /** Each comment id appears at most once in `comments_done`, before and after. */
  lemma CommentsDoneStaysDistinct(ledger: Ledger, c: Comment, findUrls: string -> seq<string>,
                                  handleImageUrl: string -> Option<string>)
    requires forall i, j :: 0 <= i < j < |ledger.commentsDone| ==>
               ledger.commentsDone[i] != ledger.commentsDone[j]
    ensures var after := Step(ledger, c, findUrls, handleImageUrl).ledger.commentsDone;
            forall i, j :: 0 <= i < j < |after| ==> after[i] != after[j]
  {
    var after := Step(ledger, c, findUrls, handleImageUrl).ledger.commentsDone;
    if after != ledger.commentsDone {
      assert after == ledger.commentsDone + [c.id];
      forall i, j | 0 <= i < j < |after|
        ensures after[i] != after[j]
      {
        if j == |ledger.commentsDone| {
          assert after[i] in ledger.commentsDone;
        }
      }
    }
  }

  /** A body URL already in `urls_done` is never handed to the pipeline by the
      body loop; only the submission fallback is not checked against the list. */
  lemma DoneUrlIsNotTried(ledger: Ledger, c: Comment, findUrls: string -> seq<string>,
                          handleImageUrl: string -> Option<string>, url: string)
    requires url in ledger.urlsDone
    ensures url in Step(ledger, c, findUrls, handleImageUrl).tried ==>
              url == c.submissionUrl
  {
    var o := Step(ledger, c, findUrls, handleImageUrl);
    if o.tried != [] {
      var fromBody := ScanUrls(findUrls(c.body), ledger.urlsDone, handleImageUrl);
      assert url !in fromBody.tried;
    }
  }

  /** The submission URL is handed to the pipeline only when the body's URLs
      gave no link and the submission URL is non-empty, and then it is the one
      extra call; it adds at most one link. */
  lemma SubmissionFallback(ledger: Ledger, c: Comment, findUrls: string -> seq<string>,
                           handleImageUrl: string -> Option<string>)
    requires c.id !in ledger.commentsDone && ConditionMet(c.body)
    ensures var fromBody := ScanUrls(findUrls(c.body), ledger.urlsDone, handleImageUrl);
            var o := Step(ledger, c, findUrls, handleImageUrl);
            var fallback := fromBody.links == [] && c.submissionUrl != "";
            (fallback ==> o.tried == fromBody.tried + [c.submissionUrl] &&
                          |o.ledger.urlsDone| <= |ledger.urlsDone| + 1) &&
            (!fallback ==> o.tried == fromBody.tried &&
                           o.ledger.urlsDone == ledger.urlsDone + fromBody.links)
  {
  }

  /** The links a URL scan keeps are exactly the truthy results of the calls
      it made, in order: a URL whose pipeline fails adds no link. */
  lemma {:induction false} ScanLinksAreSuccesses(urls: seq<string>, done: seq<string>,
                                                 handleImageUrl: string -> Option<string>)
    ensures var s := ScanUrls(urls, done, handleImageUrl);
            s.links == Successes(s.tried, handleImageUrl)
    decreases |urls|
  {
    if urls != [] {
      var prev := ScanUrls(urls[..|urls| - 1], done, handleImageUrl);
      ScanLinksAreSuccesses(urls[..|urls| - 1], done, handleImageUrl);
      var url := urls[|urls| - 1];
      if url !in done + prev.links {
        assert (prev.tried + [url])[..|prev.tried|] == prev.tried;
      }
    }
  }

  /** The same holds with the submission fallback: the links collected for a
      comment are the truthy results of all its pipeline calls, in order. */
  lemma CollectLinksAreSuccesses(c: Comment, done: seq<string>, findUrls: string -> seq<string>,
                                 handleImageUrl: string -> Option<string>)
    ensures var s := Collect(c, done, findUrls, handleImageUrl);
            s.links == Successes(s.tried, handleImageUrl)
  {
    var fromBody := ScanUrls(findUrls(c.body), done, handleImageUrl);
    ScanLinksAreSuccesses(findUrls(c.body), done, handleImageUrl);
    if fromBody.links == [] && c.submissionUrl != "" {
      var tried := fromBody.tried + [c.submissionUrl];
      assert tried[..|fromBody.tried|] == fromBody.tried;
    }
  }

  /** After a step, `urls_done` is the old list followed by the links produced,
      which are the truthy pipeline results in call order; a reply is posted
      exactly when there is at least one, and it lists them all. */
  lemma StepAppendsLinksAndReplies(ledger: Ledger, c: Comment, findUrls: string -> seq<string>,
                                   handleImageUrl: string -> Option<string>)
    ensures var o := Step(ledger, c, findUrls, handleImageUrl);
            var links := o.ledger.urlsDone[|ledger.urlsDone|..];
            o.ledger.urlsDone == ledger.urlsDone + links &&
            links == Successes(o.tried, handleImageUrl) &&
            o.reply == (if links == [] then None else Some(ReplyText(links)))
  {
    var o := Step(ledger, c, findUrls, handleImageUrl);
    if c.id !in ledger.commentsDone && ConditionMet(c.body) {
      var s := Collect(c, ledger.urlsDone, findUrls, handleImageUrl);
      CollectLinksAreSuccesses(c, ledger.urlsDone, findUrls, handleImageUrl);
      assert o.ledger.urlsDone == ledger.urlsDone + s.links;
      assert o.ledger.urlsDone[|ledger.urlsDone|..] == s.links;
    } else {
      assert o.ledger.urlsDone[|ledger.urlsDone|..] == [];
    }
  }

  /** Read back line by line, a posted reply is the preamble and then one line
      per new entry of `urls_done`, in order (for links without line breaks). */
  lemma ReplyListsNewLinks(ledger: Ledger, c: Comment, findUrls: string -> seq<string>,
                           handleImageUrl: string -> Option<string>)
    requires var o := Step(ledger, c, findUrls, handleImageUrl);
             forall i :: |ledger.urlsDone| <= i < |o.ledger.urlsDone| ==> '\n' !in o.ledger.urlsDone[i]
    ensures var o := Step(ledger, c, findUrls, handleImageUrl);
            o.reply.Some? ==>
              Split(o.reply.value, '\n') == [Preamble] + o.ledger.urlsDone[|ledger.urlsDone|..]
  {
    var o := Step(ledger, c, findUrls, handleImageUrl);
    var links := o.ledger.urlsDone[|ledger.urlsDone|..];
    StepAppendsLinksAndReplies(ledger, c, findUrls, handleImageUrl);
    forall i | 0 <= i < |links|
      ensures '\n' !in links[i]
    {
      assert links[i] == o.ledger.urlsDone[|ledger.urlsDone| + i];
    }
    ReplyLines(links);
  }

  /** `urls_done` holds hosted links, but the skip test looks up the source
      URL: a source URL whose link differs from it is handed to the pipeline
      again when a later comment names it. */
  lemma SourceUrlIsRetried(ledger: Ledger, first: Comment, second: Comment,
                           findUrls: string -> seq<string>,
                           handleImageUrl: string -> Option<string>, url: string)
    requires first.id !in ledger.commentsDone && ConditionMet(first.body)
    requires second.id !in ledger.commentsDone && second.id != first.id && ConditionMet(second.body)
    requires findUrls(first.body) == [url] && findUrls(second.body) == [url]
    requires url !in ledger.urlsDone
    requires Truthy(handleImageUrl(url)) && handleImageUrl(url).value != url
    ensures var after := Step(ledger, first, findUrls, handleImageUrl).ledger;
            Step(after, second, findUrls, handleImageUrl).tried[0] == url
  {
    var after := Step(ledger, first, findUrls, handleImageUrl).ledger;
    var link := handleImageUrl(url).value;
    assert [url][..0] == [];
    assert ScanUrls([url], ledger.urlsDone, handleImageUrl).links == [link];
    assert after.urlsDone == ledger.urlsDone + [link];
    assert ScanUrls([url], after.urlsDone, handleImageUrl).tried == [url];
  }

  /** Unlike `comments_done`, `urls_done` can hold a link twice: nothing checks
      a new link against the list, so a host that answers two URLs with the
      same link makes it appear twice. */
  lemma UrlsDoneMayRepeat(ledger: Ledger, c: Comment, findUrls: string -> seq<string>,
                          handleImageUrl: string -> Option<string>, a: string, b: string, link: string)
    requires c.id !in ledger.commentsDone && ConditionMet(c.body)
    requires findUrls(c.body) == [a, b] && a !in ledger.urlsDone && b !in ledger.urlsDone
    requires handleImageUrl(a) == Some(link) && handleImageUrl(b) == Some(link)
    requires link != "" && link != b
    ensures Step(ledger, c, findUrls, handleImageUrl).ledger.urlsDone == ledger.urlsDone + [link, link]
  {
    var done := ledger.urlsDone;
    assert ScanUrls([a], done, handleImageUrl) == Scan([link], [a]) by {
      assert [a][..0] == [];
    }
    assert ScanUrls([a, b], done, handleImageUrl) == Scan([link, link], [a, b]) by {
      assert [a, b][..1] == [a];
      assert b !in done + [link];
    }
    assert Collect(c, done, findUrls, handleImageUrl).links == [link, link];
  }

  /** A comment "decolorizebot <url>" whose image goes through gets the reply
      "Who needs color?\n<link>"; if neither the image nor the submission URL
      gives a link, nothing is posted but the comment is still marked done. */
  lemma EndToEnd(ledger: Ledger, c: Comment, findUrls: string -> seq<string>,
                 handleImageUrl: string -> Option<string>, url: string)
    requires c.body == "decolorizebot " + url && c.id !in ledger.commentsDone
    requires findUrls(c.body) == [url] && url !in ledger.urlsDone
    ensures var o := Step(ledger, c, findUrls, handleImageUrl);
            o.ledger.commentsDone == ledger.commentsDone + [c.id] &&
            (Truthy(handleImageUrl(url)) ==>
               o.reply == Some(Preamble + "\n" + handleImageUrl(url).value) &&
               o.ledger.urlsDone == ledger.urlsDone + [handleImageUrl(url).value]) &&
            (!Truthy(handleImageUrl(url)) && (c.submissionUrl == "" || !Truthy(handleImageUrl(c.submissionUrl))) ==>
               o.reply == None && o.ledger.urlsDone == ledger.urlsDone)
  {
    assert forall i :: 0 <= i < |Trigger| ==> c.body[i] == Trigger[i];
    assert ConditionMet(c.body);
    assert [url][..0] == [];
    if Truthy(handleImageUrl(url)) {
      var link := handleImageUrl(url).value;
      assert ScanUrls([url], ledger.urlsDone, handleImageUrl) == Scan([link], [url]);
      assert [link][..0] == [];
      assert ReplyText([link]) == Preamble + "\n" + link;
    }
  }
}
