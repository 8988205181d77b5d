/** `TweetThreadHandler` from main.py: cutting a quote into tweet-sized chunks
    and posting the chunks as a reply chain through a Twitter client. */
module Threads {
  import opened Wrappers
  import opened JsonValues
  import opened Words

  /** The platform's per-tweet character limit, `self.TWEET_LIMIT`. */
  const TweetLimit: nat := 280

  /** The title appended after a quote that has a page number. */
  const CitationPrefix := "  - The Letters of a Stoic, page:"

  /** `str(IndexError)` for `chunks[0]` on an empty list. */
  const IndexOutOfRange := "list index out of range"

  // ---------------------------------------------------------------------
  // Splitting text into chunks

  /** The greedy packing loop, resumed with `words` still to place, the chunks
      closed so far, the words of the open chunk and its running length. */
  function PackFrom(words: seq<string>, chunks: seq<string>, current: seq<string>, length: int, limit: nat): seq<string>
    decreases |words|
  {
    if words == [] then
      if current != [] then chunks + [Join(current)] else chunks
    else if length + |words[0]| + 1 <= limit then
      PackFrom(words[1..], chunks, current + [words[0]], length + |words[0]| + 1, limit)
    else
      PackFrom(words[1..], chunks + [Join(current)], [words[0]], |words[0]| + 1, limit)
  }

  /** The chunks `_split_into_tweets` returns for `text`. */
  function Segments(text: string, limit: nat): seq<string>
  {
    if |text| <= limit then [text] else PackFrom(Split(text), [], [], 0, limit)
  }

  /** A closed chunk respects the limit: it is shorter than the limit, which
      leaves room for the separator the running length counts, or it is one
      word that is too long to share a tweet. */
  predicate Fits(chunk: string, limit: nat)
  {
    |chunk| < limit || IsWord(chunk)
  }

  /** What the loop keeps true of `current_length`: one more than the length of
      the joined open chunk, or zero while the open chunk is empty; and only a
      lone word may take it past the limit. */
  predicate Tracks(current: seq<string>, length: int, limit: nat)
  {
    length == (if current == [] then 0 else |Join(current)| + 1)
    && (|current| <= 1 || length <= limit)
  }

  predicate AllFit(chunks: seq<string>, limit: nat)
  {
    forall k :: 0 <= k < |chunks| ==> Fits(chunks[k], limit)
  }

  lemma TracksFits(current: seq<string>, length: int, limit: nat)
    requires AllWords(current) && Tracks(current, length, limit) && limit > 0
    ensures Fits(Join(current), limit)
  {
    if |current| == 1 {
      assert IsWord(current[0]);
    }
  }

  /** Packing neither loses, duplicates nor reorders a word. */
  lemma {:induction false} PackFromKeepsWords(words: seq<string>, chunks: seq<string>, current: seq<string>, length: int, limit: nat)
    requires AllWords(words) && AllWords(current)
    ensures WordsOf(PackFrom(words, chunks, current, length, limit)) == WordsOf(chunks) + current + words
    decreases |words|
  {
    if words == [] {
      if current != [] {
        WordsOfAppend(chunks, Join(current));
        SplitJoin(current);
      }
    } else {
      var w := words[0];
      assert words == [w] + words[1..];
      WordsTail(words);
      WordsAppend(current, w);
      if length + |w| + 1 <= limit {
        PackFromKeepsWords(words[1..], chunks, current + [w], length + |w| + 1, limit);
      } else {
        assert AllWords([w]);
        PackFromKeepsWords(words[1..], chunks + [Join(current)], [w], |w| + 1, limit);
        WordsOfAppend(chunks, Join(current));
        SplitJoin(current);
      }
    }
  }

  /** Every chunk packing closes respects the limit. */
  lemma {:induction false} PackFromFits(words: seq<string>, chunks: seq<string>, current: seq<string>, length: int, limit: nat)
    requires limit > 0
    requires AllWords(words) && AllWords(current) && Tracks(current, length, limit)
    requires forall k :: 0 <= k < |chunks| ==> Fits(chunks[k], limit)
    ensures AllFit(PackFrom(words, chunks, current, length, limit), limit)
    decreases |words|
  {
    TracksFits(current, length, limit);
    if words != [] {
      var w := words[0];
      assert IsWord(w);
      WordsTail(words);
      if length + |w| + 1 <= limit {
        WordsAppend(current, w);
        if current != [] {
          JoinAppend(current, w);
        } else {
          assert current + [w] == [w];
        }
        assert Tracks(current + [w], length + |w| + 1, limit);
        assert PackFrom(words, chunks, current, length, limit)
          == PackFrom(words[1..], chunks, current + [w], length + |w| + 1, limit);
        PackFromFits(words[1..], chunks, current + [w], length + |w| + 1, limit);
      } else {
        assert Join([w]) == w;
        assert Tracks([w], |w| + 1, limit);
        var chunks' := chunks + [Join(current)];
        assert forall k :: 0 <= k < |chunks'| ==> Fits(chunks'[k], limit);
        PackFromFits(words[1..], chunks', [w], |w| + 1, limit);
      }
    }
  }

  /** Once the open chunk holds a word, every chunk packing still closes is
      non-empty, and at least one more is closed. */
  lemma {:induction false} PackFromNonEmpty(words: seq<string>, chunks: seq<string>, current: seq<string>, length: int, limit: nat)
    requires AllWords(words) && AllWords(current) && current != []
    ensures var r := PackFrom(words, chunks, current, length, limit);
      |r| > |chunks| && r[..|chunks|] == chunks && forall k :: |chunks| <= k < |r| ==> r[k] != ""
    decreases |words|
  {
    JoinNonEmpty(current);
    if words != [] {
      var w := words[0];
      assert IsWord(w);
      WordsTail(words);
      if length + |w| + 1 <= limit {
        WordsAppend(current, w);
        PackFromNonEmpty(words[1..], chunks, current + [w], length + |w| + 1, limit);
      } else {
        assert AllWords([w]);
        var chunks' := chunks + [Join(current)];
        PackFromNonEmpty(words[1..], chunks', [w], |w| + 1, limit);
        var r := PackFrom(words[1..], chunks', [w], |w| + 1, limit);
        assert r[..|chunks'|] == chunks';
        assert r[..|chunks|] == chunks' [..|chunks|];
      }
    }
  }

  /** Text within the limit is posted as it is, whitespace included. */
  lemma ShortTextIsOneChunk(text: string, limit: nat)
    requires |text| <= limit
    ensures Segments(text, limit) == [text]
  {
  }

  /** The words of the chunks, in order, are exactly `text.split()`: no word
      is lost, repeated or moved. */
  lemma SegmentsKeepWords(text: string, limit: nat)
    ensures WordsOf(Segments(text, limit)) == Split(text)
  {
    if |text| <= limit {
      assert WordsOf([text]) == WordsOf([]) + Split(text);
    } else {
      PackFromKeepsWords(Split(text), [], [], 0, limit);
    }
  }

  /** For longer text, each chunk is shorter than the limit or a single word. */
  lemma SegmentsFit(text: string, limit: nat)
    requires |text| > limit && limit > 0
    ensures var r := Segments(text, limit);
      forall k :: 0 <= k < |r| ==> |r[k]| < limit || IsWord(r[k])
  {
    assert Tracks([], 0, limit);
    assert Segments(text, limit) == PackFrom(Split(text), [], [], 0, limit);
    PackFromFits(Split(text), [], [], 0, limit);
  }

  /** An empty chunk appears only first, and exactly when the first word is at
      least as long as the limit. */
  lemma SegmentsEmptyChunk(text: string, limit: nat, k: nat)
    requires |text| > limit && k < |Segments(text, limit)|
    ensures Segments(text, limit)[k] == "" <==> k == 0 && |Split(text)[0]| >= limit
  {
    var ws := Split(text);
    var w := ws[0];
    assert IsWord(w);
    assert AllWords([w]);
    WordsTail(ws);
    if |w| + 1 <= limit {
      assert [] + [w] == [w];
      assert Segments(text, limit) == PackFrom(ws[1..], [], [w], |w| + 1, limit);
      PackFromNonEmpty(ws[1..], [], [w], |w| + 1, limit);
    } else {
      assert [] + [Join([])] == [""];
      assert Segments(text, limit) == PackFrom(ws[1..], [""], [w], |w| + 1, limit);
      PackFromNonEmpty(ws[1..], [""], [w], |w| + 1, limit);
    }
  }

  /** The chunk list is empty exactly for long text of whitespace only. */
  lemma SegmentsEmptyIff(text: string, limit: nat)
    ensures Segments(text, limit) == [] <==> |text| > limit && AllSpace(text)
  {
    SplitEmptyIff(text);
    if |text| > limit && Split(text) != [] {
      var ws := Split(text);
      var w := ws[0];
      assert AllWords([w]);
      WordsTail(ws);
      if |w| + 1 <= limit {
        assert [] + [w] == [w];
        assert Segments(text, limit) == PackFrom(ws[1..], [], [w], |w| + 1, limit);
        PackFromNonEmpty(ws[1..], [], [w], |w| + 1, limit);
      } else {
        assert [] + [Join([])] == [""];
        assert Segments(text, limit) == PackFrom(ws[1..], [""], [w], |w| + 1, limit);
        PackFromNonEmpty(ws[1..], [""], [w], |w| + 1, limit);
      }
    }
  }

  // ---------------------------------------------------------------------
  // The Twitter client

  /** A tweet id as `response.data['id']` gives it. */
  type TweetId = string

  /** One `create_tweet` call: the text and `in_reply_to_tweet_id`, absent for
      the first tweet of a thread. */
  datatype Call = Call(text: string, replyTo: Option<TweetId>)

  /** What `create_tweet` does: return a response carrying the new tweet's id,
      or raise a `TweepyException`. */
  datatype Response = Created(id: TweetId) | Rejected(error: string)

  /** A stand-in for the tweepy client: the platform's answer to the k-th call
      is `respond(k, call)`, and every call is logged in `sent`. */
  class Client {
    const respond: (nat, Call) -> Response
    var sent: seq<Call>

    constructor (respond: (nat, Call) -> Response)
      ensures this.respond == respond && sent == []
    {
      this.respond := respond;
      sent := [];
    }

    method CreateTweet(text: string, replyTo: Option<TweetId>) returns (r: Response)
      modifies this
      ensures sent == old(sent) + [Call(text, replyTo)]
      ensures r == respond(|old(sent)|, Call(text, replyTo))
    {
      r := respond(|sent|, Call(text, replyTo));
      sent := sent + [Call(text, replyTo)];
    }
  }

  // ---------------------------------------------------------------------
  // Posting a thread

  /** `post_quote_thread`'s outcome: the list of responses (by tweet id), `None`
      after a `TweepyException`, or another exception that escapes it. */
  datatype ThreadResult = Posted(tweets: seq<TweetId>) | Failed | Raised(error: string)

  /** A result together with the calls made to reach it. */
  datatype Attempt = Attempt(result: ThreadResult, calls: seq<Call>)

  /** The text posted for a quote: the citation is appended unless `page == 0`. */
  function FullText(quote: string, page: Json): (t: string)
    ensures page == JInt(0) ==> t == quote
    ensures page != JInt(0) ==> t == quote + CitationPrefix + PyStr(page)
  {
    if page != JInt(0) then quote + CitationPrefix + PyStr(page) else quote
  }

  /** The words a quote's thread carries: the quote's own, then, unless the
      page is 0, those of the citation. */
  lemma ThreadWords(quote: string, page: Json, limit: nat)
    ensures WordsOf(Segments(FullText(quote, page), limit))
      == Split(quote) + (if page == JInt(0) then [] else Split(CitationPrefix + PyStr(page)))
  {
    if page != JInt(0) {
      var suffix := CitationPrefix + PyStr(page);
      assert suffix[0] == ' ';
      assert FullText(quote, page) == quote + suffix;
      SuffixWords(quote, suffix, limit);
    } else {
      SegmentsKeepWords(quote, limit);
      assert Split(quote) + [] == Split(quote);
    }
  }

  lemma SuffixWords(text: string, suffix: string, limit: nat)
    requires |suffix| > 0 && suffix[0] == ' '
    ensures WordsOf(Segments(text + suffix, limit)) == Split(text) + Split(suffix)
  {
    SegmentsKeepWords(text + suffix, limit);
    SplitBeforeSpace(text, suffix);
  }

  /** Posting `chunks` as a chain, the first one replying to `replyTo`,
      starting with the platform's call number `n`. */
  function Chain(respond: (nat, Call) -> Response, n: nat, chunks: seq<string>, replyTo: Option<TweetId>): Attempt
    decreases |chunks|
  {
    if chunks == [] then Attempt(Posted([]), [])
    else
      var call := Call(chunks[0], replyTo);
      match respond(n, call)
      case Rejected(_) => Attempt(Failed, [call])
      case Created(id) => Prefix([id], [call], Chain(respond, n + 1, chunks[1..], Some(id)))
  }

  /** Earlier tweets and calls in front of an attempt at the rest of a thread. */
  function Prefix(tweets: seq<TweetId>, calls: seq<Call>, rest: Attempt): Attempt
  {
    Attempt(if rest.result.Posted? then Posted(tweets + rest.result.tweets) else rest.result, calls + rest.calls)
  }

  lemma PrefixPrefix(t1: seq<TweetId>, c1: seq<Call>, t2: seq<TweetId>, c2: seq<Call>, a: Attempt)
    ensures Prefix(t1, c1, Prefix(t2, c2, a)) == Prefix(t1 + t2, c1 + c2, a)
  {
    if a.result.Posted? {
      assert t1 + (t2 + a.result.tweets) == (t1 + t2) + a.result.tweets;
    }
    assert c1 + (c2 + a.calls) == (c1 + c2) + a.calls;
  }

  /** `post_quote_thread(quote, page)`. */
  function QuoteThread(respond: (nat, Call) -> Response, n: nat, quote: string, page: Json, limit: nat): Attempt
  {
    var chunks := Segments(FullText(quote, page), limit);
    if chunks == [] then Attempt(Raised(IndexOutOfRange), []) else Chain(respond, n, chunks, None)
  }

  /** The calls are the chunks in order, the first replying to `first` and
      each later one to the id the platform gave the call before it. */
  ghost predicate IsReplyChain(respond: (nat, Call) -> Response, n: nat, chunks: seq<string>, first: Option<TweetId>, calls: seq<Call>)
  {
    && |calls| <= |chunks|
    && (forall i :: 0 <= i < |calls| ==> calls[i].text == chunks[i])
    && (|calls| > 0 ==> calls[0].replyTo == first)
    && (forall i :: 0 <= i < |calls| - 1 ==>
          respond(n + i, calls[i]).Created? && calls[i + 1].replyTo == Some(respond(n + i, calls[i]).id))
  }

  /** One accepted call: the rest of the thread replies to the new tweet. */
  lemma ChainAccepted(respond: (nat, Call) -> Response, n: nat, chunks: seq<string>, first: Option<TweetId>)
    requires chunks != [] && respond(n, Call(chunks[0], first)).Created?
    ensures var id := respond(n, Call(chunks[0], first)).id;
      Chain(respond, n, chunks, first) == Prefix([id], [Call(chunks[0], first)], Chain(respond, n + 1, chunks[1..], Some(id)))
  {
  }

  /** One rejected call ends the thread. */
  lemma ChainRejected(respond: (nat, Call) -> Response, n: nat, chunks: seq<string>, first: Option<TweetId>)
    requires chunks != [] && respond(n, Call(chunks[0], first)).Rejected?
    ensures Chain(respond, n, chunks, first) == Attempt(Failed, [Call(chunks[0], first)])
  {
  }

  /** Posting a chain makes one call per chunk, in order, the first replying
      to `first` and each later one to the tweet before it; it never raises. */
  lemma {:induction false} ChainCalls(respond: (nat, Call) -> Response, n: nat, chunks: seq<string>, first: Option<TweetId>)
    ensures IsReplyChain(respond, n, chunks, first, Chain(respond, n, chunks, first).calls)
    ensures !Chain(respond, n, chunks, first).result.Raised?
    decreases |chunks|
  {
    if chunks != [] && respond(n, Call(chunks[0], first)).Created? {
      var call := Call(chunks[0], first);
      var id := respond(n, call).id;
      var rest := Chain(respond, n + 1, chunks[1..], Some(id));
      ChainCalls(respond, n + 1, chunks[1..], Some(id));
      ChainAccepted(respond, n, chunks, first);
      ReplyChainCons(respond, n, chunks, first, id, rest.calls);
    }
  }

  /** An accepted first call in front of a reply chain for the rest of the
      chunks, which answers that call's tweet, is a reply chain. */
  lemma ReplyChainCons(respond: (nat, Call) -> Response, n: nat, chunks: seq<string>, first: Option<TweetId>,
                       id: TweetId, rest: seq<Call>)
    requires chunks != [] && respond(n, Call(chunks[0], first)) == Created(id)
    requires IsReplyChain(respond, n + 1, chunks[1..], Some(id), rest)
    ensures IsReplyChain(respond, n, chunks, first, [Call(chunks[0], first)] + rest)
  {
    var calls := [Call(chunks[0], first)] + rest;
    forall i | 0 <= i < |calls| ensures calls[i].text == chunks[i] {
      if i > 0 { assert calls[i] == rest[i - 1]; }
    }
    forall i | 0 <= i < |calls| - 1
      ensures respond(n + i, calls[i]).Created? && calls[i + 1].replyTo == Some(respond(n + i, calls[i]).id)
    {
      if i > 0 {
        assert calls[i] == rest[i - 1] && calls[i + 1] == rest[i];
        assert n + i == (n + 1) + (i - 1);
      }
    }
  }

  /** Every one of `calls`, made from call number `n` on, was accepted. */
  ghost predicate AllAccepted(respond: (nat, Call) -> Response, n: nat, calls: seq<Call>)
  {
    forall i :: 0 <= i < |calls| ==> respond(n + i, calls[i]).Created?
  }

  lemma AllAcceptedCons(respond: (nat, Call) -> Response, n: nat, c: Call, calls: seq<Call>)
    ensures AllAccepted(respond, n, [c] + calls) <==> respond(n, c).Created? && AllAccepted(respond, n + 1, calls)
  {
    var all := [c] + calls;
    if respond(n, c).Created? && AllAccepted(respond, n + 1, calls) {
      forall i | 0 <= i < |all| ensures respond(n + i, all[i]).Created? {
        if i > 0 {
          assert all[i] == calls[i - 1];
          assert n + i == (n + 1) + (i - 1);
        }
      }
    }
    if AllAccepted(respond, n, all) {
      assert respond(n + 0, all[0]).Created?;
      forall i | 0 <= i < |calls| ensures respond(n + 1 + i, calls[i]).Created? {
        assert calls[i] == all[i + 1];
      }
    }
  }

  /** A chain is posted exactly when every chunk was accepted; otherwise the
      last call made was the first one rejected, and no call follows it. */
  lemma {:induction false} ChainOutcome(respond: (nat, Call) -> Response, n: nat, chunks: seq<string>, first: Option<TweetId>)
    ensures var a := Chain(respond, n, chunks, first);
      a.result.Posted? <==> |a.calls| == |chunks| && AllAccepted(respond, n, a.calls)
    ensures var a := Chain(respond, n, chunks, first);
      a.result.Failed? ==> |a.calls| > 0 && respond(n + |a.calls| - 1, a.calls[|a.calls| - 1]).Rejected?
    decreases |chunks|
  {
    if chunks != [] {
      var call := Call(chunks[0], first);
      if respond(n, call).Created? {
        var id := respond(n, call).id;
        var rest := Chain(respond, n + 1, chunks[1..], Some(id));
        ChainOutcome(respond, n + 1, chunks[1..], Some(id));
        ChainAccepted(respond, n, chunks, first);
        OutcomeCons(respond, n, call, id, rest, |chunks| - 1);
      } else {
        ChainRejected(respond, n, chunks, first);
        AllAcceptedCons(respond, n, call, []);
      }
    }
  }

  /** The step of `ChainOutcome`: an accepted call in front of the attempt
      at the rest of the thread. */
  lemma OutcomeCons(respond: (nat, Call) -> Response, n: nat, call: Call, id: TweetId, rest: Attempt, k: nat)
    requires respond(n, call) == Created(id)
    requires rest.result.Posted? <==> |rest.calls| == k && AllAccepted(respond, n + 1, rest.calls)
    requires rest.result.Failed? ==>
      |rest.calls| > 0 && respond(n + 1 + |rest.calls| - 1, rest.calls[|rest.calls| - 1]).Rejected?
    ensures var a := Prefix([id], [call], rest);
      && (a.result.Posted? <==> |a.calls| == k + 1 && AllAccepted(respond, n, a.calls))
      && (a.result.Failed? ==> |a.calls| > 0 && respond(n + |a.calls| - 1, a.calls[|a.calls| - 1]).Rejected?)
  {
    AllAcceptedCons(respond, n, call, rest.calls);
    if rest.result.Failed? {
      var calls := [call] + rest.calls;
      assert calls[|calls| - 1] == rest.calls[|rest.calls| - 1];
    }
  }

  /** A posted chain returns one id per chunk, each the one the platform gave
      the call for that chunk. */
  lemma {:induction false} ChainTweets(respond: (nat, Call) -> Response, n: nat, chunks: seq<string>, first: Option<TweetId>)
    ensures var a := Chain(respond, n, chunks, first);
      a.result.Posted? ==>
        && |a.result.tweets| == |chunks| == |a.calls|
        && forall i :: 0 <= i < |chunks| ==> respond(n + i, a.calls[i]) == Created(a.result.tweets[i])
    decreases |chunks|
  {
    if chunks != [] && respond(n, Call(chunks[0], first)).Created? {
      var call := Call(chunks[0], first);
      var id := respond(n, call).id;
      var rest := Chain(respond, n + 1, chunks[1..], Some(id));
      ChainTweets(respond, n + 1, chunks[1..], Some(id));
      ChainAccepted(respond, n, chunks, first);
      if rest.result.Posted? {
        var calls := [call] + rest.calls;
        var tweets := [id] + rest.result.tweets;
        forall i | 0 <= i < |chunks| ensures respond(n + i, calls[i]) == Created(tweets[i]) {
          if i > 0 {
            assert calls[i] == rest.calls[i - 1];
            assert tweets[i] == rest.result.tweets[i - 1];
            assert n + i == (n + 1) + (i - 1);
          }
        }
      }
    }
  }

  /** A chain of at least one chunk, started as a new tweet: a reply chain
      that posts exactly when every chunk is accepted. */
  lemma ChainSpec(respond: (nat, Call) -> Response, n: nat, chunks: seq<string>)
    requires chunks != []
    ensures var a := Chain(respond, n, chunks, None);
      && !a.result.Raised?
      && IsReplyChain(respond, n, chunks, None, a.calls)
      && (a.result.Posted? <==> |a.calls| == |chunks| && AllAccepted(respond, n, a.calls))
      && (a.result.Posted? ==> |a.result.tweets| == |chunks| > 0 && forall i :: 0 <= i < |chunks| ==> respond(n + i, a.calls[i]) == Created(a.result.tweets[i]))
      && (a.result.Failed? ==> |a.calls| > 0 && respond(n + |a.calls| - 1, a.calls[|a.calls| - 1]).Rejected?)
  {
    ChainCalls(respond, n, chunks, None);
    ChainOutcome(respond, n, chunks, None);
    ChainTweets(respond, n, chunks, None);
  }

  /** `post_quote_thread` on a quote: the thread it posts, or `IndexError` when
      the text splits into no chunk at all. */
  lemma QuoteThreadSpec(respond: (nat, Call) -> Response, n: nat, quote: string, page: Json, limit: nat)
    ensures var chunks := Segments(FullText(quote, page), limit);
      var a := QuoteThread(respond, n, quote, page, limit);
      && (a.result.Raised? <==> chunks == [])
      && (a.result.Raised? ==> a.result.error == IndexOutOfRange && a.calls == [])
      && IsReplyChain(respond, n, chunks, None, a.calls)
      && (a.result.Posted? <==> chunks != [] && |a.calls| == |chunks| && AllAccepted(respond, n, a.calls))
      && (a.result.Posted? ==> |a.result.tweets| == |chunks| > 0 && forall i :: 0 <= i < |chunks| ==> respond(n + i, a.calls[i]) == Created(a.result.tweets[i]))
      && (a.result.Failed? ==> |a.calls| > 0 && respond(n + |a.calls| - 1, a.calls[|a.calls| - 1]).Rejected?)
  {
    var chunks := Segments(FullText(quote, page), limit);
    if chunks != [] {
      ChainSpec(respond, n, chunks);
    }
  }

  /** Posting the next chunk of a thread: an accepted call moves its id and
      call into the prefix, a rejected one ends the thread as failed. */
  lemma ChainNextCreated(respond: (nat, Call) -> Response, n: nat, chunks: seq<string>, whole: Attempt,
                         tweets: seq<TweetId>, done: seq<Call>, i: nat, previous: TweetId, id: TweetId)
    requires i < |chunks| && whole == Prefix(tweets, done, Chain(respond, n + i, chunks[i..], Some(previous)))
    requires respond(n + i, Call(chunks[i], Some(previous))) == Created(id)
    ensures whole == Prefix(tweets + [id], done + [Call(chunks[i], Some(previous))], Chain(respond, n + i + 1, chunks[i + 1..], Some(id)))
  {
    var call := Call(chunks[i], Some(previous));
    assert chunks[i..][1..] == chunks[i + 1..];
    ChainAccepted(respond, n + i, chunks[i..], Some(previous));
    PrefixPrefix(tweets, done, [id], [call], Chain(respond, n + i + 1, chunks[i + 1..], Some(id)));
  }

  /** A rejected call ends the thread as failed, with that call the last. */
  lemma ChainNextRejected(respond: (nat, Call) -> Response, n: nat, chunks: seq<string>, whole: Attempt,
                          tweets: seq<TweetId>, done: seq<Call>, i: nat, previous: TweetId)
    requires i < |chunks| && whole == Prefix(tweets, done, Chain(respond, n + i, chunks[i..], Some(previous)))
    requires respond(n + i, Call(chunks[i], Some(previous))).Rejected?
    ensures whole == Attempt(Failed, done + [Call(chunks[i], Some(previous))])
  {
    ChainRejected(respond, n + i, chunks[i..], Some(previous));
  }

  lemma AppendSeq<T>(a: seq<T>, b: seq<T>, c: T)
    ensures |b + [c]| == |b| + 1 && (a + b) + [c] == a + (b + [c])
  {
  }

  class TweetThreadHandler {
    const client: Client
    const tweetLimit: nat

    constructor (client: Client)
      ensures this.client == client && tweetLimit == TweetLimit
    {
      this.client := client;
      tweetLimit := TweetLimit;
    }

    /** `_split_into_tweets`. */
    method SplitIntoTweets(text: string) returns (chunks: seq<string>)
      ensures chunks == Segments(text, tweetLimit)
      ensures |text| <= tweetLimit ==> chunks == [text]
    {
      if |text| <= tweetLimit {
        return [text];
      }
      chunks := [];
      var words := Split(text);
      var current: seq<string> := [];
      var length := 0;
      for i := 0 to |words|
        invariant PackFrom(words[i..], chunks, current, length, tweetLimit) == Segments(text, tweetLimit)
      {
        var word := words[i];
        assert words[i..][1..] == words[i + 1..];
        if length + |word| + 1 <= tweetLimit {
          current := current + [word];
          length := length + |word| + 1;
        } else {
          chunks := chunks + [Join(current)];
          current := [word];
          length := |word| + 1;
        }
      }
      if current != [] {
        chunks := chunks + [Join(current)];
      }
    }

    /** `post_quote_thread`: the result and the calls made are those of
        `QuoteThread` from the client's current call count. */
    method PostQuoteThread(quote: string, page: Json) returns (r: ThreadResult)
      modifies client
      ensures var a := QuoteThread(client.respond, |old(client.sent)|, quote, page, tweetLimit);
        r == a.result && client.sent == old(client.sent) + a.calls
    {
      var fullText := FullText(quote, page);
      var chunks := SplitIntoTweets(fullText);
      if chunks == [] {
        return Raised(IndexOutOfRange);
      }
      r := PostChain(chunks);
    }

    /** The posting part of `post_quote_thread`: the first chunk as a new
        tweet, each later one as a reply to the tweet before it, stopping at
        the first rejection. */
    method PostChain(chunks: seq<string>) returns (r: ThreadResult)
      requires chunks != []
      modifies client
      ensures var a := Chain(client.respond, |old(client.sent)|, chunks, None);
        r == a.result && client.sent == old(client.sent) + a.calls
    {
      ghost var n0 := |client.sent|;
      var response := client.CreateTweet(chunks[0], None);
      if response.Rejected? {
        ChainRejected(client.respond, n0, chunks, None);
        return Failed;
      }
      ChainAccepted(client.respond, n0, chunks, None);
      var tweets := [response.id];
      var previous := response.id;
      ghost var done := [Call(chunks[0], None)];
      ghost var whole := Chain(client.respond, n0, chunks, None);
      for i := 1 to |chunks|
        invariant |done| == i && client.sent == old(client.sent) + done && |client.sent| == n0 + i
        invariant whole == Prefix(tweets, done, Chain(client.respond, n0 + i, chunks[i..], Some(previous)))
      {
        ghost var call := Call(chunks[i], Some(previous));
        response := client.CreateTweet(chunks[i], Some(previous));
        AppendSeq(old(client.sent), done, call);
        assert response == client.respond(n0 + i, call);
        if response.Rejected? {
          ChainNextRejected(client.respond, n0, chunks, whole, tweets, done, i, previous);
          return Failed;
        }
        ChainNextCreated(client.respond, n0, chunks, whole, tweets, done, i, previous, response.id);
        tweets := tweets + [response.id];
        previous := response.id;
        done := done + [call];
      }
      assert chunks[|chunks|..] == [];
      return Posted(tweets);
    }
  }
}
