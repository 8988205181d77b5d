/** `read_quote` from main.py: pick the first quote not yet tweeted, post it as
    a thread, and record it in the tweeted file once the thread is up. */
module Dispatch {
  import opened Wrappers
  import opened JsonValues
  import opened TextCleaner
  import opened Threads

  /** The message `read_quote` returns when its loop finds nothing to post. */
  const AllTweeted := "All quotes have been tweeted"

  /** `{"success": True, "quote": quote}` or `{"success": False, "error": msg}`. */
  datatype DispatchResult = Done(quote: Record) | Error(error: string)

  /** An outcome of `read_quote`: its result, the calls it made to the client,
      and the list it wrote to the tweeted file, if it wrote one. */
  datatype Run = Run(result: DispatchResult, calls: seq<Call>, written: Option<seq<Record>>)

  /** How one untweeted quote is tried, given the client's next call number. */
  type PostFn = (nat, Record) -> Attempt

  /** `str(TypeError)` of `len(v)` on a value that is not a string. */
  function LenTypeError(v: Json): string
  {
    "object of type '" + TypeName(v) + "' has no len()"
  }

  /** The body of the `try` for one untweeted quote: `quote["Quote"]`,
      `quote["Page"]`, then `post_quote_thread`. With a page of 0 the text is
      the `Quote` value itself, whose `len` fails unless it is a string; any
      other page goes through an f-string, which formats the value. */
  function TryQuote(respond: (nat, Call) -> Response, n: nat, quote: Record): Attempt
  {
    if "Quote" !in quote then Attempt(Raised(KeyErrorMessage("Quote")), [])
    else if "Page" !in quote then Attempt(Raised(KeyErrorMessage("Page")), [])
    else if quote["Page"] == JInt(0) && !quote["Quote"].JStr? then Attempt(Raised(LenTypeError(quote["Quote"])), [])
    else QuoteThread(respond, n, PyStr(quote["Quote"]), quote["Page"], TweetLimit)
  }

  /** Trying quotes against the platform that answers with `respond`. */
  function PostWith(respond: (nat, Call) -> Response): PostFn
  {
    (m: nat, quote: Record) => TryQuote(respond, m, quote)
  }

  /** The loop of `read_quote` over `quotes`, with client call number `n`. */
  function DispatchLoop(post: PostFn, n: nat, quotes: seq<Record>, tweeted: seq<Record>): Run
    decreases |quotes|
  {
    if quotes == [] then Run(Error(AllTweeted), [], None)
    else if quotes[0] in tweeted then DispatchLoop(post, n, quotes[1..], tweeted)
    else
      var a := post(n, quotes[0]);
      match a.result
      case Posted(_) => Run(Done(quotes[0]), a.calls, Some(tweeted + [quotes[0]]))
      case Raised(e) => Run(Error(e), a.calls, None)
      case Failed =>
        var rest := DispatchLoop(post, n + |a.calls|, quotes[1..], tweeted);
        Run(rest.result, a.calls + rest.calls, rest.written)
  }

  /** `read_quote` on the two files: load and clean both, then run the loop. */
  function ReadQuoteRun(respond: (nat, Call) -> Response, n: nat, dataFile: seq<Record>, tweetedFile: seq<Record>): Run
  {
    match CleanRecords(dataFile)
    case Failure(e) => Run(Error(e), [], None)
    case Success(quotes) =>
      match CleanRecords(tweetedFile)
      case Failure(e) => Run(Error(e), [], None)
      case Success(tweeted) => DispatchLoop(PostWith(respond), n, quotes, tweeted)
  }

  // ---------------------------------------------------------------------
  // What the loop promises, for any way of trying a quote

  /** The client call number after the loop has passed `quote` by. */
  function Next(post: PostFn, n: nat, tweeted: seq<Record>, quote: Record): nat
  {
    if quote in tweeted then n else n + |post(n, quote).calls|
  }

  /** The client call number at which the loop reaches `quotes[k]`, had every
      quote before it been skipped or failed. */
  function CallsBefore(post: PostFn, n: nat, quotes: seq<Record>, tweeted: seq<Record>, k: nat): nat
    requires k <= |quotes|
    decreases k
  {
    if k == 0 then n else CallsBefore(post, Next(post, n, tweeted, quotes[0]), quotes[1..], tweeted, k - 1)
  }

  /** The loop passes `quotes[k]` by: it is already tweeted, or its thread
      failed with a `TweepyException`. */
  ghost predicate PassedBy(post: PostFn, n: nat, quotes: seq<Record>, tweeted: seq<Record>, k: nat)
    requires k < |quotes|
  {
    quotes[k] in tweeted || post(CallsBefore(post, n, quotes, tweeted, k), quotes[k]).result.Failed?
  }

  /** `quotes[k]` is the quote the loop posts: untweeted, its thread posted,
      and every quote before it passed by. */
  ghost predicate PostsAt(post: PostFn, n: nat, quotes: seq<Record>, tweeted: seq<Record>, k: nat)
  {
    && k < |quotes|
    && quotes[k] !in tweeted
    && post(CallsBefore(post, n, quotes, tweeted, k), quotes[k]).result.Posted?
    && forall j :: 0 <= j < k ==> PassedBy(post, n, quotes, tweeted, j)
  }

  /** One turn of the loop: a quote passed by hands the rest of the run to the
      remaining quotes, any other quote ends it. */
  lemma DispatchStep(post: PostFn, n: nat, quotes: seq<Record>, tweeted: seq<Record>)
    requires quotes != []
    ensures var step := if quotes[0] in tweeted then [] else post(n, quotes[0]).calls;
      var rest := DispatchLoop(post, n + |step|, quotes[1..], tweeted);
      PassedBy(post, n, quotes, tweeted, 0) ==>
        DispatchLoop(post, n, quotes, tweeted) == Run(rest.result, step + rest.calls, rest.written)
    ensures var a := post(n, quotes[0]);
      !PassedBy(post, n, quotes, tweeted, 0) ==>
        DispatchLoop(post, n, quotes, tweeted)
          == if a.result.Posted? then Run(Done(quotes[0]), a.calls, Some(tweeted + [quotes[0]]))
             else Run(Error(a.result.error), a.calls, None)
  {
    if quotes[0] in tweeted {
      assert [] + DispatchLoop(post, n, quotes[1..], tweeted).calls == DispatchLoop(post, n, quotes[1..], tweeted).calls;
    }
  }

  /** Looking past the first quote shifts every position by one. */
  lemma PassedByTail(post: PostFn, n: nat, quotes: seq<Record>, tweeted: seq<Record>, k: nat)
    requires 0 < k < |quotes|
    ensures PassedBy(post, n, quotes, tweeted, k)
      <==> PassedBy(post, Next(post, n, tweeted, quotes[0]), quotes[1..], tweeted, k - 1)
  {
    assert quotes[k] == quotes[1..][k - 1];
  }

  /** Once the first quote is passed by, the quote the loop posts is the one
      it posts on the remaining quotes. */
  lemma PostsAtTail(post: PostFn, n: nat, quotes: seq<Record>, tweeted: seq<Record>, k: nat)
    requires 0 < k < |quotes| && PassedBy(post, n, quotes, tweeted, 0)
    ensures PostsAt(post, n, quotes, tweeted, k)
      <==> PostsAt(post, Next(post, n, tweeted, quotes[0]), quotes[1..], tweeted, k - 1)
  {
    var n' := Next(post, n, tweeted, quotes[0]);
    var rest := quotes[1..];
    assert quotes[k] == rest[k - 1];
    forall j | 0 < j < |quotes|
      ensures PassedBy(post, n, quotes, tweeted, j) <==> PassedBy(post, n', rest, tweeted, j - 1)
    {
      PassedByTail(post, n, quotes, tweeted, j);
    }
    if PostsAt(post, n', rest, tweeted, k - 1) {
      forall j | 0 < j < k ensures PassedBy(post, n, quotes, tweeted, j) {
        assert PassedBy(post, n', rest, tweeted, j - 1);
      }
    }
    if PostsAt(post, n, quotes, tweeted, k) {
      forall j | 0 <= j < k - 1 ensures PassedBy(post, n', rest, tweeted, j) {
        assert PassedBy(post, n, quotes, tweeted, j + 1);
      }
    }
  }

  /** The loop succeeds with `q` exactly when `q` is the first quote, in file
      order, that is not yet tweeted and whose thread posts; every untweeted
      quote before it failed to post. */
  lemma {:induction false} DispatchSucceeds(post: PostFn, n: nat, quotes: seq<Record>, tweeted: seq<Record>, q: Record)
    ensures DispatchLoop(post, n, quotes, tweeted).result == Done(q)
      <==> exists k: nat :: PostsAt(post, n, quotes, tweeted, k) && quotes[k] == q
    decreases |quotes|
  {
    if quotes != [] {
      var rest := quotes[1..];
      var n' := Next(post, n, tweeted, quotes[0]);
      DispatchStep(post, n, quotes, tweeted);
      if PassedBy(post, n, quotes, tweeted, 0) {
        DispatchSucceeds(post, n', rest, tweeted, q);
        assert !PostsAt(post, n, quotes, tweeted, 0);
        if exists k: nat :: PostsAt(post, n, quotes, tweeted, k) && quotes[k] == q {
          var k: nat :| PostsAt(post, n, quotes, tweeted, k) && quotes[k] == q;
          PostsAtTail(post, n, quotes, tweeted, k);
          assert PostsAt(post, n', rest, tweeted, k - 1) && rest[k - 1] == q;
        }
        if exists k: nat :: PostsAt(post, n', rest, tweeted, k) && rest[k] == q {
          var k: nat :| PostsAt(post, n', rest, tweeted, k) && rest[k] == q;
          PostsAtTail(post, n, quotes, tweeted, k + 1);
          assert PostsAt(post, n, quotes, tweeted, k + 1) && quotes[k + 1] == q;
        }
      } else {
        forall k: nat | 0 < k < |quotes| ensures !PostsAt(post, n, quotes, tweeted, k) {
          assert !PassedBy(post, n, quotes, tweeted, 0);
        }
        if post(n, quotes[0]).result.Posted? {
          assert PostsAt(post, n, quotes, tweeted, 0);
        }
      }
    }
  }

  /** No try of a quote raises an exception whose text is the "all tweeted"
      message. */
  ghost predicate NeverClaimsAllTweeted(post: PostFn)
  {
    forall m: nat, quote: Record :: post(m, quote).result.Raised? ==> post(m, quote).result.error != AllTweeted
  }

  /** The loop reports "All quotes have been tweeted" exactly when every quote
      is already tweeted or failed to post: the message also covers posting
      failures. */
  lemma {:induction false} DispatchExhausted(post: PostFn, n: nat, quotes: seq<Record>, tweeted: seq<Record>)
    requires NeverClaimsAllTweeted(post)
    ensures DispatchLoop(post, n, quotes, tweeted).result == Error(AllTweeted)
      <==> forall k :: 0 <= k < |quotes| ==> PassedBy(post, n, quotes, tweeted, k)
    decreases |quotes|
  {
    if quotes != [] {
      var rest := quotes[1..];
      var n' := Next(post, n, tweeted, quotes[0]);
      DispatchStep(post, n, quotes, tweeted);
      if PassedBy(post, n, quotes, tweeted, 0) {
        DispatchExhausted(post, n', rest, tweeted);
        forall k | 0 < k < |quotes|
          ensures PassedBy(post, n, quotes, tweeted, k) <==> PassedBy(post, n', rest, tweeted, k - 1)
        {
          PassedByTail(post, n, quotes, tweeted, k);
        }
        if forall k :: 0 <= k < |rest| ==> PassedBy(post, n', rest, tweeted, k) {
          forall k | 0 <= k < |quotes| ensures PassedBy(post, n, quotes, tweeted, k) {
            if k > 0 { assert PassedBy(post, n', rest, tweeted, k - 1); }
          }
        }
        if forall k :: 0 <= k < |quotes| ==> PassedBy(post, n, quotes, tweeted, k) {
          forall k | 0 <= k < |rest| ensures PassedBy(post, n', rest, tweeted, k) {
            assert PassedBy(post, n, quotes, tweeted, k + 1);
          }
        }
      } else {
        assert !PassedBy(post, n, quotes, tweeted, 0);
      }
    }
  }

  /** The tweeted list is written only on success, and then it is the old list
      with exactly the posted quote appended; that quote was untweeted. */
  lemma {:induction false} DispatchWrites(post: PostFn, n: nat, quotes: seq<Record>, tweeted: seq<Record>)
    ensures var run := DispatchLoop(post, n, quotes, tweeted);
      && (run.written.Some? <==> run.result.Done?)
      && (run.result.Done? ==>
            run.written == Some(tweeted + [run.result.quote]) && run.result.quote in quotes && run.result.quote !in tweeted)
    decreases |quotes|
  {
    if quotes != [] {
      DispatchWrites(post, Next(post, n, tweeted, quotes[0]), quotes[1..], tweeted);
    }
  }

  /** With every quote already tweeted the loop posts nothing. */
  lemma {:induction false} DispatchNothingLeft(post: PostFn, n: nat, quotes: seq<Record>, tweeted: seq<Record>)
    requires forall i :: 0 <= i < |quotes| ==> quotes[i] in tweeted
    ensures DispatchLoop(post, n, quotes, tweeted) == Run(Error(AllTweeted), [], None)
    decreases |quotes|
  {
    if quotes != [] {
      assert quotes[0] in tweeted;
      forall i | 0 <= i < |quotes[1..]| ensures quotes[1..][i] in tweeted { assert quotes[1..][i] == quotes[i + 1]; }
      DispatchNothingLeft(post, n, quotes[1..], tweeted);
    }
  }

  // ---------------------------------------------------------------------
  // The same promises for `read_quote` on its two files

  /** The exceptions a try can raise: a missing key, a text without a length,
      or an empty chunk list; none of them is the "all tweeted" message. */
  lemma TryQuoteRaises(respond: (nat, Call) -> Response, n: nat, quote: Record)
    ensures var a := TryQuote(respond, n, quote);
      a.result.Raised? ==>
        && (a.result.error == KeyErrorMessage("Quote") || a.result.error == KeyErrorMessage("Page")
            || ("Quote" in quote && a.result.error == LenTypeError(quote["Quote"])) || a.result.error == IndexOutOfRange)
        && a.result.error != AllTweeted
  {
    if "Quote" in quote && "Page" in quote {
      if quote["Page"] == JInt(0) && !quote["Quote"].JStr? {
        assert LenTypeError(quote["Quote"])[0] == 'o';
      } else {
        QuoteThreadSpec(respond, n, PyStr(quote["Quote"]), quote["Page"], TweetLimit);
      }
    }
  }

  lemma PostWithNeverClaimsAllTweeted(respond: (nat, Call) -> Response)
    ensures NeverClaimsAllTweeted(PostWith(respond))
  {
    forall m: nat, quote: Record ensures PostWith(respond)(m, quote) == TryQuote(respond, m, quote) {
    }
    forall m: nat, quote: Record | TryQuote(respond, m, quote).result.Raised?
      ensures TryQuote(respond, m, quote).result.error != AllTweeted
    {
      TryQuoteRaises(respond, m, quote);
    }
  }

  /** A cleaning failure reports a value without a `replace` method. */
  lemma {:induction false} CleanRecordsFailure(items: seq<Record>)
    requires CleanRecords(items).Failure?
    ensures exists v :: CleanRecords(items).error == NoReplaceMessage(v)
    ensures CleanRecords(items).error != AllTweeted
  {
    var k :| 0 <= k < |items| && CleanItem(items[k]).Failure? by {
      CleanRecordsAll(items);
    }
    if k == 0 || CleanItem(items[0]).Failure? {
      CleanItemSpec(items[0]);
      assert CleanRecords(items).error == CleanItem(items[0]).error;
    } else {
      CleanRecordsFailure(items[1..]);
    }
    var v :| CleanRecords(items).error == NoReplaceMessage(v);
    assert NoReplaceMessage(v)[0] == '\'';
  }

  /** `read_quote` returns a quote exactly when both files load and that quote
      is the first untweeted one, in file order, whose thread posts. */
  lemma ReadQuoteSucceeds(respond: (nat, Call) -> Response, n: nat, dataFile: seq<Record>, tweetedFile: seq<Record>, q: Record)
    ensures ReadQuoteRun(respond, n, dataFile, tweetedFile).result == Done(q)
      <==> && CleanRecords(dataFile).Success? && CleanRecords(tweetedFile).Success?
           && exists k: nat :: PostsAt(PostWith(respond), n, CleanRecords(dataFile).value, CleanRecords(tweetedFile).value, k)
                               && CleanRecords(dataFile).value[k] == q
  {
    if CleanRecords(dataFile).Success? && CleanRecords(tweetedFile).Success? {
      DispatchSucceeds(PostWith(respond), n, CleanRecords(dataFile).value, CleanRecords(tweetedFile).value, q);
    }
  }

  /** `read_quote` says "All quotes have been tweeted" exactly when both files
      load and every quote is tweeted already or failed to post. */
  lemma ReadQuoteAllTweeted(respond: (nat, Call) -> Response, n: nat, dataFile: seq<Record>, tweetedFile: seq<Record>)
    ensures ReadQuoteRun(respond, n, dataFile, tweetedFile).result == Error(AllTweeted)
      <==> && CleanRecords(dataFile).Success? && CleanRecords(tweetedFile).Success?
           && var quotes := CleanRecords(dataFile).value;
              forall k :: 0 <= k < |quotes| ==> PassedBy(PostWith(respond), n, quotes, CleanRecords(tweetedFile).value, k)
  {
    if CleanRecords(dataFile).Failure? {
      CleanRecordsFailure(dataFile);
    } else if CleanRecords(tweetedFile).Failure? {
      CleanRecordsFailure(tweetedFile);
    } else {
      PostWithNeverClaimsAllTweeted(respond);
      DispatchExhausted(PostWith(respond), n, CleanRecords(dataFile).value, CleanRecords(tweetedFile).value);
    }
  }

  /** A quote `read_quote` has posted is never posted again by a later call on
      the files it left behind, whatever the platform answers. */
  lemma NeverPostedTwice(respond: (nat, Call) -> Response, n: nat, dataFile: seq<Record>, tweetedFile: seq<Record>,
                         respond': (nat, Call) -> Response, n': nat)
    requires ReadQuoteRun(respond, n, dataFile, tweetedFile).result.Done?
    ensures var first := ReadQuoteRun(respond, n, dataFile, tweetedFile);
      first.written.Some?
      && ReadQuoteRun(respond', n', dataFile, first.written.value).result != Done(first.result.quote)
  {
    var quotes := CleanRecords(dataFile).value;
    var tweeted := CleanRecords(tweetedFile).value;
    CleanRecordsIdempotent(dataFile);
    CleanRecordsIdempotent(tweetedFile);
    DispatchWrites(PostWith(respond), n, quotes, tweeted);
    var q := DispatchLoop(PostWith(respond), n, quotes, tweeted).result.quote;
    var written := tweeted + [q];
    // q is a cleaned record, so the written list is already clean.
    var k :| 0 <= k < |quotes| && quotes[k] == q;
    CleanRecordsAll(quotes);
    CleanRecordsAll(tweeted);
    CleanRecordsAll(written);
    forall i | 0 <= i < |written| ensures CleanItem(written[i]) == Success(written[i]) {
      if i < |tweeted| { assert written[i] == tweeted[i]; } else { assert written[i] == quotes[k]; }
    }
    assert CleanRecords(written).value == written;
    assert q in written;
    DispatchWrites(PostWith(respond'), n', quotes, written);
  }

  // ---------------------------------------------------------------------
  // The files and the loop itself

  /** The two JSON files, `./data/data.json` and `./data/tweeted.json`. */
  class DataFiles {
    var data: seq<Record>
    var tweeted: seq<Record>

    constructor (data: seq<Record>, tweeted: seq<Record>)
      ensures this.data == data && this.tweeted == tweeted
    {
      this.data := data;
      this.tweeted := tweeted;
    }
  }

  lemma AppendAssoc<T>(a: seq<T>, b: seq<T>, c: seq<T>)
    ensures (a + b) + c == a + (b + c)
  {
  }

  /** Moving the loop past a quote it passes by keeps the run it will end with:
      the calls made so far grow by the calls of that one try. */
  lemma Advance(post: PostFn, m: nat, quotes: seq<Record>, tweeted: seq<Record>, done: seq<Call>, whole: Run)
    requires quotes != [] && PassedBy(post, m, quotes, tweeted, 0)
    requires var here := DispatchLoop(post, m, quotes, tweeted); whole == Run(here.result, done + here.calls, here.written)
    ensures var step := if quotes[0] in tweeted then [] else post(m, quotes[0]).calls;
      var rest := DispatchLoop(post, m + |step|, quotes[1..], tweeted);
      whole == Run(rest.result, (done + step) + rest.calls, rest.written)
  {
    DispatchStep(post, m, quotes, tweeted);
    var step := if quotes[0] in tweeted then [] else post(m, quotes[0]).calls;
    var rest := DispatchLoop(post, m + |step|, quotes[1..], tweeted);
    assert (done + step) + rest.calls == done + (step + rest.calls);
  }

  /** A quote the loop does not pass by ends the run: with its outcome, after
      the calls of that one try. */
  lemma Finish(post: PostFn, m: nat, quotes: seq<Record>, tweeted: seq<Record>, done: seq<Call>, whole: Run)
    requires quotes != [] && !PassedBy(post, m, quotes, tweeted, 0)
    requires var here := DispatchLoop(post, m, quotes, tweeted); whole == Run(here.result, done + here.calls, here.written)
    ensures var a := post(m, quotes[0]);
      && whole.calls == done + a.calls
      && whole.result == (if a.result.Posted? then Done(quotes[0]) else Error(a.result.error))
      && whole.written == (if a.result.Posted? then Some(tweeted + [quotes[0]]) else None)
  {
    DispatchStep(post, m, quotes, tweeted);
  }

  /** The `try` body of `read_quote` for one untweeted quote: read its `Quote`
      and `Page` and post the thread. */
  method TryPost(handler: TweetThreadHandler, quote: Record) returns (result: ThreadResult)
    requires handler.tweetLimit == TweetLimit
    modifies handler.client
    ensures var a := TryQuote(handler.client.respond, |old(handler.client.sent)|, quote);
      result == a.result && handler.client.sent == old(handler.client.sent) + a.calls
  {
    if "Quote" !in quote {
      return Raised(KeyErrorMessage("Quote"));
    }
    if "Page" !in quote {
      return Raised(KeyErrorMessage("Page"));
    }
    var text := quote["Quote"];
    var page := quote["Page"];
    if page == JInt(0) && !text.JStr? {
      return Raised(LenTypeError(text));
    }
    result := handler.PostQuoteThread(PyStr(text), page);
  }

  /** `post` tries quotes as `TryQuote` does against the handler's client. */
  ghost predicate PostsThrough(post: PostFn, handler: TweetThreadHandler)
  {
    forall m: nat, quote: Record {:trigger TryQuote(handler.client.respond, m, quote)} ::
      post(m, quote) == TryQuote(handler.client.respond, m, quote)
  }

  /** One turn of the loop of `read_quote`: a quote already tweeted is skipped;
      any other is tried, and the turn ends the loop unless its thread failed.
      A posted quote is appended to the tweeted file. */
  method Turn(handler: TweetThreadHandler, files: DataFiles, quote: Record, tweeted: seq<Record>, ghost post: PostFn)
    returns (outcome: Option<DispatchResult>)
    requires handler.tweetLimit == TweetLimit && PostsThrough(post, handler)
    modifies files, handler.client
    ensures var a := post(|old(handler.client.sent)|, quote);
      && files.data == old(files.data)
      && (quote in tweeted ==> outcome == None && handler.client.sent == old(handler.client.sent) && files.tweeted == old(files.tweeted))
      && (quote !in tweeted ==>
            && handler.client.sent == old(handler.client.sent) + a.calls
            && outcome == (match a.result
                           case Posted(_) => Some(Done(quote))
                           case Raised(e) => Some(Error(e))
                           case Failed => None)
            && files.tweeted == (if a.result.Posted? then tweeted + [quote] else old(files.tweeted)))
  {
    outcome := None;
    if quote !in tweeted {
      ghost var a := TryQuote(handler.client.respond, |handler.client.sent|, quote);
      var tweets := TryPost(handler, quote);
      if tweets.Raised? {
        return Some(Error(tweets.error));
      }
      if tweets.Posted? {
        files.tweeted := tweeted + [quote];
        return Some(Done(quote));
      }
    }
  }

  /** One turn of the loop, told against the run the loop ends with: a turn
      that ends the loop has produced that run; any other turn leaves the rest
      of the quotes to produce it, after the calls made so far. */
  method Visit(handler: TweetThreadHandler, files: DataFiles, rest: seq<Record>, tweeted: seq<Record>, ghost post: PostFn,
               ghost start: seq<Call>, ghost done: seq<Call>, ghost whole: Run)
    returns (outcome: Option<DispatchResult>, ghost done': seq<Call>)
    requires rest != [] && handler.tweetLimit == TweetLimit && PostsThrough(post, handler)
    requires handler.client.sent == start + done
    requires var here := DispatchLoop(post, |handler.client.sent|, rest, tweeted);
      whole == Run(here.result, done + here.calls, here.written)
    modifies files, handler.client
    ensures files.data == old(files.data)
    ensures outcome.Some? ==>
      && outcome.value == whole.result
      && handler.client.sent == start + whole.calls
      && files.tweeted == (if whole.written.Some? then whole.written.value else old(files.tweeted))
    ensures outcome.None? ==>
      && handler.client.sent == start + done'
      && files.tweeted == old(files.tweeted)
      && var next := DispatchLoop(post, |handler.client.sent|, rest[1..], tweeted);
         whole == Run(next.result, done' + next.calls, next.written)
  {
    ghost var m := |handler.client.sent|;
    ghost var a := post(m, rest[0]);
    outcome := Turn(handler, files, rest[0], tweeted, post);
    if outcome.Some? {
      Finish(post, m, rest, tweeted, done, whole);
      AppendAssoc(start, done, a.calls);
      done' := done;
    } else {
      ghost var step := if rest[0] in tweeted then [] else a.calls;
      Advance(post, m, rest, tweeted, done, whole);
      AppendAssoc(start, done, step);
      done' := done + step;
    }
  }

  /** The loop of `read_quote`: posts the first untweeted quote that the
      platform accepts and appends it to the tweeted file. */
  method PostFirstUntweeted(handler: TweetThreadHandler, files: DataFiles, quotes: seq<Record>, tweeted: seq<Record>, ghost post: PostFn)
    returns (r: DispatchResult)
    requires handler.tweetLimit == TweetLimit && PostsThrough(post, handler)
    modifies files, handler.client
    ensures var run := DispatchLoop(post, |old(handler.client.sent)|, quotes, tweeted);
      && r == run.result
      && handler.client.sent == old(handler.client.sent) + run.calls
      && files.data == old(files.data)
      && files.tweeted == (if run.written.Some? then run.written.value else old(files.tweeted))
  {
    var client := handler.client;
    ghost var whole := DispatchLoop(post, |client.sent|, quotes, tweeted);
    ghost var done: seq<Call> := [];
    var i := 0;
    while i < |quotes|
      invariant 0 <= i <= |quotes|
      invariant client.sent == old(client.sent) + done
      invariant files.data == old(files.data) && files.tweeted == old(files.tweeted)
      invariant var rest := DispatchLoop(post, |client.sent|, quotes[i..], tweeted);
        whole == Run(rest.result, done + rest.calls, rest.written)
    {
      var outcome;
      outcome, done := Visit(handler, files, quotes[i..], tweeted, post, old(client.sent), done, whole);
      if outcome.Some? {
        return outcome.value;
      }
      assert quotes[i..][1..] == quotes[i + 1..];
      i := i + 1;
    }
    return Error(AllTweeted);
  }

  /** `read_quote`: the result and the client calls are those of
      `ReadQuoteRun`; the tweeted file is rewritten only when it says so, and
      the data file never. */
  method ReadQuote(files: DataFiles, client: Client) returns (r: DispatchResult)
    modifies files, client
    ensures var run := ReadQuoteRun(client.respond, |old(client.sent)|, old(files.data), old(files.tweeted));
      && r == run.result
      && client.sent == old(client.sent) + run.calls
      && files.data == old(files.data)
      && files.tweeted == (if run.written.Some? then run.written.value else old(files.tweeted))
  {
    var handler := new TweetThreadHandler(client);
    var loadedQuotes := LoadRecords(files.data);
    if loadedQuotes.Failure? {
      return Error(loadedQuotes.error);
    }
    var loadedTweeted := LoadRecords(files.tweeted);
    if loadedTweeted.Failure? {
      return Error(loadedTweeted.error);
    }
    ghost var post := PostWith(client.respond);
    assert PostsThrough(post, handler) by {
      forall m: nat, quote: Record ensures post(m, quote) == TryQuote(handler.client.respond, m, quote) { }
    }
    r := PostFirstUntweeted(handler, files, loadedQuotes.value, loadedTweeted.value, post);
  }
}
