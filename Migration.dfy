/** `migrate_json_to_sqlite` from migrate.py: one database row per quote of
    the data file, marked tweeted when the tweeted file holds a quote with the
    same text and page, committed all at once or not at all. */
module Migration {
  import opened Wrappers
  import opened JsonValues

  /** A point in time as `datetime.utcnow()` returns it. */
  type Timestamp = nat

  /** A row of the `Quote` table. */
  datatype QuoteRow = QuoteRow(text: Json, page: Json, tweeted: bool, tweetedAt: Option<Timestamp>)

  /** `t.get('Quote') == q.get('Quote') and t.get('Page') == q.get('Page')`:
      other fields are ignored and a missing key reads as `None`. */
  predicate SameContent(t: Record, q: Record)
  {
    Get(t, "Quote") == Get(q, "Quote") && Get(t, "Page") == Get(q, "Page")
  }

  /** `is_tweeted`: the `any(...)` over the tweeted file. */
  function IsTweeted(tweeted: seq<Record>, q: Record): (b: bool)
    ensures b <==> exists i :: 0 <= i < |tweeted| && SameContent(tweeted[i], q)
  {
    if tweeted == [] then false
    else if SameContent(tweeted[0], q) then true
    else
      var b := IsTweeted(tweeted[1..], q);
      assert b ==> exists i :: 0 <= i < |tweeted| && SameContent(tweeted[i], q) by {
        if b {
          var i :| 0 <= i < |tweeted[1..]| && SameContent(tweeted[1..][i], q);
          assert tweeted[i + 1] == tweeted[1..][i];
        }
      }
      assert (exists i :: 0 <= i < |tweeted| && SameContent(tweeted[i], q)) ==> b by {
        if exists i :: 0 <= i < |tweeted| && SameContent(tweeted[i], q) {
          var i :| 0 <= i < |tweeted| && SameContent(tweeted[i], q);
          assert i > 0 && tweeted[1..][i - 1] == tweeted[i];
        }
      }
      b
  }

  /** The row for one quote, whose `Quote` and `Page` are present, with `now`
      the time `utcnow()` would give for it. */
  function Row(q: Record, tweeted: seq<Record>, now: Timestamp): QuoteRow
    requires "Quote" in q && "Page" in q
  {
    var isTweeted := IsTweeted(tweeted, q);
    QuoteRow(q["Quote"], q["Page"], isTweeted, if isTweeted then Some(now) else None)
  }

  /** The rows for `quotes`, the `i`-th stamped with `clock(i)`, or the
      `KeyError` of the first quote lacking `Quote` or `Page`. */
  function Rows(quotes: seq<Record>, tweeted: seq<Record>, clock: nat -> Timestamp): Result<seq<QuoteRow>>
    decreases |quotes|
  {
    if quotes == [] then Success([])
    else if "Quote" !in quotes[0] then Failure(KeyErrorMessage("Quote"))
    else if "Page" !in quotes[0] then Failure(KeyErrorMessage("Page"))
    else
      match Rows(quotes[1..], tweeted, (i: nat) => clock(i + 1))
      case Failure(e) => Failure(e)
      case Success(rest) => Success([Row(quotes[0], tweeted, clock(0))] + rest)
  }

  predicate HasKeys(q: Record)
  {
    "Quote" in q && "Page" in q
  }

  /** One row per quote, in order, exactly when every quote has both keys;
      each row copies the quote's text and page, is tweeted when the tweeted
      file has a quote with the same content, and carries a time exactly when
      it is tweeted. */
  lemma {:induction false} RowsSpec(quotes: seq<Record>, tweeted: seq<Record>, clock: nat -> Timestamp)
    ensures Rows(quotes, tweeted, clock).Success? <==> forall i :: 0 <= i < |quotes| ==> HasKeys(quotes[i])
    ensures Rows(quotes, tweeted, clock).Success? ==>
      var rows := Rows(quotes, tweeted, clock).value;
      && |rows| == |quotes|
      && forall i :: 0 <= i < |quotes| ==>
           && rows[i].text == quotes[i]["Quote"] && rows[i].page == quotes[i]["Page"]
           && (rows[i].tweeted <==> exists j :: 0 <= j < |tweeted| && SameContent(tweeted[j], quotes[i]))
           && rows[i].tweetedAt == (if rows[i].tweeted then Some(clock(i)) else None)
    decreases |quotes|
  {
    if quotes != [] {
      var later := (i: nat) => clock(i + 1);
      RowsSpec(quotes[1..], tweeted, later);
      if forall i :: 0 <= i < |quotes| ==> HasKeys(quotes[i]) {
        forall i | 0 <= i < |quotes[1..]| ensures HasKeys(quotes[1..][i]) {
          assert quotes[1..][i] == quotes[i + 1];
        }
      }
      if Rows(quotes, tweeted, clock).Success? {
        var rows := Rows(quotes, tweeted, clock).value;
        var rest := Rows(quotes[1..], tweeted, later).value;
        assert rows == [Row(quotes[0], tweeted, clock(0))] + rest;
        forall i | 0 < i < |quotes|
          ensures HasKeys(quotes[i]) && rows[i] == Row(quotes[i], tweeted, clock(i))
        {
          assert quotes[i] == quotes[1..][i - 1] && rows[i] == rest[i - 1];
          assert later(i - 1) == clock(i);
        }
      }
    }
  }

  /** A failure names the key missing from the first quote that lacks one. */
  lemma {:induction false} RowsFailure(quotes: seq<Record>, tweeted: seq<Record>, clock: nat -> Timestamp, k: nat)
    requires k < |quotes| && !HasKeys(quotes[k])
    requires forall i :: 0 <= i < k ==> HasKeys(quotes[i])
    ensures Rows(quotes, tweeted, clock)
      == Failure(KeyErrorMessage(if "Quote" !in quotes[k] then "Quote" else "Page"))
    decreases k
  {
    if k > 0 {
      assert HasKeys(quotes[0]);
      forall i | 0 <= i < k - 1 ensures HasKeys(quotes[1..][i]) {
        assert quotes[1..][i] == quotes[i + 1];
      }
      assert quotes[1..][k - 1] == quotes[k];
      RowsFailure(quotes[1..], tweeted, (i: nat) => clock(i + 1), k - 1);
    }
  }

  /** A quote found whole in the tweeted file, as `read_quote` looks for it, is
      also tweeted by content. */
  lemma MemberIsTweeted(tweeted: seq<Record>, q: Record)
    requires q in tweeted
    ensures IsTweeted(tweeted, q)
  {
    var i :| 0 <= i < |tweeted| && tweeted[i] == q;
    assert SameContent(tweeted[i], q);
  }

  /** The converse fails: a quote whose tweeted copy differs only in its
      author counts as tweeted here, though `read_quote` would post it again. */
  lemma TweetedWithoutMembership()
    ensures var q := map["Quote" := JStr("a"), "Page" := JInt(1), "Author" := JStr("Seneca")];
      var tweeted := [map["Quote" := JStr("a"), "Page" := JInt(1)]];
      IsTweeted(tweeted, q) && q !in tweeted
  {
    var q := map["Quote" := JStr("a"), "Page" := JInt(1), "Author" := JStr("Seneca")];
    var t := map["Quote" := JStr("a"), "Page" := JInt(1)];
    assert SameContent([t][0], q);
    assert "Author" in q && "Author" !in t;
  }

  /** A missing `Page` compares equal to a `Page` of `null`. */
  lemma MissingMatchesNull(text: Json)
    ensures IsTweeted([map["Quote" := text, "Page" := JNull]], map["Quote" := text])
  {
    assert SameContent([map["Quote" := text, "Page" := JNull]][0], map["Quote" := text]);
  }

  /** Whether a quote counts as tweeted depends on its text and page alone. */
  lemma TweetedByContent(tweeted: seq<Record>, q: Record, q': Record)
    requires Get(q, "Quote") == Get(q', "Quote") && Get(q, "Page") == Get(q', "Page")
    ensures IsTweeted(tweeted, q) == IsTweeted(tweeted, q')
  {
    if IsTweeted(tweeted, q) {
      var i :| 0 <= i < |tweeted| && SameContent(tweeted[i], q);
      assert SameContent(tweeted[i], q');
    }
    if IsTweeted(tweeted, q') {
      var i :| 0 <= i < |tweeted| && SameContent(tweeted[i], q');
      assert SameContent(tweeted[i], q);
    }
  }

  // ---------------------------------------------------------------------
  // The session and the migration loop

  /** `db.session` over the `Quote` table: rows added since the last commit
      are pending until `commit` stores them or `rollback` drops them. */
  class Session {
    var committed: seq<QuoteRow>
    var pending: seq<QuoteRow>

    constructor (table: seq<QuoteRow>)
      ensures committed == table && pending == []
    {
      committed := table;
      pending := [];
    }

    method Add(row: QuoteRow)
      modifies this
      ensures committed == old(committed) && pending == old(pending) + [row]
    {
      pending := pending + [row];
    }

    method Commit()
      modifies this
      ensures committed == old(committed) + old(pending) && pending == []
    {
      committed := committed + pending;
      pending := [];
    }

    method Rollback()
      modifies this
      ensures committed == old(committed) && pending == []
    {
      pending := [];
    }
  }

  /** `migrate_json_to_sqlite` on the loaded files: on success the rows of
      `Rows` are committed after whatever the session held; on a `KeyError`
      the session is rolled back and the table is as it was. The returned
      error is the message the script prints. */
  method Migrate(session: Session, quotes: seq<Record>, tweeted: seq<Record>, clock: nat -> Timestamp)
    returns (error: Option<string>)
    modifies session
    ensures session.pending == []
    ensures match Rows(quotes, tweeted, clock)
      case Success(rows) => error == None && session.committed == old(session.committed) + old(session.pending) + rows
      case Failure(e) => error == Some(e) && session.committed == old(session.committed)
  {
    ghost var start := session.pending;
    RowsSpec(quotes, tweeted, clock);
    ghost var added: seq<QuoteRow> := [];
    for i := 0 to |quotes|
      invariant session.committed == old(session.committed) && session.pending == start + added
      invariant |added| == i && forall j :: 0 <= j < i ==> HasKeys(quotes[j]) && added[j] == Row(quotes[j], tweeted, clock(j))
    {
      var quoteData := quotes[i];
      var isTweeted := IsTweeted(tweeted, quoteData);
      if "Quote" !in quoteData || "Page" !in quoteData {
        RowsFailure(quotes, tweeted, clock, i);
        session.Rollback();
        return Some(KeyErrorMessage(if "Quote" !in quoteData then "Quote" else "Page"));
      }
      var row := QuoteRow(quoteData["Quote"], quoteData["Page"], isTweeted, if isTweeted then Some(clock(i)) else None);
      session.Add(row);
      added := added + [row];
    }
    session.Commit();
    ghost var rows := Rows(quotes, tweeted, clock).value;
    assert added == rows by {
      forall j | 0 <= j < |quotes| ensures added[j] == rows[j] { }
    }
    return None;
  }
}
