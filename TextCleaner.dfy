/** text_cleaner.py: repairing mis-decoded and curly quotation marks in the
    quote files, and the cleaning pass `read_json_file` makes over a list of
    records. */
module TextCleaner {
  import opened Wrappers
  import opened JsonValues

  // ---------------------------------------------------------------------
  // Replacing substrings

  /** `pattern` occurs in `s` at index `i`. */
  predicate OccursAt(s: string, pattern: string, i: int)
  {
    0 <= i && i + |pattern| <= |s| && s[i..i + |pattern|] == pattern
  }

  predicate Contains(s: string, pattern: string)
  {
    exists i :: 0 <= i <= |s| - |pattern| && OccursAt(s, pattern, i)
  }

  /** `s.replace(pattern, replacement)` for a non-empty pattern: occurrences are
      found left to right and do not overlap. */
  function ReplaceAll(s: string, pattern: string, replacement: string): string
    requires |pattern| > 0
    decreases |s|
  {
    if |s| < |pattern| then s
    else if s[..|pattern|] == pattern then replacement + ReplaceAll(s[|pattern|..], pattern, replacement)
    else [s[0]] + ReplaceAll(s[1..], pattern, replacement)
  }

  lemma OccursAtTail(s: string, pattern: string, i: int)
    requires |s| > 0 && OccursAt(s[1..], pattern, i)
    ensures OccursAt(s, pattern, i + 1)
  {
    assert s[i + 1..i + 1 + |pattern|] == s[1..][i..i + |pattern|];
  }

  lemma OccursAtSuffix(s: string, pattern: string, n: nat, i: int)
    requires n <= |s| && OccursAt(s[n..], pattern, i)
    ensures OccursAt(s, pattern, i + n)
  {
    assert s[i + n..i + n + |pattern|] == s[n..][i..i + |pattern|];
  }

  /** Replacing a pattern that does not occur changes nothing. */
  lemma {:induction false} ReplaceAbsent(s: string, pattern: string, replacement: string)
    requires |pattern| > 0 && !Contains(s, pattern)
    ensures ReplaceAll(s, pattern, replacement) == s
    decreases |s|
  {
    if |s| >= |pattern| {
      assert !OccursAt(s, pattern, 0);
      assert !Contains(s[1..], pattern) by {
        forall i | OccursAt(s[1..], pattern, i) ensures false { OccursAtTail(s, pattern, i); }
      }
      ReplaceAbsent(s[1..], pattern, replacement);
      assert s == [s[0]] + s[1..];
    }
  }

  /** A replacement no longer than its pattern never lengthens the text. */
  lemma {:induction false} ReplaceShortens(s: string, pattern: string, replacement: string)
    requires 0 < |pattern| && |replacement| <= |pattern|
    ensures |ReplaceAll(s, pattern, replacement)| <= |s|
    decreases |s|
  {
    if |s| >= |pattern| {
      if s[..|pattern|] == pattern {
        ReplaceShortens(s[|pattern|..], pattern, replacement);
      } else {
        ReplaceShortens(s[1..], pattern, replacement);
      }
    }
  }

  /** No character of `t` occurs in `u`. */
  predicate Disjoint(t: string, u: string)
  {
    forall j :: 0 <= j < |u| ==> u[j] !in t
  }

  /** A prefix of the output free of replacement characters was copied from
      the input unchanged. */
  lemma {:induction false} UntouchedPrefix(s: string, pattern: string, replacement: string, m: nat)
    requires |pattern| > 0 && |replacement| > 0
    requires m <= |ReplaceAll(s, pattern, replacement)|
    ensures var r := ReplaceAll(s, pattern, replacement);
      (forall j :: 0 <= j < m ==> r[j] !in replacement) ==> m <= |s| && r[..m] == s[..m]
    decreases |s|
  {
    var r := ReplaceAll(s, pattern, replacement);
    if |s| >= |pattern| && m > 0 {
      if s[..|pattern|] == pattern {
        assert r[0] == replacement[0];
      } else {
        var r' := ReplaceAll(s[1..], pattern, replacement);
            UntouchedPrefix(s[1..], pattern, replacement, m - 1);
        if forall j :: 0 <= j < m ==> r[j] !in replacement {
          forall j | 0 <= j < m - 1 ensures r'[j] !in replacement {
            assert r'[j] == r[j + 1];
          }
          assert r[..m] == [s[0]] + r'[..m - 1];
          assert s[..m] == [s[0]] + s[1..][..m - 1];
        }
      }
    }
  }

  /** When the replacement shares no character with the pattern, the output
      holds no occurrence of the pattern. */
  lemma {:induction false} ReplaceRemoves(s: string, pattern: string, replacement: string)
    requires |pattern| > 0 && |replacement| > 0 && Disjoint(replacement, pattern)
    ensures !Contains(ReplaceAll(s, pattern, replacement), pattern)
    decreases |s|
  {
    var r := ReplaceAll(s, pattern, replacement);
    if |s| < |pattern| {
      forall i | OccursAt(r, pattern, i) ensures false { }
    } else if s[..|pattern|] == pattern {
      ReplaceRemoves(s[|pattern|..], pattern, replacement);
      RemovesAfterMatch(s, pattern, replacement);
    } else {
      ReplaceRemoves(s[1..], pattern, replacement);
      RemovesAfterSkip(s, pattern, replacement);
    }
  }

  /** The step of `ReplaceRemoves` where the text starts with the pattern. */
  lemma RemovesAfterMatch(s: string, pattern: string, replacement: string)
    requires |pattern| > 0 && |replacement| > 0 && Disjoint(replacement, pattern)
    requires |s| >= |pattern| && s[..|pattern|] == pattern
    requires !Contains(ReplaceAll(s[|pattern|..], pattern, replacement), pattern)
    ensures !Contains(ReplaceAll(s, pattern, replacement), pattern)
  {
    var r' := ReplaceAll(s[|pattern|..], pattern, replacement);
    assert ReplaceAll(s, pattern, replacement) == replacement + r';
    NoOccurrenceAfter(replacement, r', pattern);
  }

  /** A pattern is absent from `t + u` when it is absent from `u` and its first
      character is absent from `t`. */
  lemma NoOccurrenceAfter(t: string, u: string, pattern: string)
    requires |pattern| > 0 && pattern[0] !in t && !Contains(u, pattern)
    ensures !Contains(t + u, pattern)
  {
    var r := t + u;
    forall i | 0 <= i <= |r| - |pattern| ensures !OccursAt(r, pattern, i) {
      if i < |t| {
        assert r[i] == t[i];
        assert r[i..i + |pattern|][0] == r[i];
      } else {
        assert r[i..i + |pattern|] == u[i - |t|..i - |t| + |pattern|];
        assert !OccursAt(u, pattern, i - |t|);
      }
    }
  }

  /** The step of `ReplaceRemoves` where the text does not start with the
      pattern and its first character is copied. */
  lemma RemovesAfterSkip(s: string, pattern: string, replacement: string)
    requires |pattern| > 0 && |replacement| > 0 && Disjoint(replacement, pattern)
    requires |s| >= |pattern| && s[..|pattern|] != pattern
    requires !Contains(ReplaceAll(s[1..], pattern, replacement), pattern)
    ensures !Contains(ReplaceAll(s, pattern, replacement), pattern)
  {
    var r' := ReplaceAll(s[1..], pattern, replacement);
    var m := |pattern| - 1;
    assert ReplaceAll(s, pattern, replacement) == [s[0]] + r';
    if s[0] == pattern[0] && m <= |r'| && r'[..m] == pattern[1..] {
      forall j | 0 <= j < m ensures r'[j] !in replacement {
        assert r'[j] == pattern[j + 1];
      }
      UntouchedPrefix(s[1..], pattern, replacement, m);
      assert false;
    }
    NoOccurrenceAfterChar(s[0], r', pattern);
  }

  /** A pattern is absent from `[c] + u` when it is absent from `u` and does
      not start at `c`. */
  lemma NoOccurrenceAfterChar(c: char, u: string, pattern: string)
    requires |pattern| > 0 && !Contains(u, pattern)
    requires !(c == pattern[0] && |pattern| - 1 <= |u| && u[..|pattern| - 1] == pattern[1..])
    ensures !Contains([c] + u, pattern)
  {
    var r := [c] + u;
    if |pattern| <= |r| {
      assert r[0..|pattern|] == [c] + u[..|pattern| - 1];
      assert pattern == [pattern[0]] + pattern[1..];
    }
    forall i | 0 < i <= |r| - |pattern| ensures !OccursAt(r, pattern, i) {
      assert r[i..i + |pattern|] == u[i - 1..i - 1 + |pattern|];
      assert !OccursAt(u, pattern, i - 1);
    }
  }

  /** Replacing one character by another is a pointwise map. */
  lemma {:induction false} ReplaceChar(s: string, c: char, d: char)
    ensures var r := ReplaceAll(s, [c], [d]);
      |r| == |s| && forall i :: 0 <= i < |s| ==> r[i] == if s[i] == c then d else s[i]
    decreases |s|
  {
    if |s| > 0 {
      ReplaceChar(s[1..], c, d);
      if s[..1] == [c] {
        assert s[0] == c;
      } else {
        assert s[0] != c;
      }
    }
  }

  /** A character map that neither touches nor produces a character of the
      pattern cannot create an occurrence of it. */
  lemma ReplaceCharKeepsAbsent(s: string, c: char, d: char, pattern: string)
    requires Disjoint([c], pattern) && Disjoint([d], pattern) && !Contains(s, pattern)
    ensures !Contains(ReplaceAll(s, [c], [d]), pattern)
  {
    var r := ReplaceAll(s, [c], [d]);
    ReplaceChar(s, c, d);
    forall i | OccursAt(r, pattern, i) ensures false {
      forall j | 0 <= j < |pattern| ensures s[i + j] == pattern[j] {
        assert r[i + j] == pattern[j];
        assert r[i + j] != d;
      }
      assert s[i..i + |pattern|] == pattern;
      assert OccursAt(s, pattern, i);
    }
  }

  lemma ContainsChar(s: string, c: char)
    ensures Contains(s, [c]) <==> c in s
  {
    if c in s {
      var i :| 0 <= i < |s| && s[i] == c;
      assert s[i..i + 1] == [c];
      assert OccursAt(s, [c], i);
    }
    if Contains(s, [c]) {
      var i :| 0 <= i <= |s| - 1 && OccursAt(s, [c], i);
      assert s[i] == s[i..i + 1][0];
    }
  }

  /** An occurrence of a longer pattern is an occurrence of its prefix. */
  lemma ContainsPrefix(s: string, pattern: string, prefix: string)
    requires prefix <= pattern && Contains(s, pattern)
    ensures Contains(s, prefix)
  {
    var i :| 0 <= i <= |s| - |pattern| && OccursAt(s, pattern, i);
    assert s[i..i + |prefix|] == s[i..i + |pattern|][..|prefix|];
    assert OccursAt(s, prefix, i);
  }

  // ---------------------------------------------------------------------
  // clean_text

  /** U+2019 RIGHT SINGLE QUOTATION MARK read as Windows-1252: "â€™". */
  const MojibakeRightSingle := "\U{E2}\U{20AC}\U{2122}"
  /** U+201C LEFT DOUBLE QUOTATION MARK read as Windows-1252: "â€œ". */
  const MojibakeLeftDouble := "\U{E2}\U{20AC}\U{153}"
  /** The two characters every such sequence starts with: "â€". */
  const MojibakeStem := "\U{E2}\U{20AC}"

  const RightSingle := '\U{2019}'
  const LeftSingle := '\U{2018}'
  const LeftDouble := '\U{201C}'
  const RightDouble := '\U{201D}'

  /** The seven patterns `clean_text` replaces, in the order it replaces them. */
  predicate HasNoPattern(s: string)
  {
    && !Contains(s, MojibakeRightSingle)
    && !Contains(s, MojibakeLeftDouble)
    && !Contains(s, MojibakeStem)
    && RightSingle !in s && LeftSingle !in s && LeftDouble !in s && RightDouble !in s
  }

  /** `clean_text`: seven replace-all passes turning mis-decoded and curly
      quotation marks into ASCII `'` and `"`. */
  function CleanText(text: string): string
  {
    var t1 := ReplaceAll(text, MojibakeRightSingle, "'");
    var t2 := ReplaceAll(t1, MojibakeLeftDouble, "\"");
    var t3 := ReplaceAll(t2, MojibakeStem, "\"");
    var t4 := ReplaceAll(t3, [RightSingle], "'");
    var t5 := ReplaceAll(t4, [LeftSingle], "'");
    var t6 := ReplaceAll(t5, [LeftDouble], "\"");
    ReplaceAll(t6, [RightDouble], "\"")
  }

  /** The output of `clean_text` holds none of the seven patterns: no curly
      quotation mark and no "â€", hence neither longer sequence. */
  lemma CleanTextRemovesPatterns(text: string)
    ensures HasNoPattern(CleanText(text))
  {
    var t1 := ReplaceAll(text, MojibakeRightSingle, "'");
    var t2 := ReplaceAll(t1, MojibakeLeftDouble, "\"");
    var t3 := ReplaceAll(t2, MojibakeStem, "\"");
    var t4 := ReplaceAll(t3, [RightSingle], "'");
    var t5 := ReplaceAll(t4, [LeftSingle], "'");
    var t6 := ReplaceAll(t5, [LeftDouble], "\"");
    var t7 := ReplaceAll(t6, [RightDouble], "\"");
    ReplaceRemoves(t2, MojibakeStem, "\"");
    ReplaceCharKeepsAbsent(t3, RightSingle, '\'', MojibakeStem);
    ReplaceCharKeepsAbsent(t4, LeftSingle, '\'', MojibakeStem);
    ReplaceCharKeepsAbsent(t5, LeftDouble, '"', MojibakeStem);
    ReplaceCharKeepsAbsent(t6, RightDouble, '"', MojibakeStem);
    ReplaceRemoves(t3, [RightSingle], "'");
    ReplaceCharKeepsAbsent(t4, LeftSingle, '\'', [RightSingle]);
    ReplaceCharKeepsAbsent(t5, LeftDouble, '"', [RightSingle]);
    ReplaceCharKeepsAbsent(t6, RightDouble, '"', [RightSingle]);
    ReplaceRemoves(t4, [LeftSingle], "'");
    ReplaceCharKeepsAbsent(t5, LeftDouble, '"', [LeftSingle]);
    ReplaceCharKeepsAbsent(t6, RightDouble, '"', [LeftSingle]);
    ReplaceRemoves(t5, [LeftDouble], "\"");
    ReplaceCharKeepsAbsent(t6, RightDouble, '"', [LeftDouble]);
    ReplaceRemoves(t6, [RightDouble], "\"");
    ContainsChar(t7, RightSingle);
    ContainsChar(t7, LeftSingle);
    ContainsChar(t7, LeftDouble);
    ContainsChar(t7, RightDouble);
    if Contains(t7, MojibakeRightSingle) { ContainsPrefix(t7, MojibakeRightSingle, MojibakeStem); }
    if Contains(t7, MojibakeLeftDouble) { ContainsPrefix(t7, MojibakeLeftDouble, MojibakeStem); }
  }

  /** Text holding none of the seven patterns comes back unchanged. */
  lemma CleanTextKeepsClean(text: string)
    requires HasNoPattern(text)
    ensures CleanText(text) == text
  {
    ReplaceAbsent(text, MojibakeRightSingle, "'");
    ReplaceAbsent(text, MojibakeLeftDouble, "\"");
    ReplaceAbsent(text, MojibakeStem, "\"");
    ContainsChar(text, RightSingle);
    ContainsChar(text, LeftSingle);
    ContainsChar(text, LeftDouble);
    ContainsChar(text, RightDouble);
    ReplaceAbsent(text, [RightSingle], "'");
    ReplaceAbsent(text, [LeftSingle], "'");
    ReplaceAbsent(text, [LeftDouble], "\"");
    ReplaceAbsent(text, [RightDouble], "\"");
  }

  /** Cleaning twice is cleaning once. */
  lemma CleanTextIdempotent(text: string)
    ensures CleanText(CleanText(text)) == CleanText(text)
  {
    CleanTextRemovesPatterns(text);
    CleanTextKeepsClean(CleanText(text));
  }

  /** Every pass replaces a non-empty pattern by one character, so cleaning
      never lengthens the text. */
  lemma CleanTextShortens(text: string)
    ensures |CleanText(text)| <= |text|
  {
    var t1 := ReplaceAll(text, MojibakeRightSingle, "'");
    var t2 := ReplaceAll(t1, MojibakeLeftDouble, "\"");
    var t3 := ReplaceAll(t2, MojibakeStem, "\"");
    var t4 := ReplaceAll(t3, [RightSingle], "'");
    var t5 := ReplaceAll(t4, [LeftSingle], "'");
    var t6 := ReplaceAll(t5, [LeftDouble], "\"");
    ReplaceShortens(text, MojibakeRightSingle, "'");
    ReplaceShortens(t1, MojibakeLeftDouble, "\"");
    ReplaceShortens(t2, MojibakeStem, "\"");
    ReplaceShortens(t3, [RightSingle], "'");
    ReplaceShortens(t4, [LeftSingle], "'");
    ReplaceShortens(t5, [LeftDouble], "\"");
    ReplaceShortens(t6, [RightDouble], "\"");
  }

  // ---------------------------------------------------------------------
  // Cleaning the records read_json_file loads

  /** `str(e)` for the `AttributeError` of calling `.replace` on a non-string. */
  function NoReplaceMessage(v: Json): string
  {
    "'" + TypeName(v) + "' object has no attribute 'replace'"
  }

  /** `if key in item: item[key] = clean_text(item[key])`. */
  function CleanField(item: Record, key: string): Result<Record>
  {
    if key !in item then Success(item)
    else if item[key].JStr? then Success(item[key := JStr(CleanText(item[key].s))])
    else Failure(NoReplaceMessage(item[key]))
  }

  /** The loop body for one item: its `Quote` field, then its `Author` field. */
  function CleanItem(item: Record): Result<Record>
  {
    match CleanField(item, "Quote")
    case Failure(e) => Failure(e)
    case Success(item') => CleanField(item', "Author")
  }

  /** The fields `clean_text` is applied to hold strings wherever present. */
  predicate TextFieldsAreStrings(item: Record)
  {
    ("Quote" in item ==> item["Quote"].JStr?) && ("Author" in item ==> item["Author"].JStr?)
  }

  /** The loop over a list: every item cleaned in order, or the exception of
      the first item that cannot be. */
  function CleanRecords(items: seq<Record>): Result<seq<Record>>
  {
    if items == [] then Success([])
    else match CleanItem(items[0])
      case Failure(e) => Failure(e)
      case Success(first) =>
        match CleanRecords(items[1..])
        case Failure(e) => Failure(e)
        case Success(rest) => Success([first] + rest)
  }

  /** Cleaning an item succeeds exactly when its `Quote` and `Author` are
      strings (or absent). It then rewrites just those two fields, each to
      `clean_text` of its old value, and leaves every other key as it was. A
      failure reports the `Quote` field first. */
  lemma CleanItemSpec(item: Record)
    ensures CleanItem(item).Success? <==> TextFieldsAreStrings(item)
    ensures CleanItem(item).Failure? ==>
      CleanItem(item).error == NoReplaceMessage(if "Quote" in item && !item["Quote"].JStr? then item["Quote"] else item["Author"])
    ensures CleanItem(item).Success? ==>
      var out := CleanItem(item).value;
      && out.Keys == item.Keys
      && (forall k :: k in item && k != "Quote" && k != "Author" ==> out[k] == item[k])
      && ("Quote" in item ==> out["Quote"] == JStr(CleanText(item["Quote"].s)))
      && ("Author" in item ==> out["Author"] == JStr(CleanText(item["Author"].s)))
  {
  }

  /** An item lacking both keys passes through untouched. */
  lemma CleanItemWithoutText(item: Record)
    requires "Quote" !in item && "Author" !in item
    ensures CleanItem(item) == Success(item)
  {
  }

  /** A cleaned item is a fixed point of cleaning. */
  lemma CleanItemIdempotent(item: Record)
    requires CleanItem(item).Success?
    ensures CleanItem(CleanItem(item).value) == CleanItem(item)
  {
    var out := CleanItem(item).value;
    CleanItemSpec(item);
    if "Quote" in item {
      CleanTextIdempotent(item["Quote"].s);
    }
    if "Author" in item {
      CleanTextIdempotent(item["Author"].s);
    }
    CleanItemSpec(out);
    assert CleanItem(out).value == out;
  }

  /** The list is cleaned exactly when every item is, keeping its length and
      order, item by item. */
  lemma {:induction false} CleanRecordsAll(items: seq<Record>)
    ensures CleanRecords(items).Success? <==> forall i :: 0 <= i < |items| ==> CleanItem(items[i]).Success?
    ensures CleanRecords(items).Success? ==>
      var out := CleanRecords(items).value;
      |out| == |items| && forall i :: 0 <= i < |items| ==> out[i] == CleanItem(items[i]).value
  {
    if items != [] {
      CleanRecordsAll(items[1..]);
      if forall i :: 0 <= i < |items| ==> CleanItem(items[i]).Success? {
        forall i | 0 <= i < |items[1..]| ensures CleanItem(items[1..][i]).Success? {
          assert items[1..][i] == items[i + 1];
        }
      }
      if CleanRecords(items).Success? {
        var out := CleanRecords(items).value;
        forall i | 0 <= i < |items| ensures CleanItem(items[i]).Success? && out[i] == CleanItem(items[i]).value {
          if i > 0 { assert items[i] == items[1..][i - 1]; }
        }
      }
    }
  }

  /** A failure is the exception of the first item that cannot be cleaned. */
  lemma {:induction false} CleanRecordsFirstError(items: seq<Record>, k: nat)
    requires k < |items| && CleanItem(items[k]).Failure?
    requires forall i :: 0 <= i < k ==> CleanItem(items[i]).Success?
    ensures CleanRecords(items) == Failure(CleanItem(items[k]).error)
  {
    if k > 0 {
      forall i | 0 <= i < k - 1 ensures CleanItem(items[1..][i]).Success? {
        assert items[1..][i] == items[i + 1];
      }
      assert items[1..][k - 1] == items[k];
      CleanRecordsFirstError(items[1..], k - 1);
    }
  }

  /** Cleaned records come back unchanged from a second cleaning, and their
      text fields are strings. */
  lemma CleanRecordsIdempotent(items: seq<Record>)
    requires CleanRecords(items).Success?
    ensures var out := CleanRecords(items).value;
      CleanRecords(out) == Success(out) && forall i :: 0 <= i < |out| ==> TextFieldsAreStrings(out[i])
  {
    var out := CleanRecords(items).value;
    CleanRecordsAll(items);
    forall i | 0 <= i < |out| ensures CleanItem(out[i]) == Success(out[i]) && TextFieldsAreStrings(out[i]) {
      CleanItemIdempotent(items[i]);
      CleanItemSpec(out[i]);
    }
    CleanRecordsAll(out);
    assert CleanRecords(out).value == out;
  }

  /** The cleaning loop of `read_json_file`, rewriting each item in place. On
      success the array holds the cleaned records; otherwise the error is the
      exception the loop raises. */
  method CleanRecordsInPlace(items: array<Record>) returns (error: Option<string>)
    modifies items
    ensures error.None? <==> CleanRecords(old(items[..])).Success?
    ensures error.None? ==> items[..] == CleanRecords(old(items[..])).value
    ensures error.Some? ==> CleanRecords(old(items[..])) == Failure(error.value)
  {
    ghost var before := items[..];
    for i := 0 to items.Length
      invariant items[i..] == before[i..]
      invariant forall j :: 0 <= j < i ==> CleanItem(before[j]).Success? && items[j] == CleanItem(before[j]).value
    {
      var item := items[i];
      assert item == before[i];
      if "Quote" in item {
        if !item["Quote"].JStr? {
          CleanRecordsFirstError(before, i);
          return Some(NoReplaceMessage(item["Quote"]));
        }
        item := item["Quote" := JStr(CleanText(item["Quote"].s))];
      }
      if "Author" in item {
        if !item["Author"].JStr? {
          CleanRecordsFirstError(before, i);
          return Some(NoReplaceMessage(item["Author"]));
        }
        item := item["Author" := JStr(CleanText(item["Author"].s))];
      }
      items[i] := item;
      assert items[i + 1..] == before[i + 1..];
    }
    CleanRecordsAll(before);
    error := None;
  }

  /** Cleaning a list read from a file. */
  method LoadRecords(records: seq<Record>) returns (r: Result<seq<Record>>)
    ensures r == CleanRecords(records)
  {
    var items := new Record[|records|](i requires 0 <= i < |records| => records[i]);
    assert items[..] == records;
    var error := CleanRecordsInPlace(items);
    if error.Some? {
      return Failure(error.value);
    }
    return Success(items[..]);
  }

  /** What `read_json_file` does with the decoded document: a list has its
      records cleaned; any other document is returned without modification. */
  method ReadJsonFile(doc: Document) returns (r: Result<Document>)
    ensures !doc.Records? ==> r == Success(doc)
    ensures doc.Records? ==> r == match CleanRecords(doc.items)
      case Success(items) => Success(Records(items))
      case Failure(e) => Failure(e)
  {
    if !doc.Records? {
      return Success(doc);
    }
    var cleaned := LoadRecords(doc.items);
    if cleaned.Failure? {
      return Failure(cleaned.error);
    }
    return Success(Records(cleaned.value));
  }
}
