/** `EmailFetcher.fetch_emails`: take the most recent message ids of the
    inbox, fetch them newest first, skip the ones that fail, and turn each
    of the others into a record with a decoded subject, a cleaned-up body
    preview and a category. The mail server is a function from ids to
    replies. */
module Fetcher {
  import opened Wrappers
  import opened Text
  import opened Classifier
  import opened Decoding

  /** The answer to the search for all messages: failed (status not OK) or
      the ids, oldest first. */
  datatype SearchReply = SearchError | SearchOk(ids: seq<string>)

  /** A fetched message: its Subject, From and Date headers (None when the
      header is absent) and its content. */
  datatype RawMessage = RawMessage(subject: Option<string>, sender: Option<string>,
                                   date: Option<string>, content: Message)

  /** The answer to fetching one id: a failure (status not OK, no data, or
      an exception while fetching) or the message. */
  datatype FetchReply = FetchFailed | FetchOk(msg: RawMessage)

  /** One row of the result. */
  datatype EmailRecord = EmailRecord(id: string, subject: string, sender: string,
                                     date: string, body: string, category: Category)

  /** Why the whole fetch fails. */
  datatype FetchError = FailedToSearch

  /** The longest body kept in a record before it is cut short. */
  const PreviewLength := 300

  /** `s[start:]` with Python's meaning for any integer start: a negative
      start counts from the end, and out-of-range starts are clamped. */
  function SliceFrom<T>(s: seq<T>, start: int): (r: seq<T>)
    ensures |r| <= |s| && r == s[|s| - |r|..]
    ensures start >= 0 ==> |r| == if start <= |s| then |s| - start else 0
    ensures start < 0 ==> |r| == if -start <= |s| then -start else |s|
  {
    if start < 0 then
      (if -start <= |s| then s[|s| + start..] else s)
    else if start <= |s| then s[start..]
    else []
  }

  /** The ids the fetcher looks at: the last n when there are more than n,
      all of them otherwise. */
  function Recent(ids: seq<string>, n: int): seq<string> {
    if |ids| > n then SliceFrom(ids, -n) else ids
  }

  /** The recent ids are the tail of the list: the last n of them for a
      positive n, all of them when n is 0 (`s[-0:]` is the whole list),
      and all but the first -n of them for a negative n. */
  lemma RecentShape(ids: seq<string>, n: int)
    ensures var r := Recent(ids, n); |r| <= |ids| && r == ids[|ids| - |r|..]
    ensures n >= 1 ==> |Recent(ids, n)| == if |ids| <= n then |ids| else n
    ensures n == 0 ==> Recent(ids, n) == ids
    ensures n < 0 ==> |Recent(ids, n)| == if -n <= |ids| then |ids| + n else 0
  {
    if n < 0 && -n > |ids| {
      assert |ids| > n;
    }
  }

  /** s back to front. */
  function Reversed<T>(s: seq<T>): (r: seq<T>)
    ensures |r| == |s|
    ensures forall i :: 0 <= i < |s| ==> r[i] == s[|s| - 1 - i]
  {
    seq(|s|, i requires 0 <= i < |s| => s[|s| - 1 - i])
  }

  /** `b[:300] + '...' if len(b) > 300 else b`. */
  function Preview(b: string): (r: string)
    ensures |r| <= PreviewLength + 3
    ensures |b| <= PreviewLength ==> r == b
    ensures |b| > PreviewLength ==> |r| == PreviewLength + 3 && r[..PreviewLength] == b[..PreviewLength] && r[PreviewLength..] == "..."
  {
    if |b| > PreviewLength then b[..PreviewLength] + "..." else b
  }

  /** The record made from a fetched message: the subject decoded, the body
      extracted and cut short for display, and the category computed from
      the decoded subject and the whole cleaned-up body. */
  function Record(id: string, m: RawMessage, codecs: HeaderCodecs, utf8: seq<Byte> -> string): EmailRecord {
    var subject := DecodedHeader(Some(OrEmpty(m.subject)), codecs);
    var body := Normalize(RawBody(m.content, utf8));
    EmailRecord(id, subject, OrEmpty(m.sender), OrEmpty(m.date), Preview(body),
                ClassifyText(DefaultTable, SearchText(Some(subject), Some(body))))
  }

  /** The ids visited in order whose fetch succeeds, each with its message. */
  function Fetched(visit: seq<string>, fetch: string -> FetchReply): (fs: seq<(string, RawMessage)>)
    ensures |fs| <= |visit|
  {
    if visit == [] then []
    else
      var id := visit[|visit| - 1];
      Fetched(visit[..|visit| - 1], fetch) +
        match fetch(id)
        case FetchFailed => []
        case FetchOk(m) => [(id, m)]
  }

  /** The record of each fetched message, in order. */
  function Records(fs: seq<(string, RawMessage)>, codecs: HeaderCodecs, utf8: seq<Byte> -> string): (rs: seq<EmailRecord>)
    ensures |rs| == |fs|
  {
    seq(|fs|, k requires 0 <= k < |fs| => Record(fs[k].0, fs[k].1, codecs, utf8))
  }

  /** What `fetch_emails` returns. */
  function FetchResult(search: SearchReply, n: int, fetch: string -> FetchReply,
                       codecs: HeaderCodecs, utf8: seq<Byte> -> string): Result<seq<EmailRecord>, FetchError>
  {
    match search
    case SearchError => Failure(FailedToSearch)
    case SearchOk(ids) =>
      if ids == [] then Success([])
      else Success(Records(Fetched(Reversed(Recent(ids, n)), fetch), codecs, utf8))
  }

  /** One more id visited adds its message when the fetch succeeds. */
  lemma FetchedStep(visit: seq<string>, i: nat, fetch: string -> FetchReply)
    requires i < |visit|
    ensures Fetched(visit[..i + 1], fetch) ==
      Fetched(visit[..i], fetch) + if fetch(visit[i]).FetchOk? then [(visit[i], fetch(visit[i]).msg)] else []
  {
    assert visit[..i + 1][..i] == visit[..i];
  }

  lemma RecordsAppend(fs: seq<(string, RawMessage)>, id: string, m: RawMessage,
                      codecs: HeaderCodecs, utf8: seq<Byte> -> string)
    ensures Records(fs + [(id, m)], codecs, utf8) == Records(fs, codecs, utf8) + [Record(id, m, codecs, utf8)]
  {
  }

  /** `fetch_emails`: search, keep the recent ids, and walk them newest
      first; each message that is fetched is decoded, cleaned up, classified
      and appended, each one that fails is skipped. */
  method FetchEmails(search: SearchReply, n: int, fetch: string -> FetchReply,
                     codecs: HeaderCodecs, utf8: seq<Byte> -> string)
    returns (r: Result<seq<EmailRecord>, FetchError>)
    ensures r == FetchResult(search, n, fetch, codecs, utf8)
  {
    if search.SearchError? {
      return Failure(FailedToSearch);
    }
    var ids := search.ids;
    if ids == [] {
      return Success([]);
    }
    var recent := Recent(ids, n);
    var visit := Reversed(recent);
    var emails: seq<EmailRecord> := [];
    DefaultTableWellFormed();
    for i := 0 to |visit|
      invariant emails == Records(Fetched(visit[..i], fetch), codecs, utf8)
    {
      FetchedStep(visit, i, fetch);
      var id := visit[i];
      var reply := fetch(id);
      if reply.FetchFailed? {
        assert Fetched(visit[..i + 1], fetch) == Fetched(visit[..i], fetch) + [];
        continue;
      }
      var m := reply.msg;
      var subject := DecodeMimeWords(Some(OrEmpty(m.subject)), codecs);
      var body := ExtractBody(m.content, utf8);
      var category := Classify(DefaultTable, Some(subject), Some(body));
      RecordsAppend(Fetched(visit[..i], fetch), id, m, codecs, utf8);
      emails := emails + [EmailRecord(id, subject, OrEmpty(m.sender), OrEmpty(m.date), Preview(body), category)];
    }
    assert visit[..|visit|] == visit;
    return Success(emails);
  }

  // ---------------------------------------------------------------------
  // Properties of the result.

  /** The server's reply to fetching p.0 was the message p.1. */
  predicate ServerSent(p: (string, RawMessage), fetch: string -> FetchReply) {
    fetch(p.0) == FetchOk(p.1)
  }

  /** Every fetched message is what the server returned for its id, and the
      ids come in visiting order. */
  lemma {:induction false} FetchedFromServer(visit: seq<string>, fetch: string -> FetchReply)
    ensures forall k :: 0 <= k < |Fetched(visit, fetch)| ==> ServerSent(Fetched(visit, fetch)[k], fetch)
    decreases |visit|
  {
    if visit != [] {
      var init := visit[..|visit| - 1];
      var id := visit[|visit| - 1];
      FetchedFromServer(init, fetch);
      var fs0 := Fetched(init, fetch);
      var fs := Fetched(visit, fetch);
      match fetch(id)
      case FetchFailed =>
        assert fs == fs0 + [];
        assert fs0 + [] == fs0;
      case FetchOk(m) =>
        assert fs == fs0 + [(id, m)];
        assert fs[|fs0|] == (id, m);
        assert forall k :: 0 <= k < |fs0| ==> fs[k] == fs0[k];
    }
  }

  /** The ids of a list of fetched messages. */
  function FetchedIds(fs: seq<(string, RawMessage)>): (r: seq<string>)
    ensures |r| == |fs|
    ensures forall k :: 0 <= k < |fs| ==> r[k] == fs[k].0
  {
    seq(|fs|, k requires 0 <= k < |fs| => fs[k].0)
  }

  /** The ids of s whose fetch succeeds, in order: an independent filter. */
  function Succeeded(s: seq<string>, fetch: string -> FetchReply): (r: seq<string>)
    ensures |r| <= |s|
  {
    if s == [] then []
    else (if fetch(s[0]).FetchOk? then [s[0]] else []) + Succeeded(s[1..], fetch)
  }

  lemma {:induction false} SucceededAppend(a: seq<string>, b: seq<string>, fetch: string -> FetchReply)
    ensures Succeeded(a + b, fetch) == Succeeded(a, fetch) + Succeeded(b, fetch)
    decreases |a|
  {
    if a != [] {
      assert (a + b)[1..] == a[1..] + b;
      SucceededAppend(a[1..], b, fetch);
    } else {
      assert a + b == b;
    }
  }

  /** The fetched ids are exactly the visited ids whose fetch succeeds. */
  lemma {:induction false} FetchedIdsSucceeded(visit: seq<string>, fetch: string -> FetchReply)
    ensures FetchedIds(Fetched(visit, fetch)) == Succeeded(visit, fetch)
    decreases |visit|
  {
    if visit != [] {
      var init := visit[..|visit| - 1];
      var id := visit[|visit| - 1];
      FetchedIdsSucceeded(init, fetch);
      assert visit == init + [id];
      SucceededAppend(init, [id], fetch);
      var tail: seq<(string, RawMessage)> := if fetch(id).FetchOk? then [(id, fetch(id).msg)] else [];
      assert Fetched(visit, fetch) == Fetched(init, fetch) + tail;
      assert FetchedIds(Fetched(init, fetch) + tail) == FetchedIds(Fetched(init, fetch)) + FetchedIds(tail);
    }
  }

  /** Reversing twice gives the list back. */
  lemma ReversedTwice<T>(s: seq<T>)
    ensures Reversed(Reversed(s)) == s
  {
  }

  /** Reversing keeps every element with its multiplicity. */
  lemma {:induction false} ReversedSameElements<T>(s: seq<T>)
    ensures multiset(Reversed(s)) == multiset(s)
    decreases |s|
  {
    if s != [] {
      var rest := s[1..];
      ReversedSameElements(rest);
      assert Reversed(s) == Reversed(rest) + [s[0]];
      assert s == [s[0]] + rest;
    }
  }

  /** Reversing a concatenation reverses and swaps the parts. */
  lemma ReversedAppend<T>(a: seq<T>, b: seq<T>)
    ensures Reversed(a + b) == Reversed(b) + Reversed(a)
  {
  }

  /** Walking the ids newest first and keeping the successful ones is the
      same as keeping the successful ones and reversing them. */
  lemma {:induction false} SucceededReversed(s: seq<string>, fetch: string -> FetchReply)
    ensures Succeeded(Reversed(s), fetch) == Reversed(Succeeded(s, fetch))
    decreases |s|
  {
    if s != [] {
      var rest := s[1..];
      assert Reversed(s) == Reversed(rest) + [s[0]];
      SucceededAppend(Reversed(rest), [s[0]], fetch);
      SucceededReversed(rest, fetch);
      ReversedAppend(if fetch(s[0]).FetchOk? then [s[0]] else [], Succeeded(rest, fetch));
    }
  }

  /** The records come newest first: their ids are the recent ids whose
      fetch succeeded, in reverse mailbox order, and each record is made
      from the message the server returned for its id. */
  lemma FetchResultRecords(ids: seq<string>, n: int, fetch: string -> FetchReply,
                           codecs: HeaderCodecs, utf8: seq<Byte> -> string)
    ensures var r := FetchResult(SearchOk(ids), n, fetch, codecs, utf8);
      && r.Success?
      && |r.value| == |Succeeded(Recent(ids, n), fetch)|
      && (forall k :: 0 <= k < |r.value| ==> r.value[k].id == Reversed(Succeeded(Recent(ids, n), fetch))[k])
      && (forall k :: 0 <= k < |r.value| ==>
            fetch(r.value[k].id).FetchOk? && r.value[k] == Record(r.value[k].id, fetch(r.value[k].id).msg, codecs, utf8))
  {
    var visit := Reversed(Recent(ids, n));
    if ids == [] {
      assert Recent(ids, n) == [];
    } else {
      FetchedFromServer(visit, fetch);
      FetchedIdsSucceeded(visit, fetch);
      SucceededReversed(Recent(ids, n), fetch);
    }
  }

  /** When no fetch fails, there is one record per recent id. */
  lemma {:induction false} SucceededAll(visit: seq<string>, fetch: string -> FetchReply)
    requires forall k :: 0 <= k < |visit| ==> fetch(visit[k]).FetchOk?
    ensures Succeeded(visit, fetch) == visit
    decreases |visit|
  {
    if visit != [] {
      SucceededAll(visit[1..], fetch);
    }
  }

  /** Every record shows a body of at most 303 characters, the first 300 of
      the cleaned-up body followed by "..." when that body is longer; its
      category is the classifier's answer for the decoded subject and the
      whole cleaned-up body, not for the preview. */
  lemma RecordShape(id: string, m: RawMessage, codecs: HeaderCodecs, utf8: seq<Byte> -> string)
    ensures var rec := Record(id, m, codecs, utf8);
      var full := Normalize(RawBody(m.content, utf8));
      && |rec.body| <= PreviewLength + 3
      && (|full| <= PreviewLength ==> rec.body == full)
      && (|full| > PreviewLength ==> rec.body == full[..PreviewLength] + "...")
      && rec.category == ClassifyText(DefaultTable, SearchText(Some(rec.subject), Some(full)))
      && IsNormal(full)
  {
    NormalizeShape(RawBody(m.content, utf8));
  }

  /** With every fetch succeeding and no more than n messages in the inbox,
      there is one record per message, newest first. */
  lemma FetchAllNewestFirst(ids: seq<string>, n: int, fetch: string -> FetchReply,
                            codecs: HeaderCodecs, utf8: seq<Byte> -> string)
    requires |ids| <= n
    requires forall k :: 0 <= k < |ids| ==> fetch(ids[k]).FetchOk?
    ensures var r := FetchResult(SearchOk(ids), n, fetch, codecs, utf8);
      && r.Success?
      && |r.value| == |ids|
      && forall k :: 0 <= k < |ids| ==> r.value[k].id == ids[|ids| - 1 - k]
  {
    assert Recent(ids, n) == ids;
    SucceededAll(ids, fetch);
    FetchResultRecords(ids, n, fetch, codecs, utf8);
  }
}
