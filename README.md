# Email classifier: a verified model

This project models the core of a small web service. The service reads the
most recent messages of an IMAP inbox and sorts each one into a category:
work, personal, shopping, finance, social, spam or other. The modelled code
is `EmilClassifer.py`. The model has four parts:

- **Keyword classifier** (`Classifier`, from `EmailClassifier`). The search
  text is `lower(subject + " " + body)`, with a missing part counting as
  empty. A category's score is how many of its keywords occur in that text.
  The answer is the first category in table order that reaches the highest
  score, or `other` when every score is 0.
- **Header decoding** (`Decoding.DecodeMimeWords`, from
  `decode_mime_words`). The header is split into segments. Each encoded
  segment is decoded with its charset, or UTF-8 when it names none, and the
  pieces are concatenated in order. A missing header gives `''`. Any failure
  gives the header back unchanged.
- **Body extraction** (`Decoding.ExtractBody`, from `extract_body`). For a
  multipart message, the body is the first `text/plain` part with a
  non-empty payload. For any other message it is the single payload. The
  text is then stripped, and each run of whitespace becomes one space.
- **Batch assembly** (`Fetcher.FetchEmails`, from `fetch_emails`).
  - Keep the last `num_emails` ids, with Python's slice meaning for any
    integer, and visit them newest first.
  - Skip every message whose fetch fails.
  - Build one record per remaining message. The record holds the decoded
    subject and a preview of the cleaned-up body: 300 characters, plus
    `...` when longer. Its category is computed from the whole body.

The library calls are parameters of the model: `decode_header`,
`bytes.decode`, the message parser and the IMAP search and fetch. The
`Text` module supplies the string operations the service relies on:
- `str.lower` on ASCII;
- substring search (`in`);
- `str.strip`;
- `re.sub(r'\s+', ' ', ...)`, over the characters Python treats as
  whitespace.

The clean-up is proved equal to "split into words, join with single
spaces". That reference is also used to prove the clean-up's shape and
that it is idempotent.

For a multipart message with no usable `text/plain` part, the code returns
an empty body and does not fall back to another part; the model follows the
code (`Decoding.RawBody`).

## Model

| member | source | states |
|---|---|---|
| Text.LowerIdempotent | EmilClassifer.py:309 | lower-casing twice is lower-casing once |
| Text.LowerAppend | EmilClassifer.py:309 | lower-casing a concatenation lower-cases each part |
| Text.OccursIff | EmilClassifer.py:313 | the substring test holds exactly when the keyword appears at some position of the text |
| Text.DropSpaces | EmilClassifer.py:428 | the leading part of `strip`: removes a prefix made only of whitespace, and the rest is empty or starts with a non-whitespace character |
| Text.TrimEnd | EmilClassifer.py:428 | the trailing part of `strip`: removes a suffix made only of whitespace, and the rest is empty or ends with a non-whitespace character |
| Text.WordsStrip | EmilClassifer.py:428 | stripping keeps the words of a string |
| Text.CollapseTrimmed | EmilClassifer.py:428 | collapsing the whitespace runs of a stripped string joins its words with single spaces |
| Text.NormalizeIsJoinWords | EmilClassifer.py:428 | strip-then-collapse equals splitting into words and joining them with single spaces |
| Text.WordsAreWords | EmilClassifer.py:428 | every word of a string is non-empty and has no whitespace |
| Text.JoinNormal | EmilClassifer.py:428 | words joined with single spaces have no whitespace at either end, no whitespace but plain spaces, and never two in a row |
| Text.NormalizeShape | EmilClassifer.py:428 | a cleaned-up body has no whitespace at either end, its only whitespace is the plain space, and no two whitespace characters are adjacent |
| Text.WordsJoin | EmilClassifer.py:428 | splitting words joined with single spaces gives the words back |
| Text.NormalizeIdempotent | EmilClassifer.py:428 | cleaning up a cleaned-up body changes nothing |
| Classifier.DefaultTableWellFormed | EmilClassifer.py:299-306 | the default table has six entries, work, personal, shopping, finance, social and spam in that order, each category once and `other` not among them |
| Classifier.Score | EmilClassifer.py:313 | a score is at most the number of keywords |
| Classifier.ScoreIsMatchedCount | EmilClassifer.py:313 | for distinct keywords, the score is the number of keywords that occur in the text, each counted once however often it occurs |
| Classifier.DefaultKeywordsDistinct | EmilClassifer.py:299-306 | no category of the default table lists a keyword twice |
| Classifier.DefaultScoreIsMatchedCount | EmilClassifer.py:299-313 | with the default table, each category's score is the number of its keywords found in the text, each counted once |
| Classifier.ScoreZeroIff | EmilClassifer.py:313-317 | a score is 0 exactly when none of the keywords occurs |
| Classifier.FirstMaxIndex | EmilClassifer.py:319 | returns a position holding the maximum, with every earlier position strictly smaller |
| Classifier.Classify | EmilClassifer.py:308-319 | the loops compute the classification of the lower-cased `(subject or '') + " " + (body or '')` |
| Classifier.ClassifyOtherIff | EmilClassifer.py:317-318 | the answer is `other` exactly when every category scores 0 |
| Classifier.ClassifyOtherIffNoKeyword | EmilClassifer.py:313-318 | the answer is `other` exactly when no keyword of any category occurs in the text |
| Classifier.ClassifyWinner | EmilClassifer.py:319 | a non-`other` answer is the category of an entry with a positive score, no entry scores more, and every earlier entry scores strictly less |
| Classifier.ClassifySole | EmilClassifer.py:317-319 | when exactly one entry scores above 0, its category is the answer |
| Classifier.ClassifyTieGoesFirst | EmilClassifer.py:319 | of two entries with equal scores, the later one is never the answer |
| Classifier.ClassifyIgnoresCase | EmilClassifer.py:309 | lower-casing the subject and body first does not change the answer |
| Decoding.CharsetOrDefault | EmilClassifer.py:399 | a missing or empty charset means `utf-8`, and a named charset is kept |
| Decoding.JoinSegmentsPrefixFails | EmilClassifer.py:397-403 | once a prefix of the segments fails to decode, the whole header fails |
| Decoding.DecodeMimeWords | EmilClassifer.py:391-404 | the loop returns `''` for None, the concatenated segments when all decode, and the header itself when splitting or decoding raises |
| Decoding.JoinSegmentsIff | EmilClassifer.py:397-402 | joining succeeds exactly when every segment decodes, and then it is the concatenation of their texts in order |
| Decoding.JoinSegmentsAppend | EmilClassifer.py:397-402 | decoding two lists of segments one after the other gives the two texts concatenated, and fails when either fails |
| Decoding.MissingHeader | EmilClassifer.py:392-393 | a missing header decodes to `''` |
| Decoding.PlainHeader | EmilClassifer.py:400-402 | a header with no encoded words decodes to the concatenation of its plain pieces |
| Decoding.UndecodableHeader | EmilClassifer.py:403-404 | a header that does not split, or that has a segment in an unknown charset, is returned unchanged |
| Decoding.ExtractBody | EmilClassifer.py:406-429 | the loop stops at the first plain-text part with a non-empty payload (the single payload for a non-multipart message) and returns its cleaned-up text, or `''` when there is none |
| Decoding.FirstPlainTextAt | EmilClassifer.py:410-418 | the search from a part either stops there or continues from the next part |
| Decoding.FirstPlainTextIff | EmilClassifer.py:409-418 | no body is found exactly when no part is selectable, and otherwise the body is the text of the earliest selectable part |
| Decoding.ExtractedBodyIsNormal | EmilClassifer.py:428 | an extracted body has no whitespace at the ends and no run of whitespace longer than one plain space |
| Decoding.ExtractedBodyWords | EmilClassifer.py:428 | an extracted body keeps the words of the payload text in order, joined by single spaces |
| Fetcher.SliceFrom | EmilClassifer.py:353 | Python's `s[start:]` is a suffix of s whose length depends on the sign and range of start |
| Fetcher.RecentShape | EmilClassifer.py:353 | the selected ids are a suffix: the last n for n ≥ 1, all of them for n = 0, and all but the first -n for negative n |
| Fetcher.ReversedTwice | EmilClassifer.py:356 | reversing the selected ids twice gives them back |
| Fetcher.ReversedSameElements | EmilClassifer.py:356 | the newest-first walk visits every selected id, each as often as it is selected |
| Fetcher.ReversedAppend | EmilClassifer.py:356 | reversing a concatenation reverses the parts and swaps them |
| Fetcher.Preview | EmilClassifer.py:380 | a body of at most 300 characters is kept, a longer one becomes its first 300 characters and `...` (303 in all) |
| Fetcher.Fetched | EmilClassifer.py:356-360 | the successful fetches are no more than the ids visited |
| Fetcher.Records | EmilClassifer.py:375-382 | one record per fetched message |
| Fetcher.FetchedStep | EmilClassifer.py:356-360 | visiting one more id adds its message exactly when its fetch succeeds |
| Fetcher.RecordsAppend | EmilClassifer.py:375-382 | appending a fetched message appends its record |
| Fetcher.FetchEmails | EmilClassifer.py:339-389 | the loop returns the failure for a failed search, `[]` for an empty inbox, and otherwise the records of the recent ids fetched newest first, with failed fetches skipped |
| Fetcher.FetchedFromServer | EmilClassifer.py:358-362 | every fetched message is the server's reply for its own id |
| Fetcher.Succeeded | EmilClassifer.py:357-385 | the ids whose fetch succeeds number no more than the ids visited |
| Fetcher.SucceededAppend | EmilClassifer.py:356-360 | filtering a concatenation filters each part |
| Fetcher.FetchedIdsSucceeded | EmilClassifer.py:356-360 | the fetched ids are exactly the visited ids whose fetch succeeds, in visiting order |
| Fetcher.SucceededReversed | EmilClassifer.py:356 | filtering the newest-first walk equals reversing the filtered ids |
| Fetcher.FetchResultRecords | EmilClassifer.py:348-387 | the result holds one record per recent id whose fetch succeeds, newest first, each made from the message returned for its own id |
| Fetcher.SucceededAll | EmilClassifer.py:357-360 | when no fetch fails, no id is dropped |
| Fetcher.RecordShape | EmilClassifer.py:365-381 | a record's body is at most 303 characters and is the preview of the cleaned-up body, and its category is the classifier's answer for the decoded subject and the whole cleaned-up body |
| Fetcher.FetchAllNewestFirst | EmilClassifer.py:348-387 | with no more messages than `num_emails` and no failed fetch, there is one record per message, newest first |

## Left out

- The Flask routes, request checking and JSON responses: HTTP glue around the core.
- The HTML, CSS and JavaScript template: front-end markup held in a string.
- `connect_to_email`, `mail.select`, `mail.close` and `mail.logout`: network I/O. The search and per-id fetch are parameters (`SearchReply`, `fetch`). The mailbox selection's answer is ignored by the code and is not modelled.
- `email.message_from_bytes`, `decode_header`, `get_payload` and byte decoding with `errors='ignore'`: library and charset behaviour. They are parameters: a message is a list of parts, a header is a list of segments, and `decode` and `utf8` are functions.
- Decoding an id from bytes (`email_id.decode()`): ids are modelled as strings.
- The text of exception messages and the `print` logging. A failed search is `Failure(FailedToSearch)`. A failed or raising per-message step is `FetchFailed` and is skipped. Failures inside the library calls that the code catches and replaces by a whole-call failure are not modelled.
- Text.Lower: lower-cases ASCII letters only, while Python's `str.lower` also lower-cases other scripts.
- Classifier.Classify: requires a non-empty table, since `max` of an empty score dict raises. The classifier's table is always the six-entry default, and the `scores` dict is modelled as a sequence in table order.
