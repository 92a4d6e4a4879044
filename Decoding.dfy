/** Decoding a message for display: the encoded words of a header
    (`EmailFetcher.decode_mime_words`) and the plain-text body
    (`EmailFetcher.extract_body`). The codec work the mail library does is
    supplied from outside as functions. */
module Decoding {
  import opened Wrappers
  import opened Text

  newtype Byte = x: int | 0 <= x < 256

  // ---------------------------------------------------------------------
  // Headers.

  /** One piece of a split header: bytes from an encoded word, with the
      charset the word names (None when it names none), or text that was
      not encoded. */
  datatype Segment = Encoded(bytes: seq<Byte>, charset: Option<string>) | Plain(text: string)

  /** The library behaviour the header decoder relies on.
      `split` is `decode_header`: None when it raises.
      `decode` is `bytes.decode(charset, errors='ignore')`: None when
      decoding raises (an unknown charset, or a codec that rejects
      `errors='ignore'`). */
  datatype HeaderCodecs = HeaderCodecs(
    split: string -> Option<seq<Segment>>,
    decode: (seq<Byte>, string) -> Option<string>)

  /** `encoding or 'utf-8'`: a missing or empty charset means UTF-8. */
  function CharsetOrDefault(charset: Option<string>): (name: string)
    ensures charset.Some? && charset.value != "" ==> name == charset.value
    ensures charset.None? || charset.value == "" ==> name == "utf-8"
    ensures name != ""
  {
    match charset
    case Some(cs) => if cs == "" then "utf-8" else cs
    case None => "utf-8"
  }

  /** The text of one segment, or None when its bytes cannot be decoded. */
  function SegmentText(seg: Segment, decode: (seq<Byte>, string) -> Option<string>): Option<string> {
    match seg
    case Plain(t) => Some(t)
    case Encoded(b, cs) => decode(b, CharsetOrDefault(cs))
  }

  /** The segments' texts concatenated in order, or None as soon as one of
      them cannot be decoded. */
  function JoinSegments(segs: seq<Segment>, decode: (seq<Byte>, string) -> Option<string>): Option<string>
    decreases |segs|
  {
    if segs == [] then Some("")
    else
      var init := JoinSegments(segs[..|segs| - 1], decode);
      var last := SegmentText(segs[|segs| - 1], decode);
      if init.None? || last.None? then None else Some(init.value + last.value)
  }

  /** What `decode_mime_words` returns: '' for None; the joined segments
      when the header splits and every segment decodes; otherwise the header
      as it was (`str(s) if s else ''` is s itself for a string). */
  function DecodedHeader(s: Option<string>, codecs: HeaderCodecs): string {
    match s
    case None => ""
    case Some(h) =>
      match codecs.split(h)
      case None => h
      case Some(segs) =>
        (match JoinSegments(segs, codecs.decode)
         case None => h
         case Some(t) => t)
  }

  /** Once a prefix fails to decode, so does the whole list. */
  lemma {:induction false} JoinSegmentsPrefixFails(segs: seq<Segment>, decode: (seq<Byte>, string) -> Option<string>, i: nat)
    requires i <= |segs| && JoinSegments(segs[..i], decode).None?
    ensures JoinSegments(segs, decode).None?
    decreases |segs| - i
  {
    if i < |segs| {
      assert segs[..i + 1][..i] == segs[..i];
      JoinSegmentsPrefixFails(segs, decode, i + 1);
    } else {
      assert segs[..i] == segs;
    }
  }

  /** `decode_mime_words`: split the header, decode each part with its
      charset (or UTF-8) and append it, and fall back to the header itself
      when splitting or decoding raises. */
  method DecodeMimeWords(s: Option<string>, codecs: HeaderCodecs) returns (r: string)
    ensures r == DecodedHeader(s, codecs)
  {
    if s.None? {
      return "";
    }
    var h := s.value;
    var parts := codecs.split(h);
    if parts.None? {
      return h;
    }
    var segs := parts.value;
    var decoded := "";
    for i := 0 to |segs|
      invariant JoinSegments(segs[..i], codecs.decode) == Some(decoded)
    {
      assert segs[..i + 1][..i] == segs[..i];
      var piece := SegmentText(segs[i], codecs.decode);
      if piece.None? {
        JoinSegmentsPrefixFails(segs, codecs.decode, i + 1);
        return h;
      }
      decoded := decoded + piece.value;
    }
    assert segs[..|segs|] == segs;
    r := decoded;
  }

  /** The texts of a list of segments that all decode. */
  function Texts(segs: seq<Segment>, decode: (seq<Byte>, string) -> Option<string>): seq<string>
    requires forall i :: 0 <= i < |segs| ==> SegmentText(segs[i], decode).Some?
  {
    seq(|segs|, i requires 0 <= i < |segs| => SegmentText(segs[i], decode).value)
  }

  /** The strings of ts one after another. */
  function Concat(ts: seq<string>): string {
    if ts == [] then "" else Concat(ts[..|ts| - 1]) + ts[|ts| - 1]
  }

  /** Joining succeeds exactly when every segment decodes, and then it is
      the concatenation of the segments' texts in order. */
  lemma {:induction false} JoinSegmentsIff(segs: seq<Segment>, decode: (seq<Byte>, string) -> Option<string>)
    ensures JoinSegments(segs, decode).Some? <==>
      forall i :: 0 <= i < |segs| ==> SegmentText(segs[i], decode).Some?
    ensures JoinSegments(segs, decode).Some? ==>
      JoinSegments(segs, decode).value == Concat(Texts(segs, decode))
    decreases |segs|
  {
    if segs != [] {
      var init := segs[..|segs| - 1];
      JoinSegmentsIff(init, decode);
      assert forall i :: 0 <= i < |init| ==> init[i] == segs[i];
      if JoinSegments(segs, decode).Some? {
        assert Texts(segs, decode)[..|segs| - 1] == Texts(init, decode);
      }
    }
  }

  /** Decoding the concatenation of two segment lists gives the two decoded
      texts one after the other, and fails when either part fails. */
  lemma {:induction false} JoinSegmentsAppend(a: seq<Segment>, b: seq<Segment>, decode: (seq<Byte>, string) -> Option<string>)
    ensures JoinSegments(a + b, decode) ==
      if JoinSegments(a, decode).Some? && JoinSegments(b, decode).Some?
      then Some(JoinSegments(a, decode).value + JoinSegments(b, decode).value)
      else None
    decreases |b|
  {
    if b == [] {
      assert a + b == a;
      if JoinSegments(a, decode).Some? {
        assert JoinSegments(a, decode).value + "" == JoinSegments(a, decode).value;
      }
    } else {
      var b' := b[..|b| - 1];
      assert (a + b)[..|a + b| - 1] == a + b';
      assert (a + b)[|a + b| - 1] == b[|b| - 1];
      JoinSegmentsAppend(a, b', decode);
      var ja, jb', last := JoinSegments(a, decode), JoinSegments(b', decode), SegmentText(b[|b| - 1], decode);
      if ja.Some? && jb'.Some? && last.Some? {
        assert ja.value + jb'.value + last.value == ja.value + (jb'.value + last.value);
      }
    }
  }

  /** A missing header decodes to the empty string. */
  lemma MissingHeader(codecs: HeaderCodecs)
    ensures DecodedHeader(None, codecs) == ""
  {
  }

  /** A header with no encoded words comes back as the concatenation of its
      plain pieces. */
  lemma PlainHeader(h: string, codecs: HeaderCodecs, texts: seq<string>)
    requires codecs.split(h).Some? && |codecs.split(h).value| == |texts|
    requires forall i :: 0 <= i < |texts| ==> codecs.split(h).value[i] == Plain(texts[i])
    ensures DecodedHeader(Some(h), codecs) == Concat(texts)
  {
    var segs := codecs.split(h).value;
    JoinSegmentsIff(segs, codecs.decode);
    assert Texts(segs, codecs.decode) == texts;
  }

  /** A header the library cannot split, or with a segment in an unknown
      charset, is returned unchanged. */
  lemma UndecodableHeader(h: string, codecs: HeaderCodecs)
    requires codecs.split(h).None? ||
      exists i :: 0 <= i < |codecs.split(h).value| && SegmentText(codecs.split(h).value[i], codecs.decode).None?
    ensures DecodedHeader(Some(h), codecs) == h
  {
    if codecs.split(h).Some? {
      JoinSegmentsIff(codecs.split(h).value, codecs.decode);
    }
  }

  // ---------------------------------------------------------------------
  // Bodies.

  /** What `get_payload(decode=True)` gives for a part: it raises, it gives
      None, or it gives bytes (possibly none). */
  datatype Payload = PayloadError | NoPayload | Payload(raw: seq<Byte>)

  /** One part of `msg.walk()`: its content type and its payload. */
  datatype Part = Part(contentType: string, payload: Payload)

  /** A message is either multipart, with the parts `walk()` visits in
      order, or a single part with one payload. */
  datatype Message = Multipart(parts: seq<Part>) | SinglePart(payload: Payload)

  /** The text of a payload that is present and non-empty
      (`payload.decode('utf-8', errors='ignore')`); None for a payload that
      raises, is None, or is empty. */
  function PayloadText(p: Payload, utf8: seq<Byte> -> string): (t: Option<string>)
    ensures t.Some? <==> p.Payload? && p.raw != []
  {
    if p.Payload? && p.raw != [] then Some(utf8(p.raw)) else None
  }

  /** A part the body is taken from: plain text with a non-empty payload. */
  predicate Selectable(part: Part, utf8: seq<Byte> -> string) {
    part.contentType == "text/plain" && PayloadText(part.payload, utf8).Some?
  }

  /** The text of the first selectable part, if any. */
  function FirstPlainText(parts: seq<Part>, utf8: seq<Byte> -> string): Option<string> {
    if parts == [] then None
    else if Selectable(parts[0], utf8) then PayloadText(parts[0].payload, utf8)
    else FirstPlainText(parts[1..], utf8)
  }

  /** The body text before clean-up: the first plain-text part of a
      multipart message, the payload of any other message, '' when there is
      none. A single-part message's content type is not looked at. */
  function RawBody(msg: Message, utf8: seq<Byte> -> string): string {
    match msg
    case Multipart(parts) =>
      (match FirstPlainText(parts, utf8)
       case Some(t) => t
       case None => "")
    case SinglePart(p) =>
      match PayloadText(p, utf8)
      case Some(t) => t
      case None => ""
  }

  /** `extract_body`: walk the parts until the first plain-text part with a
      non-empty payload (skipping parts whose payload raises), decode it,
      then strip it and collapse every run of whitespace to one space. */
  method ExtractBody(msg: Message, utf8: seq<Byte> -> string) returns (body: string)
    ensures body == Normalize(RawBody(msg, utf8))
  {
    var text := "";
    if msg.Multipart? {
      var parts := msg.parts;
      var i := 0;
      while i < |parts|
        invariant 0 <= i <= |parts|
        invariant FirstPlainText(parts, utf8) == FirstPlainText(parts[i..], utf8)
        invariant text == ""
      {
        var part := parts[i];
        if part.contentType == "text/plain" {
          var payload := part.payload;
          if payload.Payload? && payload.raw != [] {
            text := utf8(payload.raw);
            FirstPlainTextAt(parts, i, utf8);
            break;
          }
        }
        FirstPlainTextAt(parts, i, utf8);
        i := i + 1;
      }
    } else {
      var payload := msg.payload;
      if payload.Payload? && payload.raw != [] {
        text := utf8(payload.raw);
      }
    }
    assert text == RawBody(msg, utf8);
    body := Normalize(text);
  }

  /** One step of the walk: the search from part i either stops at part i
      or goes on from part i + 1. */
  lemma FirstPlainTextAt(parts: seq<Part>, i: nat, utf8: seq<Byte> -> string)
    requires i < |parts|
    ensures FirstPlainText(parts[i..], utf8) ==
      if Selectable(parts[i], utf8) then Some(utf8(parts[i].payload.raw))
      else FirstPlainText(parts[i + 1..], utf8)
  {
    assert parts[i..][1..] == parts[i + 1..];
  }

  /** Part i is selectable and no part before it is. */
  predicate IsFirstSelectable(parts: seq<Part>, i: int, utf8: seq<Byte> -> string) {
    && 0 <= i < |parts|
    && Selectable(parts[i], utf8)
    && forall j :: 0 <= j < i ==> !Selectable(parts[j], utf8)
  }

  /** The first plain-text part is found exactly when some part is
      selectable, and it is the earliest such part. */
  lemma {:induction false} FirstPlainTextIff(parts: seq<Part>, utf8: seq<Byte> -> string)
    ensures FirstPlainText(parts, utf8).None? <==>
      forall i :: 0 <= i < |parts| ==> !Selectable(parts[i], utf8)
    ensures forall i :: IsFirstSelectable(parts, i, utf8) ==>
      FirstPlainText(parts, utf8) == Some(utf8(parts[i].payload.raw))
    decreases |parts|
  {
    if parts != [] {
      var rest := parts[1..];
      FirstPlainTextIff(rest, utf8);
      assert forall i :: 1 <= i < |parts| ==> parts[i] == rest[i - 1];
      forall i | IsFirstSelectable(parts, i, utf8)
        ensures FirstPlainText(parts, utf8) == Some(utf8(parts[i].payload.raw))
      {
        if i > 0 {
          assert !Selectable(parts[0], utf8);
          assert forall j :: 0 <= j < i - 1 ==> !Selectable(rest[j], utf8);
          assert Selectable(rest[i - 1], utf8);
        }
      }
    }
  }

  /** The extracted body is normalised: no whitespace at either end, only
      plain spaces, never two in a row. */
  lemma ExtractedBodyIsNormal(msg: Message, utf8: seq<Byte> -> string)
    ensures IsNormal(Normalize(RawBody(msg, utf8)))
  {
    NormalizeShape(RawBody(msg, utf8));
  }

  /** The extracted body keeps exactly the words of the payload text, in
      order, joined by single spaces. */
  lemma ExtractedBodyWords(msg: Message, utf8: seq<Byte> -> string)
    ensures Words(Normalize(RawBody(msg, utf8))) == Words(RawBody(msg, utf8))
    ensures Normalize(RawBody(msg, utf8)) == Join(Words(RawBody(msg, utf8)))
  {
    var raw := RawBody(msg, utf8);
    NormalizeIsJoinWords(raw);
    WordsAreWords(raw);
    WordsJoin(Words(raw));
  }
}
