/** The incremental STOMP frame decoder of src/frame.rs: given the bytes
    received so far, either report that no complete frame is there yet, or
    return the first frame together with the number of leading bytes it takes.

    A frame on the wire is a header block, the separator "\n\n", a body and
    one trailing byte. The body is delimited by the `content-length` header
    when one is present (the trailing byte is then skipped without being
    looked at), and otherwise by the first NUL byte after the separator. */
module Frame {
  import opened Options
  import opened Bytes
  import opened Headers

  /** `StompFrame`. `headers` is the header block as received; the source
      keeps its lossy UTF-8 decoding instead, which nothing downstream reads. */
  datatype StompFrame = StompFrame(headers: seq<byte>, body: seq<byte>)

  /** The number of bytes a frame occupies on the wire: header block,
      separator, body and the trailing byte. */
  function Size(f: StompFrame): nat
  {
    |f.headers| + 2 + |f.body| + 1
  }

  // ---------------------------------------------------------------- header block

  /** `data` holds the separator "\n\n" at index `i`. */
  predicate SeparatorAt(data: seq<byte>, i: int)
  {
    0 <= i && i + 1 < |data| && data[i] == LF && data[i + 1] == LF
  }

  /** `pos` is the first index of the separator in `data`. */
  ghost predicate FirstSeparator(data: seq<byte>, pos: nat)
  {
    SeparatorAt(data, pos) && forall j :: 0 <= j < pos ==> !SeparatorAt(data, j)
  }

  /** The first separator at or after `from` (the search of `windows(2).position`). */
  function FindSeparator(data: seq<byte>, from: nat): (r: Option<nat>)
    requires from <= |data|
    decreases |data| - from
    ensures r.Some? ==> from <= r.value && SeparatorAt(data, r.value)
    ensures r.Some? ==> forall j :: from <= j < r.value ==> !SeparatorAt(data, j)
    ensures r.None? <==> forall j :: from <= j ==> !SeparatorAt(data, j)
  {
    if from + 1 >= |data| then None
    else if data[from] == LF && data[from + 1] == LF then
      assert SeparatorAt(data, from);
      Some(from)
    else FindSeparator(data, from + 1)
  }

  /** `find_header_end`: the length of the header block and the offset where
      the body starts, two bytes further on. */
  function FindHeaderEnd(data: seq<byte>): (r: Option<(nat, nat)>)
    ensures r.None? <==> forall j :: 0 <= j ==> !SeparatorAt(data, j)
    ensures r.Some? ==> FirstSeparator(data, r.value.0)
    ensures r.Some? ==> r.value.1 == r.value.0 + 2 <= |data|
  {
    match FindSeparator(data, 0)
    case None => None
    case Some(pos) => Some((pos, pos + 2))
  }

  /** There is only one first separator. */
  lemma FirstSeparatorUnique(data: seq<byte>, p: nat, q: nat)
    requires FirstSeparator(data, p) && FirstSeparator(data, q)
    ensures p == q
  {
  }

  // ---------------------------------------------------------------- body

  /** `parse_fixed_length_body`: the body is the `bodyLength` bytes after the
      header end, whatever they hold, and one more byte must be present. */
  function ParseFixedLengthBody(data: seq<byte>, headerEnd: nat, bodyLength: nat, headers: seq<byte>)
    : (r: Option<(nat, StompFrame)>)
    ensures r.None? <==> |data| < headerEnd + bodyLength + 1
    ensures r.Some? ==> r.value.1.headers == headers && |r.value.1.body| == bodyLength
    ensures r.Some? ==> r.value.0 == headerEnd + bodyLength + 1 <= |data|
    ensures r.Some? ==> forall k :: 0 <= k < bodyLength ==> r.value.1.body[k] == data[headerEnd + k]
  {
    var totalLength := headerEnd + bodyLength + 1;
    if |data| < totalLength then None
    else Some((totalLength, StompFrame(headers, data[headerEnd..headerEnd + bodyLength])))
  }

  /** `parse_null_terminated_body`: the body runs from the header end up to
      the first NUL byte, which is taken too but is not part of the body. */
  function ParseNullTerminatedBody(data: seq<byte>, headerEnd: nat, headers: seq<byte>)
    : (r: Option<(nat, StompFrame)>)
    requires headerEnd <= |data|
    ensures r.None? <==> forall k :: headerEnd <= k < |data| ==> data[k] != NUL
    ensures r.Some? ==> r.value.1.headers == headers
    ensures r.Some? ==> var body := r.value.1.body;
      && r.value.0 == headerEnd + |body| + 1 <= |data|
      && body == data[headerEnd..headerEnd + |body|]
      && NUL !in body
      && data[headerEnd + |body|] == NUL
  {
    var rest := data[headerEnd..];
    match Position(rest, NUL)
    case None =>
      assert forall k :: headerEnd <= k < |data| ==> data[k] == rest[k - headerEnd];
      None
    case Some(nullPos) =>
      assert data[headerEnd..headerEnd + nullPos] == rest[..nullPos];
      Some((headerEnd + nullPos + 1, StompFrame(headers, data[headerEnd..headerEnd + nullPos])))
  }

  /** `parse_body`: content-length framing when the header block declares a
      length, NUL-terminated framing otherwise. */
  function ParseBody(data: seq<byte>, headerEnd: nat, headers: seq<byte>): (r: Option<(nat, StompFrame)>)
    requires headerEnd <= |data|
    ensures r.Some? ==> r.value.1.headers == headers && r.value.0 == headerEnd + |r.value.1.body| + 1 <= |data|
    ensures ContentLength(headers).Some? && r.Some? ==> |r.value.1.body| == ContentLength(headers).value
    ensures ContentLength(headers).None? && r.Some? ==> NUL !in r.value.1.body
  {
    match ContentLength(headers)
    case Some(len) => ParseFixedLengthBody(data, headerEnd, len, headers)
    case None => ParseNullTerminatedBody(data, headerEnd, headers)
  }

  // ---------------------------------------------------------------- frames

  /** `parse_stomp_frame`: `None` while no complete frame has arrived, and
      otherwise the first frame and the number of bytes it takes, which is its
      size on the wire, at least three and at most what is there. */
  function ParseStompFrame(data: seq<byte>): (r: Option<(nat, StompFrame)>)
    ensures r.Some? ==> r.value.0 == Size(r.value.1) && 3 <= r.value.0 <= |data|
  {
    match FindHeaderEnd(data)
    case None => None
    case Some((headerLen, headerEnd)) => ParseBody(data, headerEnd, data[..headerLen])
  }

  /** `data` starts with the complete frame `f`, `n` bytes long: its header
      block runs up to the first separator; with a declared content length the
      body is exactly that long (NUL bytes included) and one more byte, of any
      value, follows; without one the body holds no NUL and a NUL follows it. */
  ghost predicate Delimits(data: seq<byte>, n: nat, f: StompFrame)
  {
    var pos := |f.headers|;
    var headerEnd := pos + 2;
    && FirstSeparator(data, pos)
    && f.headers == data[..pos]
    && n == headerEnd + |f.body| + 1 <= |data|
    && f.body == data[headerEnd..headerEnd + |f.body|]
    && match ContentLength(f.headers)
       case Some(len) => |f.body| == len
       case None => NUL !in f.body && data[headerEnd + |f.body|] == NUL
  }

  /** `data` does not yet hold a complete frame: no separator has arrived; or
      the header block declares a length and fewer than header end + length + 1
      bytes are there; or it declares none and no NUL follows the header end. */
  ghost predicate Incomplete(data: seq<byte>)
  {
    || (forall j :: 0 <= j ==> !SeparatorAt(data, j))
    || exists pos: nat :: FirstSeparator(data, pos) &&
         match ContentLength(data[..pos])
         case Some(len) => |data| < pos + 2 + len + 1
         case None => forall k :: pos + 2 <= k < |data| ==> data[k] != NUL
  }

  /** Whatever `ParseStompFrame` returns is a frame `data` starts with. */
  lemma ParseIsDelimited(data: seq<byte>)
    requires ParseStompFrame(data).Some?
    ensures Delimits(data, ParseStompFrame(data).value.0, ParseStompFrame(data).value.1)
  {
    var (headerLen, headerEnd) := FindHeaderEnd(data).value;
    var f := ParseStompFrame(data).value.1;
    assert f.headers == data[..headerLen];
  }

  /** The header block of a frame `data` starts with is the one `FindHeaderEnd` finds. */
  lemma DelimitedHeaders(data: seq<byte>, n: nat, f: StompFrame)
    requires Delimits(data, n, f)
    ensures FindHeaderEnd(data) == Some((|f.headers|, |f.headers| + 2))
  {
    var (p, e) := FindHeaderEnd(data).value;
    FirstSeparatorUnique(data, p, |f.headers|);
  }

  /** A frame `data` starts with is what `ParseStompFrame` returns. */
  lemma DelimitedIsParsed(data: seq<byte>, n: nat, f: StompFrame)
    requires Delimits(data, n, f)
    ensures ParseStompFrame(data) == Some((n, f))
  {
    var headerEnd := |f.headers| + 2;
    DelimitedHeaders(data, n, f);
    assert ParseStompFrame(data) == ParseBody(data, headerEnd, f.headers);
    BodyIsParsed(data, headerEnd, f);
  }

  /** A body delimited as `Delimits` requires it, after the header end, is
      what `ParseBody` takes. */
  lemma BodyIsParsed(data: seq<byte>, headerEnd: nat, f: StompFrame)
    requires headerEnd + |f.body| + 1 <= |data|
    requires f.body == data[headerEnd..headerEnd + |f.body|]
    requires match ContentLength(f.headers)
       case Some(len) => |f.body| == len
       case None => NUL !in f.body && data[headerEnd + |f.body|] == NUL
    ensures ParseBody(data, headerEnd, f.headers) == Some((headerEnd + |f.body| + 1, f))
  {
    match ContentLength(f.headers)
    case Some(len) =>
      FixedBodyIsParsed(data, headerEnd, len, f);
    case None =>
      NullBodyIsParsed(data, headerEnd, f);
  }

  /** A body of the declared length after the header end, with a byte after
      it, is what `ParseFixedLengthBody` takes. */
  lemma FixedBodyIsParsed(data: seq<byte>, headerEnd: nat, len: nat, f: StompFrame)
    requires |f.body| == len && headerEnd + len + 1 <= |data|
    requires f.body == data[headerEnd..headerEnd + len]
    ensures ParseFixedLengthBody(data, headerEnd, len, f.headers) == Some((headerEnd + len + 1, f))
  {
  }

  /** A body without NUL after the header end, with a NUL after it, is what
      `ParseNullTerminatedBody` takes. */
  lemma NullBodyIsParsed(data: seq<byte>, headerEnd: nat, f: StompFrame)
    requires headerEnd + |f.body| + 1 <= |data|
    requires f.body == data[headerEnd..headerEnd + |f.body|]
    requires NUL !in f.body && data[headerEnd + |f.body|] == NUL
    ensures ParseNullTerminatedBody(data, headerEnd, f.headers) == Some((headerEnd + |f.body| + 1, f))
  {
    var rest := data[headerEnd..];
    assert rest[|f.body|] == NUL;
    assert rest[..|f.body|] == f.body;
    assert Position(rest, NUL) == Some(|f.body|);
  }

  /** What `ParseStompFrame` returns is exactly the frame `data` starts with. */
  lemma ParseDelimits(data: seq<byte>, n: nat, f: StompFrame)
    ensures ParseStompFrame(data) == Some((n, f)) <==> Delimits(data, n, f)
  {
    if ParseStompFrame(data) == Some((n, f)) {
      ParseIsDelimited(data);
    }
    if Delimits(data, n, f) {
      DelimitedIsParsed(data, n, f);
    }
  }

  /** `ParseStompFrame` reports `None` exactly when the frame is incomplete. */
  lemma ParseIncomplete(data: seq<byte>)
    ensures ParseStompFrame(data).None? <==> Incomplete(data)
  {
    match FindHeaderEnd(data)
    case None =>
    case Some((pos, headerEnd)) =>
      if Incomplete(data) && !(forall j :: 0 <= j ==> !SeparatorAt(data, j)) {
        var q: nat :| FirstSeparator(data, q) &&
          match ContentLength(data[..q])
          case Some(len) => |data| < q + 2 + len + 1
          case None => forall k :: q + 2 <= k < |data| ==> data[k] != NUL;
        FirstSeparatorUnique(data, pos, q);
      }
  }

  /** A frame, once complete, stays the same frame whatever bytes arrive after
      it: the separator and the NUL are both first occurrences, and the length
      check only gets easier to pass. */
  lemma PrefixStable(d: seq<byte>, e: seq<byte>)
    requires ParseStompFrame(d).Some?
    ensures ParseStompFrame(d + e) == ParseStompFrame(d)
  {
    var (n, f) := ParseStompFrame(d).value;
    ParseIsDelimited(d);
    DelimitsExtend(d, e, n, f);
    DelimitedIsParsed(d + e, n, f);
  }

  /** A frame `d` starts with is also a frame `d + e` starts with. */
  lemma DelimitsExtend(d: seq<byte>, e: seq<byte>, n: nat, f: StompFrame)
    requires Delimits(d, n, f)
    ensures Delimits(d + e, n, f)
  {
    var de := d + e;
    var pos := |f.headers|;
    SeparatorExtend(d, e, pos);
    assert de[..pos] == d[..pos];
    assert de[pos + 2..pos + 2 + |f.body|] == d[pos + 2..pos + 2 + |f.body|];
    assert de[pos + 2 + |f.body|] == d[pos + 2 + |f.body|];
  }

  /** The first separator of `d` stays the first whatever follows `d`. */
  lemma SeparatorExtend(d: seq<byte>, e: seq<byte>, pos: nat)
    requires FirstSeparator(d, pos)
    ensures FirstSeparator(d + e, pos)
  {
    assert forall j :: 0 <= j < pos ==> (SeparatorAt(d + e, j) <==> SeparatorAt(d, j));
  }

  // ---------------------------------------------------------------- encoding

  /** A header block as a sender writes it: no empty line inside it and no line
      feed at its end, so the separator after it is the first one. */
  predicate WellFormedHeaders(h: seq<byte>)
  {
    forall j :: 0 <= j < |h| && h[j] == LF ==> j + 1 < |h| && h[j + 1] != LF
  }

  /** A frame a sender can put on the wire: well-formed headers and a body
      that the receiver delimits the same way, either by a declared length
      equal to its size or, with no length declared, by a NUL it does not hold. */
  predicate Encodable(f: StompFrame)
  {
    && WellFormedHeaders(f.headers)
    && match ContentLength(f.headers)
       case Some(len) => len == |f.body|
       case None => NUL !in f.body
  }

  /** The wire form of a frame, with a NUL as its trailing byte. */
  function Encode(f: StompFrame): (w: seq<byte>)
    ensures |w| == Size(f)
  {
    f.headers + [LF, LF] + f.body + [NUL]
  }

  /** Decoding inverts encoding: the decoder takes back exactly the encoded
      frame, whatever follows it. */
  lemma ParseEncoded(f: StompFrame, rest: seq<byte>)
    requires Encodable(f)
    ensures ParseStompFrame(Encode(f) + rest) == Some((Size(f), f))
  {
    EncodedDelimits(f, rest);
    DelimitedIsParsed(Encode(f) + rest, Size(f), f);
  }

  /** An encoded frame, whatever follows it, is delimited as that frame. */
  lemma EncodedDelimits(f: StompFrame, rest: seq<byte>)
    requires Encodable(f)
    ensures Delimits(Encode(f) + rest, Size(f), f)
  {
    var data := Encode(f) + rest;
    var pos := |f.headers|;
    EncodedSeparator(f, rest);
    assert data[..pos] == f.headers;
    assert data[pos + 2..pos + 2 + |f.body|] == f.body;
    assert data[pos + 2 + |f.body|] == NUL;
  }

  /** The first separator in an encoded frame is the one right after its
      well-formed header block. */
  lemma EncodedSeparator(f: StompFrame, rest: seq<byte>)
    requires WellFormedHeaders(f.headers)
    ensures FirstSeparator(Encode(f) + rest, |f.headers|)
  {
    var data := Encode(f) + rest;
    var h := f.headers;
    var pos := |h|;
    assert data[pos] == LF && data[pos + 1] == LF;
    forall j | 0 <= j < pos
      ensures !SeparatorAt(data, j)
    {
      assert data[j] == h[j];
      if j + 1 < pos {
        assert data[j + 1] == h[j + 1];
      }
    }
  }
}
