/** `parse_fixed_length_body` with `usize` arithmetic as a release build of
    src/frame.rs performs it: `header_end + body_length + 1` wraps around
    modulo 2^64, and slicing out of bounds panics. The rest of the model uses
    `Frame.ParseFixedLengthBody`, whose arithmetic does not wrap. */
module Overflow {
  import opened Bytes
  import opened Headers
  import opened Frame

  const Modulus: nat := UsizeMax + 1

  /** What the body parser does: report an incomplete frame, take a frame,
      or panic. */
  datatype FixedOutcome = NotYet | Taken(consumed: nat, frame: StompFrame) | Panicked

  /** `parse_fixed_length_body` with wrapping `usize` additions. */
  function FixedLengthAsWritten(data: seq<byte>, headerEnd: nat, bodyLength: nat, headers: seq<byte>): (r: FixedOutcome)
    requires |data| <= UsizeMax && headerEnd <= UsizeMax && bodyLength <= UsizeMax
    ensures r.Taken? ==> r.frame.headers == headers && r.consumed <= |data|
  {
    var totalLength := (headerEnd + bodyLength + 1) % Modulus;
    var bodyEnd := (headerEnd + bodyLength) % Modulus;
    if |data| < totalLength then NotYet
    else if headerEnd <= bodyEnd <= |data| then
      Taken(totalLength, StompFrame(headers, data[headerEnd..bodyEnd]))
    else Panicked
  }

  /** A declared length of 2^64 - 1 - `headerEnd` makes the total wrap to
      zero, so the length check passes on any buffer and the slice that
      follows runs past its end: the decoder panics where it should report an
      incomplete frame. */
  lemma WrappedLengthPanics(data: seq<byte>, headerEnd: nat, headers: seq<byte>)
    requires headerEnd <= |data| < UsizeMax
    ensures FixedLengthAsWritten(data, headerEnd, UsizeMax - headerEnd, headers) == Panicked
    ensures ParseFixedLengthBody(data, headerEnd, UsizeMax - headerEnd, headers).None?
  {
    assert (headerEnd + (UsizeMax - headerEnd) + 1) % Modulus == 0;
    assert (headerEnd + (UsizeMax - headerEnd)) % Modulus == UsizeMax;
  }

  /** Whenever the total does not overflow, the code as written and the
      corrected `ParseFixedLengthBody` agree: they differ only on lengths
      that wrap around. */
  lemma NoOverflowAgrees(data: seq<byte>, headerEnd: nat, bodyLength: nat, headers: seq<byte>)
    requires |data| <= UsizeMax && headerEnd + bodyLength + 1 <= UsizeMax
    ensures var r := ParseFixedLengthBody(data, headerEnd, bodyLength, headers);
      FixedLengthAsWritten(data, headerEnd, bodyLength, headers)
        == if r.None? then NotYet else Taken(r.value.0, r.value.1)
  {
    assert (headerEnd + bodyLength + 1) % Modulus == headerEnd + bodyLength + 1;
    assert (headerEnd + bodyLength) % Modulus == headerEnd + bodyLength;
  }
}
