/** The Option type used throughout the model, in place of Rust's `Option`. */
module Options {

  datatype Option<+T> = None | Some(value: T)
}

/** Bytes, the few byte constants the STOMP wire format uses, and searching and
    flattening byte sequences. */
module Bytes {
  import opened Options

  newtype byte = b: int | 0 <= b < 256

  /** The frame terminator (sentinel) byte. */
  const NUL: byte := 0x00
  /** Line feed: separates header lines; two in a row end the header block. */
  const LF: byte := 0x0A
  /** Carriage return: dropped from the end of a header line that a line feed ends. */
  const CR: byte := 0x0D

  /** The first index at or after `from` that holds `b`, as `Iterator::position`
      finds it on `s[from..]` (but reported as an index into `s`). */
  function IndexFrom(s: seq<byte>, b: byte, from: nat): (r: Option<nat>)
    requires from <= |s|
    decreases |s| - from
    ensures r.Some? ==> from <= r.value < |s| && s[r.value] == b
    ensures r.Some? ==> forall k :: from <= k < r.value ==> s[k] != b
    ensures r.None? <==> forall k :: from <= k < |s| ==> s[k] != b
  {
    if from == |s| then None
    else if s[from] == b then Some(from)
    else IndexFrom(s, b, from + 1)
  }

  /** `s.iter().position(|&x| x == b)`: the first index of `b` in `s`. */
  function Position(s: seq<byte>, b: byte): (r: Option<nat>)
    ensures r.Some? ==> r.value < |s| && s[r.value] == b && b !in s[..r.value]
    ensures r.None? <==> b !in s
  {
    var r := IndexFrom(s, b, 0);
    assert r.Some? ==> forall k :: 0 <= k < r.value ==> s[..r.value][k] == s[k];
    r
  }

  /** The concatenation of a sequence of byte sequences, in order. */
  function Flatten(chunks: seq<seq<byte>>): (r: seq<byte>)
    decreases |chunks|
  {
    if |chunks| == 0 then [] else chunks[0] + Flatten(chunks[1..])
  }}
