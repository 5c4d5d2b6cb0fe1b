/** The read loop of `read_messages` in src/client.rs: bytes from each read
    are appended to an accumulator, every complete frame is then taken off its
    front, each frame body becomes a message, and each message is handed to
    the callback in order.

    The stream, the gzip decoder, lossy UTF-8 decoding and the callback are
    not modelled; they are given as an `Env` and a list of `Read` results. */
module Client {
  import opened Options
  import opened Bytes
  import opened Frame

  /** The callback's answer for one message: go on, or an error that ends the loop. */
  datatype Reply = Continue | Abort(error: string)

  /** What the loop calls without the model looking inside:
      `decompress` is `decompress_gzipped_data` (`None` for its `Err`),
      `lossy` is `String::from_utf8_lossy`, and
      `callback` is `message_callback`; being `FnMut` it may keep state, so its
      answer may depend on the messages it was handed before in this call. */
  datatype Env = Env(
    decompress: seq<byte> -> Option<string>,
    lossy: seq<byte> -> string,
    callback: (seq<string>, string) -> Reply)

  /** The result of one `read` on the stream: the bytes read (none at all when
      the server has closed the connection), or an I/O error. */
  datatype Read = Received(data: seq<byte>) | ReadError(error: string)

  /** The read brought data (and so neither ends nor breaks the loop). */
  predicate IsData(r: Read)
  {
    r.Received? && |r.data| > 0
  }

  // ---------------------------------------------------------------- messages

  /** The message a frame body becomes: empty for an empty body (the
      decompressor is not consulted), the decompressed text when the body
      decompresses, and the body read as lossy UTF-8 otherwise. */
  function Message(body: seq<byte>, env: Env): (m: string)
    ensures |body| == 0 ==> m == ""
    ensures |body| > 0 && env.decompress(body).Some? ==> m == env.decompress(body).value
    ensures |body| > 0 && env.decompress(body).None? ==> m == env.lossy(body)
  {
    if |body| == 0 then ""
    else
      match env.decompress(body)
      case Some(text) => text
      case None => env.lossy(body)
  }

  /** The messages of a sequence of frames, in frame order. */
  function Messages(frames: seq<StompFrame>, env: Env): (ms: seq<string>)
    decreases |frames|
    ensures |ms| == |frames|
  {
    if |frames| == 0 then [] else [Message(frames[0].body, env)] + Messages(frames[1..], env)
  }

  lemma {:induction false} MessagesAppend(a: seq<StompFrame>, b: seq<StompFrame>, env: Env)
    ensures Messages(a + b, env) == Messages(a, env) + Messages(b, env)
    decreases |a|
  {
    if |a| == 0 {
      assert a + b == b;
    } else {
      assert (a + b)[1..] == a[1..] + b;
      MessagesAppend(a[1..], b, env);
    }
  }

  /** The callback, handed `history` before, answered `Continue` to each of
      `messages` in turn. */
  ghost predicate Accepted(history: seq<string>, messages: seq<string>, env: Env)
    decreases |messages|
  {
    || |messages| == 0
    || (env.callback(history, messages[0]) == Continue && Accepted(history + [messages[0]], messages[1..], env))
  }

  /** The callback, handed `history` before, answered `Continue` to each of
      `messages` but the last, and `Abort(error)` to the last. */
  ghost predicate Rejected(history: seq<string>, messages: seq<string>, env: Env, error: string)
    decreases |messages|
  {
    && |messages| > 0
    && if |messages| == 1 then env.callback(history, messages[0]) == Abort(error)
       else env.callback(history, messages[0]) == Continue && Rejected(history + [messages[0]], messages[1..], env, error)
  }

  lemma {:induction false} AppendAccepted(history: seq<string>, first: seq<string>, second: seq<string>, env: Env)
    requires Accepted(history, first, env) && Accepted(history + first, second, env)
    ensures Accepted(history, first + second, env)
    decreases |first|
  {
    if |first| == 0 {
      assert first + second == second && history + first == history;
    } else {
      assert (first + second)[1..] == first[1..] + second;
      assert history + [first[0]] + first[1..] == history + first;
      AppendAccepted(history + [first[0]], first[1..], second, env);
    }
  }

  lemma {:induction false} AppendRejected(history: seq<string>, first: seq<string>, second: seq<string>, env: Env, error: string)
    requires Accepted(history, first, env) && Rejected(history + first, second, env, error)
    ensures Rejected(history, first + second, env, error)
    decreases |first|
  {
    if |first| == 0 {
      assert first + second == second && history + first == history;
    } else {
      assert (first + second)[1..] == first[1..] + second;
      assert history + [first[0]] + first[1..] == history + first;
      AppendRejected(history + [first[0]], first[1..], second, env, error);
    }
  }

  // ---------------------------------------------------------------- decoder

  /** The frame decoder as the read loop calls it: `None` for "no complete
      frame yet", or the number of leading bytes the frame takes and the frame.
      The loop is written over any decoder so that its proofs rest only on the
      two properties below; `read_messages` uses `ParseStompFrame`. */
  type Decoder = seq<byte> -> Option<(nat, StompFrame)>

  /** Every frame the decoder reports takes at least one byte, and no more
      bytes than there are. */
  ghost predicate MakesProgress(parse: Decoder)
  {
    forall d :: parse(d).Some? ==> 0 < parse(d).value.0 <= |d|
  }

  /** A frame the decoder has reported stays reported, unchanged, whatever
      bytes are appended after it. */
  ghost predicate AppendStable(parse: Decoder)
  {
    forall d, e :: parse(d).Some? ==> parse(d + e) == parse(d)
  }

  /** `ParseStompFrame` has both properties the read loop relies on. */
  lemma StompDecoder()
    ensures MakesProgress(ParseStompFrame)
    ensures AppendStable(ParseStompFrame)
  {
    forall d, e | ParseStompFrame(d).Some?
      ensures ParseStompFrame(d + e) == ParseStompFrame(d)
    {
      PrefixStable(d, e);
    }
  }

  // ---------------------------------------------------------------- accumulator

  /** `frames` were taken off the front of `acc` one at a time, each being what
      the decoder returned on what was left after the ones before, and `rest`
      is what remains. */
  ghost predicate Chain(parse: Decoder, acc: seq<byte>, frames: seq<StompFrame>, rest: seq<byte>)
    decreases |frames|
  {
    if |frames| == 0 then rest == acc
    else
      && parse(acc).Some?
      && parse(acc).value.1 == frames[0]
      && parse(acc).value.0 <= |acc|
      && Chain(parse, acc[parse(acc).value.0..], frames[1..], rest)
  }

  /** What remains after a chain of frames is a suffix of what there was. */
  lemma {:induction false} ChainSuffix(parse: Decoder, acc: seq<byte>, frames: seq<StompFrame>, rest: seq<byte>)
    requires Chain(parse, acc, frames, rest)
    ensures |rest| <= |acc| && rest == acc[|acc| - |rest|..]
    decreases |frames|
  {
    if |frames| > 0 {
      var n := parse(acc).value.0;
      ChainSuffix(parse, acc[n..], frames[1..], rest);
    }
  }

  /** Bytes arriving later do not disturb the frames already complete. */
  lemma {:induction false} ChainAppend(parse: Decoder, acc: seq<byte>, frames: seq<StompFrame>, rest: seq<byte>, more: seq<byte>)
    requires AppendStable(parse)
    requires Chain(parse, acc, frames, rest)
    ensures Chain(parse, acc + more, frames, rest + more)
    decreases |frames|
  {
    if |frames| > 0 {
      var n := parse(acc).value.0;
      assert parse(acc + more) == parse(acc);
      assert (acc + more)[n..] == acc[n..] + more;
      ChainAppend(parse, acc[n..], frames[1..], rest, more);
    }
  }

  /** Two chains, one after the other, make one chain. */
  lemma {:induction false} ChainConcat(parse: Decoder, a: seq<byte>, fs: seq<StompFrame>, b: seq<byte>, gs: seq<StompFrame>, c: seq<byte>)
    requires Chain(parse, a, fs, b) && Chain(parse, b, gs, c)
    ensures Chain(parse, a, fs + gs, c)
    decreases |fs|
  {
    if |fs| == 0 {
      assert fs + gs == gs;
    } else {
      var n := parse(a).value.0;
      ChainConcat(parse, a[n..], fs[1..], b, gs, c);
      assert (fs + gs)[0] == fs[0];
      assert (fs + gs)[1..] == fs[1..] + gs;
    }
  }

  /** Taking frames until the decoder reports incomplete has one outcome only. */
  lemma {:induction false} ChainUnique(parse: Decoder, acc: seq<byte>, fs: seq<StompFrame>, r: seq<byte>, gs: seq<StompFrame>, s: seq<byte>)
    requires Chain(parse, acc, fs, r) && parse(r).None?
    requires Chain(parse, acc, gs, s) && parse(s).None?
    ensures fs == gs && r == s
    decreases |fs|
  {
    if |fs| > 0 && |gs| > 0 {
      var n := parse(acc).value.0;
      ChainUnique(parse, acc[n..], fs[1..], r, gs[1..], s);
      assert fs == [fs[0]] + fs[1..];
      assert gs == [gs[0]] + gs[1..];
    }
  }

  /** With `ParseStompFrame`, the bytes a chain of frames takes are exactly
      the frames' wire sizes added up. */
  lemma {:induction false} ChainSizes(acc: seq<byte>, frames: seq<StompFrame>, rest: seq<byte>)
    requires Chain(ParseStompFrame, acc, frames, rest)
    ensures |acc| == TotalSize(frames) + |rest|
    decreases |frames|
  {
    if |frames| > 0 {
      var n := ParseStompFrame(acc).value.0;
      ChainSizes(acc[n..], frames[1..], rest);
    }
  }

  /** The total wire size of a sequence of frames. */
  function TotalSize(frames: seq<StompFrame>): nat
    decreases |frames|
  {
    if |frames| == 0 then 0 else Size(frames[0]) + TotalSize(frames[1..])
  }

  // ---------------------------------------------------------------- draining

  /** What one run of the inner `while let` loop did: the frames it took (their
      messages went to the callback), the accumulator it left, and the
      callback's error if that ended it. */
  datatype Drained = Drained(frames: seq<StompFrame>, rest: seq<byte>, failure: Option<string>)

  /** The inner loop: while the decoder finds a complete frame at the front of
      the accumulator, remove the frame's bytes, turn its body into a message
      and call the callback with it; stop when the decoder reports incomplete
      or the callback fails. It terminates because every frame takes at least
      one byte. Its outcome does what `Drains` says: it takes frames off the
      front of the accumulator in order, hands their messages to the callback
      in the same order, and, unless the callback stops it, exits only when
      the decoder reports incomplete. */
  function Drain(parse: Decoder, acc: seq<byte>, env: Env, history: seq<string>): (r: Drained)
    requires MakesProgress(parse)
    decreases |acc|
    ensures Drains(parse, acc, env, history, r)
  {
    match parse(acc)
    case None => Drained([], acc, None)
    case Some((n, f)) =>
      var m := Message(f.body, env);
      match env.callback(history, m)
      case Abort(e) =>
        assert [f][1..] == [];
        Drained([f], acc[n..], Some(e))
      case Continue =>
        var r := Drain(parse, acc[n..], env, history + [m]);
        assert ([f] + r.frames)[0] == f && ([f] + r.frames)[1..] == r.frames;
        Drained([f] + r.frames, r.rest, r.failure)
  }

  /** What one run of the inner loop must have done, stated without running
      it: `r.frames` were taken off the front of `acc` in turn leaving
      `r.rest`; if no error is reported, the callback accepted every message
      and no complete frame is left; if one is, the callback accepted every
      message but the last and failed on the last with that error. */
  ghost predicate Drains(parse: Decoder, acc: seq<byte>, env: Env, history: seq<string>, r: Drained)
  {
    && Chain(parse, acc, r.frames, r.rest)
    && match r.failure
       case None => parse(r.rest).None? && Accepted(history, Messages(r.frames, env), env)
       case Some(e) => Rejected(history, Messages(r.frames, env), env, e)
  }

  /** Only the inner loop's own outcome does what `Drains` says: with
      the contract of `Drain`, `r == Drain(parse, acc, env, history)` exactly when
      `Drains(parse, acc, env, history, r)`. */
  lemma {:induction false} DrainComplete(parse: Decoder, acc: seq<byte>, env: Env, history: seq<string>, r: Drained)
    requires MakesProgress(parse)
    requires Drains(parse, acc, env, history, r)
    ensures r == Drain(parse, acc, env, history)
    decreases |r.frames|
  {
    if |r.frames| > 0 {
      var (n, f) := parse(acc).value;
      var m := Message(f.body, env);
      var ms := Messages(r.frames, env);
      assert ms[0] == m && ms[1..] == Messages(r.frames[1..], env);
      if env.callback(history, m) == Continue {
        var tail := Drained(r.frames[1..], r.rest, r.failure);
        assert Drains(parse, acc[n..], env, history + [m], tail);
        DrainComplete(parse, acc[n..], env, history + [m], tail);
        assert r.frames == [f] + r.frames[1..];
      } else {
        assert |r.frames| == 1 && r.frames == [f];
        assert Chain(parse, acc[n..], r.frames[1..], r.rest);
        assert r.rest == acc[n..];
        assert r.failure == Some(env.callback(history, m).error);
      }
    }
  }

  /** Draining `a + b` is draining `a` and then, unless the callback failed,
      draining what was left of `a` followed by `b`: bytes arriving in two
      reads give the callback the same messages as the same bytes in one. */
  lemma DrainAppend(parse: Decoder, a: seq<byte>, b: seq<byte>, env: Env, history: seq<string>)
    requires MakesProgress(parse) && AppendStable(parse)
    ensures var first := Drain(parse, a, env, history);
            var whole := Drain(parse, a + b, env, history);
      if first.failure.Some? then
        whole == first.(rest := first.rest + b)
      else
        var second := Drain(parse, first.rest + b, env, history + Messages(first.frames, env));
        whole == second.(frames := first.frames + second.frames)
  {
    var first := Drain(parse, a, env, history);
    ChainAppend(parse, a, first.frames, first.rest, b);
    if first.failure.Some? {
      DrainComplete(parse, a + b, env, history, first.(rest := first.rest + b));
    } else {
      var ms := Messages(first.frames, env);
      var h := history + ms;
      var second := Drain(parse, first.rest + b, env, h);
      ChainConcat(parse, a + b, first.frames, first.rest + b, second.frames, second.rest);
      MessagesAppend(first.frames, second.frames, env);
      if second.failure.None? {
        AppendAccepted(history, ms, Messages(second.frames, env), env);
      } else {
        AppendRejected(history, ms, Messages(second.frames, env), env, second.failure.value);
      }
      DrainComplete(parse, a + b, env, history, second.(frames := first.frames + second.frames));
    }
  }

  // ---------------------------------------------------------------- the read loop

  /** How the loop ended: the server closed the connection (`Ok(())`), a read
      failed, the callback failed, or the reads given ran out while the loop
      waits for more data. */
  datatype Status = Closed | ReadFailed(error: string) | CallbackFailed(error: string) | Waiting

  /** The outcome of the loop: how it ended, the frames it took (whose
      messages went to the callback), the accumulator it left, and how many
      reads it made. */
  datatype Session = Session(status: Status, frames: seq<StompFrame>, accumulated: seq<byte>, readCount: nat)

  /** All bytes the given reads delivered, in order. */
  function ReceivedBytes(results: seq<Read>): seq<byte>
    decreases |results|
  {
    if |results| == 0 then []
    else (if results[0].Received? then results[0].data else []) + ReceivedBytes(results[1..])
  }

  /** The inner loop as the outer loop calls it: from the accumulator and
      the messages handed to the callback so far, what one run drained.
      `read_messages` runs `Drain` with `ParseStompFrame` (`StompInner`); the
      outer loop is written over any inner loop so that each proof about it
      uses only the facts about `Drain` it needs. */
  type InnerLoop = (seq<byte>, seq<string>) -> Drained

  /** Every run of `inner` does what `Drains` says of the inner loop. */
  ghost predicate DrainsAlways(parse: Decoder, env: Env, inner: InnerLoop)
  {
    forall acc, history {:trigger Drains(parse, acc, env, history, inner(acc, history))} ::
      Drains(parse, acc, env, history, inner(acc, history))
  }

  /** Running `inner` on `a + b` agrees with running it on `a` and then,
      unless the callback failed, on what was left of `a` followed by `b`. */
  ghost predicate DrainsInTwo(env: Env, inner: InnerLoop, a: seq<byte>, b: seq<byte>, history: seq<string>)
  {
    var first := inner(a, history);
    var whole := inner(a + b, history);
    if first.failure.Some? then
      whole == first.(rest := first.rest + b)
    else
      var second := inner(first.rest + b, history + Messages(first.frames, env));
      whole == second.(frames := first.frames + second.frames)
  }

  /** `DrainsInTwo` holds of `inner` for every split. */
  ghost predicate SplitsAlways(env: Env, inner: InnerLoop)
  {
    forall a, b, history :: DrainsInTwo(env, inner, a, b, history)
  }

  /** The inner loop of `read_messages`: `Drain` with the STOMP frame decoder. */
  function StompInner(env: Env): InnerLoop
  {
    StompDecoder();
    (acc, history) => Drain(ParseStompFrame, acc, env, history)
  }

  /** The inner loop of `read_messages` has both properties the outer loop's
      proofs rely on. */
  lemma StompInnerLoop(env: Env)
    ensures DrainsAlways(ParseStompFrame, env, StompInner(env))
    ensures SplitsAlways(env, StompInner(env))
  {
    StompDecoder();
    var inner := StompInner(env);
    assert forall acc, history :: inner(acc, history) == Drain(ParseStompFrame, acc, env, history);
    forall a, b, history
      ensures DrainsInTwo(env, inner, a, b, history)
    {
      DrainAppend(ParseStompFrame, a, b, env, history);
    }
  }

  /** The outer `loop` of `read_messages`, given the results of its reads in
      order: an empty read ends it with `Ok(())` and a failed one with the
      error; otherwise the bytes are appended to the accumulator, which is
      then drained. It makes one read per result at most, at least one when
      there is a result, and it is still waiting only when it has used up
      every result. */
  function ReadLoop(inner: InnerLoop, results: seq<Read>, accumulated: seq<byte>, env: Env, history: seq<string>): (s: Session)
    decreases |results|
    ensures s.readCount <= |results|
    ensures s.readCount == 0 <==> |results| == 0
    ensures s.status.Waiting? ==> s.readCount == |results|
  {
    if |results| == 0 then Session(Waiting, [], accumulated, 0)
    else
      match results[0]
      case ReadError(e) => Session(ReadFailed(e), [], accumulated, 1)
      case Received(data) =>
        if |data| == 0 then Session(Closed, [], accumulated, 1)
        else
          var d := inner(accumulated + data, history);
          if d.failure.Some? then Session(CallbackFailed(d.failure.value), d.frames, d.rest, 1)
          else
            var s := ReadLoop(inner, results[1..], d.rest, env, history + Messages(d.frames, env));
            Session(s.status, d.frames + s.frames, s.accumulated, s.readCount + 1)
  }

  /** A loop that has ended makes no further reads. */
  lemma {:induction false} ReadLoopStops(inner: InnerLoop, a: seq<Read>, b: seq<Read>, accumulated: seq<byte>, env: Env, history: seq<string>)
    ensures var s := ReadLoop(inner, a, accumulated, env, history);
      !s.status.Waiting? ==> ReadLoop(inner, a + b, accumulated, env, history) == s
    decreases |a|
  {
    if |a| > 0 {
      assert (a + b)[0] == a[0] && (a + b)[1..] == a[1..] + b;
      if IsData(a[0]) {
        var d := inner(accumulated + a[0].data, history);
        if d.failure.None? {
          ReadLoopStops(inner, a[1..], b, d.rest, env, history + Messages(d.frames, env));
        }
      }
    }
  }

  /** A loop waiting for data picks up with the next reads exactly where it
      stopped: running on `a + b` is running on `a`, then on `b` from the
      accumulator and callback history `a` left. */
  lemma {:induction false} ReadLoopResumes(inner: InnerLoop, a: seq<Read>, b: seq<Read>, accumulated: seq<byte>, env: Env, history: seq<string>)
    requires ReadLoop(inner, a, accumulated, env, history).status.Waiting?
    ensures Resumes(inner, a, b, accumulated, env, history)
    decreases |a|, 1
  {
    if |a| == 0 {
      assert a + b == b;
      assert history + Messages([], env) == history;
      var t := ReadLoop(inner, b, accumulated, env, history);
      assert [] + t.frames == t.frames;
    } else {
      ReadLoopResumesStep(inner, a, b, accumulated, env, history);
    }
  }

  /** `ReadLoopResumes` when the first read brought data. */
  lemma {:induction false} ReadLoopResumesStep(inner: InnerLoop, a: seq<Read>, b: seq<Read>, accumulated: seq<byte>, env: Env, history: seq<string>)
    requires |a| > 0
    requires ReadLoop(inner, a, accumulated, env, history).status.Waiting?
    ensures Resumes(inner, a, b, accumulated, env, history)
    decreases |a|, 0
  {
    var d := inner(accumulated + a[0].data, history);
    var h := history + Messages(d.frames, env);
    var s1 := ReadLoop(inner, a[1..], d.rest, env, h);
    assert (a + b)[0] == a[0] && (a + b)[1..] == a[1..] + b;
    ReadLoopOnData(inner, a, accumulated, env, history);
    ReadLoopOnData(inner, a + b, accumulated, env, history);
    ReadLoopResumes(inner, a[1..], b, d.rest, env, h);
    var s := ReadLoop(inner, a, accumulated, env, history);
    assert history + Messages(s.frames, env) == h + Messages(s1.frames, env) by {
      MessagesAppend(d.frames, s1.frames, env);
    }
    assert s.accumulated == s1.accumulated;
    SessionsCompose(ReadLoop(inner, a, accumulated, env, history), s1,
      ReadLoop(inner, a[1..] + b, d.rest, env, h),
      ReadLoop(inner, b, s1.accumulated, env, h + Messages(s1.frames, env)),
      ReadLoop(inner, a + b, accumulated, env, history), d.frames);
  }

  /** One read's frames `fs` in front of two runs, one resumed after the
      other, are the frames of the whole run. */
  lemma SessionsCompose(s: Session, s1: Session, w: Session, t: Session, whole: Session, fs: seq<StompFrame>)
    requires s == Session(s1.status, fs + s1.frames, s1.accumulated, s1.readCount + 1)
    requires whole == Session(w.status, fs + w.frames, w.accumulated, w.readCount + 1)
    requires w == Session(t.status, s1.frames + t.frames, t.accumulated, s1.readCount + t.readCount)
    ensures whole == Session(t.status, s.frames + t.frames, t.accumulated, s.readCount + t.readCount)
  {
    assert fs + (s1.frames + t.frames) == (fs + s1.frames) + t.frames;
  }

  /** Running on `a + b` is running on `a`, then on `b` from the accumulator
      and callback history `a` left. */
  ghost predicate Resumes(inner: InnerLoop, a: seq<Read>, b: seq<Read>, accumulated: seq<byte>, env: Env, history: seq<string>)
  {
    var s := ReadLoop(inner, a, accumulated, env, history);
    var t := ReadLoop(inner, b, s.accumulated, env, history + Messages(s.frames, env));
    ReadLoop(inner, a + b, accumulated, env, history) == Session(t.status, s.frames + t.frames, t.accumulated, s.readCount + t.readCount)
  }

  /** The accumulator invariant: the frames the loop took, in order, followed
      by what it left in the accumulator, are exactly the bytes it started
      with followed by every byte its reads delivered. */
  lemma {:induction false} ReadLoopChain(parse: Decoder, inner: InnerLoop, results: seq<Read>, accumulated: seq<byte>, env: Env, history: seq<string>)
    requires AppendStable(parse) && DrainsAlways(parse, env, inner)
    ensures var s := ReadLoop(inner, results, accumulated, env, history);
      Chain(parse, accumulated + ReceivedBytes(results[..s.readCount]), s.frames, s.accumulated)
    decreases |results|, 2
  {
    var s := ReadLoop(inner, results, accumulated, env, history);
    if s.readCount == 0 {
      assert accumulated + ReceivedBytes([]) == accumulated;
    } else if IsData(results[0]) {
      ReadLoopChainStep(parse, inner, results, accumulated, env, history);
    } else {
      assert results[..s.readCount] == [results[0]];
      assert ReceivedBytes([results[0]]) == [];
      assert accumulated + [] == accumulated;
    }
  }

  /** `ReadLoopChain` when the first read brought data. */
  lemma {:induction false} ReadLoopChainStep(parse: Decoder, inner: InnerLoop, results: seq<Read>, accumulated: seq<byte>, env: Env, history: seq<string>)
    requires AppendStable(parse) && DrainsAlways(parse, env, inner)
    requires |results| > 0 && IsData(results[0])
    ensures var s := ReadLoop(inner, results, accumulated, env, history);
      Chain(parse, accumulated + ReceivedBytes(results[..s.readCount]), s.frames, s.accumulated)
    decreases |results|, 1
  {
    var data := results[0].data;
    var d := inner(accumulated + data, history);
    if d.failure.None? {
      ReadLoopChainData(parse, inner, results, accumulated, env, history);
    } else {
      assert Drains(parse, accumulated + data, env, history, d);
      ReceivedBytesFirst(results, 1);
      assert results[1..][..0] == [];
      assert accumulated + (data + []) == accumulated + data;
    }
  }

  /** `ReadLoopChainStep` when the callback accepted every frame the first
      read completed. */
  lemma {:induction false} ReadLoopChainData(parse: Decoder, inner: InnerLoop, results: seq<Read>, accumulated: seq<byte>, env: Env, history: seq<string>)
    requires AppendStable(parse) && DrainsAlways(parse, env, inner)
    requires |results| > 0 && IsData(results[0])
    requires inner(accumulated + results[0].data, history).failure.None?
    ensures var s := ReadLoop(inner, results, accumulated, env, history);
      Chain(parse, accumulated + ReceivedBytes(results[..s.readCount]), s.frames, s.accumulated)
    decreases |results|, 0
  {
    var data := results[0].data;
    var d := inner(accumulated + data, history);
    assert Drains(parse, accumulated + data, env, history, d);
    var h := history + Messages(d.frames, env);
    var t := ReadLoop(inner, results[1..], d.rest, env, h);
    ReadLoopOnData(inner, results, accumulated, env, history);
    ReadLoopChain(parse, inner, results[1..], d.rest, env, h);
    ReceivedBytesFirst(results, t.readCount + 1);
    var more := ReceivedBytes(results[1..][..t.readCount]);
    ChainThenMore(parse, accumulated + data, d.frames, d.rest, more, t.frames, t.accumulated);
    assert accumulated + (data + more) == accumulated + data + more;
  }

  /** One step of the loop on a read that brought data, with the callback
      accepting every frame that read completed. */
  lemma ReadLoopOnData(inner: InnerLoop, results: seq<Read>, accumulated: seq<byte>, env: Env, history: seq<string>)
    requires |results| > 0 && IsData(results[0])
    requires inner(accumulated + results[0].data, history).failure.None?
    ensures var d := inner(accumulated + results[0].data, history);
      var t := ReadLoop(inner, results[1..], d.rest, env, history + Messages(d.frames, env));
      ReadLoop(inner, results, accumulated, env, history) == Session(t.status, d.frames + t.frames, t.accumulated, t.readCount + 1)
  {
  }

  /** Frames taken from `a`, then frames taken from what they left followed
      by `more`, are one chain over `a + more`. */
  lemma ChainThenMore(parse: Decoder, a: seq<byte>, fs: seq<StompFrame>, r: seq<byte>, more: seq<byte>, gs: seq<StompFrame>, c: seq<byte>)
    requires AppendStable(parse)
    requires Chain(parse, a, fs, r) && Chain(parse, r + more, gs, c)
    ensures Chain(parse, a + more, fs + gs, c)
  {
    ChainAppend(parse, a, fs, r, more);
    ChainConcat(parse, a + more, fs, r + more, gs, c);
  }

  /** The bytes of the first `k` reads are those of the first read followed
      by those of the next `k - 1`. */
  lemma ReceivedBytesFirst(results: seq<Read>, k: nat)
    requires 0 < k <= |results| && results[0].Received?
    ensures ReceivedBytes(results[..k]) == results[0].data + ReceivedBytes(results[1..][..k - 1])
  {
    assert results[..k][1..] == results[1..][..k - 1];
  }

  /** The callback is handed the messages of the frames taken, in the order
      of the frames, and accepts every one of them, except that when it ends
      the loop it does so on the last. */
  lemma {:induction false} ReadLoopCallback(parse: Decoder, inner: InnerLoop, results: seq<Read>, accumulated: seq<byte>, env: Env, history: seq<string>)
    requires DrainsAlways(parse, env, inner)
    ensures var s := ReadLoop(inner, results, accumulated, env, history);
      match s.status
      case CallbackFailed(e) => Rejected(history, Messages(s.frames, env), env, e)
      case _ => Accepted(history, Messages(s.frames, env), env)
    decreases |results|
  {
    if |results| > 0 && IsData(results[0]) {
      var d := inner(accumulated + results[0].data, history);
      assert Drains(parse, accumulated + results[0].data, env, history, d);
      if d.failure.None? {
        var ms := Messages(d.frames, env);
        var t := ReadLoop(inner, results[1..], d.rest, env, history + ms);
        ReadLoopCallback(parse, inner, results[1..], d.rest, env, history + ms);
        MessagesAppend(d.frames, t.frames, env);
        if t.status.CallbackFailed? {
          AppendRejected(history, ms, Messages(t.frames, env), env, t.status.error);
        } else {
          AppendAccepted(history, ms, Messages(t.frames, env), env);
        }
      }
    }
  }

  /** How the loop ended, read off the reads it made: every read but the last
      brought data; it ended with `Ok(())` exactly when the last read was
      empty, with the read's error exactly when that read failed, and with the
      callback's error only after a read that brought data. An empty first
      read ends it at once, with nothing taken and the accumulator as it was. */
  lemma {:induction false} ReadLoopStatus(inner: InnerLoop, results: seq<Read>, accumulated: seq<byte>, env: Env, history: seq<string>)
    ensures var s := ReadLoop(inner, results, accumulated, env, history);
      && (forall i :: 0 <= i < s.readCount - 1 ==> IsData(results[i]))
      && (s.status.Closed? <==> 0 < s.readCount && results[s.readCount - 1] == Received([]))
      && (s.status.ReadFailed? <==> 0 < s.readCount && results[s.readCount - 1].ReadError?)
      && (s.status.ReadFailed? ==> s.status.error == results[s.readCount - 1].error)
      && (s.status.CallbackFailed? ==> 0 < s.readCount && IsData(results[s.readCount - 1]))
      && (0 < |results| && results[0] == Received([]) ==> s == Session(Closed, [], accumulated, 1))
    decreases |results|
  {
    if |results| > 0 && IsData(results[0]) {
      var d := inner(accumulated + results[0].data, history);
      if d.failure.None? {
        ReadLoopStatus(inner, results[1..], d.rest, env, history + Messages(d.frames, env));
      }
    }
  }

  /** Unless the callback ended it, the loop leaves no complete frame in the
      accumulator once it has drained it: whenever its first read brought
      data, however it ended, and in every case if it started with none. */
  lemma {:induction false} ReadLoopDrained(parse: Decoder, inner: InnerLoop, results: seq<Read>, accumulated: seq<byte>, env: Env, history: seq<string>)
    requires DrainsAlways(parse, env, inner)
    ensures var s := ReadLoop(inner, results, accumulated, env, history);
      && (!s.status.CallbackFailed? && 0 < |results| && IsData(results[0]) ==> parse(s.accumulated).None?)
      && (!s.status.CallbackFailed? && parse(accumulated).None? ==> parse(s.accumulated).None?)
    decreases |results|
  {
    if |results| > 0 && IsData(results[0]) {
      var d := inner(accumulated + results[0].data, history);
      assert Drains(parse, accumulated + results[0].data, env, history, d);
      if d.failure.None? {
        ReadLoopDrained(parse, inner, results[1..], d.rest, env, history + Messages(d.frames, env));
      }
    }
  }

  /** The reads that deliver `chunks`, one chunk each. */
  function Deliveries(chunks: seq<seq<byte>>): (rs: seq<Read>)
    decreases |chunks|
    ensures |rs| == |chunks|
    ensures forall i :: 0 <= i < |chunks| ==> rs[i] == Received(chunks[i])
  {
    if |chunks| == 0 then [] else [Received(chunks[0])] + Deliveries(chunks[1..])
  }

  /** Chunking invariance: however the network splits a run of bytes into
      non-empty reads, the loop takes the same frames, hands the callback the
      same messages and ends the same way as when the bytes come in one read;
      only when the callback fails part way can the split run have left fewer
      bytes in the accumulator, since it stops reading sooner. */
  lemma {:induction false} ChunkingInvariance(inner: InnerLoop, chunks: seq<seq<byte>>, tail: seq<Read>, accumulated: seq<byte>, env: Env, history: seq<string>)
    requires SplitsAlways(env, inner)
    requires |chunks| > 0 && forall i :: 0 <= i < |chunks| ==> |chunks[i]| > 0
    ensures SameRun(inner, chunks, tail, accumulated, env, history)
    decreases |chunks|, 2
  {
    if |chunks| == 1 {
      assert chunks[1..] == [];
      assert Flatten(chunks) == chunks[0] + [] == chunks[0];
      assert Deliveries(chunks) == [Received(chunks[0])];
      assert Deliveries(chunks) + tail == [Received(Flatten(chunks))] + tail;
    } else {
      ChunkingInvarianceStep(inner, chunks, tail, accumulated, env, history);
    }
  }

  /** Running on the reads that deliver `chunks`, then `tail`, takes the same
      frames and ends the same way as running on one read of all of them,
      then `tail`, and leaves the same accumulator unless the callback failed. */
  ghost predicate SameRun(inner: InnerLoop, chunks: seq<seq<byte>>, tail: seq<Read>, accumulated: seq<byte>, env: Env, history: seq<string>)
  {
    var split := ReadLoop(inner, Deliveries(chunks) + tail, accumulated, env, history);
    var whole := ReadLoop(inner, [Received(Flatten(chunks))] + tail, accumulated, env, history);
    && split.status == whole.status
    && split.frames == whole.frames
    && (!whole.status.CallbackFailed? ==> split.accumulated == whole.accumulated)
  }

  /** `ChunkingInvariance` for more than one chunk. */
  lemma {:induction false} ChunkingInvarianceStep(inner: InnerLoop, chunks: seq<seq<byte>>, tail: seq<Read>, accumulated: seq<byte>, env: Env, history: seq<string>)
    requires SplitsAlways(env, inner)
    requires |chunks| > 1 && forall i :: 0 <= i < |chunks| ==> |chunks[i]| > 0
    ensures SameRun(inner, chunks, tail, accumulated, env, history)
    decreases |chunks|, 1
  {
    var c := chunks[0];
    var rest := Flatten(chunks[1..]);
    FlattenFirst(chunks);
    var d1 := inner(accumulated + c, history);
    assert DrainsInTwo(env, inner, accumulated + c, rest, history);
    assert accumulated + c + rest == accumulated + Flatten(chunks);
    assert (Deliveries(chunks) + tail)[0] == Received(c);
    if d1.failure.None? {
      ChunkingInvarianceResume(inner, chunks, tail, accumulated, env, history);
    }
  }

  /** Splitting off the first of several non-empty chunks leaves a
      non-empty rest. */
  lemma FlattenFirst(chunks: seq<seq<byte>>)
    requires |chunks| > 1 && forall i :: 0 <= i < |chunks| ==> |chunks[i]| > 0
    ensures Flatten(chunks) == chunks[0] + Flatten(chunks[1..])
    ensures |Flatten(chunks[1..])| > 0
  {
    assert Flatten(chunks[1..]) == chunks[1] + Flatten(chunks[2..]) by {
      assert chunks[1..][1..] == chunks[2..];
    }
  }

  /** `ChunkingInvarianceStep` when the callback accepted every frame the
      first chunk completed. */
  lemma {:induction false} ChunkingInvarianceResume(inner: InnerLoop, chunks: seq<seq<byte>>, tail: seq<Read>, accumulated: seq<byte>, env: Env, history: seq<string>)
    requires SplitsAlways(env, inner)
    requires |chunks| > 1 && forall i :: 0 <= i < |chunks| ==> |chunks[i]| > 0
    requires inner(accumulated + chunks[0], history).failure.None?
    ensures SameRun(inner, chunks, tail, accumulated, env, history)
    decreases |chunks|, 0
  {
    var c := chunks[0];
    var cs := chunks[1..];
    var rest := Flatten(cs);
    FlattenFirst(chunks);
    var d1 := inner(accumulated + c, history);
    var h := history + Messages(d1.frames, env);
    var rs := Deliveries(chunks) + tail;
    assert rs[0] == Received(c) && rs[1..] == Deliveries(cs) + tail;
    ReadLoopOnData(inner, rs, accumulated, env, history);
    ChunkingInvariance(inner, cs, tail, d1.rest, env, h);
    assert DrainsInTwo(env, inner, accumulated + c, rest, history);
    OneReadSplit(inner, c, rest, tail, accumulated, env, history);
  }

  /** One read of `c + rest` does what a read of `c` followed by a read of
      `rest` does, when the callback accepts every frame `c` completes. */
  lemma OneReadSplit(inner: InnerLoop, c: seq<byte>, rest: seq<byte>, tail: seq<Read>, accumulated: seq<byte>, env: Env, history: seq<string>)
    requires |c| > 0 && |rest| > 0
    requires DrainsInTwo(env, inner, accumulated + c, rest, history)
    requires inner(accumulated + c, history).failure.None?
    ensures var d1 := inner(accumulated + c, history);
      var w1 := ReadLoop(inner, [Received(rest)] + tail, d1.rest, env, history + Messages(d1.frames, env));
      var whole := ReadLoop(inner, [Received(c + rest)] + tail, accumulated, env, history);
      whole.status == w1.status && whole.frames == d1.frames + w1.frames && whole.accumulated == w1.accumulated
  {
    var d1 := inner(accumulated + c, history);
    var h := history + Messages(d1.frames, env);
    assert accumulated + c + rest == accumulated + (c + rest);
    var second := inner(d1.rest + rest, h);
    assert ([Received(rest)] + tail)[1..] == tail;
    assert ([Received(c + rest)] + tail)[1..] == tail;
    if second.failure.None? {
      assert history + Messages(d1.frames + second.frames, env) == h + Messages(second.frames, env) by {
        MessagesAppend(d1.frames, second.frames, env);
      }
      var t := ReadLoop(inner, tail, second.rest, env, h + Messages(second.frames, env));
      ReadLoopOnData(inner, [Received(rest)] + tail, d1.rest, env, h);
      ReadLoopOnData(inner, [Received(c + rest)] + tail, accumulated, env, history);
      assert d1.frames + (second.frames + t.frames) == (d1.frames + second.frames) + t.frames;
    }
  }

  // ---------------------------------------------------------------- read_messages

  /** `read_messages`, given the results of its reads in order and the bytes
      the client's accumulator held before the call. The frames were cut, in
      order and by `ParseStompFrame`, from the bytes the accumulator held
      followed by every byte read, and what the accumulator keeps is what
      follows the last of them; the callback accepted each frame's message in
      that order, except the last when it failed; and unless it failed, no
      complete frame is left behind once the first read has brought data,
      however the loop ended. */
  function ReadMessages(results: seq<Read>, accumulated: seq<byte>, env: Env): (s: Session)
    ensures s.readCount <= |results|
    ensures var input := accumulated + ReceivedBytes(results[..s.readCount]);
      && Chain(ParseStompFrame, input, s.frames, s.accumulated)
      && |input| == TotalSize(s.frames) + |s.accumulated|
      && s.accumulated == input[TotalSize(s.frames)..]
      && (match s.status
          case CallbackFailed(e) => Rejected([], Messages(s.frames, env), env, e)
          case _ => Accepted([], Messages(s.frames, env), env))
      && (!s.status.CallbackFailed? && 0 < |results| && IsData(results[0]) ==> ParseStompFrame(s.accumulated).None?)
  {
    StompDecoder();
    StompInnerLoop(env);
    var s := ReadLoop(StompInner(env), results, accumulated, env, []);
    var input := accumulated + ReceivedBytes(results[..s.readCount]);
    ReadLoopChain(ParseStompFrame, StompInner(env), results, accumulated, env, []);
    ChainSizes(input, s.frames, s.accumulated);
    ChainSuffix(ParseStompFrame, input, s.frames, s.accumulated);
    ReadLoopCallback(ParseStompFrame, StompInner(env), results, accumulated, env, []);
    ReadLoopDrained(ParseStompFrame, StompInner(env), results, accumulated, env, []);
    s
  }

  /** However the bytes are split into non-empty reads, `read_messages` takes
      the same frames, hands the callback the same messages and ends the same
      way as when they arrive in one read. */
  lemma ReadMessagesChunking(chunks: seq<seq<byte>>, tail: seq<Read>, accumulated: seq<byte>, env: Env)
    requires |chunks| > 0 && forall i :: 0 <= i < |chunks| ==> |chunks[i]| > 0
    ensures var split := ReadMessages(Deliveries(chunks) + tail, accumulated, env);
            var whole := ReadMessages([Received(Flatten(chunks))] + tail, accumulated, env);
      && split.status == whole.status
      && split.frames == whole.frames
      && Messages(split.frames, env) == Messages(whole.frames, env)
      && (!whole.status.CallbackFailed? ==> split.accumulated == whole.accumulated)
  {
    StompInnerLoop(env);
    ChunkingInvariance(StompInner(env), chunks, tail, accumulated, env, []);
  }

  /** The wire form of a sequence of frames, one after another. */
  function EncodeAll(frames: seq<StompFrame>): (w: seq<byte>)
    decreases |frames|
    ensures |w| == TotalSize(frames)
  {
    if |frames| == 0 then [] else Encode(frames[0]) + EncodeAll(frames[1..])
  }

  /** Encoded frames sent back to back come apart again into exactly those
      frames, whatever follows them. */
  lemma {:induction false} EncodedChain(frames: seq<StompFrame>, rest: seq<byte>)
    requires forall i :: 0 <= i < |frames| ==> Encodable(frames[i])
    ensures Chain(ParseStompFrame, EncodeAll(frames) + rest, frames, rest)
    decreases |frames|
  {
    if |frames| > 0 {
      var f := frames[0];
      var tail := EncodeAll(frames[1..]) + rest;
      assert EncodeAll(frames) + rest == Encode(f) + tail;
      ParseEncoded(f, tail);
      assert (Encode(f) + tail)[Size(f)..] == tail;
      EncodedChain(frames[1..], rest);
    }
  }

  /** A stream of encoded frames arriving in one read, into an empty
      accumulator, reaches the callback as exactly those frames' messages in
      order, and leaves the accumulator empty, as long as the callback accepts
      them. */
  lemma ReadMessagesEncoded(frames: seq<StompFrame>, env: Env)
    requires |frames| > 0 && forall i :: 0 <= i < |frames| ==> Encodable(frames[i])
    requires Accepted([], Messages(frames, env), env)
    ensures ReadMessages([Received(EncodeAll(frames))], [], env) == Session(Waiting, frames, [], 1)
  {
    var w := EncodeAll(frames);
    assert |w| > 0 by {
      assert |Encode(frames[0])| > 0;
    }
    DrainEncoded(frames, env, []);
    assert [] + w == w;
    ReadLoopOneRead(StompInner(env), w, [], env, []);
  }

  /** The inner loop takes a stream of encoded frames apart into exactly
      those frames and leaves nothing behind, as long as the callback accepts
      their messages. */
  lemma DrainEncoded(frames: seq<StompFrame>, env: Env, history: seq<string>)
    requires forall i :: 0 <= i < |frames| ==> Encodable(frames[i])
    requires Accepted(history, Messages(frames, env), env)
    ensures MakesProgress(ParseStompFrame)
    ensures Drain(ParseStompFrame, EncodeAll(frames), env, history) == Drained(frames, [], None)
  {
    StompDecoder();
    var w := EncodeAll(frames);
    EncodedChain(frames, []);
    assert w + [] == w;
    DrainComplete(ParseStompFrame, w, env, history, Drained(frames, [], None));
  }

  /** One read of data, then no more: the loop drains once and waits. */
  lemma ReadLoopOneRead(inner: InnerLoop, data: seq<byte>, accumulated: seq<byte>, env: Env, history: seq<string>)
    requires |data| > 0
    ensures var d := inner(accumulated + data, history);
      ReadLoop(inner, [Received(data)], accumulated, env, history)
        == Session(if d.failure.Some? then CallbackFailed(d.failure.value) else Waiting, d.frames, d.rest, 1)
  {
    var d := inner(accumulated + data, history);
    assert [Received(data)][1..] == [];
    assert d.frames + [] == d.frames;
  }
}
