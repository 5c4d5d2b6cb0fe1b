/** A worked example: two frames arriving in one read, the first delimited by
    its `content-length` header and the second by its NUL. */
module Scenarios {
  import opened Options
  import opened Bytes
  import opened Headers
  import opened Frame
  import opened Client

  /** "MESSAGE", "hello" and "world" in ASCII. */
  const Command: seq<byte> := [0x4D, 0x45, 0x53, 0x53, 0x41, 0x47, 0x45]
  const Hello: seq<byte> := [0x68, 0x65, 0x6C, 0x6C, 0x6F]
  const World: seq<byte> := [0x77, 0x6F, 0x72, 0x6C, 0x64]

  /** "MESSAGE\ncontent-length:5" and "MESSAGE". */
  const FirstHeaders: seq<byte> := Command + [LF] + ContentLengthPrefix + [0x35]
  const SecondHeaders: seq<byte> := Command

  /** "MESSAGE\ncontent-length:5\n\nhello\0MESSAGE\n\nworld\0". */
  const Wire: seq<byte> :=
    FirstHeaders + [LF, LF] + Hello + [NUL] + SecondHeaders + [LF, LF] + World + [NUL]

  function First(): StompFrame
  {
    StompFrame(FirstHeaders, Hello)
  }

  function Second(): StompFrame
  {
    StompFrame(SecondHeaders, World)
  }

  /** A header block of two lines, neither holding a line feed and the
      first not ending with a carriage return, splits into those two lines
      and is well formed. */
  lemma TwoLines(a: seq<byte>, b: seq<byte>)
    requires LF !in a && LF !in b && |a| > 0 && |b| > 0 && a[|a| - 1] != CR
    ensures Lines(a + [LF] + b) == [a, b]
    ensures WellFormedHeaders(a + [LF] + b)
  {
    var h := a + [LF] + b;
    assert h[..|a|] == a && h[|a|] == LF && h[|a| + 1..] == b;
    assert Position(h, LF) == Some(|a|);
    assert Lines(b) == [b];
    forall j | 0 <= j < |h| && h[j] == LF
      ensures j + 1 < |h| && h[j + 1] != LF
    {
      assert j == |a|;
      assert h[j + 1] == b[0];
    }
  }

  /** The first frame can be put on the wire: its header block declares a
      body of five bytes, which is what it has. */
  lemma FirstEncodable()
    ensures ContentLength(FirstHeaders) == Some(5)
    ensures Encodable(First())
  {
    var value := ContentLengthPrefix + [0x35];
    assert FirstHeaders == Command + [LF] + value;
    TwoLines(Command, value);
    assert !NamesContentLength(Command);
    assert Decimal(5) == [0x35];
    ContentLengthLine(5);
    assert [Command, value][1..] == [value];
    assert FirstValue([value]) == Some(5);
  }

  /** The second frame can be put on the wire: its header block declares no
      length and its body holds no NUL. */
  lemma SecondEncodable()
    ensures ContentLength(SecondHeaders) == None
    ensures Encodable(Second())
  {
    assert Lines(Command) == [Command];
    assert NUL !in World;
  }

  /** Back to back, the two frames are `Wire`. */
  lemma WireIsEncoded()
    ensures EncodeAll([First(), Second()]) == Wire
  {
    assert [First(), Second()][1..] == [Second()];
    assert EncodeAll([Second()]) == Encode(Second()) + EncodeAll([]);
    assert EncodeAll([First(), Second()]) == Encode(First()) + Encode(Second());
  }

  /** Neither body decompresses, so the messages are the bodies as text. */
  lemma HelloWorldMessages(env: Env)
    requires env.decompress(Hello).None? && env.lossy(Hello) == "hello"
    requires env.decompress(World).None? && env.lossy(World) == "world"
    ensures Messages([First(), Second()], env) == ["hello", "world"]
  {
    assert [First(), Second()][1..] == [Second()];
    assert Messages([Second()], env) == [Message(World, env)] + Messages([], env);
  }

  /** A callback that accepts "hello" first and "world" after it accepts both. */
  lemma HelloWorldAccepted(env: Env)
    requires env.callback([], "hello") == Continue && env.callback(["hello"], "world") == Continue
    ensures Accepted([], ["hello", "world"], env)
  {
    assert ["hello", "world"][1..] == ["world"];
    assert ["world"][1..] == [];
    assert [] + ["hello"] == ["hello"];
  }

  /** `Wire` read in one chunk into an empty accumulator gives the callback
      "hello" and then "world", when neither body decompresses and the
      callback accepts both; nothing is left in the accumulator and the loop
      waits for more data. */
  lemma HelloWorld(env: Env)
    requires env.decompress(Hello).None? && env.lossy(Hello) == "hello"
    requires env.decompress(World).None? && env.lossy(World) == "world"
    requires env.callback([], "hello") == Continue && env.callback(["hello"], "world") == Continue
    ensures var s := ReadMessages([Received(Wire)], [], env);
      && s.status == Waiting
      && Messages(s.frames, env) == ["hello", "world"]
      && s.accumulated == []
  {
    FirstEncodable();
    SecondEncodable();
    WireIsEncoded();
    HelloWorldMessages(env);
    HelloWorldAccepted(env);
    TwoFramesOneRead(First(), Second(), env);
  }

  /** Two encodable frames sent back to back in one read reach a callback
      that accepts both as their two messages, and nothing is left over. */
  lemma TwoFramesOneRead(f: StompFrame, g: StompFrame, env: Env)
    requires Encodable(f) && Encodable(g)
    requires Accepted([], Messages([f, g], env), env)
    ensures ReadMessages([Received(EncodeAll([f, g]))], [], env) == Session(Waiting, [f, g], [], 1)
  {
    ReadMessagesEncoded([f, g], env);
  }
}
