/**
 * The frame loop of Session (readHeader and readBody): a four-byte length, then exactly
 * that many bytes of JSON text, handed to handleMessage, and so on until a read fails.
 * The asynchronous reads are unrolled into a sequential state machine over the bytes the
 * socket will still deliver.
 */
module Server {

  import opened Wrappers
  import opened Bytes
  import opened Dispatch

  /** The four bytes of _dataLen as they arrive: little-endian, the host order of Windows. */
  function LengthOf(header: seq<byte>): (n: u32)
    requires |header| == 4
  {
    (header[0] as int + 256 * header[1] as int + 65536 * header[2] as int + 16777216 * header[3] as int) as u32
  }

  /** The four bytes a sender writes for a length n. */
  function HeaderOf(n: u32): (h: seq<byte>)
    ensures |h| == 4
  {
    var x := n as int;
    [(x % 256) as byte, (x / 256 % 256) as byte, (x / 65536 % 256) as byte, (x / 16777216) as byte]
  }

  /** Reading a header gives back the length it was written from. */
  lemma LengthOfHeaderOf(n: u32)
    ensures LengthOf(HeaderOf(n)) == n
  {
    var x := n as int;
    var h := HeaderOf(n);
    assert x / 256 == x / 256 % 256 + 256 * (x / 65536) by {
      assert x / 65536 == x / 256 / 256;
    }
    assert x / 65536 == x / 65536 % 256 + 256 * (x / 16777216) by {
      assert x / 16777216 == x / 65536 / 256;
    }
  }

  /** Every four bytes are the header of exactly one length. */
  lemma HeaderOfLengthOf(header: seq<byte>)
    requires |header| == 4
    ensures HeaderOf(LengthOf(header)) == header
  {
    var x := LengthOf(header) as int;
    var b0, b1, b2, b3 := header[0] as int, header[1] as int, header[2] as int, header[3] as int;
    assert x == b0 + 256 * (b1 + 256 * (b2 + 256 * b3));
    assert x / 256 == b1 + 256 * (b2 + 256 * b3);
    assert x / 65536 == x / 256 / 256 == b2 + 256 * b3;
    assert x / 16777216 == x / 65536 / 256 == b3;
  }

  /** std::vector::resize(n): the first n elements are kept and new ones are zero. */
  function Resize(v: seq<byte>, n: nat): (r: seq<byte>)
  {
    if n <= |v| then v[..n] else v + seq(n - |v|, _ => 0)
  }

  lemma ResizeContents(v: seq<byte>, n: nat)
    ensures |Resize(v, n)| == n
    ensures forall k :: 0 <= k < n ==> Resize(v, n)[k] == if k < |v| then v[k] else 0
  {
  }

  /**
   * The bodies of the frames in a byte stream, in order, up to the first frame whose
   * header or body is cut short.
   */
  function Frames(input: seq<byte>): (bodies: seq<seq<byte>>)
    decreases |input|
  {
    if |input| < 4 then []
    else
      var n := LengthOf(input[..4]) as int;
      if |input| - 4 < n then [] else [input[4..4 + n]] + Frames(input[4 + n..])
  }

  /** A frame as a sender writes it: its length header, then its body. */
  function EncodeFrame(body: seq<byte>): (f: seq<byte>)
    requires |body| < 0x1_0000_0000
  {
    HeaderOf(|body| as u32) + body
  }

  /** An encoded frame is read back as its body, and reading goes on after it. */
  lemma FramesOfEncodeFrame(body: seq<byte>, rest: seq<byte>)
    requires |body| < 0x1_0000_0000
    ensures Frames(EncodeFrame(body) + rest) == [body] + Frames(rest)
  {
    var s := EncodeFrame(body) + rest;
    LengthOfHeaderOf(|body| as u32);
    assert s[..4] == HeaderOf(|body| as u32);
    assert s[4..4 + |body|] == body;
    assert s[4 + |body|..] == rest;
  }

  /** The concatenated frames of a sequence of bodies. */
  function Stream(bodies: seq<seq<byte>>): seq<byte>
    requires forall k :: 0 <= k < |bodies| ==> |bodies[k]| < 0x1_0000_0000
  {
    if bodies == [] then [] else EncodeFrame(bodies[0]) + Stream(bodies[1..])
  }

  /**
   * A stream of encoded frames, possibly followed by the beginning of one more, is read
   * as exactly its bodies.
   */
  lemma {:induction false} FramesOfStream(bodies: seq<seq<byte>>, partial: seq<byte>)
    requires forall k :: 0 <= k < |bodies| ==> |bodies[k]| < 0x1_0000_0000
    requires Frames(partial) == []
    ensures Frames(Stream(bodies) + partial) == bodies
  {
    if bodies != [] {
      var tail := Stream(bodies[1..]);
      assert Stream(bodies) + partial == EncodeFrame(bodies[0]) + (tail + partial);
      FramesOfEncodeFrame(bodies[0], tail + partial);
      FramesOfStream(bodies[1..], partial);
    } else {
      assert Stream(bodies) + partial == partial;
    }
  }

  /** The point in the frame loop that the next completion handler continues from. */
  datatype ReadState = AwaitingLength | AwaitingBody | Closed

  /**
   * One connection's session. handled records, frame by frame, what handleMessage did,
   * or the exception readBody caught.
   */
  class Session {
    /**
     * What readBody does with a body: Session::handleMessage of the body read as text,
     * bound to the desktop path (getDesktopPath(), a Win32 lookup) and to the JSON parser
     * (nlohmann::json::parse), neither of which is part of this model.
     */
    const handle: seq<byte> -> Result<Effect, MessageError>

    var dataLen: u32
    var data: seq<byte>
    var state: ReadState
    /** The bytes the socket has still to deliver. */
    var input: seq<byte>
    var handled: seq<Result<Effect, MessageError>>

    /** While a body is awaited, the buffer has the announced length. */
    ghost predicate Valid()
      reads this
    {
      state == AwaitingBody ==> |data| == dataLen as int
    }

    /** The outcomes still to come from the present state, the reads going as they will. */
    ghost function Pending(): seq<Result<Effect, MessageError>>
      reads this
    {
      PendingFrom(handle, state, input, |data|)
    }

    /** Session(socket) followed by start(): the first header read is issued. */
    constructor(desktop: string, parse: string -> Option<JsonObject>, input: seq<byte>)
      ensures forall body :: handle(body) == HandleMessage(desktop, parse(Chars(body)))
      ensures this.input == input
      ensures dataLen == 0 && data == [] && state == AwaitingLength && handled == []
    {
      handle := body => HandleMessage(desktop, parse(Chars(body)));
      this.input := input;
      dataLen := 0;
      data := [];
      state := AwaitingLength;
      handled := [];
    }

    /**
     * readHeader's completion: four bytes fill _dataLen, _data is resized to it and the
     * body read is issued; on a read error nothing more is read.
     */
    method ReadHeader()
      requires state == AwaitingLength
      modifies this
      ensures Valid()
      ensures handled == old(handled)
      ensures |old(input)| < 4 ==>
        state == Closed && dataLen == old(dataLen) && data == old(data) && input == old(input)
      ensures |old(input)| >= 4 ==>
        && dataLen == LengthOf(old(input)[..4]) && data == Resize(old(data), dataLen as int)
        && input == old(input)[4..] && state == AwaitingBody
      ensures Pending() == Outcomes(handle, Frames(old(input)))
    {
      if |input| < 4 {
        state := Closed;
      } else {
        var n := LengthOf(input[..4]);
        dataLen := n;
        data := Resize(data, n as int);
        ResizeContents(old(data), n as int);
        input := input[4..];
        state := AwaitingBody;
        if n as int <= |input| {
          assert input[..n] == old(input)[4..4 + n as int] && input[n..] == old(input)[4 + n as int..];
        }
      }
    }

    /**
     * readBody's completion: the buffer is filled with the next |_data| bytes, the text is
     * handled, whatever handleMessage throws is caught, and the next header read is
     * issued; on a read error nothing more is read.
     */
    method ReadBody()
      requires state == AwaitingBody && Valid()
      modifies this
      ensures dataLen == old(dataLen)
      ensures |old(input)| < |old(data)| ==>
        state == Closed && data == old(data) && input == old(input) && handled == old(handled)
      ensures |old(input)| >= |old(data)| ==>
        && data == old(input)[..|old(data)|] && |data| == dataLen as int
        && input == old(input)[|old(data)|..]
        && handled == old(handled) + [handle(data)]
        && state == AwaitingLength
      ensures Valid()
    {
      if |input| < |data| {
        state := Closed;
      } else {
        var n := |data|;
        data := input[..n];
        input := input[n..];
        handled := handled + [handle(data)];
        state := AwaitingLength;
      }
    }

    /** The next completion handler to run; once closed, no read is issued any more. */
    method Step()
      requires Valid()
      modifies this
      ensures Valid()
      ensures old(state) == Closed ==> unchanged(this)
      ensures handled + Pending() == old(handled + Pending())
      ensures old(state) != Closed ==> 3 * |input| + Rank(state) < old(3 * |input| + Rank(state))
    {
      match state
      case AwaitingLength =>
        ReadHeader();
      case AwaitingBody =>
        ghost var before := handled;
        ReadBody();
        if state != Closed {
          assert handled + Pending() == before + ([handle(data)] + Pending());
        }
      case Closed =>
    }

    /**
     * start() and every completion after it: frames are read and handled until a read
     * fails, and each complete frame of the input is handled once, in order.
     */
    method Run()
      requires state == AwaitingLength
      modifies this
      ensures state == Closed
      ensures handled == old(handled) + Outcomes(handle, Frames(old(input)))
    {
      while state != Closed
        invariant Valid()
        invariant handled + Pending() == old(handled) + Outcomes(handle, Frames(old(input)))
        decreases 3 * |input| + Rank(state)
      {
        Step();
      }
    }
  }

  /** The outcomes of a sequence of frame bodies, in order. */
  function Outcomes(handle: seq<byte> -> Result<Effect, MessageError>, bodies: seq<seq<byte>>)
    : seq<Result<Effect, MessageError>>
  {
    if bodies == [] then [] else [handle(bodies[0])] + Outcomes(handle, bodies[1..])
  }

  /** One outcome per body, each the handling of that body. */
  lemma {:induction false} OutcomesPointwise(handle: seq<byte> -> Result<Effect, MessageError>, bodies: seq<seq<byte>>)
    ensures |Outcomes(handle, bodies)| == |bodies|
    ensures forall k :: 0 <= k < |bodies| ==> Outcomes(handle, bodies)[k] == handle(bodies[k])
  {
    if bodies != [] {
      OutcomesPointwise(handle, bodies[1..]);
    }
  }

  /**
   * The outcomes a session will still record from state, with input still to come and a
   * body of size bytes awaited: the frames of the input, read as they will be.
   */
  ghost function PendingFrom(handle: seq<byte> -> Result<Effect, MessageError>, state: ReadState, input: seq<byte>, size: nat)
    : seq<Result<Effect, MessageError>>
  {
    match state
    case AwaitingLength => Outcomes(handle, Frames(input))
    case AwaitingBody =>
      if |input| < size then [] else [handle(input[..size])] + Outcomes(handle, Frames(input[size..]))
    case Closed => []
  }

  /** A measure of how far a state is from needing more input. */
  function Rank(s: ReadState): (r: nat)
    ensures r == 0 <==> s == Closed
  {
    match s
    case AwaitingLength => 1
    case AwaitingBody => 2
    case Closed => 0
  }
}
