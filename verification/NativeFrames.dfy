/** Native-messaging frames: a four-byte little-endian length and that many bytes, read from a pipe that
    may end anywhere. */
module NativeFrames {
  type byte = n: int | 0 <= n < 256 witness 0

  const LIMIT := 4 * 1024 * 1024
  const U32 := 0x1_0000_0000

  function LowByte(n: nat): (b: byte)
    ensures b == n % 256
  {
    var r: int := n % 256;
    r
  }

  /** `u32::to_le_bytes`. */
  function LeBytes(n: nat): (r: seq<byte>)
    requires n < U32
    ensures |r| == 4
  {
    [LowByte(n), LowByte(n / 256), LowByte(n / 65536), LowByte(n / 16777216)]
  }

  /** `u32::from_le_bytes`. */
  function FromLe(b: seq<byte>): (n: nat)
    requires |b| == 4
    ensures n < U32
  {
    var b0: int, b1: int, b2: int, b3: int := b[0], b[1], b[2], b[3];
    b0 + 256 * b1 + 65536 * b2 + 16777216 * b3
  }

  lemma LeRoundTrip(n: nat)
    requires n < U32
    ensures FromLe(LeBytes(n)) == n
  {
    var a, b, c := n / 256, n / 65536, n / 16777216;
    assert n == a * 256 + n % 256;
    assert a == b * 256 + a % 256;
    assert b == c * 256 + b % 256;
    assert c % 256 == c;
  }

  /** The number some bytes stand for, the least significant first. */
  function LeValue(b: seq<byte>): int {
    if b == [] then 0 else
      var low: int := b[0];
      low + 256 * LeValue(b[1..])
  }

  lemma LeastByteFirst(b: seq<byte>)
    requires |b| == 4
    ensures FromLe(b) == LeValue(b)
  {
    var low1, low2, low3 := b[1..], b[2..], b[3..];
    assert low1[1..] == low2 && low2[1..] == low3 && low3[1..] == [];
    assert LeValue(low3) == b[3] as int;
    assert LeValue(low2) == b[2] as int + 256 * LeValue(low3);
    assert LeValue(low1) == b[1] as int + 256 * LeValue(low2);
  }

  /** A payload that is text and parses; the rest is dropped. */
  type Check = seq<byte> -> bool

  predicate Acceptable(len: nat) {
    0 < len <= LIMIT
  }

  /** What the loop forwards from a whole input. */
  function Forwarded(input: seq<byte>, valid: Check): seq<seq<byte>>
    decreases |input|
  {
    if |input| < 4 then []
    else
      var len := FromLe(input[..4]);
      if !Acceptable(len) || |input| < 4 + len then []
      else
        var body := input[4..4 + len];
        (if valid(body) then [body] else []) + Forwarded(input[4 + len..], valid)
  }

  lemma ShortForwardsNothing(input: seq<byte>, valid: Check)
    requires |input| < 4
    ensures Forwarded(input, valid) == []
  {}

  /** The stdin loop. */
  method ReadFrames(input: seq<byte>, valid: Check) returns (sent: seq<seq<byte>>)
    ensures sent == Forwarded(input, valid)
  {
    hide Forwarded, FromLe;
    sent := [];
    var at := 0;
    assert input[0..] == input;
    while true
      invariant at <= |input|
      invariant sent + Forwarded(input[at..], valid) == Forwarded(input, valid)
      decreases |input| - at
    {
      assert sent + [] == sent;
      if |input| - at < 4 {
        ShortForwardsNothing(input[at..], valid);
        break;
      }
      StepAt(input, at, valid);
      ghost var before := sent;
      var len := FromLe(input[at..at + 4]);
      if len == 0 || len > LIMIT {
        break;
      }
      if |input| - at - 4 < len {
        break;
      }
      var buf := input[at + 4..at + 4 + len];
      at := at + 4 + len;
      JoinSent(before, if valid(buf) then [buf] else [], Forwarded(input[at..], valid));
      if !valid(buf) {
        assert before + [] == before;
        continue;
      }
      sent := sent + [buf];
    }
  }

  lemma JoinSent(a: seq<seq<byte>>, b: seq<seq<byte>>, c: seq<seq<byte>>)
    ensures a + (b + c) == a + b + c
  {
  }

  /** `write_framed`; the length is cast to 32 bits. */
  function Frame(payload: seq<byte>): seq<byte> {
    LeBytes(|payload| % U32) + payload
  }

  function Stream(messages: seq<seq<byte>>): seq<byte> {
    if messages == [] then [] else Frame(messages[0]) + Stream(messages[1..])
  }

  function Kept(messages: seq<seq<byte>>, valid: Check): seq<seq<byte>> {
    if messages == [] then [] else (if valid(messages[0]) then [messages[0]] else []) + Kept(messages[1..], valid)
  }

  predicate AllAcceptable(messages: seq<seq<byte>>) {
    forall m :: m in messages ==> Acceptable(|m|)
  }

  /** The loop body's step: the frame at `at` is whole. */
  lemma StepAt(input: seq<byte>, at: nat, valid: Check)
    requires at + 4 <= |input|
    ensures var len := FromLe(input[at..at + 4]);
            Forwarded(input[at..], valid) ==
            if !Acceptable(len) || |input| < at + 4 + len then []
            else
              var body := input[at + 4..at + 4 + len];
              (if valid(body) then [body] else []) + Forwarded(input[at + 4 + len..], valid)
  {
    var s := input[at..];
    assert s[..4] == input[at..at + 4];
    var len := FromLe(s[..4]);
    if |input| >= at + 4 + len {
      assert s[4..4 + len] == input[at + 4..at + 4 + len] && s[4 + len..] == input[at + 4 + len..];
    }
  }

  lemma FrameFirst(m: seq<byte>, tail: seq<byte>, valid: Check)
    requires Acceptable(|m|)
    ensures Forwarded(Frame(m) + tail, valid) == (if valid(m) then [m] else []) + Forwarded(tail, valid)
  {
    hide FromLe, LeBytes;
    var input := Frame(m) + tail;
    LeRoundTrip(|m|);
    assert input[..4] == LeBytes(|m|);
    assert input[4..4 + |m|] == m && input[4 + |m|..] == tail;
  }

  /** Framed messages come out as they went in, less those that are not valid, and what follows them is read
      from the right place: a dropped frame never desynchronises the stream. */
  lemma {:induction false} FramesReadBack(messages: seq<seq<byte>>, tail: seq<byte>, valid: Check)
    requires AllAcceptable(messages)
    ensures Forwarded(Stream(messages) + tail, valid) == Kept(messages, valid) + Forwarded(tail, valid)
    decreases |messages|
  {
    hide Forwarded, Frame;
    if messages == [] {
      assert Stream(messages) + tail == tail;
      assert [] + Forwarded(tail, valid) == Forwarded(tail, valid);
    } else {
      var m, rest := messages[0], messages[1..];
      assert Stream(messages) + tail == Frame(m) + (Stream(rest) + tail);
      FrameFirst(m, Stream(rest) + tail, valid);
      FramesReadBack(rest, tail, valid);
      var one := if valid(m) then [m] else [];
      assert one + (Kept(rest, valid) + Forwarded(tail, valid)) == one + Kept(rest, valid) + Forwarded(tail, valid);
    }
  }

  lemma {:induction false} KeptAll(messages: seq<seq<byte>>, valid: Check)
    requires forall m :: m in messages ==> valid(m)
    ensures Kept(messages, valid) == messages
  {
    if messages != [] {
      KeptAll(messages[1..], valid);
      assert messages == [messages[0]] + messages[1..];
    }
  }

  /** Valid messages of one byte to the limit survive the round trip. */
  lemma RoundTrip(messages: seq<seq<byte>>, valid: Check)
    requires forall m :: m in messages ==> 1 <= |m| <= 4_194_304 && valid(m)
    ensures Forwarded(Stream(messages), valid) == messages
  {
    FramesReadBack(messages, [], valid);
    KeptAll(messages, valid);
    assert Stream(messages) + [] == Stream(messages);
    assert messages + [] == messages;
  }

  /** A pipe that ends early, anywhere, costs messages at the end and nothing else. */
  lemma {:induction false} PrefixForwardsPrefix(input: seq<byte>, n: nat, valid: Check)
    requires n <= |input|
    ensures Forwarded(input[..n], valid) <= Forwarded(input, valid)
    decreases n
  {
    hide FromLe;
    if n >= 4 {
      assert input[..n][..4] == input[..4];
      var len := FromLe(input[..4]);
      if Acceptable(len) && n >= 4 + len {
        assert input[..n][4..4 + len] == input[4..4 + len];
        assert input[..n][4 + len..] == input[4 + len..][..n - 4 - len];
        PrefixForwardsPrefix(input[4 + len..], n - 4 - len, valid);
      }
    }
  }

  lemma PartForwardsNothing(next: seq<byte>, part: seq<byte>, valid: Check)
    requires Acceptable(|next|) && |part| < 4 + |next| && part == Frame(next)[..|part|]
    ensures Forwarded(part, valid) == []
  {
    hide LeBytes, FromLe;
    if |part| >= 4 {
      LeRoundTrip(|next|);
      assert part[..4] == Frame(next)[..4] == LeBytes(|next|);
    }
  }

  /** Exactly the messages whose frames arrived whole are forwarded when the pipe ends inside the next one. */
  lemma CutInsideAFrame(messages: seq<seq<byte>>, next: seq<byte>, n: nat, valid: Check)
    requires AllAcceptable(messages) && Acceptable(|next|) && n < |Frame(next)|
    ensures Forwarded(Stream(messages) + Frame(next)[..n], valid) == Kept(messages, valid)
  {
    var part := Frame(next)[..n];
    FramesReadBack(messages, part, valid);
    PartForwardsNothing(next, part, valid);
    assert Kept(messages, valid) + [] == Kept(messages, valid);
  }

  /** A length of zero or over the limit ends the session: nothing behind it is forwarded. */
  lemma BadLengthEnds(messages: seq<seq<byte>>, len: nat, rest: seq<byte>, valid: Check)
    requires AllAcceptable(messages) && len < U32 && (len == 0 || len > 4_194_304)
    ensures Forwarded(Stream(messages) + LeBytes(len) + rest, valid) == Kept(messages, valid)
  {
    var tail := LeBytes(len) + rest;
    FramesReadBack(messages, tail, valid);
    LeRoundTrip(len);
    assert tail[..4] == LeBytes(len);
    assert Stream(messages) + LeBytes(len) + rest == Stream(messages) + tail;
    assert Kept(messages, valid) + [] == Kept(messages, valid);
  }

  /** The length written is the length of the payload exactly while that fits in 32 bits. */
  lemma LengthFieldExact(payload: seq<byte>)
    ensures FromLe(Frame(payload)[..4]) == |payload| <==> |payload| < U32
  {
    LeRoundTrip(|payload| % U32);
    assert Frame(payload)[..4] == LeBytes(|payload| % U32);
  }
}
