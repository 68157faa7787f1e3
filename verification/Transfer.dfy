/**
  The RPC wire protocol: a version byte, a 32-bit length and a body for each
  message, reassembled from whatever chunks the transport delivers.
 */
module Transfer {
  import opened Bytes

  const PROTOCOL_VERSION: byte := 1
  const HEADER_SIZE: nat := 5

  /** The receiver: buffered bytes, the pending body's length (0 for none), and the bodies handed on. */
  datatype Receiver = Receiver(buffer: seq<byte>, messageLength: nat, dropped: bool, handed: seq<seq<byte>>)

  function Idle(handed: seq<seq<byte>>): Receiver { Receiver([], 0, false, handed) }

  /** The big-endian length field of a header. */
  function LengthField(s: seq<byte>): nat
    requires |s| >= HEADER_SIZE
  {
    var b1: int, b2: int, b3: int, b4: int := s[1], s[2], s[3], s[4];
    b1 * 0x1000000 + b2 * 0x10000 + b3 * 0x100 + b4
  }

  function PackLength(n: nat): (r: seq<byte>)
    requires n < 0x1_0000_0000
    ensures |r| == 4
  {
    [n / 0x1000000, n / 0x10000 % 0x100, n / 0x100 % 0x100, n % 0x100]
  }

  /** What transfer_message writes for a compressed body. */
  function Frame(body: seq<byte>): (r: seq<byte>)
    requires |body| < 0x1_0000_0000
    ensures |r| == HEADER_SIZE + |body|
  {
    [PROTOCOL_VERSION] + PackLength(|body|) + body
  }

  /** The length in the second to fifth byte, most significant first. */
  ghost function HeaderLength(s: seq<byte>): int
    requires |s| >= 5
  {
    ((s[1] as int * 256 + s[2]) * 256 + s[3]) * 256 + s[4]
  }

  /** The wire format: the version byte 1, the length of the body, the body. */
  ghost predicate IsFrameOf(s: seq<byte>, body: seq<byte>) {
    |s| == 5 + |body| && s[0] == 1 && HeaderLength(s) == |body| && s[5..] == body
  }

  // ---------------------------------------------------------------- one call of dataReceived

  function NewMessage(limit: nat, rx: Receiver): Receiver
    requires |rx.buffer| >= HEADER_SIZE
  {
    if rx.buffer[0] != PROTOCOL_VERSION then rx.(buffer := [], messageLength := 0)
    else if LengthField(rx.buffer) > limit then rx.(buffer := [], messageLength := 0, dropped := true)
    else rx.(buffer := rx.buffer[HEADER_SIZE..], messageLength := LengthField(rx.buffer))
  }

  function HandOn(rx: Receiver): Receiver
    requires |rx.buffer| >= rx.messageLength
  {
    rx.(buffer := rx.buffer[rx.messageLength..], messageLength := 0,
        handed := rx.handed + [rx.buffer[..rx.messageLength]])
  }

  /** The loop of dataReceived. */
  function Drain(limit: nat, rx: Receiver): Receiver
    decreases |rx.buffer|
  {
    if |rx.buffer| < HEADER_SIZE then rx
    else
      var started := if rx.messageLength == 0 then NewMessage(limit, rx) else rx;
      if started.dropped then started
      else if |started.buffer| >= started.messageLength then Drain(limit, HandOn(started))
      else started
  }

  function Receive(limit: nat, rx: Receiver, data: seq<byte>): Receiver {
    if rx.dropped then rx else Drain(limit, rx.(buffer := rx.buffer + data))
  }

  function Run(limit: nat, rx: Receiver, chunks: seq<seq<byte>>): Receiver
    decreases |chunks|
  {
    if chunks == [] then rx else Run(limit, Receive(limit, rx, chunks[0]), chunks[1..])
  }

  function Flatten(chunks: seq<seq<byte>>): seq<byte> {
    if chunks == [] then [] else chunks[0] + Flatten(chunks[1..])
  }

  // ---------------------------------------------------------------- the stream, read as a whole

  /** The messages of a byte stream, with no notion of chunks. */
  function Parse(limit: nat, s: seq<byte>, handed: seq<seq<byte>>): Receiver
    decreases |s|
  {
    if |s| < HEADER_SIZE then Receiver(s, 0, false, handed)
    else if s[0] != PROTOCOL_VERSION then Idle(handed + [[]])
    else
      var n := LengthField(s);
      if n > limit then Receiver([], 0, true, handed)
      else if |s| < HEADER_SIZE + n then Receiver(s[HEADER_SIZE..], n, false, handed)
      else Parse(limit, s[HEADER_SIZE + n..], handed + [s[HEADER_SIZE..HEADER_SIZE + n]])
  }

  /**
    A stream whose reading cannot depend on its chunks: a foreign version byte
    only in a header that ends the stream, and no complete body of 1 to 4 bytes.
   */
  predicate Clean(limit: nat, s: seq<byte>)
    decreases |s|
  {
    |s| < HEADER_SIZE ||
    if s[0] != PROTOCOL_VERSION then |s| == HEADER_SIZE
    else
      var n := LengthField(s);
      n > limit || |s| < HEADER_SIZE + n || (!(0 < n < HEADER_SIZE) && Clean(limit, s[HEADER_SIZE + n..]))
  }

  lemma LengthOfPrefix(a: seq<byte>, b: seq<byte>)
    requires |a| >= HEADER_SIZE
    ensures LengthField(a + b) == LengthField(a)
  {
  }

  /** The loop started between messages reads the buffer as a stream. */
  lemma {:induction false} DrainIsParse(limit: nat, s: seq<byte>, handed: seq<seq<byte>>)
    ensures Drain(limit, Receiver(s, 0, false, handed)) == Parse(limit, s, handed)
    decreases |s|
  {
    if |s| >= HEADER_SIZE && s[0] == PROTOCOL_VERSION && LengthField(s) <= limit {
      var n := LengthField(s);
      if |s| >= HEADER_SIZE + n {
        assert s[HEADER_SIZE..][n..] == s[HEADER_SIZE + n..];
        assert s[HEADER_SIZE..][..n] == s[HEADER_SIZE..HEADER_SIZE + n];
        DrainIsParse(limit, s[HEADER_SIZE + n..], handed + [s[HEADER_SIZE..HEADER_SIZE + n]]);
      }
    }
  }

  lemma {:induction false} CleanPrefix(limit: nat, a: seq<byte>, b: seq<byte>)
    requires Clean(limit, a + b)
    ensures Clean(limit, a)
    decreases |a|
  {
    if |a| >= HEADER_SIZE && a[0] == PROTOCOL_VERSION {
      var n := LengthField(a);
      LengthOfPrefix(a, b);
      if |a| >= HEADER_SIZE + n && n <= limit {
        assert (a + b)[HEADER_SIZE + n..] == a[HEADER_SIZE + n..] + b;
        CleanPrefix(limit, a[HEADER_SIZE + n..], b);
      }
    }
  }

  /** More bytes continue a clean stream as if they had come at once. */
  lemma {:induction false} ReceiveContinues(limit: nat, a: seq<byte>, b: seq<byte>, handed: seq<seq<byte>>)
    requires Clean(limit, a + b)
    ensures Receive(limit, Parse(limit, a, handed), b) == Parse(limit, a + b, handed)
    decreases |a|
  {
    if |a| < HEADER_SIZE {
      DrainIsParse(limit, a + b, handed);
    } else if a[0] != PROTOCOL_VERSION {
      assert b == [];
      assert [] + b == [];
    } else {
      var n := LengthField(a);
      LengthOfPrefix(a, b);
      if n > limit {
      } else if |a| < HEADER_SIZE + n {
        var rest := a[HEADER_SIZE..] + b;
        assert (a + b)[HEADER_SIZE..] == rest;
        if |rest| >= n && |rest| >= HEADER_SIZE {
          assert rest[n..] == (a + b)[HEADER_SIZE + n..];
          assert rest[..n] == (a + b)[HEADER_SIZE..HEADER_SIZE + n];
          DrainIsParse(limit, rest[n..], handed + [rest[..n]]);
        }
      } else {
        assert (a + b)[HEADER_SIZE + n..] == a[HEADER_SIZE + n..] + b;
        assert (a + b)[HEADER_SIZE..HEADER_SIZE + n] == a[HEADER_SIZE..HEADER_SIZE + n];
        ReceiveContinues(limit, a[HEADER_SIZE + n..], b, handed + [a[HEADER_SIZE..HEADER_SIZE + n]]);
      }
    }
  }

  lemma {:induction false} RunContinues(limit: nat, a: seq<byte>, chunks: seq<seq<byte>>, handed: seq<seq<byte>>)
    requires Clean(limit, a + Flatten(chunks))
    ensures Run(limit, Parse(limit, a, handed), chunks) == Parse(limit, a + Flatten(chunks), handed)
    decreases |chunks|
  {
    if chunks == [] {
      assert a + Flatten(chunks) == a;
    } else {
      assert a + Flatten(chunks) == (a + chunks[0]) + Flatten(chunks[1..]);
      CleanPrefix(limit, a + chunks[0], Flatten(chunks[1..]));
      ReceiveContinues(limit, a, chunks[0], handed);
      RunContinues(limit, a + chunks[0], chunks[1..], handed);
    }
  }

  /** However a clean stream is cut into chunks, the receiver ends as if it had read it whole. */
  lemma RunIsParse(limit: nat, chunks: seq<seq<byte>>)
    requires Clean(limit, Flatten(chunks))
    ensures Run(limit, Idle([]), chunks) == Parse(limit, Flatten(chunks), [])
  {
    assert [] + Flatten(chunks) == Flatten(chunks);
    RunContinues(limit, [], chunks, []);
  }

  // ---------------------------------------------------------------- when chunking matters

  /** Two ways to cut the same initial part of s that leave the receiver in different states. */
  ghost predicate Disagree(limit: nat, s: seq<byte>, handed: seq<seq<byte>>, c1: seq<seq<byte>>, c2: seq<seq<byte>>) {
    && Flatten(c1) == Flatten(c2) <= s
    && Run(limit, Idle(handed), c1) != Run(limit, Idle(handed), c2)
  }

  ghost predicate ChunkingIndependent(limit: nat, s: seq<byte>) {
    forall c1, c2 :: !Disagree(limit, s, [], c1, c2)
  }

  lemma FlattenPair(a: seq<byte>, b: seq<byte>)
    ensures Flatten([a]) == a && Flatten([a, b]) == a + b
  {
    assert [a, b][1..] == [b] && [b][1..] == [];
    assert Flatten([b]) == b + [] == b;
    assert a + [] == a;
    assert Flatten([a, b]) == a + Flatten([a, b][1..]);
  }

  lemma RunPair(limit: nat, rx: Receiver, a: seq<byte>, b: seq<byte>)
    ensures Run(limit, rx, [a]) == Receive(limit, rx, a)
    ensures Run(limit, rx, [a, b]) == Receive(limit, Receive(limit, rx, a), b)
  {
    assert [a, b][1..] == [b];
    assert Run(limit, rx, [a, b]) == Run(limit, Receive(limit, rx, a), [b]);
    assert Run(limit, Receive(limit, rx, a), [b]) == Receive(limit, Receive(limit, rx, a), b);
  }

  /** Reading s[..m] at once, or its header first. */
  lemma HeaderFirst(limit: nat, s: seq<byte>, m: nat, handed: seq<seq<byte>>)
    requires HEADER_SIZE <= m <= |s|
    ensures Flatten([s[..m]]) == s[..m] == Flatten([s[..HEADER_SIZE], s[HEADER_SIZE..m]])
    ensures Run(limit, Idle(handed), [s[..m]]) == Parse(limit, s[..m], handed)
    ensures Run(limit, Idle(handed), [s[..HEADER_SIZE], s[HEADER_SIZE..m]])
         == Receive(limit, Parse(limit, s[..HEADER_SIZE], handed), s[HEADER_SIZE..m])
  {
    var a, b := s[..HEADER_SIZE], s[HEADER_SIZE..m];
    FlattenPair(s[..m], []);
    FlattenPair(a, b);
    assert a + b == s[..m];
    RunPair(limit, Idle(handed), s[..m], []);
    RunPair(limit, Idle(handed), a, b);
    assert [] + s[..m] == s[..m] && [] + a == a;
    DrainIsParse(limit, s[..m], handed);
    DrainIsParse(limit, a, handed);
  }

  /** A foreign version throws away what came with it, so it matters how much that was. */
  lemma VersionDisagrees(limit: nat, s: seq<byte>, handed: seq<seq<byte>>)
    requires |s| > HEADER_SIZE && s[0] != PROTOCOL_VERSION
    ensures Disagree(limit, s, handed, [s[..6]], [s[..HEADER_SIZE], s[HEADER_SIZE..6]])
  {
    HeaderFirst(limit, s, 6, handed);
  }

  /** A body shorter than a header is handed on with its header, but held back when it comes after it. */
  lemma ShortBodyDisagrees(limit: nat, s: seq<byte>, handed: seq<seq<byte>>, n: nat)
    requires |s| >= HEADER_SIZE + n && s[0] == PROTOCOL_VERSION && n == LengthField(s) <= limit && 0 < n < HEADER_SIZE
    ensures var m := HEADER_SIZE + n;
      Disagree(limit, s, handed, [s[..m]], [s[..HEADER_SIZE], s[HEADER_SIZE..m]])
  {
    var m := HEADER_SIZE + n;
    HeaderFirst(limit, s, m, handed);
    assert LengthField(s[..m]) == n && LengthField(s[..HEADER_SIZE]) == n;
    assert Parse(limit, s[..HEADER_SIZE], handed) == Receiver([], n, false, handed);
    assert Parse(limit, s[..m], handed).messageLength == 0;
  }

  /** A complete frame in one chunk leaves the receiver idle again. */
  lemma OneFrame(limit: nat, s: seq<byte>, handed: seq<seq<byte>>, n: nat)
    requires |s| >= HEADER_SIZE + n && s[0] == PROTOCOL_VERSION && n == LengthField(s) <= limit
    ensures Receive(limit, Idle(handed), s[..HEADER_SIZE + n]) == Idle(handed + [s[HEADER_SIZE..HEADER_SIZE + n]])
  {
    var frame := s[..HEADER_SIZE + n];
    assert [] + frame == frame;
    DrainIsParse(limit, frame, handed);
    assert LengthField(frame) == n && frame[HEADER_SIZE + n..] == [];
    assert frame[HEADER_SIZE..HEADER_SIZE + n] == s[HEADER_SIZE..HEADER_SIZE + n];
  }

  /** A stream that is not clean has an initial part that two cuts read differently. */
  lemma {:induction false} UncleanDisagrees(limit: nat, s: seq<byte>, handed: seq<seq<byte>>)
    returns (c1: seq<seq<byte>>, c2: seq<seq<byte>>)
    requires !Clean(limit, s)
    ensures Disagree(limit, s, handed, c1, c2)
    decreases |s|
  {
    var n := LengthField(s);
    if s[0] != PROTOCOL_VERSION {
      VersionDisagrees(limit, s, handed);
      c1, c2 := [s[..6]], [s[..HEADER_SIZE], s[HEADER_SIZE..6]];
    } else if 0 < n < HEADER_SIZE {
      ShortBodyDisagrees(limit, s, handed, n);
      c1, c2 := [s[..HEADER_SIZE + n]], [s[..HEADER_SIZE], s[HEADER_SIZE..HEADER_SIZE + n]];
    } else {
      var m := HEADER_SIZE + n;
      var d1, d2 := UncleanDisagrees(limit, s[m..], handed + [s[HEADER_SIZE..m]]);
      OneFrame(limit, s, handed, n);
      hide Run, Receive, Clean, Flatten;
      c1 := Prepend(limit, s, m, handed, d1);
      c2 := Prepend(limit, s, m, handed, d2);
    }
  }

  /** A chunk for the first m bytes, and then the chunks of the rest. */
  lemma Prepend(limit: nat, s: seq<byte>, m: nat, handed: seq<seq<byte>>, d: seq<seq<byte>>) returns (c: seq<seq<byte>>)
    requires m <= |s| && Flatten(d) <= s[m..]
    ensures Flatten(c) == s[..m] + Flatten(d) <= s
    ensures Run(limit, Idle(handed), c) == Run(limit, Receive(limit, Idle(handed), s[..m]), d)
  {
    c := [s[..m]] + d;
    assert c[1..] == d;
    assert s == s[..m] + s[m..];
  }

  /** Chunks do not matter, for the stream and all its initial parts, exactly when the stream is clean. */
  lemma ChunkingIndependentIffClean(limit: nat, s: seq<byte>)
    ensures ChunkingIndependent(limit, s) <==> Clean(limit, s)
  {
    if !Clean(limit, s) {
      var c1, c2 := UncleanDisagrees(limit, s, []);
      assert Disagree(limit, s, [], c1, c2);
    } else {
      forall c1, c2 | Flatten(c1) == Flatten(c2) <= s
        ensures !Disagree(limit, s, [], c1, c2)
      {
        assert s == Flatten(c1) + s[|Flatten(c1)|..];
        CleanPrefix(limit, Flatten(c1), s[|Flatten(c1)|..]);
        RunIsParse(limit, c1);
        RunIsParse(limit, c2);
      }
    }
  }

  // ---------------------------------------------------------------- sender to receiver

  /** Bodies this protocol can carry: a compressed body is never shorter than a header. */
  predicate Sendable(limit: nat, bodies: seq<seq<byte>>) {
    limit < 0x1_0000_0000 && forall i :: 0 <= i < |bodies| ==> HEADER_SIZE <= |bodies[i]| <= limit
  }

  function Frames(limit: nat, bodies: seq<seq<byte>>): seq<byte>
    requires Sendable(limit, bodies)
  {
    if bodies == [] then [] else Frame(bodies[0]) + Frames(limit, bodies[1..])
  }

  /** How many of the frames are complete in the first n bytes. */
  function Complete(bodies: seq<seq<byte>>, n: nat): (k: nat)
    ensures k <= |bodies|
  {
    if bodies == [] || n < HEADER_SIZE + |bodies[0]| then 0
    else 1 + Complete(bodies[1..], n - HEADER_SIZE - |bodies[0]|)
  }

  lemma UnpackPack(n: nat)
    requires n < 0x1_0000_0000
    ensures n / 0x1000000 * 0x1000000 + n / 0x10000 % 0x100 * 0x10000 + n / 0x100 % 0x100 * 0x100 + n % 0x100 == n
  {
    var a, b, c := n / 0x100, n / 0x10000, n / 0x1000000;
    assert n == a * 0x100 + n % 0x100;
    assert b == a / 0x100 && a == b * 0x100 + a % 0x100;
    assert c == b / 0x100 && b == c * 0x100 + b % 0x100;
  }

  lemma HeaderOfFrame(body: seq<byte>, t: seq<byte>)
    requires |body| < 0x1_0000_0000 && |t| >= HEADER_SIZE
    requires t[..HEADER_SIZE] == Frame(body)[..HEADER_SIZE]
    ensures t[0] == PROTOCOL_VERSION && LengthField(t) == |body|
  {
    UnpackPack(|body|);
    var packed := PackLength(|body|);
    assert t[..HEADER_SIZE] == [PROTOCOL_VERSION] + packed;
    assert t[0] == t[..HEADER_SIZE][0];
    assert t[1] == t[..HEADER_SIZE][1] == packed[0];
    assert t[2] == t[..HEADER_SIZE][2] == packed[1];
    assert t[3] == t[..HEADER_SIZE][3] == packed[2];
    assert t[4] == t[..HEADER_SIZE][4] == packed[3];
  }

  lemma FrameIsFrameOf(body: seq<byte>)
    requires |body| < 0x1_0000_0000
    ensures IsFrameOf(Frame(body), body)
  {
    HeaderOfFrame(body, Frame(body));
  }

  /** The header of an initial part of the frames is the first frame's, and past that frame the rest follows. */
  lemma FirstFrame(limit: nat, bodies: seq<seq<byte>>, t: seq<byte>)
    requires Sendable(limit, bodies) && bodies != [] && t <= Frames(limit, bodies) && |t| >= HEADER_SIZE
    ensures t[0] == PROTOCOL_VERSION && LengthField(t) == |bodies[0]|
    ensures var m := HEADER_SIZE + |bodies[0]|;
      |t| >= m ==>
        && t[HEADER_SIZE..m] == bodies[0]
        && t[m..] <= Frames(limit, bodies[1..])
        && (t == Frames(limit, bodies) ==> t[m..] == Frames(limit, bodies[1..]))
  {
    var all, frame := Frames(limit, bodies), Frame(bodies[0]);
    assert t == all[..|t|];
    assert all[..HEADER_SIZE] == frame[..HEADER_SIZE];
    assert t[..HEADER_SIZE] == all[..HEADER_SIZE];
    HeaderOfFrame(bodies[0], t);
    if |t| >= |frame| {
      assert all[HEADER_SIZE..|frame|] == bodies[0];
      assert t[HEADER_SIZE..|frame|] == all[HEADER_SIZE..|frame|];
      assert all[|frame|..] == Frames(limit, bodies[1..]);
      assert t[|frame|..] == all[|frame|..][..|t| - |frame|];
    }
  }

  /** t reads as these frames, the last one possibly cut short. */
  ghost predicate ReadsAs(bodies: seq<seq<byte>>, t: seq<byte>)
    decreases |bodies|
  {
    |t| < HEADER_SIZE || (
      && bodies != [] && t[0] == PROTOCOL_VERSION && LengthField(t) == |bodies[0]|
      && (|t| < HEADER_SIZE + |bodies[0]| || (
        && t[HEADER_SIZE..HEADER_SIZE + |bodies[0]|] == bodies[0]
        && ReadsAs(bodies[1..], t[HEADER_SIZE + |bodies[0]|..]))))
  }

  lemma {:induction false} FramesRead(limit: nat, bodies: seq<seq<byte>>, t: seq<byte>)
    requires Sendable(limit, bodies) && t <= Frames(limit, bodies)
    ensures ReadsAs(bodies, t)
    decreases |bodies|
  {
    if bodies != [] && |t| >= HEADER_SIZE {
      FirstFrame(limit, bodies, t);
      if |t| >= HEADER_SIZE + |bodies[0]| {
        FramesRead(limit, bodies[1..], t[HEADER_SIZE + |bodies[0]|..]);
      }
    }
  }

  lemma {:induction false} ReadsClean(limit: nat, bodies: seq<seq<byte>>, t: seq<byte>)
    requires Sendable(limit, bodies) && ReadsAs(bodies, t)
    ensures Clean(limit, t)
    decreases |bodies|
  {
    if |t| >= HEADER_SIZE && |t| >= HEADER_SIZE + |bodies[0]| {
      ReadsClean(limit, bodies[1..], t[HEADER_SIZE + |bodies[0]|..]);
    }
  }

  lemma AppendTaken<T>(handed: seq<T>, bodies: seq<T>, k: nat)
    requires bodies != [] && k < |bodies|
    ensures (handed + [bodies[0]]) + bodies[1..][..k] == handed + bodies[..1 + k]
    ensures (handed + [bodies[0]]) + bodies[1..] == handed + bodies
  {
    assert bodies[..1 + k] == [bodies[0]] + bodies[1..][..k];
    assert bodies == [bodies[0]] + bodies[1..];
  }

  lemma {:induction false} ReadsHanded(limit: nat, bodies: seq<seq<byte>>, t: seq<byte>, handed: seq<seq<byte>>)
    requires Sendable(limit, bodies) && ReadsAs(bodies, t)
    ensures !Parse(limit, t, handed).dropped
    ensures Parse(limit, t, handed).handed == handed + bodies[..Complete(bodies, |t|)]
    decreases |bodies|
  {
    assert handed + bodies[..0] == handed;
    if |t| >= HEADER_SIZE && |t| >= HEADER_SIZE + |bodies[0]| {
      var m := HEADER_SIZE + |bodies[0]|;
      ReadsHanded(limit, bodies[1..], t[m..], handed + [bodies[0]]);
      AppendTaken(handed, bodies, Complete(bodies[1..], |t| - m));
    }
  }

  lemma {:induction false} AllFrames(limit: nat, bodies: seq<seq<byte>>, handed: seq<seq<byte>>)
    requires Sendable(limit, bodies)
    ensures Parse(limit, Frames(limit, bodies), handed) == Idle(handed + bodies)
    decreases |bodies|
  {
    if bodies == [] {
      assert handed + bodies == handed;
    } else {
      FirstFrame(limit, bodies, Frames(limit, bodies));
      AllFrames(limit, bodies[1..], handed + [bodies[0]]);
      AppendTaken(handed, bodies, 0);
    }
  }

  /**
    Any chunks that so far make up an initial part of the frames have handed on
    exactly the bodies whose frames are complete in it, in order and unaltered.
   */
  lemma BodiesArrive(limit: nat, bodies: seq<seq<byte>>, chunks: seq<seq<byte>>)
    requires Sendable(limit, bodies) && Flatten(chunks) <= Frames(limit, bodies)
    ensures !Run(limit, Idle([]), chunks).dropped
    ensures Run(limit, Idle([]), chunks).handed == bodies[..Complete(bodies, |Flatten(chunks)|)]
    ensures Flatten(chunks) == Frames(limit, bodies) ==> Run(limit, Idle([]), chunks) == Idle(bodies)
  {
    var t := Flatten(chunks);
    FramesRead(limit, bodies, t);
    ReadsClean(limit, bodies, t);
    ReadsHanded(limit, bodies, t, []);
    AllFrames(limit, bodies, []);
    RunIsParse(limit, chunks);
    assert [] + bodies == bodies;
    assert [] + bodies[..Complete(bodies, |t|)] == bodies[..Complete(bodies, |t|)];
  }

  /** A whole frame in front of a stream. */
  lemma FrameInFront(limit: nat, body: seq<byte>, rest: seq<byte>, handed: seq<seq<byte>>)
    requires limit < 0x1_0000_0000 && HEADER_SIZE <= |body| <= limit
    ensures Parse(limit, Frame(body) + rest, handed) == Parse(limit, rest, handed + [body])
    ensures Clean(limit, Frame(body) + rest) <==> Clean(limit, rest)
  {
    var frame, s, m := Frame(body), Frame(body) + rest, HEADER_SIZE + |body|;
    assert s[..HEADER_SIZE] == frame[..HEADER_SIZE];
    HeaderOfFrame(body, s);
    assert s[HEADER_SIZE..m] == body && s[m..] == rest;
    hide Frame, LengthField;
  }

  /** An oversized header is the end of a stream, whatever bytes follow it. */
  lemma {:induction false} OversizedEnds(limit: nat, bodies: seq<seq<byte>>, rest: seq<byte>, handed: seq<seq<byte>>)
    requires Sendable(limit, bodies) && |rest| >= HEADER_SIZE && rest[0] == 1 && HeaderLength(rest) > limit
    ensures var s := Frames(limit, bodies) + rest;
      Clean(limit, s) && Parse(limit, s, handed) == Receiver([], 0, true, handed + bodies)
    decreases |bodies|
  {
    if bodies == [] {
      assert Frames(limit, bodies) + rest == rest && handed + bodies == handed;
    } else {
      var later := Frames(limit, bodies[1..]) + rest;
      assert Frames(limit, bodies) + rest == Frame(bodies[0]) + later;
      hide Frames, Frame, Parse, Clean;
      FrameInFront(limit, bodies[0], later, handed);
      OversizedEnds(limit, bodies[1..], rest, handed + [bodies[0]]);
      assert handed + [bodies[0]] + bodies[1..] == handed + bodies;
    }
  }

  /**
    After any frames an oversized header drops the connection, however the bytes
    are cut: the bodies before it are handed on, and nothing after it.
   */
  lemma OversizedIsDropped(limit: nat, bodies: seq<seq<byte>>, rest: seq<byte>, chunks: seq<seq<byte>>)
    requires Sendable(limit, bodies) && |rest| >= 5 && rest[0] == 1 && HeaderLength(rest) > limit
    requires Flatten(chunks) == Frames(limit, bodies) + rest
    ensures Run(limit, Idle([]), chunks) == Receiver([], 0, true, bodies)
  {
    OversizedEnds(limit, bodies, rest, []);
    RunIsParse(limit, chunks);
    assert [] + bodies == bodies;
  }

  // ---------------------------------------------------------------- the protocol object

  class TransferProtocol {
    const limit: nat
    var buffer: seq<byte>
    var messageLength: nat
    var bytesReceived: nat
    var bytesSent: nat
    var dropped: bool
    /** The bodies passed to the decompressor, and the bytes written to the transport. */
    var handed: seq<seq<byte>>
    var written: seq<byte>

    function View(): Receiver
      reads this
    {
      Receiver(buffer, messageLength, dropped, handed)
    }

    constructor (limit: nat)
      ensures View() == Idle([]) && this.limit == limit
      ensures bytesReceived == 0 && bytesSent == 0 && written == []
    {
      this.limit := limit;
      buffer, messageLength, dropped, handed := [], 0, false, [];
      bytesReceived, bytesSent, written := 0, 0, [];
    }

    /** Returns false where packing the length into 32 bits raises. */
    method TransferMessage(body: seq<byte>) returns (ok: bool)
      modifies this
      ensures View() == old(View()) && bytesReceived == old(bytesReceived)
      ensures ok <==> |body| < 0x1_0000_0000
      ensures written == if ok then old(written) + Frame(body) else old(written)
      // version 1, the length most significant byte first, the body
      ensures ok ==> IsFrameOf(written[|old(written)|..], body)
      ensures bytesSent == old(bytesSent) + (if ok then 5 + |body| else 0)
    {
      if |body| >= 0x1_0000_0000 {
        return false;
      }
      var message := Frame(body);
      FrameIsFrameOf(body);
      bytesSent := bytesSent + |message|;
      written := written + message;
      assert written[|old(written)|..] == message;
      ok := true;
    }

    method HandleNewMessage()
      requires |buffer| >= HEADER_SIZE
      modifies `buffer, `messageLength, `dropped
      ensures View() == NewMessage(limit, old(View()))
      // a foreign version, an oversized message, and any other header
      ensures var version, length := old(buffer)[0], HeaderLength(old(buffer));
        if version != 1 then buffer == [] && messageLength == 0 && dropped == old(dropped)
        else if length > limit then buffer == [] && messageLength == 0 && dropped
        else buffer == old(buffer)[5..] && messageLength == length && dropped == old(dropped)
    {
      var header := buffer[..HEADER_SIZE];
      messageLength := LengthField(header);
      assert LengthField(header) == LengthField(buffer);
      if header[0] != PROTOCOL_VERSION {
        messageLength := 0;
        buffer := [];
        return;
      }
      buffer := buffer[HEADER_SIZE..];
      if messageLength > limit {
        dropped := true;
        messageLength := 0;
        buffer := [];
      }
    }

    method DataReceived(data: seq<byte>)
      modifies this
      ensures View() == Receive(limit, old(View()), data)
      ensures bytesReceived == old(bytesReceived) + (if old(dropped) then 0 else |data|)
      ensures bytesSent == old(bytesSent) && written == old(written)
    {
      if dropped {
        return;
      }
      buffer := buffer + data;
      bytesReceived := bytesReceived + |data|;
      while |buffer| >= HEADER_SIZE
        invariant !dropped
        invariant Drain(limit, View()) == Receive(limit, old(View()), data)
        invariant bytesReceived == old(bytesReceived) + |data|
        invariant bytesSent == old(bytesSent) && written == old(written)
        decreases |buffer|
      {
        if messageLength == 0 {
          HandleNewMessage();
          if dropped {
            return;
          }
        }
        if |buffer| >= messageLength {
          handed := handed + [buffer[..messageLength]];
          buffer := buffer[messageLength..];
          messageLength := 0;
        } else {
          break;
        }
      }
    }
  }
}
