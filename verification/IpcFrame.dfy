/** What travels on a socket: each message body preceded by a SOCKET_MSG_HEAD. */
module IpcFrame {
  import opened Bytes

  const MAXMSG := 262144
  const HEADMAGIC := 0xabcd

  /** sizeof(struct SOCKET_MSG_HEAD), which every channel also uses as its msgpad. */
  const MSGPAD := 8

  function Head(len: nat): (h: bytes)
    ensures |h| == MSGPAD
  {
    Le32(len) + Le32(HEADMAGIC)
  }

  /** A 32-bit word read as an int. */
  function Int32(n: int): (i: int)
    ensures -0x8000_0000 <= i < 0x8000_0000
    ensures -0x8000_0000 <= n < 0x8000_0000 ==> i == n
  {
    var w := n % 0x1_0000_0000;
    if w < 0x8000_0000 then w else w - 0x1_0000_0000
  }

  /** msg_len, which is signed. */
  function HeadLen(h: bytes): (n: int)
    requires |h| == MSGPAD
    ensures -0x8000_0000 <= n < 0x8000_0000
  {
    Int32(Un32(h[..4]))
  }

  function HeadMagic(h: bytes): (n: nat)
    requires |h| == MSGPAD
  {
    Un32(h[4..])
  }

  function Frame(body: bytes): (f: bytes)
    ensures |f| == MSGPAD + |body|
  {
    Head(|body|) + body
  }

  function Frames(bodies: seq<bytes>): bytes {
    if bodies == [] then [] else Frame(bodies[0]) + Frames(bodies[1..])
  }

  ghost predicate Sendable(bodies: seq<bytes>) {
    forall i | 0 <= i < |bodies| :: |bodies[i]| <= MAXMSG
  }

  /** msg_len and magic as a little-endian machine stores them. */
  lemma HeadOctets(len: nat)
    ensures Head(len) ==
      [len % 256, len / 256 % 256, len / 0x1_0000 % 256, len / 0x100_0000 % 256, 0xcd, 0xab, 0, 0]
  {
  }

  lemma HeadReads(len: nat)
    requires len < 0x8000_0000
    ensures HeadLen(Head(len)) == len && HeadMagic(Head(len)) == HEADMAGIC
  {
    Un32Le32(len);
    Un32Le32(HEADMAGIC);
    assert Head(len)[..4] == Le32(len) && Head(len)[4..] == Le32(HEADMAGIC);
  }

  lemma {:induction false} FramesAppend(a: seq<bytes>, b: seq<bytes>)
    ensures Frames(a + b) == Frames(a) + Frames(b)
  {
    if a == [] {
      assert a + b == b;
    } else {
      assert (a + b)[1..] == a[1..] + b;
      FramesAppend(a[1..], b);
    }
  }

  lemma FramesSnoc(a: seq<bytes>, x: bytes)
    ensures Frames(a + [x]) == Frames(a) + Frame(x)
  {
    FramesAppend(a, [x]);
    assert Frames([x]) == Frame(x) + Frames([]);
  }

  /** The frames of the first n messages followed by those of the rest. */
  lemma FramesSplit(a: seq<bytes>, n: nat)
    requires n <= |a|
    ensures Frames(a) == Frames(a[..n]) + Frames(a[n..])
  {
    assert a == a[..n] + a[n..];
    FramesAppend(a[..n], a[n..]);
  }

  /** A stream of well-formed frames that shows a whole header shows the header of its first message. */
  lemma FirstHead(pending: bytes, sent: seq<bytes>)
    requires pending <= Frames(sent) && |pending| >= MSGPAD && Sendable(sent)
    ensures sent != []
    ensures HeadMagic(pending[..MSGPAD]) == HEADMAGIC
    ensures HeadLen(pending[..MSGPAD]) == |sent[0]|
  {
    HeadReads(|sent[0]|);
    assert pending[..MSGPAD] == Frames(sent)[..MSGPAD] == Head(|sent[0]|);
  }

  /** ... and one that shows the whole first frame shows its body, and goes on with the second frame. */
  lemma FirstFrame(pending: bytes, sent: seq<bytes>)
    requires pending <= Frames(sent) && sent != [] && |pending| >= MSGPAD + |sent[0]|
    ensures pending[MSGPAD..MSGPAD + |sent[0]|] == sent[0]
    ensures pending[MSGPAD + |sent[0]|..] <= Frames(sent[1..])
  {
    var k := MSGPAD + |sent[0]|;
    assert Frames(sent) == Frame(sent[0]) + Frames(sent[1..]);
    assert pending[..k] == Frames(sent)[..k] == Frame(sent[0]);
    assert pending[MSGPAD..k] == pending[..k][MSGPAD..];
    assert Frames(sent)[k..] == Frames(sent[1..]);
    assert pending == pending[..k] + pending[k..];
  }
}
