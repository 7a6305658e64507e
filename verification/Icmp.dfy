/** The in-place ICMP echo reply. */
module Icmp {
  import opened Widths
  import opened InternetChecksum

  // Offsets in the received frame.
  const IP: nat := 14
  const IP_TOTAL: nat := 16
  const IP_PROTOCOL: nat := 23
  const IP_CHECKSUM: nat := 24
  const IP_SRC: nat := 26
  const IP_DST: nat := 30

  const MIN_LEN: nat := 42      // Ethernet + IPv4 + ICMP headers
  const MAX_HEADERS: nat := 78  // Ethernet, the longest IPv4 header, four bytes of ICMP
  const ECHO_REQUEST: nat := 8

  type Frame = seq<Octet>

  function Bswap16(x: U16): U16 {
    (x % 256) * 256 + x / 256
  }

  /** `(ihl_version & 0x0F) * 4`. */
  function HeaderLen(f: Frame): nat
    requires |f| >= MAX_HEADERS
  {
    (f[IP] % 16) * 4
  }

  function TotalLength(f: Frame): U16
    requires |f| >= MAX_HEADERS
  {
    var low: nat, high: nat := f[IP_TOTAL], f[IP_TOTAL + 1];
    Bswap16(low + 256 * high)
  }

  /** The buffer holds the longest headers and the datagram it announces. */
  predicate Buffered(f: Frame) {
    |f| >= MAX_HEADERS && IP + TotalLength(f) <= |f|
  }

  function SwapAddresses(f: Frame): Frame
    requires |f| >= MAX_HEADERS
  {
    f[..IP_SRC] + f[IP_DST..IP_DST + 4] + f[IP_SRC..IP_SRC + 4] + f[IP_DST + 4..]
  }

  function Clear(f: Frame, at: nat): Frame
    requires at + 2 <= |f|
  {
    f[at := 0][at + 1 := 0]
  }

  /** Addresses exchanged and the IPv4 checksum recomputed over n header bytes. */
  function IpStep(f: Frame, n: nat): Frame
    requires |f| >= MAX_HEADERS && IP + n <= |f|
  {
    var g := Clear(SwapAddresses(f), IP_CHECKSUM);
    PutWord(g, IP_CHECKSUM, Checksum(g[IP..IP + n]))
  }

  /** The ICMP message of a frame whose IPv4 header has n bytes. */
  function Message(f: Frame, n: nat): seq<Octet>
    requires Buffered(f)
  {
    if TotalLength(f) > n then f[IP + n..IP + TotalLength(f)] else []
  }

  /** Type and code zeroed, checksum recomputed over the message. */
  function IcmpStep(f: Frame, n: nat): Frame
    requires |f| >= MAX_HEADERS && n <= 60
    requires Buffered(Clear(Clear(f, IP + n), IP + n + 2))
  {
    var g := Clear(Clear(f, IP + n), IP + n + 2);
    PutWord(g, IP + n + 2, Checksum(Message(g, n)))
  }

  lemma StillBuffered(f: Frame)
    requires Buffered(f)
    ensures var n := HeaderLen(f);
      var g := IpStep(f, n);
      n <= 60 && |g| == |f| && Buffered(g) && Buffered(Clear(Clear(g, IP + n), IP + n + 2))
      && (n >= 4 ==> TotalLength(Clear(Clear(g, IP + n), IP + n + 2)) == TotalLength(f))
  {
    var n := HeaderLen(f);
    var g := IpStep(f, n);
    var h := Clear(Clear(g, IP + n), IP + n + 2);
    assert g[IP_TOTAL] == f[IP_TOTAL] && g[IP_TOTAL + 1] == f[IP_TOTAL + 1];
    if n == 0 {
      assert h[IP_TOTAL] == 0 && h[IP_TOTAL + 1] == 0;
    }
  }

  function Reply(f: Frame): Frame
    requires Buffered(f)
  {
    StillBuffered(f);
    IcmpStep(IpStep(f, HeaderLen(f)), HeaderLen(f))
  }

  // ----- both checksums verify -----

  lemma SliceOfPut(f: Frame, lo: nat, hi: nat, at: nat, v: U16)
    requires lo <= at && at + 2 <= hi <= |f|
    ensures PutWord(f, at, v)[lo..hi] == PutWord(f[lo..hi], at - lo, v)
  {}

  lemma HeaderVerifies(f: Frame, n: nat)
    requires |f| >= MAX_HEADERS && 12 <= n <= 60
    ensures Checksum(IpStep(f, n)[IP..IP + n]) == 0
  {
    var g := Clear(SwapAddresses(f), IP_CHECKSUM);
    var d := g[IP..IP + n];
    assert d[10] == 0 && d[11] == 0;
    hide Checksum, PutWord;
    StoredChecksumVerifies(d, 10);
    SliceOfPut(g, IP, IP + n, IP_CHECKSUM, Checksum(d));
  }

  lemma MessageVerifies(f: Frame, n: nat)
    requires |f| >= MAX_HEADERS && 4 <= n <= 60
    requires var g := Clear(Clear(f, IP + n), IP + n + 2); Buffered(g) && TotalLength(g) >= n + 4
    ensures var g := Clear(Clear(f, IP + n), IP + n + 2);
      Checksum(IcmpStep(f, n)[IP + n..IP + TotalLength(g)]) == 0
  {
    var g := Clear(Clear(f, IP + n), IP + n + 2);
    var d := Message(g, n);
    assert d[2] == 0 && d[3] == 0;
    hide Checksum, PutWord, Clear;
    StoredChecksumVerifies(d, 2);
    SliceOfPut(g, IP + n, IP + TotalLength(g), IP + n + 2, Checksum(d));
  }

  lemma IcmpLeavesHeader(f: Frame, n: nat)
    requires |f| >= MAX_HEADERS && n <= 60
    requires Buffered(Clear(Clear(f, IP + n), IP + n + 2))
    ensures IcmpStep(f, n)[..IP + n] == f[..IP + n]
    ensures |IcmpStep(f, n)| == |f|
  {}

  /** A header that ends before its checksum field is not touched. */
  lemma ShortHeaderKept(f: Frame, n: nat)
    requires |f| >= MAX_HEADERS && n <= 10
    ensures IpStep(f, n)[IP..IP + n] == f[IP..IP + n]
  {
    hide Checksum;
  }

  /** A message that ends before its checksum field is complete cannot verify. */
  lemma ShortMessageFails(f: Frame, n: nat)
    requires |f| >= MAX_HEADERS && 4 <= n <= 60
    requires var g := Clear(Clear(f, IP + n), IP + n + 2); Buffered(g) && TotalLength(g) < n + 4
    ensures Buffered(IcmpStep(f, n)) && Checksum(Message(IcmpStep(f, n), n)) != 0
  {
    var g := Clear(Clear(f, IP + n), IP + n + 2);
    var r := IcmpStep(f, n);
    assert r[IP_TOTAL] == g[IP_TOTAL] && r[IP_TOTAL + 1] == g[IP_TOTAL + 1];
    var d, m := Message(g, n), Message(r, n);
    assert |m| == |d| <= 3;
    assert forall i :: 0 <= i < |d| ==> d[i] == 0;
    assert |m| > 0 ==> m[0] == 0;
    assert |m| > 1 ==> m[1] == 0;
    hide Checksum;
    ShortSum(m);
  }

  /** Two zero bytes and at most one more sum below 256. */
  lemma ShortSum(d: seq<Octet>)
    requires |d| <= 3 && (|d| > 0 ==> d[0] == 0) && (|d| > 1 ==> d[1] == 0)
    ensures Checksum(d) != 0
  {
    if |d| > 2 {
      assert WordSum(d[2..]) == d[2];
    }
    assert WordSum(d) < 256;
  }

  // ----- when the reply verifies -----

  /** What `receive_ICMP` answers. A request never has an empty header: its type byte would be
      its version byte. */
  predicate EchoRequest(f: Frame)
    requires |f| >= MAX_HEADERS
  {
    f[IP + HeaderLen(f)] == ECHO_REQUEST
  }

  /** The reply's IPv4 header checksum verifies if and only if the header reaches its checksum
      field or verified in the request; its ICMP checksum verifies if and only if the message
      reaches its own. */
  lemma ReplyVerifies(f: Frame)
    requires Buffered(f) && EchoRequest(f)
    ensures var n := HeaderLen(f);
      && n >= 4 && Buffered(Reply(f)) && TotalLength(Reply(f)) == TotalLength(f)
      && (Checksum(Reply(f)[IP..IP + n]) == 0 <==> n >= 12 || Checksum(f[IP..IP + n]) == 0)
      && (Checksum(Message(Reply(f), n)) == 0 <==> TotalLength(f) >= n + 4)
  {
    var n := HeaderLen(f);
    StillBuffered(f);
    var g := IpStep(f, n);
    ReplyKeepsTotal(f);
    IcmpLeavesHeader(g, n);
    hide Checksum, IpStep, IcmpStep, Clear, Buffered, TotalLength;
    assert Reply(f)[IP..IP + n] == Reply(f)[..IP + n][IP..] == g[..IP + n][IP..] == g[IP..IP + n];
    if n >= 12 {
      HeaderVerifies(f, n);
    } else {
      ShortHeaderKept(f, n);
    }
    if TotalLength(f) >= n + 4 {
      MessageVerifies(g, n);
    } else {
      ShortMessageFails(g, n);
    }
  }

  lemma ReplyKeepsTotal(f: Frame)
    requires Buffered(f) && EchoRequest(f)
    ensures HeaderLen(f) >= 4
    ensures |Reply(f)| == |f| && Buffered(Reply(f)) && TotalLength(Reply(f)) == TotalLength(f)
  {
    var n := HeaderLen(f);
    StillBuffered(f);
    assert n > 0;
    var g := Clear(Clear(IpStep(f, n), IP + n), IP + n + 2);
    hide Checksum, Message, PutWord, IpStep, Clear, Bswap16;
    PutKeepsTotal(g, IP + n + 2, Checksum(Message(g, n)));
  }

  lemma PutKeepsTotal(f: Frame, at: nat, v: U16)
    requires |f| >= MAX_HEADERS && IP_TOTAL + 2 <= at && at + 2 <= |f|
    ensures |PutWord(f, at, v)| == |f| && TotalLength(PutWord(f, at, v)) == TotalLength(f)
  {
    hide Bswap16;
  }

  /** An echo request with ICMP's protocol number whose header claims one word: it is answered,
      and the header checksum of the reply does not verify. */
  lemma ShortHeaderFails() returns (f: Frame)
    ensures Buffered(f) && EchoRequest(f) && f[IP] == 0x41 && f[IP_PROTOCOL] == 1
    ensures HeaderLen(f) == 4 && Checksum(Reply(f)[IP..IP + 4]) != 0
  {
    f := seq(MAX_HEADERS, i =>
      if i == IP then 0x41 else if i == IP + 4 then ECHO_REQUEST else if i == IP_PROTOCOL then 1 else 0);
    assert f[IP] == 0x41 && f[IP + 1] == 0 && f[IP_TOTAL] == 0 && f[IP_TOTAL + 1] == 0;
    assert HeaderLen(f) == 4 && TotalLength(f) == 0;
    ReplyVerifies(f);
    hide Reply, HeaderLen, TotalLength, Checksum;
    assert f[IP..IP + 4] == [0x41, 0, 0, 0];
    OneWordFails(f[IP..IP + 4]);
  }

  lemma OneWordFails(d: seq<Octet>)
    requires d == [0x41, 0, 0, 0]
    ensures Checksum(d) != 0
  {
    var rest: seq<Octet> := [0, 0];
    assert d[2..] == rest && rest[2..] == [];
    assert WordSum(rest) == 0;
    assert WordSum(d) == 0x41;
  }

  /** Exchanging the addresses leaves the header sum alone, so the new header checksum is the
      one the request's header should carry. */
  lemma HeaderChecksumUnchanged(f: Frame)
    requires Buffered(f) && HeaderLen(f) >= 20
    ensures var n := HeaderLen(f);
      IpStep(f, n) ==
        PutWord(Clear(SwapAddresses(f), IP_CHECKSUM), IP_CHECKSUM, Checksum(Clear(f, IP_CHECKSUM)[IP..IP + n]))
  {
    var n := HeaderLen(f);
    var before := Clear(f, IP_CHECKSUM)[IP..IP + n];
    var swapped := Clear(SwapAddresses(f), IP_CHECKSUM)[IP..IP + n];
    var a, x, y, b := before[..12], f[IP_SRC..IP_SRC + 4], f[IP_DST..IP_DST + 4], f[IP_DST + 4..IP + n];
    assert before == a + x + y + b;
    assert swapped == a + y + x + b;
    SumExchange(a, x, y, b);
  }

  /** The reply is the request with addresses exchanged, type and code zero and the two
      checksums rewritten; every other byte is kept. */
  lemma ReplyContents(f: Frame)
    requires Buffered(f) && HeaderLen(f) >= 20
    ensures var n := HeaderLen(f); var r := Reply(f);
      && |r| == |f|
      && r[IP_SRC..IP_SRC + 4] == f[IP_DST..IP_DST + 4] && r[IP_DST..IP_DST + 4] == f[IP_SRC..IP_SRC + 4]
      && r[IP + n] == 0 && r[IP + n + 1] == 0
      && forall j :: 0 <= j < |f| && !(IP_CHECKSUM <= j < IP_DST + 4) && !(IP + n <= j < IP + n + 4) ==> r[j] == f[j]
  {
    StillBuffered(f);
    hide Checksum, Message;
  }

  /** The big-endian value of two bytes. */
  function BigEndian(high: nat, low: nat): nat {
    256 * high + low
  }

  /** The first header byte holds the version above the length in words; the total length is
      big-endian. */
  lemma FieldsDecode(f: Frame, version: nat, words: nat)
    requires |f| >= MAX_HEADERS && words < 16 && f[14] == 16 * version + words
    ensures HeaderLen(f) == 4 * words
    ensures TotalLength(f) == BigEndian(f[16], f[17])
  {}

  /** The bytes from i to j are a message whose checksum verifies: read as a number, padded to
      whole words, a nonzero multiple of 65535. */
  predicate Sound(f: Frame, i: nat, j: nat)
    requires i <= j <= |f|
  {
    Number(Padded(f[i..j])) % 0xFFFF == 0 && Number(Padded(f[i..j])) != 0
  }

  /** The reply to an echo request with a plain 20-byte header, in the frame's own offsets. */
  lemma StandardReply(f: Frame)
    requires Buffered(f) && f[14] == 0x45 && f[34] == 8
    requires BigEndian(f[16], f[17]) >= 24
    ensures EchoRequest(f) && |Reply(f)| == |f| >= 14 + BigEndian(f[16], f[17])
    ensures Reply(f)[26..30] == f[30..34] && Reply(f)[30..34] == f[26..30]
    ensures Reply(f)[34] == 0 && Reply(f)[35] == 0
    ensures Reply(f)[..24] == f[..24] && Reply(f)[38..] == f[38..]
    ensures Sound(Reply(f), 14, 34) && Sound(Reply(f), 34, 14 + BigEndian(f[16], f[17]))
  {
    FieldsDecode(f, 4, 5);
    ReplyVerifies(f);
    ReplyContents(f);
    hide Checksum, Message, Buffered;
    StandardSound(f);
    hide Reply, TotalLength, HeaderLen, Sound;
  }

  lemma StandardSound(f: Frame)
    requires Buffered(f) && EchoRequest(f) && HeaderLen(f) == 20 && TotalLength(f) >= 24
    ensures |Reply(f)| == |f| >= 14 + TotalLength(f)
    ensures Sound(Reply(f), 14, 34) && Sound(Reply(f), 34, 14 + TotalLength(f))
  {
    ReplyVerifies(f);
    ReplyKeepsTotal(f);
    hide Reply, Checksum, Number, Padded, TotalLength, HeaderLen;
    var r, end := Reply(f), 14 + TotalLength(f);
    assert Message(r, 20) == r[34..end];
    VerifiesIff(r[14..34]);
    VerifiesIff(r[34..end]);
  }

  // ----- the handler -----

  /** `receive_ICMP` up to sending: returns whether a reply was written into the frame. */
  method ReceiveIcmp(frame: array<Octet>, len: nat) returns (replied: bool)
    requires Buffered(frame[..])
    modifies frame
    ensures replied <==> len >= 42 && old(frame[14 + HeaderLen(frame[..])]) == 8
    ensures frame[..] == if replied then Reply(old(frame[..])) else old(frame[..])
  {
    hide Checksum, PutWord, Clear, Buffered, IpStep, IcmpStep, SwapAddresses, Bswap16, TotalLength, Message;
    EnoughForHeaders(frame[..]);
    if len < MIN_LEN {
      return false;
    }
    StillBuffered(frame[..]);
    var n := (frame[IP] % 16) * 4;
    if frame[IP + n] != ECHO_REQUEST {
      return false;
    }
    TurnAround(frame, n);
    Answer(frame, n);
    return true;
  }

  lemma EnoughForHeaders(f: Frame)
    requires Buffered(f)
    ensures |f| >= MAX_HEADERS
  {}

  /** The writes to the IPv4 header. */
  method TurnAround(frame: array<Octet>, n: nat)
    requires frame.Length >= MAX_HEADERS && n <= 60
    modifies frame
    ensures frame[..] == IpStep(old(frame[..]), n)
  {
    hide Checksum, PutWord;
    SwapInPlace(frame);
    frame[IP_CHECKSUM], frame[IP_CHECKSUM + 1] := 0, 0;
    assert frame[..] == Clear(SwapAddresses(old(frame[..])), IP_CHECKSUM);
    var c := ComputeChecksum(frame, IP, n);
    assert n == 0 ==> frame[IP..IP + n] == [];
    PutAt(frame, IP_CHECKSUM, c);
  }

  method SwapInPlace(frame: array<Octet>)
    requires frame.Length >= MAX_HEADERS
    modifies frame
    ensures frame[..] == SwapAddresses(old(frame[..]))
  {
    ghost var f := frame[..];
    ghost var src, dst := f[IP_SRC..IP_SRC + 4], f[IP_DST..IP_DST + 4];
    var a, b, c, d := frame[IP_SRC], frame[IP_SRC + 1], frame[IP_SRC + 2], frame[IP_SRC + 3];
    assert src == [a, b, c, d] && dst == [frame[IP_DST], frame[IP_DST + 1], frame[IP_DST + 2], frame[IP_DST + 3]];
    PutFour(frame, IP_SRC, frame[IP_DST], frame[IP_DST + 1], frame[IP_DST + 2], frame[IP_DST + 3]);
    ghost var g := frame[..];
    PutFour(frame, IP_DST, a, b, c, d);
    assert g == f[..IP_SRC] + dst + f[IP_DST..];
    assert frame[..] == g[..IP_DST] + src + g[IP_DST + 4..];
    assert g[..IP_DST] == f[..IP_SRC] + dst && g[IP_DST + 4..] == f[IP_DST + 4..];
  }

  method PutFour(frame: array<Octet>, at: nat, a: Octet, b: Octet, c: Octet, d: Octet)
    requires at + 4 <= frame.Length
    modifies frame
    ensures frame[..] == old(frame[..at]) + [a, b, c, d] + old(frame[at + 4..])
  {
    frame[at], frame[at + 1], frame[at + 2], frame[at + 3] := a, b, c, d;
  }

  /** The writes to the ICMP message. */
  method Answer(frame: array<Octet>, n: nat)
    requires frame.Length >= MAX_HEADERS && n <= 60
    requires Buffered(Clear(Clear(frame[..], IP + n), IP + n + 2))
    modifies frame
    ensures frame[..] == IcmpStep(old(frame[..]), n)
  {
    hide Checksum, PutWord;
    var icmp := IP + n;
    frame[icmp], frame[icmp + 1] := 0, 0;
    frame[icmp + 2], frame[icmp + 3] := 0, 0;
    ghost var g := frame[..];
    assert g == Clear(Clear(old(frame[..]), icmp), icmp + 2);
    var low: nat, high: nat := frame[IP_TOTAL], frame[IP_TOTAL + 1];
    var total := Bswap16(low + 256 * high);
    assert total == TotalLength(g);
    var c := ComputeChecksum(frame, icmp, total - n);
    assert total > n ==> frame[icmp..icmp + (total - n)] == Message(g, n);
    PutAt(frame, icmp + 2, c);
  }

  method PutAt(frame: array<Octet>, at: nat, v: U16)
    requires at + 2 <= frame.Length
    modifies frame
    ensures frame[..] == PutWord(old(frame[..]), at, v)
  {
    frame[at], frame[at + 1] := v % 256, v / 256;
  }
}
