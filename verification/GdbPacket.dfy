// The packet layer of the GDB remote serial protocol: framing with a checksum,
// and a reader that skips noise and asks for retransmission of damaged frames.

module GdbPacket {
  import opened Common
  import opened GdbHex

  const DOLLAR: byte := 0x24
  const HASH: byte := 0x23
  const INTERRUPT: byte := 0x03

  function Checksum(p: Text): (s: byte) {
    if p == [] then 0 else (Checksum(p[..|p| - 1]) + p[|p| - 1]) % 256
  }

  /** What send_packet puts on the wire. */
  function Frame(p: Text): (f: Text) {
    [DOLLAR] + p + [HASH, HexDigit(Checksum(p) / 16), HexDigit(Checksum(p) % 16)]
  }

  method SendPacket(payload: Text) returns (msg: Text)
    ensures msg == Frame(payload)
  {
    msg := [DOLLAR];
    var sum: byte := 0;
    for i := 0 to |payload|
      invariant msg == [DOLLAR] + payload[..i] && sum == Checksum(payload[..i])
    {
      msg := msg + [payload[i]];
      assert payload[..i + 1][..i] == payload[..i];
      sum := (sum + payload[i]) % 256;
    }
    assert payload[..|payload|] == payload;
    msg := msg + [HASH, HexDigit(sum / 16), HexDigit(sum % 16)];
  }

  /** A packet, what is left of the stream, and the acks sent on the way (true for
      '+'), as they go out unless acks are switched off. */
  datatype Got = Got(payload: Text, rest: Text, acks: seq<bool>)

  function Find(s: Text, c: byte): (k: nat)
    ensures k <= |s| && (k < |s| ==> s[k] == c) && forall i :: 0 <= i < k ==> s[i] != c
  {
    if s == [] || s[0] == c then 0 else Find(s[1..], c) + 1
  }

  predicate ChecksumOk(body: Text, c: byte, d: byte) {
    Checksum(body) == UnhexDigit(c) * 16 + UnhexDigit(d)
  }

  /** read_packet on everything that will ever arrive; None if the stream ends first. */
  function ReadPacket(s: Text): (r: Option<Got>)
    decreases |s|
  {
    if s == [] then None
    else if s[0] == INTERRUPT then Some(Got([INTERRUPT], s[1..], []))
    else if s[0] != DOLLAR then ReadPacket(s[1..])
    else
      var k := Find(s[1..], HASH);
      if k + 4 > |s| then None
      else
        var body, rest := s[1..k + 1], s[k + 4..];
        if ChecksumOk(body, s[k + 2], s[k + 3]) then Some(Got(body, rest, [true]))
        else WithAcks([false], ReadPacket(rest))
  }

  function WithAcks(acks: seq<bool>, r: Option<Got>): (r': Option<Got>)
    ensures r'.Some? ==> r.Some? && r'.value.payload == r.value.payload && r'.value.rest == r.value.rest
  {
    match r
    case None => None
    case Some(g) => Some(g.(acks := acks + g.acks))
  }

  /** The inner loop: collect up to the '#' and sum. */
  method ReceiveBody(s: Text, start: nat) returns (body: Text, sum: byte, p: nat)
    requires start <= |s|
    ensures p == start + Find(s[start..], HASH) && start <= p <= |s|
    ensures body == s[start..p] && sum == Checksum(body)
  {
    hide Find;
    body, sum, p := [], 0, start;
    ghost var k := Find(s[start..], HASH);
    while p < |s| && s[p] != HASH
      invariant start <= p <= start + k
      invariant body == s[start..p] && sum == Checksum(body)
    {
      assert s[start..][p - start] == s[p];
      assert (body + [s[p]])[..|body|] == body;
      body := body + [s[p]];
      sum := (sum + s[p]) % 256;
      p := p + 1;
    }
    if p < |s| { assert s[start..][p - start] == HASH; }
  }

  lemma PacketAt(s: Text, p: nat)
    requires p < |s| && s[p] == DOLLAR
    ensures var k := p + 1 + Find(s[p + 1..], HASH);
      ReadPacket(s[p..]) ==
        if k + 3 > |s| then None
        else if ChecksumOk(s[p + 1..k], s[k + 1], s[k + 2]) then Some(Got(s[p + 1..k], s[k + 3..], [true]))
        else WithAcks([false], ReadPacket(s[k + 3..]))
  {
    hide Find, ChecksumOk;
    var t := s[p..];
    assert t[1..] == s[p + 1..];
    var k := Find(t[1..], HASH);
    if k + 4 <= |t| {
      assert t[1..k + 1] == s[p + 1..p + 1 + k] && t[k + 4..] == s[p + k + 4..];
    }
  }

  lemma OtherAt(s: Text, p: nat)
    requires p < |s| && s[p] != DOLLAR
    ensures ReadPacket(s[p..]) ==
      if s[p] == INTERRUPT then Some(Got([INTERRUPT], s[p + 1..], [])) else ReadPacket(s[p + 1..])
  {
    assert s[p..][1..] == s[p + 1..];
  }

  lemma AcksCompose(a: seq<bool>, b: seq<bool>, r: Option<Got>)
    ensures WithAcks(a, WithAcks(b, r)) == WithAcks(a + b, r)
    ensures WithAcks([], r) == r
  {
    if r.Some? {
      assert a + (b + r.value.acks) == (a + b) + r.value.acks;
      assert [] + r.value.acks == r.value.acks;
    }
  }

  /** The reader's loop over a byte stream with a cursor. */
  method Receive(s: Text) returns (r: Option<Got>)
    ensures r == ReadPacket(s)
  {
    hide ReadPacket, Find, Checksum;
    var p := 0;
    var acks: seq<bool> := [];
    assert s[0..] == s;
    AcksCompose([], [], ReadPacket(s));
    while p < |s|
      invariant p <= |s|
      invariant ReadPacket(s) == WithAcks(acks, ReadPacket(s[p..]))
      decreases |s| - p
    {
      var c := s[p];
      if c == INTERRUPT {
        OtherAt(s, p);
        assert acks + [] == acks;
        return Some(Got([INTERRUPT], s[p + 1..], acks));
      }
      if c != DOLLAR {
        OtherAt(s, p);
        p := p + 1;
      } else {
        PacketAt(s, p);
        var body, sum, k := ReceiveBody(s, p + 1);
        if k + 3 > |s| { return None; }
        var ok := sum == UnhexDigit(s[k + 1]) * 16 + UnhexDigit(s[k + 2]);
        if ok {
          return Some(Got(body, s[k + 3..], acks + [true]));
        }
        AcksCompose(acks, [false], ReadPacket(s[k + 3..]));
        acks := acks + [false];
        p := k + 3;
      }
    }
    assert s[p..] == [];
    NothingToRead();
    r := None;
  }

  lemma NothingToRead()
    ensures ReadPacket([]) == None
  {
  }

  // ----- reading undoes sending -----

  /** What may stand before a packet: noise, or a frame whose checksum fails. */
  datatype Junk = Noise(text: Text) | Damaged(body: Text, c: byte, d: byte)

  predicate JunkOk(j: Junk) {
    match j
    case Noise(t) => DOLLAR !in t && INTERRUPT !in t
    case Damaged(body, c, d) => HASH !in body && !ChecksumOk(body, c, d)
  }

  function JunkText(j: Junk): Text {
    match j
    case Noise(t) => t
    case Damaged(body, c, d) => [DOLLAR] + body + [HASH, c, d]
  }

  function AllJunk(js: seq<Junk>): Text {
    if js == [] then [] else JunkText(js[0]) + AllJunk(js[1..])
  }

  function Nacks(js: seq<Junk>): seq<bool> {
    if js == [] then [] else (if js[0].Damaged? then [false] else []) + Nacks(js[1..])
  }

  lemma {:induction false} FindAt(a: Text, b: Text, c: byte)
    requires c !in a && b != [] && b[0] == c
    ensures Find(a + b, c) == |a|
  {
    if a == [] {
      assert a + b == b;
    } else {
      assert (a + b)[0] == a[0] && (a + b)[1..] == a[1..] + b;
      FindAt(a[1..], b, c);
    }
  }

  lemma {:induction false} SkipNoise(t: Text, rest: Text)
    requires DOLLAR !in t && INTERRUPT !in t
    ensures ReadPacket(t + rest) == ReadPacket(rest)
  {
    if t == [] {
      assert t + rest == rest;
    } else {
      assert (t + rest)[0] == t[0] && (t + rest)[1..] == t[1..] + rest;
      SkipNoise(t[1..], rest);
    }
  }

  // A whole frame at the head of the stream, good or bad.
  lemma ReadFrame(body: Text, c: byte, d: byte, rest: Text)
    requires HASH !in body
    ensures ReadPacket([DOLLAR] + body + [HASH, c, d] + rest) ==
      if ChecksumOk(body, c, d) then Some(Got(body, rest, [true]))
      else WithAcks([false], ReadPacket(rest))
  {
    hide Checksum;
    var s := [DOLLAR] + body + [HASH, c, d] + rest;
    assert s[1..] == body + ([HASH, c, d] + rest);
    FindAt(body, [HASH, c, d] + rest, HASH);
    var k := |body|;
    assert s[1..k + 1] == body && s[k + 4..] == rest && s[k + 2] == c && s[k + 3] == d;
  }

  lemma FrameChecks(p: Text)
    ensures ChecksumOk(p, HexDigit(Checksum(p) / 16), HexDigit(Checksum(p) % 16))
  {
    DigitRoundTrip(Checksum(p) / 16);
    DigitRoundTrip(Checksum(p) % 16);
  }

  lemma SkipJunk(j: Junk, tail: Text)
    requires JunkOk(j)
    ensures ReadPacket(JunkText(j) + tail) == if j.Noise? then ReadPacket(tail) else WithAcks([false], ReadPacket(tail))
  {
    hide ReadPacket, ChecksumOk;
    match j
    case Noise(t) => SkipNoise(t, tail);
    case Damaged(body, c, d) => ReadFrame(body, c, d, tail);
  }

  lemma ReadGood(p: Text, rest: Text)
    requires HASH !in p
    ensures ReadPacket(Frame(p) + rest) == Some(Got(p, rest, [true]))
  {
    hide ReadPacket, Checksum, ChecksumOk;
    FrameChecks(p);
    ReadFrame(p, HexDigit(Checksum(p) / 16), HexDigit(Checksum(p) % 16), rest);
  }

  /** The receiver gets every payload without '#', after any amount of noise and
      damaged frames, refuses each damaged frame once and accepts the good one once. */
  lemma {:induction false} ReceiveUndoesSend(js: seq<Junk>, p: Text, rest: Text)
    requires (forall j :: j in js ==> JunkOk(j)) && HASH !in p
    ensures ReadPacket(AllJunk(js) + (Frame(p) + rest)) == Some(Got(p, rest, Nacks(js) + [true]))
    decreases |js|
  {
    hide ReadPacket, Frame, JunkOk, JunkText;
    if js == [] {
      ReadGood(p, rest);
      assert AllJunk(js) + (Frame(p) + rest) == Frame(p) + rest;
      assert Nacks(js) + [true] == [true];
    } else {
      ReceiveUndoesSend(js[1..], p, rest);
      var tail := AllJunk(js[1..]) + (Frame(p) + rest);
      assert AllJunk(js) + (Frame(p) + rest) == JunkText(js[0]) + tail;
      SkipJunk(js[0], tail);
      if js[0].Damaged? {
        assert Nacks(js) + [true] == [false] + (Nacks(js[1..]) + [true]);
      } else {
        assert Nacks(js) == Nacks(js[1..]);
      }
    }
  }

  // Whatever is read is an interrupt or costs four bytes more than it carries.
  lemma {:induction false} PayloadShorter(s: Text)
    ensures match ReadPacket(s)
            case None => true
            case Some(g) => g.payload == [INTERRUPT] || |g.payload| + 4 <= |s|
    decreases |s|
  {
    hide ChecksumOk;
    if s != [] && s[0] != INTERRUPT {
      if s[0] != DOLLAR {
        PayloadShorter(s[1..]);
      } else {
        var k := Find(s[1..], HASH);
        if k + 4 <= |s| { PayloadShorter(s[k + 4..]); }
      }
    }
  }

  /** Framing is transparent for exactly the payloads without '#'. */
  lemma TransparentIff(p: Text)
    ensures (ReadPacket(Frame(p)).Some? && ReadPacket(Frame(p)).value.payload == p) <==> HASH !in p
  {
    hide Checksum, ChecksumOk;
    if HASH !in p {
      ReadGood(p, []);
      assert Frame(p) + [] == Frame(p);
    } else {
      var s := Frame(p);
      var k := Find(s[1..], HASH);
      var i :| 0 <= i < |p| && p[i] == HASH;
      assert s[1..][i] == HASH;
      PayloadShorter(s[k + 4..]);
    }
  }
}
