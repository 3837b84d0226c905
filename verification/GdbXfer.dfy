// Two transfers on top of packets: binary memory writes with escaped bytes, and
// the target description read in chunks.

module GdbXfer {
  import opened Common
  import opened GdbHex
  import opened GdbPacket

  // ----- 'X': binary data -----

  const ESCAPE: byte := 0x7d

  /** b ^ 0x20. */
  function Flip(b: byte): (r: byte)
    ensures r != b
  {
    if b / 32 % 2 == 1 then b - 32 else b + 32
  }

  lemma FlipTwice(b: byte)
    ensures Flip(Flip(b)) == b
  {
  }

  /** A sender that escapes the bytes in `special`. */
  function Escaped(data: seq<byte>, special: set<byte>): (s: Text) {
    if data == [] then []
    else (if data[0] in special then [ESCAPE, Flip(data[0])] else [data[0]]) + Escaped(data[1..], special)
  }

  /** The stub's loop: at most n bytes, an escape at the very end is dropped. */
  function Unescaped(s: Text, n: nat): (data: seq<byte>)
    decreases |s|
  {
    if s == [] || n == 0 then []
    else if s[0] != ESCAPE then [s[0]] + Unescaped(s[1..], n - 1)
    else if |s| == 1 then []
    else [Flip(s[1])] + Unescaped(s[2..], n - 1)
  }

  lemma UnescapePlain(b: byte, rest: Text, n: nat)
    requires b != ESCAPE && n > 0
    ensures Unescaped([b] + rest, n) == [b] + Unescaped(rest, n - 1)
  {
    assert ([b] + rest)[1..] == rest;
  }

  lemma UnescapePair(b: byte, rest: Text, n: nat)
    requires n > 0
    ensures Unescaped([ESCAPE, b] + rest, n) == [Flip(b)] + Unescaped(rest, n - 1)
  {
    hide Flip;
    assert ([ESCAPE, b] + rest)[2..] == rest;
  }

  lemma UnescapeEnds(s: Text, n: nat)
    requires s == [] || s == [ESCAPE] || n == 0
    ensures Unescaped(s, n) == []
  {
  }

  method Unescape(pkt: Text, start: nat, len: nat) returns (buf: seq<byte>)
    requires start <= |pkt|
    ensures buf == Unescaped(pkt[start..], len)
  {
    hide Unescaped, Flip;
    buf := [];
    var i := start;
    while i < |pkt| && |buf| < len
      invariant start <= i <= |pkt| && |buf| <= len
      invariant Unescaped(pkt[start..], len) == buf + Unescaped(pkt[i..], len - |buf|)
      decreases |pkt| - i
    {
      var b := pkt[i];
      if b == ESCAPE {
        if i + 1 >= |pkt| { break; }
        assert pkt[i..] == [ESCAPE, pkt[i + 1]] + pkt[i + 2..];
        UnescapePair(pkt[i + 1], pkt[i + 2..], len - |buf|);
        buf := buf + [Flip(pkt[i + 1])];
        i := i + 2;
      } else {
        assert pkt[i..] == [b] + pkt[i + 1..];
        UnescapePlain(b, pkt[i + 1..], len - |buf|);
        buf := buf + [b];
        i := i + 1;
      }
    }
    UnescapeEnds(pkt[i..], len - |buf|);
  }

  /** Un-escaping inverts every escaping that covers the escape byte itself, and the
      length keeps it from reading on. */
  lemma {:induction false} UnescapeInverts(data: seq<byte>, special: set<byte>, trailing: Text)
    requires ESCAPE in special
    ensures Unescaped(Escaped(data, special) + trailing, |data|) == data
    decreases |data|
  {
    hide Unescaped, Flip;
    if data == [] {
      UnescapeEnds(Escaped(data, special) + trailing, 0);
    } else {
      var s := Escaped(data, special) + trailing;
      var rest := Escaped(data[1..], special) + trailing;
      UnescapeInverts(data[1..], special, trailing);
      if data[0] in special {
        assert s == [ESCAPE, Flip(data[0])] + rest;
        FlipTwice(data[0]);
        UnescapePair(Flip(data[0]), rest, |data|);
      } else {
        assert s == [data[0]] + rest;
        UnescapePlain(data[0], rest, |data|);
      }
      assert [data[0]] + data[1..] == data;
    }
  }

  const SPECIAL: set<byte> := {0x23, 0x24, 0x7d, 0x2a}

  /** With the protocol's set ('#', '$', '}', '*') the escaped text has no '#', so it
      also passes the packet layer. */
  lemma {:induction false} EscapedHasNoHash(data: seq<byte>)
    ensures HASH !in Escaped(data, SPECIAL)
    decreases |data|
  {
    if data != [] {
      EscapedHasNoHash(data[1..]);
    }
  }

  /** End to end: binary data, escaped, framed, received after junk and un-escaped. */
  lemma BinaryThroughPackets(js: seq<Junk>, head: Text, data: seq<byte>, rest: Text)
    requires (forall j :: j in js ==> JunkOk(j)) && HASH !in head
    ensures var got := ReadPacket(AllJunk(js) + (Frame(head + Escaped(data, SPECIAL)) + rest));
      got.Some? && |head| <= |got.value.payload| && Unescaped(got.value.payload[|head|..], |data|) == data
  {
    hide Unescaped, Escaped, ReadPacket, Frame, AllJunk, JunkOk;
    EscapedHasNoHash(data);
    var p := head + Escaped(data, SPECIAL);
    ReceiveUndoesSend(js, p, rest);
    assert p[|head|..] == Escaped(data, SPECIAL) + [];
    UnescapeInverts(data, SPECIAL, []);
  }

  // ----- qXfer: the target description in chunks -----

  datatype Chunk = Chunk(last: bool, data: Text)

  /** The reply to a read at `off` of `len` bytes, with the sum kept to 64 bits. */
  function Xfer(xml: Text, off: u64, len: u64): (c: Chunk) {
    if off >= |xml| then Chunk(true, [])
    else
      var sum := (off + len) % TWO64;
      var end := if sum < |xml| then sum else |xml|;
      Chunk(!(end < |xml|), if end < off then xml[off..] else xml[off..end])
  }

  lemma XferProgress(xml: Text, off: u64, len: u64)
    requires off < |xml| < TWO64 && len > 0
    ensures var c := Xfer(xml, off, len);
      0 < |c.data| <= |xml| - off && c.data == xml[off..off + |c.data|] && (c.last ==> off + |c.data| == |xml|)
  {
    var sum := (off + len) % TWO64;
    assert sum == off + len || sum == off + len - TWO64;
  }

  /** The client loop, asking for any positive lengths it likes: it terminates and has
      the whole document, even when a length overflows the 64-bit sum. */
  method FetchAll(xml: Text, len: nat -> u64) returns (doc: Text)
    requires |xml| < TWO64 && forall i: nat :: len(i) > 0
    ensures doc == xml
  {
    hide Xfer;
    doc := [];
    var last := false;
    var k := 0;
    while !last
      invariant |doc| <= |xml| && doc == xml[..|doc|] && (last ==> doc == xml)
      decreases |xml| - |doc|, !last
    {
      if |doc| < |xml| { XferProgress(xml, |doc|, len(k)); } else { XferDone(xml, len(k)); }
      var c := Xfer(xml, |doc|, len(k));
      doc := doc + c.data;
      last := c.last;
      k := k + 1;
    }
  }

  lemma XferDone(xml: Text, len: u64)
    requires |xml| < TWO64
    ensures Xfer(xml, |xml|, len) == Chunk(true, [])
  {
  }

  // ----- the request text -----

  const COMMA: byte := 0x2c

  /** Offset and length out of "...:OFFSET,LENGTH", from the character after `colon`. */
  function ParseRange(pkt: Text, i: nat): (r: (u64, u64))
    requires i <= |pkt|
  {
    var off := ParseHex(pkt, i);
    var j := if off.pos < |pkt| && pkt[off.pos] == COMMA then off.pos + 1 else off.pos;
    (off.value, ParseHex(pkt, j).value)
  }

  /** Whatever precedes the range, a client's offset and length are read as meant. */
  lemma RangeRoundTrip(head: Text, off: u64, len: u64)
    ensures ParseRange(head + HexOf(off) + [COMMA] + HexOf(len), |head|) == (off, len)
  {
    hide HexOf, ParseHex;
    var o, l := HexOf(off), HexOf(len);
    var pkt := head + o + [COMMA] + l;
    assert pkt[|head|..|head| + |o|] == o;
    ParseRoundTrip(pkt, |head|, off);
    var j := |head| + |o| + 1;
    assert pkt[j..j + |l|] == l;
    ParseRoundTrip(pkt, j, len);
  }
}
