// The remote serial protocol as it is on the wire, character by character: the hex alphabet,
// the sum over a packet, the digits of a register, the escaped byte, the chunk asked for.

module GdbWire {
  import opened Common
  import opened LittleEndian
  import opened GdbHex
  import opened GdbPacket
  import opened GdbRegs
  import opened GdbXfer

  // ----- digits -----

  const LOWER: string := "0123456789abcdef"
  const UPPER: string := "0123456789ABCDEF"

  /** Digits go out in lower case and are taken in either; nothing else is one. */
  lemma Alphabet(v: nat, c: byte)
    requires v < 16
    ensures HexDigit(v) as char == LOWER[v]
    ensures c as char == LOWER[v] || c as char == UPPER[v] ==> IsHexDigit(c) && UnhexDigit(c) == v
    ensures IsHexDigit(c) <==> c as char in LOWER || c as char in UPPER
    ensures !IsHexDigit(c) ==> UnhexDigit(c) == 0
  {
    DigitIs(v, c);
    if IsHexDigit(c) {
      var d := UnhexDigit(c);
      assert c as char == LOWER[d] || c as char == UPPER[d];
    }
  }

  lemma DigitIs(v: nat, c: byte)
    requires v < 16
    ensures HexDigit(v) as char == LOWER[v]
    ensures c as char == LOWER[v] || c as char == UPPER[v] ==> IsHexDigit(c) && UnhexDigit(c) == v
  {
  }

  /** Two digits a byte, the high one first. */
  lemma {:induction false} HexAt(bs: seq<byte>, i: nat)
    requires i < |bs|
    ensures BytesToHex(bs)[2 * i] as char == LOWER[bs[i] / 16] && BytesToHex(bs)[2 * i + 1] as char == LOWER[bs[i] % 16]
    decreases i
  {
    if i == 0 {
      DigitIs(bs[0] / 16, 0);
      DigitIs(bs[0] % 16, 0);
    } else {
      HexAt(bs[1..], i - 1);
    }
  }

  /** A number is read most significant digit first, and keeps its low 64 bits. */
  lemma {:induction false} ParseAppends(s: Text, t: Text, c: byte, v: u64)
    requires s == t + [c] && forall i :: 0 <= i < |s| ==> IsHexDigit(s[i])
    ensures ParseFrom(t, 0, v).pos == |t|
    ensures ParseFrom(s, 0, v) == Number((ParseFrom(t, 0, v).value * 16 + UnhexDigit(c)) % TWO64, |s|)
  {
    ParseOn(s, t, c, 0, v);
  }

  lemma {:induction false} ParseOn(s: Text, t: Text, c: byte, i: nat, v: u64)
    requires s == t + [c] && i <= |t| && forall k :: 0 <= k < |s| ==> IsHexDigit(s[k])
    ensures ParseFrom(t, i, v).pos == |t|
    ensures ParseFrom(s, i, v) == Number((ParseFrom(t, i, v).value * 16 + UnhexDigit(c)) % TWO64, |s|)
    decreases |t| - i
  {
    hide UnhexDigit, IsHexDigit;
    if i < |t| {
      assert s[i] == t[i];
      ParseOn(s, t, c, i + 1, (v * 16 + UnhexDigit(t[i])) % TWO64);
    } else {
      var next := (v * 16 + UnhexDigit(c)) % TWO64;
      assert s[i] == c && ParseFrom(s, |s|, next) == Number(next, |s|);
    }
  }

  // ----- packets -----

  lemma NoSum()
    ensures Checksum([]) == 0
  {
  }

  lemma OneSum(b: byte)
    ensures Checksum([b]) == b
  {
    assert [b][..0] == [];
  }

  /** The checksum is the sum of the bytes modulo 256: nothing for nothing, a byte for itself,
      and sums add up. */
  lemma {:induction false} SumsAdd(p: Text, q: Text)
    ensures Checksum(p + q) == (Checksum(p) + Checksum(q)) % 256
    decreases |q|
  {
    if q == [] {
      assert p + q == p;
    } else {
      var n := |q| - 1;
      assert (p + q)[..|p + q| - 1] == p + q[..n] && (p + q)[|p + q| - 1] == q[n];
      SumsAdd(p, q[..n]);
      SumsRegroup(Checksum(p), Checksum(q[..n]), q[n]);
    }
  }

  lemma SumsRegroup(a: nat, b: nat, c: nat)
    ensures ((a + b) % 256 + c) % 256 == (a + (b + c) % 256) % 256
  {
    var x, y := (a + b) / 256, (b + c) / 256;
    assert (a + b) % 256 + c == a + b + c - 256 * x && a + (b + c) % 256 == a + b + c - 256 * y;
  }

  /** A frame: dollar sign, payload, number sign, the checksum in two lower-case digits. */
  lemma FrameLayout(p: Text)
    ensures var f, n := Frame(p), |p|;
      && |f| == n + 4 && f[0] as char == '$' && f[1..n + 1] == p && f[n + 1] as char == '#'
      && f[n + 2] as char == LOWER[Checksum(p) / 16] && f[n + 3] as char == LOWER[Checksum(p) % 16]
  {
    hide HexDigit, Checksum;
    DigitIs(Checksum(p) / 16, 0);
    DigitIs(Checksum(p) % 16, 0);
  }

  /** An interrupt is taken wherever it stands between packets, without an answer. */
  lemma InterruptAnswered(noise: Text, rest: Text)
    requires 0x24 !in noise && 0x03 !in noise
    ensures ReadPacket(noise + ([0x03] + rest)) == Some(Got([0x03], rest, []))
  {
    SkipNoise(noise, [0x03] + rest);
    assert ([0x03] + rest)[1..] == rest;
  }

  /** A frame is refused if and only if its two digits are not its sum. */
  lemma DamageRefused(body: Text, c: byte, d: byte, rest: Text)
    requires 0x23 !in body
    ensures var got := ReadPacket([0x24] + body + [0x23, c, d] + rest);
      if Checksum(body) == 16 * UnhexDigit(c) + UnhexDigit(d) then got == Some(Got(body, rest, [true]))
      else got == WithAcks([false], ReadPacket(rest))
  {
    hide ReadPacket, Checksum, UnhexDigit;
    ReadFrame(body, c, d, rest);
  }

  // ----- registers -----

  lemma {:induction false} EncodeAt(v: nat, n: nat, i: nat)
    requires i < n
    ensures Encode(v, n)[i] == v / Pow256(i) % 256
    decreases i
  {
    if i > 0 {
      EncodeAt(v / 256, n - 1, i - 1);
      DivTwice(v, 256, Pow256(i - 1));
    }
  }

  /** A register is sent least significant byte first, each byte high digit first. */
  lemma RegisterDigits(v: nat, width: nat, i: nat)
    requires i < width
    ensures var b := v / Pow256(i) % 256;
      RegHex(v, width)[2 * i] as char == LOWER[b / 16] && RegHex(v, width)[2 * i + 1] as char == LOWER[b % 16]
  {
    hide BytesToHex, Encode, Pow256;
    EncodeAt(v, width, i);
    HexAt(Encode(v, width), i);
  }

  /** Registers are sent in order, without anything between them. */
  lemma {:induction false} RegistersInParts(w: seq<nat>, v: seq<nat>, w': seq<nat>, v': seq<nat>)
    requires |w| == |v| && |w'| == |v'|
    ensures AllRegsHex(w + w', v + v') == AllRegsHex(w, v) + AllRegsHex(w', v')
    decreases |v|
  {
    hide RegHex;
    if v == [] {
      assert w + w' == w' && v + v' == v';
    } else {
      assert (w + w')[1..] == w[1..] + w' && (v + v')[1..] == v[1..] + v';
      RegistersInParts(w[1..], v[1..], w', v');
    }
  }

  lemma RegisterAlone(width: nat, v: nat)
    ensures AllRegsHex([width], [v]) == RegHex(v, width)
  {
    hide RegHex;
    assert AllRegsHex([width][1..], [v][1..]) == [];
  }

  /** Text that ends early leaves the remaining registers as they are. */
  lemma {:induction false} ShortRestore(widths: seq<nat>, saved: seq<nat>, more: seq<nat>, now: seq<nat>, part: Text)
    requires RegsOk(widths, saved) && |now| == |saved| + |more| && more != [] && |part| < 2 * more[0]
    ensures Restore(widths + more, now, AllRegsHex(widths, saved) + part) == saved + now[|saved|..]
    decreases |saved|
  {
    hide RegHex, RegFromHex;
    var hex := AllRegsHex(widths, saved) + part;
    if saved == [] {
      assert hex == part && widths + more == more;
      assert now[|saved|..] == now && saved + now == now;
    } else {
      var first, rest := RegHex(saved[0], widths[0]), AllRegsHex(widths[1..], saved[1..]);
      assert hex == first + (rest + part);
      assert hex[..2 * widths[0]] == first && hex[2 * widths[0]..] == rest + part;
      assert (widths + more)[1..] == widths[1..] + more && (widths + more)[0] == widths[0];
      RegRoundTrip(saved[0], widths[0]);
      TailRegs(widths, saved);
      ShortRestore(widths[1..], saved[1..], more, now[1..], part);
      assert now[1..][|saved| - 1..] == now[|saved|..];
      assert [saved[0]] + saved[1..] == saved;
    }
  }

  lemma TailRegs(widths: seq<nat>, regs: seq<nat>)
    requires RegsOk(widths, regs) && regs != []
    ensures RegsOk(widths[1..], regs[1..])
  {
    forall i | 0 <= i < |regs[1..]| ensures regs[1..][i] < Pow256(widths[1..][i]) {
      assert regs[i + 1] < Pow256(widths[i + 1]);
    }
  }

  // ----- transfers -----

  /** The escaped byte has bit 5 the other way round, all other bits as they are. */
  lemma FlipsBitFive(b: byte)
    ensures Flip(b) % 32 == b % 32 && Flip(b) / 64 == b / 64 && Flip(b) / 32 % 2 == 1 - b / 32 % 2
  {
  }

  /** What is sent of the four special characters, and of every other byte. */
  lemma EscapesSpecials(b: byte)
    ensures Escaped([b], SPECIAL) ==
      if b as char !in "#$}*" then [b]
      else [0x7d, if b as char == '*' then 0x0a else if b as char == '}' then 0x5d else b - 0x20]
  {
    assert Escaped([b][1..], SPECIAL) == [];
    assert b in SPECIAL <==> b as char in "#$}*";
  }

  /** A chunk is the part of the document that was asked for, and says whether it is the
      last one. */
  lemma ChunkAsked(xml: Text, off: u64, len: u64)
    requires off + len < TWO64
    ensures var c := Xfer(xml, off, len);
      if off >= |xml| then c == Chunk(true, [])
      else if off + len >= |xml| then c == Chunk(true, xml[off..])
      else c == Chunk(false, xml[off..off + len])
  {
  }
}
