/** Register frames of the TMC2209 UART (components/infrastructure/src/drivers/tmc_uart.cpp). */
module TmcFrame {
  import opened Crc8

  const SYNC: Byte := 0x05

  function PayloadBytes(value: bv32): (b: seq<Byte>)
    ensures |b| == 4
  {
    [((value >> 24) & 0xFF) as Byte, ((value >> 16) & 0xFF) as Byte,
     ((value >> 8) & 0xFF) as Byte, (value & 0xFF) as Byte]
  }

  /** The bytes a register write puts on the wire. */
  function WriteFrame(reg: Byte, value: bv32): (frame: seq<Byte>)
    ensures |frame| == 8
  {
    var body := [SYNC, reg] + PayloadBytes(value);
    body + [Crc(body), Crc(body)]
  }

  method WriteRegister(reg: Byte, value: bv32) returns (sent: seq<Byte>)
    ensures sent == WriteFrame(reg, value)
    ensures sent[0] == 0x05 && sent[1] == reg && sent[6] == sent[7]
    ensures sent[2] as bv32 == value >> 24 && sent[5] as bv32 == value & 0xFF
  {
    var buf := new Byte[8];
    buf[0] := 0x05;
    buf[1] := reg;
    buf[2] := ((value >> 24) & 0xFF) as Byte;
    buf[3] := ((value >> 16) & 0xFF) as Byte;
    buf[4] := ((value >> 8) & 0xFF) as Byte;
    buf[5] := (value & 0xFF) as Byte;
    var crc := ComputeCrc(buf, 6);
    assert buf[..6] == [SYNC, reg] + PayloadBytes(value);
    buf[6] := crc;
    buf[7] := crc;
    sent := buf[..];
  }

  function Combine(b3: Byte, b2: Byte, b1: Byte, b0: Byte): bv32 {
    ((b3 as bv32) << 24) | ((b2 as bv32) << 16) | ((b1 as bv32) << 8) | (b0 as bv32)
  }

  /** The response names the register and its first seven bytes are a multiple of the
      CRC generator; the eighth byte is never looked at. */
  ghost predicate Wellformed(reg: Byte, resp: seq<Byte>)
    requires |resp| == 8
  {
    resp[0] == SYNC && resp[1] == reg && Divisible(BitsOf(resp[..7]))
  }

  method ValidateResponse(reg: Byte, resp: array<Byte>, before: bv32) returns (ok: bool, value: bv32)
    requires resp.Length == 8
    ensures ok <==> Wellformed(reg, resp[..])
    ensures value == if ok then Combine(resp[2], resp[3], resp[4], resp[5]) else before
  {
    ok, value := false, before;
    if resp[0] != 0x05 || resp[1] != reg {
      return;
    }
    var expectedCrc := ComputeCrc(resp, 6);
    var receivedCrc: bv16 := (resp[6] as bv16) | ((resp[7] as bv16) << 8);
    LowByte(resp[6], resp[7], expectedCrc);
    assert resp[..][..7] == resp[..6] + [resp[6]];
    CrcIsRemainder(resp[..6], resp[6]);
    if expectedCrc as bv16 != (receivedCrc & 0xFF) {
      return;
    }
    ok, value := true, Combine(resp[2], resp[3], resp[4], resp[5]);
  }

  lemma LowByte(lo: Byte, hi: Byte, crc: Byte)
    ensures crc as bv16 == (((lo as bv16) | ((hi as bv16) << 8)) & 0xFF) <==> crc == lo
  {
  }

  lemma CombineRestores(value: bv32)
    ensures Combine(((value >> 24) & 0xFF) as Byte, ((value >> 16) & 0xFF) as Byte,
                    ((value >> 8) & 0xFF) as Byte, (value & 0xFF) as Byte) == value
  {
  }

  /** Round trip: a written frame is accepted as a response and gives the value back. */
  lemma WrittenFrameIsAccepted(reg: Byte, value: bv32)
    ensures var frame := WriteFrame(reg, value);
            Wellformed(reg, frame) && Combine(frame[2], frame[3], frame[4], frame[5]) == value
  {
    var body := [SYNC, reg] + PayloadBytes(value);
    assert WriteFrame(reg, value)[..7] == body + [Crc(body)];
    CrcIsRemainder(body, Crc(body));
    CombineRestores(value);
  }

  /** A codeword that is divisible stops being so under a detectable error. */
  lemma ErrorBreaksDivisibility(codeword: seq<Byte>, e: seq<Byte>)
    requires |e| == |codeword| && codeword != [] && Divisible(BitsOf(codeword))
    requires Detectable(BitsOf(e))
    ensures !Divisible(BitsOf(XorBytes(codeword, e)))
  {
    CodewordsAreZero(codeword);
    CodewordsAreZero(XorBytes(codeword, e));
    BitsOfXor(codeword, e);
    RegisterLinear(BitsOf(codeword), BitsOf(e));
    DetectableIsSeen(BitsOf(e));
    var k :| 0 <= k < 8 && Register(BitsOf(e))[k] != ZeroOctet[k];
    assert Register(BitsOf(XorBytes(codeword, e)))[k] != ZeroOctet[k];
  }

  lemma CodewordsAreZero(codeword: seq<Byte>)
    requires codeword != []
    ensures Divisible(BitsOf(codeword)) <==> Register(BitsOf(codeword)) == ZeroOctet
  {
    var n := |codeword| - 1;
    var m, r := BitsOf(codeword[..n]), ByteBits(codeword[n]);
    RegisterIsRemainder(m, r);
    FeedConcat(ZeroOctet, m, r);
    OctetAddedToRegister(Register(m), r);
  }

  /** Feeding an octet leaves zero exactly when it equals the register. */
  lemma OctetAddedToRegister(x: Octet, w: Octet)
    ensures Feed(x, w) == ZeroOctet <==> x == w
  {
    AddThenShift(x, w, 8);
    assert w[..8] == w && w[8..] + Zeros(8) == Zeros(8);
    assert Xor(Feed(x, w), Zeros(8)) == Feed(x, w);
    if x == w {
      assert Xor(x, w) == ZeroOctet;
      ZerosFromZero(Zeros(8));
    } else {
      var k :| 0 <= k < 8 && x[k] != w[k];
      assert Xor(x, w)[k] && !ZeroOctet[k];
      ShiftsKeepNonzero(Xor(x, w), Zeros(8));
    }
  }

  /** Any odd number of flipped bits, and any burst of at most eight, within the first
      seven bytes is rejected, whatever happens to the eighth. */
  lemma DamagedFrameIsRejected(reg: Byte, value: bv32, e: seq<Byte>, last: Byte)
    requires |e| == 7 && Detectable(BitsOf(e))
    ensures !Wellformed(reg, XorBytes(WriteFrame(reg, value)[..7], e) + [last])
  {
    WrittenFrameIsAccepted(reg, value);
    ErrorBreaksDivisibility(WriteFrame(reg, value)[..7], e);
    var damaged := XorBytes(WriteFrame(reg, value)[..7], e);
    assert (damaged + [last])[..7] == damaged;
  }
}
