/** The command record that precedes every request and reply on the wire, byte by byte. */
module WireFormat {
  newtype byte = b: int | 0 <= b < 256

  const CMD_SIZE: nat := 4
  const TRANSOPT_SIZE: nat := 3
  const SCMD_STRSIZ: nat := 256
  const TCMD_SIZE: nat := 296

  /** The fields of `struct trans_cmd`; integers are those of a 64-bit little-endian machine. */
  datatype Command = Command(cmd: seq<byte>, opt: seq<int>, date: int, str: seq<byte>, len: int)

  predicate Int32(x: int) {
    -0x8000_0000 <= x < 0x8000_0000
  }

  predicate Int64(x: int) {
    -0x8000_0000_0000_0000 <= x < 0x8000_0000_0000_0000
  }

  predicate ValidCommand(c: Command) {
    && |c.cmd| == CMD_SIZE + 1 && |c.opt| == TRANSOPT_SIZE && |c.str| == SCMD_STRSIZ
    && (forall i :: 0 <= i < |c.opt| ==> Int32(c.opt[i]))
    && Int64(c.date) && Int32(c.len)
  }

  /** The k lowest bytes of `v`, least significant first. */
  function LittleEndian(v: nat, k: nat): (r: seq<byte>)
    ensures |r| == k
  {
    if k == 0 then [] else [(v % 256) as byte] + LittleEndian(v / 256, k - 1)
  }

  function Value(s: seq<byte>): nat {
    if s == [] then 0 else s[0] as int + 256 * Value(s[1..])
  }

  function Power(k: nat): nat {
    if k == 0 then 1 else 256 * Power(k - 1)
  }

  lemma {:induction false} ValueOfBytes(v: nat, k: nat)
    requires v < Power(k)
    ensures Value(LittleEndian(v, k)) == v
  {
    if k == 0 {
    } else {
      assert v / 256 < Power(k - 1) by {
        assert v == v / 256 * 256 + v % 256;
      }
      ValueOfBytes(v / 256, k - 1);
      var s := LittleEndian(v, k);
      assert s[1..] == LittleEndian(v / 256, k - 1);
    }
  }

  function Encode4(x: int): (r: seq<byte>)
    requires Int32(x)
    ensures |r| == 4
  {
    LittleEndian(if x < 0 then x + 0x1_0000_0000 else x, 4)
  }

  function Decode4(s: seq<byte>): int {
    var v := Value(s);
    if v >= 0x8000_0000 then v - 0x1_0000_0000 else v
  }

  function Encode8(x: int): (r: seq<byte>)
    requires Int64(x)
    ensures |r| == 8
  {
    LittleEndian(if x < 0 then x + 0x1_0000_0000_0000_0000 else x, 8)
  }

  function Decode8(s: seq<byte>): int {
    var v := Value(s);
    if v >= 0x8000_0000_0000_0000 then v - 0x1_0000_0000_0000_0000 else v
  }

  lemma IntegersRoundTrip(x: int, y: int)
    requires Int32(x) && Int64(y)
    ensures Decode4(Encode4(x)) == x && Decode8(Encode8(y)) == y
  {
    assert Power(4) == 0x1_0000_0000 by {
      assert Power(2) == 65536;
    }
    assert Power(8) == 0x1_0000_0000_0000_0000 by {
      assert Power(6) == 65536 * Power(4);
    }
    ValueOfBytes(if x < 0 then x + 0x1_0000_0000 else x, 4);
    ValueOfBytes(if y < 0 then y + 0x1_0000_0000_0000_0000 else y, 8);
  }

  /** The bytes of a record; the padding between fields holds whatever was in memory. */
  function Encode(c: Command, pad: seq<byte>): (r: seq<byte>)
    requires ValidCommand(c) && |pad| == 11
    ensures |r| == TCMD_SIZE
  {
    c.cmd + pad[..3] + Encode4(c.opt[0]) + Encode4(c.opt[1]) + Encode4(c.opt[2]) + pad[3..7]
    + Encode8(c.date) + c.str + Encode4(c.len) + pad[7..]
  }

  function Decode(s: seq<byte>): Command
    requires |s| == TCMD_SIZE
  {
    Command(s[..5], [Decode4(s[8..12]), Decode4(s[12..16]), Decode4(s[16..20])],
            Decode8(s[24..32]), s[32..288], Decode4(s[288..292]))
  }

  /** A receiver gets back the fields that were sent, whatever the padding. */
  lemma CommandRoundTrip(c: Command, pad: seq<byte>)
    requires ValidCommand(c) && |pad| == 11
    ensures Decode(Encode(c, pad)) == c
  {
    var s := Encode(c, pad);
    assert s[..5] == c.cmd;
    assert s[8..12] == Encode4(c.opt[0]);
    assert s[12..16] == Encode4(c.opt[1]);
    assert s[16..20] == Encode4(c.opt[2]);
    assert s[24..32] == Encode8(c.date);
    assert s[32..288] == c.str;
    assert s[288..292] == Encode4(c.len);
    IntegersRoundTrip(c.opt[0], c.date);
    IntegersRoundTrip(c.opt[1], c.date);
    IntegersRoundTrip(c.opt[2], c.date);
    IntegersRoundTrip(c.len, c.date);
  }
}
