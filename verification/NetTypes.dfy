/** Machine integers, network byte order and the small value types shared by every protocol model. */
module NetTypes {

  const TWO32: int := 0x1_0000_0000

  type byte = x: int | 0 <= x < 0x100
  type u16 = x: int | 0 <= x < 0x1_0000
  type u32 = x: int | 0 <= x < 0x1_0000_0000

  datatype Option<+T> = None | Some(value: T)

  /** An `Interface *`: the null pointer, or an attached port. */
  datatype Iface = NoIface | Port(id: nat)

  /** A 16-bit field as it lies in a packet, most significant byte first. */
  function Put16(x: u16): (b: seq<byte>)
    ensures |b| == 2
  {
    [x / 0x100, x % 0x100]
  }

  function Get16(b: seq<byte>): u16
    requires |b| >= 2
  {
    0x100 * (b[0] as int) + b[1]
  }

  /** A 32-bit field as it lies in a packet, most significant byte first. */
  function Put32(x: u32): (b: seq<byte>)
    ensures |b| == 4
  {
    Put16(x / 0x1_0000) + Put16(x % 0x1_0000)
  }

  function Get32(b: seq<byte>): u32
    requires |b| >= 4
  {
    0x1_0000 * (Get16(b) as int) + Get16(b[2..])
  }

  /** Reading a 16-bit field inverts writing it, and every two bytes are the writing of some field. */
  lemma Field16RoundTrip(x: u16, b: seq<byte>, tail: seq<byte>)
    requires |b| == 2
    ensures Get16(Put16(x) + tail) == x
    ensures Put16(Get16(b)) == b
  {
  }

  /** Reading a 32-bit field inverts writing it, and every four bytes are the writing of some field. */
  lemma Field32RoundTrip(x: u32, b: seq<byte>, tail: seq<byte>)
    requires |b| == 4
    ensures Get32(Put32(x) + tail) == x
    ensures Put32(Get32(b)) == b
  {
    Field32Written(x, tail);
    Field32Read(b);
  }

  lemma Field32Written(x: u32, tail: seq<byte>)
    ensures Get32(Put32(x) + tail) == x
  {
    var w := Put32(x) + tail;
    assert w[..2] == Put16(x / 0x1_0000) && w[2..4] == Put16(x % 0x1_0000);
  }

  lemma Field32Read(b: seq<byte>)
    requires |b| == 4
    ensures Put32(Get32(b)) == b
  {
    var high, low := Get16(b), Get16(b[2..]);
    Halves(high, low);
    Field16RoundTrip(0, b[..2], []);
    Field16RoundTrip(0, b[2..], []);
    assert Get16(b[..2]) == high && b == b[..2] + b[2..];
  }

  lemma Halves(high: u16, low: u16)
    ensures (0x1_0000 * (high as int) + low) / 0x1_0000 == high && (0x1_0000 * (high as int) + low) % 0x1_0000 == low
  {
  }
}
