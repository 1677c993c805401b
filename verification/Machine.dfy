/**
 * The integer widths, byte order and memory copies of the target: an 8-bit AVR with a
 * 16-bit int, little-endian, compiled with packed structures overlaid on the packet buffer.
 */
module Machine {

  type byte = x: int | 0 <= x < 0x100
  type u16 = x: int | 0 <= x < 0x1_0000
  type u32 = x: int | 0 <= x < 0x1_0000_0000

  datatype Option<+T> = None | Some(value: T)

  /** The 16-bit word whose bytes travel high byte first. */
  function Word(hi: byte, lo: byte): (w: u16)
  {
    0x100 * hi + lo
  }

  /** Bit `i` of a number, bit 0 the least significant. */
  predicate Bit(x: nat, i: nat)
    decreases i
  {
    if i == 0 then x % 2 == 1 else Bit(x / 2, i - 1)
  }

  /** An octet as the set of its bits that are 1. */
  type Bits = set<nat>

  function BitsOf(x: byte): (b: Bits)
  {
    set i | 0 <= i < 8 && Bit(x, i)
  }

  lemma {:induction false} BitsDetermine(x: nat, y: nat, n: nat)
    requires x < Power2(n) && y < Power2(n)
    requires forall i :: 0 <= i < n ==> (Bit(x, i) <==> Bit(y, i))
    ensures x == y
  {
    if n > 0 {
      forall i | 0 <= i < n - 1 ensures Bit(x / 2, i) <==> Bit(y / 2, i) {
        assert Bit(x, i + 1) <==> Bit(y, i + 1);
      }
      BitsDetermine(x / 2, y / 2, n - 1);
      assert Bit(x, 0) <==> Bit(y, 0);
    }
  }

  function Power2(n: nat): (r: nat)
    ensures r > 0
  {
    if n == 0 then 1 else 2 * Power2(n - 1)
  }

  /** A sum of two uint16_t values, kept in 16 bits. */
  function ToU16(x: int): (r: u16)
    requires 0 <= x < 0x2_0000
  {
    if x < 0x1_0000 then x else x - 0x1_0000
  }

  /** The sum of a uint32_t and an int, kept in 32 bits: a negative int is sign-extended first. */
  function ToU32(x: int): (r: u32)
    requires -0x1_0000_0000 <= x < 0x2_0000_0000
  {
    if x < 0 then x + 0x1_0000_0000 else if x < 0x1_0000_0000 then x else x - 0x1_0000_0000
  }

  function Htons(x: u16): (r: u16)
  {
    x / 0x100 % 0x100 + x % 0x100 * 0x100
  }

  /** What a uint16_t field of an overlaid structure reads as: low byte first. */
  function LoadLittleEndian(s: seq<byte>, at: nat): (r: u16)
    requires at + 2 <= |s|
  {
    Word(s[at + 1], s[at])
  }

  /** The value of a big-endian field. */
  function NetworkWord(s: seq<byte>, at: nat): (r: u16)
    requires at + 2 <= |s|
  {
    Word(s[at], s[at + 1])
  }

  lemma HtonsLoadsNetworkOrder(s: seq<byte>, at: nat)
    requires at + 2 <= |s|
    ensures Htons(LoadLittleEndian(s, at)) == NetworkWord(s, at)
  {
    var x := LoadLittleEndian(s, at);
    assert x % 0x100 == s[at] && x / 0x100 == s[at + 1];
  }

  /** `htons(header->field)` */
  method GetNetworkWord(buffer: array<byte>, at: nat) returns (r: u16)
    requires at + 2 <= buffer.Length
    ensures r == NetworkWord(buffer[..], at)
  {
    HtonsLoadsNetworkOrder(buffer[..], at);
    r := Htons(LoadLittleEndian(buffer[..], at));
  }

  /** `s` with `bytes` written over it from offset `at`. */
  function Splice(s: seq<byte>, at: nat, bytes: seq<byte>): (r: seq<byte>)
    requires at + |bytes| <= |s|
    ensures |r| == |s|
  {
    s[..at] + bytes + s[at + |bytes|..]
  }

  lemma SpliceElsewhere(s: seq<byte>, at: nat, bytes: seq<byte>, lo: nat, n: nat)
    requires at + |bytes| <= |s| && lo + n <= |s|
    requires lo + n <= at || at + |bytes| <= lo
    ensures Splice(s, at, bytes)[lo..lo + n] == s[lo..lo + n]
  {
  }

  /** `memcpy` (and `memset`) into a buffer; the source bytes are read before the first write. */
  method Put(buffer: array<byte>, at: nat, bytes: seq<byte>)
    requires at + |bytes| <= buffer.Length
    modifies buffer
    ensures buffer[..] == Splice(old(buffer[..]), at, bytes)
  {
    for i := 0 to |bytes|
      invariant forall k :: 0 <= k < buffer.Length ==>
        buffer[k] == if at <= k < at + i then bytes[k - at] else old(buffer[k])
    {
      buffer[at + i] := bytes[i];
    }
  }

  /** `header->field = htons(value)`: the store is little-endian, the bytes land big-endian. */
  method PutNetworkWord(buffer: array<byte>, at: nat, value: u16)
    requires at + 2 <= buffer.Length
    modifies buffer
    ensures buffer[..] == Splice(old(buffer[..]), at, [value / 0x100, value % 0x100])
  {
    var stored := Htons(value);
    assert stored % 0x100 == value / 0x100 && stored / 0x100 == value % 0x100;
    Put(buffer, at, [stored % 0x100, stored / 0x100]);
  }
}
