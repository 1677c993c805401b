/** Layout of the packed Ethernet and IP headers at the front of every packet buffer. */
module Frame {
  import opened Machine
  import opened Addresses

  const MAC_TYPE_ARP: u16 := 0x0806
  const MAC_TYPE_IP4: u16 := 0x0800

  const MAC_DEST := 0
  const MAC_SRC := 6
  const MAC_TYPE := 12
  const MAC_HEADER_SIZE := 14

  const IP_LENGTH := 16
  const IP_PROTOCOL := 23
  const IP_SRC := 26
  const IP_DEST := 30
  const IP_HEADER_SIZE := 34

  function MacAt(f: seq<byte>, at: nat): (r: Mac)
    requires at + 6 <= |f|
  {
    f[at..at + 6]
  }

  function IpAt(f: seq<byte>, at: nat): (r: Ip)
    requires at + 4 <= |f|
  {
    f[at..at + 4]
  }
}
