/** The address types of the network modules. */
module Net {
  import opened Machine

  type MacAddr = m: seq<u8> | |m| == 6 witness [0, 0, 0, 0, 0, 0]
  type Ipv4Addr = u32
}
