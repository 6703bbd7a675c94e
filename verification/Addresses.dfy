/** system/BAddr.h: addresses as the modules here tell them apart. */
module Addresses {
  import opened Wrappers

  /** ip and port are in network byte order; Other is any further address type. */
  datatype BAddr = IPv4(ip: seq<byte>, port: seq<byte>) | IPv6(ip: seq<byte>, port: seq<byte>) | Other {
    predicate Valid() {
      !Other? ==> |port| == 2 && |ip| == if IPv4? then 4 else 16
    }
  }

  /** An address as the struct holds it: the members have their sizes. */
  type Address = a: BAddr | a.Valid() witness Other
}
