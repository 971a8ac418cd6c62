/** Values an SNMP variable can hold, with the tags they travel under. */
module Asn1 {
  import opened Oids

  type byte = x: int | 0 <= x < 256

  datatype Value =
    | Integer(i: int)
    | OctetString(octets: seq<byte>)
    | ObjectId(id: Oid)
    | IpAddress(octets: seq<byte>)
    | Counter(n: nat)
    | Gauge(n: nat)
    | TimeTicks(n: nat)
}
