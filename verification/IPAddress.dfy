/** The two forms of a net.IP that the code meets, and the protocol numbers. */
module IPAddress {
  import opened Bytes

  const PROTO_ICMP: byte := 1
  const PROTO_TCP: byte := 6

  /** Go's `IP.To4`: 4-byte addresses, and 16-byte ones that are IPv4-mapped. */
  function To4(ip: bytes): (r: Option<bytes>)
    ensures r.Some? ==> |r.value| == 4
    ensures |ip| == 4 ==> r == Some(ip)
  {
    if |ip| == 4 then Some(ip)
    else if |ip| == 16 && ip[..12] == MappedPrefix() then Some(ip[12..])
    else None
  }

  function MappedPrefix(): (p: bytes)
    ensures |p| == 12
  {
    Zeros(10) + [0xFF, 0xFF]
  }

  /** Go's `net.IPv4`: the 16-byte form of four bytes. */
  function IPv4(quad: bytes): (ip: bytes)
    requires |quad| == 4
    ensures To4(ip) == Some(quad)
  {
    var ip := MappedPrefix() + quad;
    assert ip[..12] == MappedPrefix() && ip[12..] == quad;
    ip
  }

  /** The four bytes a header carries for `ip`: zeros when it is not an IPv4 address. */
  function Quad(ip: bytes): (q: bytes)
    ensures |q| == 4
  {
    match To4(ip)
    case Some(quad) => quad
    case None => Zeros(4)
  }

  /** The mapped form is ten zeros, two bytes 255 and the address. */
  lemma MappedForm(a: byte, b: byte, c: byte, d: byte)
    ensures IPv4([a, b, c, d]) == [0, 0, 0, 0, 0, 0, 0, 0, 0, 0, 255, 255, a, b, c, d]
  {
    assert Zeros(10) == [0, 0, 0, 0, 0, 0, 0, 0, 0, 0];
  }

  /** Addresses in neither form have no four bytes, and a header carries zeros for them. */
  lemma OtherForms(ip: bytes)
    ensures To4(ip) == None <==> |ip| != 4 && !exists quad: bytes :: |quad| == 4 && ip == IPv4(quad)
    ensures To4(ip) == None ==> Quad(ip) == [0, 0, 0, 0]
  {
    if |ip| == 16 && To4(ip).Some? {
      assert ip == IPv4(ip[12..]);
    }
  }
}
