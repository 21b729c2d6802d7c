/** The address values the samplers return. InetAddress and InternetAddress
    are library or helper classes that are not part of this model: a host
    is either the name handed to InetAddress.getByName, once the `resolves`
    parameter has accepted it, or the raw bytes handed to
    InetAddress.getByAddress; an InternetAddress pairs a host with a port.
 */
module NetAddress {
  import opened Outcomes
  import opened Config

  datatype Host = ByName(name: string) | ByAddress(octets: seq<bv8>)

  datatype InternetAddress = InternetAddress(host: Host, port: int)

  /** What a lookup gives: an address, null (UnknownHostException or a dry
      run), or an exception that nothing catches. */
  datatype Lookup = Found(host: Host) | NotFound | Crash

  /** InetAddress.getByName: found exactly when the name resolves. */
  function GetByName(name: string, resolves: string -> bool): (l: Lookup)
    ensures l.Found? <==> resolves(name)
    ensures l.Crash? == false
    ensures l.Found? ==> l.host == ByName(name)
  {
    if resolves(name) then Found(ByName(name)) else NotFound
  }

  /** InetAddress.getByAddress: an IPv4 or IPv6 address, four or sixteen
      bytes; any other length is an UnknownHostException. */
  function GetByAddress(octets: seq<bv8>): (l: Lookup)
    ensures l.Found? <==> |octets| == 4 || |octets| == 16
    ensures l.Crash? == false
    ensures l.Found? ==> l.host == ByAddress(octets)
  {
    if |octets| == 4 || |octets| == 16 then Found(ByAddress(octets)) else NotFound
  }

  /** InetAddress.getByAddress(Util.readOctets(text)): a field that is not
      an integer throws NumberFormatException, which is not an
      UnknownHostException and so is not caught. */
  function GetByDottedText(text: string): (l: Lookup)
    ensures l.Crash? <==> ReadOctets(text).None?
    ensures l.Found? ==> ReadOctets(text).Some? && l.host == ByAddress(ReadOctets(text).value)
  {
    match ReadOctets(text)
    case None => Crash
    case Some(octets) => GetByAddress(octets)
  }
}
