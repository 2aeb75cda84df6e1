/** utility/ip_utility.go: is an address inside an inclusive range? Addresses
    are Go's net.IP byte slices; textual parsing (net.ParseIP) is not modelled
    and its result is an input. */
module IpUtility {
  import opened Base
  import Lex

  type Byte = x: int | 0 <= x < 256

  /** A net.IP value: 4 bytes, 16 bytes, or (for nil) none. */
  type IP = seq<Byte>

  const IPv4Len: nat := 4
  const IPv6Len: nat := 16

  /** The 16-byte form holds an IPv4 address: ten zero bytes, then 0xff 0xff. */
  predicate IsV4InV6(ip: IP)
  {
    |ip| == IPv6Len && (forall i :: 0 <= i < 10 ==> ip[i] == 0) && ip[10] == 0xff && ip[11] == 0xff
  }

  /** net.IP.To4: the 4-byte form of an IPv4 address, or nil for anything else. */
  function To4(ip: IP): (v4: Option<IP>)
    ensures v4.Some? <==> |ip| == IPv4Len || IsV4InV6(ip)
    ensures v4.Some? ==> |v4.value| == IPv4Len && v4.value == ip[|ip| - IPv4Len..]
  {
    if |ip| == IPv4Len then Some(ip)
    else if IsV4InV6(ip) then Some(ip[12..16])
    else None
  }

  /** CheckIPInRange: false unless the parsed input is an IPv4 address; then
      whether it lies between `start` and `end`, both ends included, in the
      byte order of bytes.Compare. The comparison uses the parsed form itself,
      not its 4-byte To4 form. `parsed` is the result of net.ParseIP, None
      when the text did not parse. */
  function CheckIPInRange(parsed: Option<IP>, start: IP, end: IP): (inRange: bool)
    ensures parsed.None? ==> !inRange
    ensures parsed.Some? && To4(parsed.value).None? ==> !inRange
    ensures inRange <==>
      && parsed.Some? && To4(parsed.value).Some?
      && !Lex.Precedes(parsed.value, start)
      && !Lex.Precedes(end, parsed.value)
  {
    var input: IP := if parsed.Some? then parsed.value else [];
    if To4(input).None? then
      false
    else
      Lex.CompareMatchesPrecedes(input, start);
      Lex.CompareMatchesPrecedes(end, input);
      Lex.CompareAntisymmetric(input, end);
      Lex.Compare(input, start) >= 0 && Lex.Compare(input, end) <= 0
  }

  /** A range whose end sorts before its start contains no address. */
  lemma {:induction false} EmptyRangeRejectsAll(parsed: Option<IP>, start: IP, end: IP)
    requires Lex.Precedes(end, start)
    ensures !CheckIPInRange(parsed, start, end)
  {
    if CheckIPInRange(parsed, start, end) {
      var input := parsed.value;
      Lex.CompareMatchesPrecedes(input, start);
      Lex.CompareMatchesPrecedes(end, input);
      Lex.CompareMatchesPrecedes(end, start);
      Lex.CompareAntisymmetric(input, end);
      Lex.CompareAntisymmetric(start, input);
      Lex.AtMostTransitive(start, input, end);
      Lex.CompareAntisymmetric(start, end);
    }
  }

  /** Both bounds are inside their range, when they are IPv4 addresses. */
  lemma BoundsIncluded(start: IP, end: IP)
    requires To4(start).Some? && To4(end).Some?
    requires !Lex.Precedes(end, start)
    ensures CheckIPInRange(Some(start), start, end)
    ensures CheckIPInRange(Some(end), start, end)
  {
    Lex.CompareMatchesPrecedes(start, start);
    Lex.CompareMatchesPrecedes(end, end);
  }

  /** Because the parsed 16-byte form is compared, a range given in 4-byte form
      does not contain the parsed form of an address lying inside it:
      ::ffff:10.0.0.5 sorts before 10.0.0.0. */
  lemma MixedFormsExample()
    ensures var parsed: IP := [0, 0, 0, 0, 0, 0, 0, 0, 0, 0, 0xff, 0xff, 10, 0, 0, 5];
      && To4(parsed) == Some([10, 0, 0, 5])
      && CheckIPInRange(Some([10, 0, 0, 5]), [10, 0, 0, 0], [10, 0, 0, 255])
      && !CheckIPInRange(Some(parsed), [10, 0, 0, 0], [10, 0, 0, 255])
  {
    var parsed: IP := [0, 0, 0, 0, 0, 0, 0, 0, 0, 0, 0xff, 0xff, 10, 0, 0, 5];
    assert IsV4InV6(parsed);
    assert parsed[12..16] == [10, 0, 0, 5];
  }
}
