/** weaver/core/relay/src/relay_proto.rs: the relay's address syntax
    `host:port/network/view`. */
module RelayAddress {
  import opened Text

  datatype LocationSegment = LocationSegment(
    hostname: string, port: string, tls: bool, tlscaCertPath: string)

  datatype Address = Address(location: LocationSegment, networkId: string, view: string)

  datatype Error = InvalidAddressFormat | InvalidLocationFormat

  datatype Parsed<+T> = Ok(value: T) | Err(error: Error)

  function ParseLocation(location: string): (r: Parsed<LocationSegment>)
  {
    var v := Split(location, ':');
    if |v| != 2 then Err(InvalidLocationFormat)
    else Ok(LocationSegment(v[0], v[1], false, ""))
  }

  function ParseAddress(address: string): (r: Parsed<Address>)
  {
    var v := Split(address, '/');
    if |v| != 3 then Err(InvalidAddressFormat)
    else
      match ParseLocation(v[0])
      case Err(e) => Err(e)
      case Ok(location) => Ok(Address(location, v[1], v[2]))
  }

  /** The text of an address; the view may hold any character but the slash. */
  function Show(a: Address): (s: string)
  {
    a.location.hostname + ":" + a.location.port + "/" + a.networkId + "/" + a.view
  }

  ghost predicate Printable(a: Address)
  {
    && '/' !in a.location.hostname && ':' !in a.location.hostname
    && '/' !in a.location.port && ':' !in a.location.port
    && '/' !in a.networkId
    && '/' !in a.view
    && !a.location.tls
    && a.location.tlscaCertPath == ""
  }

  lemma LocationExactly(s: string, l: LocationSegment)
    ensures ParseLocation(s) == Ok(l) <==>
            && s == l.hostname + ":" + l.port
            && ':' !in l.hostname && ':' !in l.port && !l.tls && l.tlscaCertPath == ""
  {
    var v := Split(s, ':');
    JoinOfSplit(s, ':');
    if |v| == 2 {
      assert Join(v, ':') == v[0] + [':'] + v[1];
    }
    if s == l.hostname + ":" + l.port && ':' !in l.hostname && ':' !in l.port {
      var parts := [l.hostname, l.port];
      assert Join(parts, ':') == s;
      SplitUndoesJoin(parts, ':');
    }
  }

  /** The parser is exactly the inverse of the printer: it returns `a` on `s` if and only if
      `a` is printable and `s` is its text. Acceptance, the fields and their order, and that
      an accepted text has one reading all follow. */
  lemma ParsesExactlyWhatItPrints(s: string, a: Address)
    ensures ParseAddress(s) == Ok(a) <==> Printable(a) && Show(a) == s
  {
    if ParseAddress(s) == Ok(a) {
      ParsedIsPrintable(s, a);
    }
    if Printable(a) && Show(a) == s {
      PrintedIsParsed(s, a);
    }
  }

  lemma ParsedIsPrintable(s: string, a: Address)
    requires ParseAddress(s) == Ok(a)
    ensures Printable(a) && Show(a) == s
  {
    var v := Split(s, '/');
    JoinOfSplit(s, '/');
    assert Join(v[1..], '/') == v[1] + ['/'] + v[2];
    LocationExactly(v[0], a.location);
  }

  lemma PrintedIsParsed(s: string, a: Address)
    requires Printable(a) && Show(a) == s
    ensures ParseAddress(s) == Ok(a)
  {
    var first := a.location.hostname + ":" + a.location.port;
    var parts := [first, a.networkId, a.view];
    assert Join(parts[1..], '/') == a.networkId + ['/'] + a.view;
    assert Join(parts, '/') == s;
    SplitUndoesJoin(parts, '/');
    LocationExactly(first, a.location);
  }

  /** Which error: the slash count decides first, then the colon count of the first part. */
  lemma RejectsExactly(s: string)
    ensures ParseAddress(s) == Err(InvalidAddressFormat) <==> Occurrences(s, '/') != 2
    ensures ParseAddress(s) == Err(InvalidLocationFormat) <==>
            Occurrences(s, '/') == 2 && Occurrences(Split(s, '/')[0], ':') != 1
  {
    JoinOfSplit(s, '/');
    JoinOfSplit(Split(s, '/')[0], ':');
  }
}
