/** `IpAddressUtility.GetIpFromContext`: the client address of a request,
    with the last octet of a dotted address masked as `xxx`. */
module IpAddressUtility {
  import opened Wrappers
  import opened Strings

  /** The connection of a request; the remote address is already rendered
      as text (`IPAddress.ToString()`) and is null when unknown. */
  datatype Connection = Connection(remoteIpAddress: Option<string>)

  /** The part of ASP.NET Core's `HttpContext` the utility reads. */
  datatype HttpContext = HttpContext(connection: Connection)

  /** Substituted when the connection has no remote address. */
  const DefaultAddress: string := "0.0.0.0"

  /** Appended to the three kept segments. */
  const MaskSuffix: string := ".xxx"

  /** `parts[i]`, or None where .NET's indexer would throw
      `IndexOutOfRangeException`. */
  function SegmentAt(parts: seq<string>, i: nat): (r: Option<string>)
    ensures r.Some? <==> i < |parts|
    ensures r.Some? ==> r.value == parts[i]
  {
    if i < |parts| then Some(parts[i]) else None
  }

  /** The first three segments with the mask appended: the segments and
      `xxx` joined with dots. */
  function Masked(s0: string, s1: string, s2: string): (r: string)
    ensures r == Join([s0, s1, s2, "xxx"], '.')
  {
    JoinFour(s0, s1, s2, "xxx");
    var head := s0 + "." + s1 + "." + s2;
    assert head + "." + "xxx" == head + MaskSuffix;
    head + MaskSuffix
  }

  /** The body of the `try` block: None stands for the exception the
      indexer raises when the address has fewer than three segments. */
  function TryMask(ip: string): (r: Option<string>)
    ensures r.None? <==> Occurrences(ip, '.') < 2
    ensures r.Some? ==> r.value == Masked(Split(ip, '.')[0], Split(ip, '.')[1], Split(ip, '.')[2])
  {
    var parts := Split(ip, '.');
    match (SegmentAt(parts, 0), SegmentAt(parts, 1), SegmentAt(parts, 2))
    case (Some(s0), Some(s1), Some(s2)) => Some(Masked(s0, s1, s2))
    case _ => None
  }

  /** The anonymisation step: a string with a dot goes through the `try`
      block, whose failure leaves the string as it was. An address with
      at least two dots keeps its first three segments and loses the rest;
      any other address comes back unchanged. */
  function Anonymize(ip: string): (r: string)
    ensures Occurrences(ip, '.') < 2 ==> r == ip
    ensures Occurrences(ip, '.') >= 2 ==>
      var parts := Split(ip, '.');
      r == Masked(parts[0], parts[1], parts[2])
  {
    if '.' in ip then
      match TryMask(ip)
      case Some(masked) => masked
      case None => ip
    else
      ip
  }

  /** The whole utility: empty for a missing context, otherwise the
      remote address, or the default when there is none, anonymised. */
  function GetIpFromContext(httpContext: Option<HttpContext>): (ip: string)
    ensures httpContext.None? ==> ip == ""
    ensures httpContext.Some? && httpContext.value.connection.remoteIpAddress.None? ==>
      ip == "0.0.0.xxx"
    ensures httpContext.Some? && httpContext.value.connection.remoteIpAddress.Some? ==>
      ip == Anonymize(httpContext.value.connection.remoteIpAddress.value)
  {
    match httpContext
    case None => ""
    case Some(context) =>
      DefaultAddressMasked();
      Anonymize(context.connection.remoteIpAddress.GetOr(DefaultAddress))
  }

  lemma JoinFour(a: string, b: string, c: string, d: string)
    ensures Join([a, b, c, d], '.') == a + "." + b + "." + c + "." + d
  {
    JoinCons(c, [d], '.');
    JoinCons(b, [c, d], '.');
    JoinCons(a, [b, c, d], '.');
    assert [a] + [b, c, d] == [a, b, c, d];
    assert [b] + [c, d] == [b, c, d];
    assert [c] + [d] == [c, d];
  }

  /** A dotted address of four dot-free segments is masked to its first three.
      The address and its masked form are parameters fixed by `requires`, so
      that a caller applying it to string literals only has to check those
      two equalities instead of evaluating `Split` on the literal. */
  lemma AnonymizeFourSegments(ip: string, a: string, b: string, c: string, d: string, masked: string)
    requires '.' !in a && '.' !in b && '.' !in c && '.' !in d
    requires ip == a + "." + b + "." + c + "." + d
    requires masked == Masked(a, b, c)
    ensures Anonymize(ip) == masked
  {
    assert SeparatorFree([a, b, c, d], '.');
    JoinFour(a, b, c, d);
    SplitJoin([a, b, c, d], '.');
  }

  /** The placeholder address is itself dotted, so it is masked too. */
  lemma DefaultAddressMasked()
    ensures Anonymize(DefaultAddress) == "0.0.0.xxx"
  {
    AnonymizeFourSegments(DefaultAddress, "0", "0", "0", "0", "0.0.0.xxx");
  }

  /** A masked string splits back into the three kept segments and `xxx`. */
  lemma MaskedSegments(a: string, b: string, c: string)
    requires '.' !in a && '.' !in b && '.' !in c
    ensures Split(Masked(a, b, c), '.') == [a, b, c, "xxx"]
  {
    var out := [a, b, c, "xxx"];
    assert SeparatorFree(out, '.');
    SplitJoin(out, '.');
  }

  /** A masked address consists of exactly the three kept segments and
      `xxx`: it has three dots, ends in `.xxx`, and its first three
      segments are those of the input. */
  lemma AnonymizedShape(ip: string)
    requires Occurrences(ip, '.') >= 2
    ensures var parts := Split(ip, '.');
      Split(Anonymize(ip), '.') == [parts[0], parts[1], parts[2], "xxx"]
    ensures Occurrences(Anonymize(ip), '.') == 3
    ensures |Anonymize(ip)| >= 4 && Anonymize(ip)[|Anonymize(ip)| - 4..] == MaskSuffix
  {
    var parts := Split(ip, '.');
    MaskedSegments(parts[0], parts[1], parts[2]);
    var head := parts[0] + "." + parts[1] + "." + parts[2];
    assert Anonymize(ip) == head + MaskSuffix;
  }

  /** Anonymising an already anonymised address changes nothing. */
  lemma AnonymizeIdempotent(ip: string)
    ensures Anonymize(Anonymize(ip)) == Anonymize(ip)
  {
    if Occurrences(ip, '.') >= 2 {
      AnonymizedShape(ip);
    }
  }

  /** Only the first three segments reach the output: two masked addresses
      that agree on them are anonymised alike, whatever follows. */
  lemma AnonymizeForgetsTail(ip: string, other: string)
    requires Occurrences(ip, '.') >= 2 && Occurrences(other, '.') >= 2
    requires Split(ip, '.')[..3] == Split(other, '.')[..3]
    ensures Anonymize(ip) == Anonymize(other)
  {
    assert Split(ip, '.')[0] == Split(ip, '.')[..3][0];
    assert Split(ip, '.')[1] == Split(ip, '.')[..3][1];
    assert Split(ip, '.')[2] == Split(ip, '.')[..3][2];
  }

  /** The `catch` branch: the try block fails exactly when the address has
      fewer than three segments, and then the address is returned as it was. */
  lemma FailedMaskKeepsAddress(ip: string)
    ensures TryMask(ip).None? <==> |Split(ip, '.')| < 3
    ensures TryMask(ip).None? ==> Anonymize(ip) == ip
  {
  }

  lemma ExampleIpv4()
    ensures Anonymize("192.168.1.42") == "192.168.1.xxx"
  {
    AnonymizeFourSegments("192.168.1.42", "192", "168", "1", "42", "192.168.1.xxx");
  }

  lemma ExampleNoDot()
    ensures Anonymize("::1") == "::1"
  {
  }

  lemma ExampleOneDot()
    ensures TryMask("1.2").None?
    ensures Anonymize("1.2") == "1.2"
  {
  }
}
