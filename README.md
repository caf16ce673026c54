# IP address anonymisation (AliasVault `IpAddressUtility`)

This project models `IpAddressUtility.GetIpFromContext` from AliasVault's
authentication utilities and proves what it returns. It takes the optional
HTTP context of a request and returns:

- the empty string when there is no context;
- otherwise the connection's remote address, with `"0.0.0.0"` substituted
  when it is null: unchanged when it has fewer than two dots, and
  otherwise its first three dot-segments followed by `.xxx`. The
  placeholder itself is therefore returned as `"0.0.0.xxx"`.

The utility works on the address as text. It calls .NET's
`String.Split('.')` and then indexes segments 0, 1 and 2. An address with
exactly one dot makes the indexer throw, and the utility catches that and
keeps the address as it was.

Modules:

- `Wrappers` (`wrappers.dfy`): `Option`. It stands for C#'s nullable
  references and the `??` operator (`GetOr`). It also stands for an indexer
  that may throw.
- `Strings` (`strings.dfy`): .NET's `String.Split(char)` and its inverse
  `Join`. This `Split` keeps empty segments, as the .NET method does when
  no options are given. The file proves that splitting is the unique
  decomposition into separator-free segments, so split and join are
  inverses.
- `IpAddressUtility` (`ip_address_utility.dfy`): the context types, the
  `try` block (`TryMask`), the anonymisation step (`Anonymize`), the
  whole function (`GetIpFromContext`), and lemmas about them.

The `try`/`catch` becomes an `Option`: `SegmentAt` returns `None` where the
.NET indexer would throw, and `Anonymize` maps `None` back to the
unchanged address. Every function of the `IpAddressUtility` module is total
and has no precondition. That is the model's statement that no error ever
reaches the caller.

Three members define the meaning of source constructs rather than prove
anything about the utility: `SegmentAt` (the indexer and its exception),
`Option.GetOr` (the `??` operator) and `Masked` (the concatenation). Their
contracts describe those constructs; the properties of the utility are
stated by the other members.

## Model

| member | source | states |
|---|---|---|
| `Strings.Split` | apps/server/Utilities/AliasVault.Auth/IpAddressUtility.cs:40 | `Split('.')` on the address: one more segment than there are separators, no segment contains the separator, and joining the segments with the separator gives back the input |
| `Strings.SplitUnique` | apps/server/Utilities/AliasVault.Auth/IpAddressUtility.cs:40 | any non-empty list of separator-free segments that joins to a string is that string's split, so the segments the utility indexes are well defined |
| `Strings.SplitJoin` | apps/server/Utilities/AliasVault.Auth/IpAddressUtility.cs:40 | round trip: splitting a join of separator-free segments gives the segments back |
| `Wrappers.Option.GetOr` | apps/server/Utilities/AliasVault.Auth/IpAddressUtility.cs:33 | defines C#'s `??`: the value when there is one, the default otherwise |
| `IpAddressUtility.SegmentAt` | apps/server/Utilities/AliasVault.Auth/IpAddressUtility.cs:40 | defines the indexer `Split('.')[i]`: a segment exactly when `i` is in range, and no value where .NET throws `IndexOutOfRangeException` |
| `IpAddressUtility.Masked` | apps/server/Utilities/AliasVault.Auth/IpAddressUtility.cs:40 | defines the concatenation `seg0 + "." + seg1 + "." + seg2 + ".xxx"`, and states that it is the three segments and `xxx` joined with dots |
| `IpAddressUtility.TryMask` | apps/server/Utilities/AliasVault.Auth/IpAddressUtility.cs:38-41 | the `try` block fails (the indexer throws) exactly when the address has fewer than two dots; when it succeeds its value is the first three segments followed by `.xxx` |
| `IpAddressUtility.Anonymize` | apps/server/Utilities/AliasVault.Auth/IpAddressUtility.cs:35-48 | an address without a dot, or with only one dot, is returned unchanged; an address with at least two dots becomes `seg0.seg1.seg2.xxx` |
| `IpAddressUtility.GetIpFromContext` | apps/server/Utilities/AliasVault.Auth/IpAddressUtility.cs:22-49 | a null context gives `""`; a context with a null remote address gives `"0.0.0.xxx"`; any other context gives its remote address anonymised; the function has no precondition and always returns a string |
| `IpAddressUtility.FailedMaskKeepsAddress` | apps/server/Utilities/AliasVault.Auth/IpAddressUtility.cs:38-45 | the `catch` path: the masking fails exactly when the split has fewer than three segments, and the address then comes back unchanged |
| `IpAddressUtility.DefaultAddressMasked` | apps/server/Utilities/AliasVault.Auth/IpAddressUtility.cs:33-40 | the `"0.0.0.0"` placeholder is itself masked, to `"0.0.0.xxx"` |
| `IpAddressUtility.AnonymizeFourSegments` | apps/server/Utilities/AliasVault.Auth/IpAddressUtility.cs:40 | a dotted quad `a.b.c.d` of dot-free segments becomes `a.b.c.xxx` |
| `IpAddressUtility.MaskedSegments` | apps/server/Utilities/AliasVault.Auth/IpAddressUtility.cs:40 | a masked string `a.b.c.xxx` splits into exactly `a`, `b`, `c` and `xxx` |
| `IpAddressUtility.AnonymizedShape` | apps/server/Utilities/AliasVault.Auth/IpAddressUtility.cs:40 | a masked output has exactly three dots, ends in `.xxx`, and its segments are the input's first three followed by `xxx` |
| `IpAddressUtility.AnonymizeIdempotent` | apps/server/Utilities/AliasVault.Auth/IpAddressUtility.cs:36-48 | anonymising an anonymised address changes nothing |
| `IpAddressUtility.AnonymizeForgetsTail` | apps/server/Utilities/AliasVault.Auth/IpAddressUtility.cs:40 | segments after the third are dropped: two addresses with at least two dots that share their first three segments are anonymised to the same string |
| `IpAddressUtility.ExampleIpv4` | apps/server/Utilities/AliasVault.Auth/IpAddressUtility.cs:40 | `"192.168.1.42"` becomes `"192.168.1.xxx"` |
| `IpAddressUtility.ExampleNoDot` | apps/server/Utilities/AliasVault.Auth/IpAddressUtility.cs:36 | `"::1"`, which has no dot, is returned unchanged |
| `IpAddressUtility.ExampleOneDot` | apps/server/Utilities/AliasVault.Auth/IpAddressUtility.cs:38-45 | for `"1.2"` the `try` block fails and the address is returned unchanged |

## Left out

- ASP.NET Core's `HttpContext`, `ConnectionInfo` and `IPAddress` are framework types. The model keeps only the path the utility reads: a context holds a connection, and the connection holds an optional address string.
- `IPAddress.ToString()` formatting (IPv6, compressed and IPv4-mapped forms) is library behaviour. The remote address is an arbitrary string here.
- Trust in forwarded headers is handled by ASP.NET Core's forwarded-headers middleware, which runs before the utility and is not part of this model. The utility only reads the address that middleware leaves behind.
- Exceptions are not modelled as such. The only one that can arise, the out-of-range index in the `try` block, becomes an `Option`. The model has no other failure: in .NET, splitting a non-null string and concatenating strings do not throw.
