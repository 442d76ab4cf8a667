# Verified model of the share daemon and its OAuth library

A Dafny model of the parts of the share daemon and of its OAuth 1.0 library whose correctness does
not follow from reading one function, with proofs of what they are for.

- **OAuth signing strings** (`Octets`, `PercentCoding`, `OAuthUrl`, `OAuthRoundTrip`, `OAuthSelection`,
  `Sorting`, `OAuthSignature`, `OAuthBaseString`, `Base64`, `ShellQuote`). Percent coding and base64 as inverse
  pairs; the exact condition under which splitting undoes serialising, with and without post arguments;
  the parameter comparator as a total order equal to that of RFC 5849; and the theorem of what a
  signature base string identifies.
- **USB configuration descriptors** (`UsbDescriptor`, `UsbParser`, `UsbSerializer`, `UsbRoundTrip`,
  `UsbErrors`, `UsbOverrun`, `UsbReads`). Three nested parser loops over an address space, and the
  theorem that a well-formed tree is parsed exactly when memory holds its bytes; accounting on arbitrary bytes; and exactly when
  the parser's pointer, and its reads, stay inside the buffer.
- **The daemon's wire protocol** (`Bytes`, `ByteOrder`, `Wire`, `Reassembly`, `Connection`). Byte
  order as an involution in place, framing, and independence of the division into reads.
- **Clients and the handshake** (`Clients`, `Handshake`, `Daemon`). The client list as objects
  updated in place, refined to values; the invariant of all runs of the handshake; the sweep, whose
  loop changes later records as it goes, as a closed form on the records before it.
- **The condition variable of the Windows threads layer** (`CondVar`). All interleavings of waits,
  timeouts and broadcasts as a state machine; no broadcast is lost.
- **USB reference counts** (`DeviceRefs`). Every count is the number of references held by lists,
  handles and callers, after every operation and every failure, and a device is listed exactly while
  that number is positive.
- **The reference clock** (`RefClock`, `FixedPoint`). The sample ring as a queue, the trimmed median
  filter, and multi-word fixed-point arithmetic (section 6 of RFC 5905).

Code that changes state in loops is modelled by methods and classes that are proved against
functions; theorems are then lemmas about those functions. Where a property that one would expect
does not hold, the code is kept as it is and the exact condition is proved; these are listed under
"Where the code differs from its intent".

## Assumptions

- Hosts are little-endian except where a flag says otherwise, and both ends agree. The magic word
  that the sender stores (`SHMEM_MAGIC`) is the one the reader tests (`SHMEM32_MAGIC`).
- Of the table of operations, those that wrap fields are subscribe, account, wallet, context and
  reference (bits.c:29-92); the number of an operation is its place in the table, and an initialisation
  wraps nothing. A subscription wraps the two words behind the key that follows its header. The sizes of
  keys and hashes, the number of operations, the places of the other wrapped members, and the checksum
  `shcrc` are parameters (`Wire.Format`). The wrapped members of one operation are disjoint, and lie behind
  the transaction header and behind the members that their structures declare before them.
- A handler writes only inside the transaction that it is given. What it writes there is not modelled;
  an initialisation's increments a number in place. So where bytes are said to survive a call, that is as
  far as `tx_wrap` and the trimming go.
- The block of a buffer may be longer than its contents, by any amount; what lies there is arbitrary.
- `shkey_cmp` is true for equal keys, as bits.c:129-133 uses it; libshare is not part of this model.
- C strings hold no NUL. `strtok`, `strchr`, `strstr` and `qsort` are modelled by their contracts.
- A handle, a list or an explicit reference is given up by its holder only once; that is what the
  `requires` clauses of `FreeDeviceList`, `UnrefDevice` and `Close` say.

## Where the code differs from its intent

Each with the exact condition, and an input where the condition does not show one.

- Parameters without = are written raw, so a name and the assignment of nothing to the name it
  encodes are signed alike, such as "a%20b" and "a b=", or "a" and "a=". Those aliases, and nothing
  else, are confused (`OAuthBaseString.WireEqual`, `IdentifiedExactly`, `AliasesCollide`,
  `RawNamesCollide`).
- Splitting a serialised array gives the array back only under the condition of
  `OAuthRoundTrip.RoundTripExactly`: it drops a ":80" before a slash, appends a missing path slash
  (`ChangedBase`), breaks a URL with & ? space or SOH, or + where that is read as a space, and never
  returns a parameter without = (`BareIsLost`). It does not return at all if the very first token is an oauth_signature
  (`OAuthUrl.SplitPostParameters`).
- With an empty separator, the question mark behind a base URL has no room in the block of the
  serialised text (`OAuthUrl.SerializeUrlSep`).
- In the clock filter, a median above the ceiling drops two samples in one pass, and the mean may then
  be divided by one more than it has terms. On the samples this is decided by two order statistics;
  only between them it depends on the distances (`RefClock.RemainingCount`, `OffsetIsMean`,
  `CeilingHalvesOffset`).
- A full sample ring loses all its samples on the next one (`RefClock.RefClockProc.AddOffset`).
- `LFPTOFP` wraps between 32768 and 65536 seconds, although it is written to saturate
  (`FixedPoint.LfpToFpSaturates`, `LfpToFpWraps`); `M_ADD3` of a number to itself counts a carry twice
  (`FixedPoint.ThreeWords.Add`).
- A message client that announces a registered network client's private key overwrites its handshake
  number. `Handshake.JoinOverNetwork` says exactly when the number falls, `NumberLoweredInput` that it
  can; such announcements, and no others, are excluded from the runs of the handshake invariant.
- An HTTP client never leaves the list, even when the sweep closes its socket (`Clients.OthersDecide`).
- Number 2 for a peer without a record follows a null pointer (`Handshake.FaultsExactly`,
  `FaultInput`); a run ends there.
- A transaction shorter than its operation's structure can be wrapped beyond its end: into the next
  frame, or into what lies in memory behind the buffered bytes (`Reassembly.FollowingBytes`,
  `SubscriptionSpares`). A subscription that is a bare header, once authenticated, reverses the two words
  of the next frame's stamp (`NextFrameChanged`), and puts foreign bytes there where only a part of them
  has arrived (`PartialFrameChanged`).
- Two of the three loops over class descriptors do not test a length against what is left, and the
  parser's pointer can leave its buffer (`UsbOverrun.ConfigInside`, `ConfigOverrunInput`).
- The endpoint loop reads a header where nothing may be left. `UsbReads.ReadsInside` says exactly when no
  byte beyond the buffer is read; `MissingEndpointInput` is one configuration that parses or fails by the
  bytes behind it, although the pointer stays inside.
- A broadcast that comes after a wait has ended and before its thread has returned leaves the event
  set, also where the wait succeeded; the next wait returns at once (`CondVar.LateEventEndsNextWait`,
  `SecondBroadcastIsStale`).

## Model

| member | source | states |
|---|---|---|
| `PercentCoding.UnescapeEscape` | src/share-oauth-lib/oauth.c:185-276 | decoding an encoded string gives the string back, for every C string |
| `PercentCoding.EscapeUnescape` | src/share-oauth-lib/oauth.c:185-276 | the other direction: on the language of unreserved characters and upper-case triples, encoding undoes decoding and no NUL is decoded |
| `PercentCoding.EscapeIsEscaped` | src/share-oauth-lib/oauth.c:197-233 | the encoder produces nothing but that language: unreserved characters and upper-case triples of the other octets |
| `PercentCoding.EscapeInjective` | src/share-oauth-lib/oauth.c:185-234 | different strings have different encodings |
| `PercentCoding.EscapeAvoids` | src/share-oauth-lib/oauth.c:197-233 | no reserved character but % occurs in an encoding, which is why & and = can delimit |
| `PercentCoding.EscapeConcat` | src/share-oauth-lib/oauth.c:185-234 | encoding distributes over concatenation |
| `PercentCoding.UrlEscape` | src/share-oauth-lib/oauth.c:185-234 | the growing in-place loop writes the encoding and its NUL; the block is always at least written plus remaining plus one, so each four-byte write fits after one doubling |
| `PercentCoding.UnescapeEscapePrefix` | src/share-daemon/http/oauth_session.c:303-390 | the same whatever text follows; the daemon's token coder has the same two loops |
| `PercentCoding.UrlUnescape` | src/share-oauth-lib/oauth.c:248-276 | the decoding loop writes the decoded text and its NUL inside a block sized for the input |
| `PercentCoding.PutTriple` | src/share-oauth-lib/oauth.c:226 | the four-byte write of a triple appends exactly the triple |
| `PercentCoding.EscapedCharacter` | src/share-oauth-lib/oauth.c:202-228 | exactly the 66 unreserved characters stay; every other is a percent sign and two upper-case digits |
| `PercentCoding.TripleOfDigits` | src/share-oauth-lib/oauth.c:255-262 | two digits of either case after a percent sign decode to their number |
| `PercentCoding.NoTriple` | src/share-oauth-lib/oauth.c:255-270 | any other character, and a percent sign before anything else, stands for itself |
| `Octets.StrcmpIs` | src/share-oauth-lib/oauth.c:606-616 | the contract of strcmp is the lexicographic order |
| `OAuthUrl.SerializeUrlSep` | src/share-oauth-lib/oauth.c:433-497 | the serialising loop writes the pieces of the array in order, for every start index, separator and mod; every text fits the block grown for it if and only if there is a separator or no base URL is written |
| `OAuthUrl.Strtok` | src/share-oauth-lib/oauth.c:361-362 | one token is a maximal run of non-delimiters, and the rest tokenises as before |
| `OAuthUrl.SpacesForPluses` | src/share-oauth-lib/oauth.c:358-359 | the in-place loop over strchr ends and replaces every plus by a space |
| `OAuthUrl.SplitPostParameters` | src/share-oauth-lib/oauth.c:351-401 | the splitting loop gives the decoded tokens in order without signatures, element 0 normalised; it does not return if and only if the very first token is a signature |
| `OAuthUrl.PathSlashExactly` | src/share-oauth-lib/oauth.c:375-382 | a URL counts as having a path if and only if a slash comes after something that is none, behind the colon of its scheme |
| `OAuthUrl.SignatureExactly` | src/share-oauth-lib/oauth.c:363 | the signature test ignores the case of letters and nothing else |
| `OAuthUrl.SpacesDecode` | src/share-oauth-lib/oauth.c:449-464 | the base URL is written without spaces, and decodes to itself if it has no percent sign |
| `OAuthUrl.OtherBits` | src/share-oauth-lib/oauth.c:365-369 | what the bits 2 and 4 of qesc do to a SOH and to element 0 |
| `OAuthRoundTrip.SplitSerialize` | src/share-oauth-lib/oauth.c:351-497 | splitting a serialised array gives its normalised base URL and then its parameters in order, signatures excepted; with and without reading pluses as spaces |
| `OAuthRoundTrip.RoundTripExactly` | src/share-oauth-lib/oauth.c:351-497 | for every absolute URL and all parameters, as a URL (qesc 1) and where there are post arguments (qesc 0), the splitter returns and gives the array back if and only if the URL has none of & ? space SOH, nor + where it is read as a space, has a path, names no :80/ and is no oauth_signature, and every parameter is an assignment and no oauth_signature |
| `OAuthRoundTrip.ParamsComeBack` | src/share-oauth-lib/oauth.c:351-497 | the parameters come back if and only if all are assignments and none is a signature: what has been lost or split is never made up for by a later one |
| `OAuthRoundTrip.BareIsLost` | src/share-oauth-lib/oauth.c:465-471 | a parameter without = is not among the elements that its written form is split into |
| `OAuthRoundTrip.FirstElementIsUrl` | src/share-oauth-lib/oauth.c:358-368 | element 0 is the URL again only if the URL has no delimiter and nothing that is rewritten |
| `OAuthRoundTrip.TokensOfQuery` | src/share-oauth-lib/oauth.c:433-497 | tokenising a query string gives exactly the written parameters |
| `OAuthRoundTrip.WireDecodes` | src/share-oauth-lib/oauth.c:465-489 | decoding a written assignment gives the assignment back |
| `OAuthRoundTrip.SignatureOnWire` | src/share-oauth-lib/oauth.c:363 | the signature test on the encoded token agrees with the test on the parameter |
| `OAuthRoundTrip.NormalBaseIsFixed` | src/share-oauth-lib/oauth.c:370-394 | exactly which absolute URLs the splitter leaves unchanged |
| `OAuthRoundTrip.ChangedBase` | src/share-oauth-lib/oauth.c:370-394 | what any other comes back as |
| `OAuthSelection.SerializeSelected` | src/share-oauth-lib/oauth.c:440-496 | every mode writes the parameters it selects, in order, with the separator between them |
| `OAuthSelection.SerializeWithUrl` | src/share-oauth-lib/oauth.c:440-496 | the whole array: the URL comes first in every mode, with its spaces encoded and a question mark |
| `OAuthSelection.OAuthNames` | src/share-oauth-lib/oauth.c:442-443 | the protocol parameters are those that begin with oauth_ or x_oauth_ |
| `OAuthSelection.ModesSplit` | src/share-oauth-lib/oauth.c:442-443 | modes 1 and 2 split the parameters: each is written by exactly one of them |
| `OAuthSelection.QuotedDetermines` | src/share-oauth-lib/oauth.c:477-481 | the quoted form determines its assignments, whatever the separator |
| `OAuthSignature.CmpStringP` | src/share-oauth-lib/oauth.c:587-624 | the comparator with its cut and restore of the escaped copies computes the comparison function |
| `OAuthSignature.CutAtMark` | src/share-oauth-lib/oauth.c:597-603 | overwriting the mark with NUL, =, = leaves the encoded name as the string |
| `OAuthSignature.RestoreMark` | src/share-oauth-lib/oauth.c:613-616 | after one character is put back the string at the mark is three = and the encoded value |
| `OAuthSignature.EqualsCodeMarksEquals` | src/share-oauth-lib/oauth.c:597-603 | the first %3D of an encoding is the first = of the text |
| `OAuthSignature.CmpParamIsKeyOrder` | src/share-oauth-lib/oauth.c:587-624 | the comparison is the order of section 3.4.1.3.2 of RFC 5849: by encoded name, then by encoded value |
| `OAuthSignature.ParamOrderIsTotal` | src/share-oauth-lib/oauth.c:587-624 | it is a total order and ties only equal strings |
| `OAuthSignature.ParamLeExactly` | src/share-oauth-lib/oauth.c:587-624 | one parameter may come before another if and only if its encoded name is smaller, or equal and it has no value or a smaller one |
| `OAuthSignature.CatEncode` | src/share-oauth-lib/oauth.c:304-326 | the variadic loop joins the encodings of its arguments with &, a null pointer counting as an empty string |
| `OAuthSignature.CatEncInjective` | src/share-oauth-lib/oauth.c:304-326 | the joined string determines the arguments and even their number |
| `OAuthBaseString.PrepareBaseString` | src/share-oauth-lib/oauth.c:770-809 | method, URL, and the sorted, serialised parameters are what is concatenated; without a method the string begins with POST& if there is a body and GET& otherwise, and with one it begins with the encoding of the method in upper case |
| `OAuthBaseString.BaseStringText` | src/share-oauth-lib/oauth.c:809 | the string is the encoded method, URL and query string with & between them |
| `OAuthBaseString.UpperExactly` | src/share-oauth-lib/oauth.c:773-776 | what is signed is the one text without lower-case letters that equals the method up to case |
| `OAuthBaseString.MethodIsSigned` | src/share-oauth-lib/oauth.c:770-777 | which method the string begins with, by whether one is given and whether there is a body |
| `OAuthBaseString.MethodsSignAlike` | src/share-oauth-lib/oauth.c:770-777 | two methods sign alike if and only if they differ in case only, and the default signs as if written out |
| `OAuthBaseString.SortedParamsCanonical` | src/share-oauth-lib/oauth.c:782-783 | two arrays sort to the same array exactly when their multisets are equal |
| `OAuthBaseString.QueryInjective` | src/share-oauth-lib/oauth.c:433-497 | a query string of assignments determines its parameters |
| `OAuthBaseString.QueryDeterminesWires` | src/share-oauth-lib/oauth.c:433-497 | a query string determines the written parameters, whatever the parameters are |
| `OAuthBaseString.WireEqual` | src/share-oauth-lib/oauth.c:465-489 | two parameters are written alike if and only if they are equal or aliases: a bare name and the assignment of nothing to the name it encodes |
| `OAuthBaseString.BaseStringExactly` | src/share-oauth-lib/oauth.c:770-809 | for all parameters: two base strings are equal if and only if method and URL are and the sorted parameters are, place by place, equal or aliases |
| `OAuthBaseString.BaseStringIdentifies` | src/share-oauth-lib/oauth.c:770-809 | if no two parameters are aliases, two base strings are equal if and only if method, URL and multiset of parameters are |
| `OAuthBaseString.BaseStringIdentifiesRequest` | src/share-oauth-lib/oauth.c:770-809 | in particular for parameters that all have an = |
| `OAuthBaseString.IdentifiedExactly` | src/share-oauth-lib/oauth.c:770-809 | requests over a set of parameters are told apart by what is signed if and only if the set holds no aliases |
| `OAuthBaseString.AliasesCollide` | src/share-oauth-lib/oauth.c:465-471 | every pair of aliases is signed alike |
| `OAuthBaseString.BaseStringIdentifiesNames` | src/share-oauth-lib/oauth.c:770-809 | the same up to writing a as a= where encoding does not change the name, if no aliases are left then |
| `OAuthBaseString.RawNamesCollide` | src/share-oauth-lib/oauth.c:465-471 | for example a%20b and "a b=" |
| `Base64.DecodeInterleaved` | src/share-oauth-lib/oauth.c:138-175 | any text whose base64 characters encode the bytes decodes to the bytes, whatever is interleaved |
| `Base64.DecodeOwnOutput` | src/share-oauth-lib/oauth.c:96-175 | in particular the encoder's own output |
| `Base64.EncodeLength` | src/share-oauth-lib/oauth.c:105-125 | the encoding of n bytes has 4*ceil(n/3) characters |
| `Base64.EncodedFits` | src/share-oauth-lib/oauth.c:102 | with its NUL it fits n*4/3+4, and fills it exactly when n mod 3 is 1 |
| `Base64.EncodeBase64` | src/share-oauth-lib/oauth.c:96-126 | the encoding loop writes the encoding and its NUL inside that block; for a size of 0 the data ends before its first zero byte |
| `Base64.DecodeBase64` | src/share-oauth-lib/oauth.c:138-175 | the decoding loops give the decoded bytes, their number and a closing zero |
| `Base64.DropOthers` | src/share-oauth-lib/oauth.c:149-154 | the first loop keeps exactly the base64 characters |
| `Base64.AlphabetAt` | src/share-oauth-lib/oauth.c:57-74 | the characters of the digits 0 to 63 are those of the table of RFC 4648, and decode to them |
| `Base64.KeptCharacters` | src/share-oauth-lib/oauth.c:79-86 | kept are the characters of that table and the padding |
| `Base64.GroupDigits` | src/share-oauth-lib/oauth.c:105-123 | the four characters of a group are the digits of the number its bytes make up |
| `Base64.ShortGroup` | src/share-oauth-lib/oauth.c:156-170 | characters that are missing at the end of the text count as zeros |
| `ShellQuote.EscapeShell` | src/share-oauth-lib/oauth_http.c:444-459 | the in-place loop of realloc, memmove and stores ends and equals replacing each tick in one pass |
| `ShellQuote.SpliceTick` | src/share-oauth-lib/oauth_http.c:449-453 | one round stays in the reallocated block and opens a gap of three after the tick |
| `ShellQuote.ShellReadsBack` | src/share-oauth-lib/oauth_http.c:444-459 | a POSIX shell reads the escaped string, between single quotes, as the original |
| `UsbDescriptor.ParseDescriptor` | src/share-daemon/dev/usb/descriptor.c:42-70 | the format-driven loop fills exactly the fields the format names and returns their width |
| `UsbSerializer.FieldsPack` | src/share-daemon/dev/usb/descriptor.c:42-70 | memory holds the packed values exactly when they are what is parsed |
| `UsbParser.SkipOthers` | src/share-daemon/dev/usb/descriptor.c:112-134 | the loop over class and vendor descriptors strictly shrinks size, rejects lengths below 2, and its pointer advance equals the drop in size |
| `UsbSerializer.SkippedIsExtra` | src/share-daemon/dev/usb/descriptor.c:112-134 | what it passes over is a run of non-standard descriptors that ends where it must |
| `UsbSerializer.SkipPasses` | src/share-daemon/dev/usb/descriptor.c:112-134 | and every such run is passed over completely |
| `UsbParser.ParseEndpointAt` | src/share-daemon/dev/usb/descriptor.c:78-156 | the endpoint parser accounts for exactly the bytes it takes, on every input |
| `UsbSerializer.EndpointParses` | src/share-daemon/dev/usb/descriptor.c:78-156 | the bytes of a well-formed endpoint parse to it |
| `UsbSerializer.ParsedEndpoint` | src/share-daemon/dev/usb/descriptor.c:78-156 | a well-formed endpoint that is parsed was in memory byte for byte |
| `UsbParser.ParseEndpointList` | src/share-daemon/dev/usb/descriptor.c:284-302 | the endpoint loop: list, pointer advance and drop in size agree |
| `UsbParser.ParseAltAt` | src/share-daemon/dev/usb/descriptor.c:198-303 | one pass of the interface loop: one alternate setting, and whether a foreign descriptor stops the interface |
| `UsbParser.ParseInterfaceAt` | src/share-daemon/dev/usb/descriptor.c:183-317 | the interface loop strictly shrinks size, returns what it took, and drops everything on an error |
| `UsbParser.ParseInterfaceList` | src/share-daemon/dev/usb/descriptor.c:361-419 | the configuration loop collects the interfaces and keeps the first extra bytes only |
| `UsbParser.ParseConfigurationAt` | src/share-daemon/dev/usb/descriptor.c:332-424 | on arbitrary bytes the result is wTotalLength minus the bytes consumed, or a negative code |
| `UsbRoundTrip.EndpointsParse` | src/share-daemon/dev/usb/descriptor.c:284-302 | the bytes of well-formed endpoints parse to them |
| `UsbRoundTrip.AltParses` | src/share-daemon/dev/usb/descriptor.c:198-303 | the bytes of a well-formed alternate setting parse to it |
| `UsbRoundTrip.InterfaceParses` | src/share-daemon/dev/usb/descriptor.c:183-317 | the bytes of a well-formed interface parse to it, all alternate settings in one group |
| `UsbRoundTrip.ConfigParses` | src/share-daemon/dev/usb/descriptor.c:332-424 | the bytes of a well-formed configuration parse to it |
| `UsbRoundTrip.ParsesExactly` | src/share-daemon/dev/usb/descriptor.c:332-424 | a well-formed configuration is what the parser returns if and only if memory holds its bytes, whatever lies beyond; nothing is then left over |
| `UsbRoundTrip.SerializeInjective` | src/share-daemon/dev/usb/descriptor.c:332-424 | different well-formed configurations have different bytes |
| `UsbErrors.SkipStopsAt` | src/share-daemon/dev/usb/descriptor.c:112-134 | the skipping loop stops before descriptors of type 1, 2, 4 and 5 and no others |
| `UsbErrors.SkipFailsExactly` | src/share-daemon/dev/usb/descriptor.c:112-134 | it fails if and only if, behind a run of other descriptors, it comes to a length below 2, or beyond the end where that is tested |
| `UsbErrors.CutShort` | src/share-daemon/dev/usb/descriptor.c:259-302 | an alternate setting is cut short if and only if a device or configuration descriptor follows its extra ones; it then has no endpoints, and otherwise all it announces, at most 32 |
| `UsbOverrun.SkipOverrun` | src/share-daemon/dev/usb/descriptor.c:112-134 | on arbitrary bytes the skipping loop overruns its buffer by less than one descriptor |
| `UsbOverrun.SkipInside` | src/share-daemon/dev/usb/descriptor.c:112-134 | it stays inside if and only if every descriptor it passes over fits in what is left |
| `UsbOverrun.BoundedSkipInside` | src/share-daemon/dev/usb/descriptor.c:371-392 | the loop of the configuration, which tests that, always stays inside |
| `UsbOverrun.EndpointInside` | src/share-daemon/dev/usb/descriptor.c:78-156 | an endpoint stays inside if and only if its extra descriptors do |
| `UsbOverrun.AltInside` | src/share-daemon/dev/usb/descriptor.c:198-303 | an alternate setting stays inside if and only if its own descriptor, its extra descriptors and its endpoints do |
| `UsbOverrun.InterfaceInside` | src/share-daemon/dev/usb/descriptor.c:183-317 | an interface stays inside if and only if its alternate settings do |
| `UsbOverrun.ConfigInside` | src/share-daemon/dev/usb/descriptor.c:332-424 | of the pointer: a successful parse leaves a non-negative rest if and only if every descriptor it moves past fits in what is left there |
| `UsbOverrun.WholeConfig` | src/share-daemon/dev/usb/descriptor.c:332-424 | the pointer of a successful parse never leaves bytes that are cut exactly into descriptors |
| `UsbOverrun.SkipOverrunInput` | src/share-daemon/dev/usb/descriptor.c:112-134 | two bytes left and a vendor descriptor that claims 255: it is passed over |
| `UsbOverrun.ConfigOverrunInput` | src/share-daemon/dev/usb/descriptor.c:332-424 | a configuration of 20 bytes whose parse returns -253 |
| `UsbOverrun.ConfigOverrun` | src/share-daemon/dev/usb/descriptor.c:332-424 | on arbitrary bytes a successful parse accounts for wTotalLength up to such an overrun |
| `UsbReads.ConfigLocal` | src/share-daemon/dev/usb/descriptor.c:332-424 | the parse, failing or not, depends on no byte beyond the address where reading ends |
| `UsbReads.ReadsInside` | src/share-daemon/dev/usb/descriptor.c:332-424 | reading ends inside wTotalLength if and only if the nine header bytes do, the descriptors passed over fit, and there is room for a header at each endpoint looked at, up to the error if there is one |
| `UsbReads.BufferDetermines` | src/share-daemon/dev/usb/descriptor.c:332-424 | under these tests two memories that agree on the buffer give the same parse |
| `UsbReads.EndpointsReadsInside` | src/share-daemon/dev/usb/descriptor.c:284-302 | the endpoint loop reads inside if and only if a header fits before each endpoint and its extra descriptors fit |
| `UsbReads.AltReadsInside` | src/share-daemon/dev/usb/descriptor.c:198-303 | an alternate setting reads inside if and only if its extra descriptors fit and its endpoints read inside, even where its own length passes the end |
| `UsbReads.WholeConfigEnd` | src/share-daemon/dev/usb/descriptor.c:332-424 | of bytes that are cut exactly into descriptors, nine or more, at most two bytes beyond are read |
| `UsbReads.MissingEndpointInput` | src/share-daemon/dev/usb/descriptor.c:284-302 | 18 such bytes with a missing endpoint: the pointer stays inside, yet two bytes behind decide between a parse with nothing left over and an error |
| `ByteOrder.WrapBytes` | src/share-daemon/bits/bits.c:526-586 | the two loops over the scratch array leave the wrapped field and touch nothing else; a big-endian host changes nothing |
| `ByteOrder.WrapReverses` | src/share-daemon/bits/bits.c:526-555 | from four bytes on, the whole words, at most 1024 of them, are reversed byte by byte and the tail stays |
| `ByteOrder.WrapShort` | src/share-daemon/bits/bits.c:538-545 | below two bytes nothing changes; for two and three the first two change places |
| `ByteOrder.WrapInvolution` | src/share-daemon/bits/bits.c:526-586 | wrapping twice is the identity for every length, so unwrap_bytes undoes wrap_bytes |
| `Wire.TableIsValid` | src/share-daemon/bits/bits.c:29-92 | whatever the operation, the fields that the table makes it wrap are disjoint and behind the header |
| `Wire.TableByNumber` | src/share-daemon/bits/bits.c:29-92 | the operations 2, 4, 16, 22 and 23 wrap their members, and no others wrap any |
| `Wire.WrapSpansInvolution` | src/share-daemon/bits/bits.c:614-630 | the receiver's tx_wrap undoes the sender's, for any disjoint fields |
| `Wire.WrapSpansInside` | src/share-daemon/bits/bits.c:614-630 | wrapping touches nothing outside the fields, whatever follows |
| `Wire.WrapSpansMove` | src/share-daemon/bits/bits.c:614-630 | a byte that one field moves comes from where that field takes it |
| `Connection.SharedBuffer.TxWrap` | src/share-daemon/bits/bits.c:614-630 | wrapping a transaction in place, field by field, over the rest of the block: contents and what lies behind them |
| `Connection.SchedTxPayload` | src/share-daemon/bits/schedule.c:30-57 | less than a header sends nothing; header, data and payload, wrapped in the buffer, are the frame if the structure is all there; if a field lies behind the contents but in the block, what is sent is wrapped with the bytes found there |
| `Reassembly.HeaderWords` | src/share-daemon/bits/transaction.c:243-261 | the receiver reads back the checksum, magic and size that prep_net_tx stored |
| `Connection.Receiver.Incoming` | src/share-daemon/sharedaemon_server.c:854-878 | what is read is appended to buff_in |
| `Connection.Receiver.CycleClientRequest` | src/share-daemon/sharedaemon_server.c:1005-1088 | one call: outcome and remaining buffer, for arbitrary bytes in the buffer and behind it in its block |
| `Reassembly.ReceiveFrame` | src/share-daemon/sharedaemon_server.c:1005-1088 | a complete frame at the front is taken off exactly and seen as it was sent |
| `Reassembly.ReceivePartial` | src/share-daemon/sharedaemon_server.c:1017-1037 | an incomplete frame consumes nothing |
| `Reassembly.FollowingBytes` | src/share-daemon/sharedaemon_server.c:1067-1086 | the bytes after an intact frame survive, whatever they are and whatever lies in memory behind them, if and only if the frame is refused or no wrapped field moves a byte among them |
| `Reassembly.AuthKeepsRest` | src/share-daemon/sharedaemon_server.c:1061-1086 | while AUTH is set they always survive |
| `Reassembly.SubscriptionSpares` | src/share-daemon/bits/subscribe.c:114-118 | of a subscription they survive if and only if they end before its two words or start behind them |
| `Reassembly.BareSubscription` | src/share-daemon/bits/subscribe.c:114-118 | a subscription that is a bare header: where each of the bytes left behind it comes from, the buffer or the memory beyond |
| `Reassembly.NextFrameChanged` | src/share-daemon/sharedaemon_server.c:1067-1086 | such a subscription reverses the bytes of each of the two words of the next frame's stamp |
| `Reassembly.PartialFrameChanged` | src/share-daemon/sharedaemon_server.c:1067-1086 | where two bytes of that stamp have arrived, they are replaced by bytes of the memory behind them |
| `Reassembly.ReceiveAny` | src/share-daemon/sharedaemon_server.c:1005-1088 | on arbitrary bytes: only an intact frame is taken, exactly its bytes go, under AUTH only an initialisation is dispatched, and what follows stays if the wrapped fields lie in what was sent |
| `Reassembly.VerdictsExactly` | src/share-daemon/sharedaemon_server.c:1047-1068 | a complete frame is dispatched if and only if its operation is known and is an initialisation or AUTH is clear; exactly when it is refused for which reason |
| `Reassembly.FrontExactly` | src/share-daemon/sharedaemon_server.c:1017-1045 | exactly when the front is waited for, and exactly when all that is buffered is thrown away |
| `Reassembly.RunTakesInOrder` | src/share-daemon/sharedaemon_server.c:1005-1088 | over every run of reads and cycles the frames taken are the first ones in order, and what is buffered is the rest |
| `Reassembly.CyclesDrain` | src/share-daemon/sharedaemon_server.c:1005-1088 | progress: with the whole stream buffered every cycle takes a frame |
| `Reassembly.ChunkingDoesNotMatter` | src/share-daemon/sharedaemon_server.c:1005-1088 | however the bytes are divided over reads, exactly the messages are taken, in order, with nothing left |
| `Daemon.ClientList.ClientFind` | src/share-daemon/sharedaemon_client.c:177-195 | the walk finds the first record with the key |
| `Daemon.ClientList.ClientInit` | src/share-daemon/sharedaemon_client.c:26-38 | a new record goes to the front, zeroed, and the others stay |
| `Daemon.ClientList.NetclientAdd` | src/share-daemon/sharedaemon_client.c:40-80 | exactly one record is added in front, registered unless it must authenticate or shut down |
| `Daemon.ClientList.HttpclientAdd` | src/share-daemon/sharedaemon_client.c:82-97 | exactly one HTTP record is added in front |
| `Daemon.ClientList.MsgclientInit` | src/share-daemon/sharedaemon_client.c:117-139 | one record is found or added, and its union is overwritten with the key |
| `Daemon.ClientList.AppJoin` | src/share-daemon/sharedaemon_app.c:29-61 | the peer is stored and a client that need not authenticate is registered |
| `Daemon.ClientList.TxopInitRecv` | src/share-daemon/bits/init.c:284-374 | records updated in place, result code and reply address, for every number and every aliasing of sender and found record |
| `Daemon.ClientList.VerifyClients` | src/share-daemon/sharedaemon_server.c:919-982 | the first loop over the list, with its inner loop over the later records |
| `Daemon.ClientList.RemoveClosed` | src/share-daemon/sharedaemon_server.c:984-1001 | the second loop takes off exactly the closed network clients |
| `Daemon.ClientList.CycleSocketVerify` | src/share-daemon/sharedaemon_server.c:905-1003 | the sweep as a whole leaves each client the fate that the records before it decide |
| `Clients.SweepKeepsOrder` | src/share-daemon/sharedaemon_server.c:905-1003 | the swept list is the old one, in order, without exactly the network clients whose descriptor is 0; what stays changed in descriptor and registration only |
| `Clients.SweepIsFates` | src/share-daemon/sharedaemon_server.c:905-1003 | the two loops, of which the first changes later records as it goes, compute a closed form: each client's fate depends on its own record and observation, and on whether a healthy client before it has its key |
| `Clients.SweepDecides` | src/share-daemon/sharedaemon_server.c:919-982 | a connected network client whose key no earlier one has is taken off if and only if its socket is broken, or writable while it was shutting down, or idle while it was not; otherwise it stays as it was |
| `Clients.DuplicateDecides` | src/share-daemon/sharedaemon_server.c:971-980 | a registered network client behind a healthy one with its key is taken off if and only if its socket is broken or writable; otherwise it is there, unregistered and shutting down |
| `Clients.OthersDecide` | src/share-daemon/sharedaemon_server.c:919-1001 | network clients without a socket leave the list, message clients stay as they were, HTTP clients never leave it |
| `Clients.SweepMakesUnique` | src/share-daemon/sharedaemon_server.c:905-1003 | after a sweep at most one active network client has any one key, and none is closed |
| `Clients.VerifyKeeps` | src/share-daemon/sharedaemon_server.c:919-982 | what the first loop may change of one record |
| `Handshake.InitRecvReply` | src/share-daemon/bits/init.c:284-374 | a reply carries the next number, at most 8, and the found record has risen strictly to it |
| `Handshake.InitRecvGrows` | src/share-daemon/bits/init.c:284-374 | no record's number falls, and AUTH goes only at 3 or 4, on the registered record of the sender's key |
| `Handshake.RecordAdvances` | src/share-daemon/bits/init.c:303-347 | which records an initialisation changes and how, by its number |
| `Handshake.AnswerExactly` | src/share-daemon/bits/init.c:316-373 | exactly which numbers are answered, with what and to whom, and exactly when which error is returned |
| `Handshake.NewNetFound` | src/share-daemon/sharedaemon_client.c:40-80 | a new network client is found under its key if and only if it need not authenticate first and is not shutting down |
| `Handshake.NewHttpNotFound` | src/share-daemon/sharedaemon_client.c:82-97 | a new HTTP client is never found |
| `Handshake.JoinedFound` | src/share-daemon/sharedaemon_client.c:117-139 | a new message client is found under its public key if and only if its announcement is accepted |
| `Handshake.JoinChanges` | src/share-daemon/sharedaemon_client.c:117-139 | what an announcement under a known key changes of that record |
| `Handshake.StepEvolves` | src/share-daemon/bits/init.c:284-374 | every event of the daemon: each record has grown or is new |
| `Handshake.StepKeepsInv` | src/share-daemon/sharedaemon_server.c:1055-1079 | every event keeps the invariant on records, replies and served operations |
| `Handshake.ReachableIsSafe` | src/share-daemon/sharedaemon_server.c:1055-1079 | in every reachable state replies for a record carry strictly increasing numbers of at most 8, and while AUTH was set only initialisations were served |
| `Handshake.NumbersNeverFall` | src/share-daemon/bits/init.c:303-315 | over every run a record's number never falls and AUTH is never set again |
| `Handshake.AuthClearedByHandshake` | src/share-daemon/bits/init.c:345-347 | AUTH is cleared by an initialisation with number 3 or 4 only, on the registered network client with its sender's key |
| `Handshake.GoneForGood` | src/share-daemon/sharedaemon_client.c:141-161 | a record that has left the list does not come back |
| `Handshake.ChainsEnd` | src/share-daemon/bits/init.c:366-373 | a chain in which each message answers the one before, in any states of any daemons, counts up and ends at 8 |
| `Handshake.JoinOverNetwork` | src/share-daemon/sharedaemon_client.c:117-139 | exactly which announcement of a message client would lower a number; only a registered network client whose private key is announced can suffer it |
| `Handshake.NumberLoweredInput` | src/share-daemon/sharedaemon_client.c:117-139 | a run after which such an announcement lowers a number from 1 to 0 |
| `Handshake.FaultsExactly` | src/share-daemon/bits/init.c:340-343 | the null pointer is followed if and only if an admitted initialisation carries number 2 and its sender has no record |
| `Handshake.FaultInput` | src/share-daemon/bits/init.c:340-343 | a run that gets there: a new connection that opens with number 2 |
| `Handshake.AuthClearedInput` | src/share-daemon/bits/init.c:345-347 | a run that clears AUTH: number 1, then number 3 |
| `CondVar.Condition.Broadcast` | src/share-daemon/dev/usb/threads_windows.c:106-118 | every waiter's event is set, once; the other records, both lists and the next record are as before |
| `CondVar.SetOnceUnique` | src/share-daemon/dev/usb/threads_windows.c:106-118 | that determines what is left |
| `CondVar.BroadcastRun` | src/share-daemon/dev/usb/threads_windows.c:106-118 | the steps of the state machine for one broadcast, without others in between, lead to exactly that |
| `CondVar.EnterExactly` | src/share-daemon/dev/usb/threads_windows.c:131-160 | a wait puts the thread's idle record, or a new unset one, before the other waiters, and changes nothing else |
| `CondVar.Condition.IntWaitEnter` | src/share-daemon/dev/usb/threads_windows.c:131-160 | the thread's idle record, or a new one, goes to the front of waiters |
| `CondVar.Condition.IntWaitLeave` | src/share-daemon/dev/usb/threads_windows.c:166-167 | the record goes back to not_waiting |
| `CondVar.NextKeepsInv` | src/share-daemon/dev/usb/threads_windows.c:106-171 | every step of every thread keeps the invariant, timeouts and late broadcasts included |
| `CondVar.ReachableLists` | src/share-daemon/dev/usb/threads_windows.c:131-171 | in every reachable state a thread has at most one record, on exactly one list, and on waiters exactly while it waits |
| `CondVar.EventStaysSet` | src/share-daemon/dev/usb/threads_windows.c:106-171 | a set event stays set until its own thread's wait takes it |
| `CondVar.NoLostBroadcast` | src/share-daemon/dev/usb/threads_windows.c:106-171 | a record on waiters when a broadcast starts has its event set by it and kept set, over every interleaving, until its own wait takes it |
| `CondVar.BlockedIsWoken` | src/share-daemon/dev/usb/threads_windows.c:162-163 | a thread blocked when a broadcast starts can after it only be woken: its wait can succeed and cannot time out |
| `CondVar.BroadcastBounds` | src/share-daemon/dev/usb/threads_windows.c:106-118 | a broadcast is due to all of waiters when it starts and to nobody when it ends |
| `CondVar.WakesArePaidFor` | src/share-daemon/dev/usb/threads_windows.c:106-171 | no wait succeeds without a SetEvent of its own |
| `CondVar.EventSetSinceLastWait` | src/share-daemon/dev/usb/threads_windows.c:106-171 | in every reachable state a record's event is set if and only if it was set after its last wait ended |
| `CondVar.LateEventEndsNextWait` | src/share-daemon/dev/usb/threads_windows.c:162-169 | a thread's next wait finds its event set if and only if a broadcast set it after the last wait ended, successfully or not |
| `CondVar.SecondBroadcastIsStale` | src/share-daemon/dev/usb/threads_windows.c:106-171 | a run in which no wait times out and the event is left set: two broadcasts before the woken thread has the mutex |
| `DeviceRefs.Context.Ref` | src/share-daemon/dev/usb/core.c:838-845 | one reference more, and the counts still agree with the references held |
| `DeviceRefs.Context.Unref` | src/share-daemon/dev/usb/core.c:852-876 | one less; the device leaves the list exactly with the last one |
| `DeviceRefs.Context.AllocDevice` | src/share-daemon/dev/usb/core.c:526-552 | a new device is listed with one reference |
| `DeviceRefs.Context.DeviceBySession` | src/share-daemon/dev/usb/core.c:582-601 | a listed device of the session, if there is one |
| `DeviceRefs.Context.Append` | src/share-daemon/dev/usb/core.c:487-512 | a discovered device is referenced once, and not at all where growing fails |
| `DeviceRefs.Context.ProcessNewDevice` | src/share-daemon/dev/usb/darwin_usb.c:694-767 | the backend's own reference is gone however the attempt ends; the device is kept if and only if it is usable, known or allocated, and there is room; no session gets a second device |
| `DeviceRefs.Context.Discover` | src/share-daemon/dev/usb/darwin_usb.c:779-783 | which of a run of probes, whose results are ignored, give a device |
| `DeviceRefs.Context.GetDeviceList` | src/share-daemon/dev/usb/core.c:619-658 | every count is conserved on success and on all three failures; the list holds the sessions of exactly the probes that give a device, in order, and of all of them if none is unusable or short of memory |
| `DeviceRefs.Context.FreeDeviceList` | src/share-daemon/dev/usb/core.c:665-679 | the list's references go, or pass to the caller when it asks to keep them |
| `DeviceRefs.Context.RefDevice` | src/share-daemon/dev/usb/core.c:838-845 | conservation for an explicit reference |
| `DeviceRefs.Context.UnrefDevice` | src/share-daemon/dev/usb/core.c:852-876 | conservation, and the device stays listed exactly when others still hold it |
| `DeviceRefs.Context.Open` | src/share-daemon/dev/usb/core.c:941-987 | one reference per open handle; each of the failed opens leaves every count as it was |
| `DeviceRefs.Context.DoClose` | src/share-daemon/dev/usb/core.c:1082-1096 | the handle leaves open_devs and its reference goes |
| `DeviceRefs.Context.Close` | src/share-daemon/dev/usb/core.c:1110-1162 | the same on both paths of the pipe write, with pollfd_modify back where it was |
| `DeviceRefs.Context.FdNotification` | src/share-daemon/dev/usb/core.c:882-920 | pollfd_modify is balanced on both paths |
| `DeviceRefs.Context.OpenDeviceWithVidPid` | src/share-daemon/dev/usb/core.c:1006-1039 | over listing, opening and freeing, exactly the handle's reference remains; without a handle none does |
| `DeviceRefs.FindByIds` | src/share-daemon/dev/usb/core.c:1019-1030 | the loop stops at the first device with the identifiers, or at an unreadable descriptor |
| `DeviceRefs.DiscoveredStep` | src/share-daemon/dev/usb/darwin_usb.c:779-783 | one probe is added to those listed, or not |
| `DeviceRefs.ListedUnique` | src/share-daemon/dev/usb/darwin_usb.c:694-783 | which probes are listed is determined: a probe is missing if and only if it is unusable, or its session was unknown and allocation failed, or a full block could not grow |
| `DeviceRefs.AllListed` | src/share-daemon/dev/usb/darwin_usb.c:694-783 | if no probe is unusable or short of memory, all are listed, whatever is listed already |
| `RefClock.RingAppends` | src/share-daemon/dev/dev_clock.c:224-232 | storing behind the newest sample appends it, and loses all exactly when 59 are pending |
| `RefClock.RefClockProc.AddOffset` | src/share-daemon/dev/dev_clock.c:224-232 | the ring refines a FIFO queue: exactly when fewer than 59 are pending the sample is appended |
| `RefClock.RefClockProc.Drain` | src/share-daemon/dev/dev_clock.c:104-109 | the first loop yields exactly the pending samples in order of arrival, at most 59, and empties the queue |
| `RefClock.SortedIsSorted` | src/share-daemon/dev/dev_clock.c:70-81 | what qsort leaves is an ascending permutation |
| `RefClock.RejectPass` | src/share-daemon/dev/dev_clock.c:123-129 | one pass of the rejecting loop, with every index inside the window |
| `RefClock.RejectLoop` | src/share-daemon/dev/dev_clock.c:120-130 | the loop ends with a non-empty window |
| `RefClock.RejectDropsFarthest` | src/share-daemon/dev/dev_clock.c:123-129 | one pass drops the highest sample where the median exceeds disp, and one at least as far from the median as every sample it keeps |
| `RefClock.TrimDropsFarthest` | src/share-daemon/dev/dev_clock.c:120-130 | over the whole loop every sample not left at the end was dropped by a pass over a window that the loop comes to, by distance from the median of that window or by the ceiling |
| `RefClock.DroppedSamples` | src/share-daemon/dev/dev_clock.c:104-130 | the same of the pending samples, once sorted |
| `RefClock.ReachedBetween` | src/share-daemon/dev/dev_clock.c:120-130 | the windows the loop comes to are non-empty, lie between its first and its last, and lead to the same last one |
| `RefClock.LowMediansSuffice` | src/share-daemon/dev/dev_clock.c:120-130 | no sample too many is dropped unless one order statistic, the highest possible last median, exceeds disp |
| `RefClock.HighMediansAlternate` | src/share-daemon/dev/dev_clock.c:120-130 | if the lowest possible last median exceeds disp every pass drops two, so parity decides |
| `RefClock.RemainingCount` | src/share-daemon/dev/dev_clock.c:120-130 | the quota remains if the high median is not above disp; if even the low median is, one less exactly when an odd number is to be dropped; in between, one less exactly when the loop meets a median above disp one sample above the quota |
| `RefClock.OffsetIsMean` | src/share-daemon/dev/dev_clock.c:137-143 | dividing by the quota gives the mean of what remains if and only if the quota remains or the sum is zero; on the samples, always if the high median is not above disp, and by parity if the low median is |
| `RefClock.SumConcat` | src/share-daemon/dev/dev_clock.c:137-141 | the sum over two runs of samples is that of their sums, so that it is the sum |
| `RefClock.StepsConcat` | src/share-daemon/dev/dev_clock.c:137-141 | the squared steps likewise, with the one in between |
| `RefClock.StepsSign` | src/share-daemon/dev/dev_clock.c:137-141 | they are never negative, and zero if and only if all samples are equal |
| `RefClock.MeanCentres` | src/share-daemon/dev/dev_clock.c:137-143 | from the mean the deviations cancel, and it lies between the lowest and the highest sample |
| `RefClock.OffsetCentres` | src/share-daemon/dev/dev_clock.c:120-143 | where the quota remains, that is so of the offset reported |
| `RefClock.OffsetOfTwo` | src/share-daemon/dev/dev_clock.c:104-143 | of two samples, the offset is half their sum and the squared step that of their difference |
| `RefClock.CeilingHalvesOffset` | src/share-daemon/dev/dev_clock.c:120-143 | three equal samples of 5 above the ceiling are reported as 2.5 |
| `RefClock.RefClockProc.Sample` | src/share-daemon/dev/dev_clock.c:94-147 | offset and jitter are those of the samples kept from the pending ones; an empty ring changes neither; where the quota remains, the offset is centred among the samples |
| `FixedPoint.LFp.Add` | src/share-daemon/dev/ntp_fp.h:135-140 | addition modulo 2^64, also of a number to itself |
| `FixedPoint.LFp.Sub` | src/share-daemon/dev/ntp_fp.h:156-161 | subtraction modulo 2^64 |
| `FixedPoint.LFp.Neg` | src/share-daemon/dev/ntp_fp.h:123-127 | negation modulo 2^64 |
| `FixedPoint.LFp.AddF` | src/share-daemon/dev/ntp_fp.h:194-201 | adding any signed 32-bit fraction, modulo 2^64 |
| `FixedPoint.LFp.AddUf` | src/share-daemon/dev/ntp_fp.h:188-189 | adding an unsigned fraction, modulo 2^64 |
| `FixedPoint.LFp.SubUf` | src/share-daemon/dev/ntp_fp.h:191-192 | subtracting one |
| `FixedPoint.LFp.RShiftU` | src/share-daemon/dev/ntp_fp.h:163-167 | halving of the unsigned value |
| `FixedPoint.LFp.RShift` | src/share-daemon/dev/ntp_fp.h:169-173 | halving of the signed value, rounded towards minus infinity |
| `FixedPoint.LFp.LShift` | src/share-daemon/dev/ntp_fp.h:175-179 | doubling modulo 2^64 |
| `FixedPoint.ThreeWords.Add` | src/share-daemon/dev/ntp_fp.h:142-154 | addition modulo 2^96 despite two carry points, exactly unless a number with a carrying fraction is added to itself |
| `FixedPoint.ThreeWordSum` | src/share-daemon/dev/ntp_fp.h:142-154 | the only three words that are the sum modulo 2^96 |
| `FixedPoint.ThreeWords.LShift` | src/share-daemon/dev/ntp_fp.h:181-186 | doubling modulo 2^96 |
| `FixedPoint.IsNeg` | src/share-daemon/dev/ntp_fp.h:203-204 | the sign test agrees with two's complement |
| `FixedPoint.IsGt` | src/share-daemon/dev/ntp_fp.h:206-208 | the flipped comparison is the signed order |
| `FixedPoint.IsGeq` | src/share-daemon/dev/ntp_fp.h:218-220 | so is its weak form |
| `FixedPoint.IsGtU` | src/share-daemon/dev/ntp_fp.h:210-212 | the unsigned order |
| `FixedPoint.IsHis` | src/share-daemon/dev/ntp_fp.h:214-216 | and its weak form |
| `FixedPoint.IsEqu` | src/share-daemon/dev/ntp_fp.h:222-223 | equality of values |
| `FixedPoint.FpToLfpKeepsValue` | src/share-daemon/dev/ntp_fp.h:111-112 | widening keeps the value exactly |
| `FixedPoint.LfpToFpInverts` | src/share-daemon/dev/ntp_fp.h:106-112 | narrowing undoes widening on every 32-bit value |
| `FixedPoint.LfpToFpSaturates` | src/share-daemon/dev/ntp_fp.h:106-109 | narrowing is the clamped floor if and only if the integral part is in range or at least 65536 in magnitude; in between it wraps |
| `FixedPoint.LfpToFpWraps` | src/share-daemon/dev/ntp_fp.h:106-109 | 32768 seconds become the most negative short number |
| `Sorting.SortPermutes` | src/share-oauth-lib/oauth.c:782-783 | the contract of qsort: a permutation |
| `Sorting.SortSorts` | src/share-oauth-lib/oauth.c:782-783 | and sorted |
| `Sorting.SortedUnique` | src/share-oauth-lib/oauth.c:782-783 | under a total order there is only one sorted permutation |

## Left out

- Sockets, `select`, message queues, serial and USB transfers, curl, shell execution, templates and session maps: plumbing without a property of its own; `select` and idle times are inputs of the sweep.
- `broadcast_raw`, the ledger, `pstore`, `tx_confirm` and `tx_recv`: not part of this model; a dispatched transaction is the end of the receiving path.
- Hashes, HMAC, RSA and proof of work: the checksum is a parameter, the rest is not part of this model.
- The OAuth protocol parameters (nonce, time stamp) and the final signature; only the string that is signed is modelled.
- Allocation failures, except those on which reference counts depend; failures to create a mutex or an event.
- OAuthUrl.SplitPostParameters: does not model the NULs that `strtok` writes; texts are sequences here.
- OAuthUrl.SerializeUrlSep: the text is a sequence, of whose block only the size is modelled.
- Base64.EncodeBase64: does not model overflow of int.
- Connection.SchedTxPayload: promises nothing of the contents where a field lies beyond the block; the code then writes memory that is not modelled.
- Connection.Receiver.CycleClientRequest: promises nothing of the remaining buffer where a field lies beyond the block, and ends where a handler begins.
- Reassembly.ChunkingDoesNotMatter: as far as wrapping goes; a handler that is given less than its operation's structure may write behind it, which is not modelled.
- UsbDescriptor.ParseDescriptor: does not model the alignment of the structure it fills; fields are a list of values.
- Handshake.ReachableIsSafe: does not say who the peer of a record is, because prep_init_tx overwrites the announced peer before it is stored; the subscriptions and notifications sent at numbers 5 to 8 are not modelled.
- Handshake.NumbersNeverFall: runs end where the code follows a null pointer, and leave out the announcements that lower a number.
- Daemon.ClientList.NetclientAdd: does not model the initialisation message that a client which need not authenticate is sent.
- Daemon.ClientList.TxopInitRecv: does not model the subscription of numbers 5 and 6 and the app notification of 7 and 8.
- Daemon.ClientList.RemoveClosed: the list is a sequence, so the relinking through the previous record is not modelled.
- DeviceRefs.Context.Unref: the count and the list change in one step; the time between the two locks is not modelled.
- CondVar.NextKeepsInv: does not model usbi_cond_signal, usbi_cond_destroy and the static spin lock.
- DeviceRefs.Context.DoClose: does not model the removal of transfers in flight for the handle.
- DeviceRefs.Context.ProcessNewDevice: does not model reading the descriptors of the device; one flag says whether the device is usable.
- RefClock.RefClockProc.Sample: does not model rounding; samples are reals, and the square root is a parameter.
- `M_DTOLFP` and `M_LFPTOD`: floating-point rounding.
- `oauth_time_independent_equals_n`: a single loop whose contract is equality of its arguments.
