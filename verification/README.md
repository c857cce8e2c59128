# Network time synchronisation: NIST daytime and SNTP clients

A Dafny model of the core of a Unity time-sync library. The library fetches an
authoritative UTC time once and then answers "what time is it on the network"
without touching the network again. It has two interchangeable clients:

- `CustomTime` reads the fixed-width text a NIST server sends over the Daytime
  Protocol (RFC 867). It tries a fixed list of server addresses in order and falls
  back to the system clock when none answers well.
- `MSTime` sends a 48-byte SNTP client request (section 4 of RFC 2030) to
  `time.windows.com`. It decodes the 64-bit transmit timestamp of the reply
  (section 3 of RFC 2030) into whole milliseconds after 1900-01-01.

Both clients store the result in the same three fields: a flag, the network time
as milliseconds after 1970, and the local game-time reading taken when the fetch
finished. Reads return the system clock until the flag is set.

Modules:

- `Calendar` models `System.DateTime`. An `Instant` is a whole number of
  milliseconds since 0001-01-01T00:00:00, so `DateTime.MinValue` is 0. The
  constructor `new DateTime(y, mo, d, h, mi, s)` becomes `MakeDateTime`, which
  yields `None` where the constructor throws.
- `Decimal` models `int.Parse` on digit strings, and its inverse `FormatNat`.
- `CustomTime` holds the daytime parser, the first-success walk over `Servers` and
  the daytime initialisation.
- `MSTime` holds the SNTP request, the timestamp decoder, the two fallbacks to the
  system clock and the SNTP initialisation. The two four-byte accumulator loops of
  the decoder differ only in their start offset, so the model runs one loop,
  `ReadWord`, at offset 40 and again at offset 44.
- `Anchor` holds the flag and the two stored fields as one class, `SyncAnchor`.
  The two source classes repeat these fields word for word, so the model defines
  them once. `BeginInit` is the part of `_AsyncInit` that runs before the fetch is
  awaited. `CompleteInit` is the part that runs after it.

The network is a parameter everywhere:
- For a daytime host, it is a total function from host name to `Option<string>`.
  `None` means the socket failed; otherwise the value is the text read until the
  server closed the connection.
- For SNTP, it is the DNS result (`None` when the lookup throws) and the received
  datagram (`None` when a socket call throws).
- The system clock `DateTime.UtcNow` and the local game-time reading are
  parameters too.

Notes on the code's behaviour, which the model keeps as written:

- The year switch is strict: `jd > 51544`. Day 51544 is 2000-01-01, so the line a
  server sends on that day (year `00`) parses to 1900-01-01. The model proves this
  in `CustomTime.CenturyDayKeepsNineteenHundreds`. A line for day 51544 with year
  `20` gives 1920-01-01, not 2020-01-01.
- A read after sync returns 1970 + stored stamp + stored local reading. It does
  not add the time elapsed since the sync, so it stays the same while the local
  clock advances (`Anchor.SyncedReadIgnoresClock`).
- The code has no "reply too short" error. `Receive` writes the datagram over the
  front of the 48-byte request buffer. A reply of 40 bytes or fewer therefore
  leaves the zero bytes of the request at offsets 40 to 47 and decodes to
  1900-01-01 (`MSTime.ShortReplyDecodesToEpoch`).
- The code has one branch for "too short" and "no signature", so the model has
  one error, `NoSignature`, for both. The second length test (`Length < 31`) can
  never fail once the first has passed. The model keeps it as written.
- If the DNS lookup throws, the exception is raised outside the `try`. It ends the
  background initialisation after the flag has been cleared, so reads stay on the
  system clock (`MSTime.AsyncInit`).

## Model

| member | source | states |
|---|---|---|
| `Calendar.MakeDateTime` | Runtime/CustomTime.cs:182 | the constructor yields an instant exactly when the six fields form a valid date-time, and that instant lies inside its own year |
| `Calendar.MillisWithinYear` | Runtime/CustomTime.cs:182 | a valid date-time falls between January 1st of its year and January 1st of the next |
| `Calendar.MillisMonotone` | Runtime/CustomTime.cs:182 | the constructor is strictly monotone in the lexicographic order of its fields, so distinct dates give distinct instants |
| `Calendar.YearStartMonotone` | Runtime/CustomTime.cs:177-182 | later years start strictly later |
| `Calendar.JanuaryMidnight` | Runtime/CustomTime.cs:182 | midnight on January 1st is the start of its year, and midnight on January 2nd one day later |
| `Calendar.EpochValues` | Runtime/CustomTime.cs:31 | the 1970 epoch, the 1900 origin of NTP and the start of 2100 are the expected day counts from year 1 |
| `Decimal.ParseNat` | Runtime/CustomTime.cs:163-169 | a field parses exactly when it is a non-empty digit string, and its value is the decimal value of those digits, below 10 to the field width |
| `Decimal.ParseFormat` | Runtime/CustomTime.cs:163-169 | parsing a zero-padded number of the field's width gives the number back |
| `Decimal.FormatDecimal` | Runtime/CustomTime.cs:163-169 | every digit string is the zero-padded form of its own value |
| `CustomTime.PromoteYear` | Runtime/CustomTime.cs:177-180 | the promoted year lies in 1900..2099, keeps the two digits, and is in the 2000s exactly when the Julian day is strictly above 51544 |
| `CustomTime.Field` | Runtime/CustomTime.cs:163-169 | a fixed-offset field parses exactly when it is all digits, to the decimal value of the column; otherwise it fails as non-numeric |
| `CustomTime.ParseFields` | Runtime/CustomTime.cs:163-169 | the parse succeeds exactly when all seven columns are digits, and then returns their decimal values, each fitting its column; otherwise it fails as non-numeric |
| `CustomTime.ParseDaytime` | Runtime/CustomTime.cs:149-182 | a line shorter than 47 or without `UTC(NIST)` at offset 38 is rejected first; a signed line whose offset-30 digit is not `0` is degraded; a signed healthy line with a non-digit in a numeric column is non-numeric; success implies all three checks passed, a Julian day of at least 15020 and the constructor's instant for the parsed fields |
| `CustomTime.FieldsRoundTrip` | Runtime/CustomTime.cs:163-169 | the numeric columns of a well-formed NIST line parse back to the fields written into them |
| `CustomTime.ColumnsDecide` | Runtime/CustomTime.cs:150-169 | two responses of at least 47 characters that agree on columns 1 to 46 parse alike, whatever comes before or after |
| `CustomTime.ParseFormattedLine` | Runtime/CustomTime.cs:149-182 | on every formatted NIST line: non-zero health is degraded, a day before 15020 is rejected, otherwise the result is the promoted date-time or an invalid-date failure |
| `CustomTime.ParseFormatted` | Runtime/CustomTime.cs:134-182 | the same for every response that carries a record in columns 1 to 46, whatever its first character and whatever follows the signature |
| `CustomTime.NonNumericResponse` | Runtime/CustomTime.cs:163-169 | a signed healthy response with a non-digit in a numeric column is non-numeric, so the server's result is MinValue |
| `CustomTime.SuccessfulParseInRange` | Runtime/CustomTime.cs:171-182 | a successful result has a Julian day of at least 15020, lies in 1900..2099, and is in the 1900s up to and including day 51544 and in the 2000s after it |
| `CustomTime.PromotedYearRange` | Runtime/CustomTime.cs:177-182 | an instant inside the promoted year lies in 1900..2099, before 2000 when the Julian day is at most 51544 and from 2000 on when it is above |
| `CustomTime.ParseGoodLine` | Runtime/CustomTime.cs:163-182 | a healthy response carrying a record from 1900 on with a valid date parses to that date at zero sub-second precision |
| `CustomTime.JulianDayBeforeFloor` | Runtime/CustomTime.cs:171-175 | a response for day 15019 is rejected as before 1900 |
| `CustomTime.JulianDayAtFloor` | Runtime/CustomTime.cs:171-175 | a response for day 15020, 1900-01-01, is accepted and gives 1900-01-01T00:00:00 |
| `CustomTime.CenturyDayKeepsNineteenHundreds` | Runtime/CustomTime.cs:177-180 | a response for day 51544 with year `00` gives 1900-01-01, because the switch is strict |
| `CustomTime.DayAfterCenturyTakesTwoThousands` | Runtime/CustomTime.cs:177-178 | a response for day 51545 with year `00` gives 2000-01-02 |
| `CustomTime.DegradedLine` | Runtime/CustomTime.cs:156-161 | a response carrying a record with any health digit other than 0 is degraded |
| `CustomTime.NistTime` | Runtime/CustomTime.cs:99-107 | one server's result is later than MinValue exactly when the host answered and its text parses, and it then lies in 1900..2099 |
| `CustomTime.FirstSuccess` | Runtime/CustomTime.cs:96-114 | every server before the returned position fails and the server at it succeeds |
| `CustomTime.GetTime` | Runtime/CustomTime.cs:92-122 | the result is the first successful server's time in list order, or the system clock when none succeeds; `lastHost` names that server or is empty; only the servers up to it are contacted |
| `CustomTime.AllServersFail` | Runtime/CustomTime.cs:116-120 | when every server fails the synchronised time is the system clock |
| `CustomTime.LaterServersIgnored` | Runtime/CustomTime.cs:109-113 | what the servers after the first success would answer does not change the result |
| `CustomTime.AsyncInit` | Runtime/CustomTime.cs:65-71 | the flag ends up set, with the stamp of GetTime's result and the local reading stored |
| `Anchor.StampOf` | Runtime/CustomTime.cs:69 | the stamp of an instant from 1970 on is its distance from 1970 in milliseconds |
| `Anchor.SyncAnchor.constructor` | Runtime/CustomTime.cs:36-43 | a new anchor is not initialised |
| `Anchor.SyncAnchor.NetworkUtcTime` | Runtime/CustomTime.cs:48-50 | unsynchronised reads are the system clock; synchronised reads are 1970 plus the stamp plus the stored local reading |
| `Anchor.SyncAnchor.BeginInit` | Runtime/CustomTime.cs:67 | the flag is cleared first and the stored fields are untouched |
| `Anchor.SyncAnchor.CompleteInit` | Runtime/CustomTime.cs:69-71 | both fields are stored and the flag is set |
| `Anchor.UnsyncedReadIsSystemClock` | Runtime/MSTime.cs:29-31 | before the flag is set a read returns the system clock it is given |
| `Anchor.SyncedReadIgnoresClock` | Runtime/MSTime.cs:29-30 | after the flag is set two reads agree whatever the system clock shows |
| `Anchor.SyncedReadIsFetchPlusReading` | Runtime/MSTime.cs:44-48 | after synchronising on an instant from 1970 on, reads give that instant plus the local reading stored with it |
| `MSTime.RequestIsVersion3Client` | Runtime/MSTime.cs:94-97 | the request is 48 bytes: leap indicator 0, version 3, mode 3 (client), then 47 zero bytes |
| `MSTime.BigEndian` | Runtime/MSTime.cs:106-110 | the accumulated value of n bytes is below 256 to the n, so four bytes give a 32-bit value |
| `MSTime.BigEndianOfBytes` | Runtime/MSTime.cs:102-110 | decoding the big-endian bytes of a value that fits gives the value back |
| `MSTime.BytesOfBigEndian` | Runtime/MSTime.cs:102-110 | encoding the decoded value of a byte string gives the bytes back |
| `MSTime.TimestampMillisParts` | Runtime/MSTime.cs:112-115 | the fraction adds less than 1000 ms, the whole seconds are exactly `intpart`, and neither the ulong result nor the tick count overflows |
| `MSTime.TimestampMonotone` | Runtime/MSTime.cs:112-118 | a lexicographically later (seconds, fraction) pair never gives fewer milliseconds |
| `MSTime.ReceiveInto` | Runtime/MSTime.cs:99-100 | the received bytes replace the front of the buffer and the rest of the request stays |
| `MSTime.NewRequest` | Runtime/MSTime.cs:94-97 | the new buffer holds exactly the client request |
| `MSTime.ReadWord` | Runtime/MSTime.cs:106-110 | the four-byte accumulation is the big-endian value of the four bytes from the offset on, below 2^32 |
| `MSTime.GetNetworkTime` | Runtime/MSTime.cs:88-121 | the buffer sent is the client request; the result is 1900-01-01 plus the decoded transmit timestamp of the buffer after receipt, within 2^32 seconds of 1900 |
| `MSTime.DecodeEncodedTimestamp` | Runtime/MSTime.cs:102-118 | a packet carrying seconds and fraction at bytes 40 to 47 decodes to 1900 plus their millisecond value |
| `MSTime.ZeroTimestampIsEpoch` | Runtime/MSTime.cs:115-118 | an all-zero transmit timestamp decodes to exactly 1900-01-01T00:00:00 |
| `MSTime.ShortReplyDecodesToEpoch` | Runtime/MSTime.cs:94-110 | a reply of at most 40 bytes decodes to 1900-01-01, because the request's zero bytes stay in the buffer |
| `MSTime.Timestamp2020` | Runtime/MSTime.cs:112-118 | 3786825600 seconds with no fraction decodes to 2020-01-01T00:00:00 |
| `MSTime.GetMSTime` | Runtime/MSTime.cs:57-81 | a throwing lookup escapes; an empty address list or a socket failure gives the system clock; otherwise the decoded reply |
| `MSTime.AsyncInit` | Runtime/MSTime.cs:42-48 | the flag ends up set exactly when the lookup did not throw; the stamp and local reading are then stored, and otherwise the old fields remain |

## Left out

- Sockets, TCP, UDP and DNS (`TcpClient`, `StreamReader.ReadToEnd`, `Dns.GetHostEntry`, `Socket.Connect/Send/Receive/Close`): replaced by the per-host outcome, the DNS result and the received datagram passed as parameters.
- Background execution (`async void`, `Task.Run`): each `AsyncInit` runs as one synchronous step. Readers running alongside it are not modelled; `BeginInit` and `CompleteInit` give the two states they could see.
- Floating point: `TotalMilliseconds` (a double) and `Time.realtimeSinceStartup * 1000` (a float) cast to `ulong`. The local reading is a natural number of milliseconds given by the caller.
- Anchor.StampOf: for an instant before 1970, the cast of a negative double to `ulong` is not specified by C#; the model saturates it to 0, as recent .NET runtimes do.
- Anchor.SyncAnchor.NetworkUtcTime: `AddMilliseconds` takes a double and throws past `DateTime.MaxValue`; the model adds exact unbounded integers.
- `NetworkLocalTime`: it depends on the host's time-zone conversion (`TimeZone.CurrentTimeZone.ToLocalTime`), which is not part of this model.
- Decimal.ParseNat: `int.Parse` also accepts surrounding white space and a sign; the model accepts digit strings only, so such fields count as non-numeric.
- Calendar.MakeDateTime: `DateTime` counts 100-nanosecond ticks. The model counts whole milliseconds, so the sub-millisecond part of `DateTime.UtcNow` is not represented.
- No socket call has a time-out: `ReadToEnd` waits until the daytime server closes the connection, and `Receive` waits until a datagram arrives. A silent server or a lost reply leaves `_AsyncInit` suspended for good with the flag cleared. The model receives every outcome as a parameter, so `CustomTime.AsyncInit` and `MSTime.AsyncInit` always complete, and this non-termination is not represented.
- C# `Length` and `Substring` count UTF-16 code units, while a Dafny `string` counts Unicode scalar values. A response with a character outside the Basic Multilingual Plane before offset 47 shifts the columns in C# but not in the model; the model treats such a response as if each character took one code unit.
- `Debug.Log` and `Debug.LogError`: logging only.
- `Runtime/Demo/Demo.cs`: a demo component that prints the time each second.
- `Runtime/INTPTime.cs`: the interface the two clients implement; it has no behaviour of its own.
- The address that `_GetMSTime` connects to (the first one DNS returns, on port 123) is not represented; only whether the list is empty matters.
