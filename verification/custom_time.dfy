/**
 * The NIST daytime client: the parser of the fixed-width text a NIST server sends
 * over the Daytime Protocol (RFC 867), the first-success walk over the server list,
 * and the initialisation that stores the result in the anchor.
 *
 * A NIST line reads `JJJJJ YR-MO-DA HH:MM:SS TT L H msADV UTC(NIST) *` after a leading
 * newline, so the Modified Julian Day starts at offset 1, the health digit H sits at
 * offset 30 and the signature at offset 38.
 */
module CustomTime {
  import opened Wrappers
  import opened Calendar
  import opened Decimal
  import opened Anchor

  const Signature: string := "UTC(NIST)"

  /** Modified Julian Day of 1900-01-01: earlier days are rejected. */
  const FirstMjd: nat := 15020

  /** Modified Julian Day of 2000-01-01: only days strictly after it take the 2000s. */
  const CenturyMjd: nat := 51544

  /** The servers tried, in order. */
  const Servers: seq<string> := [
    "129.6.15.28", "129.6.15.29", "132.163.4.101", "132.163.4.102", "132.163.4.103",
    "128.138.140.44", "192.43.244.18", "131.107.1.10", "66.243.43.21", "216.200.93.8",
    "208.184.49.9", "207.126.98.204", "205.188.185.33"
  ]

  /**
   * Why a response gives no time. GetNISTTime has one branch for a short line and a
   * missing signature, returns MinValue for both it and a degraded status, and throws
   * for the rest; GetTime maps each of them to MinValue.
   */
  datatype DaytimeError = NoSignature | DegradedStatus | NotNumeric | BeforeYear1900 | InvalidDate

  /** What one connection attempt to a host yields: the received text, or None on a socket error. */
  type Network = string -> Option<string>

  predicate HasSignature(s: string) {
    |s| >= 47 && s[38..47] == Signature
  }

  /** Promotion of the two-digit year, with the strict comparison against 2000-01-01. */
  function PromoteYear(jd: nat, yr: nat): (year: nat)
    requires yr < 100
    ensures 1900 <= year <= 2099
    ensures year % 100 == yr
    ensures year >= 2000 <==> jd > CenturyMjd
  {
    if jd > CenturyMjd then yr + 2000 else yr + 1900
  }

  /** `int.Parse(s.Substring(offset, width))`. */
  function Field(s: string, offset: nat, width: nat): (r: Result<nat, DaytimeError>)
    requires offset + width <= |s|
    ensures r.Ok? <==> width > 0 && AllDigits(s[offset..offset + width])
    ensures r.Ok? ==> r.value == DecimalValue(s[offset..offset + width]) < Pow10(width)
    ensures r.Err? ==> r.error == NotNumeric
  {
    match ParseNat(s[offset..offset + width])
    case Some(v) => Ok(v)
    case None => Err(NotNumeric)
  }

  /** The seven numeric fields of a daytime line, as parsed. */
  datatype TimeFields = TimeFields(jd: nat, yr: nat, month: nat, day: nat, hour: nat, minute: nat, second: nat)
  {
    /** Every field fits its column. */
    predicate Fits() {
      jd < 100000 && yr < 100 && month < 100 && day < 100 && hour < 100 && minute < 100 && second < 100
    }

    /** The arguments the DateTime constructor receives, with the year promoted. */
    function Civil(): CivilTime
      requires yr < 100
    {
      CivilTime(PromoteYear(jd, yr), month, day, hour, minute, second)
    }
  }

  /** The seven numeric columns of a daytime line: Julian day, date and time of day. */
  predicate NumericColumns(s: string)
    requires |s| >= 24
  {
    AllDigits(s[1..6]) && AllDigits(s[7..9]) && AllDigits(s[10..12]) && AllDigits(s[13..15])
    && AllDigits(s[16..18]) && AllDigits(s[19..21]) && AllDigits(s[22..24])
  }

  /**
   * The seven `int.Parse` calls of GetNISTTime, Julian day first; any non-numeric
   * column makes the parse fail as non-numeric.
   */
  function ParseFields(s: string): (r: Result<TimeFields, DaytimeError>)
    requires |s| >= 24
    ensures r.Ok? <==> NumericColumns(s)
    ensures r.Err? ==> r.error == NotNumeric
    ensures r.Ok? ==> r.value.Fits()
    ensures r.Ok? ==> r.value == TimeFields(
      DecimalValue(s[1..6]), DecimalValue(s[7..9]), DecimalValue(s[10..12]), DecimalValue(s[13..15]),
      DecimalValue(s[16..18]), DecimalValue(s[19..21]), DecimalValue(s[22..24]))
  {
    var jd :- Field(s, 1, 5);
    var yr :- Field(s, 7, 2);
    var mo :- Field(s, 10, 2);
    var dy :- Field(s, 13, 2);
    var hr :- Field(s, 16, 2);
    var mm :- Field(s, 19, 2);
    var sc :- Field(s, 22, 2);
    Ok(TimeFields(jd, yr, mo, dy, hr, mm, sc))
  }

  /**
   * The parse section of GetNISTTime: signature and length, then health, then the
   * seven numeric fields, then the Julian-day floor, then the DateTime constructor.
   */
  function ParseDaytime(s: string): (r: Result<Instant, DaytimeError>)
    ensures r.Ok? ==> HasSignature(s) && s[30] == '0'
    ensures !HasSignature(s) ==> r == Err(NoSignature)
    ensures HasSignature(s) && s[30] != '0' ==> r == Err(DegradedStatus)
    ensures HasSignature(s) && s[30] == '0' && !NumericColumns(s) ==> r == Err(NotNumeric)
    ensures r.Ok? ==>
      NumericColumns(s) && ParseFields(s).value.jd >= FirstMjd
      && MakeDateTime(ParseFields(s).value.Civil()) == Some(r.value)
  {
    if |s| < 47 || s[38..47] != Signature then Err(NoSignature)
    // The length test below can no longer fail; it is kept as GetNISTTime writes it.
    else if |s| < 31 || s[30..31] != "0" then Err(DegradedStatus)
    else
      var f :- ParseFields(s);
      if f.jd < FirstMjd then Err(BeforeYear1900)
      else
        match MakeDateTime(f.Civil())
        case Some(t) => Ok(t)
        case None => Err(InvalidDate)
  }

  /** One NIST daytime line: the parsed fields and the columns the parser skips. */
  datatype DaytimeRecord = DaytimeRecord(fields: TimeFields, tt: nat, leap: nat, health: nat, advanceTenths: nat)
  {
    predicate Fits() {
      fields.Fits() && tt < 100 && leap < 10 && health < 10 && advanceTenths < 10000
    }
  }

  /**
   * The line a NIST server sends for a record, column by column:
   * `\nJJJJJ YR-MO-DA HH:MM:SS TT L H AAA.A UTC(NIST) *` (49 characters).
   */
  function FormatDaytime(r: DaytimeRecord): (s: string)
    requires r.Fits()
    ensures |s| == 49
  {
    seq(49, i requires 0 <= i < 49 => LineChar(r, i))
  }

  function LineChar(r: DaytimeRecord, i: nat): char
    requires r.Fits() && i < 49
  {
    if i == 0 then '\n'
    else if i < 6 then FormatNat(r.fields.jd, 5)[i - 1]
    else if i < 7 then ' '
    else if i < 9 then FormatNat(r.fields.yr, 2)[i - 7]
    else if i < 10 then '-'
    else if i < 12 then FormatNat(r.fields.month, 2)[i - 10]
    else if i < 13 then '-'
    else if i < 15 then FormatNat(r.fields.day, 2)[i - 13]
    else if i < 16 then ' '
    else if i < 18 then FormatNat(r.fields.hour, 2)[i - 16]
    else if i < 19 then ':'
    else if i < 21 then FormatNat(r.fields.minute, 2)[i - 19]
    else if i < 22 then ':'
    else if i < 24 then FormatNat(r.fields.second, 2)[i - 22]
    else if i < 25 then ' '
    else if i < 27 then FormatNat(r.tt, 2)[i - 25]
    else if i < 28 then ' '
    else if i < 29 then FormatNat(r.leap, 1)[0]
    else if i < 30 then ' '
    else if i < 31 then FormatNat(r.health, 1)[0]
    else if i < 32 then ' '
    else if i < 35 then FormatNat(r.advanceTenths / 10, 3)[i - 32]
    else if i < 36 then '.'
    else if i < 37 then FormatNat(r.advanceTenths % 10, 1)[0]
    else if i < 38 then ' '
    else if i < 47 then Signature[i - 38]
    else if i < 48 then ' '
    else '*'
  }

  /** Where each field of a formatted line lands. */
  lemma FormatLayout(r: DaytimeRecord)
    requires r.Fits()
    ensures var s := FormatDaytime(r);
      s[1..6] == FormatNat(r.fields.jd, 5) && s[7..9] == FormatNat(r.fields.yr, 2)
      && s[10..12] == FormatNat(r.fields.month, 2) && s[13..15] == FormatNat(r.fields.day, 2)
      && s[16..18] == FormatNat(r.fields.hour, 2) && s[19..21] == FormatNat(r.fields.minute, 2)
      && s[22..24] == FormatNat(r.fields.second, 2) && s[30..31] == FormatNat(r.health, 1)
      && s[38..47] == Signature
  {
  }

  /** The numeric fields of a formatted line parse back to the record's fields. */
  lemma {:induction false} FieldsRoundTrip(r: DaytimeRecord)
    requires r.Fits()
    ensures ParseFields(FormatDaytime(r)) == Ok(r.fields)
  {
    FormatLayout(r);
    ParseFormat(r.fields.jd, 5);
    ParseFormat(r.fields.yr, 2);
    ParseFormat(r.fields.month, 2);
    ParseFormat(r.fields.day, 2);
    ParseFormat(r.fields.hour, 2);
    ParseFormat(r.fields.minute, 2);
    ParseFormat(r.fields.second, 2);
  }

  /**
   * Text that carries the record in columns 1 to 46. The parser reads nothing else,
   * so the character before them and whatever follows them (the ` *` of the line,
   * a line end, further text) are free.
   */
  predicate CarriesRecord(s: string, r: DaytimeRecord)
    requires r.Fits()
  {
    |s| >= 47 && s[1..47] == FormatDaytime(r)[1..47]
  }

  /** The parse depends on columns 1 to 46 only. */
  lemma ColumnsDecide(s: string, t: string)
    requires |s| >= 47 && |t| >= 47 && s[1..47] == t[1..47]
    ensures ParseDaytime(s) == ParseDaytime(t)
  {
    forall i | 1 <= i < 47
      ensures s[i] == t[i]
    {
      assert s[i] == s[1..47][i - 1];
    }
    assert s[38..47] == t[38..47] && s[30..31] == t[30..31];
    assert s[1..6] == t[1..6] && s[7..9] == t[7..9] && s[10..12] == t[10..12];
    assert s[13..15] == t[13..15] && s[16..18] == t[16..18];
    assert s[19..21] == t[19..21] && s[22..24] == t[22..24];
    assert ParseFields(s) == ParseFields(t);
  }

  /**
   * Parsing a formatted line recovers its record: a non-zero health digit is
   * degraded, a day before 1900-01-01 is rejected, and otherwise the result is the
   * instant of the promoted date-time, when the DateTime constructor accepts it.
   */
  lemma {:induction false} ParseFormattedLine(r: DaytimeRecord)
    requires r.Fits()
    ensures ParseDaytime(FormatDaytime(r)) ==
      if r.health != 0 then Err(DegradedStatus)
      else if r.fields.jd < FirstMjd then Err(BeforeYear1900)
      else if r.fields.Civil().Valid() then Ok(r.fields.Civil().Millis())
      else Err(InvalidDate)
  {
    var line := FormatDaytime(r);
    FormatLayout(r);
    assert HasSignature(line);
    assert line[30] == DigitChar(r.health);
    if r.health == 0 {
      assert line[30..31] == "0";
      FieldsRoundTrip(r);
    } else {
      assert DigitValue(line[30]) != 0;
    }
  }

  /** The same holds for any response that carries the record in columns 1 to 46. */
  lemma ParseFormatted(r: DaytimeRecord, s: string)
    requires r.Fits() && CarriesRecord(s, r)
    ensures ParseDaytime(s) ==
      if r.health != 0 then Err(DegradedStatus)
      else if r.fields.jd < FirstMjd then Err(BeforeYear1900)
      else if r.fields.Civil().Valid() then Ok(r.fields.Civil().Millis())
      else Err(InvalidDate)
  {
    ColumnsDecide(s, FormatDaytime(r));
    ParseFormattedLine(r);
  }

  /** A signed, healthy response with a non-digit in a numeric column gives no time. */
  lemma NonNumericResponse(s: string)
    requires HasSignature(s) && s[30] == '0' && !NumericColumns(s)
    ensures ParseDaytime(s) == Err(NotNumeric)
    ensures NistTime(Some(s)) == MinValue
  {
  }

  /**
   * A successful parse lies between 1900-01-01 and the end of 2099, and the century
   * is decided by the Julian day alone: up to and including day 51544 the result lies
   * in the 1900s, after it in the 2000s.
   */
  lemma SuccessfulParseInRange(s: string)
    requires ParseDaytime(s).Ok?
    ensures ParseFields(s).Ok? && ParseFields(s).value.jd >= FirstMjd
    ensures var t := ParseDaytime(s).value;
      MinValue < Epoch1900 <= t < YearStart(2100)
      && (ParseFields(s).value.jd <= CenturyMjd ==> t < YearStart(2000))
      && (ParseFields(s).value.jd > CenturyMjd ==> YearStart(2000) <= t)
  {
    var f := ParseFields(s).value;
    assert MakeDateTime(f.Civil()).Some?;
    PromotedYearRange(f.jd, f.yr, ParseDaytime(s).value);
  }

  /** An instant inside a promoted year lies in the century the Julian day selects. */
  lemma PromotedYearRange(jd: nat, yr: nat, t: Instant)
    requires yr < 100
    requires YearStart(PromoteYear(jd, yr)) <= t < YearStart(PromoteYear(jd, yr) + 1)
    ensures MinValue < Epoch1900 <= t < YearStart(2100)
    ensures jd <= CenturyMjd ==> t < YearStart(2000)
    ensures jd > CenturyMjd ==> YearStart(2000) <= t
  {
    var y := PromoteYear(jd, yr);
    if jd > CenturyMjd {
      if y > 2000 {
        YearStartMonotone(2000, y);
      }
      if y < 2099 {
        YearStartMonotone(y + 1, 2100);
      }
      YearStartMonotone(1900, 2000);
    } else {
      if y > 1900 {
        YearStartMonotone(1900, y);
      }
      if y < 1999 {
        YearStartMonotone(y + 1, 2000);
      }
      YearStartMonotone(2000, 2100);
    }
    YearStartMonotone(1, 1900);
  }

  /** A well-formed line with health 0, a day from 1900 on and a valid date parses to that date. */
  lemma {:induction false} ParseGoodLine(r: DaytimeRecord, s: string)
    requires r.Fits() && CarriesRecord(s, r) && r.health == 0 && r.fields.jd >= FirstMjd && r.fields.Civil().Valid()
    ensures ParseDaytime(s) == Ok(r.fields.Civil().Millis())
  {
    ParseFormatted(r, s);
  }

  /** The Julian-day floor: a line for day 15019 is refused whatever its date reads. */
  lemma JulianDayBeforeFloor(r: DaytimeRecord, s: string)
    requires r.Fits() && CarriesRecord(s, r) && r.health == 0 && r.fields.jd == 15019
    ensures ParseDaytime(s) == Err(BeforeYear1900)
  {
    ParseFormatted(r, s);
  }

  /** Midnight on January 1st or 2nd of the promoted year, as the parser builds it. */
  lemma JanuaryFields(f: TimeFields)
    requires f.yr < 100 && f.month == 1 && 1 <= f.day <= 2 && f.hour == 0 && f.minute == 0 && f.second == 0
    ensures f.Civil().Valid()
    ensures f.Civil().Millis() == YearStart(PromoteYear(f.jd, f.yr)) + (f.day - 1) * 86400000
  {
    JanuaryMidnight(f.Civil());
  }

  /** Day 15020 itself, 1900-01-01, is accepted. */
  lemma JulianDayAtFloor(r: DaytimeRecord, s: string)
    requires r.Fits() && CarriesRecord(s, r) && r.health == 0 && r.fields == TimeFields(15020, 0, 1, 1, 0, 0, 0)
    ensures ParseDaytime(s) == Ok(Epoch1900)
  {
    JanuaryFields(r.fields);
    ParseGoodLine(r, s);
  }

  /**
   * The century switch is strict: the line a server sends on 2000-01-01 (day 51544,
   * year "00") yields 1900-01-01.
   */
  lemma CenturyDayKeepsNineteenHundreds(r: DaytimeRecord, s: string)
    requires r.Fits() && CarriesRecord(s, r) && r.health == 0 && r.fields == TimeFields(51544, 0, 1, 1, 0, 0, 0)
    ensures ParseDaytime(s) == Ok(YearStart(1900))
  {
    JanuaryFields(r.fields);
    ParseGoodLine(r, s);
  }

  /** The day after it, 51545 with year "00", takes the 2000s: 2000-01-02. */
  lemma DayAfterCenturyTakesTwoThousands(r: DaytimeRecord, s: string)
    requires r.Fits() && CarriesRecord(s, r) && r.health == 0 && r.fields == TimeFields(51545, 0, 1, 2, 0, 0, 0)
    ensures ParseDaytime(s) == Ok(YearStart(2000) + 86400000)
  {
    JanuaryFields(r.fields);
    ParseGoodLine(r, s);
  }

  /** A status digit other than 0 makes an otherwise well-formed line degraded. */
  lemma DegradedLine(r: DaytimeRecord, s: string)
    requires r.Fits() && CarriesRecord(s, r) && r.health != 0
    ensures ParseDaytime(s) == Err(DegradedStatus)
  {
    ParseFormatted(r, s);
  }

  /**
   * One pass of the loop body of GetTime: GetNISTTime(host) given what the connection
   * to the host yields, with every parse exception caught and turned into MinValue.
   */
  function NistTime(response: Option<string>): (t: Instant)
    ensures t > MinValue <==> response.Some? && ParseDaytime(response.value).Ok?
    ensures t > MinValue ==> Epoch1900 <= t < YearStart(2100)
  {
    match response
    case None => MinValue
    case Some(s) =>
      match ParseDaytime(s)
      case Ok(t) => SuccessfulParseInRange(s); t
      case Err(_) => MinValue
  }

  /** The position of the first host that yields a time, or |hosts| when none does. */
  function FirstSuccess(hosts: seq<string>, net: Network): (k: nat)
    ensures k <= |hosts|
    ensures forall j :: 0 <= j < k ==> NistTime(net(hosts[j])) == MinValue
    ensures k < |hosts| ==> NistTime(net(hosts[k])) > MinValue
  {
    if hosts == [] then 0
    else if NistTime(net(hosts[0])) > MinValue then 0
    else 1 + FirstSuccess(hosts[1..], net)
  }

  /** What GetTime returns: the time of the first server that yields one, else the system clock. */
  function SyncedTime(net: Network, utcNow: Instant): Instant {
    var k := FirstSuccess(Servers, net);
    if k < |Servers| then NistTime(net(Servers[k])) else utcNow
  }

  lemma ServersNamed()
    ensures forall j :: 0 <= j < |Servers| ==> Servers[j] != ""
  {
    forall j | 0 <= j < |Servers| ensures Servers[j] != "" {
      assert Servers[j] in Servers;
    }
  }

  /**
   * GetTime: tries the servers in list order, stops at the first whose result is
   * later than MinValue, and falls back to the system clock `utcNow` when none is.
   * The hosts it connects to are the first `contacted` entries of the list.
   */
  method GetTime(net: Network, utcNow: Instant) returns (result: Instant, lastHost: string, ghost contacted: nat)
    ensures result == SyncedTime(net, utcNow)
    ensures var k := FirstSuccess(Servers, net);
      if k < |Servers| then lastHost == Servers[k] && contacted == k + 1
      else lastHost == "" && contacted == |Servers|
  {
    ServersNamed();
    var servers := Servers;
    var host: string := "";
    result := MinValue;
    lastHost := "";
    contacted := 0;
    var i := 0;
    while i < |servers|
      invariant 0 <= i <= |servers|
      invariant lastHost == "" && contacted == i
      invariant forall j :: 0 <= j < i ==> NistTime(net(servers[j])) == MinValue
    {
      host := servers[i];
      contacted := contacted + 1;
      result := NistTime(net(host));
      if result > MinValue {
        lastHost := host;
        FirstSuccessAt(servers, net, i);
        break;
      }
      i := i + 1;
    }
    if lastHost == "" {
      // No server in the list succeeded.
      FirstSuccessAt(servers, net, |servers|);
      result := utcNow;
    }
  }

  /** The first success is determined by the failures before it and the success at it. */
  lemma FirstSuccessAt(hosts: seq<string>, net: Network, i: nat)
    requires i <= |hosts|
    requires forall j :: 0 <= j < i ==> NistTime(net(hosts[j])) == MinValue
    requires i < |hosts| ==> NistTime(net(hosts[i])) > MinValue
    ensures FirstSuccess(hosts, net) == i
  {
  }

  /** When every server fails the result is the system clock. */
  lemma AllServersFail(net: Network, utcNow: Instant)
    requires forall j :: 0 <= j < |Servers| ==> NistTime(net(Servers[j])) == MinValue
    ensures SyncedTime(net, utcNow) == utcNow
  {
  }

  /**
   * Servers after the first one that succeeds are never consulted: two networks that
   * agree on the servers up to and including it give the same result.
   */
  lemma {:induction false} LaterServersIgnored(hosts: seq<string>, net1: Network, net2: Network, i: nat)
    requires i < |hosts| && NistTime(net1(hosts[i])) > MinValue
    requires forall j :: 0 <= j <= i ==> net1(hosts[j]) == net2(hosts[j])
    ensures FirstSuccess(hosts, net1) == FirstSuccess(hosts, net2) <= i
    ensures NistTime(net1(hosts[FirstSuccess(hosts, net1)])) == NistTime(net2(hosts[FirstSuccess(hosts, net2)]))
  {
    assert net1(hosts[0]) == net2(hosts[0]);
    if NistTime(net1(hosts[0])) > MinValue {
      assert FirstSuccess(hosts, net1) == 0 == FirstSuccess(hosts, net2);
    } else {
      var rest := hosts[1..];
      forall j | 0 <= j <= i - 1
        ensures net1(rest[j]) == net2(rest[j])
      {
        assert rest[j] == hosts[j + 1];
      }
      LaterServersIgnored(rest, net1, net2, i - 1);
      var k := FirstSuccess(rest, net1);
      assert FirstSuccess(hosts, net1) == 1 + k == FirstSuccess(hosts, net2);
      assert hosts[1 + k] == rest[k];
    }
  }

  /**
   * _AsyncInit of the daytime client, run as one step: the flag is cleared, GetTime
   * runs, and its result is stored as milliseconds after 1970 with the local reading
   * taken when it returned.
   */
  method AsyncInit(anchor: SyncAnchor, net: Network, utcNow: Instant, localReading: nat)
    modifies anchor
    ensures anchor.inited
    ensures anchor.networkUtcStamp == StampOf(SyncedTime(net, utcNow))
    ensures anchor.syncLocalGameTime == localReading
  {
    anchor.BeginInit();
    var serverUtcTime, lastHost, contacted := GetTime(net, utcNow);
    anchor.CompleteInit(StampOf(serverUtcTime), localReading);
  }
}
