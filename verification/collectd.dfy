/** The collectd plain-text protocol lines a collectd exec plugin prints:
    `PUTNOTIF` notifications and `PUTVAL` values. The clock, the host name
    and the reporting interval, which the plugin reads from the system and
    its environment, are parameters here. */
module Collectd {
  import opened Common
  import opened Strings
  import opened Decimal

  /** `s` with the prefix `p` taken off, if `s` starts with it. */
  function StripPrefix(s: string, p: string): (r: Option<string>)
    ensures r.Some? <==> p <= s
    ensures r.Some? ==> p + r.value == s
  {
    if p <= s then Some(s[|p|..]) else None
  }

  lemma StripPrefixOf(p: string, s: string)
    ensures StripPrefix(p + s, p) == Some(s)
  {
    assert (p + s)[|p|..] == s;
  }

  /** The fields of a notification line. */
  datatype Notification = Notification(severity: string, time: int, host: string, message: string)

  /** `notify_output`: a `PUTNOTIF` line. The message goes in last and
      verbatim, spaces and '=' included. */
  function NotifyOutput(severity: string, message: string, timestamp: int, fqdn: string): (r: string)
    ensures "PUTNOTIF severity=" + severity + " time=" <= r
    ensures |r| >= |message| && r[|r| - |message|..] == message
  {
    "PUTNOTIF severity=" + severity + " time=" + DecimalInt(timestamp) + " host=" + fqdn + " message=" + message
  }

  /** How collectd reads a notification line back: the severity, time and
      host each up to the next space, the message the rest of the line. */
  function ParseNotification(line: string): Option<Notification>
  {
    match StripPrefix(line, "PUTNOTIF severity=")
    case None => None
    case Some(r1) =>
      var severity := BeforeFirst(r1, ' ');
      match StripPrefix(r1[|severity|..], " time=")
      case None => None
      case Some(r2) =>
        var timeText := BeforeFirst(r2, ' ');
        match ParseInt(timeText)
        case None => None
        case Some(time) =>
          match StripPrefix(r2[|timeText|..], " host=")
          case None => None
          case Some(r3) =>
            var host := BeforeFirst(r3, ' ');
            match StripPrefix(r3[|host|..], " message=")
            case None => None
            case Some(message) => Some(Notification(severity, time, host, message))
  }

  /** One step of reading a line back: a field free of `sep`, then `p`
      (which starts with `sep`), then the rest. */
  lemma CutField(field: string, sep: char, p: string, rest: string)
    requires sep !in field && p != [] && p[0] == sep
    ensures BeforeFirst(field + (p + rest), sep) == field
    ensures (field + (p + rest))[|field|..] == p + rest
    ensures StripPrefix(p + rest, p) == Some(rest)
  {
    BeforeFirstUpTo(field, sep, p + rest);
    StripPrefixOf(p, rest);
  }

  lemma Assoc8<T>(a: seq<T>, b: seq<T>, c: seq<T>, d: seq<T>, e: seq<T>, f: seq<T>, g: seq<T>, h: seq<T>)
    ensures a + b + c + d + e + f + g + h == a + (b + (c + (d + (e + (f + (g + h))))))
  {
  }

  lemma ParseNotificationOf(severity: string, timeText: string, time: int, fqdn: string, message: string)
    requires ' ' !in severity && ' ' !in timeText && ' ' !in fqdn
    requires ParseInt(timeText) == Some(time)
    ensures ParseNotification("PUTNOTIF severity=" + (severity + (" time=" + (timeText + (" host=" + (fqdn + (" message=" + message)))))))
         == Some(Notification(severity, time, fqdn, message))
  {
    var r3 := fqdn + (" message=" + message);
    var r2 := timeText + (" host=" + r3);
    var r1 := severity + (" time=" + r2);
    StripPrefixOf("PUTNOTIF severity=", r1);
    CutField(severity, ' ', " time=", r2);
    CutField(timeText, ' ', " host=", r3);
    CutField(fqdn, ' ', " message=", message);
  }

  /** A notification line reads back as the notification it was made from,
      whatever its message, as long as severity and host hold no space. */
  lemma NotifyRoundTrip(severity: string, message: string, timestamp: int, fqdn: string)
    requires ' ' !in severity && ' ' !in fqdn
    ensures ParseNotification(NotifyOutput(severity, message, timestamp, fqdn))
         == Some(Notification(severity, timestamp, fqdn, message))
  {
    var timeText := DecimalInt(timestamp);
    Assoc8("PUTNOTIF severity=", severity, " time=", timeText, " host=", fqdn, " message=", message);
    assert ' ' !in timeText;
    ParseDecimalInt(timestamp);
    ParseNotificationOf(severity, timeText, timestamp, fqdn, message);
  }

  /** A notification line reads back whenever the host holds no space. */
  lemma NotifyReadsBack(severity: string, message: string, timestamp: int, fqdn: string)
    requires ' ' !in severity
    ensures ' ' !in fqdn ==>
              ParseNotification(NotifyOutput(severity, message, timestamp, fqdn))
              == Some(Notification(severity, timestamp, fqdn, message))
  {
    if ' ' !in fqdn {
      NotifyRoundTrip(severity, message, timestamp, fqdn);
    }
  }

  /** `failure`: a notification of severity "failure". */
  function Failure(message: string, timestamp: int, fqdn: string): (r: string)
    ensures |r| >= |message| && r[|r| - |message|..] == message
    ensures ' ' !in fqdn ==> ParseNotification(r) == Some(Notification("failure", timestamp, fqdn, message))
  {
    NotifyReadsBack("failure", message, timestamp, fqdn);
    NotifyOutput("failure", message, timestamp, fqdn)
  }

  /** `warning`: a notification of severity "warning". */
  function Warning(message: string, timestamp: int, fqdn: string): (r: string)
    ensures |r| >= |message| && r[|r| - |message|..] == message
    ensures ' ' !in fqdn ==> ParseNotification(r) == Some(Notification("warning", timestamp, fqdn, message))
  {
    NotifyReadsBack("warning", message, timestamp, fqdn);
    NotifyOutput("warning", message, timestamp, fqdn)
  }

  /** `ok`: a notification of severity "okay". */
  function Ok(message: string, timestamp: int, fqdn: string): (r: string)
    ensures |r| >= |message| && r[|r| - |message|..] == message
    ensures ' ' !in fqdn ==> ParseNotification(r) == Some(Notification("okay", timestamp, fqdn, message))
  {
    NotifyReadsBack("okay", message, timestamp, fqdn);
    NotifyOutput("okay", message, timestamp, fqdn)
  }

  /** A metric value as `str` renders it: integers in decimal, text as is. */
  datatype MetricValue = IntValue(n: int) | TextValue(text: string)

  function ValueText(v: MetricValue): string
  {
    match v
    case IntValue(n) => DecimalInt(n)
    case TextValue(t) => t
  }

  /** The fields of a value line. */
  datatype PutVal = PutVal(host: string, path: string, interval: string, value: string)

  /** `metric`: a `PUTVAL` line for `value` at `fqdn/path`. */
  function Metric(path: string, value: MetricValue, fqdn: string, interval: string): (r: string)
    ensures "PUTVAL " + fqdn + "/" + path <= r
    ensures |r| >= |ValueText(value)| + 3 && r[|r| - |ValueText(value)| - 3..] == " N:" + ValueText(value)
  {
    "PUTVAL " + fqdn + "/" + path + " interval=" + interval + " N:" + ValueText(value)
  }

  /** How collectd reads a value line back: the host up to the first '/',
      the path and interval each up to the next space, the value the rest. */
  function ParseMetric(line: string): Option<PutVal>
  {
    match StripPrefix(line, "PUTVAL ")
    case None => None
    case Some(r1) =>
      var host := BeforeFirst(r1, '/');
      match StripPrefix(r1[|host|..], "/")
      case None => None
      case Some(r2) =>
        var path := BeforeFirst(r2, ' ');
        match StripPrefix(r2[|path|..], " interval=")
        case None => None
        case Some(r3) =>
          var interval := BeforeFirst(r3, ' ');
          match StripPrefix(r3[|interval|..], " N:")
          case None => None
          case Some(value) => Some(PutVal(host, path, interval, value))
  }

  lemma ParseMetricOf(fqdn: string, path: string, interval: string, text: string)
    requires '/' !in fqdn && ' ' !in path && ' ' !in interval
    ensures ParseMetric("PUTVAL " + (fqdn + ("/" + (path + (" interval=" + (interval + (" N:" + text)))))))
         == Some(PutVal(fqdn, path, interval, text))
  {
    var r3 := interval + (" N:" + text);
    var r2 := path + (" interval=" + r3);
    var r1 := fqdn + ("/" + r2);
    StripPrefixOf("PUTVAL ", r1);
    CutField(fqdn, '/', "/", r2);
    CutField(path, ' ', " interval=", r3);
    CutField(interval, ' ', " N:", text);
  }

  /** A value line reads back as the host, path, interval and value it was
      made from; an integer value parses back to itself. */
  lemma MetricRoundTrip(path: string, value: MetricValue, fqdn: string, interval: string)
    requires '/' !in fqdn && ' ' !in path && ' ' !in interval
    ensures ParseMetric(Metric(path, value, fqdn, interval)) == Some(PutVal(fqdn, path, interval, ValueText(value)))
    ensures value.IntValue? ==> ParseInt(ParseMetric(Metric(path, value, fqdn, interval)).value.value) == Some(value.n)
  {
    var text := ValueText(value);
    Assoc8("PUTVAL ", fqdn, "/", path, " interval=", interval, " N:", text);
    ParseMetricOf(fqdn, path, interval, text);
    if value.IntValue? {
      ParseDecimalInt(value.n);
    }
  }
}
