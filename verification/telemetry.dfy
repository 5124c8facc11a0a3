/**
 * The message `processReading` hands to `publish` (src/rhaws.js:66-70) and
 * its JSON text (`JSON.stringify`, src/rhaws.js:113).
 */
module Telemetry {
  import opened Wrappers
  import Frame

  /**
   * The payload record `{time, temperature, humidity}`, fields in that order;
   * `temperature` is `None` where JavaScript holds `undefined`.
   */
  datatype Payload = Payload(time: string, temperature: Option<string>, humidity: string)

  /**
   * The payload built from one sensor line and the ISO-8601 text of the time
   * it arrived: stamped with that time, its fields free of markers and
   * separators, the temperature undefined exactly when the cleaned line has
   * no separator.
   */
  function PayloadOf(line: string, now: string): (p: Payload)
    ensures p.time == now
    ensures Frame.Marker !in p.humidity && Frame.Separator !in p.humidity
    ensures p.temperature.Some? ==> Frame.Marker !in p.temperature.value && Frame.Separator !in p.temperature.value
    ensures p.temperature.None? <==> Frame.Separator !in Frame.Clean(line)
  {
    var r := Frame.Decode(line);
    Payload(now, r.temperature, r.humidity)
  }

  /**
   * Text that `JSON.stringify` copies unchanged between the quotes of a
   * string literal: no quote, no backslash, no control character.
   */
  predicate PlainText(s: string) {
    forall i :: 0 <= i < |s| ==> s[i] != '"' && s[i] != '\\' && s[i] >= ' '
  }

  predicate Plain(p: Payload) {
    && PlainText(p.time) && PlainText(p.humidity)
    && (p.temperature.Some? ==> PlainText(p.temperature.value))
  }

  /** `"key":"value"` */
  function Member(key: string, value: string): string {
    "\"" + key + "\":\"" + value + "\""
  }

  /**
   * `JSON.stringify(payload)`: the keys in the order the object literal
   * creates them; a property whose value is `undefined` is left out.
   */
  function ToJson(p: Payload): (r: string)
    requires Plain(p)
    ensures |r| >= 2 && r[0] == '{' && r[|r| - 1] == '}'
  {
    "{" + Member("time", p.time)
    + (match p.temperature
       case Some(t) => "," + Member("temperature", t)
       case None => "")
    + "," + Member("humidity", p.humidity) + "}"
  }

  /** What follows the literal `lit` at the front of `s`, if it is there. */
  function Expect(lit: string, s: string): Option<string> {
    if |lit| <= |s| && s[..|lit|] == lit then Some(s[|lit|..]) else None
  }

  /** The contents of a string literal up to its closing quote, and what follows that quote. */
  function ReadString(s: string): Option<(string, string)> {
    if s == [] then None
    else if s[0] == '"' then Some(([], s[1..]))
    else match ReadString(s[1..])
      case None => None
      case Some((v, rest)) => Some(([s[0]] + v, rest))
  }

  /** A member `"key":"value"` at the front of `s`: its value and what follows it. */
  function ReadMember(key: string, s: string): Option<(string, string)> {
    match Expect("\"" + key + "\":\"", s)
    case None => None
    case Some(rest) => ReadString(rest)
  }

  /** The last member, `"humidity":"value"}`, and nothing after it. */
  function ReadHumidity(s: string): Option<string> {
    match ReadMember("humidity", s)
    case Some((h, rest)) => if rest == "}" then Some(h) else None
    case None => None
  }

  /** Reads back a payload text, accepting the keys only in the order `ToJson` writes them. */
  function FromJson(j: string): Option<Payload> {
    match Expect("{", j)
    case None => None
    case Some(j1) =>
      match ReadMember("time", j1)
      case None => None
      case Some((time, j2)) =>
        match Expect(",", j2)
        case None => None
        case Some(j3) =>
          match ReadMember("temperature", j3)
          case Some((t, j4)) =>
            (match Expect(",", j4)
             case None => None
             case Some(j5) =>
               match ReadHumidity(j5)
               case None => None
               case Some(h) => Some(Payload(time, Some(t), h)))
          case None =>
            match ReadHumidity(j3)
            case None => None
            case Some(h) => Some(Payload(time, None, h))
  }

  lemma ExpectPrefix(lit: string, rest: string)
    ensures Expect(lit, lit + rest) == Some(rest)
  {
    assert (lit + rest)[..|lit|] == lit;
    assert (lit + rest)[|lit|..] == rest;
  }

  /** A plain string literal is read up to, and not beyond, its closing quote. */
  lemma {:induction false} ReadStringPlain(v: string, rest: string)
    requires PlainText(v)
    ensures ReadString(v + "\"" + rest) == Some((v, rest))
  {
    var s := v + "\"" + rest;
    if v == [] {
      assert s == "\"" + rest;
    } else {
      assert s[0] == v[0];
      assert s[1..] == v[1..] + "\"" + rest;
      ReadStringPlain(v[1..], rest);
      assert [v[0]] + v[1..] == v;
    }
  }

  lemma ReadMemberPlain(key: string, v: string, rest: string)
    requires PlainText(v)
    ensures ReadMember(key, Member(key, v) + rest) == Some((v, rest))
  {
    var open := "\"" + key + "\":\"";
    assert Member(key, v) + rest == open + (v + "\"" + rest);
    ExpectPrefix(open, v + "\"" + rest);
    ReadStringPlain(v, rest);
  }

  /** A member whose key is not `temperature` is never read as the temperature. */
  lemma ReadOtherMember(v: string, rest: string)
    ensures ReadMember("temperature", Member("humidity", v) + rest) == None
  {
    var s := Member("humidity", v) + rest;
    var open := "\"temperature\":\"";
    assert s[1] == 'h';
    assert |open| <= |s| ==> s[..|open|][1] == 'h';
  }

  /**
   * `ToJson` loses nothing: the payload is read back from its text, with an
   * absent temperature key read back as an undefined temperature.
   */
  lemma FromJsonToJson(p: Payload)
    requires Plain(p)
    ensures FromJson(ToJson(p)) == Some(p)
  {
    match p.temperature {
      case Some(t) => WithTemperature(p.time, t, p.humidity);
      case None => WithoutTemperature(p.time, p.humidity);
    }
  }

  lemma WithTemperature(time: string, t: string, h: string)
    requires PlainText(time) && PlainText(t) && PlainText(h)
    ensures FromJson(ToJson(Payload(time, Some(t), h))) == Some(Payload(time, Some(t), h))
  {
    var last := Member("humidity", h) + "}";
    var j4 := "," + last;
    var j3 := Member("temperature", t) + j4;
    var j2 := "," + j3;
    var j1 := Member("time", time) + j2;
    assert ToJson(Payload(time, Some(t), h)) == "{" + j1;
    ExpectPrefix("{", j1);
    ReadMemberPlain("time", time, j2);
    ExpectPrefix(",", j3);
    ReadMemberPlain("temperature", t, j4);
    ExpectPrefix(",", last);
    ReadMemberPlain("humidity", h, "}");
    assert ReadHumidity(last) == Some(h);
  }

  lemma WithoutTemperature(time: string, h: string)
    requires PlainText(time) && PlainText(h)
    ensures FromJson(ToJson(Payload(time, None, h))) == Some(Payload(time, None, h))
  {
    var last := Member("humidity", h) + "}";
    var j2 := "," + last;
    var j1 := Member("time", time) + j2;
    assert ToJson(Payload(time, None, h)) == "{" + j1;
    ExpectPrefix("{", j1);
    ReadMemberPlain("time", time, j2);
    ExpectPrefix(",", last);
    ReadOtherMember(h, "}");
    ReadMemberPlain("humidity", h, "}");
    assert ReadHumidity(last) == Some(h);
  }

  lemma {:induction false} StripMarkersPlain(s: string)
    requires PlainText(s)
    ensures PlainText(Frame.StripMarkers(s))
  {
    if s != [] {
      StripMarkersPlain(s[1..]);
    }
  }

  /**
   * The payload of a line whose trimmed text and timestamp are plain is
   * plain, so its JSON text is the one `ToJson` gives.
   */
  lemma PayloadPlain(line: string, now: string)
    requires PlainText(now) && PlainText(Frame.Trim(line))
    ensures Plain(PayloadOf(line, now))
  {
    FieldsPlain(line);
  }

  /** The fields of a line whose trimmed text is plain are plain. */
  lemma FieldsPlain(line: string)
    requires PlainText(Frame.Trim(line))
    ensures var r := Frame.Decode(line);
      PlainText(r.humidity) && (r.temperature.Some? ==> PlainText(r.temperature.value))
  {
    var c := Frame.Clean(line);
    StripMarkersPlain(Frame.Trim(line));
    assert PlainText(c);
    var r := Frame.Decode(line);
    var rest := Frame.DecodeFields(line);
    var h := r.humidity;
    if r.temperature.Some? {
      var t := r.temperature.value;
      PlainSplit(h + [Frame.Separator] + t, rest);
      PlainSplit(h + [Frame.Separator], t);
      PlainSplit(h, [Frame.Separator]);
    } else {
      assert c == h;
    }
  }

  lemma PlainSplit(a: string, b: string)
    requires PlainText(a + b)
    ensures PlainText(a) && PlainText(b)
  {
    forall i | 0 <= i < |a| ensures a[i] == (a + b)[i] { }
    forall i | 0 <= i < |b| ensures b[i] == (a + b)[|a| + i] { }
  }
}
