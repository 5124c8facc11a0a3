/**
 * Decoding of one line read from the RH-USB sensor (`processReading`,
 * src/rhaws.js:58-64): the line is trimmed, every `>` is deleted, the rest
 * is split on `,`, field 0 is the humidity and field 1 the temperature, both
 * kept verbatim as text. No line is ever rejected.
 */
module Frame {
  import opened Wrappers

  /** The marker character deleted by `replace(/>/g, '')`. */
  const Marker: char := '>'

  /** The field separator given to `split`. */
  const Separator: char := ','

  /**
   * The characters ECMAScript's `String.prototype.trim` removes: the
   * WhiteSpace code points (tab, vertical tab, form feed, space, no-break
   * space, byte order mark and the other Zs space separators) and the
   * LineTerminator code points (LF, CR, LS, PS). U+0009 to U+000D are tab,
   * LF, vertical tab, form feed and CR; U+2028 and U+2029 are LS and PS.
   */
  predicate IsJsWhitespace(c: char) {
    || ('\t' <= c <= '\r') || c == ' ' || c == '\U{00A0}' || c == '\U{1680}'
    || ('\U{2000}' <= c <= '\U{200A}') || ('\U{2028}' <= c <= '\U{2029}')
    || c == '\U{202F}' || c == '\U{205F}' || c == '\U{3000}' || c == '\U{FEFF}'
  }

  predicate AllMarkers(s: string) {
    forall i :: 0 <= i < |s| ==> s[i] == Marker
  }

  predicate AllWhitespace(s: string) {
    forall i :: 0 <= i < |s| ==> IsJsWhitespace(s[i])
  }

  /** The line with its leading whitespace removed (see `TrimStartDrops`). */
  function TrimStart(s: string): (r: string)
    ensures |r| <= |s| && r == s[|s| - |r|..]
    ensures r == [] || !IsJsWhitespace(r[0])
  {
    if s != [] && IsJsWhitespace(s[0]) then TrimStart(s[1..]) else s
  }

  /** What `TrimStart` drops is whitespace. */
  lemma {:induction false} TrimStartDrops(s: string)
    ensures AllWhitespace(s[..|s| - |TrimStart(s)|])
  {
    if s != [] && IsJsWhitespace(s[0]) {
      TrimStartDrops(s[1..]);
      var n := |s| - |TrimStart(s)|;
      assert s[..n] == [s[0]] + s[1..][..n - 1];
    }
  }

  /** The line with its trailing whitespace removed (see `TrimEndDrops`). */
  function TrimEnd(s: string): (r: string)
    ensures |r| <= |s| && r == s[..|r|]
    ensures r == [] || !IsJsWhitespace(r[|r| - 1])
  {
    if s != [] && IsJsWhitespace(s[|s| - 1]) then TrimEnd(s[..|s| - 1]) else s
  }

  /** What `TrimEnd` drops is whitespace. */
  lemma {:induction false} TrimEndDrops(s: string)
    ensures AllWhitespace(s[|TrimEnd(s)|..])
  {
    if s != [] && IsJsWhitespace(s[|s| - 1]) {
      var p := s[..|s| - 1];
      TrimEndDrops(p);
      var n := |TrimEnd(s)|;
      assert s[n..] == p[n..] + [s[|s| - 1]];
    }
  }

  /** Number of whitespace characters `Trim` drops from the front of `s`. */
  function LeadingWhitespace(s: string): nat {
    |s| - |TrimStart(s)|
  }

  /** `data.trim()`: leading and trailing whitespace removed (see `TrimInfix`). */
  function Trim(s: string): (r: string)
    ensures r == [] || (!IsJsWhitespace(r[0]) && !IsJsWhitespace(r[|r| - 1]))
  {
    var t := TrimStart(s);
    assert TrimEnd(t) != [] ==> TrimEnd(t)[0] == t[0];
    TrimEnd(t)
  }

  /**
   * What `Trim` keeps is an infix of the line with nothing but whitespace
   * around it: the longest infix that neither starts nor ends with whitespace.
   */
  lemma TrimInfix(s: string)
    ensures var r, k := Trim(s), LeadingWhitespace(s);
      && k + |r| <= |s| && r == s[k..k + |r|]
      && AllWhitespace(s[..k]) && AllWhitespace(s[k + |r|..])
  {
    TrimPosition(s);
    TrimLeading(s);
    TrimTrailing(s);
  }

  lemma TrimPosition(s: string)
    ensures var r, k := Trim(s), LeadingWhitespace(s);
      k + |r| <= |s| && r == s[k..k + |r|]
  {
    var t := TrimStart(s);
    InfixOfSuffix(s, t, TrimEnd(t));
  }

  lemma TrimLeading(s: string)
    ensures AllWhitespace(s[..LeadingWhitespace(s)])
  {
    TrimStartDrops(s);
  }

  lemma TrimTrailing(s: string)
    ensures AllWhitespace(s[LeadingWhitespace(s) + |Trim(s)|..])
  {
    var t := TrimStart(s);
    var r := TrimEnd(t);
    TrimEndDrops(t);
    WhitespaceBehindInfix(s, t, r, LeadingWhitespace(s) + |r|);
  }

  /** A prefix `r` of a suffix `t` of `s` is an infix of `s`. */
  lemma InfixOfSuffix(s: string, t: string, r: string)
    requires |t| <= |s| && t == s[|s| - |t|..]
    requires |r| <= |t| && r == t[..|r|]
    ensures var k := |s| - |t|; k + |r| <= |s| && r == s[k..k + |r|]
  {
    SliceOfSuffix(s, |s| - |t|, |r|);
  }

  /** Whitespace behind a prefix `r` of a suffix `t` of `s` is whitespace at the end of `s`. */
  lemma WhitespaceBehindInfix(s: string, t: string, r: string, j: nat)
    requires |t| <= |s| && t == s[|s| - |t|..]
    requires |r| <= |t| && AllWhitespace(t[|r|..])
    requires j == |s| - |t| + |r|
    ensures j <= |s| && AllWhitespace(s[j..])
  {
    SliceOfSuffix(s, |s| - |t|, |r|);
  }

  lemma SliceOfSuffix(s: string, k: nat, n: nat)
    requires k + n <= |s|
    ensures s[k..][..n] == s[k..k + n] && s[k..][n..] == s[k + n..]
  {
  }

  /** `replace(/>/g, '')`: every marker deleted, all other characters kept in order. */
  function StripMarkers(s: string): (r: string)
    ensures Marker !in r && |r| <= |s|
    ensures Marker !in s ==> r == s
  {
    if s == [] then []
    else
      (if s[0] == Marker then [] else [s[0]]) + StripMarkers(s[1..])
  }

  /** Marker removal deletes exactly the markers and keeps every other character. */
  lemma {:induction false} StripMarkersCount(s: string)
    ensures |StripMarkers(s)| == |s| - multiset(s)[Marker]
    ensures forall c :: c != Marker ==> multiset(StripMarkers(s))[c] == multiset(s)[c]
  {
    if s != [] {
      StripMarkersCount(s[1..]);
      assert s == [s[0]] + s[1..];
    }
  }

  /** Inverse of `split`: the fields glued back together with the separator. */
  function Join(fields: seq<string>): string
    requires fields != []
  {
    if |fields| == 1 then fields[0] else fields[0] + [Separator] + Join(fields[1..])
  }

  /**
   * `split(',')`: at least one field, no field holds a separator, and joining
   * the fields gives back the text (so the fields are unique, `SplitJoin`).
   */
  function Split(s: string): (r: seq<string>)
    ensures r != []
    ensures forall i :: 0 <= i < |r| ==> Separator !in r[i]
    ensures Join(r) == s
  {
    if s == [] then [[]]
    else
      var rest := Split(s[1..]);
      assert s == [s[0]] + s[1..];
      if s[0] == Separator then
        assert ([[]] + rest)[1..] == rest;
        [[]] + rest
      else
        var r := [[s[0]] + rest[0]] + rest[1..];
        assert |rest| > 1 ==> r[1..] == rest[1..] && Join(rest) == rest[0] + [Separator] + Join(rest[1..]);
        r
  }

  /** One decoded sensor line; `temperature` is `None` where JavaScript yields `undefined`. */
  datatype Reading = Reading(humidity: string, temperature: Option<string>)

  /** `data.trim().replace(/>/g, '')`: trimming first, marker removal second. */
  function Clean(line: string): (r: string)
    ensures Marker !in r
    ensures |r| <= |line|
  {
    StripMarkers(Trim(line))
  }

  /** A joined line of two or more fields: the first, a separator, the second, and the rest. */
  lemma JoinLayout(fields: seq<string>) returns (rest: string)
    requires |fields| > 1
    ensures Join(fields) == fields[0] + [Separator] + fields[1] + rest
    ensures rest == [] || rest[0] == Separator
  {
    if |fields| == 2 {
      rest := [];
      assert Join(fields[1..]) == fields[1];
    } else {
      rest := [Separator] + Join(fields[2..]);
      assert fields[1..][1..] == fields[2..];
    }
  }

  /** The first two fields of a split line hold no character the line does not hold. */
  lemma SplitHeads(c: string)
    ensures var fields := Split(c);
      && (|fields| == 1 <==> Separator !in c)
      && (Marker !in c ==> Marker !in fields[0] && (|fields| > 1 ==> Marker !in fields[1]))
  {
    var fields := Split(c);
    if |fields| > 1 {
      var rest := JoinLayout(fields);
      var a := fields[0] + [Separator];
      assert a[|fields[0]|] == Separator;
      NotInParts(Marker, a + fields[1], rest);
      NotInParts(Marker, a, fields[1]);
      NotInParts(Marker, fields[0], [Separator]);
      NotInParts(Separator, a + fields[1], rest);
      NotInParts(Separator, a, fields[1]);
    }
  }

  lemma NotInParts(x: char, a: string, b: string)
    ensures x !in a + b <==> x !in a && x !in b
  {
    if x in a {
      var i :| 0 <= i < |a| && a[i] == x;
      assert (a + b)[i] == x;
    }
    if x in b {
      var i :| 0 <= i < |b| && b[i] == x;
      assert (a + b)[|a| + i] == x;
    }
  }

  /** `processReading`'s decoding: humidity is field 0, temperature field 1 if there is one. */
  function Decode(line: string): (r: Reading)
    ensures Marker !in r.humidity && Separator !in r.humidity
    ensures r.temperature.Some? ==> Marker !in r.temperature.value && Separator !in r.temperature.value
    ensures r.temperature.None? <==> Separator !in Clean(line)
  {
    var c := Clean(line);
    var fields := Split(c);
    SplitHeads(c);
    Reading(fields[0], if |fields| > 1 then Some(fields[1]) else None)
  }

  /**
   * Humidity is exactly the cleaned text before the first separator (all of
   * it when there is none); temperature is exactly the text between the first
   * and the second separator; whatever follows is ignored. Together with the
   * separator-free fields `Decode` promises, this fixes both fields.
   */
  lemma DecodeFields(line: string) returns (rest: string)
    ensures var c, r := Clean(line), Decode(line);
      && (r.temperature.None? ==> c == r.humidity && rest == [])
      && (r.temperature.Some? ==>
            && c == r.humidity + [Separator] + r.temperature.value + rest
            && (rest == [] || rest[0] == Separator))
  {
    var fields := Split(Clean(line));
    DecodeBySplit(line, fields);
    if |fields| > 1 {
      rest := JoinLayout(fields);
    } else {
      rest := [];
    }
  }

  /** `split` yields one field more than the text has separators. */
  lemma {:induction false} SplitCount(s: string)
    ensures |Split(s)| == multiset(s)[Separator] + 1
  {
    if s != [] {
      SplitCount(s[1..]);
      assert s == [s[0]] + s[1..];
    }
  }

  lemma {:induction false} SplitSingle(a: string)
    requires Separator !in a
    ensures Split(a) == [a]
  {
    if a != [] {
      SplitSingle(a[1..]);
      assert [a[0]] + a[1..] == a;
    }
  }

  lemma {:induction false} SplitAfterField(a: string, b: string)
    requires Separator !in a
    ensures Split(a + [Separator] + b) == [a] + Split(b)
  {
    var s := a + [Separator] + b;
    if a == [] {
      assert s[1..] == b;
    } else {
      assert s[1..] == a[1..] + [Separator] + b;
      SplitAfterField(a[1..], b);
      assert [a[0]] + a[1..] == a;
    }
  }

  /** `split` undoes `Join` on separator-free fields, so the fields of a line are unique. */
  lemma {:induction false} SplitJoin(fields: seq<string>)
    requires fields != []
    requires forall i :: 0 <= i < |fields| ==> Separator !in fields[i]
    ensures Split(Join(fields)) == fields
  {
    if |fields| == 1 {
      SplitSingle(fields[0]);
    } else {
      SplitJoin(fields[1..]);
      SplitAfterField(fields[0], Join(fields[1..]));
      assert [fields[0]] + fields[1..] == fields;
    }
  }

  /** Marker removal works character by character, so it distributes over concatenation. */
  lemma {:induction false} StripMarkersAppend(a: string, b: string)
    ensures StripMarkers(a + b) == StripMarkers(a) + StripMarkers(b)
  {
    if a != [] {
      assert (a + b)[1..] == a[1..] + b;
      StripMarkersAppend(a[1..], b);
    } else {
      assert a + b == b;
    }
  }

  /** Trailing whitespace (the CR left by the newline-delimited reader, say) never reaches the fields. */
  lemma {:induction false} TrimEndTrailer(x: string, w: string)
    requires AllWhitespace(w)
    ensures TrimEnd(x + w) == TrimEnd(x)
  {
    if w != [] {
      assert (x + w)[..|x + w| - 1] == x + w[..|w| - 1];
      TrimEndTrailer(x, w[..|w| - 1]);
    } else {
      assert x + w == x;
    }
  }

  /** Trailing whitespace is removed behind a prefix that does not end in whitespace. */
  lemma {:induction false} TrimEndBehind(p: string, s: string)
    requires p != [] && !IsJsWhitespace(p[|p| - 1])
    ensures TrimEnd(p + s) == p + TrimEnd(s)
  {
    if s != [] && IsJsWhitespace(s[|s| - 1]) {
      assert (p + s)[..|p + s| - 1] == p + s[..|s| - 1];
      TrimEndBehind(p, s[..|s| - 1]);
    } else if s == [] {
      assert p + s == p;
    }
  }

  /**
   * Trimming happens before marker removal: whitespace that follows a leading
   * marker is not at the edge when `trim` runs, so it survives into the
   * cleaned line, while trailing whitespace is still dropped.
   */
  lemma CleanAfterMarker(s: string)
    ensures Clean([Marker] + s) == StripMarkers(TrimEnd(s))
  {
    var line := [Marker] + s;
    assert TrimStart(line) == line;
    TrimEndBehind([Marker], s);
    StripMarkersAppend([Marker], TrimEnd(s));
  }

  /**
   * Trimming runs before marker removal: whitespace right behind a leading
   * marker is shielded from `trim` and stays in the cleaned line (so
   * `"> 45,22"` gives humidity `" 45"`), whereas the opposite order of the
   * two steps would have dropped it.
   */
  lemma MarkerShieldsWhitespace(w: string, body: string)
    requires AllWhitespace(w)
    requires body != [] && !IsJsWhitespace(body[|body| - 1])
    requires Marker !in body
    ensures Clean([Marker] + w + body) == w + body
  {
    var x := w + body;
    assert [Marker] + w + body == [Marker] + x;
    NoMarkerInWhitespace(w);
    assert Marker !in x;
    CleanAfterMarker(x);
    assert x[|x| - 1] == body[|body| - 1];
  }

  /** The opposite order, marker removal first and trimming second, loses that whitespace. */
  lemma StripThenTrimDropsWhitespace(w: string, body: string)
    requires AllWhitespace(w)
    requires body != [] && !IsJsWhitespace(body[0]) && !IsJsWhitespace(body[|body| - 1])
    requires Marker !in body
    ensures Trim(StripMarkers([Marker] + w + body)) == body
  {
    StripMarkerBeforeWhitespace(w, body);
    TrimStartSkip(w, body);
    assert TrimEnd(body) == body;
  }

  lemma StripMarkerBeforeWhitespace(w: string, body: string)
    requires AllWhitespace(w) && Marker !in body
    ensures StripMarkers([Marker] + w + body) == w + body
  {
    var x := w + body;
    assert [Marker] + w + body == [Marker] + x;
    NoMarkerInWhitespace(w);
    assert Marker !in x;
    StripLeadingMarkers([Marker], x);
  }

  lemma NoMarkerInWhitespace(w: string)
    requires AllWhitespace(w)
    ensures Marker !in w
  {
  }

  /** Leading whitespace in front of a non-whitespace character is all removed. */
  lemma {:induction false} TrimStartSkip(w: string, body: string)
    requires AllWhitespace(w)
    requires body != [] && !IsJsWhitespace(body[0])
    ensures TrimStart(w + body) == body
  {
    if w == [] {
      assert w + body == body;
    } else {
      assert (w + body)[1..] == w[1..] + body;
      TrimStartSkip(w[1..], body);
    }
  }

  /** A line that neither starts nor ends with whitespace, followed by whitespace, trims to itself. */
  lemma TrimSettled(body: string, trailer: string)
    requires body != [] && !IsJsWhitespace(body[0]) && !IsJsWhitespace(body[|body| - 1])
    requires AllWhitespace(trailer)
    ensures Trim(body + trailer) == body
  {
    var line := body + trailer;
    assert line[0] == body[0];
    assert TrimStart(line) == line;
    TrimEndTrailer(body, trailer);
  }

  /** Leading markers vanish. */
  lemma {:induction false} StripLeadingMarkers(lead: string, x: string)
    requires AllMarkers(lead)
    ensures StripMarkers(lead + x) == StripMarkers(x)
  {
    if lead == [] {
      assert lead + x == x;
    } else {
      assert (lead + x)[1..] == lead[1..] + x;
      StripLeadingMarkers(lead[1..], x);
    }
  }

  /**
   * A sensor frame: optional leading markers, humidity, separator,
   * temperature and trailing whitespace decodes to exactly the two fields,
   * provided neither field holds a separator or marker, the temperature does
   * not end in whitespace and, with no marker in front, the humidity does not
   * start with whitespace.
   */
  lemma DecodeFrame(lead: string, h: string, t: string, trailer: string)
    requires AllMarkers(lead)
    requires Separator !in h && Marker !in h && Separator !in t && Marker !in t
    requires lead != [] || h == [] || !IsJsWhitespace(h[0])
    requires t == [] || !IsJsWhitespace(t[|t| - 1])
    requires AllWhitespace(trailer)
    ensures Decode(lead + h + [Separator] + t + trailer) == Reading(h, Some(t))
  {
    CleanFrame(lead, h, t, trailer);
    DecodePair(lead + h + [Separator] + t + trailer, h, t);
  }

  lemma CleanFrame(lead: string, h: string, t: string, trailer: string)
    requires AllMarkers(lead)
    requires Marker !in h && Marker !in t
    requires lead != [] || h == [] || !IsJsWhitespace(h[0])
    requires t == [] || !IsJsWhitespace(t[|t| - 1])
    requires AllWhitespace(trailer)
    ensures Clean(lead + h + [Separator] + t + trailer) == h + [Separator] + t
  {
    var fields := h + [Separator] + t;
    assert lead + h + [Separator] + t + trailer == lead + fields + trailer;
    assert Marker !in fields;
    assert (lead + fields)[0] == if lead != [] then Marker else fields[0];
    assert fields[0] == if h != [] then h[0] else Separator;
    assert fields[|fields| - 1] == if t != [] then t[|t| - 1] else Separator;
    CleanBody(lead, fields, trailer);
  }

  /** Markers in front, a body with no whitespace at either edge, whitespace behind: the body is what is left. */
  lemma CleanBody(lead: string, fields: string, trailer: string)
    requires AllMarkers(lead) && Marker !in fields && fields != []
    requires !IsJsWhitespace((lead + fields)[0]) && !IsJsWhitespace(fields[|fields| - 1])
    requires AllWhitespace(trailer)
    ensures Clean(lead + fields + trailer) == fields
  {
    var body := lead + fields;
    assert body[|body| - 1] == fields[|fields| - 1];
    TrimSettled(body, trailer);
    StripLeadingMarkers(lead, fields);
  }

  /** A line that cleans to two separator-free fields decodes to exactly them. */
  lemma DecodePair(line: string, h: string, t: string)
    requires Separator !in h && Separator !in t
    requires Clean(line) == h + [Separator] + t
    ensures Decode(line) == Reading(h, Some(t))
  {
    SplitPair(h, t);
    DecodeBySplit(line, [h, t]);
  }

  lemma SplitPair(h: string, t: string)
    requires Separator !in h && Separator !in t
    ensures Split(h + [Separator] + t) == [h, t]
  {
    SplitAfterField(h, t);
    SplitSingle(t);
  }

  /** Decoding reads field 0 and field 1 of the cleaned line's split. */
  lemma DecodeBySplit(line: string, fields: seq<string>)
    requires Split(Clean(line)) == fields
    ensures Decode(line) == Reading(fields[0], if |fields| > 1 then Some(fields[1]) else None)
  {
  }


  /**
   * Only `>` is removed: a frame wrapped as `">45,22<"` keeps its closing
   * `<` in the temperature field.
   */
  lemma ClosingMarkerKept()
    ensures Decode(">45,22<") == Reading("45", Some("22<"))
  {
    assert ">" + "45" + [Separator] + "22<" + "" == ">45,22<";
    DecodeFrame(">", "45", "22<", "");
  }

  /** The whitespace a deleted marker exposes is kept: `"> 45,22"` gives humidity `" 45"`. */
  lemma MarkerThenSpace()
    ensures Decode("> 45,22") == Reading(" 45", Some("22"))
  {
    assert ">" + " 45" + [Separator] + "22" + "" == "> 45,22";
    DecodeFrame(">", " 45", "22", "");
  }
}
