/**
  The hardware-report URL: percent-encoding (sections 2.1 and 2.3 of RFC 3986),
  a decoder that follows the RFC rather than the encoder, and the round trip of
  the whole query.
*/
module PercentEncode {
  import opened Wrappers
  import opened Strings
  import opened Alphabets

  newtype byte = b: int | 0 <= b < 256

  type Bytes = seq<byte>

  /** Section 2.3 of RFC 3986. */
  predicate Unreserved(c: char) {
    'A' <= c <= 'Z' || 'a' <= c <= 'z' || '0' <= c <= '9' || c == '-' || c == '.' || c == '_' || c == '~'
  }

  /** An uppercase hexadecimal digit. */
  function HexDigit(n: int): (c: char)
    requires 0 <= n < 16
    ensures '0' <= c <= '9' || 'A' <= c <= 'F'
  {
    if n < 10 then (n + '0' as int) as char else (n - 10 + 'A' as int) as char
  }

  /** Section 2.1 of RFC 3986: hexadecimal digits of either case. */
  function HexValue(c: char): (r: Option<int>)
    ensures r.Some? ==> 0 <= r.value < 16
  {
    if '0' <= c <= '9' then Some(c as int - '0' as int)
    else if 'A' <= c <= 'F' then Some(c as int - 'A' as int + 10)
    else if 'a' <= c <= 'f' then Some(c as int - 'a' as int + 10)
    else None
  }

  function EncodeByte(b: byte): string {
    if b as int < 128 && Unreserved(b as int as char) then [b as int as char]
    else ['%', HexDigit(b as int / 16), HexDigit(b as int % 16)]
  }

  function EncodeOf(s: Bytes): string {
    if s == [] then "" else EncodeByte(s[0]) + EncodeOf(s[1..])
  }

  lemma {:induction false} EncodeAppend(a: Bytes, b: Bytes)
    ensures EncodeOf(a + b) == EncodeOf(a) + EncodeOf(b)
  {
    if a == [] {
      assert a + b == b;
    } else {
      assert (a + b)[1..] == a[1..] + b;
      EncodeAppend(a[1..], b);
      assert EncodeByte(a[0]) + (EncodeOf(a[1..]) + EncodeOf(b)) == EncodeByte(a[0]) + EncodeOf(a[1..]) + EncodeOf(b);
    }
  }

  method PercentEncode(s: Bytes) returns (out: string)
    ensures out == EncodeOf(s)
  {
    hide EncodeByte;
    out := "";
    for i := 0 to |s|
      invariant out == EncodeOf(s[..i])
    {
      var b := s[i];
      EncodeAppend(s[..i], [b]);
      assert s[..i + 1] == s[..i] + [b] && [b][1..] == [];
      if b as int < 128 && Unreserved(b as int as char) {
        out := out + [b as int as char];
      } else {
        out := out + ['%', HexDigit(b as int / 16), HexDigit(b as int % 16)];
      }
      EncodeByteIs(b);
    }
    assert s[..|s|] == s;
  }

  lemma EncodeByteIs(b: byte)
    ensures EncodeByte(b) == if b as int < 128 && Unreserved(b as int as char) then [b as int as char]
                             else ['%', HexDigit(b as int / 16), HexDigit(b as int % 16)]
    ensures EncodeOf([b]) == EncodeByte(b)
  {
    assert [b][1..] == [];
  }

  /** What an encoded value may consist of: unreserved characters and whole triplets. */
  predicate WellEncoded(s: string) {
    if s == "" then true
    else if s[0] == '%' then |s| >= 3 && HexValue(s[1]).Some? && HexValue(s[2]).Some? && WellEncoded(s[3..])
    else Unreserved(s[0]) && WellEncoded(s[1..])
  }

  /** RFC 3986 decoding of a query value; refuses anything not well encoded. */
  function Decode(s: string): Option<Bytes> {
    if s == "" then Some([])
    else if s[0] == '%' then
      if |s| < 3 || HexValue(s[1]).None? || HexValue(s[2]).None? then None
      else
        var rest := Decode(s[3..]);
        if rest.None? then None else Some([(16 * HexValue(s[1]).value + HexValue(s[2]).value) as byte] + rest.value)
    else if !Unreserved(s[0]) then None
    else
      var rest := Decode(s[1..]);
      if rest.None? then None else Some([s[0] as int as byte] + rest.value)
  }

  /** For every byte string: decoding undoes encoding, and no separator or bare `%` appears. */
  lemma {:induction false} DecodeUndoesEncode(s: Bytes)
    ensures WellEncoded(EncodeOf(s)) && Decode(EncodeOf(s)) == Some(s)
    ensures forall i :: 0 <= i < |EncodeOf(s)| ==> EncodeOf(s)[i] == '%' || Unreserved(EncodeOf(s)[i])
  {
    if s != [] {
      DecodeUndoesEncode(s[1..]);
      var e, rest := EncodeOf(s), EncodeOf(s[1..]);
      assert s == [s[0]] + s[1..];
      if s[0] as int < 128 && Unreserved(s[0] as int as char) {
        assert e[1..] == rest;
      } else {
        assert e[3..] == rest;
        assert e[0] == '%';
      }
    }
  }

  /** The decoder accepts exactly the well-encoded strings. */
  lemma {:induction false} DecodeIffWellEncoded(s: string)
    ensures Decode(s).Some? <==> WellEncoded(s)
  {
    if s != "" {
      if s[0] == '%' {
        if |s| >= 3 { DecodeIffWellEncoded(s[3..]); }
      } else {
        DecodeIffWellEncoded(s[1..]);
      }
    }
  }

  const HEX_DIGITS := "0123456789" + "ABCDEF"

  lemma HexDigitIs(n: int)
    requires 0 <= n < 16
    ensures HexDigit(n) == HEX_DIGITS[n]
  {
    DigitsInOrder();
    assert HEX_DIGITS == DIGITS + "ABCDEF";
    var s := "ABCDEF";
    assert s[0] == 'A' && s[1] == 'B' && s[2] == 'C' && s[3] == 'D' && s[4] == 'E' && s[5] == 'F';
  }

  /** Letters, digits and four marks stand for themselves; every other byte is a triplet in capitals. */
  lemma EncodeByteSpelled(b: byte)
    ensures var c := b as int as char;
            EncodeOf([b]) ==
              if c in UPPER || c in LOWER || c in DIGITS || c == '-' || c == '.' || c == '_' || c == '~' then [c]
              else ['%', HEX_DIGITS[b as int / 16], HEX_DIGITS[b as int % 16]]
  {
    hide DIGITS, UPPER, LOWER, HEX_DIGITS;
    Members(b as int as char);
    HexDigitIs(b as int / 16);
    HexDigitIs(b as int % 16);
    EncodeByteIs(b);
  }

  // ---- the report URL -----------------------------------------------------------------

  const REPORT_HOST := "https://github.com/"
  const REPORT_FORM := "aegis-boot/aegis-boot/issues/new"
  const REPORT_TEMPLATE := "?template=hardware-report.yml"
  const REPORT_BASE := REPORT_HOST + REPORT_FORM + REPORT_TEMPLATE

  datatype Report = Report(vendor: Option<Bytes>, model: Option<Bytes>, firmware: Option<Bytes>, toolVersion: Bytes)

  function Field(key: string, value: Option<Bytes>): seq<string> {
    if value.Some? then [key + EncodeOf(value.value)] else []
  }

  /** The `&`-separated parts after the fixed base. */
  function Parts(r: Report): seq<string> {
    Field("vendor=", r.vendor) + Field("model=", r.model) + Field("firmware=", r.firmware) +
    ["aegis-version=v" + EncodeOf(r.toolVersion)]
  }

  function UrlOf(r: Report): string {
    Join([REPORT_BASE] + Parts(r), '&')
  }

  method BuildHardwareReportUrl(vendor: Option<Bytes>, model: Option<Bytes>, firmware: Option<Bytes>, toolVersion: Bytes)
    returns (url: string)
    ensures url == UrlOf(Report(vendor, model, firmware, toolVersion))
  {
    hide EncodeOf, Join;
    url := REPORT_BASE;
    JoinOne(REPORT_BASE);
    ghost var parts := [REPORT_BASE];
    if vendor.Some? {
      url := url + "&vendor=";
      var v := PercentEncode(vendor.value);
      PushPart(parts, "&vendor=", "vendor=", v);
      url := url + v;
    }
    parts := parts + Field("vendor=", vendor);
    assert url == Join(parts, '&') by { NothingMore(); }
    if model.Some? {
      url := url + "&model=";
      var m := PercentEncode(model.value);
      PushPart(parts, "&model=", "model=", m);
      url := url + m;
    }
    parts := parts + Field("model=", model);
    assert url == Join(parts, '&') by { NothingMore(); }
    if firmware.Some? {
      url := url + "&firmware=";
      var f := PercentEncode(firmware.value);
      PushPart(parts, "&firmware=", "firmware=", f);
      url := url + f;
    }
    parts := parts + Field("firmware=", firmware);
    assert url == Join(parts, '&') by { NothingMore(); }
    url := url + "&aegis-version=v";
    var t := PercentEncode(toolVersion);
    PushPart(parts, "&aegis-version=v", "aegis-version=v", t);
    url := url + t;
    assert parts + ["aegis-version=v" + t] == [REPORT_BASE] + Parts(Report(vendor, model, firmware, toolVersion));
  }

  /** Pushing `&key` and then a value appends one part. */
  lemma PushPart(parts: seq<string>, separated: string, key: string, value: string)
    requires parts != [] && separated == "&" + key
    ensures Join(parts, '&') + separated + value == Join(parts + [key + value], '&')
  {
    JoinAppend(parts, [key + value], '&');
    JoinOne(key + value);
  }

  lemma NothingMore()
    ensures forall parts: seq<string> :: parts + [] == parts
  {
  }

  lemma JoinOne(s: string)
    ensures Join([s], '&') == s
  {
  }

  // ---- reading it back ---------------------------------------------------------------------

  function Lookup(parts: seq<string>, key: string): Option<string> {
    if parts == [] then None
    else if StartsWith(parts[0], key) then Some(parts[0][|key|..])
    else Lookup(parts[1..], key)
  }

  function DecodeField(parts: seq<string>, key: string): Option<Bytes> {
    match Lookup(parts, key)
    case None => None
    case Some(text) => Decode(text)
  }

  /** Split the URL at `&`, look each key up and decode its value. */
  function ReadUrl(url: string): Option<Report> {
    var parts := Split(url, '&');
    var version := DecodeField(parts, "aegis-version=v");
    if parts[0] != REPORT_BASE || version.None? then None
    else Some(Report(DecodeField(parts, "vendor="), DecodeField(parts, "model="), DecodeField(parts, "firmware="), version.value))
  }

  lemma NoAmpersand(key: string, value: Bytes)
    requires '&' !in key
    ensures '&' !in key + EncodeOf(value)
  {
    hide EncodeOf, Decode, WellEncoded;
    DecodeUndoesEncode(value);
    var e := EncodeOf(value);
    forall i | 0 <= i < |key + e| ensures (key + e)[i] != '&' {
      if i < |key| { assert key[i] in key; } else { assert (key + e)[i] == e[i - |key|]; }
    }
  }

  lemma BaseHasNoAmpersand()
    ensures '&' !in REPORT_BASE && REPORT_BASE != "" && REPORT_BASE[0] == 'h'
  {
    assert '&' !in REPORT_HOST && '&' !in REPORT_FORM && '&' !in REPORT_TEMPLATE;
    assert REPORT_HOST[0] == 'h';
  }

  lemma FieldHasNoAmpersand(key: string, value: Option<Bytes>)
    requires '&' !in key
    ensures forall part | part in Field(key, value) :: '&' !in part
  {
    hide EncodeOf;
    if value.Some? { NoAmpersand(key, value.value); }
  }

  lemma PartsHaveNoAmpersand(r: Report)
    ensures forall part | part in [REPORT_BASE] + Parts(r) :: '&' !in part
  {
    hide EncodeOf, Field;
    BaseHasNoAmpersand();
    FieldHasNoAmpersand("vendor=", r.vendor);
    FieldHasNoAmpersand("model=", r.model);
    FieldHasNoAmpersand("firmware=", r.firmware);
    NoAmpersand("aegis-version=v", r.toolVersion);
  }

  lemma {:induction false} LookupAppend(a: seq<string>, b: seq<string>, key: string)
    ensures Lookup(a + b, key) == if Lookup(a, key).Some? then Lookup(a, key) else Lookup(b, key)
  {
    hide StartsWith;
    if a == [] {
      assert a + b == b;
    } else {
      assert (a + b)[1..] == a[1..] + b;
      LookupAppend(a[1..], b, key);
    }
  }

  /** A field answers to its own key and to no key with another first character. */
  lemma LookupField(own: string, value: Option<Bytes>, key: string)
    requires own != "" && key != ""
    ensures own == key ==> Lookup(Field(own, value), key) == if value.Some? then Some(EncodeOf(value.value)) else None
    ensures own[0] != key[0] ==> Lookup(Field(own, value), key).None?
  {
    hide EncodeOf;
    if value.Some? {
      var part := own + EncodeOf(value.value);
      assert own == key ==> part[..|key|] == key && part[|key|..] == EncodeOf(value.value);
      assert |key| <= |part| ==> part[..|key|][0] == own[0];
      var nothing: seq<string> := [];
      assert [part][1..] == nothing;
    }
  }

  lemma LookupMiss(part: string, key: string)
    requires part != "" && key != "" && part[0] != key[0]
    ensures Lookup([part], key).None?
  {
    var nothing: seq<string> := [];
    assert [part][1..] == nothing;
    assert |key| <= |part| ==> part[..|key|][0] == part[0];
  }

  /** Looking a key up in the whole list finds its own field, if it was given. */
  lemma LookupPart(r: Report, key: string)
    requires key == "vendor=" || key == "model=" || key == "firmware=" || key == "aegis-version=v"
    ensures var given := if key == "vendor=" then r.vendor else if key == "model=" then r.model
                         else if key == "firmware=" then r.firmware else Some(r.toolVersion);
            Lookup([REPORT_BASE] + Parts(r), key) == if given.Some? then Some(EncodeOf(given.value)) else None
  {
    hide EncodeOf, Lookup, Field;
    var v, m, f := Field("vendor=", r.vendor), Field("model=", r.model), Field("firmware=", r.firmware);
    var t := Field("aegis-version=v", Some(r.toolVersion));
    assert t == ["aegis-version=v" + EncodeOf(r.toolVersion)] by { FieldGiven("aegis-version=v", r.toolVersion); }
    BaseHasNoAmpersand();
    LookupMiss(REPORT_BASE, key);
    LookupField("vendor=", r.vendor, key);
    LookupField("model=", r.model, key);
    LookupField("firmware=", r.firmware, key);
    LookupField("aegis-version=v", Some(r.toolVersion), key);
    LookupAppend([REPORT_BASE], v + m + f + t, key);
    LookupAppend(v + m + f, t, key);
    LookupAppend(v + m, f, key);
    LookupAppend(v, m, key);
  }

  lemma FieldGiven(key: string, value: Bytes)
    ensures Field(key, Some(value)) == [key + EncodeOf(value)]
  {
  }

  /** Reading the URL back gives exactly the optional fields that were given, and their values. */
  lemma ReportRoundTrip(r: Report)
    ensures ReadUrl(UrlOf(r)) == Some(r)
  {
    hide EncodeOf, Decode, Lookup, Parts, Split, Join;
    PartsHaveNoAmpersand(r);
    assert forall i :: 0 <= i < |[REPORT_BASE] + Parts(r)| ==> ([REPORT_BASE] + Parts(r))[i] in [REPORT_BASE] + Parts(r);
    SplitOfJoin([REPORT_BASE] + Parts(r), '&');
    LookupPart(r, "vendor=");
    LookupPart(r, "model=");
    LookupPart(r, "firmware=");
    LookupPart(r, "aegis-version=v");
    KeysDiffer();
    DecodeUndoesEncode(r.toolVersion);
    if r.vendor.Some? { DecodeUndoesEncode(r.vendor.value); }
    if r.model.Some? { DecodeUndoesEncode(r.model.value); }
    if r.firmware.Some? { DecodeUndoesEncode(r.firmware.value); }
  }

  lemma KeysDiffer()
    ensures "vendor=" != "model=" && "vendor=" != "firmware=" && "vendor=" != "aegis-version=v"
    ensures "model=" != "firmware=" && "model=" != "aegis-version=v" && "firmware=" != "aegis-version=v"
  {
  }

  /** The URL as it is typed: the form's address, then the given fields in order, each under its key. */
  lemma UrlSpelled(r: Report)
    ensures UrlOf(r) ==
            "https://github.com/" + "aegis-boot/aegis-boot/issues/new" + "?template=hardware-report.yml" +
            (if r.vendor.Some? then "&vendor=" + EncodeOf(r.vendor.value) else "") +
            (if r.model.Some? then "&model=" + EncodeOf(r.model.value) else "") +
            (if r.firmware.Some? then "&firmware=" + EncodeOf(r.firmware.value) else "") +
            "&aegis-version=v" + EncodeOf(r.toolVersion)
  {
    hide EncodeOf, Join, REPORT_BASE;
    var parts := [REPORT_BASE];
    JoinOne(REPORT_BASE);
    OneField(parts, "&vendor=", "vendor=", r.vendor);
    OneField(parts + Field("vendor=", r.vendor), "&model=", "model=", r.model);
    OneField(parts + Field("vendor=", r.vendor) + Field("model=", r.model), "&firmware=", "firmware=", r.firmware);
    var all := parts + Field("vendor=", r.vendor) + Field("model=", r.model) + Field("firmware=", r.firmware);
    PushPart(all, "&aegis-version=v", "aegis-version=v", EncodeOf(r.toolVersion));
    assert all + ["aegis-version=v" + EncodeOf(r.toolVersion)] == [REPORT_BASE] + Parts(r);
    BaseSpelled();
  }

  lemma BaseSpelled()
    ensures REPORT_BASE == "https://github.com/" + "aegis-boot/aegis-boot/issues/new" + "?template=hardware-report.yml"
  {
  }

  lemma OneField(parts: seq<string>, separated: string, key: string, value: Option<Bytes>)
    requires parts != [] && separated == "&" + key
    ensures Join(parts + Field(key, value), '&') ==
            Join(parts, '&') + if value.Some? then separated + EncodeOf(value.value) else ""
  {
    hide EncodeOf, Join;
    NothingMore();
    if value.Some? {
      PushPart(parts, separated, key, EncodeOf(value.value));
    }
  }
}
