/**
 * `urlForQueryAndPage`: five fixed search parameters and the page number,
 * overlaid with one caller-supplied key/value pair, rendered as
 * `key=encodeURIComponent(value)` pairs joined by `&` after the fixed API
 * address. A parser of that query string is the partner of the renderer.
 */
module Query {
  import opened Wrappers
  import opened UriEncoding
  import opened PropertyTable

  const API_BASE: string := "https://api.nestoria.co.uk/api?"

  /** The parameter names in the order the literal creates them. */
  const FIXED_KEYS: seq<string> := ["country", "pretty", "encoding", "listing_type", "action", "page"]

  /** The object literal of the source, with the page number already turned into its numeral. */
  function Defaults(pageNumber: nat): (t: Table)
    ensures |t| == 6 && forall i :: 0 <= i < 6 ==> t[i].key == FIXED_KEYS[i]
  {
    [ Property("country", "uk"),
      Property("pretty", "1"),
      Property("encoding", "json"),
      Property("listing_type", "buy"),
      Property("action", "search_listings"),
      Property("page", DecimalString(pageNumber)) ]
  }

  /** The parameters in the order the query string lists them. */
  function Parameters(key: string, value: string, pageNumber: nat): Table {
    OwnProperties(Assign(Defaults(pageNumber), key, value))
  }

  /** One `name=value` pair: the name verbatim, then `=`, then the encoded value. */
  function RenderProperty(p: Property): (r: string)
    ensures |r| > |p.key| && r[..|p.key|] == p.key && r[|p.key|] == '='
  {
    var r := p.key + "=" + EncodeUriComponent(p.value);
    assert r[..|p.key|] == p.key;
    r
  }

  function RenderAll(t: Table): (parts: seq<string>)
    ensures |parts| == |t|
  {
    if t == [] then [] else [RenderProperty(t[0])] + RenderAll(t[1..])
  }

  /** Array.prototype.join: the parts with one separator between neighbours. */
  function Join(parts: seq<string>, sep: char): string {
    if |parts| == 0 then []
    else if |parts| == 1 then parts[0]
    else parts[0] + [sep] + Join(parts[1..], sep)
  }

  function QueryString(key: string, value: string, pageNumber: nat): string {
    Join(RenderAll(Parameters(key, value, pageNumber)), '&')
  }

  /** urlForQueryAndPage: the fixed API address followed by the query string. */
  function UrlForQueryAndPage(key: string, value: string, pageNumber: nat): (url: string)
    ensures |url| > |API_BASE| && url[..|API_BASE|] == API_BASE
    ensures RemovePrefix(url, API_BASE) == Some(QueryString(key, value, pageNumber))
  {
    ParametersShape(key, value, pageNumber);
    JoinNonEmpty(RenderAll(Parameters(key, value, pageNumber)), '&');
    var url := API_BASE + QueryString(key, value, pageNumber);
    assert url[..|API_BASE|] == API_BASE;
    url
  }

  // ---------------------------------------------------------------------
  // Where each parameter ends up

  lemma DefaultsFacts(pageNumber: nat)
    ensures Keys(Defaults(pageNumber)) == FIXED_KEYS
    ensures DistinctKeys(Defaults(pageNumber))
    ensures NoIndexKeys(Defaults(pageNumber))
  {
    KeysAt(Defaults(pageNumber));
    FixedKeysAreNamed(Defaults(pageNumber));
  }

  /** None of the fixed names is an array index. */
  lemma FixedKeysAreNamed(t: Table)
    requires |t| == 6 && forall i :: 0 <= i < 6 ==> t[i].key == FIXED_KEYS[i]
    ensures NoIndexKeys(t)
  {
    forall i | 0 <= i < 6 ensures !IsArrayIndex(t[i].key) {
      assert !IsDigit(FIXED_KEYS[i][0]);
    }
  }

  /** Overriding a fixed name keeps its position and changes only its value. */
  lemma ParametersOverrideFixed(key: string, value: string, pageNumber: nat, i: nat)
    requires i < 6 && FIXED_KEYS[i] == key
    ensures Parameters(key, value, pageNumber) == Defaults(pageNumber)[i := Property(key, value)]
    ensures Keys(Parameters(key, value, pageNumber)) == FIXED_KEYS
  {
    DefaultsFacts(pageNumber);
    assert key != PROTO_KEY;
    AssignExisting(Defaults(pageNumber), i, value);
    KeysUpdate(Defaults(pageNumber), i, value);
  }

  /** Assigning to `__proto__` leaves the parameters as the literal has them. */
  lemma ParametersProto(value: string, pageNumber: nat)
    ensures Parameters(PROTO_KEY, value, pageNumber) == Defaults(pageNumber)
    ensures Keys(Parameters(PROTO_KEY, value, pageNumber)) == FIXED_KEYS
  {
    DefaultsFacts(pageNumber);
    AssignProto(Defaults(pageNumber), value);
  }

  /** An array-index name is listed before the fixed parameters. */
  lemma ParametersIndexKey(key: string, value: string, pageNumber: nat)
    requires key !in FIXED_KEYS && IsArrayIndex(key)
    ensures Parameters(key, value, pageNumber) == [Property(key, value)] + Defaults(pageNumber)
    ensures Keys(Parameters(key, value, pageNumber)) == [key] + FIXED_KEYS
  {
    DefaultsFacts(pageNumber);
    AssignIndex(Defaults(pageNumber), key, value);
    KeysAppend([Property(key, value)], Defaults(pageNumber));
  }

  /** Any other new name is listed after the fixed parameters. */
  lemma ParametersNamedKey(key: string, value: string, pageNumber: nat)
    requires key !in FIXED_KEYS && key != PROTO_KEY && !IsArrayIndex(key)
    ensures Parameters(key, value, pageNumber) == Defaults(pageNumber) + [Property(key, value)]
    ensures Keys(Parameters(key, value, pageNumber)) == FIXED_KEYS + [key]
  {
    DefaultsFacts(pageNumber);
    NamedKeyAfterFixed(Defaults(pageNumber), key, value);
  }

  lemma NamedKeyAfterFixed(d: Table, key: string, value: string)
    requires Keys(d) == FIXED_KEYS && NoIndexKeys(d)
    requires key !in FIXED_KEYS && key != PROTO_KEY && !IsArrayIndex(key)
    ensures OwnProperties(Assign(d, key, value)) == d + [Property(key, value)]
    ensures Keys(d + [Property(key, value)]) == FIXED_KEYS + [key]
  {
    AssignNamed(d, key, value);
    KeysAppend(d, [Property(key, value)]);
  }

  /** The position of a fixed name. */
  function FixedIndex(key: string): (i: nat)
    requires key in FIXED_KEYS
    ensures i < 6 && FIXED_KEYS[i] == key
  {
    if key == "country" then 0
    else if key == "pretty" then 1
    else if key == "encoding" then 2
    else if key == "listing_type" then 3
    else if key == "action" then 4
    else 5
  }

  /**
   * Where every parameter ends up: an override of a fixed name keeps that
   * position and only its value changes; `__proto__` changes nothing; an
   * array-index name comes first; any other name comes last.
   */
  lemma ParametersShape(key: string, value: string, pageNumber: nat)
    ensures var t := Parameters(key, value, pageNumber);
      if key in FIXED_KEYS then t == Defaults(pageNumber)[FixedIndex(key) := Property(key, value)]
      else if key == PROTO_KEY then t == Defaults(pageNumber)
      else if IsArrayIndex(key) then t == [Property(key, value)] + Defaults(pageNumber)
      else t == Defaults(pageNumber) + [Property(key, value)]
  {
    if key in FIXED_KEYS {
      ParametersOverrideFixed(key, value, pageNumber, FixedIndex(key));
    } else if key == PROTO_KEY {
      ParametersProto(value, pageNumber);
    } else if IsArrayIndex(key) {
      ParametersIndexKey(key, value, pageNumber);
    } else {
      ParametersNamedKey(key, value, pageNumber);
    }
  }

  /**
   * The names in query order: the fixed names in the literal's order, with
   * the caller's name in front when it is an array index and at the end
   * when it is any other new name.
   */
  lemma ParametersKeyOrder(key: string, value: string, pageNumber: nat)
    ensures Keys(Parameters(key, value, pageNumber)) ==
      if key in FIXED_KEYS || key == PROTO_KEY then FIXED_KEYS
      else if IsArrayIndex(key) then [key] + FIXED_KEYS
      else FIXED_KEYS + [key]
  {
    if key in FIXED_KEYS {
      ParametersOverrideFixed(key, value, pageNumber, FixedIndex(key));
    } else if key == PROTO_KEY {
      ParametersProto(value, pageNumber);
    } else if IsArrayIndex(key) {
      ParametersIndexKey(key, value, pageNumber);
    } else {
      ParametersNamedKey(key, value, pageNumber);
    }
  }

  /**
   * Six parameters when the override names a fixed parameter (or is
   * `__proto__`), seven otherwise; no name appears twice.
   */
  lemma ParametersCount(key: string, value: string, pageNumber: nat)
    ensures |Parameters(key, value, pageNumber)| == if key in FIXED_KEYS || key == PROTO_KEY then 6 else 7
    ensures DistinctKeys(Parameters(key, value, pageNumber))
  {
    ParametersKeyOrder(key, value, pageNumber);
    DefaultsFacts(pageNumber);
    DistinctKeysOf(Defaults(pageNumber));
    DistinctKeysOf(Parameters(key, value, pageNumber));
    if key !in FIXED_KEYS {
      DistinctExtend(FIXED_KEYS, key);
    }
  }

  /**
   * The value each name carries: the override's own value, and the fixed
   * defaults for every fixed name it does not override (the page as the
   * decimal numeral of the page number); no other name is present.
   */
  lemma ParametersValues(key: string, value: string, pageNumber: nat)
    ensures var t := Parameters(key, value, pageNumber);
      && (key != PROTO_KEY ==> Lookup(t, key) == Some(value))
      && (key != "country" ==> Lookup(t, "country") == Some("uk"))
      && (key != "pretty" ==> Lookup(t, "pretty") == Some("1"))
      && (key != "encoding" ==> Lookup(t, "encoding") == Some("json"))
      && (key != "listing_type" ==> Lookup(t, "listing_type") == Some("buy"))
      && (key != "action" ==> Lookup(t, "action") == Some("search_listings"))
      && (key != "page" ==> Lookup(t, "page") == Some(DecimalString(pageNumber)))
      && (forall k :: k !in FIXED_KEYS && k != key ==> Lookup(t, k) == None)
  {
    var d := Defaults(pageNumber);
    DefaultsFacts(pageNumber);
    var a := Assign(d, key, value);
    if key != PROTO_KEY {
      PutDistinct(d, key, value);
    }
    LookupOwnProperties(a);
    DefaultsLookup(pageNumber);
  }

  lemma DefaultsLookup(pageNumber: nat)
    ensures var d := Defaults(pageNumber);
      && Lookup(d, "country") == Some("uk")
      && Lookup(d, "pretty") == Some("1")
      && Lookup(d, "encoding") == Some("json")
      && Lookup(d, "listing_type") == Some("buy")
      && Lookup(d, "action") == Some("search_listings")
      && Lookup(d, "page") == Some(DecimalString(pageNumber))
      && (forall k :: k !in FIXED_KEYS ==> Lookup(d, k) == None)
  {
    var d := Defaults(pageNumber);
    DefaultsFacts(pageNumber);
    LookupDistinct(d, d[0]);
    LookupDistinct(d, d[1]);
    LookupDistinct(d, d[2]);
    LookupDistinct(d, d[3]);
    LookupDistinct(d, d[4]);
    LookupDistinct(d, d[5]);
  }

  // ---------------------------------------------------------------------
  // Parsing the query string back

  function RemovePrefix(s: string, prefix: string): (r: Option<string>)
    ensures r.Some? <==> |prefix| <= |s| && s[..|prefix|] == prefix
    ensures r.Some? ==> s == prefix + r.value
  {
    if |prefix| <= |s| && s[..|prefix|] == prefix then Some(s[|prefix|..]) else None
  }

  /** String.prototype.split with a one-character separator. */
  function Split(s: string, sep: char): (parts: seq<string>)
    ensures |parts| > 0
  {
    if s == [] then [[]]
    else
      var rest := Split(s[1..], sep);
      if s[0] == sep then [[]] + rest else [[s[0]] + rest[0]] + rest[1..]
  }

  /** The text before and after the first `sep`, if there is one. */
  function SplitAtFirst(s: string, sep: char): Option<(string, string)> {
    if s == [] then None
    else if s[0] == sep then Some(([], s[1..]))
    else match SplitAtFirst(s[1..], sep)
      case None => None
      case Some((before, after)) => Some(([s[0]] + before, after))
  }

  function ParseProperty(part: string): Option<Property> {
    match SplitAtFirst(part, '=')
    case None => None
    case Some((k, encoded)) =>
      match DecodeUriComponent(encoded)
      case None => None
      case Some(v) => Some(Property(k, v))
  }

  function ParseProperties(parts: seq<string>): Option<Table> {
    if parts == [] then Some([])
    else match (ParseProperty(parts[0]), ParseProperties(parts[1..]))
      case (Some(p), Some(t)) => Some([p] + t)
      case _ => None
  }

  /** Reads a query string back into its parameters. */
  function ParseQuery(q: string): Option<Table> {
    ParseProperties(Split(q, '&'))
  }

  /** Reads a URL back into its parameters, if it has the API address in front. */
  function ParseUrl(url: string): Option<Table> {
    match RemovePrefix(url, API_BASE)
    case None => None
    case Some(q) => ParseQuery(q)
  }

  lemma {:induction false} SplitAtFirstAppend(a: string, sep: char, b: string)
    requires sep !in a
    ensures SplitAtFirst(a + [sep] + b, sep) == Some((a, b))
  {
    if a == [] {
      assert a + [sep] + b == [sep] + b;
    } else {
      assert (a + [sep] + b)[1..] == a[1..] + [sep] + b;
      SplitAtFirstAppend(a[1..], sep, b);
      assert [a[0]] + a[1..] == a;
    }
  }

  lemma {:induction false} SplitNoSeparator(a: string, sep: char)
    requires sep !in a
    ensures Split(a, sep) == [a]
  {
    if a != [] {
      SplitNoSeparator(a[1..], sep);
      assert [a[0]] + a[1..] == a;
    }
  }

  lemma {:induction false} SplitAppend(a: string, sep: char, b: string)
    requires sep !in a
    ensures Split(a + [sep] + b, sep) == [a] + Split(b, sep)
  {
    if a == [] {
      assert a + [sep] + b == [sep] + b;
      assert ([sep] + b)[1..] == b;
    } else {
      assert (a + [sep] + b)[1..] == a[1..] + [sep] + b;
      SplitAppend(a[1..], sep, b);
      assert [a[0]] + a[1..] == a;
    }
  }

  /** Splitting a join gives back the parts, when none of them holds the separator. */
  lemma {:induction false} SplitJoin(parts: seq<string>, sep: char)
    requires |parts| > 0
    requires forall i :: 0 <= i < |parts| ==> sep !in parts[i]
    ensures Split(Join(parts, sep), sep) == parts
  {
    if |parts| == 1 {
      SplitNoSeparator(parts[0], sep);
    } else {
      SplitJoin(parts[1..], sep);
      SplitAppend(parts[0], sep, Join(parts[1..], sep));
      assert [parts[0]] + parts[1..] == parts;
    }
  }

  lemma {:induction false} JoinNonEmpty(parts: seq<string>, sep: char)
    requires |parts| > 0 && |parts[0]| > 0
    ensures |Join(parts, sep)| > 0
  {
  }

  predicate PlainKey(k: string) {
    '&' !in k && '=' !in k
  }

  lemma ParseRenderedProperty(p: Property)
    requires PlainKey(p.key)
    ensures ParseProperty(RenderProperty(p)) == Some(p)
  {
    assert RenderProperty(p) == p.key + ['='] + EncodeUriComponent(p.value);
    SplitAtFirstAppend(p.key, '=', EncodeUriComponent(p.value));
    DecodeEncodeRoundTrip(p.value);
  }

  lemma {:induction false} ParseRenderedAll(t: Table)
    requires forall i :: 0 <= i < |t| ==> PlainKey(t[i].key)
    ensures ParseProperties(RenderAll(t)) == Some(t)
    ensures forall i :: 0 <= i < |t| ==> '&' !in RenderAll(t)[i]
  {
    if t != [] {
      ParseRenderedProperty(t[0]);
      ParseRenderedAll(t[1..]);
      assert RenderAll(t)[1..] == RenderAll(t[1..]);
      assert [t[0]] + t[1..] == t;
      forall i | 0 <= i < |t| ensures '&' !in RenderAll(t)[i] {
        if i == 0 {
          assert RenderAll(t)[0] == t[0].key + "=" + EncodeUriComponent(t[0].value);
        } else {
          assert RenderAll(t)[i] == RenderAll(t[1..])[i - 1];
        }
      }
    }
  }

  /** A table of plain names renders to a query string that reads back to it. */
  lemma TableRoundTrip(t: Table)
    requires |t| > 0
    requires forall i :: 0 <= i < |t| ==> PlainKey(t[i].key)
    ensures ParseQuery(Join(RenderAll(t), '&')) == Some(t)
  {
    ParseRenderedAll(t);
    SplitJoin(RenderAll(t), '&');
  }

  /**
   * Reading the query string back gives exactly the parameters, in order,
   * with their original values: each name once, values decoded, pairs
   * separated by single `&`. The names are emitted verbatim, so this holds
   * when the caller's name holds neither `&` nor `=`.
   */
  lemma QueryStringRoundTrip(key: string, value: string, pageNumber: nat)
    requires PlainKey(key)
    ensures ParseQuery(QueryString(key, value, pageNumber)) == Some(Parameters(key, value, pageNumber))
  {
    var t := Parameters(key, value, pageNumber);
    ParametersKeyOrder(key, value, pageNumber);
    PlainNames(t, key);
    TableRoundTrip(t);
  }

  /**
   * The query string is the rendered pairs separated by single `&`: cutting
   * it at each `&` gives the pairs back, each of them holding its `=`, so
   * there is no leading, trailing or doubled separator.
   */
  lemma QueryStringPairs(key: string, value: string, pageNumber: nat)
    requires PlainKey(key)
    ensures var t := Parameters(key, value, pageNumber);
      var parts := Split(QueryString(key, value, pageNumber), '&');
      && parts == RenderAll(t)
      && forall i :: 0 <= i < |parts| ==> parts[i] == RenderProperty(t[i]) && '=' in parts[i]
  {
    var t := Parameters(key, value, pageNumber);
    ParametersKeyOrder(key, value, pageNumber);
    PlainNames(t, key);
    ParseRenderedAll(t);
    SplitJoin(RenderAll(t), '&');
    RenderAllAt(t);
    forall i | 0 <= i < |t| ensures '=' in RenderProperty(t[i]) {
      assert RenderProperty(t[i])[|t[i].key|] == '=';
    }
  }

  lemma {:induction false} RenderAllAt(t: Table)
    ensures forall i :: 0 <= i < |t| ==> RenderAll(t)[i] == RenderProperty(t[i])
  {
    if t != [] {
      RenderAllAt(t[1..]);
      assert forall i :: 0 < i < |t| ==> RenderAll(t)[i] == RenderAll(t[1..])[i - 1];
    }
  }

  lemma PlainNames(t: Table, key: string)
    requires PlainKey(key)
    requires Keys(t) == FIXED_KEYS || Keys(t) == [key] + FIXED_KEYS || Keys(t) == FIXED_KEYS + [key]
    ensures |t| > 0 && forall i :: 0 <= i < |t| ==> PlainKey(t[i].key)
  {
    KeysAt(t);
    FixedKeysPlain();
    forall i | 0 <= i < |t| ensures PlainKey(t[i].key) {
      assert t[i].key == Keys(t)[i];
      if Keys(t) == FIXED_KEYS {
        assert t[i].key == FIXED_KEYS[i];
      } else if Keys(t) == [key] + FIXED_KEYS {
        assert i == 0 || t[i].key == FIXED_KEYS[i - 1];
      } else {
        assert i == 6 || t[i].key == FIXED_KEYS[i];
      }
    }
  }

  lemma FixedKeysPlain()
    ensures forall j :: 0 <= j < 6 ==> PlainKey(FIXED_KEYS[j])
  {
    forall j | 0 <= j < 6 ensures PlainKey(FIXED_KEYS[j]) {
      var k := FIXED_KEYS[j];
      assert forall c :: c in k ==> 'a' <= c <= 'z' || c == '_';
    }
  }

  /** The whole URL reads back to the parameters. */
  lemma UrlRoundTrip(key: string, value: string, pageNumber: nat)
    requires PlainKey(key)
    ensures ParseUrl(UrlForQueryAndPage(key, value, pageNumber)) == Some(Parameters(key, value, pageNumber))
  {
    QueryStringRoundTrip(key, value, pageNumber);
  }

  /**
   * A new plain name other than an array index is appended: the URL reads
   * back to the fixed parameters with their fixed values, followed by the
   * caller's pair.
   */
  lemma NamedKeyUrl(key: string, value: string, pageNumber: nat)
    requires key !in FIXED_KEYS && key != PROTO_KEY && !IsArrayIndex(key) && PlainKey(key)
    ensures ParseUrl(UrlForQueryAndPage(key, value, pageNumber))
      == Some(Defaults(pageNumber) + [Property(key, value)])
  {
    ParametersNamedKey(key, value, pageNumber);
    UrlRoundTrip(key, value, pageNumber);
  }

  /**
   * The query the search screen asks for reads back to the six fixed
   * parameters followed by the place name.
   */
  lemma PlaceNameUrl(value: string, pageNumber: nat)
    ensures ParseUrl(UrlForQueryAndPage("place_name", value, pageNumber))
      == Some(Defaults(pageNumber) + [Property("place_name", value)])
  {
    assert !IsArrayIndex("place_name") by { assert !IsDigit("place_name"[0]); }
    NamedKeyUrl("place_name", value, pageNumber);
  }
}
