/**
 * The slice of JavaScript's JSON and object semantics the scripts rely on:
 * `JSON.stringify` of strings (the escaping of section 7 of RFC 8259, as
 * ECMAScript's QuoteJSONString performs it) and of compact values, and plain
 * objects as ordered key/value lists whose enumeration order puts array-index
 * keys first, in ascending numeric order, and then the other keys in insertion
 * order.
 */
module Json {
  import opened Common
  import opened Text
  import Sorting

  datatype Json =
    | JNull
    | JBool(b: bool)
    | JInt(n: int)
    | JString(s: string)
    | JArray(items: seq<Json>)
    | JObject(props: seq<(string, Json)>)

  /** A plain object: its own properties in insertion order, keys distinct. */
  type JsObject<V> = seq<(string, V)>

  function HexDigit(n: nat): char
    requires n < 16
  {
    if n < 10 then ('0' as int + n) as char else ('a' as int + n - 10) as char
  }

  predicate IsHexDigit(c: char)
  {
    '0' <= c <= '9' || 'a' <= c <= 'f' || 'A' <= c <= 'F'
  }

  function HexValue(c: char): (r: nat)
    requires IsHexDigit(c)
    ensures r < 16
  {
    if '0' <= c <= '9' then c as int - '0' as int
    else if 'a' <= c <= 'f' then c as int - 'a' as int + 10
    else c as int - 'A' as int + 10
  }

  /** How QuoteJSONString writes one character. */
  function EscapeChar(c: char): string
  {
    if c == '"' then "\\\""
    else if c == '\\' then "\\\\"
    else if c as int == 0x08 then "\\b"
    else if c as int == 0x09 then "\\t"
    else if c as int == 0x0A then "\\n"
    else if c as int == 0x0C then "\\f"
    else if c as int == 0x0D then "\\r"
    else if (c as int) < 0x20 then "\\u00" + [HexDigit(c as int / 16), HexDigit(c as int % 16)]
    else [c]
  }

  function EscapeString(s: string): string
  {
    if s == [] then [] else EscapeChar(s[0]) + EscapeString(s[1..])
  }

  /** `JSON.stringify(s)` for a string `s`. */
  function Quote(s: string): string
  {
    "\"" + EscapeString(s) + "\""
  }

  function Prepend(c: char, r: Option<string>): Option<string>
  {
    if r.Some? then Some([c] + r.value) else None
  }

  /**
   * Decodes the characters between the quotes of a JSON string (section 7 of RFC 8259):
   * fails on an unescaped quote or control character, an unknown escape, or a
   * `\u` escape naming a lone surrogate.
   */
  function Unescape(t: string): Option<string>
    decreases |t|
  {
    if t == [] then Some([])
    else if t[0] == '\\' then
      match EscapeAt(t)
      case None => None
      case Some((c, n)) => Prepend(c, Unescape(t[n..]))
    else if t[0] == '"' || (t[0] as int) < 0x20 then None
    else Prepend(t[0], Unescape(t[1..]))
  }

  /** The character an escape sequence at the start of `t` stands for, and the sequence's length. */
  function EscapeAt(t: string): (r: Option<(char, nat)>)
    requires |t| >= 1 && t[0] == '\\'
    ensures r.Some? ==> 2 <= r.value.1 <= |t|
  {
    if |t| < 2 then None
    else if t[1] == '"' || t[1] == '\\' || t[1] == '/' then Some((t[1], 2))
    else if t[1] == 'b' then Some((0x08 as char, 2))
    else if t[1] == 't' then Some((0x09 as char, 2))
    else if t[1] == 'n' then Some((0x0A as char, 2))
    else if t[1] == 'f' then Some((0x0C as char, 2))
    else if t[1] == 'r' then Some((0x0D as char, 2))
    else if t[1] == 'u' && |t| >= 6 && IsHexDigit(t[2]) && IsHexDigit(t[3]) && IsHexDigit(t[4]) && IsHexDigit(t[5]) then
      var v := CodeUnit(t[2], t[3], t[4], t[5]);
      if 0xD800 <= v < 0xE000 then None else Some((v as char, 6))
    else None
  }

  /** The code unit written by the four hex digits of a `\\u` escape. */
  function CodeUnit(a: char, b: char, c: char, d: char): (r: nat)
    requires IsHexDigit(a) && IsHexDigit(b) && IsHexDigit(c) && IsHexDigit(d)
    ensures r < 0x10000
  {
    var x := HexValue(a) * 4096;
    var y := HexValue(b) * 256;
    assert x <= 15 * 4096 && y <= 15 * 256;
    x + y + HexValue(c) * 16 + HexValue(d)
  }

  /** Reads a JSON string literal back. */
  function Unquote(q: string): Option<string>
  {
    if |q| >= 2 && q[0] == '"' && q[|q| - 1] == '"' then Unescape(q[1..|q| - 1]) else None
  }

  lemma HexRoundTrip(n: nat)
    requires n < 16
    ensures IsHexDigit(HexDigit(n)) && HexValue(HexDigit(n)) == n
  {
  }

  lemma UnescapeOneChar(c: char, rest: string)
    ensures Unescape(EscapeChar(c) + rest) == Prepend(c, Unescape(rest))
  {
    if c != '"' && c != '\\' && !(c as int in {8, 9, 10, 12, 13}) && (c as int) < 0x20 {
      UnescapeControlChar(c, rest);
    } else if (c as int) >= 0x20 && c != '"' && c != '\\' {
      var t := EscapeChar(c) + rest;
      assert t == [c] + rest;
      assert t[1..] == rest;
    } else {
      var t := EscapeChar(c) + rest;
      assert t[2..] == rest;
    }
  }

  /** A control character without a short escape is written `\u00XX` and read back. */
  lemma UnescapeControlChar(c: char, rest: string)
    requires c as int < 0x20 && !(c as int in {8, 9, 10, 12, 13})
    ensures Unescape(EscapeChar(c) + rest) == Prepend(c, Unescape(rest))
  {
    var t := EscapeChar(c) + rest;
    var n := c as int;
    HexRoundTrip(n / 16);
    HexRoundTrip(n % 16);
    assert t[..6] == "\\u00" + [HexDigit(n / 16), HexDigit(n % 16)];
    assert t[6..] == rest;
    assert HexValue(t[2]) == 0 && HexValue(t[3]) == 0;
    assert EscapeAt(t) == Some((c, 6));
  }

  /** Decoding what QuoteJSONString escaped gives the original string back. */
  lemma {:induction false} UnescapeEscapeString(s: string)
    ensures Unescape(EscapeString(s)) == Some(s)
    decreases |s|
  {
    if s != [] {
      UnescapeEscapeString(s[1..]);
      UnescapeOneChar(s[0], EscapeString(s[1..]));
      assert [s[0]] + s[1..] == s;
    }
  }

  /** `JSON.stringify` of a string is read back unchanged by a JSON string parser. */
  lemma QuoteRoundTrip(s: string)
    ensures Unquote(Quote(s)) == Some(s)
  {
    var q := Quote(s);
    assert q[1..|q| - 1] == EscapeString(s);
    UnescapeEscapeString(s);
  }

  /** Distinct strings are quoted differently. */
  lemma QuoteInjective(a: string, b: string)
    requires Quote(a) == Quote(b)
    ensures a == b
  {
    QuoteRoundTrip(a);
    QuoteRoundTrip(b);
  }

  predicate NoControlChars(s: string)
  {
    forall i | 0 <= i < |s| :: (s[i] as int) >= 0x20
  }

  lemma {:induction false} EscapeStringHasNoControlChars(s: string)
    ensures NoControlChars(EscapeString(s))
    decreases |s|
  {
    if s != [] {
      EscapeStringHasNoControlChars(s[1..]);
      var e := EscapeChar(s[0]);
      if (s[0] as int) < 0x20 && !(s[0] as int in {8, 9, 10, 12, 13}) {
        HexRoundTrip(s[0] as int / 16);
        HexRoundTrip(s[0] as int % 16);
      }
      assert NoControlChars(e);
    }
  }

  /** `JSON.stringify` of a value: no spaces, object members in enumeration order. */
  function Stringify(j: Json): string
    decreases j
  {
    match j
    case JNull => "null"
    case JBool(b) => if b then "true" else "false"
    case JInt(n) => if n < 0 then "-" + NatToDecimal(-n) else NatToDecimal(n)
    case JString(s) => Quote(s)
    case JArray(items) =>
      "[" + Join(seq(|items|, i requires 0 <= i < |items| => Stringify(items[i])), ",") + "]"
    case JObject(props) =>
      var ordered := PropertyOrder(props);
      "{" + Join(seq(|ordered|, i requires 0 <= i < |ordered| =>
                   assert ordered[i] in multiset(ordered);
                   Quote(ordered[i].0) + ":" + Stringify(ordered[i].1)), ",") + "}"
  }

  lemma {:induction false} JoinNoControlChars(parts: seq<string>, sep: string)
    requires NoControlChars(sep)
    requires forall i | 0 <= i < |parts| :: NoControlChars(parts[i])
    ensures NoControlChars(Join(parts, sep))
    decreases |parts|
  {
    if |parts| > 1 {
      JoinNoControlChars(parts[1..], sep);
    }
  }

  lemma ScalarNoControlChars(j: Json)
    requires !j.JArray? && !j.JObject?
    ensures NoControlChars(Stringify(j))
  {
    match j
    case JNull =>
    case JBool(b) =>
    case JInt(n) =>
      var d := NatToDecimal(if n < 0 then -n else n);
      assert NoControlChars(d);
      ConcatNoControlChars("-", d);
    case JString(s) =>
      EscapeStringHasNoControlChars(s);
      BracketNoControlChars("\"", EscapeString(s), "\"");
  }

  lemma ArrayNoControlChars(items: seq<Json>)
    requires forall i | 0 <= i < |items| :: NoControlChars(Stringify(items[i]))
    ensures NoControlChars(Stringify(JArray(items)))
  {
    var parts := seq(|items|, i requires 0 <= i < |items| => Stringify(items[i]));
    JoinNoControlChars(parts, ",");
    BracketNoControlChars("[", Join(parts, ","), "]");
  }

  lemma ObjectNoControlChars(props: seq<(string, Json)>)
    requires forall i | 0 <= i < |props| :: NoControlChars(Stringify(props[i].1))
    ensures NoControlChars(Stringify(JObject(props)))
  {
    var ordered := PropertyOrder(props);
    var parts := seq(|ordered|, i requires 0 <= i < |ordered| =>
                   assert ordered[i] in multiset(ordered);
                   Quote(ordered[i].0) + ":" + Stringify(ordered[i].1));
    forall i | 0 <= i < |ordered| ensures NoControlChars(parts[i]) {
      assert ordered[i] in multiset(ordered);
      PropertyNoControlChars(props, ordered[i]);
    }
    JoinNoControlChars(parts, ",");
    BracketNoControlChars("{", Join(parts, ","), "}");
  }

  /** One `"key":value` member of an object whose values have no control characters. */
  lemma PropertyNoControlChars(props: seq<(string, Json)>, p: (string, Json))
    requires forall i | 0 <= i < |props| :: NoControlChars(Stringify(props[i].1))
    requires p in multiset(props)
    ensures NoControlChars(Quote(p.0) + ":" + Stringify(p.1))
  {
    assert p in props;
    ScalarNoControlChars(JString(p.0));
    BracketNoControlChars(Quote(p.0), ":", Stringify(p.1));
  }

  /** Compact `JSON.stringify` output never holds a raw control character, in particular no line break. */
  lemma {:induction false} StringifyHasNoControlChars(j: Json)
    ensures NoControlChars(Stringify(j))
    decreases j
  {
    if j.JArray? {
      forall i | 0 <= i < |j.items| ensures NoControlChars(Stringify(j.items[i])) {
        StringifyHasNoControlChars(j.items[i]);
      }
      ArrayNoControlChars(j.items);
    } else if j.JObject? {
      forall i | 0 <= i < |j.props| ensures NoControlChars(Stringify(j.props[i].1)) {
        assert j.props[i] in j.props;
        StringifyHasNoControlChars(j.props[i].1);
      }
      ObjectNoControlChars(j.props);
    } else {
      ScalarNoControlChars(j);
    }
  }

  lemma ConcatNoControlChars(a: string, b: string)
    requires NoControlChars(a) && NoControlChars(b)
    ensures NoControlChars(a + b)
  {
    forall i | 0 <= i < |a + b| ensures ((a + b)[i] as int) >= 0x20 {
      if i >= |a| {
        assert (a + b)[i] == b[i - |a|];
      }
    }
  }

  lemma BracketNoControlChars(a: string, b: string, c: string)
    requires NoControlChars(a) && NoControlChars(b) && NoControlChars(c)
    ensures NoControlChars(a + b + c)
  {
    ConcatNoControlChars(a, b);
    ConcatNoControlChars(a + b, c);
  }

  // ---- plain objects ----

  function KeysOf<V>(o: JsObject<V>): seq<string>
  {
    seq(|o|, i requires 0 <= i < |o| => o[i].0)
  }

  /** `o[k]`, or None for a missing key. */
  function Get<V>(o: JsObject<V>, k: string): Option<V>
  {
    if o == [] then None else if o[0].0 == k then Some(o[0].1) else Get(o[1..], k)
  }

  /** `o[k] = v`: an existing key keeps its place and takes the new value; a new key is appended. */
  function Set<V>(o: JsObject<V>, k: string, v: V): (r: JsObject<V>)
    ensures Get(r, k) == Some(v)
    ensures forall k' | k' != k :: Get(r, k') == Get(o, k')
    ensures k in KeysOf(o) ==> KeysOf(r) == KeysOf(o)
    ensures k !in KeysOf(o) ==> KeysOf(r) == KeysOf(o) + [k]
  {
    if o == [] then [(k, v)]
    else
      assert o == [o[0]] + o[1..];
      KeysOfCons(o[0], o[1..]);
      if o[0].0 == k then
        var r := [(k, v)] + o[1..];
        KeysOfCons((k, v), o[1..]);
        GetCons((k, v), o[1..]);
        GetCons(o[0], o[1..]);
        r
      else
        var t := Set(o[1..], k, v);
        var r := [o[0]] + t;
        KeysOfCons(o[0], t);
        GetCons(o[0], t);
        GetCons(o[0], o[1..]);
        r
  }

  lemma KeysOfCons<V>(x: (string, V), o: JsObject<V>)
    ensures KeysOf([x] + o) == [x.0] + KeysOf(o)
  {
  }

  lemma GetCons<V>(x: (string, V), o: JsObject<V>)
    ensures forall k :: Get([x] + o, k) == if x.0 == k then Some(x.1) else Get(o, k)
  {
    assert ([x] + o)[0] == x && ([x] + o)[1..] == o;
  }

  lemma {:induction false} GetSome<V>(o: JsObject<V>, k: string)
    ensures Get(o, k).Some? <==> k in KeysOf(o)
    decreases |o|
  {
    if o != [] {
      GetSome(o[1..], k);
      assert KeysOf(o) == [o[0].0] + KeysOf(o[1..]);
    }
  }

  /** Every value of `o` passed through `f`, keys in place. */
  function MapValues<V, W>(o: JsObject<V>, f: V -> W): JsObject<W>
  {
    seq(|o|, i requires 0 <= i < |o| => (o[i].0, f(o[i].1)))
  }

  lemma MapValuesSnoc<V, W>(o: JsObject<V>, k: nat, f: V -> W)
    requires k < |o|
    ensures MapValues(o[..k + 1], f) == MapValues(o[..k], f) + [(o[k].0, f(o[k].1))]
  {
  }

  lemma MapValuesKeys<V, W>(o: JsObject<V>, f: V -> W)
    ensures KeysOf(MapValues(o, f)) == KeysOf(o)
  {
  }

  /** Looking a key up after mapping is mapping the value looked up. */
  lemma {:induction false} GetMapValues<V, W>(o: JsObject<V>, k: string, f: V -> W)
    ensures Get(MapValues(o, f), k) == if Get(o, k).Some? then Some(f(Get(o, k).value)) else None
    decreases |o|
  {
    if o != [] {
      assert MapValues(o, f)[1..] == MapValues(o[1..], f);
      GetMapValues(o[1..], k, f);
    }
  }

  /** An array index: the canonical decimal spelling of an integer below 2^32 - 1. */
  predicate IsArrayIndex(k: string)
  {
    |k| >= 1 && AllDigits(k) && (k[0] != '0' || |k| == 1) && DecimalValue(k) < 0xFFFF_FFFF
  }

  function IndexValue(k: string): nat
  {
    if AllDigits(k) then DecimalValue(k) else 0
  }

  /** The enumeration order of an object's own string keys (`Object.entries`, `for…in`, `JSON.stringify`). */
  function PropertyOrder<V>(o: JsObject<V>): (r: JsObject<V>)
    ensures multiset(r) == multiset(o)
  {
    var isIndex := (e: (string, V)) => IsArrayIndex(e.0);
    var isName := (e: (string, V)) => !IsArrayIndex(e.0);
    FilterSplit(o, isIndex, isName);
    Sorting.SortBy(Sorting.Filter(o, isIndex), (a: (string, V), b: (string, V)) => IndexValue(a.0) <= IndexValue(b.0))
      + Sorting.Filter(o, isName)
  }

  lemma {:induction false} FilterSplit<T>(s: seq<T>, p: T -> bool, q: T -> bool)
    requires forall x :: q(x) == !p(x)
    ensures multiset(Sorting.Filter(s, p)) + multiset(Sorting.Filter(s, q)) == multiset(s)
    decreases |s|
  {
    if s != [] {
      FilterSplit(s[1..], p, q);
      assert s == [s[0]] + s[1..];
    }
  }

  lemma {:induction false} FilterAll<T>(s: seq<T>, p: T -> bool)
    requires forall i | 0 <= i < |s| :: p(s[i])
    ensures Sorting.Filter(s, p) == s
    decreases |s|
  {
    if s != [] {
      FilterAll(s[1..], p);
      assert s == [s[0]] + s[1..];
    }
  }

  lemma {:induction false} FilterNone<T>(s: seq<T>, p: T -> bool)
    requires forall i | 0 <= i < |s| :: !p(s[i])
    ensures Sorting.Filter(s, p) == []
    decreases |s|
  {
    if s != [] {
      FilterNone(s[1..], p);
    }
  }

  /** Without array-index keys an object enumerates in insertion order. */
  lemma InsertionOrderWithoutIndexKeys<V>(o: JsObject<V>)
    requires forall i | 0 <= i < |o| :: !IsArrayIndex(o[i].0)
    ensures PropertyOrder(o) == o
  {
    FilterNone(o, (e: (string, V)) => IsArrayIndex(e.0));
    FilterAll(o, (e: (string, V)) => !IsArrayIndex(e.0));
  }

  /** Array-index keys come first, in ascending numeric order, then every other key. */
  lemma IndexKeysFirst<V(!new)>(o: JsObject<V>)
    ensures var r := PropertyOrder(o);
      forall i, j | 0 <= i < j < |r| && IsArrayIndex(r[j].0) ::
        IsArrayIndex(r[i].0) && IndexValue(r[i].0) <= IndexValue(r[j].0)
  {
    var isIndex := (e: (string, V)) => IsArrayIndex(e.0);
    var isName := (e: (string, V)) => !IsArrayIndex(e.0);
    var leq := (a: (string, V), b: (string, V)) => IndexValue(a.0) <= IndexValue(b.0);
    var front := Sorting.SortBy(Sorting.Filter(o, isIndex), leq);
    var back := Sorting.Filter(o, isName);
    Sorting.FilterMembers(o, isName);
    Sorting.FilterMembers(o, isIndex);
    Sorting.SortBySorted(Sorting.Filter(o, isIndex), leq);
    var r := PropertyOrder(o);
    assert r == front + back;
    forall k | |front| <= k < |r|
      ensures !IsArrayIndex(r[k].0)
    {
      assert r[k] == back[k - |front|];
      assert r[k] in back;
    }
    forall i, j | 0 <= i < j < |r| && IsArrayIndex(r[j].0)
      ensures IsArrayIndex(r[i].0) && IndexValue(r[i].0) <= IndexValue(r[j].0)
    {
      assert r[i] == front[i] && r[j] == front[j];
      assert r[i] in multiset(front);
      assert r[i] in Sorting.Filter(o, isIndex);
    }
  }
}
