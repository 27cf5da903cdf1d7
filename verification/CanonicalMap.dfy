/** The canonical text of a string map, used to compare maps by comparing texts. */
module CanonicalMap {
  import opened Text
  import opened Wrappers

  // ----- query escaping -----

  predicate IsUnreserved(c: Byte) {
    'a' <= c <= 'z' || 'A' <= c <= 'Z' || '0' <= c <= '9' || c == '-' || c == '_' || c == '.' || c == '~'
  }

  function HexDigit(n: nat): Byte
    requires n < 16
  {
    if n < 10 then '0' + n as char else 'A' + (n - 10) as char
  }

  function EscapeByte(c: Byte): ByteString {
    if IsUnreserved(c) then [c]
    else if c == ' ' then ['+']
    else ['%', HexDigit(c as nat / 16), HexDigit(c as nat % 16)]
  }

  function QueryEscape(s: ByteString): ByteString {
    if s == [] then [] else EscapeByte(s[0]) + QueryEscape(s[1..])
  }

  /** The value of a hexadecimal digit (section 2.1 of RFC 3986). */
  function HexValue(c: Byte): Option<nat> {
    if '0' <= c <= '9' then Some(c as nat - 48)
    else if 'A' <= c <= 'F' then Some(c as nat - 55)
    else if 'a' <= c <= 'f' then Some(c as nat - 87)
    else None
  }

  /** Form decoding: a plus sign is a space, and a percent sign announces a byte. */
  function QueryUnescape(s: ByteString): Option<ByteString> {
    if s == [] then Some([])
    else if s[0] != '%' then
      match QueryUnescape(s[1..])
      case None => None
      case Some(rest) => Some([if s[0] == '+' then ' ' else s[0]] + rest)
    else if |s| < 3 || HexValue(s[1]).None? || HexValue(s[2]).None? then None
    else
      match QueryUnescape(s[3..])
      case None => None
      case Some(rest) => Some([(16 * HexValue(s[1]).value + HexValue(s[2]).value) as char] + rest)
  }

  lemma HexReadsBack(n: nat)
    requires n < 16
    ensures HexValue(HexDigit(n)) == Some(n)
  {
  }

  lemma ByteReadsBack(c: Byte, t: ByteString)
    ensures QueryUnescape(EscapeByte(c) + t)
         == match QueryUnescape(t) case None => None case Some(rest) => Some([c] + rest)
  {
    var s := EscapeByte(c) + t;
    assert s[|EscapeByte(c)|..] == t;
    if !IsUnreserved(c) && c != ' ' {
      HexReadsBack(c as nat / 16);
      HexReadsBack(c as nat % 16);
      assert s[1] == HexDigit(c as nat / 16) && s[2] == HexDigit(c as nat % 16);
    }
  }

  /** An escaped string decodes to itself, and bytes that need no escaping stay. */
  lemma {:induction false} EscapeReadsBack(s: ByteString)
    ensures QueryUnescape(QueryEscape(s)) == Some(s)
    ensures (forall i :: 0 <= i < |s| ==> IsUnreserved(s[i])) ==> QueryEscape(s) == s
  {
    if s != [] {
      EscapeReadsBack(s[1..]);
      ByteReadsBack(s[0], QueryEscape(s[1..]));
      assert [s[0]] + s[1..] == s;
      assert forall i :: 0 <= i < |s[1..]| ==> s[1..][i] == s[i + 1];
    }
  }

  /** Escaped text holds neither of the two separators. */
  predicate IsPlain(s: ByteString) { '=' !in s && '&' !in s }

  lemma EscapeIsInjective(s: ByteString, t: ByteString)
    requires QueryEscape(s) == QueryEscape(t)
    ensures s == t
  {
    EscapeReadsBack(s);
    EscapeReadsBack(t);
  }

  lemma {:induction false} EscapeIsPlain(s: ByteString)
    ensures IsPlain(QueryEscape(s))
  {
    if s != [] {
      EscapeIsPlain(s[1..]);
    }
  }

  // ----- rendering -----

  function Part(key: ByteString, value: ByteString): ByteString {
    QueryEscape(key) + ['='] + QueryEscape(value)
  }

  function JoinParts(parts: seq<ByteString>): ByteString {
    if parts == [] then []
    else if |parts| == 1 then parts[0]
    else parts[0] + ['&'] + JoinParts(parts[1..])
  }

  function Parts(keys: seq<ByteString>, m: map<ByteString, ByteString>): seq<ByteString>
    requires forall k :: k in keys ==> k in m
  {
    seq(|keys|, i requires 0 <= i < |keys| => Part(keys[i], m[keys[i]]))
  }

  /** The text of a map: the parts of its keys in ascending order. */
  ghost predicate IsCanonical(text: ByteString, m: map<ByteString, ByteString>) {
    exists keys :: Ascending(keys) && Elements(keys) == m.Keys && text == JoinParts(Parts(keys, m))
  }

  /** The map is visited in any order. */
  method CanonicalStringMap(values: map<ByteString, ByteString>) returns (text: ByteString)
    ensures IsCanonical(text, values)
  {
    var keys: seq<ByteString>, rest := [], values.Keys;
    while rest != {}
      invariant rest <= values.Keys && Ascending(keys) && Elements(keys) == values.Keys - rest
      decreases |rest|
    {
      var key :| key in rest;
      rest := rest - {key};
      assert key !in Elements(keys);
      keys := InsertKey(keys, key);
    }
    var parts: seq<ByteString> := [];
    for i := 0 to |keys|
      invariant |parts| == i
      invariant forall k :: 0 <= k < i ==> keys[k] in values && parts[k] == Part(keys[k], values[keys[k]])
    {
      assert keys[i] in Elements(keys);
      parts := parts + [Part(keys[i], values[keys[i]])];
    }
    assert forall k :: k in keys ==> k in Elements(keys);
    assert parts == Parts(keys, values);
    text := JoinParts(parts);
  }

  // ----- reading a text back -----

  lemma {:induction false} IndexAfter(a: ByteString, c: Byte, s: ByteString)
    requires c !in a
    ensures IndexOf<Byte>(a, c) == |a| && IndexOf<Byte>(a + [c] + s, c) == |a|
  {
    if a != [] {
      assert (a + [c] + s)[1..] == a[1..] + [c] + s;
      IndexAfter(a[1..], c, s);
    }
  }

  /** A text splits at its first separator in one way only. */
  lemma SplitIsUnique(a: ByteString, s: ByteString, b: ByteString, t: ByteString, c: Byte)
    requires c !in a && c !in b
    requires a + [c] + s == b + [c] + t
    ensures a == b && s == t
  {
    var l, r := a + [c] + s, b + [c] + t;
    IndexAfter(a, c, s);
    IndexAfter(b, c, t);
    assert a == l[..|a|] && b == r[..|b|];
    assert s == l[|a| + 1..] && t == r[|b| + 1..];
  }

  /** The fields between ampersands. */
  function Fields(text: ByteString): seq<ByteString>
    decreases |text|
  {
    if text == [] then []
    else
      var i := IndexOf<Byte>(text, '&');
      [text[..i]] + if i == |text| then [] else Fields(text[i + 1..])
  }

  lemma PartIsInjective(k1: ByteString, v1: ByteString, k2: ByteString, v2: ByteString)
    requires Part(k1, v1) == Part(k2, v2)
    ensures k1 == k2 && v1 == v2
  {
    EscapeIsPlain(k1);
    EscapeIsPlain(k2);
    SplitIsUnique(QueryEscape(k1), QueryEscape(v1), QueryEscape(k2), QueryEscape(v2), '=');
    EscapeIsInjective(k1, k2);
    EscapeIsInjective(v1, v2);
  }

  lemma PartIsOneField(key: ByteString, value: ByteString)
    ensures '&' !in Part(key, value) && Part(key, value) != []
  {
    EscapeIsPlain(key);
    EscapeIsPlain(value);
  }

  ghost predicate AreFields(parts: seq<ByteString>) {
    forall i :: 0 <= i < |parts| ==> '&' !in parts[i] && parts[i] != []
  }

  /** A joined text falls apart into its parts again. */
  lemma {:induction false} FieldsOfJoin(parts: seq<ByteString>)
    requires AreFields(parts)
    ensures Fields(JoinParts(parts)) == parts
  {
    if |parts| == 1 {
      IndexAfter(parts[0], '&', []);
      assert parts[0][..|parts[0]|] == parts[0];
    } else if parts != [] {
      var text, rest := JoinParts(parts), JoinParts(parts[1..]);
      IndexAfter(parts[0], '&', rest);
      FieldsOfJoin(parts[1..]);
      assert text == parts[0] + ['&'] + rest;
      assert text[..|parts[0]|] == parts[0] && text[|parts[0]| + 1..] == rest;
    }
  }

  /** Two texts are equal if and only if the maps are. */
  lemma CanonicalTextsIdentifyMaps(s: ByteString, m: map<ByteString, ByteString>,
                                   t: ByteString, n: map<ByteString, ByteString>)
    requires IsCanonical(s, m) && IsCanonical(t, n)
    ensures s == t <==> m == n
  {
    var a :| Ascending(a) && Elements(a) == m.Keys && s == JoinParts(Parts(a, m));
    var b :| Ascending(b) && Elements(b) == n.Keys && t == JoinParts(Parts(b, n));
    if m == n {
      AscendingIsUnique(a, b);
    }
    if s == t {
      SameTextSameMap(a, m, b, n);
    }
  }

  lemma SameTextSameMap(a: seq<ByteString>, m: map<ByteString, ByteString>,
                        b: seq<ByteString>, n: map<ByteString, ByteString>)
    requires Elements(a) == m.Keys && Elements(b) == n.Keys
    requires (forall k :: k in a ==> k in m) && (forall k :: k in b ==> k in n)
    requires JoinParts(Parts(a, m)) == JoinParts(Parts(b, n))
    ensures m == n
  {
    forall i | 0 <= i < |a| ensures '&' !in Parts(a, m)[i] && Parts(a, m)[i] != [] {
      PartIsOneField(a[i], m[a[i]]);
    }
    forall i | 0 <= i < |b| ensures '&' !in Parts(b, n)[i] && Parts(b, n)[i] != [] {
      PartIsOneField(b[i], n[b[i]]);
    }
    FieldsOfJoin(Parts(a, m));
    FieldsOfJoin(Parts(b, n));
    assert |a| == |b|;
    forall i | 0 <= i < |a| ensures a[i] == b[i] && m[a[i]] == n[b[i]] {
      assert Parts(a, m)[i] == Parts(b, n)[i];
      PartIsInjective(a[i], m[a[i]], b[i], n[b[i]]);
    }
    assert a == b;
    forall k | k in m ensures k in n && m[k] == n[k] {
      assert k in Elements(a);
      var i :| 0 <= i < |a| && a[i] == k;
    }
  }
}
